# Verified model of the core algorithms

A Dafny model of the parts of this C++ repository that carry real invariants: its JSON library, its HTTP
push parser, its XML library, the blocking task queue, the MQTT cluster relay, the text codecs, the configuration
tree and the server's connection table. `dafny verify dfyconfig.toml` checks the whole project.

Code that updates state in place is a class whose methods are proved against specification functions; the theorems
are lemmas about those functions. Protocols between threads or between brokers are state machines whose steps are the
calls the code makes. Bytes are characters (or the `byte` subset type in the codecs), integers are unbounded and every
width, wrap-around and cap the code depends on is written out.

| files | component |
|---|---|
| `JsonValue`, `JsonNumbers`, `JsonStrings`, `JsonWriter`, `JsonReader` | jsoncpp's value tree, `BuiltStyledStreamWriter` and `Reader`, as `JsonDocument` uses them |
| `JsonEscapes`, `JsonTokens`, `JsonGrammar`, `JsonRefusals`, `JsonComments`, `JsonLayout` | what they are to do: strings, texts and values by RFC 8259, what is refused, comments, and the writer's layout |
| `JsonRoundTrip`, `JsonLocality`, `JsonLeniency` | writing and reading together, what of a document counts, and what is accepted beyond the standard |
| `HttpBody`, `HttpExecute`, `HttpBuffers`, `HttpChunked`, `HttpMessage`, `HttpErrors`, `HttpContentLength`, `HttpMethod` | the message body, length and method states of `http_parser_execute`, whole messages, and broken ones |
| `HttpUrl`, `HttpUrlLayout`, `HttpUrlRoundTrip`, `HttpUrlForms`, `HttpUrlParser` | `http_parser_parse_url` and `http_parse_host` |
| `XmlNode`, `XmlAncestry`, `XmlPool` | tinyxml2's sibling lists, lines of ancestors, and its pool allocator |
| `XmlText`, `XmlPieces`, `XmlReferences`, `XmlLineEnds`, `XmlAmpersand`, `XmlWhitespace`, `XmlStrPair`, `XmlPrinter`, `XmlRoundTrip` | tinyxml2's text: escaping, finding, decoding in place, and what it is decoded to |
| `TaskQueue` | the queue with mutex and condition variable, as interleaved steps |
| `ClusterNode`, `ClusterContext`, `ClusterRelay`, `ClusterJoining` | one broker of a cluster, its linked list of peers, and the cluster as a whole |
| `ReconnectDelay` | the growing delay before a client connects again |
| `Bytes`, `Base32`, `Base32Codec`, `Base64`, `Base64Codec`, `BaseNumbers` | the block codecs with user-supplied alphabets |
| `ConfigTree`, `ConfigValue` | the nested configuration tables |
| `ConnectionTable`, `HttpRespond` | the table of accepted connections, and what a worker does with the socket of a finished request |
| `Digits`, `Unicode`, `Order`, `Sequences`, `Wrappers` | decimal and hexadecimal digits, UTF-8 by its definition, the order of strings, facts about sequences, and `Option` |

## Main results

- **JSON.** Every JSON text of RFC 8259 with integers for numbers is read as the value it denotes, however its strings
  are escaped and whatever white space it has; one with a wrong start, word, escape, separator, name or colon is refused.
  What the writer prints is such a text, so parsing it gives the same value, for every tree of nulls, booleans, 64-bit integers,
  byte strings, arrays and objects nested within the stack limit, for both indentations, and whatever text follows;
  beyond the limit it always fails. Two texts read back equal exactly when their values agree up to the integer payload.
  Of any document the reader accepts, only the text up to the end of its value counts.
- **HTTP body.** Whole-buffer parsing with bulk skipping and callback marks refines a byte-by-byte machine in whose
  every reachable state the parser's asserts hold. What the callbacks are told does not depend on how the bytes are cut
  into buffers, *exactly when* the data of no chunk is followed by a byte other than CR. These results are about the
  bytes up to where the run ends: on an error, behind the last byte of a message that another protocol takes over, or
  where it leaves the states of the body, in front of the next message's first line or of a trailer field.
  From the last byte of the headers on, the version, the flags and the length decide which bytes are the body, when
  the message is complete and whether the connection goes on; chunked decoding inverts chunked encoding and stops at
  the byte that breaks it; chunk sizes and Content-Length are exact and never reach the sentinel.
- **HTTP method and URL.** A word is accepted as a method exactly when it is one of the 33 names. The fields of an
  accepted URL are disjoint ranges in URL order that leave out only delimiters; parsing an assembled URL, a path or the
  server of a CONNECT request gives its parts.
- **XML tree.** The sibling lists stay well-formed doubly linked lists, and every insertion is the stated move between
  sequences; `InsertAfterChild` dereferences a null pointer in exactly one situation, which is characterised. A forest
  stays one exactly when the node inserted is neither the new parent nor one of its ancestors.
- **XML text.** In-place decoding never lets the write cursor pass the read cursor. A text of characters, named entities
  and references to characters is decoded to what it stands for, in UTF-8, and print, find, decode gives the
  text with its line ends normalized, which is the text itself exactly when it has no CR. Collapsing white space leaves
  the words of the text with one space between them.
- **Task queue.** Over all interleavings: mutual exclusion, no lost wakeup, no lost or doubled task, from the call of
  `Push` to the return of `Get`, delivery in the order in which the pushers got the mutex, no
  stuck state, and exactly when `Get` comes back without a task. Once no thread starts another call, at most six steps
  a thread lead to where every `Push` has come back and every `Get` has, or sleeps over an empty queue.
- **Cluster.** Over all runs: a relayed message makes one hop, and every link's queue has received exactly the messages
  published by the broker's own clients since the link was made, and at every connect a subscription to the cluster's
  topic and an announcement with the broker's name. A broker's links lead to the brokers it has heard of. Own clients are
  those whose ids do not start with `mosqcluster`; a broker relays everything published there exactly when no client's
  id does.
- **Codecs.** Both codes write the digits of the number a block is. Base64 decodes what it encoded exactly when `=` is
  not a key, and a text of several blocks exactly when nothing but zeros comes from behind its first short block; Base32 adds one zero byte exactly for lengths of 4 modulo 5.
- **Configuration.** The nested tables refine a flat map, and an archive lists every binding once, in order.
- **Connections and delays.** The slot search always succeeds below the counter. The sockets accepted are those in the
  table, those the loop closed and those it handed over to a worker, each as often as it was accepted: none is
  dropped, closed twice, or closed after it was handed over. A worker closes its socket in time, and what it sends is
  exactly the response if and only if some call of `send` completes it and nothing is sent behind that. The delay has
  a closed form exactly when the base is at least 1 and no product of the first max calls leaves 32 bits, or the base
  is 0 and the maximum not positive.

## What the proofs show about the code

Properties that one would expect and that the code does not have. The members named state exactly when the property
holds, for all inputs, and a concrete input where it does not.

- `http_parser_execute`, strict check behind a chunk's data (server/http_parser.cpp:2136): the jump to the error exit
  skips the body callback, so body bytes marked in that buffer are lost; with another cut they are reported
  (`HttpBuffers.CutInvariance`, `HttpBuffers.LostByte`).
- `http_parser_parse_url` reads the port with `strtoul`, which does not stop at the end of the buffer
  (`HttpUrlRoundTrip.PortIsExact`, `HttpUrlRoundTrip.PortReadsOn`); and it refuses a fragment right behind the server
  part, which section 3 of RFC 3986 allows (`HttpUrlRoundTrip.ParseOfAssembled`,
  `HttpUrlRoundTrip.FragmentBehindHost`).
- Spaces inside a Content-Length value are skipped, so `1 2` is 12 (`HttpContentLength.AcceptedConforms`,
  `HttpContentLength.SpaceInside`).
- `XMLNode::InsertAfterChild` re-inserting the last child behind its own previous sibling dereferences a null pointer
  (`XmlNode.Node.InsertAfterChild`, `XmlNode.ReinsertLast`).
- Inserting a node below itself is not refused; it leaves a cycle of parents and children, on
  which visiting the tree (xauth/tinyxml2/tinyxml2.cpp:2036) does not end (`XmlNode.Node.InsertEndChild`,
  `XmlNode.InsertIntoItself`).
- A hexadecimal character reference beyond 32 bits is read modulo 2^32 (`XmlReferences.HexIsExactIff`,
  `XmlReferences.WrappedReference`); a decimal one digit by digit, so that a one with 32 zeros is a NUL
  (`XmlReferences.DecimalIsExactIff`, `XmlReferences.VanishingReference`).
- LF CR is normalized to one LF; section 2.11 of XML 1.0 gives two. The reader and the standard agree exactly when
  every longest run of alternating CR and LF that starts with LF has odd length (`XmlLineEnds.NormalizesAsStandard`,
  `XmlLineEnds.FeedThenReturn`).
- `XMLPrinter::PrintString` writes the last run of a text in one block of at most INT_MAX characters
  (`XmlPrinter.PrintedIsEscape`, `XmlPrinter.LongRunIsCut`). That is so for a printer that writes to a file; nothing
  is cut of a text whose printed form fits an int, as an in-memory printer needs it (`XmlPrinter.ShortIsWhole`).
- An ampersand that starts no known entity leaves, at the write position, whatever character stood there
  (xauth/tinyxml2/tinyxml2.cpp:341-345), so `&lt;&x` becomes `<lx`; it is kept exactly when that character is an
  ampersand (`XmlAmpersand.KeepsUnknown`, `XmlAmpersand.StaleLetter`).
- `TaskQueue::Get` tests the queue once, so it can come back without a task although nothing failed: exactly when it
  slept and the queue is empty when it takes the mutex again (`TaskQueue.NoneExactlyWhen`). Another getter may have
  been faster (`TaskQueue.WokenForNothing`), but one pusher and one getter are enough, when the broadcast for a task
  that was already taken comes late (`TaskQueue.WokenTooLate`).
- `Base64::Decrypt` keeps writing blocks three bytes apart after a short block, so text with a filled block in the
  middle decodes with gaps (`Base64.DecodesBlocks`, `Base64.EncodedTwice`, `Base64.ShortBlockLeavesGap`).
- Archiving a configuration name that starts with a dot and leads into a nested table loses the dot
  (`ConfigTree.RejoinedIsName`, `ConfigTree.LeadingDotIsLost`).
- The sweep of the connection table scans only as many slots as there are clients, so an expired client beyond that
  stays (`ConnectionTable.Table.Sweep`, `ConnectionTable.LateClientStays`). The server runs it only when `epoll_wait`
  fails (server/server.cpp:211).
- The server's loop goes on receiving after it has handed a socket over, and the handler hands a finished request over
  with every block, so a socket is handed over once more with every further block of the same event
  (`ConnectionTable.Table.OnEvent`, `ConnectionTable.HandedOverTwice`). The write limit that a hand-over starts is never
  looked at, because the client leaves the table in the same event.
- `SendResponse` looks at `errno` also behind a `send` that sent everything (server/http_server.cpp:57), which leaves
  the `errno` of an earlier call in place; then the end of the response is sent again (`HttpRespond.DeliveredOnce`,
  `HttpRespond.StaleError`).
- What a client publishes whose id starts with `mosqcluster` is not relayed (`ClusterRelay.RelaysAllPublished`,
  `ClusterRelay.TakenForBroker`).
- The reconnect delay can overflow: with a base of 2, backoff and the largest maximum, in the eighth call
  (`ReconnectDelay.ClosedForm`, `ReconnectDelay.EighthCall`).
- The JSON reader does not look at what follows the value (`JsonLeniency.TextBehind`, `JsonLeniency.NullThenMore`); it
  reads `-` as 0 and accepts leading zeros (`JsonLeniency.AcceptedInteger`, `JsonLeniency.MinusIsZero`,
  `JsonLeniency.LeadingZeros`); it accepts `}` behind a comma exactly when the name of the member before is empty
  (`JsonLeniency.TrailingComma`, `JsonLeniency.CommaThenBrace`); behind a comment it takes any token but `}` for the
  comma between two members (`JsonLeniency.BetweenMembers`, `JsonLeniency.BracketForComma`); and an array without items
  is refused exactly when it has a comment in it (`JsonLeniency.EmptyArray`, `JsonLeniency.CommentInArray`). Printed
  texts never get there.

## Model

| member | source | states |
|---|---|---|
| `Digits.DigitsAre` | helper/jsoncpp/jsoncpp.cpp:867-893 | the sixteen hexadecimal digits in either case, and the ten decimal ones, have their values |
| `Digits.NoOtherDigits` | helper/jsoncpp/jsoncpp.cpp:867-893 | and no other character is a digit |
| `Order.LessByCharacters` | helper/jsoncpp/jsoncpp.cpp:2475-2486 | a string is less than its continuations, and behind a common start the smaller character decides |
| `Order.LessIsTotal` | helper/jsoncpp/jsoncpp.cpp:2475-2486 | the order of member names is total and strict |
| `Order.LessIsTransitive` | helper/jsoncpp/jsoncpp.cpp:2475-2486 | and transitive, so an object's members have one sorted order |
| `JsonValue.SetMemberIsMapUpdate` | helper/jsoncpp/jsoncpp.cpp:3192-3209 | assigning a member keeps the names sorted, binds the name to the value and changes no other member |
| `JsonValue.CanonicalDecidesSame` | helper/jsoncpp/jsoncpp.cpp:746-753 | values are equal up to integer payload exactly when their forms with the reader's choice of payload are equal |
| `JsonValue.CanonicalIsSame` | helper/jsoncpp/jsoncpp.cpp:746-753 | the reader's choice of integer payload does not change the number, anywhere in a tree |
| `JsonNumbers.DecimalFitsBuffer` | helper/jsoncpp/jsoncpp.cpp:135-142 | 64-bit numbers have at most 20 digits, so the 25-byte buffer is never underrun |
| `JsonNumbers.UIntToString` | helper/jsoncpp/jsoncpp.cpp:149-155 | writes the decimal digits and a NUL downwards, and nothing else of the buffer |
| `JsonNumbers.ValueToString` | helper/jsoncpp/jsoncpp.cpp:3833-3857 | every number of either 64-bit payload, the least negative one included, becomes its decimal notation |
| `JsonNumbers.DecodeNumber` | helper/jsoncpp/jsoncpp.cpp:714-754 | the digit loop gives an integer exactly when the token is one and its value fits (2^64-1, or 2^63 when negative), without a product or sum beyond the limit |
| `JsonNumbers.DecodeOfPrinted` | helper/jsoncpp/jsoncpp.cpp:714-754 | decoding inverts printing for all 64-bit values |
| `JsonStrings.HasSpecialCharacter` | helper/jsoncpp/jsoncpp.cpp:3966-3986 | finds exactly whether some character needs an escape |
| `JsonStrings.EscapeOne` | helper/jsoncpp/jsoncpp.cpp:3997-4037 | the switch emits the escape of one character |
| `JsonStrings.ValueToQuotedString` | helper/jsoncpp/jsoncpp.cpp:3980-4041 | both paths emit the quoted, escaped string |
| `JsonStrings.DecodeUnicodeEscapeSequence` | helper/jsoncpp/jsoncpp.cpp:867-893 | the digit loop reads exactly four hexadecimal digits, or fails |
| `JsonStrings.DecodeUnicodeCodePoint` | helper/jsoncpp/jsoncpp.cpp:838-865 | reads a code point, two escapes for a surrogate pair |
| `JsonStrings.DecodeString` | helper/jsoncpp/jsoncpp.cpp:785-836 | the loop over a string token decodes it, or fails exactly when the specification does |
| `JsonEscapes.CodePointIsForm` | helper/jsoncpp/jsoncpp.cpp:104-131 | the bytes of a code point are its UTF-8 form by section 3 of RFC 3629: the first byte says how many, they give the code back, and there is no shorter form |
| `JsonEscapes.UnescapeOfWritten` | helper/jsoncpp/jsoncpp.cpp:785-836 | a string whose characters are written as themselves, with any short escape, or with one or two `\u` escapes in small or capital digits (section 7 of RFC 8259) is decoded to these characters and the UTF-8 forms of the codes |
| `JsonEscapes.EscapeDenotesCode` | helper/jsoncpp/jsoncpp.cpp:838-893 | every code up to U+10FFFF outside the surrogates, as one escape or a pair, is decoded to bytes that a UTF-8 decoder reads as that code |
| `JsonEscapes.EscapesAreExact` | helper/jsoncpp/jsoncpp.cpp:785-865 | behind any characters a backslash at the end or in front of another letter, a `\u` without four digits and a first surrogate without a second escape are refused |
| `JsonEscapes.Ideograph` | helper/jsoncpp/jsoncpp.cpp:104-131 | `\u4e2D` is decoded to E4 B8 AD |
| `JsonEscapes.ClosingQuoteOfWritten` | helper/jsoncpp/jsoncpp.cpp:607-617 | the string ends at the quote behind its characters, whatever follows, and without that quote there is no end |
| `JsonEscapes.EscapeIsChosen` | helper/jsoncpp/jsoncpp.cpp:3997-4037 | the writer uses a short escape where there is one, but for the slash, a `\u` escape with capital digits for the other control characters, and nothing else |
| `JsonEscapes.UnescapeOfEscape` | helper/jsoncpp/jsoncpp.cpp:785-836 | decoding the escaped form of any byte string gives the string |
| `JsonEscapes.EscapeHasNoControl` | helper/jsoncpp/jsoncpp.cpp:3980-4041 | no printed string contains a control character, so neither a NUL nor a line end |
| `JsonWriter.StreamWriter.Write` | helper/jsoncpp/jsoncpp.cpp:4617-4630 | the stream receives exactly the text of the value |
| `JsonWriter.StreamWriter.WriteValue` | helper/jsoncpp/jsoncpp.cpp:4632-4689 | one value: its text on the stream, or on the buffer of child texts |
| `JsonWriter.StreamWriter.WriteObject` | helper/jsoncpp/jsoncpp.cpp:4661-4687 | an object between its braces, with the indentation restored |
| `JsonWriter.StreamWriter.WriteMembers` | helper/jsoncpp/jsoncpp.cpp:4667-4683 | the loop over the members |
| `JsonWriter.StreamWriter.WriteMember` | helper/jsoncpp/jsoncpp.cpp:4671-4676 | one member: line, name, colon, value |
| `JsonWriter.StreamWriter.WriteArrayValue` | helper/jsoncpp/jsoncpp.cpp:4691-4736 | an array in the layout chosen for it |
| `JsonWriter.StreamWriter.WriteLines` | helper/jsoncpp/jsoncpp.cpp:4697-4721 | the multi-line layout, from buffered child texts or by writing the children |
| `JsonWriter.StreamWriter.WriteItemLine` | helper/jsoncpp/jsoncpp.cpp:4703-4712 | one item on its own line |
| `JsonWriter.StreamWriter.WriteSingleLine` | helper/jsoncpp/jsoncpp.cpp:4722-4734 | the single-line layout finds exactly one buffered text per element |
| `JsonWriter.StreamWriter.IsMultilineArray` | helper/jsoncpp/jsoncpp.cpp:4738-4764 | decides the layout and leaves the buffer with the texts of the elements, or empty |
| `JsonWriter.StreamWriter.BufferChildValues` | helper/jsoncpp/jsoncpp.cpp:4750-4760 | buffers one text per element and adds up their lengths |
| `JsonLayout.MultilineExactly` | helper/jsoncpp/jsoncpp.cpp:4738-4764 | an array goes on one line exactly when it has at most 24 items, all of them scalars or empty containers, and the line is shorter than 74 characters |
| `JsonLayout.ArrayOnLine` | helper/jsoncpp/jsoncpp.cpp:4722-4734 | that line |
| `JsonLayout.ArrayOnLines` | helper/jsoncpp/jsoncpp.cpp:4697-4721 | any other array: one item a line, indented once more, and the bracket on its own line; without an indentation there are no lines |
| `JsonLayout.ObjectOnLines` | helper/jsoncpp/jsoncpp.cpp:4661-4687 | an object: one member a line, likewise |
| `JsonReader.Reader.Parse` | helper/jsoncpp/jsoncpp.cpp:300-340 | the reader object reads what the grammar specifies for the document: the value, false, or the exception for the stack limit; it stops where it would have to read a double |
| `JsonReader.Reader.SkipWhiteSpace` | helper/jsoncpp/jsoncpp.cpp:485-493 | moves behind all leading white space |
| `JsonReader.Reader.ReadNumber` | helper/jsoncpp/jsoncpp.cpp:585-605 | moves behind the longest number token |
| `JsonReader.Reader.ReadString` | helper/jsoncpp/jsoncpp.cpp:607-617 | moves behind the first unescaped quote, or fails |
| `JsonReader.Reader.MatchWord` | helper/jsoncpp/jsoncpp.cpp:495-504 | matches a word or leaves the position |
| `JsonReader.Reader.ReadToken` | helper/jsoncpp/jsoncpp.cpp:414-483 | the next token, comments included, its characters and the position behind it |
| `JsonReader.Reader.SkipCommentTokens` | helper/jsoncpp/jsoncpp.cpp:404-412 | the next token that is no comment |
| `JsonReader.Reader.ReadComment` | helper/jsoncpp/jsoncpp.cpp:506-526 | the extent of a comment, or what is consumed of something that is none |
| `JsonReader.Reader.ReadCStyleComment` | helper/jsoncpp/jsoncpp.cpp:560-567 | moves behind the first end of a comment, or to the end of the document |
| `JsonReader.Reader.ReadCppStyleComment` | helper/jsoncpp/jsoncpp.cpp:569-583 | moves behind the end of the line, CR LF as one |
| `JsonReader.Reader.ReadOneValue` | helper/jsoncpp/jsoncpp.cpp:342-402 | one value under the depth limit, stored in the current node |
| `JsonReader.Reader.ReadArray` | helper/jsoncpp/jsoncpp.cpp:669-704 | an array, an empty one recognised by its bracket |
| `JsonReader.Reader.ReadArrayItems` | helper/jsoncpp/jsoncpp.cpp:680-703 | the loop over the items, one node pushed and popped for each |
| `JsonReader.Reader.ReadObject` | helper/jsoncpp/jsoncpp.cpp:619-667 | the loop over the members |
| `JsonReader.Reader.ReadMember` | helper/jsoncpp/jsoncpp.cpp:623-651 | one round: comments, a closing brace where the last name is empty, or name, colon and value |
| `JsonReader.Reader.EndMember` | helper/jsoncpp/jsoncpp.cpp:653-663 | the end of a round: a comma, a closing brace, or comments and any token behind them |
| `JsonGrammar.ReadSyntax` | helper/jsoncpp/jsoncpp.cpp:342-483 | every JSON text of RFC 8259 with integers for numbers, with any white space, is read as the value it denotes, whatever follows, or gives the exception when it is nested deeper than 1000 |
| `JsonGrammar.ReadItemsSyntax` | helper/jsoncpp/jsoncpp.cpp:669-704 | the items of an array up to its bracket; anything else there is refused |
| `JsonGrammar.ReadEntriesSyntax` | helper/jsoncpp/jsoncpp.cpp:619-667 | the members of an object up to its brace; anything else there is refused |
| `JsonGrammar.NumberIsToken` | helper/jsoncpp/jsoncpp.cpp:585-754 | a number is one token, and is decoded to its integer exactly when that fits 64 bits |
| `JsonGrammar.ReadsEveryText` | helper/jsoncpp/jsoncpp.cpp:300-340 | the same for a document with white space in front |
| `JsonGrammar.ParseText` | helper/jsoncpp/jsoncpp.cpp:300-340 | and for the reader object |
| `JsonRefusals.WrongStart` | helper/jsoncpp/jsoncpp.cpp:414-483 | no other character than those that start a value or a comment starts one |
| `JsonRefusals.WrongWord` | helper/jsoncpp/jsoncpp.cpp:495-504 | a word that is none is refused |
| `JsonRefusals.TooLarge` | helper/jsoncpp/jsoncpp.cpp:714-754 | an integer beyond 64 bits is left to the doubles |
| `JsonRefusals.OpenString` | helper/jsoncpp/jsoncpp.cpp:607-617 | a string without its closing quote is refused |
| `JsonRefusals.WrongEscape` | helper/jsoncpp/jsoncpp.cpp:785-865 | so is one with a wrong escape |
| `JsonRefusals.NoEndOfArray` | helper/jsoncpp/jsoncpp.cpp:692-703 | and an array with something else behind its items than a comma, a bracket or a comment |
| `JsonRefusals.NoEndOfObject` | helper/jsoncpp/jsoncpp.cpp:653-663 | and an object, likewise |
| `JsonRefusals.NoName` | helper/jsoncpp/jsoncpp.cpp:623-641 | an object without a name is refused |
| `JsonRefusals.NoColon` | helper/jsoncpp/jsoncpp.cpp:643-647 | and one without a colon |
| `JsonComments.CommentIsToken` | helper/jsoncpp/jsoncpp.cpp:506-583 | a comment ends at the first asterisk with a slash behind it, or with its line |
| `JsonComments.CommentIsSkipped` | helper/jsoncpp/jsoncpp.cpp:404-412 | in front of a value it makes no difference |
| `JsonComments.NoComments` | helper/jsoncpp/jsoncpp.cpp:506-567 | a comment without an end, and a slash that starts none, are refused |
| `JsonRoundTrip.TextIsTree` | helper/jsoncpp/jsoncpp.cpp:4632-4736 | what the writer prints is a JSON text |
| `JsonRoundTrip.TreeDenotes` | helper/jsoncpp/jsoncpp.cpp:4632-4736 | and denotes the value, up to integer payload |
| `JsonRoundTrip.ReadText` | helper/jsoncpp/jsoncpp.cpp:342-483 | reading a printed value, with any text behind it, gives the value and that text |
| `JsonRoundTrip.TextHasNoNul` | helper/jsoncpp/jsoncpp.cpp:4632-4736 | no printed text contains a NUL, so it survives being passed as a C string |
| `JsonRoundTrip.RoundTrip` | helper/json_wrapper.cpp:58-72 | parsing what the writer printed gives the same value for every tree within the stack limit and every white indentation, and fails beyond the limit |
| `JsonRoundTrip.PrintedAlike` | helper/json_wrapper.cpp:58-72 | two printed texts read back equal exactly when the values are the same up to integer payload |
| `JsonRoundTrip.WriteThenParse` | helper/json_wrapper.cpp:58-72 | Write followed by Parse, on the writer and reader objects, succeeds exactly within the stack limit and gives the value back |
| `JsonLocality.TokenAgree` | helper/jsoncpp/jsoncpp.cpp:414-483 | a token is settled by its own characters and at most the next one |
| `JsonLocality.ValueAgree` | helper/jsoncpp/jsoncpp.cpp:342-402 | reading a value depends only on the text up to its end |
| `JsonLocality.MembersAgree` | helper/jsoncpp/jsoncpp.cpp:619-667 | so does reading the members of an object |
| `JsonLocality.ItemsAgree` | helper/jsoncpp/jsoncpp.cpp:669-704 | and the items of an array |
| `JsonLocality.IntegerEnds` | helper/jsoncpp/jsoncpp.cpp:585-605 | behind an integer nothing is left that would go on it |
| `JsonLocality.OnlyTheValueCounts` | helper/jsoncpp/jsoncpp.cpp:320-339 | of an accepted document only the text up to the end of the value counts: with any other text behind it the same value is read, exactly when that text does not go on an integer |
| `JsonLeniency.TextBehind` | helper/jsoncpp/jsoncpp.cpp:320-339 | the value of an accepted document is read whatever text follows, unless that goes on an integer; the document ends behind it exactly when only white space does |
| `JsonLeniency.NullThenMore` | helper/jsoncpp/jsoncpp.cpp:320-339 | the document `null x` is read as null |
| `JsonLeniency.AcceptedInteger` | helper/jsoncpp/jsoncpp.cpp:714-754 | a token read as an integer is one by section 6 of RFC 8259 exactly when it has a digit and no leading zero; without a digit it is 0 |
| `JsonLeniency.MinusIsZero` | helper/jsoncpp/jsoncpp.cpp:714-754 | the document `-` is read as 0 |
| `JsonLeniency.LeadingZeros` | helper/jsoncpp/jsoncpp.cpp:714-754 | the document `007` is read as 7 |
| `JsonLeniency.TrailingComma` | helper/jsoncpp/jsoncpp.cpp:623-666 | with a comma and a closing brace behind any member, whatever stands before it, the object is read exactly when that member has the empty name |
| `JsonLeniency.CommaThenBrace` | helper/jsoncpp/jsoncpp.cpp:623-666 | `{"":null,}` is read and `{"a":null,}` is refused |
| `JsonLeniency.MemberThen` | helper/jsoncpp/jsoncpp.cpp:635-651 | the text of a member, with comments wherever they are allowed, is read as that member whatever follows, unless that goes on an integer |
| `JsonLeniency.BetweenMembers` | helper/jsoncpp/jsoncpp.cpp:653-663 | behind any member the object ends at a closing brace; reading goes on with the next member exactly behind a comma, or behind a comment and any other token; anything else is refused |
| `JsonLeniency.BracketForComma` | helper/jsoncpp/jsoncpp.cpp:653-663 | an object with a comment and a bracket between two members is read with both |
| `JsonLeniency.EmptyArray` | helper/jsoncpp/jsoncpp.cpp:673-679 | an array without items is read exactly when no comment is in it |
| `JsonLeniency.CommentInArray` | helper/jsoncpp/jsoncpp.cpp:673-679 | an empty array is read, one with a comment in it is refused |
| `HttpBody.OneByteKeepsInv` | server/http_parser.cpp:1931-2147 | every byte keeps the invariant that makes the body asserts hold; a byte is refused exactly when errno is set, and the run leaves the body states only at a byte that starts a line of the next message or of a trailer |
| `HttpBody.RunKeepsInv` | server/http_parser.cpp:1931-2147 | in every state that any bytes lead to, the asserts of the body states hold |
| `HttpBody.ExecuteConcat` | server/http_parser.cpp:728-735 | a byte run over s + t is the run over s followed by the run over t, unless it stopped in s |
| `HttpBody.RunEnds` | server/http_parser.cpp:2180-2191 | a run is refused exactly when errno is set, took all bytes when nothing stopped it, and leaves only in front of a byte that starts a line of the next message or of a trailer |
| `HttpExecute.BulkSkip` | server/http_parser.cpp:2110-2131 | skipping n body bytes at once equals stepping over them one by one |
| `HttpExecute.LastByte` | server/http_parser.cpp:1977-2012 | the last bytes of a body of known length complete the message |
| `HttpExecute.HttpParser.constructor` | server/http_parser.cpp:2253-2263 | a parser whose headers are read up to their last byte |
| `HttpExecute.HttpParser.CompleteMessage` | server/http_parser.cpp:2020-2027 | a new message or a dead connection, and whether another protocol takes over |
| `HttpExecute.HttpParser.HeadersComplete` | server/http_parser.cpp:1931-1975 | which of the body states, or the end of the message, follows the headers; `HttpMessage` says what that means for the bytes |
| `HttpExecute.HttpParser.ChunkSizeByte` | server/http_parser.cpp:2029-2080 | a digit, the end or the parameters of a chunk size, refused before the length could wrap or reach the sentinel |
| `HttpExecute.HttpParser.ChunkLineByte` | server/http_parser.cpp:2093-2108 | the line feed that ends a chunk line or a chunk |
| `HttpExecute.HttpParser.TrailerByte` | server/http_parser.cpp:1343-1353 | the empty line behind the last chunk |
| `HttpExecute.HttpParser.EndOfTrailer` | server/http_parser.cpp:1869-1880 | the empty trailer completes the last chunk and the message |
| `HttpExecute.HttpParser.HeaderByte` | server/http_parser.cpp:728-735 | counting header bytes, and one byte of a state without body bytes; a byte that starts another line is left |
| `HttpExecute.HttpParser.DispatchByte` | server/http_parser.cpp:2029-2108 | one step of the byte machine, with its callbacks |
| `HttpExecute.HttpParser.EndOfChunkData` | server/http_parser.cpp:2133-2139 | reports the marked body bytes, or loses them when the byte is not CR |
| `HttpExecute.HttpParser.SkipBody` | server/http_parser.cpp:1977-2018 | skips and marks the body bytes of this buffer |
| `HttpExecute.HttpParser.SkipHeaderByte` | server/http_parser.cpp:2029-2147 | a byte of a state without body bytes, in the middle of a buffer |
| `HttpExecute.HttpParser.Execute` | server/http_parser.cpp:651-2191 | one call with a buffer: new parser, bytes consumed, how it ended and callbacks are those of the byte machine, but for marked bytes at a broken chunk end |
| `HttpExecute.HttpParser.ExecuteEndOfStream` | server/http_parser.cpp:675-694 | a call with no bytes completes a body without length, is ignored between messages and is an error elsewhere |
| `HttpBuffers.ExecuteBuffers` | server/http_parser.cpp:651-2191 | the calls for a sequence of buffers, until one of them stops early, follow the specification of cut runs |
| `HttpBuffers.CutsAgree` | server/http_parser.cpp:697-728 | for any cut into buffers the final parser, the bytes taken and the ending are those of one buffer, and the callbacks tell the same up to data of a broken last chunk |
| `HttpBuffers.BrokenCutsDiffer` | server/http_parser.cpp:2133-2139 | where a chunk's data is followed by a byte other than CR, one buffer reports less than two buffers cut right before that byte |
| `HttpBuffers.StopsAtBrokenEnd` | server/http_parser.cpp:2133-2139 | a run stops there with an error, and the data of the chunk are its last signals |
| `HttpBuffers.LostByte` | server/http_parser.cpp:2133-2139 | a chunk of one byte and a wrong byte: lost in one buffer, reported in two |
| `HttpBuffers.CutInvariance` | server/http_parser.cpp:697-728 | what the callbacks are told is independent of the cuts exactly when, at no position of the bytes, the data of a chunk ends and a byte other than CR follows |
| `HttpChunked.ChunkSizeExact` | server/http_parser.cpp:2029-2080 | the length is the exact value of the hexadecimal digits, and a number of 2^64-16 or more is refused |
| `HttpChunked.HexNumeralIs` | server/http_parser.cpp:2029-2080 | that value is the number in base 16, with small or capital digits |
| `HttpChunked.SkipExtension` | server/http_parser.cpp:2082-2091 | chunk extensions are skipped |
| `HttpChunked.RunChunk` | server/http_parser.cpp:2029-2147 | one chunk signals its size, its bytes and its end |
| `HttpChunked.ChunkedRoundTrip` | server/http_parser.cpp:2029-2147 | for every list of non-empty chunks, ended by a zero chunk and an empty trailer: exactly their bytes are delivered, the message completes once, and the parser stops on the last byte |
| `HttpChunked.IdentityBody` | server/http_parser.cpp:1977-2012 | a body of known length: exactly that many bytes, then the message is complete and the rest belongs to the next |
| `HttpMessage.KnownLength` | server/http_parser.cpp:1931-2012 | from the last byte of the headers: with a known length other than 0 exactly that many bytes are data, then the message is complete, and the rest is the next one or left to another protocol |
| `HttpMessage.InChunks` | server/http_parser.cpp:1931-2147 | with chunks, whatever length is given: every chunk with its data and its end, then the message is complete |
| `HttpMessage.NoBody` | server/http_parser.cpp:1931-1975 | without a body, with length 0, or a request without a length: complete at once |
| `HttpMessage.UntilEnd` | server/http_parser.cpp:1966-2018 | a response with neither a length nor chunks: all that follows is its body |
| `HttpMessage.OtherProtocol` | server/http_parser.cpp:1941-1947 | another protocol takes over behind the headers of CONNECT, or where no body is read |
| `HttpMessage.OnlyLineFeed` | server/http_parser.cpp:1931-1936 | the headers end with a line feed and nothing else |
| `HttpMessage.BetweenMessages` | server/http_parser.cpp:739-749 | blank lines are skipped between messages and behind the last one, where nothing else is taken |
| `HttpMessage.HeadersTooLong` | server/http_parser.cpp:728-735 | no byte is taken beyond 80 kilobytes of headers |
| `HttpErrors.NoSize` | server/http_parser.cpp:2029-2046 | a chunk without a size is refused |
| `HttpErrors.NoEndOfSize` | server/http_parser.cpp:2048-2072 | so is a size followed by neither the end of its line nor an extension |
| `HttpErrors.NoLineFeed` | server/http_parser.cpp:2093-2097 | a line of a chunk that ends without a line feed |
| `HttpErrors.TooMuchData` | server/http_parser.cpp:2133-2139 | more data than the size says: the data are signalled first |
| `HttpErrors.NoEndOfData` | server/http_parser.cpp:2141-2147 | data without a line feed behind the carriage return |
| `HttpErrors.BehindLastChunk` | server/http_parser.cpp:1343-1353 | behind the last chunk a trailer field is left, and a line without a line feed refused |
| `HttpContentLength.ReadContentLength` | server/http_parser.cpp:1561-1574 | with lines 1601-1684: the length is the exact number of the digits in front of the first line end, below the sentinel; refused exactly when malformed, repeated or 2^64-6 or more |
| `HttpContentLength.PlainNumber` | server/http_parser.cpp:1561-1684 | a value of digits alone is well-formed and stands for its number |
| `HttpContentLength.AcceptedConforms` | server/http_parser.cpp:1660-1684 | an accepted value is one of section 3.3.2 of RFC 7230 exactly when nothing but spaces follows a space |
| `HttpContentLength.SpaceInside` | server/http_parser.cpp:1660-1684 | the value `1 2` is read as 12 |
| `HttpMethod.BasicNames` | server/http_parser.h:164-204 | the names of the methods, one by one |
| `HttpMethod.WebDavNames` | server/http_parser.h:164-204 | the same |
| `HttpMethod.VersioningNames` | server/http_parser.h:164-204 | the same |
| `HttpMethod.OtherNames` | server/http_parser.h:164-204 | the same |
| `HttpMethod.ConsumedIsPrefix` | server/http_parser.cpp:1025-1079 | after any input the bytes consumed are the first index characters of the current method's name |
| `HttpMethod.RecognitionIsExact` | server/http_parser.cpp:994-1079 | a word followed by a space is accepted, with a given method, exactly when it is that method's name |
| `HttpMethod.NamesDiffer` | server/http_parser.h:164-204 | the 33 names are different |
| `HttpMethod.MethodMatcher.Start` | server/http_parser.cpp:983-1023 | the first character selects a representative of the methods that start with it |
| `HttpMethod.MethodMatcher.Continue` | server/http_parser.cpp:1025-1079 | one more character follows the specification of the matcher |
| `HttpMethod.MethodMatcher.Recognize` | server/http_parser.cpp:983-1079 | the method found is the one whose name the word is; none is found exactly when there is no such name |
| `HttpUrl.UrlCharsAreTable` | server/http_parser.cpp:243-275 | the characters of a path are those whose bits are set in the table `normal_url_char` |
| `HttpUrl.CharacterKinds` | server/http_parser.cpp:415-432 | the characters of a host, of user information and of a schema, by their codes |
| `HttpUrlLayout.Transition` | server/http_parser.cpp:490-649 | a character never leads back: it stays in its field, opens one further on or is a delimiter |
| `HttpUrlLayout.UrlByteKeepsInv` | server/http_parser.cpp:2455-2511 | every byte of the first pass keeps the fields ordered and the bytes covered |
| `HttpUrlLayout.HostTransition` | server/http_parser.cpp:2274-2355 | the same for the states of the second pass |
| `HttpUrlLayout.HostByteKeepsInv` | server/http_parser.cpp:2367-2418 | every byte of the second pass keeps the fields of the server part ordered and covered |
| `HttpUrlLayout.AcceptedIsWellLaid` | server/http_parser.cpp:2443-2545 | the fields of an accepted URL of at most 65535 bytes are disjoint, in URL order, hold the characters of their kind, and every byte outside them is a delimiter |
| `HttpUrlRoundTrip.StrtoulOfField` | server/http_parser.cpp:2533-2540 | strtoul gives the number of a field exactly when no digit follows it or all digits are zeros |
| `HttpUrlRoundTrip.PortIsExact` | server/http_parser.cpp:2531-2543 | the port equals the number of its field exactly when the field ends before the buffer, no digit follows the buffer in memory, or all digits from the field on are zeros |
| `HttpUrlRoundTrip.PortReadsOn` | server/http_parser.cpp:2531-2543 | the buffer `a:8` with a 0 behind it in memory: the field is 8 and the port is 80 |
| `HttpUrlRoundTrip.ParseOfAssembled` | server/http_parser.cpp:2443-2545 | a URL put together from its parts, the host a name or an address in brackets with or without a zone, is parsed into exactly those parts, unless its fragment comes right behind the server part |
| `HttpUrlRoundTrip.FragmentBehindHost` | server/http_parser.cpp:2443-2545 | the URL `http://a#f` is refused |
| `HttpUrlForms.ParseOfPath` | server/http_parser.cpp:2443-2545 | a URL that is a path with a query and a fragment is parsed into these |
| `HttpUrlForms.ParseOfServer` | server/http_parser.cpp:2443-2545 | the URL of a CONNECT request is parsed into a host and a port, and refused without a port or with user information |
| `HttpUrlParser.ParsedUrl.ParseHost` | server/http_parser.cpp:2356-2436 | the loop over the server part updates the fields as specified, or fails |
| `HttpUrlParser.ParsedUrl.Parse` | server/http_parser.cpp:2443-2545 | the loop over the URL fills the structure as specified, or fails |
| `XmlNode.Node.constructor` | xauth/tinyxml2/tinyxml2.cpp:826-847 | a node without parent, siblings or children |
| `XmlNode.Node.ChildrenDiffer` | xauth/tinyxml2/tinyxml2.cpp:826-847 | a linked list of children has no duplicates |
| `XmlNode.Node.JoinNeighbours` | xauth/tinyxml2/tinyxml2.cpp:831-846 | the pointer updates join the neighbours of the child and clear its links |
| `XmlNode.Node.Unlink` | xauth/tinyxml2/tinyxml2.cpp:826-847 | the children are the old ones without the child, correctly linked |
| `XmlNode.Node.LinkLast` | xauth/tinyxml2/tinyxml2.cpp:872-888 | the pointer updates put a node at the end of the list |
| `XmlNode.Node.LinkFirst` | xauth/tinyxml2/tinyxml2.cpp:902-919 | the pointer updates put a node at the start |
| `XmlNode.Node.LinkBehind` | xauth/tinyxml2/tinyxml2.cpp:951-955 | the pointer updates put a node behind a child that has a next sibling |
| `XmlNode.Node.InsertChildPreamble` | xauth/tinyxml2/tinyxml2.cpp:1139-1151 | the node leaves its parent's list and no other list changes |
| `XmlNode.Node.InsertEndChild` | xauth/tinyxml2/tinyxml2.cpp:863-890 | the node moves from where it was to the end of this list; refused exactly when the documents differ; a forest stays one exactly when the node is neither this one nor one of its ancestors |
| `XmlNode.Node.InsertFirstChild` | xauth/tinyxml2/tinyxml2.cpp:893-921 | the node moves to the start of this list; refused exactly when the documents differ; a forest stays one exactly when the node is neither this one nor one of its ancestors |
| `XmlNode.Node.MoveBehind` | xauth/tinyxml2/tinyxml2.cpp:950-956 | the node moves behind a child that has a next sibling, or a null pointer is dereferenced |
| `XmlNode.Node.InsertAfterChild` | xauth/tinyxml2/tinyxml2.cpp:924-957 | the node moves behind the given child; refused exactly when the documents differ or the child is another parent's; the null dereference happens exactly when the node is the last child already and follows it; a forest stays one exactly when the node is neither this one nor one of its ancestors |
| `XmlNode.ReinsertLast` | xauth/tinyxml2/tinyxml2.cpp:924-957 | inserting the second of two children behind the first dereferences a null pointer |
| `XmlNode.AbsentElsewhere` | xauth/tinyxml2/tinyxml2.cpp:826-847 | among well-linked nodes a node is in no list but its parent's |
| `XmlNode.InsertIntoItself` | xauth/tinyxml2/tinyxml2.cpp:863-890 | a node inserted below itself is its own parent, in no forest |
| `XmlAncestry.RootedAfterMove` | xauth/tinyxml2/tinyxml2.cpp:863-957 | after a node is moved below another, every line of ancestors still ends exactly when it was not that node or above it |
| `XmlText.ConvertUTF32ToUTF8` | xauth/tinyxml2/tinyxml2.cpp:403-453 | the bytes are filled from the last to the first |
| `XmlText.Utf8IsExact` | xauth/tinyxml2/tinyxml2.cpp:403-453 | the bytes are the UTF-8 form of the code (section 3 of RFC 3629): the first says how many, and they give the code back |
| `XmlText.CharacterRef` | xauth/tinyxml2/tinyxml2.cpp:456-549 | a reference never writes more bytes than it reads |
| `XmlText.GetCharacterRef` | xauth/tinyxml2/tinyxml2.cpp:456-549 | finds the end of a reference and computes the specified one |
| `XmlText.ReadDigits` | xauth/tinyxml2/tinyxml2.cpp:483-541 | the backward loop over the digits, weighted in 32 bits |
| `XmlText.NextStep` | xauth/tinyxml2/tinyxml2.cpp:279-353 | no decoding step writes more than it reads; `XmlPieces` says what is decoded |
| `XmlText.LinesCount` | xauth/tinyxml2/tinyxml2.cpp:201-214 | the lines counted are the line feeds |
| `XmlPieces.ReferenceIsRead` | xauth/tinyxml2/tinyxml2.cpp:456-549 | a decimal or hexadecimal reference to a code below 0x200000, in digits of either case, is replaced by the UTF-8 form of the code |
| `XmlPieces.EntityIsRead` | xauth/tinyxml2/tinyxml2.cpp:328-340 | each of the five named entities is found by its name |
| `XmlPieces.DecodePieces` | xauth/tinyxml2/tinyxml2.cpp:276-354 | a text of characters, named entities and references is decoded to the characters and the forms of the codes, with line ends normalized where they are written as themselves; with or without entities, with or without normalization |
| `XmlPieces.Examples` | xauth/tinyxml2/tinyxml2.cpp:302-326 | `&#65;` and `&#x41;` are an A, `&#x4E2d;` is E4 B8 AD, and a named entity among line ends |
| `XmlPieces.NoReference` | xauth/tinyxml2/tinyxml2.cpp:309-326 | `&#z;` stays as it is, and of `&#` at the end the ampersand is lost |
| `XmlPieces.FoundIsFirst` | xauth/tinyxml2/tinyxml2.cpp:193-215 | what is found is the first occurrence of the tag, with no NUL in front of it; and where there is one, it is found |
| `XmlPieces.FindGet` | xauth/tinyxml2/tinyxml2.cpp:193-365 | ParseText and GetStr on a buffer give the decoded text before the tag |
| `XmlPieces.FindGetPieces` | xauth/tinyxml2/tinyxml2.cpp:193-365 | so they give what a text of characters, entities and references in front of the tag stands for |
| `XmlReferences.DecimalIsRead` | xauth/tinyxml2/tinyxml2.cpp:518-541 | decimal digits are read as the sum of the weighted digits, each cut to 32 bits |
| `XmlReferences.DecimalIsExact` | xauth/tinyxml2/tinyxml2.cpp:518-541 | a decimal number below 2^32 is read exactly, with any leading zeros |
| `XmlReferences.HexIsModular` | xauth/tinyxml2/tinyxml2.cpp:470-515 | hexadecimal digits are read modulo 2^32 |
| `XmlReferences.DecimalReference` | xauth/tinyxml2/tinyxml2.cpp:456-549 | a decimal reference is replaced by the UTF-8 form of the sum of its weighted digits, each cut to 32 bits |
| `XmlReferences.HexReference` | xauth/tinyxml2/tinyxml2.cpp:456-549 | a hexadecimal reference is replaced by the form of its number modulo 2^32 |
| `XmlReferences.HexIsExactIff` | xauth/tinyxml2/tinyxml2.cpp:456-549 | which is its number exactly when it is below 2^32 or its lower 32 bits are no code |
| `XmlReferences.WrappedReference` | xauth/tinyxml2/tinyxml2.cpp:456-549 | a reference beyond 32 bits becomes an A |
| `XmlReferences.DecimalIsExactIff` | xauth/tinyxml2/tinyxml2.cpp:456-549 | a decimal reference is read exactly when its number is below 2^32 or what is read is no code |
| `XmlReferences.VanishingReference` | xauth/tinyxml2/tinyxml2.cpp:456-549 | the reference to 10^32 becomes one NUL |
| `XmlStrPair.StrPair.ParseText` | xauth/tinyxml2/tinyxml2.cpp:193-215 | the text runs to the first occurrence of the end tag, or nothing changes; the lines passed are counted either way |
| `XmlStrPair.StrPair.Search` | xauth/tinyxml2/tinyxml2.cpp:201-214 | the loop that looks for the tag and counts the lines in front of it, or all there are |
| `XmlStrPair.StrPair.GetStr` | xauth/tinyxml2/tinyxml2.cpp:267-365 | the first call decodes the text in its own buffer, collapses its white space if asked to, ends it with NUL and touches nothing outside; later calls do nothing |
| `XmlStrPair.StrPair.Process` | xauth/tinyxml2/tinyxml2.cpp:273-360 | what GetStr does to a text that needs something |
| `XmlStrPair.StrPair.CollapseWhitespace` | xauth/tinyxml2/tinyxml2.cpp:238-264 | the start moves to the first word, and the text becomes the collapsed one |
| `XmlStrPair.StrPair.CollapseWords` | xauth/tinyxml2/tinyxml2.cpp:249-263 | the loop with two cursors collapses the text in place |
| `XmlStrPair.StrPair.SkipWhiteSpace` | xauth/tinyxml2/tinyxml2.h:553-564 | moves behind the white space |
| `XmlWhitespace.CollapsedIsWords` | xauth/tinyxml2/tinyxml2.cpp:238-264 | the collapsed text is the words of the text with one space between them |
| `XmlWhitespace.WhiteIs` | xauth/tinyxml2/tinyxml2.h:571-573 | the six white characters |
| `XmlWhitespace.CollapsedOfSpaced` | xauth/tinyxml2/tinyxml2.cpp:238-264 | words with any white space in front of, between and behind them become the words with one space between them |
| `XmlStrPair.StrPair.DecodeInPlace` | xauth/tinyxml2/tinyxml2.cpp:276-354 | the loop with two cursors writes the decoded text at the start of the buffer |
| `XmlStrPair.StrPair.WriteStep` | xauth/tinyxml2/tinyxml2.cpp:280-352 | one round of the loop: the write cursor stays at or behind the read cursor and unread bytes are unchanged |
| `XmlStrPair.StrPair.DecodeReference` | xauth/tinyxml2/tinyxml2.cpp:309-326 | the branch for character references |
| `XmlStrPair.StrPair.FindEntity` | xauth/tinyxml2/tinyxml2.cpp:328-340 | the loop over the entity table |
| `XmlStrPair.StrPair.StartsWith` | xauth/tinyxml2/tinyxml2.cpp:202-202 | comparing with a pattern stops at the terminating NUL |
| `XmlPrinter.Printer.PrintString` | xauth/tinyxml2/tinyxml2.cpp:2564-2616 | the file receives the escaped text, with the last run cut to INT_MAX characters |
| `XmlPrinter.Printer.WriteEscaped` | xauth/tinyxml2/tinyxml2.cpp:2571-2604 | the loop writes everything up to the last entity |
| `XmlPrinter.Printer.WriteRun` | xauth/tinyxml2/tinyxml2.cpp:2579-2584 | a run between entities is written completely, in blocks |
| `XmlPrinter.Printer.WriteEntity` | xauth/tinyxml2/tinyxml2.cpp:2585-2598 | the loop over the entity table always finds the flagged character |
| `XmlPrinter.PrintedIsEscape` | xauth/tinyxml2/tinyxml2.cpp:2605-2611 | the file receives the whole escaped text exactly when the last run fits one block |
| `XmlPrinter.ShortIsWhole` | xauth/tinyxml2/tinyxml2.cpp:2605-2611 | nothing is cut of a text whose printed form has a length that fits an int |
| `XmlPrinter.LongRunIsCut` | xauth/tinyxml2/tinyxml2.cpp:2605-2611 | a text of more than INT_MAX characters without entities is cut |
| `XmlLineEnds.NormalizedIsSame` | xauth/tinyxml2/tinyxml2.cpp:280-302 | normalizing line ends leaves no CR, and changes exactly the texts with a CR |
| `XmlLineEnds.NormalizesAsStandard` | xauth/tinyxml2/tinyxml2.cpp:280-302 | normalizing is that of section 2.11 of XML 1.0 exactly when every longest alternating run that starts with LF has odd length; otherwise it gives fewer line feeds |
| `XmlLineEnds.FeedThenReturn` | xauth/tinyxml2/tinyxml2.cpp:294-302 | LF CR becomes one line feed where the standard gives two; LF CR LF becomes two either way |
| `XmlAmpersand.WrittenStays` | xauth/tinyxml2/tinyxml2.cpp:341-345 | what is written stays, with and without unknown ampersands |
| `XmlAmpersand.KeepsUnknown` | xauth/tinyxml2/tinyxml2.cpp:341-345 | unknown ampersands are kept exactly when each of them is written over an ampersand |
| `XmlAmpersand.StaleLetter` | xauth/tinyxml2/tinyxml2.cpp:341-345 | a letter of an entity takes the place of the ampersand behind it |
| `XmlRoundTrip.TagIsFound` | xauth/tinyxml2/tinyxml2.cpp:193-215 | the end tag behind an escaped text is found where it stands |
| `XmlRoundTrip.DecodeEscaped` | xauth/tinyxml2/tinyxml2.cpp:276-354 | decoding an escaped text gives the text with its line ends normalized |
| `XmlRoundTrip.RoundTrip` | xauth/tinyxml2/tinyxml2.cpp:2564-2616 | finding and decoding undo printing: the result is the text exactly when line ends are not normalized or it has no CR |
| `XmlRoundTrip.PrintedIsShown` | xauth/tinyxml2/tinyxml2.cpp:2605-2611 | printing a text with an overlong last run prints a prefix of it |
| `XmlRoundTrip.PrintedHasNoMarkup` | xauth/tinyxml2/tinyxml2.cpp:2495-2506 | no printed text has an angle bracket, and no attribute's value a quote |
| `XmlRoundTrip.PrintFindGet` | xauth/tinyxml2/tinyxml2.cpp:2564-2616 | the whole round trip on the printer, the buffer and the string pair |
| `XmlPool.Pool.constructor` | xauth/tinyxml2/tinyxml2.h:349-349 | an empty pool |
| `XmlPool.NewBlock` | xauth/tinyxml2/tinyxml2.h:377-385 | the items of a new block are linked in order |
| `XmlPool.Pool.Alloc` | xauth/tinyxml2/tinyxml2.h:374-398 | the item was not in use; a block is added exactly when none was free; counters and chain stay right |
| `XmlPool.Pool.AddBlock` | xauth/tinyxml2/tinyxml2.h:375-386 | the new block's items become the free ones |
| `XmlPool.Pool.Pop` | xauth/tinyxml2/tinyxml2.h:387-389 | the first item of the chain becomes in use |
| `XmlPool.Pool.CountAlloc` | xauth/tinyxml2/tinyxml2.h:391-396 | the current count and its running maximum |
| `XmlPool.Pool.Free` | xauth/tinyxml2/tinyxml2.h:400-411 | the item becomes the first free one; null is let through |
| `XmlPool.Pool.Overwrite` | xauth/tinyxml2/tinyxml2.h:420-430 | writing into an item in use cannot damage the pool |
| `XmlPool.PeakIsMaximum` | xauth/tinyxml2/tinyxml2.h:391-394 | the maximum counter is the largest number ever in use |
| `XmlPool.Take` | xauth/tinyxml2/tinyxml2.h:387-389 | free and in-use items still partition all items when one is taken |
| `XmlPool.Give` | xauth/tinyxml2/tinyxml2.h:400-411 | and when one is given back |
| `XmlPool.Grow` | xauth/tinyxml2/tinyxml2.h:375-386 | and when a block is added |
| `TaskQueue.StepKeepsExclusive` | helper/waitable_impl_posix.cpp:25-67 | every step keeps the mutex with the one thread between its Acquire and its Release |
| `TaskQueue.StepKeepsWakeup` | helper/task_queue_posix.h:15-20 | every step keeps: if someone sleeps over a task, a broadcast is still to come |
| `TaskQueue.StepKeepsConserved` | helper/task_queue_posix.h:15-37 | every step keeps: pushed tasks are the popped ones followed by the queue, popped ones the returned ones and the one on the way |
| `TaskQueue.RunsAreSafe` | helper/task_queue_posix.h:15-37 | all three hold in every state of every run of any number of threads, and Get has returned the first of the pushed tasks in order |
| `TaskQueue.OfferedIsPushed` | helper/task_queue_posix.h:15-20 | every value passed to Push is pushed once, or still held by its caller |
| `TaskQueue.NothingIsLost` | helper/task_queue_posix.h:15-37 | so it is held by its caller, in the queue, in the hands of one Get or returned by one |
| `TaskQueue.PushedInOrder` | helper/task_queue_posix.h:15-20 | the tasks are in the order in which their pushers got the mutex |
| `TaskQueue.SomeoneGoesOn` | helper/waitable_impl_posix.cpp:25-59 | as long as a thread is inside a call and not asleep, some thread inside can go on |
| `TaskQueue.QuietMeansEmpty` | helper/task_queue_posix.h:26-37 | when everyone is outside or asleep, the mutex is free and nobody sleeps over a task |
| `TaskQueue.CallsFinish` | helper/task_queue_posix.h:15-37 | from every reachable state, once no thread starts another call, all take at most six steps each; where none can go on, every Push has come back and every Get has, or sleeps over an empty queue |
| `TaskQueue.ReachesQuiet` | helper/task_queue_posix.h:15-37 | and the threads can always go on to such a state |
| `TaskQueue.HeldSince` | helper/waitable_impl_posix.cpp:25-67 | over any run, the thread that holds the mutex and the queue are as its own last step left them |
| `TaskQueue.NoneExactlyWhen` | helper/task_queue_posix.h:26-37 | over any run, Get comes back without a task exactly when the wait failed, or it slept and the queue was empty when it took the mutex again; otherwise with the first task of that moment |
| `TaskQueue.WokenForNothing` | helper/waitable_impl_posix.cpp:25-36 | a run without failures in which Get comes back without a task, because another getter was faster |
| `TaskQueue.WokenTooLate` | helper/task_queue_posix.h:15-37 | another one with one pusher and one getter, woken by the broadcast for the task it has already taken |
| `ClusterNode.ProxyPassKeeps` | mosquitto_cluster_plugin/cluster_plugin_context.cpp:117-129 | relaying keeps: links lead to different other brokers, queues are complete and in order |
| `ClusterNode.LearnKeeps` | mosquitto_cluster_plugin/cluster_plugin_context.cpp:43-50 | hearing a name keeps it, and never adds the broker itself or a peer twice |
| `ClusterNode.MaintainAllKeeps` | mosquitto_cluster_plugin/cluster_plugin_context.cpp:131-138 | the list of names from the registry keeps it |
| `ClusterNode.ConnectedKeeps` | mosquitto_cluster_plugin/cluster_plugin_context.cpp:33-41 | connecting keeps it |
| `ClusterNode.DrainKeeps` | mosquitto_cluster_plugin/mosq_client.cpp:288-303 | taking a command from a queue keeps it |
| `ClusterContext.MosqClient.PublishOnce` | mosquitto_cluster_plugin/mosq_client.cpp:288-303 | a connected client takes the first command, if there is one |
| `ClusterContext.ClusterPluginContext.AclCheck` | mosquitto_cluster_plugin/mosquitto_plugin.cpp:85-91 | only write access leads to relaying |
| `ClusterContext.ClusterPluginContext.MosqProxyPass` | mosquitto_cluster_plugin/cluster_plugin_context.cpp:117-129 | a message of a client that is no relay is queued once for every peer, any other for none |
| `ClusterContext.ClusterPluginContext.RelayToAll` | mosquitto_cluster_plugin/cluster_plugin_context.cpp:124-128 | the walk over the linked list reaches every peer once |
| `ClusterContext.ClusterPluginContext.MaintainProxyInstances` | mosquitto_cluster_plugin/cluster_plugin_context.cpp:140-183 | a new name is appended with an empty queue, a known one changes nothing |
| `ClusterContext.ClusterPluginContext.Append` | mosquitto_cluster_plugin/cluster_plugin_context.cpp:173-181 | the walk to the end of the list appends the node |
| `ClusterContext.ClusterPluginContext.MaintainAllInstances` | mosquitto_cluster_plugin/cluster_plugin_context.cpp:131-138 | the loop over the names leaves out the broker itself |
| `ClusterContext.ClusterPluginContext.OnMessage` | mosquitto_cluster_plugin/cluster_plugin_context.cpp:43-50 | another broker's announcement is learned, other messages are ignored |
| `ClusterContext.ClusterPluginContext.OnConnect` | mosquitto_cluster_plugin/cluster_plugin_context.cpp:33-41 | a successful connection subscribes and announces the broker; `ClusterJoining.GreetsPeers` says with which commands |
| `ClusterContext.ClusterPluginContext.PublishRound` | mosquitto_cluster_plugin/mosq_client.cpp:288-303 | a round of the publish loop, seen from the broker |
| `ClusterRelay.ArrivalChangesNothing` | mosquitto_cluster_plugin/cluster_plugin_context.cpp:120-122 | a packet that arrives at a broker is not relayed again |
| `ClusterRelay.StepKeepsInv` | mosquitto_cluster_plugin/cluster_plugin_context.cpp:117-183 | every event in the cluster keeps the invariant of all brokers and of all packets on the way |
| `ClusterRelay.RelayedIsLocal` | mosquitto_cluster_plugin/cluster_plugin_context.cpp:117-129 | over any run a broker relays exactly what was published there by clients whose ids do not start with the prefix |
| `ClusterRelay.RelaysAllPublished` | mosquitto_cluster_plugin/cluster_plugin_context.cpp:117-129 | it relays everything published there exactly when no client's id starts with the prefix |
| `ClusterRelay.TakenForBroker` | mosquitto_cluster_plugin/cluster_plugin_context.cpp:120-122 | a message of a client called `mosqclusterX` is not relayed |
| `ClusterRelay.RelayIsSafe` | mosquitto_cluster_plugin/cluster_plugin_context.cpp:117-183 | over any run: no duplicate or self peer, what a connection took is a prefix of what was queued, and each local publish was queued once for every peer of that time |
| `ClusterRelay.OneHop` | mosquitto_cluster_plugin/cluster_plugin_context.cpp:117-129 | a relayed message on the network was published by a client of its sender, travels to another broker and makes no further hop |
| `ClusterJoining.LinksAreKnown` | mosquitto_cluster_plugin/cluster_plugin_context.cpp:132-183 | over any run, the links of a broker lead to the other brokers it has heard of, in the order in which it first did |
| `ClusterJoining.QueuedIsOwed` | mosquitto_cluster_plugin/cluster_plugin_context.cpp:33-183 | over any run, what was ever queued on a link is told by the events: its own clients' messages since the broker is known, and a subscription and an announcement at every connect |
| `ClusterJoining.SentTravels` | mosquitto_cluster_plugin/mosq_client.cpp:288-303 | what was taken from a queue is on the network, from this broker to that peer |
| `ClusterJoining.GreetsPeers` | mosquitto_cluster_plugin/cluster_plugin_context.cpp:33-41 | so the commands of a link that are no relayed messages are, for every connect and in order, Subscribe to `/mosq/cluster/join` and Announce with the broker's name; and their packets are on the network once they were taken |
| `ReconnectDelay.MosqDelay.constructor` | mosquitto_cluster_plugin/mosq_client.cpp:27-33 | a timer before its first call |
| `ReconnectDelay.MosqDelay.Get` | mosquitto_cluster_plugin/mosq_client.cpp:35-49 | one call follows the specification of the timer, which is undefined where the counter or the product leaves 32 bits |
| `ReconnectDelay.AfterCalls` | mosquitto_cluster_plugin/mosq_client.cpp:35-49 | for any base and maximum, after n calls the delay is min(max, base * (n!)^2), or n! without backoff, and the maximum when the base has reached it; the calls are defined exactly when no counter or product leaves 32 bits |
| `ReconnectDelay.ClosedForm` | mosquitto_cluster_plugin/mosq_client.cpp:35-49 | every call is defined and returns the closed form exactly when the base is at least 1 and no product of the first max calls leaves 32 bits, or the base is 0 and the maximum not positive |
| `ReconnectDelay.EighthCall` | mosquitto_cluster_plugin/mosq_client.cpp:35-49 | a base of 2 with backoff and the largest maximum overflows in the eighth call |
| `ReconnectDelay.NthDelay` | mosquitto_cluster_plugin/mosq_client.cpp:35-49 | for any base and maximum, n calls on a timer return the closed form, or the maximum when the base has reached it, or run into undefined behaviour |
| `ReconnectDelay.DelaysGrow` | mosquitto_cluster_plugin/mosq_client.cpp:35-49 | delays do not shrink and never exceed the maximum |
| `ReconnectDelay.DelaysReachMaximum` | mosquitto_cluster_plugin/mosq_client.cpp:35-49 | with a base of at least 1 they reach the maximum within max calls |
| `ReconnectDelay.ClientDelays` | mosquitto_cluster_plugin/mosq_client.cpp:267-267 | the client waits 2, 8 and then 35 seconds, and no product leaves 32 bits |
| `Bytes.KeyTable.constructor` | helper/crypto/base32.cpp:82-84 | a table starts with the default alphabet |
| `Bytes.KeyTable.SetKeys` | helper/crypto/base32.cpp:86-103 | 0 exactly for enough different keys; the default alphabet replaces one that is too short; the index inverts different keys |
| `Bytes.KeyTable.FillIndex` | helper/crypto/base32.cpp:95-101 | the counting loop finds duplicates, and the index of a key is its last position |
| `Bytes.OrIsSum` | helper/crypto/base64.cpp:31-42 | bitwise or of numbers whose bits do not meet is their sum |
| `Base32.OctetsOfGroups` | helper/crypto/base32.cpp:10-79 | the bytes of a block come back from its groups, four bytes with a zero behind them |
| `Base32.EncodedIsSmall` | helper/crypto/base32.cpp:10-38 | encoded text consists of keys |
| `Base32.RoundTrip` | helper/crypto/base32.cpp:105-132 | for every alphabet of different keys and every string, decoding gives the string, with one zero byte more exactly for lengths of 4 modulo 5 |
| `BaseNumbers.Encodes32` | helper/crypto/base32.cpp:10-38 | the keys of a block stand for the digits, in base 32, of the number its five bytes are in base 256; a shorter block takes as many as it has bits for |
| `Base32Codec.DefaultAlphabet` | helper/crypto/base32.cpp:8-8 | the default alphabet, character by character |
| `Base32Codec.Codec.EncryptBlock` | helper/crypto/base32.cpp:10-38 | one block is written to its place in the output |
| `Base32Codec.Codec.DecryptBlock` | helper/crypto/base32.cpp:40-79 | one block of any length and any bytes is read to its place in the output |
| `Base32Codec.Codec.Encrypt` | helper/crypto/base32.cpp:105-119 | the block loop writes the encoding of the string |
| `Base32Codec.Codec.Decrypt` | helper/crypto/base32.cpp:121-132 | the block loop writes the decoding of any text |
| `Base32Codec.Codec.EncryptThenDecrypt` | helper/crypto/base32.cpp:86-132 | SetKeys, Encrypt and Decrypt on the buffers |
| `Base64.OctetsOfBlock` | helper/crypto/base64.cpp:11-42 | a block is decoded to its bytes |
| `Base64.DecodedEncoded` | helper/crypto/base64.cpp:68-95 | decoding undoes encoding for every string, without an equals sign among the keys |
| `Base64.FillingKey` | helper/crypto/base64.cpp:31-42 | with one there is a string that does not come back |
| `Base64.RoundTrip` | helper/crypto/base64.cpp:68-95 | so decoding undoes encoding for every string exactly when the equals sign is not a key |
| `BaseNumbers.Encodes64` | helper/crypto/base64.cpp:11-29 | the keys of a block stand for the digits, in base 64, of the number its three bytes are in base 256, and equals signs for those without a bit: section 4 of RFC 4648 |
| `Base64Codec.DefaultAlphabet` | helper/crypto/base64.cpp:9-9 | the default alphabet, character by character |
| `Base64.LaidFrom` | helper/crypto/base64.cpp:82-95 | a byte of the output comes from an earlier or the same place of the blocks' bytes, or is a zero |
| `Base64.DecodesBlocks` | helper/crypto/base64.cpp:82-95 | a text is decoded to what its blocks give exactly when only zeros come from behind the first short block |
| `Base64.EncodedTwice` | helper/crypto/base64.cpp:68-95 | two encoded strings in a row are decoded to the two strings exactly when the first has no short block or the second is all zeros |
| `Base64.ShortBlockLeavesGap` | helper/crypto/base64.cpp:82-95 | two strings of one and two bytes in front of a full block: the gap is filled with zeros and the end is cut off |
| `Base64Codec.Codec.constructor` | helper/crypto/base64.cpp:45-47 | the default alphabet, of section 4 of RFC 4648, is accepted and has no equals sign |
| `Base64Codec.Codec.EncryptBlock` | helper/crypto/base64.cpp:11-29 | one block is written to its place in the output |
| `Base64Codec.Codec.DecryptBlock` | helper/crypto/base64.cpp:31-42 | one block of any bytes is read to its place in the output, zeros behind it |
| `Base64Codec.Codec.Encrypt` | helper/crypto/base64.cpp:68-80 | the block loop writes the encoding of the string |
| `Base64Codec.Codec.Decrypt` | helper/crypto/base64.cpp:82-95 | the block loop writes the blocks of any text three bytes apart and cuts the result |
| `Base64Codec.Codec.EncryptThenDecrypt` | helper/crypto/base64.cpp:49-95 | SetKeys, Encrypt and Decrypt on the buffers |
| `ConfigTree.LookupAfterStore` | helper/config.cpp:57-73 | storing a value changes what exactly that name finds |
| `ConfigTree.TreeIsFlat` | helper/config.cpp:11-73 | after any series of stores a name finds the value last stored for exactly that name |
| `ConfigTree.StoreKeepsShape` | helper/config.cpp:57-73 | stores keep every value at the place its name leads to |
| `ConfigTree.RejoinedIsName` | helper/config.cpp:81-95 | path and leaf of an archived binding rejoin to its name exactly unless the name starts with a dot and leads into a nested table |
| `ConfigTree.LeadingDotIsLost` | helper/config.cpp:81-95 | the name `.ab` is read back as `ab` |
| `ConfigTree.EntryOfDotted` | helper/config.cpp:81-95 | a name of parts without dots is archived under the path of all its parts but the last, if that has two characters at least |
| `ConfigTree.ValuesComeFirst` | helper/config.cpp:81-95 | a table's own values come first in its archive, by their names |
| `ConfigTree.ArchivedTable` | helper/config.cpp:86-94 | archiving one more nested table adds its names once each |
| `ConfigTree.ArchiveHasAll` | helper/config.cpp:81-95 | every binding of a tree has its entry in the archive |
| `ConfigTree.ArchiveIsComplete` | helper/config.cpp:81-95 | an archive has one entry for every name, with its value |
| `Order.AscendingFrom` | helper/config.cpp:81-95 | the first key of a map comes first |
| `ConfigValue.ValueTable.Get` | helper/config.cpp:11-29 | the recursive lookup |
| `ConfigValue.ValueTable.Set` | helper/config.cpp:57-73 | the update in place of the table a name leads to, made if it is missing |
| `ConfigValue.ValueTable.Archive` | helper/config.cpp:81-95 | the values of a table and then its nested tables, both in ascending order, each binding once |
| `ConfigValue.Config.Get` | helper/config.cpp:126-128 | an absent name is an empty string |
| `ConfigValue.Config.Set` | helper/config.cpp:142-144 | after a Set every name finds what it found before, but for the one set |
| `ConfigValue.Config.Archive` | helper/config.cpp:156-158 | one entry for every name, in order, with its value, which reads back as the name but for the lost dot |
| `ConnectionTable.CountUpdate` | server/server.cpp:199-201 | changing one slot changes the count by what it held and holds |
| `ConnectionTable.FullBelow` | server/server.cpp:155-161 | a table whose first n slots are in use counts at least n |
| `ConnectionTable.Table.constructor` | server/server.cpp:119-122 | an empty table |
| `ConnectionTable.Table.Accept` | server/server.cpp:140-161 | refused, and the socket closed, exactly when the table is full; otherwise the first free slot, which is among the first accept_size + 1, takes the client and its index |
| `ConnectionTable.Table.Remove` | server/server.cpp:199-208 | the client's slot becomes free and the counter follows; its socket is closed exactly when the client still has it |
| `ConnectionTable.Table.Receive` | server/server.cpp:175-196 | the receiving loop: the limit is renewed, or the socket is handed over with the first block the handler takes it with, and once more with every other one |
| `ConnectionTable.Table.OnEvent` | server/server.cpp:174-208 | reading renews the limit; a hand-over, the end of the stream and a hang-up take the client out; its socket is closed exactly when it is not handed over; no client in the table has a write limit |
| `ConnectionTable.Table.Sweep` | server/server.cpp:211-233 | exactly the clients in the scanned slots whose last accept or read was at a positive time more than the read limit before are taken out, exactly their sockets are closed, in order, and the counter follows; no such client stays exactly when none is in a slot behind those |
| `ConnectionTable.LateClientStays` | server/server.cpp:211-233 | a client in the second slot stays nine seconds after its time when the first slot is free |
| `ConnectionTable.KeptForLimit` | server/server.cpp:140-233 | a client accepted at 1000 with a limit of 15 is kept at 1015 and gone at 1016 |
| `ConnectionTable.Table.OnePlace` | server/server.cpp:140-233 | a socket that was accepted once is in the table, closed or handed over, and only one of these |
| `ConnectionTable.SocketsUpdate` | server/server.cpp:155-201 | changing one slot changes the sockets in the table by what it held and holds |
| `ConnectionTable.HandedOverTwice` | server/server.cpp:177-191 | with two blocks of a finished request the socket is handed over twice, and not closed |
| `HttpRespond.DeliveredOnce` | server/http_server.cpp:45-62 | what is sent is a part of the response from its start exactly when nothing is sent behind a call that sent all that was left, and the whole response exactly when some call sends all that is left, too |
| `HttpRespond.ClosesInTime` | server/http_server.cpp:20-62 | the socket is closed at the latest by a call more than 15 seconds behind the first one |
| `HttpRespond.StaysOpen` | server/http_server.cpp:45-62 | until then it stays open as long as errno says try again |
| `HttpRespond.ClosesAtEnd` | server/http_server.cpp:45-62 | it is closed behind a call that sends all that is left or nothing, without an errno that says try again |
| `HttpRespond.StaleError` | server/http_server.cpp:45-62 | a response of two characters, sent with one call, is sent twice when errno is that of an earlier call |

## Left out

- JSON doubles, error messages and recovery, sparse arrays, and the comments attached to values: a run that reaches a double ends there.
- JsonReader.Reader.Parse: says nothing about what is in the value after a failure, when the original has left there what it had read.
- JSON lengths beyond 32 bits: string lengths are kept in 30 bits and `size * 3` in 32 by the code; the model has neither limit.
- HTTP: request line and header fields other than the method and Content-Length, folded values, trailer fields, query states of `http_parser_execute`, upgrade decisions, callbacks that fail or pause. `HttpExecute.HttpParser` starts at the last byte of the headers.
- HttpExecute.HttpParser.Execute: stops in front of the next message's first line and of a trailer field, where the original goes on; so do `HttpBuffers.ExecuteBuffers` and everything that is proved about them.
- HttpUrlLayout.AcceptedIsWellLaid: is about URLs of at most 65535 bytes; beyond that the field offsets wrap in 16 bits, which `HttpUrl` models.
- HttpUrlRoundTrip.PortIsExact: the same.
- XML: parsing of elements and attributes, deletion of subtrees, tracking of unused nodes, name parsing, printing to memory. The assertions of the library are those of a release build, so they do not stop it.
- XmlPrinter.Printer.PrintString: is that of a printer that writes to a file; the one that prints to its own array also has to keep the size of that array in an int.
- XmlNode.Node.InsertChildPreamble: does not take a node without a parent off the list of unlinked nodes, nor count it as tracked.
- XmlNode.Node.InsertAfterChild: does not say what the lists look like once the null pointer has been dereferenced.
- XmlPool: `Clear` and `SetTracked`.
- TaskQueue: timed waits, and the destruction of a queue in use. A thread's steps are atomic up to each call on the mutex or the condition variable.
- Cluster: MD5 (an uninterpreted function), and what libmosquitto and the brokers do with a packet; the network may delay, repeat and lose packets. That all brokers use the same client id towards a peer, derived from the peer's name, is not modelled. Relaying and adding a peer are single steps, as the code holds its lock for them.
- ClusterContext.ClusterPluginContext.MaintainProxyInstances: does not model the connection parameters of a peer and the start of its threads.
- ReconnectDelay: what the original does after a signed overflow, which is undefined.
- Bytes.KeyTable.SetKeys: requires ASCII keys, because the original indexes its table with a signed character. The index of a byte that is no key is never set; the model takes it to be any byte.
- Bytes.KeyTable.FillIndex: the same.
- ConfigValue: numbers, parsers and files.
- ConnectionTable: epoll, timers and what the read callback returns for every block are parameters; the other callbacks are not called.
- HttpRespond: the routes and what they answer. A request that no route answers is closed at once, and a server without routes never closes the socket of a finished request.
- Members that would only be simple: hexadecimal strings, URL encoding, command lines, accessors, route handlers, and the storage, pool, database and token classes.
