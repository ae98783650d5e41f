/** The body half of http_parser_execute, byte by byte: from the last byte of the headers to the end
    of the message, in strict mode, with callbacks that return 0. A run ends where it leaves these
    states: before the first byte of the next message's first line, and before a trailer field. */
module HttpBody {
  import opened Digits

  /** HTTP_MAX_HEADER_SIZE. */
  const MAX_HEADER_SIZE := 80 * 1024

  /** ULLONG_MAX: the value of content_length while no length is known. */
  const ABSENT := 0xFFFF_FFFF_FFFF_FFFF

  datatype State =
    | HeadersDone
    | BodyIdentity
    | BodyIdentityEof
    | ChunkSizeStart
    | ChunkSize
    | ChunkParameters
    | ChunkSizeAlmostDone
    | ChunkData
    | ChunkDataAlmostDone
    | ChunkDataDone
    | TrailerStart
    | TrailerAlmostDone
    | Start
    | Dead

  datatype Errno =
    | Ok
    | HeaderOverflow
    | ClosedConnection
    | InvalidContentLength
    | InvalidChunkSize
    | StrictError
    | InvalidEofState

  datatype Flags = Flags(chunked: bool, keepAlive: bool, close: bool, connectionUpgrade: bool,
                         trailing: bool, upgrade: bool, skipBody: bool, contentLength: bool)

  /** What the headers settled: message type, CONNECT method, protocol upgrade, version, status. */
  datatype Head = Head(request: bool, connect: bool, upgrade: bool, major: nat, minor: nat, status: nat)

  datatype Parser = Parser(head: Head, state: State, flags: Flags, nread: nat, contentLength: nat, errno: Errno)

  /** What the callbacks tell, with the body as single bytes. */
  datatype Signal =
    | Data(byte: char)
    | ChunkHeader(length: nat)
    | ChunkComplete
    | MessageComplete

  /** PARSING_HEADER: the states whose bytes count towards the header size. */
  predicate ParsingHeader(state: State) {
    !(state in {BodyIdentity, BodyIdentityEof, ChunkData, ChunkDataAlmostDone, ChunkDataDone})
  }

  /** http_message_needs_eof. */
  predicate MessageNeedsEof(p: Parser) {
    && !p.head.request
    && !(p.head.status / 100 == 1 || p.head.status == 204 || p.head.status == 304 || p.flags.skipBody)
    && !(p.flags.chunked || p.contentLength != ABSENT)
  }

  /** http_should_keep_alive. */
  predicate ShouldKeepAlive(p: Parser) {
    && (if p.head.major > 0 && p.head.minor > 0 then !p.flags.close else p.flags.keepAlive)
    && !MessageNeedsEof(p)
  }

  /** NEW_MESSAGE. */
  function NewMessage(p: Parser): State {
    if ShouldKeepAlive(p) then Start else Dead
  }

  /** Refused: the byte is not consumed and errno is set. Exited: it is the last one of this protocol.
      Left: it starts a line that belongs to none of the states here, and was not looked at. */
  datatype Status = Taken | Refused | Exited | Left

  datatype Step = Step(parser: Parser, signals: seq<Signal>, status: Status)

  function Refuse(p: Parser, errno: Errno): Step {
    Step(p.(errno := errno), [], Refused)
  }

  function Leave(p: Parser): Step {
    Step(p, [], Left)
  }

  function Go(p: Parser, state: State): Step {
    Step(p.(state := state), [], Taken)
  }

  function GoWith(p: Parser, state: State, signal: Signal): Step {
    Step(p.(state := state), [signal], Taken)
  }

  /** s_message_done. */
  function MessageDone(p: Parser, signals: seq<Signal>): Step {
    Step(p.(state := NewMessage(p)), signals + [MessageComplete], if p.head.upgrade then Exited else Taken)
  }

  predicate HasBody(p: Parser) {
    p.flags.chunked || (p.contentLength > 0 && p.contentLength != ABSENT)
  }

  /** s_headers_done on the line feed that ends the headers. */
  function HeadersDoneStep(p: Parser): Step {
    if p.head.upgrade && (p.head.connect || p.flags.skipBody || !HasBody(p)) then
      Step(p.(state := NewMessage(p)), [MessageComplete], Exited)
    else if p.flags.skipBody then GoWith(p, NewMessage(p), MessageComplete)
    else if p.flags.chunked then Go(p, ChunkSizeStart)
    else if p.contentLength == 0 then GoWith(p, NewMessage(p), MessageComplete)
    else if p.contentLength != ABSENT then Go(p, BodyIdentity)
    else if !MessageNeedsEof(p) then GoWith(p, NewMessage(p), MessageComplete)
    else Go(p, BodyIdentityEof)
  }

  /** s_chunk_size on a hexadecimal digit: the length grows unless it is beyond a conservative limit. */
  function ChunkDigitStep(p: Parser, digit: nat): Step
    requires digit < 16
  {
    if (ABSENT - 16) / 16 < p.contentLength then Refuse(p, InvalidContentLength)
    else Step(p.(contentLength := p.contentLength * 16 + digit), [], Taken)
  }

  /** The byte starts the first line of the next message, or a trailer field. */
  predicate StartsLine(state: State, c: char) {
    (state == Start || state == TrailerStart) && c != '\r' && c != '\n'
  }

  /** The switch on the state, after the header size was counted. */
  function Dispatch(p: Parser, c: char): Step
    requires !StartsLine(p.state, c)
  {
    match p.state
    case HeadersDone =>
      if c != '\n' then Refuse(p, StrictError) else HeadersDoneStep(p.(nread := 0))
    case BodyIdentity =>
      if p.contentLength == 1 then MessageDone(p.(contentLength := 0), [Data(c)])
      else if p.contentLength == 0 then Go(p, BodyIdentity)
      else Step(p.(contentLength := p.contentLength - 1), [Data(c)], Taken)
    case BodyIdentityEof => Step(p, [Data(c)], Taken)
    case ChunkSizeStart =>
      if HexValue(c) == -1 then Refuse(p, InvalidChunkSize)
      else Go(p.(contentLength := HexValue(c)), ChunkSize)
    case ChunkSize =>
      if c == '\r' then Go(p, ChunkSizeAlmostDone)
      else if HexValue(c) != -1 then ChunkDigitStep(p, HexValue(c))
      else if c == ';' || c == ' ' then Go(p, ChunkParameters)
      else Refuse(p, InvalidChunkSize)
    case ChunkParameters => Go(p, if c == '\r' then ChunkSizeAlmostDone else ChunkParameters)
    case ChunkSizeAlmostDone =>
      if c != '\n' then Refuse(p, StrictError)
      else if p.contentLength == 0 then
        GoWith(p.(nread := 0, flags := p.flags.(trailing := true)), TrailerStart, ChunkHeader(0))
      else GoWith(p.(nread := 0), ChunkData, ChunkHeader(p.contentLength))
    case ChunkData =>
      if p.contentLength == 0 then Go(p, ChunkData)
      else GoWith(p.(contentLength := p.contentLength - 1),
                  if p.contentLength == 1 then ChunkDataAlmostDone else ChunkData, Data(c))
    case ChunkDataAlmostDone =>
      if c != '\r' then Refuse(p, StrictError) else Go(p, ChunkDataDone)
    case ChunkDataDone =>
      if c != '\n' then Refuse(p, StrictError) else GoWith(p.(nread := 0), ChunkSizeStart, ChunkComplete)
    case TrailerStart =>
      if c == '\r' then Go(p, TrailerAlmostDone)
      else MessageDone(p, [ChunkComplete])
    case TrailerAlmostDone =>
      if c != '\n' then Refuse(p, StrictError) else MessageDone(p, [ChunkComplete])
    case Start => Go(p, Start)
    case Dead =>
      if c == '\r' || c == '\n' then Go(p, Dead) else Refuse(p, ClosedConnection)
  }

  /** One byte: COUNT_HEADER_SIZE, then the switch. */
  function OneByte(p: Parser, c: char): Step {
    if !ParsingHeader(p.state) then Dispatch(p, c)
    else if p.nread + 1 > MAX_HEADER_SIZE then Refuse(p.(nread := p.nread + 1), HeaderOverflow)
    else if StartsLine(p.state, c) then Leave(p)
    else Dispatch(p.(nread := p.nread + 1), c)
  }

  predicate InChunk(state: State) {
    state in {ChunkSizeStart, ChunkSize, ChunkParameters, ChunkSizeAlmostDone, ChunkData,
              ChunkDataAlmostDone, ChunkDataDone, TrailerStart, TrailerAlmostDone}
  }

  /** The asserts of the body states, and what makes them hold, between two bytes. */
  predicate Inv(p: Parser) {
    && p.contentLength <= ABSENT
    && (InChunk(p.state) ==> p.flags.chunked)
    && (p.state == ChunkSizeStart && p.errno == Ok ==> p.nread == 0)
    && (p.state in {ChunkSize, ChunkParameters, ChunkSizeAlmostDone} ==> p.contentLength < ABSENT)
    && (p.state in {ChunkData, BodyIdentity} ==> 0 < p.contentLength < ABSENT)
    && (p.state in {ChunkDataAlmostDone, ChunkDataDone, TrailerStart, TrailerAlmostDone} ==> p.contentLength == 0)
    && (p.state in {TrailerStart, TrailerAlmostDone} ==> p.flags.trailing)
    && (p.state == BodyIdentityEof ==> MessageNeedsEof(p))
  }

  /** The asserts of http_parser_execute on a byte in a body state. */
  predicate AssertsHold(p: Parser) {
    && (p.state == ChunkSizeStart ==> p.nread + 1 == 1 && p.flags.chunked)
    && (p.state in {ChunkSize, ChunkParameters, ChunkSizeAlmostDone} ==> p.flags.chunked)
    && (p.state in {ChunkData, BodyIdentity} ==> p.contentLength != 0 && p.contentLength != ABSENT)
    && (p.state in {ChunkData, ChunkDataAlmostDone, ChunkDataDone} ==> p.flags.chunked)
    && (p.state == ChunkDataAlmostDone ==> p.contentLength == 0)
  }

  /** Every byte keeps the invariant. */
  lemma {:induction false} OneByteKeepsInv(p: Parser, c: char)
    requires Inv(p) && p.errno == Ok
    ensures Inv(OneByte(p, c).parser)
    ensures OneByte(p, c).status == Refused <==> OneByte(p, c).parser.errno != Ok
    ensures OneByte(p, c).status == Left ==> OneByte(p, c) == Leave(p) && StartsLine(p.state, c)
  {
    hide MessageNeedsEof, ShouldKeepAlive;
    if p.state == HeadersDone && p.nread + 1 <= MAX_HEADER_SIZE {
      HeadersDoneKeepsInv(p.(nread := 0));
    }
  }

  lemma HeadersDoneKeepsInv(p: Parser)
    requires p.contentLength <= ABSENT && p.nread == 0 && p.errno == Ok
    ensures Inv(HeadersDoneStep(p).parser) && HeadersDoneStep(p).status != Refused
    ensures HeadersDoneStep(p).parser.errno == Ok
  {
  }

  /** The outcome of a run: the parser, what it signalled, how many bytes it consumed, and how it ended:
      Taken when all bytes were consumed, or the status of the byte that stopped it. */
  datatype Run = Run(parser: Parser, signals: seq<Signal>, taken: nat, ending: Status)

  function Execute(p: Parser, s: string): (r: Run)
    ensures r.taken <= |s|
    decreases |s|
  {
    if p.errno != Ok then Run(p, [], 0, Refused)
    else if s == "" then Run(p, [], 0, Taken)
    else
      var step := OneByte(p, s[0]);
      match step.status
      case Taken =>
        var r := Execute(step.parser, s[1..]);
        Run(r.parser, step.signals + r.signals, 1 + r.taken, r.ending)
      case Exited => Run(step.parser, step.signals, 1, Exited)
      case _ => Run(step.parser, step.signals, 0, step.status)
  }

  /** In every state a run reaches, the asserts of the parser hold. */
  lemma {:induction false} RunKeepsInv(p: Parser, s: string)
    requires Inv(p)
    ensures Inv(Execute(p, s).parser)
    ensures Execute(p, s).parser.errno == Ok ==> AssertsHold(Execute(p, s).parser)
    decreases |s|
  {
    hide OneByte;
    if s != "" && p.errno == Ok {
      OneByteKeepsInv(p, s[0]);
      if OneByte(p, s[0]).status == Taken {
        RunKeepsInv(OneByte(p, s[0]).parser, s[1..]);
      }
    }
  }

  /** A run that did not stop goes on with the rest of the bytes. */
  lemma {:induction false} ExecuteConcat(p: Parser, s: string, t: string)
    ensures var r := Execute(p, s);
            Execute(p, s + t) ==
            if r.ending == Taken then
              var q := Execute(r.parser, t);
              Run(q.parser, r.signals + q.signals, r.taken + q.taken, q.ending)
            else r
    decreases |s|
  {
    hide OneByte;
    if s == "" {
      assert s + t == t;
      assert [] + Execute(p, t).signals == Execute(p, t).signals;
    } else if p.errno == Ok {
      assert (s + t)[0] == s[0] && (s + t)[1..] == s[1..] + t;
      var step := OneByte(p, s[0]);
      if step.status == Taken {
        ExecuteConcat(step.parser, s[1..], t);
        var r := Execute(step.parser, s[1..]);
        if r.ending == Taken {
          var q := Execute(r.parser, t);
          assert step.signals + (r.signals + q.signals) == (step.signals + r.signals) + q.signals;
        }
      }
    }
  }

  /** How a run ends: it is refused exactly when errno is set, it takes all bytes
      when nothing stops it, and it leaves only in front of a
      byte that starts a line of the next message or of a trailer. */
  lemma {:induction false} RunEnds(p: Parser, s: string)
    requires Inv(p) && p.errno == Ok
    ensures var r := Execute(p, s);
            && (r.ending == Refused <==> r.parser.errno != Ok)
            && (r.ending == Taken ==> r.taken == |s|)
            && (r.ending == Refused || r.ending == Left ==> r.taken < |s|)
            && (r.ending == Left ==> StartsLine(r.parser.state, s[r.taken]))
    decreases |s|
  {
    hide OneByte;
    if s != "" {
      OneByteKeepsInv(p, s[0]);
      if OneByte(p, s[0]).status == Taken {
        RunEnds(OneByte(p, s[0]).parser, s[1..]);
      }
    }
  }
}
