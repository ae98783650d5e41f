/** The body encodings: chunked transfer coding of section 4.1 of RFC 7230 and bodies of known length. */
module HttpChunked {
  import opened Digits
  import opened HttpBody
  import opened HttpExecute
  import opened Sequences

  predicate AllHex(s: string) { forall k | 0 <= k < |s| :: HexValue(s[k]) != -1 }

  /** The number a string of hexadecimal digits denotes. */
  function HexNumeral(s: string): nat
    requires AllHex(s)
  {
    if s == "" then 0 else 16 * HexNumeral(s[..|s| - 1]) + HexValue(s[|s| - 1])
  }

  /** It is the number in base 16, with small or capital digits. */
  lemma {:induction false} HexNumeralIs(digits: seq<nat>, written: string)
    requires AreDigits(16, digits, written)
    ensures AllHex(written) && HexNumeral(written) == NumberOf(16, digits)
  {
    if digits != [] {
      var n := |digits| - 1;
      HexNumeralIs(digits[..n], written[..n]);
      DigitsAre(digits[n]);
      assert written == written[..n] + [written[n]];
      hide HexValue;
    }
  }

  /** Lengths from here on are beyond the parser's conservative limit. */
  const LENGTH_LIMIT := ABSENT - 15

  lemma {:induction false} HexPrefix(s: string, k: nat)
    requires AllHex(s) && k <= |s|
    ensures HexNumeral(s[..k]) <= HexNumeral(s)
    ensures k < |s| ==> 16 * HexNumeral(s[..k]) <= HexNumeral(s)
  {
    if k < |s| {
      HexPrefix(s[..|s| - 1], k);
      assert s[..|s| - 1][..k] == s[..k];
    } else {
      assert s[..k] == s;
    }
  }

  /** A parser that has read the digits of a chunk size. */
  function SizeRead(p: Parser, digits: string): Parser
    requires AllHex(digits)
  {
    p.(state := ChunkSize, contentLength := HexNumeral(digits), nread := p.nread + |digits|)
  }

  lemma SizeByte(p: Parser, c: char)
    requires p.errno == Ok && p.state == ChunkSize && p.nread < MAX_HEADER_SIZE && HexValue(c) != -1
    ensures OneByte(p, c) ==
            if p.contentLength * 16 + HexValue(c) < LENGTH_LIMIT then
              Step(p.(nread := p.nread + 1, contentLength := p.contentLength * 16 + HexValue(c)), [], Taken)
            else Refuse(p.(nread := p.nread + 1), InvalidContentLength)
  {
    assert HexValue('\r') == -1;
    assert (ABSENT - 16) / 16 < p.contentLength <==> p.contentLength * 16 + HexValue(c) >= LENGTH_LIMIT;
  }

  lemma FirstSizeByte(p: Parser, c: char)
    requires p.errno == Ok && p.state == ChunkSizeStart && p.nread == 0 && HexValue(c) != -1
    ensures OneByte(p, c) == Step(p.(nread := 1, contentLength := HexValue(c), state := ChunkSize), [], Taken)
  {
  }

  lemma {:induction false} TakenIsAll(p: Parser, s: string)
    ensures var r := HttpBody.Execute(p, s); r.ending == Taken ==> r.taken == |s|
    decreases |s|
  {
    hide OneByte;
    if p.errno == Ok && s != "" {
      TakenIsAll(OneByte(p, s[0]).parser, s[1..]);
    }
  }

  /** Chunk sizes are read exactly: content_length is the number the digits denote, unless that number
      is 2^64 - 16 or more, and then the parser refuses a digit. */
  lemma {:induction false} ChunkSizeExact(p: Parser, digits: string)
    requires p.errno == Ok && p.state == ChunkSizeStart && p.nread == 0
    requires AllHex(digits) && 0 < |digits| <= 81920
    ensures var r := HttpBody.Execute(p, digits);
            if HexNumeral(digits) < 0xFFFF_FFFF_FFFF_FFF0 then r == Run(SizeRead(p, digits), [], |digits|, Taken)
            else r.parser.errno == InvalidContentLength && r.taken < |digits| && r.signals == []
  {
    hide OneByte, HttpBody.Execute;
    var init, c := digits[..|digits| - 1], digits[|digits| - 1];
    assert digits == init + [c];
    ExecuteConcat(p, init, [c]);
    if init == "" {
      NothingRuns(p, "");
      FirstSizeByte(p, c);
      StepOver(p, [c]);
      NothingRuns(OneByte(p, c).parser, [c][1..]);
      assert HexNumeral(init) == 0;
    } else {
      ChunkSizeExact(p, init);
      TakenIsAll(p, init);
      HexPrefix(digits, |init|);
      assert digits[..|init|] == init;
      if HexNumeral(init) < LENGTH_LIMIT {
        var q := SizeRead(p, init);
        SizeByte(q, c);
        StepOver(q, [c]);
        NothingRuns(OneByte(q, c).parser, [c][1..]);
      }
    }
  }

  /** A chunk as it is written: its size in hexadecimal digits, an extension, its data. */
  datatype Chunk = Chunk(size: string, extension: string, data: string)

  /** An extension is empty or starts with a semicolon or a space, and does not contain a carriage
      return; the line it ends fits the header size limit. */
  predicate ChunkLine(size: string, extension: string) {
    && AllHex(size) && size != ""
    && (extension == "" || extension[0] == ';' || extension[0] == ' ')
    && '\r' !in extension
    && |size| + |extension| + 2 <= 81920
  }

  predicate ValidChunk(c: Chunk) {
    ChunkLine(c.size, c.extension) && HexNumeral(c.size) == |c.data| && 0 < |c.data| < 0xFFFF_FFFF_FFFF_FFF0
  }

  function EncodeChunk(c: Chunk): string {
    c.size + c.extension + "\r\n" + c.data + "\r\n"
  }

  function EncodeChunks(chunks: seq<Chunk>): string {
    if chunks == [] then "" else EncodeChunk(chunks[0]) + EncodeChunks(chunks[1..])
  }

  /** The whole coding: the chunks, a last chunk of size zero and an empty trailer. */
  function Encode(chunks: seq<Chunk>, zeros: string, extension: string): string {
    EncodeChunks(chunks) + (zeros + extension + "\r\n" + "\r\n")
  }

  function ChunkSignals(chunks: seq<Chunk>): seq<Signal> {
    if chunks == [] then []
    else [ChunkHeader(|chunks[0].data|)] + DataOf(chunks[0].data) + [ChunkComplete] + ChunkSignals(chunks[1..])
  }

  /** The data of all chunks. */
  function Payload(chunks: seq<Chunk>): string {
    if chunks == [] then "" else chunks[0].data + Payload(chunks[1..])
  }

  /** The body bytes among some signals. */
  function BodyBytes(signals: seq<Signal>): string {
    if signals == [] then "" else BodyOf(signals[0]) + BodyBytes(signals[1..])
  }

  function BodyOf(signal: Signal): string {
    if signal.Data? then [signal.byte] else ""
  }

  lemma {:induction false} BodyBytesConcat(a: seq<Signal>, b: seq<Signal>)
    ensures BodyBytes(a + b) == BodyBytes(a) + BodyBytes(b)
  {
    hide BodyOf;
    if a == [] {
      assert a + b == b;
    } else {
      assert (a + b)[1..] == a[1..] + b;
      BodyBytesConcat(a[1..], b);
      Regroup(BodyOf(a[0]), BodyBytes(a[1..]), BodyBytes(b));
    }
  }

  lemma {:induction false} BodyBytesOfData(s: string)
    ensures BodyBytes(DataOf(s)) == s
  {
    if s != "" {
      assert DataOf(s)[1..] == DataOf(s[1..]);
      BodyBytesOfData(s[1..]);
      assert s == [s[0]] + s[1..];
    }
  }

  /** A run that takes all of s without stopping. */
  predicate Runs(p: Parser, s: string, q: Parser, signals: seq<Signal>) {
    HttpBody.Execute(p, s) == Run(q, signals, |s|, Taken) && q.errno == Ok
  }

  lemma RunsThen(p: Parser, s: string, q: Parser, signals: seq<Signal>, t: string)
    requires Runs(p, s, q, signals)
    ensures HttpBody.Execute(p, s + t) == Prefixed(signals, |s|, HttpBody.Execute(q, t))
  {
    hide HttpBody.Execute;
    ExecuteConcat(p, s, t);
  }

  lemma RunsConcat(p: Parser, s: string, q: Parser, a: seq<Signal>, t: string, u: Parser, b: seq<Signal>)
    requires Runs(p, s, q, a) && Runs(q, t, u, b)
    ensures Runs(p, s + t, u, a + b)
  {
    hide HttpBody.Execute;
    RunsThen(p, s, q, a, t);
  }

  lemma RunsByte(p: Parser, c: char)
    requires p.errno == Ok && OneByte(p, c).status == Taken && OneByte(p, c).parser.errno == Ok
    ensures Runs(p, [c], OneByte(p, c).parser, OneByte(p, c).signals)
  {
    hide OneByte, HttpBody.Execute;
    StepOver(p, [c]);
    NothingRuns(OneByte(p, c).parser, [c][1..]);
    Regroup(OneByte(p, c).signals, [], []);
  }

  lemma ParameterByte(p: Parser, c: char)
    requires p.errno == Ok && p.nread < MAX_HEADER_SIZE && c != '\r'
    requires p.state == ChunkParameters || (p.state == ChunkSize && (c == ';' || c == ' '))
    ensures OneByte(p, c) == Step(p.(nread := p.nread + 1, state := ChunkParameters), [], Taken)
  {
  }

  /** Extensions are skipped. */
  lemma {:induction false} SkipExtension(p: Parser, s: string)
    requires p.errno == Ok && '\r' !in s && p.nread + |s| <= MAX_HEADER_SIZE
    requires p.state == ChunkParameters || (p.state == ChunkSize && (s == "" || s[0] == ';' || s[0] == ' '))
    ensures Runs(p, s, p.(nread := p.nread + |s|, state := if s == "" then p.state else ChunkParameters), [])
    decreases |s|
  {
    hide OneByte, HttpBody.Execute;
    if s == "" {
      NothingRuns(p, s);
    } else {
      ParameterByte(p, s[0]);
      RunsByte(p, s[0]);
      var q := p.(nread := p.nread + 1, state := ChunkParameters);
      SkipExtension(q, s[1..]);
      RunsConcat(p, [s[0]], q, [], s[1..], q.(nread := q.nread + |s| - 1), []);
      assert [s[0]] + s[1..] == s;
    }
  }

  lemma EndOfLine(p: Parser)
    requires p.errno == Ok && p.nread + 2 <= MAX_HEADER_SIZE && p.flags.chunked
    requires p.state == ChunkSize || p.state == ChunkParameters
    ensures Runs(p, "\r\n",
                 if p.contentLength == 0 then p.(nread := 0, flags := p.flags.(trailing := true), state := TrailerStart)
                 else p.(nread := 0, state := ChunkData),
                 [ChunkHeader(p.contentLength)])
  {
    hide HttpBody.Execute;
    var q := OneByte(p, '\r').parser;
    RunsByte(p, '\r');
    RunsByte(q, '\n');
    RunsConcat(p, "\r", q, [], "\n", OneByte(q, '\n').parser, [ChunkHeader(p.contentLength)]);
    assert "\r" + "\n" == "\r\n";
    assert [] + [ChunkHeader(p.contentLength)] == [ChunkHeader(p.contentLength)];
  }

  /** The line of a chunk: its size is signalled, and a zero size starts the trailer. */
  lemma RunLine(p: Parser, size: string, extension: string)
    requires p.errno == Ok && p.state == ChunkSizeStart && p.nread == 0 && p.flags.chunked
    requires ChunkLine(size, extension) && HexNumeral(size) < LENGTH_LIMIT
    ensures var n := HexNumeral(size);
            Runs(p, size + extension + "\r\n",
                 if n == 0 then p.(contentLength := 0, flags := p.flags.(trailing := true), state := TrailerStart)
                 else p.(contentLength := n, state := ChunkData), [ChunkHeader(n)])
  {
    hide HttpBody.Execute, HexNumeral;
    ChunkSizeExact(p, size);
    var q := SizeRead(p, size);
    assert Runs(p, size, q, []);
    SkipExtension(q, extension);
    var t := q.(nread := q.nread + |extension|, state := if extension == "" then q.state else ChunkParameters);
    RunsConcat(p, size, q, [], extension, t, []);
    EndOfLine(t);
    var n := HexNumeral(size);
    var u := if n == 0 then t.(nread := 0, flags := t.flags.(trailing := true), state := TrailerStart)
             else t.(nread := 0, state := ChunkData);
    RunsConcat(p, size + extension, t, [], "\r\n", u, [ChunkHeader(n)]);
    assert [] + [ChunkHeader(n)] == [ChunkHeader(n)];
  }

  lemma RunChunkEnd(p: Parser)
    requires p.errno == Ok && p.state == ChunkDataAlmostDone
    ensures Runs(p, "\r\n", p.(nread := 0, state := ChunkSizeStart), [ChunkComplete])
  {
    hide HttpBody.Execute;
    var q := OneByte(p, '\r').parser;
    RunsByte(p, '\r');
    RunsByte(q, '\n');
    RunsConcat(p, "\r", q, [], "\n", OneByte(q, '\n').parser, [ChunkComplete]);
    assert "\r" + "\n" == "\r\n";
    assert [] + [ChunkComplete] == [ChunkComplete];
  }

  lemma RunChunkData(p: Parser, s: string)
    requires p.errno == Ok && p.state == ChunkData && p.contentLength == |s| > 0
    ensures Runs(p, s, p.(contentLength := 0, state := ChunkDataAlmostDone), DataOf(s))
  {
    hide HttpBody.Execute;
    BulkSkip(p, s, |s|);
    assert s[..|s|] == s && s[|s|..] == "";
    NothingRuns(AfterBulk(p, |s|), "");
    Regroup(DataOf(s), [], []);
  }

  /** The state between two chunks. */
  predicate BetweenChunks(p: Parser) {
    p.errno == Ok && p.state == ChunkSizeStart && p.nread == 0 && p.flags.chunked
  }

  lemma RunChunk(p: Parser, c: Chunk)
    requires BetweenChunks(p) && ValidChunk(c)
    ensures Runs(p, EncodeChunk(c), p.(contentLength := 0), [ChunkHeader(|c.data|)] + DataOf(c.data) + [ChunkComplete])
  {
    hide HttpBody.Execute, Runs, ChunkLine, HexNumeral, AllHex;
    RunLine(p, c.size, c.extension);
    var line := c.size + c.extension + "\r\n";
    var q := p.(contentLength := |c.data|, state := ChunkData);
    RunChunkData(q, c.data);
    var t := q.(contentLength := 0, state := ChunkDataAlmostDone);
    RunsConcat(p, line, q, [ChunkHeader(|c.data|)], c.data, t, DataOf(c.data));
    RunChunkEnd(t);
    RunsConcat(p, line + c.data, t, [ChunkHeader(|c.data|)] + DataOf(c.data), "\r\n",
               t.(nread := 0, state := ChunkSizeStart), [ChunkComplete]);
    assert t.(nread := 0, state := ChunkSizeStart) == p.(contentLength := 0);
  }

  lemma {:induction false} RunChunks(p: Parser, chunks: seq<Chunk>)
    requires BetweenChunks(p) && forall k | 0 <= k < |chunks| :: ValidChunk(chunks[k])
    ensures Runs(p, EncodeChunks(chunks), if chunks == [] then p else p.(contentLength := 0), ChunkSignals(chunks))
    decreases |chunks|
  {
    hide HttpBody.Execute, Runs, ValidChunk, EncodeChunk;
    if chunks == [] {
      assert Runs(p, "", p, []) by { RunsNothing(p); }
    } else {
      var q := p.(contentLength := 0);
      RunChunk(p, chunks[0]);
      RunChunks(q, chunks[1..]);
      RunsConcat(p, EncodeChunk(chunks[0]), q,
                 [ChunkHeader(|chunks[0].data|)] + DataOf(chunks[0].data) + [ChunkComplete],
                 EncodeChunks(chunks[1..]), q, ChunkSignals(chunks[1..]));
    }
  }

  lemma RunsNothing(p: Parser)
    requires p.errno == Ok
    ensures Runs(p, "", p, [])
  {
  }

  lemma RunEmptyTrailer(p: Parser)
    requires p.errno == Ok && p.state == TrailerStart && p.nread == 0
    ensures var done := MessageDone(p.(nread := 2), [ChunkComplete]);
            HttpBody.Execute(p, "\r\n") == Run(done.parser, [ChunkComplete, MessageComplete], 2,
                                                if p.head.upgrade then Exited else Taken)
  {
    hide HttpBody.Execute;
    RunsByte(p, '\r');
    var q := OneByte(p, '\r').parser;
    assert q == p.(nread := 1, state := TrailerAlmostDone);
    RunsThen(p, "\r", q, [], "\n");
    assert "\r" + "\n" == "\r\n";
    StepOver(q, "\n");
    NothingRuns(OneByte(q, '\n').parser, "\n"[1..]);
  }

  /** Decoding undoes encoding: whatever list of non-empty chunks is written, with whatever sizes in
      hexadecimal and extensions, ended by a chunk of size zero and an empty trailer, the parser signals
      every chunk with its data and its end, completes the message once, and stops behind the last byte,
      ready for a new message. */
  lemma ChunkedRoundTrip(p: Parser, chunks: seq<Chunk>, zeros: string, extension: string)
    requires BetweenChunks(p)
    requires forall k | 0 <= k < |chunks| :: ValidChunk(chunks[k])
    requires ChunkLine(zeros, extension) && HexNumeral(zeros) == 0
    ensures var s := Encode(chunks, zeros, extension);
            var r := HttpBody.Execute(p, s);
            && r.signals == ChunkSignals(chunks) + [ChunkHeader(0), ChunkComplete, MessageComplete]
            && BodyBytes(r.signals) == Payload(chunks)
            && r.taken == |s| && r.ending == (if p.head.upgrade then Exited else Taken)
            && r.parser == p.(contentLength := 0, nread := 2, flags := p.flags.(trailing := true),
                              state := if ShouldKeepAlive(p.(contentLength := 0)) then Start else Dead)
  {
    hide HttpBody.Execute, Runs, ValidChunk, EncodeChunks, ChunkLine, HexNumeral, AllHex, ChunkSignals, BodyBytes,
         MessageDone, ShouldKeepAlive, Payload;
    RunChunks(p, chunks);
    var q := if chunks == [] then p else p.(contentLength := 0);
    RunLine(q, zeros, extension);
    var line := zeros + extension + "\r\n";
    var t := q.(contentLength := 0, flags := q.flags.(trailing := true), state := TrailerStart);
    RunsConcat(p, EncodeChunks(chunks), q, ChunkSignals(chunks), line, t, [ChunkHeader(0)]);
    RunsThen(p, EncodeChunks(chunks) + line, t, ChunkSignals(chunks) + [ChunkHeader(0)], "\r\n");
    RunEmptyTrailer(t);
    assert Encode(chunks, zeros, extension) == EncodeChunks(chunks) + line + "\r\n";
    assert ChunkSignals(chunks) + [ChunkHeader(0)] + [ChunkComplete, MessageComplete]
        == ChunkSignals(chunks) + [ChunkHeader(0), ChunkComplete, MessageComplete];
    MessagePayload(chunks);
    DoneBehindTrailer(p, t);
  }

  lemma DoneBehindTrailer(p: Parser, t: Parser)
    requires t == p.(contentLength := 0, flags := p.flags.(trailing := true), state := TrailerStart)
    ensures MessageDone(t.(nread := 2), [ChunkComplete]).parser ==
      p.(contentLength := 0, nread := 2, flags := p.flags.(trailing := true),
         state := if ShouldKeepAlive(p.(contentLength := 0)) then Start else Dead)
  {
  }

  lemma MessagePayload(chunks: seq<Chunk>)
    ensures BodyBytes(ChunkSignals(chunks) + [ChunkHeader(0), ChunkComplete, MessageComplete]) == Payload(chunks)
  {
    hide ChunkSignals, BodyBytes;
    BodyBytesConcat(ChunkSignals(chunks), [ChunkHeader(0), ChunkComplete, MessageComplete]);
    NoBodyBytes();
    ChunkSignalsCarryPayload(chunks);
  }

  lemma NoBodyBytes()
    ensures BodyBytes([ChunkHeader(0), ChunkComplete, MessageComplete]) == ""
  {
    assert [ChunkHeader(0), ChunkComplete, MessageComplete][1..] == [ChunkComplete, MessageComplete];
    assert [ChunkComplete, MessageComplete][1..] == [MessageComplete];
    assert [MessageComplete][1..] == [];
  }

  lemma {:induction false} ChunkSignalsCarryPayload(chunks: seq<Chunk>)
    ensures BodyBytes(ChunkSignals(chunks)) == Payload(chunks)
  {
    if chunks != [] {
      ChunkSignalsCarryPayload(chunks[1..]);
      var c := chunks[0];
      BodyBytesConcat([ChunkHeader(|c.data|)], DataOf(c.data));
      BodyBytesConcat([ChunkHeader(|c.data|)] + DataOf(c.data), [ChunkComplete]);
      BodyBytesConcat([ChunkHeader(|c.data|)] + DataOf(c.data) + [ChunkComplete], ChunkSignals(chunks[1..]));
      BodyBytesOfData(c.data);
      assert [ChunkHeader(|c.data|)][1..] == [] && [ChunkComplete][1..] == [];
      assert BodyBytes([ChunkHeader(|c.data|)]) == "" && BodyBytes([ChunkComplete]) == "";
    }
  }

  /** A body of known length: exactly that many bytes are reported, then the message is complete; what
      follows is parsed as the next message, or left to another protocol. */
  lemma IdentityBody(p: Parser, body: string, tail: string)
    requires p.errno == Ok && p.state == BodyIdentity && p.contentLength == |body| > 0
    ensures var done := MessageDone(p.(contentLength := 0), []);
            HttpBody.Execute(p, body + tail) ==
            if p.head.upgrade then Run(done.parser, DataOf(body) + [MessageComplete], |body|, Exited)
            else Prefixed(DataOf(body) + [MessageComplete], |body|, HttpBody.Execute(done.parser, tail))
  {
    hide HttpBody.Execute, MessageDone;
    LastByte(p, body + tail, |body|);
    assert (body + tail)[..|body|] == body && (body + tail)[|body|..] == tail;
  }
}
