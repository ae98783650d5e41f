/** Whole messages from the last byte of their headers on: what the headers say decides how the body is read, by section
    3.3 of RFC 7230, and whether the connection goes on, by its section 6.3. */
module HttpMessage {
  import opened HttpBody
  import opened HttpChunked
  import opened HttpExecute
  import opened Sequences

  /** The headers are read up to their last byte, and that fits the header size limit. */
  predicate AtHeadersEnd(p: Parser) {
    p.state == HeadersDone && p.errno == Ok && p.nread < 80 * 1024
  }

  /** No body is expected of a response to HEAD, with an informational status, 204 or 304. */
  predicate NeverHasBody(p: Parser) {
    || p.flags.skipBody
    || (!p.head.request && (100 <= p.head.status < 200 || p.head.status == 204 || p.head.status == 304))
  }

  /** A connection goes on by default when both numbers of the version are positive, as in 1.1, and otherwise when it is
      asked for. */
  predicate Persists(p: Parser) {
    if p.head.major > 0 && p.head.minor > 0 then !p.flags.close else p.flags.keepAlive
  }

  /** The parser behind a message whose end is known. */
  function Behind(p: Parser): Parser {
    p.(state := if Persists(p) then Start else Dead, nread := 0)
  }

  /** The headers end with a line feed and nothing else. */
  lemma OnlyLineFeed(p: Parser, c: char, tail: string)
    requires AtHeadersEnd(p) && c != '\n'
    ensures var r := HttpBody.Execute(p, [c] + tail);
      r.parser.errno == StrictError && r.taken == 0 && r.signals == [] && r.ending == Refused
  {
  }

  /** The first byte of a run. */
  lemma LineFeed(p: Parser, rest: string)
    requires p.errno == Ok
    ensures var (step, r) := (OneByte(p, '\n'), HttpBody.Execute(OneByte(p, '\n').parser, rest));
      && (step.status == Taken ==>
            HttpBody.Execute(p, "\n" + rest) == Run(r.parser, step.signals + r.signals, 1 + r.taken, r.ending))
      && (step.status == Exited ==> HttpBody.Execute(p, "\n" + rest) == Run(step.parser, step.signals, 1, Exited))
  {
    assert ("\n" + rest)[1..] == rest;
    hide OneByte;
  }

  /** A message without chunks whose length is known and not 0: exactly the bytes of its body are data, then it is
      complete, and the rest is read as the next one, or left to another protocol. */
  lemma KnownLength(p: Parser, body: string, tail: string)
    requires AtHeadersEnd(p) && !p.flags.chunked && !p.flags.skipBody && !(p.head.upgrade && p.head.connect)
    requires p.contentLength == |body| && 0 < |body| < 0xFFFF_FFFF_FFFF_FFFF
    ensures var done := Behind(p).(contentLength := 0);
      HttpBody.Execute(p, "\n" + body + tail) ==
      if p.head.upgrade then Run(done, DataOf(body) + [MessageComplete], 1 + |body|, Exited)
      else
        var r := HttpBody.Execute(done, tail);
        Run(r.parser, DataOf(body) + [MessageComplete] + r.signals, 1 + |body| + r.taken, r.ending)
  {
    hide HttpBody.Execute;
    var q := p.(state := BodyIdentity, nread := 0);
    assert OneByte(p, '\n') == Step(q, [], Taken);
    LineFeed(p, body + tail);
    assert "\n" + body + tail == "\n" + (body + tail);
    IdentityBody(q, body, tail);
  }

  /** A message in chunks, whatever length is given: every chunk is signalled with its data and its end, then the
      message is complete. */
  lemma InChunks(p: Parser, chunks: seq<Chunk>, zeros: string, extension: string, tail: string)
    requires AtHeadersEnd(p) && p.flags.chunked && !p.flags.skipBody && !(p.head.upgrade && p.head.connect)
    requires forall k | 0 <= k < |chunks| :: ValidChunk(chunks[k])
    requires ChunkLine(zeros, extension) && HexNumeral(zeros) == 0
    ensures var s := Encode(chunks, zeros, extension);
      var signals := ChunkSignals(chunks) + [ChunkHeader(0), ChunkComplete, MessageComplete];
      var done := Behind(p).(contentLength := 0, nread := 2, flags := p.flags.(trailing := true));
      && BodyBytes(signals) == Payload(chunks)
      && HttpBody.Execute(p, "\n" + s + tail) ==
         if p.head.upgrade then Run(done, signals, 1 + |s|, Exited)
         else
           var r := HttpBody.Execute(done, tail);
           Run(r.parser, signals + r.signals, 1 + |s| + r.taken, r.ending)
  {
    hide HttpBody.Execute, ValidChunk, ChunkLine, HexNumeral, AllHex, Encode, ChunkSignals, BodyBytes, Payload;
    var s, q := Encode(chunks, zeros, extension), p.(state := ChunkSizeStart, nread := 0);
    assert OneByte(p, '\n') == Step(q, [], Taken);
    LineFeed(p, s + tail);
    assert "\n" + s + tail == "\n" + (s + tail);
    ChunkedRoundTrip(q, chunks, zeros, extension);
    ExecuteConcat(q, s, tail);
  }

  /** A message without a body: it is complete at once. */
  lemma NoBody(p: Parser, tail: string)
    requires AtHeadersEnd(p) && !p.head.upgrade
    requires
      || p.flags.skipBody
      || (!p.flags.chunked && p.contentLength == 0)
      || (!p.flags.chunked && p.contentLength == 0xFFFF_FFFF_FFFF_FFFF && (p.head.request || NeverHasBody(p)))
    ensures var r := HttpBody.Execute(Behind(p), tail);
      HttpBody.Execute(p, "\n" + tail) == Run(r.parser, [MessageComplete] + r.signals, 1 + r.taken, r.ending)
  {
    hide HttpBody.Execute;
    assert OneByte(p, '\n') == Step(Behind(p), [MessageComplete], Taken);
    LineFeed(p, tail);
  }

  /** A response that neither has a length nor comes in chunks: all that follows is its body. */
  lemma UntilEnd(p: Parser, body: string)
    requires AtHeadersEnd(p) && !p.head.upgrade && !p.head.request && !NeverHasBody(p)
    requires !p.flags.chunked && p.contentLength == 0xFFFF_FFFF_FFFF_FFFF
    ensures HttpBody.Execute(p, "\n" + body) ==
      Run(p.(state := BodyIdentityEof, nread := 0), DataOf(body), 1 + |body|, Taken)
  {
    hide HttpBody.Execute;
    var q := p.(state := BodyIdentityEof, nread := 0);
    assert OneByte(p, '\n') == Step(q, [], Taken);
    LineFeed(p, body);
    AllIsData(q, body);
    Regroup(DataOf(body), [], []);
  }

  lemma {:induction false} AllIsData(p: Parser, body: string)
    requires p.errno == Ok && p.state == BodyIdentityEof
    ensures HttpBody.Execute(p, body) == Run(p, DataOf(body), |body|, Taken)
  {
    if body == "" {
      assert DataOf(body) == [];
    } else {
      AllIsData(p, body[1..]);
      assert DataOf(body) == [Data(body[0])] + DataOf(body[1..]);
    }
  }

  /** Another protocol takes over behind the headers of a CONNECT request, and of a message that has no body or is read
      without it: the rest is left. */
  lemma OtherProtocol(p: Parser, tail: string)
    requires AtHeadersEnd(p) && p.head.upgrade
    requires p.head.connect || p.flags.skipBody
      || (!p.flags.chunked && (p.contentLength == 0 || p.contentLength == 0xFFFF_FFFF_FFFF_FFFF))
    ensures var needsEnd := !p.head.request && !NeverHasBody(p)
        && !p.flags.chunked && p.contentLength == 0xFFFF_FFFF_FFFF_FFFF;
      HttpBody.Execute(p, "\n" + tail) ==
      Run(p.(state := if Persists(p) && !needsEnd then Start else Dead, nread := 0), [MessageComplete], 1, Exited)
  {
    hide HttpBody.Execute;
    LineFeed(p, tail);
  }

  /** Between messages blank lines are skipped; behind the last one they are, too, and nothing else is taken. */
  lemma BetweenMessages(p: Parser, c: char, tail: string)
    requires p.errno == Ok && p.nread < 80 * 1024 && (p.state == Start || p.state == Dead)
    ensures var r := HttpBody.Execute(p.(nread := p.nread + 1), tail);
      HttpBody.Execute(p, [c] + tail) ==
      if c == '\r' || c == '\n' then Run(r.parser, r.signals, 1 + r.taken, r.ending)
      else if p.state == Start then Run(p, [], 0, Left)
      else Run(p.(nread := p.nread + 1, errno := ClosedConnection), [], 0, Refused)
  {
    hide HttpBody.Execute, OneByte;
    assert ([c] + tail)[0] == c && ([c] + tail)[1..] == tail;
    BetweenByte(p, c);
    StepOver(p, [c] + tail);
  }

  lemma BetweenByte(p: Parser, c: char)
    requires p.errno == Ok && p.nread < 80 * 1024 && (p.state == Start || p.state == Dead)
    ensures OneByte(p, c) ==
      if c == '\r' || c == '\n' then HttpBody.Step(p.(nread := p.nread + 1), [], Taken)
      else if p.state == Start then HttpBody.Step(p, [], Left)
      else HttpBody.Step(p.(nread := p.nread + 1, errno := ClosedConnection), [], Refused)
  {
  }

  /** A request of 80 kilobytes of header bytes takes no more of them. */
  lemma HeadersTooLong(p: Parser, c: char, tail: string)
    requires p.errno == Ok && p.nread >= 80 * 1024 && p.state == HeadersDone
    ensures var r := HttpBody.Execute(p, [c] + tail);
      r.parser.errno == HeaderOverflow && r.taken == 0 && r.signals == [] && r.ending == Refused
  {
  }
}
