/** Chunked bodies that break the framing of section 4.1 of RFC 7230: where the parser stops, with which error, and what
    it has signalled until then. */
module HttpErrors {
  import opened Digits
  import opened HttpBody
  import opened HttpChunked
  import opened HttpExecute
  import opened Sequences

  /** A byte that is not taken, behind others that were. */
  lemma StopsBehind(p: Parser, s: string, q: Parser, signals: seq<Signal>, c: char, tail: string)
    requires Runs(p, s, q, signals) && (OneByte(q, c).status == Refused || OneByte(q, c).status == Left)
    ensures HttpBody.Execute(p, s + ([c] + tail)) ==
      Run(OneByte(q, c).parser, signals + OneByte(q, c).signals, |s|, OneByte(q, c).status)
  {
    hide HttpBody.Execute, OneByte;
    RunsThen(p, s, q, signals, [c] + tail);
    StopsAt(q, c, tail);
  }

  lemma StopsAt(p: Parser, c: char, tail: string)
    requires p.errno == Ok && (OneByte(p, c).status == Refused || OneByte(p, c).status == Left)
    ensures HttpBody.Execute(p, [c] + tail) == Run(OneByte(p, c).parser, OneByte(p, c).signals, 0, OneByte(p, c).status)
  {
    hide OneByte;
  }

  /** The run stops in front of a byte with an error. */
  predicate Fails(r: Run, errno: Errno, taken: nat, signals: seq<Signal>) {
    r.ending == Refused && r.parser.errno == errno && r.taken == taken && r.signals == signals
  }

  predicate IsHex(c: char) {
    c in SMALL || c in CAPITALS
  }

  /** A byte in a state that takes only a carriage return, or only a line feed. */
  lemma WrongByte(p: Parser, c: char)
    requires p.errno == Ok && p.nread < 80 * 1024
    requires if p.state == ChunkDataAlmostDone then c != '\r'
      else p.state in {ChunkSizeAlmostDone, ChunkDataDone, TrailerAlmostDone} && c != '\n'
    ensures var step := OneByte(p, c);
      step.status == Refused && step.signals == [] && step.parser.errno == StrictError
  {
  }

  lemma FailsBehind(p: Parser, s: string, q: Parser, signals: seq<Signal>, c: char, tail: string)
    requires Runs(p, s, q, signals) && q.errno == Ok
    requires OneByte(q, c).status == Refused && OneByte(q, c).signals == []
    ensures Fails(HttpBody.Execute(p, s + ([c] + tail)), OneByte(q, c).parser.errno, |s|, signals)
  {
    hide HttpBody.Execute, OneByte, Runs;
    StopsBehind(p, s, q, signals, c, tail);
    Regroup(signals, [], []);
  }

  /** A chunk without a size. */
  lemma NoSize(p: Parser, c: char, tail: string)
    requires BetweenChunks(p) && !IsHex(c)
    ensures Fails(HttpBody.Execute(p, [c] + tail), InvalidChunkSize, 0, [])
  {
    hide HttpBody.Execute;
    NoOtherDigits(c);
    StopsAt(p, c, tail);
  }

  /** A size followed by neither the end of its line nor an extension. */
  lemma NoEndOfSize(p: Parser, size: string, c: char, tail: string)
    requires BetweenChunks(p) && ChunkLine(size, "") && HexNumeral(size) < 0xFFFF_FFFF_FFFF_FFF0
    requires !IsHex(c) && c != '\r' && c != ';' && c != ' '
    ensures Fails(HttpBody.Execute(p, size + ([c] + tail)), InvalidChunkSize, |size|, [])
  {
    hide HttpBody.Execute, OneByte, HexNumeral, IsHex;
    ChunkSizeExact(p, size);
    BadSizeByte(SizeRead(p, size), c);
    FailsBehind(p, size, SizeRead(p, size), [], c, tail);
  }

  lemma BadSizeByte(q: Parser, c: char)
    requires q.errno == Ok && q.state == ChunkSize && q.nread < 80 * 1024
    requires !IsHex(c) && c != '\r' && c != ';' && c != ' '
    ensures var step := OneByte(q, c);
      step.status == Refused && step.signals == [] && step.parser.errno == InvalidChunkSize
  {
    NoOtherDigits(c);
  }

  lemma RunHalfLine(p: Parser, size: string, extension: string) returns (q: Parser)
    requires BetweenChunks(p) && ChunkLine(size, extension) && HexNumeral(size) < 0xFFFF_FFFF_FFFF_FFF0
    ensures Runs(p, size + extension + "\r", q, [])
    ensures q.state == ChunkSizeAlmostDone && q.errno == Ok && q.nread < 80 * 1024
  {
    hide HttpBody.Execute, HexNumeral;
    ChunkSizeExact(p, size);
    var t := SizeRead(p, size);
    assert Runs(p, size, t, []);
    SkipExtension(t, extension);
    var u := t.(nread := t.nread + |extension|, state := if extension == "" then t.state else ChunkParameters);
    RunsConcat(p, size, t, [], extension, u, []);
    RunsByte(u, '\r');
    q := OneByte(u, '\r').parser;
    RunsConcat(p, size + extension, u, [], "\r", q, []);
  }

  /** A carriage return without a line feed behind a size and its extension. */
  lemma NoLineFeed(p: Parser, size: string, extension: string, c: char, tail: string)
    requires BetweenChunks(p) && ChunkLine(size, extension) && HexNumeral(size) < 0xFFFF_FFFF_FFFF_FFF0 && c != '\n'
    ensures var s := size + extension + "\r";
      Fails(HttpBody.Execute(p, s + ([c] + tail)), StrictError, |s|, [])
  {
    hide *;
    var q := RunHalfLine(p, size, extension);
    WrongByte(q, c);
    FailsBehind(p, size + extension + "\r", q, [], c, tail);
  }

  lemma RunLineAndData(p: Parser, size: string, extension: string, data: string) returns (q: Parser)
    requires BetweenChunks(p) && ValidChunk(Chunk(size, extension, data))
    ensures Runs(p, size + extension + "\r\n" + data, q, [ChunkHeader(|data|)] + DataOf(data))
    ensures q.state == ChunkDataAlmostDone && q.errno == Ok && q.nread == 0
  {
    hide HttpBody.Execute, HexNumeral;
    RunLine(p, size, extension);
    var t := p.(contentLength := |data|, state := ChunkData);
    RunChunkData(t, data);
    q := t.(contentLength := 0, state := ChunkDataAlmostDone);
    RunsConcat(p, size + extension + "\r\n", t, [ChunkHeader(|data|)], data, q, DataOf(data));
  }

  /** More data than the size says. */
  lemma TooMuchData(p: Parser, size: string, extension: string, data: string, c: char, tail: string)
    requires BetweenChunks(p) && ValidChunk(Chunk(size, extension, data)) && c != '\r'
    ensures var s := size + extension + "\r\n" + data;
      Fails(HttpBody.Execute(p, s + ([c] + tail)), StrictError, |s|, [ChunkHeader(|data|)] + DataOf(data))
  {
    hide *;
    var s, signals := size + extension + "\r\n" + data, [ChunkHeader(|data|)] + DataOf(data);
    var q := RunLineAndData(p, size, extension, data);
    WrongByte(q, c);
    FailsBehind(p, s, q, signals, c, tail);
  }

  lemma RunsReturn(p: Parser, s: string, q: Parser, signals: seq<Signal>) returns (t: Parser)
    requires Runs(p, s, q, signals) && q.errno == Ok && q.nread < 80 * 1024 - 1
    requires q.state == ChunkDataAlmostDone || q.state == TrailerStart
    ensures Runs(p, s + "\r", t, signals) && t.errno == Ok && t.nread < 80 * 1024
    ensures t.state == if q.state == TrailerStart then TrailerAlmostDone else ChunkDataDone
  {
    hide HttpBody.Execute, Runs;
    RunsByte(q, '\r');
    t := OneByte(q, '\r').parser;
    RunsConcat(p, s, q, signals, "\r", t, []);
    Regroup(signals, [], []);
  }

  /** A carriage return without a line feed behind the data. */
  lemma NoEndOfData(p: Parser, size: string, extension: string, data: string, c: char, tail: string)
    requires BetweenChunks(p) && ValidChunk(Chunk(size, extension, data)) && c != '\n'
    ensures var s := size + extension + "\r\n" + data + "\r";
      Fails(HttpBody.Execute(p, s + ([c] + tail)), StrictError, |s|, [ChunkHeader(|data|)] + DataOf(data))
  {
    hide *;
    var s, signals := size + extension + "\r\n" + data, [ChunkHeader(|data|)] + DataOf(data);
    var q := RunLineAndData(p, size, extension, data);
    var t := RunsReturn(p, s, q, signals);
    WrongByte(t, c);
    FailsBehind(p, s + "\r", t, signals, c, tail);
  }

  lemma RunsToTrailer(p: Parser, zeros: string, extension: string) returns (q: Parser)
    requires BetweenChunks(p) && ChunkLine(zeros, extension) && HexNumeral(zeros) == 0
    ensures Runs(p, zeros + extension + "\r\n", q, [ChunkHeader(0)])
    ensures q.state == TrailerStart && q.errno == Ok && q.nread == 0
  {
    hide HttpBody.Execute, HexNumeral, Runs;
    RunLine(p, zeros, extension);
    q := p.(contentLength := 0, flags := p.flags.(trailing := true), state := TrailerStart);
  }

  lemma LeavesField(p: Parser, c: char)
    requires p.errno == Ok && p.nread == 0 && p.state == TrailerStart && c != '\r' && c != '\n'
    ensures OneByte(p, c) == Step(p, [], Left)
  {
  }

  /** Behind the last chunk: a trailer field is left, as it belongs to none of the states here; a carriage return
      without a line feed is refused. */
  lemma BehindLastChunk(p: Parser, zeros: string, extension: string, c: char, tail: string)
    requires BetweenChunks(p) && ChunkLine(zeros, extension) && HexNumeral(zeros) == 0 && c != '\n'
    ensures var line := zeros + extension + "\r\n";
      var r := HttpBody.Execute(p, line + ([c] + tail));
      && (c != '\r' ==>
            r.ending == Left && r.taken == |line| && r.signals == [ChunkHeader(0)] && r.parser.errno == Ok)
      && Fails(HttpBody.Execute(p, line + "\r" + ([c] + tail)), StrictError, |line + "\r"|, [ChunkHeader(0)])
  {
    hide *;
    var line, signals := zeros + extension + "\r\n", [ChunkHeader(0)];
    var q := RunsToTrailer(p, zeros, extension);
    if c != '\r' {
      LeavesField(q, c);
      StopsBehind(p, line, q, signals, c, tail);
      Regroup(signals, [], []);
    }
    var t := RunsReturn(p, line, q, signals);
    WrongByte(t, c);
    FailsBehind(p, line + "\r", t, signals, c, tail);
  }
}
