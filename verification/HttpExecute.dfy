/** http_parser_execute as the source runs it: whole buffers, bulk skipping of body bytes, and a mark
    for the body bytes that still have to be reported. It refines the byte-by-byte run. */
module HttpExecute {
  import opened Digits
  import opened HttpBody
  import opened Sequences

  datatype Callback =
    | OnBody(bytes: string)
    | OnChunkHeader(length: nat)
    | OnChunkComplete
    | OnMessageComplete

  function DataOf(s: string): (d: seq<Signal>)
    ensures |d| == |s| && forall k | 0 <= k < |s| :: d[k] == Data(s[k])
  {
    seq(|s|, k requires 0 <= k < |s| => Data(s[k]))
  }

  function SignalsOf(c: Callback): seq<Signal> {
    match c
    case OnBody(bytes) => DataOf(bytes)
    case OnChunkHeader(length) => [ChunkHeader(length)]
    case OnChunkComplete => [ChunkComplete]
    case OnMessageComplete => [MessageComplete]
  }

  /** What a list of callbacks tells, byte by byte. */
  function Flatten(callbacks: seq<Callback>): seq<Signal> {
    if callbacks == [] then []
    else Flatten(callbacks[..|callbacks| - 1]) + SignalsOf(callbacks[|callbacks| - 1])
  }

  lemma FlattenAppend(a: seq<Callback>, c: Callback)
    ensures Flatten(a + [c]) == Flatten(a) + SignalsOf(c)
  {
    assert (a + [c])[..|a|] == a;
  }

  predicate EndsWithData(signals: seq<Signal>) {
    signals != [] && signals[|signals| - 1].Data?
  }

  /** The signals without the run of body bytes at their end. */
  function StripData(signals: seq<Signal>): seq<Signal> {
    if EndsWithData(signals) then StripData(signals[..|signals| - 1]) else signals
  }

  lemma {:induction false} StripDataOf(a: seq<Signal>, s: string)
    requires !EndsWithData(a)
    ensures StripData(a + DataOf(s)) == a
  {
    if s == "" {
      assert a + DataOf(s) == a;
    } else {
      var t := s[..|s| - 1];
      assert (a + DataOf(s))[..|a| + |s| - 1] == a + DataOf(t);
      StripDataOf(a, t);
    }
  }

  /** The byte after the data of a chunk was not a carriage return. The strict check then jumps to the
      error exit without reporting the body bytes marked in the same buffer. */
  predicate BrokenChunkEnd(p: Parser) {
    p.errno == StrictError && p.state == ChunkDataAlmostDone
  }

  /** The signals of a run that reach the callbacks. */
  function Delivered(r: Run): seq<Signal> {
    if BrokenChunkEnd(r.parser) then StripData(r.signals) else r.signals
  }

  function Prefixed(signals: seq<Signal>, taken: nat, r: Run): Run {
    Run(r.parser, signals + r.signals, taken + r.taken, r.ending)
  }

  lemma PrefixedTwice(a: seq<Signal>, m: nat, b: seq<Signal>, n: nat, r: Run)
    ensures Prefixed(a, m, Prefixed(b, n, r)) == Prefixed(a + b, m + n, r)
  {
    assert a + (b + r.signals) == (a + b) + r.signals;
  }

  /** The states in which body bytes are skipped in bulk, and the parser after n of them. */
  predicate InBulk(p: Parser, n: nat) {
    || n == 0
    || (p.state == ChunkData && n <= p.contentLength)
    || (p.state == BodyIdentity && n < p.contentLength)
    || p.state == BodyIdentityEof
  }

  function AfterBulk(p: Parser, n: nat): Parser
    requires InBulk(p, n)
  {
    if n == 0 || p.state == BodyIdentityEof then p
    else
      p.(contentLength := p.contentLength - n,
         state := if p.state == ChunkData && n == p.contentLength then ChunkDataAlmostDone else p.state)
  }

  lemma BulkByte(p: Parser, c: char)
    requires InBulk(p, 1)
    ensures OneByte(p, c) == Step(AfterBulk(p, 1), [Data(c)], Taken)
  {
    hide MessageNeedsEof, ShouldKeepAlive;
  }

  lemma LastBodyByte(p: Parser, c: char)
    requires p.state == BodyIdentity && p.contentLength == 1
    ensures OneByte(p, c) == MessageDone(p.(contentLength := 0), [Data(c)])
  {
    hide MessageNeedsEof, ShouldKeepAlive;
  }

  /** A byte stepped over by the byte-wise switch. */
  lemma StepOver(p: Parser, s: string)
    requires p.errno == Ok && s != ""
    ensures var step := OneByte(p, s[0]);
            && (step.status == Taken ==> Execute(p, s) == Prefixed(step.signals, 1, Execute(step.parser, s[1..])))
            && (step.status == Refused || step.status == Left ==>
                  Execute(p, s) == Run(step.parser, step.signals, 0, step.status))
            && (step.status == Exited ==> Execute(p, s) == Run(step.parser, step.signals, 1, Exited))
  {
    hide OneByte;
  }

  /** Skipping n body bytes at once is the same as stepping over them. */
  lemma {:induction false} BulkSkip(p: Parser, s: string, n: nat)
    requires p.errno == Ok && InBulk(p, n) && n <= |s|
    ensures Execute(p, s) == Prefixed(DataOf(s[..n]), n, Execute(AfterBulk(p, n), s[n..]))
    decreases n
  {
    hide Execute, OneByte;
    if n == 0 {
      assert s[0..] == s && DataOf(s[..0]) == [];
      assert [] + Execute(p, s).signals == Execute(p, s).signals;
    } else {
      var q := AfterBulk(p, 1);
      BulkByte(p, s[0]);
      StepOver(p, s);
      BulkSkip(q, s[1..], n - 1);
      assert AfterBulk(q, n - 1) == AfterBulk(p, n);
      assert s[1..][n - 1..] == s[n..];
      PrefixedTwice([Data(s[0])], 1, DataOf(s[1..][..n - 1]), n - 1, Execute(AfterBulk(p, n), s[n..]));
      assert [Data(s[0])] + DataOf(s[1..][..n - 1]) == DataOf(s[..n]);
    }
  }

  /** The last byte of a body of known length. */
  lemma {:induction false} LastByte(p: Parser, s: string, n: nat)
    requires p.errno == Ok && p.state == BodyIdentity && 0 < n == p.contentLength <= |s|
    ensures var done := MessageDone(p.(contentLength := 0), []);
            Execute(p, s) ==
            if p.head.upgrade then Run(done.parser, DataOf(s[..n]) + [MessageComplete], n, Exited)
            else Prefixed(DataOf(s[..n]) + [MessageComplete], n, Execute(done.parser, s[n..]))
  {
    hide Execute, OneByte, NewMessage;
    BulkSkip(p, s, n - 1);
    var q, t := AfterBulk(p, n - 1), s[n - 1..];
    var done := MessageDone(p.(contentLength := 0), []);
    LastBodyByte(q, t[0]);
    assert q.(contentLength := 0) == p.(contentLength := 0);
    StepOver(q, t);
    assert t[1..] == s[n..];
    assert [Data(t[0])] + [MessageComplete] == [Data(t[0]), MessageComplete];
    assert DataOf(s[..n - 1]) + [Data(t[0]), MessageComplete] == DataOf(s[..n]) + [MessageComplete];
    if !p.head.upgrade {
      PrefixedTwice(DataOf(s[..n - 1]), n - 1, [Data(t[0]), MessageComplete], 1, Execute(done.parser, s[n..]));
    }
  }

  lemma NothingRuns(p: Parser, s: string)
    requires s == "" || p.errno != Ok
    ensures Execute(p, s) == Run(p, [], 0, if p.errno == Ok then Taken else Refused)
  {
  }

  lemma NothingDelivered(r: Run)
    requires r.signals == []
    ensures Delivered(r) == []
  {
  }

  /** A run in progress: the signals and bytes so far, and the run from the current position. */
  lemma AdvanceByte(r: Run, q: Parser, done: seq<Signal>, data: string, p: nat)
    requires p < |data| && q.errno == Ok && r == Prefixed(done, p, Execute(q, data[p..]))
    ensures var step := OneByte(q, data[p]);
            && (step.status == Taken ==>
                  r == Prefixed(done + step.signals, p + 1, Execute(step.parser, data[p + 1..])))
            && (step.status == Refused || step.status == Left ==>
                  r == Run(step.parser, done + step.signals, p, step.status))
            && (step.status == Exited ==> r == Run(step.parser, done + step.signals, p + 1, Exited))
  {
    hide OneByte, Execute;
    StepOver(q, data[p..]);
    assert data[p..][1..] == data[p + 1..];
    var step := OneByte(q, data[p]);
    PrefixedTwice(done, p, step.signals, 1, Execute(step.parser, data[p + 1..]));
  }

  lemma AdvanceBulk(r: Run, q: Parser, done: seq<Signal>, data: string, p: nat, n: nat)
    requires p + n <= |data| && q.errno == Ok && InBulk(q, n) && r == Prefixed(done, p, Execute(q, data[p..]))
    ensures r == Prefixed(done + DataOf(data[p..p + n]), p + n, Execute(AfterBulk(q, n), data[p + n..]))
  {
    hide Execute, AfterBulk;
    BulkSkip(q, data[p..], n);
    assert data[p..][n..] == data[p + n..] && data[p..][..n] == data[p..p + n];
    PrefixedTwice(done, p, DataOf(data[p..p + n]), n, Execute(AfterBulk(q, n), data[p + n..]));
  }

  lemma AdvanceLast(r: Run, q: Parser, done: seq<Signal>, data: string, p: nat, n: nat)
    requires p + n <= |data| && q.errno == Ok && r == Prefixed(done, p, Execute(q, data[p..]))
    requires q.state == BodyIdentity && 0 < n == q.contentLength
    ensures var body := done + DataOf(data[p..p + n]) + [MessageComplete];
            var after := MessageDone(q.(contentLength := 0), []).parser;
            if q.head.upgrade then r == Run(after, body, p + n, Exited)
            else r == Prefixed(body, p + n, Execute(after, data[p + n..]))
  {
    hide Execute, MessageDone;
    LastByte(q, data[p..], n);
    assert data[p..][n..] == data[p + n..] && data[p..][..n] == data[p..p + n];
    var after := MessageDone(q.(contentLength := 0), []).parser;
    PrefixedTwice(done, p, DataOf(data[p..p + n]) + [MessageComplete], n, Execute(after, data[p + n..]));
    assert done + (DataOf(data[p..p + n]) + [MessageComplete]) == done + DataOf(data[p..p + n]) + [MessageComplete];
  }

  lemma AssertsFollow(p: Parser)
    requires Inv(p) && p.errno == Ok
    ensures AssertsHold(p)
    ensures p.state in {ChunkData, BodyIdentity} ==> p.contentLength > 0
  {
  }

  lemma BulkKeepsInv(p: Parser, n: nat)
    requires Inv(p) && n > 0 && InBulk(p, n)
    ensures Inv(AfterBulk(p, n)) && AfterBulk(p, n).errno == p.errno
    ensures AfterBulk(p, n) ==
            if p.state == BodyIdentityEof then p
            else p.(contentLength := p.contentLength - n,
                    state := if p.state == ChunkData && n == p.contentLength then ChunkDataAlmostDone else p.state)
  {
  }

  lemma CompletedKeepsInv(p: Parser)
    requires Inv(p) && p.state == BodyIdentity
    ensures var q := MessageDone(p.(contentLength := 0), []).parser;
            Inv(q) && q.errno == p.errno && (q.state == Start || q.state == Dead)
  {
    hide MessageNeedsEof, ShouldKeepAlive;
  }

  predicate InBody(state: State) {
    state == BodyIdentity || state == BodyIdentityEof || state == ChunkData || state == ChunkDataAlmostDone
  }

  lemma InBodyStates(state: State)
    requires InBody(state)
    ensures state == BodyIdentity || state == BodyIdentityEof || state == ChunkData || state == ChunkDataAlmostDone
  {
  }

  lemma NoData()
    ensures DataOf("") == []
  {
  }

  /** Chunk data starts with the signal of its header. */
  lemma EntersChunkData(p: Parser, c: char, done: seq<Signal>)
    requires !InBody(p.state)
    ensures var step := OneByte(p, c);
            step.parser.state == ChunkData || step.parser.state == ChunkDataAlmostDone ==>
              !EndsWithData(done + step.signals)
    ensures BrokenChunkEnd(OneByte(p, c).parser) ==> BrokenChunkEnd(p)
    ensures OneByte(p, c).status == Exited || OneByte(p, c).status == Left ==> OneByte(p, c).parser.errno == p.errno
  {
    hide MessageNeedsEof, ShouldKeepAlive;
  }

  lemma ChunkEndByte(p: Parser, c: char)
    requires p.state == ChunkDataAlmostDone
    ensures OneByte(p, c) == if c == '\r' then Go(p, ChunkDataDone) else Refuse(p, StrictError)
  {
  }

  /** The state of a call in the middle of a buffer: r is the run of the whole buffer, done what was
      reported of it, marked the body bytes still to be reported, q the parser at position p. */
  ghost predicate Midway(r: Run, q: Parser, data: string, p: nat, done: seq<Signal>, marked: string) {
    && p <= |data| && q.errno == Ok && Inv(q)
    && (q.state == ChunkData || q.state == ChunkDataAlmostDone ==> !EndsWithData(done))
    && r == Prefixed(done + DataOf(marked), p, Execute(q, data[p..]))
  }

  lemma MidwayStart(q: Parser, data: string)
    requires Inv(q) && q.errno == Ok
    ensures Midway(Execute(q, data), q, data, 0, [], "")
  {
    hide Execute, Inv;
    assert data[0..] == data && [] + DataOf("") + Execute(q, data).signals == Execute(q, data).signals;
  }

  lemma MidwayAsserts(r: Run, q: Parser, data: string, p: nat, done: seq<Signal>, marked: string)
    requires Midway(r, q, data, p, done, marked)
    ensures AssertsHold(q)
  {
    hide Execute;
  }

  lemma MidwayEnd(r: Run, q: Parser, data: string, done: seq<Signal>, marked: string)
    requires Midway(r, q, data, |data|, done, marked)
    ensures r == Run(q, done + DataOf(marked), |data|, Taken) && Delivered(r) == r.signals && Inv(q)
  {
    hide Execute;
    NothingRuns(q, data[|data|..]);
    assert done + DataOf(marked) + [] == done + DataOf(marked);
  }

  class HttpParser {
    const head: Head
    var state: State
    var flags: Flags
    var nread: nat
    var contentLength: nat
    var errno: Errno
    /** The callbacks called so far. */
    var callbacks: seq<Callback>

    /** A parser whose headers have been read up to, but not including, their last byte. */
    constructor (head: Head, flags: Flags, nread: nat, contentLength: nat)
      requires contentLength <= ABSENT
      ensures Snapshot() == Parser(head, HeadersDone, flags, nread, contentLength, Ok) && callbacks == []
    {
      this.head, this.flags, this.nread, this.contentLength := head, flags, nread, contentLength;
      state, errno, callbacks := HeadersDone, Ok, [];
    }

    function Snapshot(): Parser
      reads this
    {
      Parser(head, state, flags, nread, contentLength, errno)
    }

    method Notify(c: Callback)
      modifies `callbacks
      ensures callbacks == old(callbacks) + [c]
      ensures Flatten(callbacks) == Flatten(old(callbacks)) + SignalsOf(c)
    {
      FlattenAppend(callbacks, c);
      callbacks := callbacks + [c];
    }

    /** s_message_done: a new message, or the end of this protocol. */
    method CompleteMessage() returns (leave: bool)
      modifies `state, `callbacks
      ensures Step(Snapshot(), [MessageComplete], if leave then Exited else Taken) == MessageDone(old(Snapshot()), [])
      ensures leave == head.upgrade
      ensures Flatten(callbacks) == Flatten(old(callbacks)) + [MessageComplete]
    {
      hide ShouldKeepAlive;
      state := if ShouldKeepAlive(Snapshot()) then Start else Dead;
      Notify(OnMessageComplete);
      leave := head.upgrade;
    }

    method HeadersComplete() returns (leave: bool)
      modifies `state, `callbacks
      ensures var step := HeadersDoneStep(old(Snapshot()));
              && Snapshot() == step.parser && step.status == (if leave then Exited else Taken)
              && Flatten(callbacks) == Flatten(old(callbacks)) + step.signals
    {
      hide ShouldKeepAlive, MessageNeedsEof;
      leave := false;
      var hasBody := flags.chunked || (contentLength > 0 && contentLength != ABSENT);
      ghost var before := Flatten(callbacks);
      assert before + [] == before;
      if head.upgrade && (head.connect || flags.skipBody || !hasBody) {
        state := NewMessage(Snapshot());
        Notify(OnMessageComplete);
        leave := true;
      } else if flags.skipBody {
        state := NewMessage(Snapshot());
        Notify(OnMessageComplete);
      } else if flags.chunked {
        state := ChunkSizeStart;
      } else if contentLength == 0 {
        state := NewMessage(Snapshot());
        Notify(OnMessageComplete);
      } else if contentLength != ABSENT {
        state := BodyIdentity;
      } else if !MessageNeedsEof(Snapshot()) {
        state := NewMessage(Snapshot());
        Notify(OnMessageComplete);
      } else {
        state := BodyIdentityEof;
      }
    }

    /** The switch for the states that look at one byte and report no body bytes. */
    method DispatchByte(c: char) returns (status: Status)
      requires errno == Ok && !InBody(state) && !StartsLine(state, c)
      modifies this
      ensures var step := Dispatch(old(Snapshot()), c);
              && Snapshot() == step.parser && status == step.status
              && Flatten(callbacks) == Flatten(old(callbacks)) + step.signals
    {
      hide HeadersDoneStep, ChunkDigitStep, MessageDone;
      status := Taken;
      ghost var before := Flatten(callbacks);
      assert before + [] == before;
      match state {
        case HeadersDone =>
          if c != '\n' {
            errno := StrictError;
            return Refused;
          }
          nread := 0;
          var leave := HeadersComplete();
          return if leave then Exited else Taken;
        case ChunkSizeStart => status := ChunkSizeByte(c);
        case ChunkSize => status := ChunkSizeByte(c);
        case ChunkParameters =>
          if c == '\r' {
            state := ChunkSizeAlmostDone;
          }
        case ChunkSizeAlmostDone => status := ChunkLineByte(c);
        case ChunkDataDone => status := ChunkLineByte(c);
        case TrailerStart => status := TrailerByte(c);
        case TrailerAlmostDone => status := TrailerByte(c);
        case Start =>
        case Dead =>
          if c != '\r' && c != '\n' {
            errno := ClosedConnection;
            return Refused;
          }
      }
    }

    /** s_chunk_size_start and s_chunk_size; the new length never reaches the value for no length. */
    method ChunkSizeByte(c: char) returns (status: Status)
      requires errno == Ok && (state == ChunkSizeStart || state == ChunkSize)
      modifies this
      ensures Step(Snapshot(), [], status) == Dispatch(old(Snapshot()), c)
      ensures callbacks == old(callbacks)
    {
      status := Taken;
      var digit := HexValue(c);
      if state == ChunkSizeStart {
        if digit == -1 {
          errno := InvalidChunkSize;
          return Refused;
        }
        contentLength := digit;
        state := ChunkSize;
      } else if c == '\r' {
        state := ChunkSizeAlmostDone;
      } else if digit == -1 {
        if c == ';' || c == ' ' {
          state := ChunkParameters;
          return;
        }
        errno := InvalidChunkSize;
        return Refused;
      } else {
        if (ABSENT - 16) / 16 < contentLength {
          errno := InvalidContentLength;
          return Refused;
        }
        assert contentLength * 16 + digit < ABSENT;
        contentLength := contentLength * 16 + digit;
      }
    }

    /** s_chunk_size_almost_done and s_chunk_data_done: the line feed of a chunk line. */
    method ChunkLineByte(c: char) returns (status: Status)
      requires errno == Ok && (state == ChunkSizeAlmostDone || state == ChunkDataDone)
      modifies this
      ensures var step := Dispatch(old(Snapshot()), c);
              && Snapshot() == step.parser && status == step.status
              && Flatten(callbacks) == Flatten(old(callbacks)) + step.signals
    {
      if c != '\n' {
        errno := StrictError;
        return Refused;
      }
      status := Taken;
      nread := 0;
      if state == ChunkDataDone {
        state := ChunkSizeStart;
        Notify(OnChunkComplete);
        return;
      }
      if contentLength == 0 {
        flags := flags.(trailing := true);
        state := TrailerStart;
      } else {
        state := ChunkData;
      }
      Notify(OnChunkHeader(contentLength));
    }

    /** s_header_field_start and s_headers_almost_done behind the last chunk: its empty line. */
    method TrailerByte(c: char) returns (status: Status)
      requires errno == Ok && (state == TrailerStart || state == TrailerAlmostDone) && !StartsLine(state, c)
      modifies this
      ensures var step := Dispatch(old(Snapshot()), c);
              && Snapshot() == step.parser && status == step.status
              && Flatten(callbacks) == Flatten(old(callbacks)) + step.signals
    {
      hide HeadersDoneStep, ChunkDigitStep, MessageDone;
      status := Taken;
      assert Flatten(callbacks) + [] == Flatten(callbacks);
      if c == '\r' && state == TrailerStart {
        state := TrailerAlmostDone;
      } else if c != '\n' {
        errno := StrictError;
        status := Refused;
      } else {
        status := EndOfTrailer();
      }
    }

    /** s_headers_almost_done behind a trailer: the last chunk and the message are complete. */
    method EndOfTrailer() returns (status: Status)
      modifies this
      ensures var step := MessageDone(old(Snapshot()), [ChunkComplete]);
              && Snapshot() == step.parser && status == step.status
              && Flatten(callbacks) == Flatten(old(callbacks)) + step.signals
    {
      hide ShouldKeepAlive, NewMessage;
      Notify(OnChunkComplete);
      var leave := CompleteMessage();
      status := if leave then Exited else Taken;
    }

    /** A byte of a state without body bytes: COUNT_HEADER_SIZE and the switch. A byte that starts a
        line of the next message or of a trailer is left where it is. */
    method HeaderByte(c: char) returns (status: Status)
      requires errno == Ok && !InBody(state)
      modifies this
      ensures var step := OneByte(old(Snapshot()), c);
              && Snapshot() == step.parser && status == step.status
              && Flatten(callbacks) == Flatten(old(callbacks)) + step.signals
    {
      hide Dispatch;
      assert Flatten(callbacks) + [] == Flatten(callbacks);
      if ParsingHeader(state) {
        if nread + 1 > MAX_HEADER_SIZE {
          nread := nread + 1;
          errno := HeaderOverflow;
          return Refused;
        }
        if StartsLine(state, c) {
          return Left;
        }
        nread := nread + 1;
      }
      status := DispatchByte(c);
    }

    /** s_chunk_data_almost_done: reports the marked body bytes, or loses them to the strict check. */
    method EndOfChunkData(data: string, p: nat, bodyMark: int, ghost done: seq<Signal>, ghost r: Run) returns (ok: bool)
      requires state == ChunkDataAlmostDone && p < |data| && (bodyMark == -1 || 0 <= bodyMark < p)
      requires Midway(r, Snapshot(), data, p, done, Marked(data, bodyMark, p))
      modifies this
      ensures ok ==>
        && !InBody(state)
        && Midway(r, Snapshot(), data, p + 1, done + DataOf(Marked(data, bodyMark, p)), "")
        && Flatten(callbacks) == Flatten(old(callbacks)) + DataOf(Marked(data, bodyMark, p))
      ensures !ok ==>
        r.parser == Snapshot() && r.taken == p && r.ending == Refused
        && Delivered(r) == done && callbacks == old(callbacks)
    {
      hide HttpBody.Execute, OneByte, Flatten, StripData, Inv;
      ghost var q, text := Snapshot(), Marked(data, bodyMark, p);
      AdvanceByte(r, q, done + DataOf(text), data, p);
      ChunkEndByte(q, data[p]);
      OneByteKeepsInv(q, data[p]);
      assert done + DataOf(text) + [] == done + DataOf(text);
      assert done + DataOf(text) + DataOf("") == done + DataOf(text);
      if data[p] != '\r' {
        errno := StrictError;
        StripDataOf(done, text);
        return false;
      }
      state := ChunkDataDone;
      if bodyMark >= 0 {
        Notify(OnBody(data[bodyMark..p]));
      } else {
        assert Flatten(callbacks) + DataOf("") == Flatten(callbacks);
      }
      ok := true;
    }

    /** s_body_identity, s_body_identity_eof and s_chunk_data: skips the body bytes of this buffer. The
        body of known length ends here when its last byte is among them. */
    method SkipBody(data: string, p: nat, ghost done: seq<Signal>, ghost r: Run)
      returns (next: nat, complete: bool, leave: bool)
      requires state == ChunkData || state == BodyIdentity || state == BodyIdentityEof
      requires p < |data| && Midway(r, Snapshot(), data, p, done, "")
      modifies this
      ensures p < next <= |data| && (leave ==> complete)
      ensures complete ==> Flatten(callbacks) == Flatten(old(callbacks)) + (DataOf(data[p..next]) + [MessageComplete])
      ensures leave ==>
        && r == Run(Snapshot(), done + (DataOf(data[p..next]) + [MessageComplete]), next, Exited)
        && Delivered(r) == r.signals
      ensures complete && !leave ==>
        Midway(r, Snapshot(), data, next, done + (DataOf(data[p..next]) + [MessageComplete]), "") && !InBody(state)
      ensures !complete ==>
        && callbacks == old(callbacks) && (next < |data| ==> state == ChunkDataAlmostDone)
        && Midway(r, Snapshot(), data, next, done, data[p..next])
    {
      hide HttpBody.Execute, OneByte, Dispatch, Inv, MessageDone, AfterBulk, Flatten, EndsWithData;
      assert done + DataOf("") == done;
      AssertsFollow(Snapshot());
      ghost var q := Snapshot();
      complete, leave := false, false;
      var toRead := |data| - p;
      if state != BodyIdentityEof && contentLength < toRead {
        toRead := contentLength;
      }
      next := p + toRead;
      if state == BodyIdentity && toRead == contentLength {
        AdvanceLast(r, q, done, data, p, toRead);
        CompletedKeepsInv(q);
        contentLength := 0;
        Notify(OnBody(data[p..next]));
        leave := CompleteMessage();
        complete := true;
        ghost var body := DataOf(data[p..next]);
        assert Flatten(old(callbacks)) + body + [MessageComplete]
          == Flatten(old(callbacks)) + (body + [MessageComplete]);
        assert done + body + [MessageComplete] == done + (body + [MessageComplete]);
        assert done + (body + [MessageComplete]) + DataOf("") == done + (body + [MessageComplete]);
      } else {
        AdvanceBulk(r, q, done, data, p, toRead);
        BulkKeepsInv(q, toRead);
        if state != BodyIdentityEof {
          contentLength := contentLength - toRead;
        }
        if state == ChunkData && contentLength == 0 {
          state := ChunkDataAlmostDone;
        }
        assert Snapshot() == AfterBulk(q, toRead);
      }
    }

    /** A byte of a state without body bytes, in the middle of a buffer. */
    method SkipHeaderByte(data: string, p: nat, ghost done: seq<Signal>, ghost r: Run)
      returns (status: Status, ghost news: seq<Signal>)
      requires !InBody(state) && p < |data| && Midway(r, Snapshot(), data, p, done, "")
      modifies this
      ensures Flatten(callbacks) == Flatten(old(callbacks)) + news
      ensures status == Taken ==> Midway(r, Snapshot(), data, p + 1, done + news, "")
      ensures status == Refused || status == Left ==>
        r == Run(Snapshot(), done + news, p, status) && Delivered(r) == r.signals
      ensures status == Exited ==> r == Run(Snapshot(), done + news, p + 1, Exited) && Delivered(r) == r.signals
    {
      hide HttpBody.Execute, OneByte, Flatten, Inv, EndsWithData;
      assert done + DataOf("") == done;
      ghost var q := Snapshot();
      AdvanceByte(r, q, done, data, p);
      OneByteKeepsInv(q, data[p]);
      EntersChunkData(q, data[p], done);
      news := OneByte(q, data[p]).signals;
      status := HeaderByte(data[p]);
      assert done + news + DataOf("") == done + news;
    }

    static function Marked(data: string, bodyMark: int, p: nat): string
      requires p <= |data| && (bodyMark == -1 || 0 <= bodyMark <= p)
    {
      if bodyMark >= 0 then data[bodyMark..p] else ""
    }

    /** One call of http_parser_execute with a non-empty buffer: what it consumes, the new parser and
        the callbacks are those of the byte-by-byte run, except that at a broken chunk end the body
        bytes marked in this buffer are not reported. The call stops where the run leaves the states
        of the body. */
    method Execute(data: string) returns (n: nat, ending: Status)
      requires Inv(Snapshot()) && data != ""
      modifies this
      ensures var r := HttpBody.Execute(old(Snapshot()), data);
              && Snapshot() == r.parser && n == r.taken && ending == r.ending
              && Flatten(callbacks) == Flatten(old(callbacks)) + Delivered(r)
      ensures Inv(Snapshot())
    {
      hide HttpBody.Execute, Inv, Flatten, Midway, Delivered, DataOf, Prefixed, AssertsHold, InBody;
      ghost var r := HttpBody.Execute(Snapshot(), data);
      ghost var log := Flatten(callbacks);
      RunKeepsInv(Snapshot(), data);
      Regroup(log, [], []);
      if errno != Ok {
        NothingRuns(Snapshot(), data);
        NothingDelivered(r);
        return 0, Refused;
      }
      var p := 0;
      var bodyMark := -1;
      ghost var done: seq<Signal> := [];
      MidwayStart(Snapshot(), data);
      while p < |data|
        invariant 0 <= p <= |data| && (bodyMark == -1 || 0 <= bodyMark < p)
        invariant bodyMark >= 0 && p < |data| ==> state == ChunkDataAlmostDone
        invariant Flatten(callbacks) == log + done
        invariant Midway(r, Snapshot(), data, p, done, Marked(data, bodyMark, p))
      {
        assert AssertsHold(Snapshot()) by { MidwayAsserts(r, Snapshot(), data, p, done, Marked(data, bodyMark, p)); }
        if state == ChunkDataAlmostDone {
          var ok := EndOfChunkData(data, p, bodyMark, done, r);
          if !ok {
            return p, Refused;
          }
          Regroup(log, done, DataOf(Marked(data, bodyMark, p)));
          done := done + DataOf(Marked(data, bodyMark, p));
          bodyMark := -1;
          p := p + 1;
        } else if InBody(state) {
          InBodyStates(state);
          var start := p;
          var complete, leave;
          p, complete, leave := SkipBody(data, p, done, r);
          if complete {
            Regroup(log, done, DataOf(data[start..p]) + [MessageComplete]);
            done := done + (DataOf(data[start..p]) + [MessageComplete]);
            if leave {
              return p, Exited;
            }
          } else {
            bodyMark := start;
          }
        } else {
          var status;
          ghost var news;
          status, news := SkipHeaderByte(data, p, done, r);
          Regroup(log, done, news);
          done := done + news;
          if status == Refused || status == Left {
            return p, status;
          }
          p := p + 1;
          if status == Exited {
            return p, Exited;
          }
        }
      }
      MidwayEnd(r, Snapshot(), data, done, Marked(data, bodyMark, p));
      if bodyMark >= 0 {
        Notify(OnBody(data[bodyMark..p]));
        Regroup(log, done, DataOf(data[bodyMark..p]));
      } else {
        NoData();
        Regroup(done, [], []);
      }
      return p, Taken;
    }

    /** A call with an empty buffer: the end of the stream. It completes a body that runs to the end of
        the stream, is ignored between messages and is an error anywhere else. */
    method ExecuteEndOfStream() returns (n: nat)
      requires Inv(Snapshot())
      modifies this
      ensures Inv(Snapshot())
      ensures var complete := old(errno) == Ok && old(state) == BodyIdentityEof;
              var unexpected := old(errno) == Ok && !(old(state) in {BodyIdentityEof, Dead, Start});
              && n == (if unexpected then 1 else 0)
              && Snapshot() == (if unexpected then old(Snapshot()).(errno := InvalidEofState) else old(Snapshot()))
              && callbacks == old(callbacks) + (if complete then [OnMessageComplete] else [])
    {
      if errno != Ok {
        return 0;
      }
      match state {
        case BodyIdentityEof =>
          Notify(OnMessageComplete);
          return 0;
        case Dead => return 0;
        case Start => return 0;
        case _ =>
          errno := InvalidEofState;
          return 1;
      }
    }
  }
}
