/** The same bytes in different buffers: when the outcome of parsing a body depends on the cuts. The
    results are about the bytes up to where the run ends, which may be where it leaves the body states. */
module HttpBuffers {
  import opened HttpBody
  import opened HttpExecute
  import opened HttpChunked
  import opened Sequences

  function Concat(buffers: seq<string>): string {
    if buffers == [] then "" else buffers[0] + Concat(buffers[1..])
  }

  predicate Cut(buffers: seq<string>, s: string) {
    Concat(buffers) == s && forall k | 0 <= k < |buffers| :: buffers[k] != ""
  }

  /** Calling the parser for one buffer after the other until a call stops in the middle of its bytes or
      ends this protocol: its final state and what the callbacks were told. */
  function ExecuteCut(p: Parser, buffers: seq<string>): Run
    decreases |buffers|
  {
    if buffers == [] then Run(p, [], 0, if p.errno == Ok then Taken else Refused)
    else
      var r := HttpBody.Execute(p, buffers[0]);
      if r.ending == Taken then
        var rest := ExecuteCut(r.parser, buffers[1..]);
        Run(rest.parser, Delivered(r) + rest.signals, r.taken + rest.taken, rest.ending)
      else Run(r.parser, Delivered(r), r.taken, r.ending)
  }

  /** The driver on the parser object. */
  method ExecuteBuffers(parser: HttpParser, buffers: seq<string>) returns (taken: nat, ending: Status)
    requires Inv(parser.Snapshot()) && forall k | 0 <= k < |buffers| :: buffers[k] != ""
    modifies parser
    ensures Inv(parser.Snapshot())
    ensures var r := ExecuteCut(old(parser.Snapshot()), buffers);
            && parser.Snapshot() == r.parser && taken == r.taken && ending == r.ending
            && Flatten(parser.callbacks) == Flatten(old(parser.callbacks)) + r.signals
  {
    hide HttpBody.Execute, Inv, Delivered, Flatten;
    ghost var r := ExecuteCut(parser.Snapshot(), buffers);
    ghost var log, done := Flatten(parser.callbacks), [];
    Regroup(log, [], []);
    taken := 0;
    var k := 0;
    assert buffers[0..] == buffers;
    while k < |buffers|
      invariant 0 <= k <= |buffers| && Inv(parser.Snapshot())
      invariant Flatten(parser.callbacks) == log + done
      invariant r == Prefixed(done, taken, ExecuteCut(parser.Snapshot(), buffers[k..]))
    {
      ghost var q := parser.Snapshot();
      ghost var run := HttpBody.Execute(q, buffers[k]);
      var n;
      n, ending := parser.Execute(buffers[k]);
      Regroup(log, done, Delivered(run));
      assert buffers[k..][1..] == buffers[k + 1..];
      PrefixedTwice(done, taken, Delivered(run), n, ExecuteCut(run.parser, buffers[k + 1..]));
      done := done + Delivered(run);
      taken := taken + n;
      if ending != Taken {
        return;
      }
      k := k + 1;
    }
    ending := if parser.errno == Ok then Taken else Refused;
    Regroup(done, [], []);
  }

  lemma {:induction false} DeliveredIsPrefix(r: Run)
    ensures Delivered(r) <= r.signals
  {
    StripIsPrefix(r.signals);
  }

  lemma {:induction false} StripIsPrefix(signals: seq<Signal>)
    ensures StripData(signals) <= signals
    ensures EndsWithData(signals) ==> |StripData(signals)| < |signals|
  {
    if EndsWithData(signals) {
      StripIsPrefix(signals[..|signals| - 1]);
    }
  }

  /** The outcome for any cut against the outcome for the whole: the same parser and the same bytes
      consumed, and the same signals unless the run ends at a broken chunk end. There a cut may report
      less of the last chunk, but nothing else is missing. */
  lemma {:induction false} CutsAgree(p: Parser, buffers: seq<string>)
    requires Inv(p)
    ensures var r, c := HttpBody.Execute(p, Concat(buffers)), ExecuteCut(p, buffers);
            && c.parser == r.parser && c.taken == r.taken && c.ending == r.ending
            && (!BrokenChunkEnd(r.parser) ==> c.signals == r.signals)
            && c.signals <= r.signals
    decreases |buffers|
  {
    hide HttpBody.Execute, Inv, Delivered;
    if buffers == [] {
      NothingRuns(p, "");
    } else {
      var head, tail := buffers[0], Concat(buffers[1..]);
      var r := HttpBody.Execute(p, head);
      ExecuteConcat(p, head, tail);
      RunKeepsInv(p, head);
      DeliveredIsPrefix(r);
      WholeDelivered(r);
      if p.errno != Ok {
        NothingRuns(p, head);
      } else if r.ending == Taken {
        RunEnds(p, head);
        CutsAgree(r.parser, buffers[1..]);
      }
    }
  }

  lemma WholeDelivered(r: Run)
    ensures !BrokenChunkEnd(r.parser) ==> Delivered(r) == r.signals
    ensures BrokenChunkEnd(r.parser) ==> Delivered(r) == StripData(r.signals)
  {
  }

  /** A run can only come to the end of a chunk's data behind a body byte. */
  lemma {:induction false} ChunkEndFollowsData(p: Parser, s: string)
    requires HttpBody.Execute(p, s).parser.state == ChunkDataAlmostDone
    ensures var r := HttpBody.Execute(p, s);
            EndsWithData(r.signals) || (r.taken == 0 && r.signals == [] && p.state == ChunkDataAlmostDone)
    decreases |s|
  {
    hide OneByte;
    if s != "" && p.errno == Ok {
      OnlyDataPrecedes(p, s[0]);
      var step := OneByte(p, s[0]);
      if step.status == Taken {
        ChunkEndFollowsData(step.parser, s[1..]);
      }
    }
  }

  lemma OnlyDataPrecedes(p: Parser, c: char)
    ensures OneByte(p, c).parser.state == ChunkDataAlmostDone && p.state != ChunkDataAlmostDone ==>
              OneByte(p, c) == Step(p.(state := ChunkDataAlmostDone, contentLength := 0), [Data(c)], Taken)
    ensures OneByte(p, c).parser.state == ChunkDataAlmostDone && p.state == ChunkDataAlmostDone ==>
              OneByte(p, c).signals == [] && OneByte(p, c).status == Refused
  {
    hide ShouldKeepAlive, MessageNeedsEof;
  }

  /** A run up to, but not including, the byte it refuses. */
  lemma {:induction false} RunBeforeRefusal(p: Parser, s: string)
    requires Inv(p) && p.errno == Ok && HttpBody.Execute(p, s).ending == Refused
    ensures var r := HttpBody.Execute(p, s);
            var q := HttpBody.Execute(p, s[..r.taken]);
            && r.taken < |s| && q.ending == Taken && q.parser.state == r.parser.state
            && OneByte(q.parser, s[r.taken]).parser == r.parser
    decreases |s|
  {
    hide OneByte;
    RunEnds(p, s);
    OneByteKeepsInv(p, s[0]);
    RefusalKeepsState(p, s[0]);
    var step := OneByte(p, s[0]);
    if step.status == Taken {
      RunBeforeRefusal(step.parser, s[1..]);
      var n := HttpBody.Execute(step.parser, s[1..]).taken;
      assert s[..n + 1][1..] == s[1..][..n];
    }
  }

  lemma RefusalKeepsState(p: Parser, c: char)
    ensures OneByte(p, c).status == Refused ==> OneByte(p, c).parser.state == p.state
  {
    hide ShouldKeepAlive, MessageNeedsEof;
  }

  /** The data of a chunk ends at position k, and the byte there is not a carriage return. */
  predicate BrokenEnd(p: Parser, s: string, k: nat) {
    && 0 < k < |s| && s[k] != '\r'
    && var q := HttpBody.Execute(p, s[..k]);
       q.ending == Taken && q.parser.state == ChunkDataAlmostDone
  }

  /** The run stops there, with the data of the chunk as its last signals. */
  lemma StopsAtBrokenEnd(p: Parser, s: string, k: nat)
    requires Inv(p) && p.errno == Ok && BrokenEnd(p, s, k)
    ensures var r, q := HttpBody.Execute(p, s), HttpBody.Execute(p, s[..k]);
            && BrokenChunkEnd(r.parser) && r.taken == k && r.signals == q.signals && EndsWithData(q.signals)
            && HttpBody.Execute(q.parser, s[k..]) == Run(r.parser, [], 0, Refused)
            && q.parser.errno == Ok
  {
    hide HttpBody.Execute, OneByte, Inv;
    var q := HttpBody.Execute(p, s[..k]);
    RunEnds(p, s[..k]);
    ChunkEndFollowsData(p, s[..k]);
    assert s == s[..k] + s[k..];
    ExecuteConcat(p, s[..k], s[k..]);
    StepOver(q.parser, s[k..]);
    ChunkEndByte(q.parser, s[k]);
    Regroup(q.signals, [], []);
  }

  /** There the single buffer loses the data of the last chunk, while a cut right before the offending
      byte reports all of it. */
  lemma {:induction false} BrokenCutsDiffer(p: Parser, s: string, k: nat)
    requires Inv(p) && p.errno == Ok && BrokenEnd(p, s, k)
    ensures var r := HttpBody.Execute(p, s);
            && ExecuteCut(p, [s]).signals == StripData(r.signals) != r.signals
            && ExecuteCut(p, [s[..k], s[k..]]).signals == r.signals
  {
    hide HttpBody.Execute, Inv, StripData;
    StopsAtBrokenEnd(p, s, k);
    var r, q := HttpBody.Execute(p, s), HttpBody.Execute(p, s[..k]);
    StripIsPrefix(r.signals);
    WholeDelivered(r);
    WholeDelivered(q);
    NothingDelivered(Run(r.parser, [], 0, Refused));
    OneBuffer(p, s);
    OneBuffer(q.parser, s[k..]);
    assert [s[..k], s[k..]][1..] == [s[k..]];
    Regroup(q.signals, [], []);
  }

  lemma OneBuffer(p: Parser, s: string)
    ensures var r := HttpBody.Execute(p, s);
            ExecuteCut(p, [s]).signals == Delivered(r)
  {
    hide HttpBody.Execute, Delivered;
    var r := HttpBody.Execute(p, s);
    assert ExecuteCut(r.parser, [s][1..]).signals == [];
    Regroup(Delivered(r), [], []);
  }

  /** A chunk of one byte followed by a byte other than a carriage return: in one buffer the byte of the
      chunk is lost, in two it is reported. */
  lemma LostByte(p: Parser)
    requires Inv(p) && BetweenChunks(p)
    ensures ExecuteCut(p, ["1\r\nab"]).signals == [ChunkHeader(1)]
    ensures ExecuteCut(p, ["1\r\na", "b"]).signals == [ChunkHeader(1), Data('a')]
  {
    hide HttpBody.Execute, Inv, StripData, ExecuteCut;
    var s, q := "1\r\nab", p.(contentLength := 1, state := ChunkData);
    assert HexNumeral("1") == 1 by { assert "1"[..0] == ""; }
    assert "1" + "" + "\r\n" == "1\r\n";
    RunLine(p, "1", "");
    RunChunkData(q, "a");
    RunsConcat(p, "1\r\n", q, [ChunkHeader(1)], "a", q.(contentLength := 0, state := ChunkDataAlmostDone), DataOf("a"));
    assert s[..4] == "1\r\n" + "a" == "1\r\na" && s[4..] == "b";
    StopsAtBrokenEnd(p, s, 4);
    BrokenCutsDiffer(p, s, 4);
    StripDataOf([ChunkHeader(1)], "a");
    assert [ChunkHeader(1)] + DataOf("a") == [ChunkHeader(1), Data('a')];
  }

  /** What the callbacks are told does not depend on the cuts exactly when no chunk's data is followed by
      a byte other than the carriage return. */
  lemma CutInvariance(p: Parser, s: string)
    requires Inv(p) && p.errno == Ok
    ensures (forall buffers | Cut(buffers, s) :: ExecuteCut(p, buffers).signals == HttpBody.Execute(p, s).signals)
            <==> !exists k :: BrokenEnd(p, s, k)
  {
    hide HttpBody.Execute, Inv, ExecuteCut, BrokenEnd;
    var r := HttpBody.Execute(p, s);
    if k :| BrokenEnd(p, s, k) {
      BrokenCutsDiffer(p, s, k);
      assert Concat([s]) == s by { assert [s][1..] == []; assert s + "" == s; }
      assert Cut([s], s) by { BrokenEndInside(p, s, k); }
    } else {
      forall buffers | Cut(buffers, s) ensures ExecuteCut(p, buffers).signals == r.signals {
        CutsAgree(p, buffers);
        if BrokenChunkEnd(r.parser) {
          NoBrokenEnd(p, s);
        }
      }
    }
  }

  lemma BrokenEndInside(p: Parser, s: string, k: nat)
    requires BrokenEnd(p, s, k)
    ensures s != ""
  {
  }

  /** A run that ends at a broken chunk end without one in its bytes was refused its first byte. */
  lemma NoBrokenEnd(p: Parser, s: string)
    requires Inv(p) && p.errno == Ok && BrokenChunkEnd(HttpBody.Execute(p, s).parser)
    requires !exists k :: BrokenEnd(p, s, k)
    ensures HttpBody.Execute(p, s).signals == []
  {
    hide HttpBody.Execute, Inv, OneByte;
    var k := HttpBody.Execute(p, s).taken;
    RunEnds(p, s);
    RunBeforeRefusal(p, s);
    ChunkEndByte(HttpBody.Execute(p, s[..k]).parser, s[k]);
    assert !BrokenEnd(p, s, k);
    RefusedFirst(p, s);
  }

  lemma RefusedFirst(p: Parser, s: string)
    requires HttpBody.Execute(p, s).taken == 0 && HttpBody.Execute(p, s).ending == Refused
    ensures HttpBody.Execute(p, s).signals == []
  {
    hide ShouldKeepAlive, MessageNeedsEof;
  }
}
