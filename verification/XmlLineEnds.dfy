/** The reader's normalization of line ends, against section 2.11 of XML 1.0. */
module XmlLineEnds {
  import opened Sequences
  import opened XmlText

  /** What newline normalization makes of a text: CR LF, LF CR and CR become LF. */
  function Normalized(s: string): string {
    if s == "" then ""
    else if s[0] == CR then "\n" + Normalized(s[if At(s, 1) == LF then 2 else 1..])
    else if s[0] == LF then "\n" + Normalized(s[if At(s, 1) == CR then 2 else 1..])
    else [s[0]] + Normalized(s[1..])
  }

  /** It changes exactly the texts with a CR. */
  lemma {:induction false} NormalizedIsSame(s: string)
    ensures CR !in Normalized(s)
    ensures Normalized(s) == s <==> CR !in s
  {
    if s != "" {
      var used := if s[0] == CR && At(s, 1) == LF then 2 else if s[0] == LF && At(s, 1) == CR then 2 else 1;
      NormalizedIsSame(s[used..]);
      assert CR in s[1..] ==> CR in s;
      assert s == [s[0]] + s[1..];
    }
  }

  /** What section 2.11 demands: CR LF becomes LF, and so does a CR without LF behind it. */
  function Standard(s: string): string {
    if s == "" then ""
    else if s[0] == CR then "\n" + Standard(s[if At(s, 1) == LF then 2 else 1..])
    else [s[0]] + Standard(s[1..])
  }

  predicate IsLineEnd(c: char) { c == CR || c == LF }

  /** The length of the longest run at the start of s in which CR and LF alternate. */
  function Alternating(s: string): (m: nat)
    ensures m <= |s|
  {
    if s == "" || !IsLineEnd(s[0]) then 0
    else if |s| > 1 && IsLineEnd(s[1]) && s[1] != s[0] then 1 + Alternating(s[1..])
    else 1
  }

  /** A longest run of alternating CR and LF that starts with LF has odd length. */
  predicate OddRuns(s: string) {
    s != "" ==>
      var m := Alternating(s);
      if m == 0 then OddRuns(s[1..]) else (s[0] == LF ==> m % 2 == 1) && OddRuns(s[m..])
  }

  function Feeds(n: nat): (f: string)
    ensures |f| == n
  {
    if n == 0 then "" else "\n" + Feeds(n - 1)
  }

  /** The first m characters are a longest run of alternating CR and LF. */
  predicate IsRun(s: string, m: nat) {
    && 0 < m <= |s|
    && (forall k | 0 <= k < m :: s[k] == if k % 2 == 0 then s[0] else if s[0] == CR then LF else CR)
    && IsLineEnd(s[0])
    && (m < |s| ==> !IsLineEnd(s[m]) || s[m] == s[m - 1])
  }

  lemma {:induction false} AlternatingIsRun(s: string)
    requires s != "" && IsLineEnd(s[0])
    ensures IsRun(s, Alternating(s))
  {
    if |s| > 1 && IsLineEnd(s[1]) && s[1] != s[0] {
      AlternatingIsRun(s[1..]);
      var m := Alternating(s);
      forall k | 0 <= k < m ensures s[k] == if k % 2 == 0 then s[0] else if s[0] == CR then LF else CR {
        if k > 0 {
          assert s[k] == s[1..][k - 1];
        }
      }
      assert m < |s| ==> s[m] == s[1..][m - 1] && s[m - 1] == s[1..][m - 2];
    }
  }

  lemma RestOfRun(s: string, m: nat)
    requires IsRun(s, m) && m > 2
    ensures m <= |s| && IsRun(s[2..], m - 2) && s[2..][m - 2..] == s[m..] && s[2..][0] == s[0]
  {
    assert forall k | 0 <= k < |s| - 2 :: s[2..][k] == s[k + 2];
  }

  /** The reader takes the characters of a run two by two. */
  lemma {:induction false} NormalizedRun(s: string, m: nat)
    requires IsRun(s, m)
    ensures Normalized(s) == Feeds((m + 1) / 2) + Normalized(s[m..])
    decreases m
  {
    hide Normalized, Feeds, IsRun;
    NormalizedStep(s, m);
    FeedsStep((m + 1) / 2);
    if m > 2 {
      RestOfRun(s, m);
      NormalizedRun(s[2..], m - 2);
      Regroup("\n", Feeds((m - 1) / 2), Normalized(s[m..]));
    }
  }

  lemma NormalizedStep(s: string, m: nat)
    requires IsRun(s, m)
    ensures Normalized(s) == "\n" + Normalized(s[if m == 1 then 1 else 2..])
  {
    assert m > 1 ==> s[1] == if s[0] == CR then LF else CR;
  }

  lemma FeedsStep(n: nat)
    ensures n > 0 ==> Feeds(n) == "\n" + Feeds(n - 1)
    ensures Feeds(1) == "\n"
  {
    assert Feeds(0) == "";
  }

  /** So does the standard when the run starts with CR. */
  lemma {:induction false} StandardRun(s: string, m: nat)
    requires IsRun(s, m) && s[0] == CR
    ensures Standard(s) == Feeds((m + 1) / 2) + Standard(s[m..])
    decreases m
  {
    hide Standard, Feeds, IsRun;
    StandardStep(s, m);
    FeedsStep((m + 1) / 2);
    if m > 2 {
      RestOfRun(s, m);
      StandardRun(s[2..], m - 2);
      Regroup("\n", Feeds((m - 1) / 2), Standard(s[m..]));
    }
  }

  lemma StandardStep(s: string, m: nat)
    requires IsRun(s, m)
    ensures s[0] == CR ==> Standard(s) == "\n" + Standard(s[if m == 1 then 1 else 2..])
    ensures s[0] == LF ==> Standard(s) == "\n" + Standard(s[1..])
  {
    assert m > 1 ==> s[1] == if s[0] == CR then LF else CR;
  }

  /** A run that starts with LF has that one alone. */
  lemma StandardRunFromFeed(s: string, m: nat)
    requires IsRun(s, m) && s[0] == LF
    ensures Standard(s) == Feeds(m / 2 + 1) + Standard(s[m..])
  {
    hide Standard, Feeds;
    StandardStep(s, m);
    FeedsStep(m / 2 + 1);
    if m > 1 {
      var t := s[1..];
      assert forall k | 0 <= k < |s| - 1 :: t[k] == s[k + 1];
      assert t[m - 1..] == s[m..];
      StandardRun(t, m - 1);
      Regroup("\n", Feeds(m / 2), Standard(s[m..]));
    }
  }

  lemma SameBehind(a: nat, b: nat, n: string, t: string)
    requires a <= b && |n| <= |t|
    ensures |Feeds(a) + n| <= |Feeds(b) + t|
    ensures Feeds(a) + n == Feeds(b) + t <==> a == b && n == t
  {
    if Feeds(a) + n == Feeds(b) + t {
      assert |Feeds(a) + n| == a + |n| && |Feeds(b) + t| == b + |t|;
      assert n == (Feeds(a) + n)[a..] && t == (Feeds(b) + t)[b..];
    }
  }

  /** The reader normalizes as the standard demands exactly when every longest run of alternating CR and LF that
      starts with LF has odd length. Otherwise it gives fewer line feeds. */
  lemma {:induction false} NormalizesAsStandard(s: string)
    ensures |Normalized(s)| <= |Standard(s)|
    ensures Normalized(s) == Standard(s) <==> OddRuns(s)
    decreases |s|
  {
    if s != "" {
      if IsLineEnd(s[0]) {
        var m := Alternating(s);
        AlternatingIsRun(s);
        NormalizedRun(s, m);
        NormalizesAsStandard(s[m..]);
        var feeds := if s[0] == CR then (m + 1) / 2 else m / 2 + 1;
        if s[0] == CR {
          StandardRun(s, m);
        } else {
          StandardRunFromFeed(s, m);
        }
        SameBehind((m + 1) / 2, feeds, Normalized(s[m..]), Standard(s[m..]));
        assert OddRuns(s) <==> (s[0] == LF ==> m % 2 == 1) && OddRuns(s[m..]);
        hide Normalized, Standard, Feeds, OddRuns, IsRun, Alternating;
      } else {
        NormalizesAsStandard(s[1..]);
        assert Normalized(s)[1..] == Normalized(s[1..]) && Standard(s)[1..] == Standard(s[1..]);
      }
    }
  }

  /** LF CR is the shortest text in which they differ; one more LF and they agree again. */
  lemma FeedThenReturn()
    ensures Normalized("\n\r") == "\n" && Standard("\n\r") == "\n\n"
    ensures Normalized("\n\r\n") == Standard("\n\r\n") == "\n\n"
  {
    assert "\n\r"[2..] == "" && "\n\r"[1..] == "\r" && "\r"[1..] == "";
    assert "\n\r\n"[2..] == "\n" && "\n\r\n"[1..] == "\r\n" && "\r\n"[2..] == "" && "\n"[1..] == "";
  }
}
