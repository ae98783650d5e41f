/** Whitespace collapsing: the words of a text with one space between them. */
module XmlWhitespace {
  import opened Sequences

  /** XMLUtil::IsWhiteSpace; no byte of a longer UTF-8 sequence is white. */
  predicate IsWhite(c: char) {
    c == ' ' || c == '\t' || c == '\n' || c == '\U{B}' || c == '\U{C}' || c == '\r'
  }

  function SkipWhite(s: string): (r: string)
    ensures |r| <= |s| && (r != "" ==> !IsWhite(r[0])) && r == s[|s| - |r|..]
  {
    if s != "" && IsWhite(s[0]) then SkipWhite(s[1..]) else s
  }

  /** The loop of StrPair::CollapseWhitespace, on the text from the read pointer on. */
  function Collapse(s: string): (c: string)
    ensures |c| <= |s|
    decreases |s|
  {
    if s == "" then ""
    else if IsWhite(s[0]) then
      var r := SkipWhite(s);
      if r == "" then "" else " " + [r[0]] + Collapse(r[1..])
    else [s[0]] + Collapse(s[1..])
  }

  /** StrPair::CollapseWhitespace. */
  function Collapsed(s: string): string {
    Collapse(SkipWhite(s))
  }

  /** The length of the word at the start of a text. */
  function WordLength(s: string): (n: nat)
    ensures n <= |s| && (n < |s| ==> IsWhite(s[n])) && forall k | 0 <= k < n :: !IsWhite(s[k])
  {
    if s == "" || IsWhite(s[0]) then 0 else 1 + WordLength(s[1..])
  }

  function Words(s: string): (w: seq<string>)
    decreases |s|
  {
    if s == "" then []
    else if IsWhite(s[0]) then Words(s[1..])
    else [s[..WordLength(s)]] + Words(s[WordLength(s)..])
  }

  function JoinWords(words: seq<string>): string {
    if words == [] then "" else if |words| == 1 then words[0] else words[0] + " " + JoinWords(words[1..])
  }

  lemma {:induction false} WordsBehindWhite(s: string)
    ensures Words(SkipWhite(s)) == Words(s)
  {
    if s != "" && IsWhite(s[0]) {
      WordsBehindWhite(s[1..]);
    }
  }

  /** The word at the start is kept as it is. */
  lemma {:induction false} CollapseWord(s: string, n: nat)
    requires n <= |s| && forall k | 0 <= k < n :: !IsWhite(s[k])
    ensures Collapse(s) == s[..n] + Collapse(s[n..])
  {
    if n == 0 {
      assert s[0..] == s;
    } else {
      CollapseWord(s[1..], n - 1);
      assert s[1..][n - 1..] == s[n..] && s[..n] == [s[0]] + s[1..][..n - 1];
      Regroup([s[0]], s[1..][..n - 1], Collapse(s[n..]));
    }
  }

  /** Behind a word, the white space becomes one space if another word follows. */
  lemma CollapseGap(s: string)
    requires s == "" || IsWhite(s[0])
    ensures Collapse(s) == if SkipWhite(s) == "" then "" else " " + Collapse(SkipWhite(s))
  {
    var r := SkipWhite(s);
    if r != "" {
      Regroup(" ", [r[0]], Collapse(r[1..]));
    }
  }

  lemma {:induction false} CollapseIsWords(s: string)
    requires s == "" || !IsWhite(s[0])
    ensures Collapse(s) == JoinWords(Words(s))
    decreases |s|
  {
    hide IsWhite;
    if s != "" {
      var n := WordLength(s);
      var rest := s[n..];
      var next := SkipWhite(rest);
      CollapseWord(s, n);
      CollapseGap(rest);
      WordsBehindWhite(rest);
      CollapseIsWords(next);
      assert Words(s) == [s[..n]] + Words(next);
      if next == "" {
        assert Words(s) == [s[..n]];
        Regroup(s[..n], "", "");
      } else {
        assert Words(next) != [];
        assert Words(s)[1..] == Words(next);
        Regroup(s[..n], " ", Collapse(next));
      }
    }
  }

  /** Collapsing a text gives its words with one space between them. */
  lemma CollapsedIsWords(s: string)
    ensures Collapsed(s) == JoinWords(Words(s))
  {
    CollapseIsWords(SkipWhite(s));
    WordsBehindWhite(s);
  }

  const WHITE := " \t\n\U{B}\U{C}\r"

  predicate AllWhite(s: string) {
    forall c | c in s :: c in WHITE
  }

  predicate IsWord(s: string) {
    s != "" && forall c | c in s :: c !in WHITE
  }

  /** Words, each with the white space behind it. */
  function Spaced(words: seq<string>, gaps: seq<string>): string
    requires |words| == |gaps|
  {
    if words == [] then "" else words[0] + gaps[0] + Spaced(words[1..], gaps[1..])
  }

  lemma WhiteIs(c: char)
    ensures IsWhite(c) <==> c in WHITE
  {
    assert WHITE[0] == ' ' && WHITE[1] == '\t' && WHITE[2] == '\n' && WHITE[3] == '\U{B}' && WHITE[4] == '\U{C}';
    assert WHITE[5] == '\r';
  }

  lemma {:induction false} WordsBehind(gap: string, s: string)
    requires AllWhite(gap)
    ensures Words(gap + s) == Words(s)
  {
    if gap == "" {
      assert gap + s == s;
    } else {
      assert (gap + s)[1..] == gap[1..] + s && gap[0] in gap;
      WhiteIs(gap[0]);
      WordsBehind(gap[1..], s);
    }
  }

  lemma WordFirst(w: string, s: string)
    requires IsWord(w) && (s == "" || s[0] in WHITE)
    ensures Words(w + s) == [w] + Words(s)
  {
    hide IsWhite;
    forall k | 0 <= k < |w| ensures !IsWhite((w + s)[k]) {
      WhiteIs(w[k]);
    }
    if s != "" {
      WhiteIs(s[0]);
      assert (w + s)[|w|] == s[0];
    }
    assert WordLength(w + s) == |w| && (w + s)[..|w|] == w && (w + s)[|w|..] == s;
  }

  lemma {:induction false} WordsOfSpaced(words: seq<string>, gaps: seq<string>)
    requires |words| == |gaps| && (forall w | w in words :: IsWord(w)) && (forall g | g in gaps :: AllWhite(g))
    requires forall k | 0 <= k < |gaps| - 1 :: gaps[k] != ""
    ensures Words(Spaced(words, gaps)) == words
  {
    if words != [] {
      var rest := Spaced(words[1..], gaps[1..]);
      WordsOfSpaced(words[1..], gaps[1..]);
      assert IsWord(words[0]) && AllWhite(gaps[0]);
      assert gaps[0] == "" ==> rest == "";
      Regroup(words[0], gaps[0], rest);
      assert gaps[0] != "" ==> (gaps[0] + rest)[0] == gaps[0][0] && gaps[0][0] in gaps[0];
      WordsBehind(gaps[0], rest);
      WordFirst(words[0], gaps[0] + rest);
      assert words == [words[0]] + words[1..];
    }
  }

  /** Whatever the white space in front of, between and behind words, collapsing leaves one space between them. */
  lemma CollapsedOfSpaced(lead: string, words: seq<string>, gaps: seq<string>)
    requires AllWhite(lead)
    requires |words| == |gaps| && (forall w | w in words :: IsWord(w)) && (forall g | g in gaps :: AllWhite(g))
    requires forall k | 0 <= k < |gaps| - 1 :: gaps[k] != ""
    ensures Collapsed(lead + Spaced(words, gaps)) == JoinWords(words)
  {
    hide *;
    CollapsedIsWords(lead + Spaced(words, gaps));
    WordsBehind(lead, Spaced(words, gaps));
    WordsOfSpaced(words, gaps);
  }
}
