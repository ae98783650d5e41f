/** A stretch of the parser's buffer: found by its end tag, and decoded in place when it is fetched. */
module XmlStrPair {
  import opened Sequences
  import opened Wrappers
  import opened XmlText
  import opened XmlWhitespace

  /** A C string: the text before the first NUL. */
  function CText(s: string): (t: string)
    ensures t <= s && NUL !in t && (|t| < |s| ==> s[|t|] == NUL)
  {
    if s == "" || s[0] == NUL then "" else [s[0]] + CText(s[1..])
  }

  /** A stretch of the parser's buffer: start and end point into it, and what the text still needs;
      NEEDS_WHITESPACE_COLLAPSING is collapse. */
  class StrPair {
    const buffer: array<char>
    var start: nat
    var end: nat
    var flush: bool
    var needs: Needs
    var collapse: bool

    constructor (buffer: array<char>)
      ensures this.buffer == buffer && start == 0 && end == 0 && !flush && needs == Needs(false, false) && !collapse
    {
      this.buffer, start, end, flush, needs, collapse := buffer, 0, 0, false, Needs(false, false), false;
    }

    /** StrPair::ParseText: the text runs from p to the end tag; the result is the position behind the tag. The
        string in the buffer ends at finish. newLines counts the lines passed, also when there is no end
        tag. */
    method ParseText(p: nat, endTag: string, needs: Needs, collapse: bool, ghost finish: nat)
      returns (next: Option<nat>, newLines: nat)
      requires p <= finish < buffer.Length && buffer[finish] == NUL && endTag != "" && NUL !in endTag
      modifies this
      ensures match FindTag(buffer[p..finish], 0, endTag) {
          case None => next.None? && unchanged(this) && newLines == Lines(CText(buffer[p..finish]))
          case Some(n) =>
            && next == Some(p + n + |endTag|) && newLines == Lines(buffer[p..p + n])
            && start == p && end == p + n && flush && this.needs == needs && this.collapse == collapse
        }
    {
      hide FindTag, Lines, CText;
      var found;
      found, newLines := Search(p, endTag, finish);
      match found {
        case None =>
          next := None;
        case Some(k) =>
          start, end, flush, this.needs, this.collapse := p, k, true, needs, collapse;
          next := Some(k + |endTag|);
      }
    }

    /** The loop of ParseText. */
    method Search(p: nat, endTag: string, ghost finish: nat) returns (found: Option<nat>, newLines: nat)
      requires p <= finish < buffer.Length && buffer[finish] == NUL && endTag != "" && NUL !in endTag
      ensures match FindTag(buffer[p..finish], 0, endTag) {
          case None => found == None && newLines == Lines(CText(buffer[p..finish]))
          case Some(n) => found == Some(p + n) && newLines == Lines(buffer[p..p + n])
        }
    {
      hide FindTag, Lines, CText;
      newLines := 0;
      ghost var r := buffer[p..finish];
      NoLines();
      assert buffer[p..p] == "";
      var k := p;
      while buffer[k] != NUL
        invariant p <= k <= finish
        invariant FindTag(r, 0, endTag) == FindTag(r, k - p, endTag)
        invariant newLines == Lines(buffer[p..k]) && NUL !in buffer[p..k]
        decreases finish - k
      {
        assert buffer[k] == r[k - p];
        assert r[k - p..] == buffer[k..finish];
        FindTagStep(r, k - p, endTag);
        var here := StartsWith(k, endTag, finish);
        if here {
          return Some(k), newLines;
        }
        assert buffer[p..k + 1] == buffer[p..k] + [buffer[k]];
        LinesAppend(buffer[p..k], buffer[k]);
        if buffer[k] == LF {
          newLines := newLines + 1;
        }
        k := k + 1;
      }
      FindTagStep(r, k - p, endTag);
      assert buffer[p..k] == r[..k - p] && (k < finish ==> r[k - p] == NUL);
      CTextEnds(r, k - p);
      found := None;
    }

    /** StrPair::GetStr: the first call ends the text with NUL, decodes it in place at its own start, and collapses its
        white space if that is asked for, which may move the start; it touches nothing outside the text. Later calls
        do nothing. */
    method GetStr()
      requires start <= end < buffer.Length
      modifies this`flush, this`needs, this`collapse, this`start, buffer
      ensures !flush
      ensures !old(flush) ==>
        needs == old(needs) && collapse == old(collapse) && start == old(start) && buffer[..] == old(buffer[..])
      ensures old(flush) ==>
        var decoded := Decode(old(buffer[start..end]), old(needs));
        var text := if old(collapse) then Collapsed(CText(decoded)) else decoded;
        && needs == Needs(false, false) && !collapse
        && old(start) <= start && (!old(collapse) ==> start == old(start))
        && start + |text| <= end && buffer[start..start + |text|] == text && buffer[start + |text|] == NUL
        && buffer[end] == NUL
        && forall k | 0 <= k < buffer.Length && !(old(start) <= k <= old(start) + |decoded| || k == end) ::
             buffer[k] == old(buffer[k])
    {
      hide Decode, CText, Collapsed;
      if !flush {
        return;
      }
      ghost var text := buffer[start..end];
      buffer[end] := NUL;
      assert buffer[start..end] == text;
      flush := false;
      if needs != Needs(false, false) || collapse {
        Process(text);
      } else {
        DecodeNothing(text);
      }
      needs, collapse := Needs(false, false), false;
    }

    /** What GetStr does to a text that needs something. */
    method Process(ghost text: string)
      requires start <= end < buffer.Length && buffer[end] == NUL && text == buffer[start..end]
      modifies this`start, buffer
      ensures var decoded := Decode(text, needs);
        var shown := if collapse then Collapsed(CText(decoded)) else decoded;
        && old(start) <= start && (!collapse ==> start == old(start))
        && start + |shown| <= end && buffer[start..start + |shown|] == shown && buffer[start + |shown|] == NUL
        && buffer[end] == NUL
        && forall k | 0 <= k < buffer.Length && !(old(start) <= k <= old(start) + |decoded|) ::
            buffer[k] == old(buffer[k])
    {
      hide *;
      DecodeInPlace();
      ghost var decoded := Decode(text, needs);
      if collapse {
        CTextAt(buffer, start, decoded);
        CollapseWhitespace(start + |CText(decoded)|);
      }
    }

    /** StrPair::CollapseWhitespace, on the C string that ends at last. */
    method CollapseWhitespace(ghost last: nat)
      requires start <= last < buffer.Length && buffer[last] == NUL && NUL !in buffer[start..last]
      modifies this`start, buffer
      ensures var text := Collapsed(old(buffer[start..last]));
        && old(start) <= start && start + |text| <= last
        && buffer[start..start + |text|] == text && buffer[start + |text|] == NUL
      ensures buffer[last] == NUL
      ensures forall k | 0 <= k < buffer.Length && !(old(start) <= k < last) :: buffer[k] == old(buffer[k])
    {
      hide SkipWhite, Collapse, IsWhite;
      ghost var was := buffer[..];
      assert was[start..last] == buffer[start..last];
      start := SkipWhiteSpace(start, last, was);
      NothingCollapsed();
      NoNulLeft(was, old(start), last, start);
      if buffer[start] != NUL {
        assert buffer[start..last] == was[start..last];
        CollapseWords(last);
      }
    }

    /** CollapseWhitespace's loop: the write cursor q follows the read cursor p. */
    method CollapseWords(ghost last: nat)
      requires start <= last < buffer.Length && buffer[last] == NUL && NUL !in buffer[start..last]
      modifies buffer
      ensures var text := Collapse(old(buffer[start..last]));
        && start + |text| <= last
        && buffer[start..start + |text|] == text && buffer[start + |text|] == NUL
      ensures buffer[last] == NUL
      ensures forall k | 0 <= k < buffer.Length && !(start <= k < last) :: buffer[k] == old(buffer[k])
    {
      hide *;
      ghost var was := buffer[..];
      ghost var text, head := Collapse(was[start..last]), was[..start];
      NothingCollapsed();
      assert was[start..last] == buffer[start..last] && buffer[..start] == head + "";
      assert text == "" + text;
      ghost var out := "";
      var p, q := start, start;
      while buffer[p] != NUL
        invariant start <= q <= p <= last && |out| == q - start && buffer[..q] == head + out
        invariant forall k | q <= k < buffer.Length :: buffer[k] == was[k]
        invariant text == out + Collapse(was[p..last])
        decreases last - p
      {
        NoNulLeft(was, start, last, p);
        ghost var written;
        p, q, written := CollapseOne(p, q, last, was);
        Regroup(out, written, Collapse(was[p..last]));
        Regroup(head, out, written);
        out := out + written;
      }
      NoNulLeft(was, start, last, p);
      Regroup(out, [], []);
      Terminate(q, head, out);
      assert forall k | 0 <= k < start :: buffer[k] == buffer[..start][k] == was[k];
    }

    /** The body of CollapseWhitespace's loop; was is the buffer before the loop. */
    method CollapseOne(p: nat, q: nat, ghost last: nat, ghost was: string)
      returns (p': nat, q': nat, ghost written: string)
      requires q <= p < last < buffer.Length == |was| && was[last] == NUL && NUL !in was[p..last]
      requires forall k | q <= k < buffer.Length :: buffer[k] == was[k]
      modifies buffer
      ensures p < p' <= last && q <= q' <= p' && |written| == q' - q
      ensures Collapse(was[p..last]) == written + Collapse(was[p'..last])
      ensures buffer[..q'] == old(buffer[..q]) + written
      ensures forall k | q' <= k < buffer.Length :: buffer[k] == was[k]
    {
      hide *;
      ghost var head, before := buffer[..q], "";
      p', q', before := CollapseGap(p, q, last, was);
      written := before;
      if buffer[p'] == NUL {
        return;
      }
      Put(q', buffer[p']);
      Regroup(head, before, [was[p']]);
      Regroup(before, [was[p']], Collapse(was[p' + 1..last]));
      p', q', written := p' + 1, q' + 1, written + [was[p']];
    }

    /** White space in front of the read cursor p: it is skipped, and one space is written unless the
        text ends there. */
    method CollapseGap(p: nat, q: nat, ghost last: nat, ghost was: string)
      returns (p': nat, q': nat, ghost written: string)
      requires q <= p < last < buffer.Length == |was| && was[last] == NUL && NUL !in was[p..last]
      requires forall k | q <= k < buffer.Length :: buffer[k] == was[k]
      modifies buffer
      ensures p <= p' <= last && q <= q' <= p' && |written| == q' - q
      ensures buffer[p'] == NUL <==> p' == last
      ensures p' == last ==> Collapse(was[p..last]) == written + Collapse(was[p'..last])
      ensures p' < last ==> Collapse(was[p..last]) == written + ([was[p']] + Collapse(was[p' + 1..last]))
      ensures buffer[..q'] == old(buffer[..q]) + written
      ensures forall k | q' <= k < buffer.Length :: buffer[k] == was[k]
    {
      hide *;
      p', q', written := p, q, "";
      NoNulLeft(was, p, last, p);
      if IsWhite(buffer[p]) {
        p' := SkipWhiteSpace(p, last, was);
        CollapseGapAt(was, p, p', last);
        NoNulLeft(was, p, last, p');
        assert buffer[p'] == was[p'];
        if buffer[p'] != NUL {
          Put(q, ' ');
          q', written := q + 1, " ";
        }
      } else {
        CollapseCharAt(was, p, last);
      }
    }

    /** The NUL behind what is written. */
    method Terminate(q: nat, ghost head: string, ghost out: string)
      requires q < buffer.Length && buffer[..q] == head + out
      modifies buffer
      ensures buffer[..|head|] == head && buffer[|head|..q] == out && buffer[q] == NUL
      ensures forall k | q < k < buffer.Length :: buffer[k] == old(buffer[k])
    {
      SliceOfSum(buffer[..], 0, q, head, out);
      buffer[q] := NUL;
      assert buffer[..|head|] == head && buffer[|head|..q] == out;
    }

    method Put(q: nat, c: char)
      requires q < buffer.Length
      modifies buffer
      ensures buffer[..q + 1] == old(buffer[..q]) + [c]
      ensures forall k | q < k < buffer.Length :: buffer[k] == old(buffer[k])
    {
      buffer[q] := c;
    }

    /** XMLUtil::SkipWhiteSpace. */
    method SkipWhiteSpace(p: nat, ghost last: nat, ghost was: string) returns (next: nat)
      requires p <= last < buffer.Length == |was| && was[last] == NUL
        && forall k | p <= k <= last :: buffer[k] == was[k]
      ensures p <= next <= last && was[next..last] == SkipWhite(was[p..last])
    {
      hide SkipWhite;
      next := p;
      while IsWhite(buffer[next])
        invariant p <= next <= last && SkipWhite(was[next..last]) == SkipWhite(was[p..last])
        decreases last - next
      {
        SkipAt(was, next, last);
        next := next + 1;
      }
      SkipAt(was, next, last);
    }

    /** GetStr's loop: the write cursor q follows the read cursor p through the same buffer. */
    method DecodeInPlace()
      requires start <= end < buffer.Length && buffer[end] == NUL
      modifies buffer
      ensures var decoded := Decode(old(buffer[start..end]), needs);
        && start + |decoded| <= end && buffer[start..start + |decoded|] == decoded && buffer[start + |decoded|] == NUL
        && buffer[end] == NUL
        && forall k | 0 <= k < buffer.Length && !(start <= k <= start + |decoded|) :: buffer[k] == old(buffer[k])
    {
      hide *;
      ghost var was, text, head := buffer[..], buffer[start..end], buffer[..start];
      ghost var out := "";
      DecodeStart(text, needs);
      assert text == was[start..end] && buffer[..start] == head + "";
      var p, q := start, start;
      ghost var i := 0;
      while p < end
        invariant start <= q <= p <= end && |out| == q - start && i == p - start
        invariant buffer[..q] == head + out
        invariant forall k | q <= k < buffer.Length :: buffer[k] == was[k]
        invariant Decode(text, needs) == DecodeFrom(text, i, out, needs)
        decreases end - p
      {
        ghost var written;
        p, q, written := DecodeStep(p, q, was, text, i, |out|);
        DecodeOneStep(text, i, out, written, needs);
        Regroup(head, out, written);
        i, out := i + NextStep(text[i..], needs).used, out + written;
      }
      DecodeAll(text, out, needs);
      Terminate(q, head, out);
      assert forall k | 0 <= k < start :: buffer[k] == buffer[..start][k] == was[k];
    }

    /** The body of GetStr's loop; was is the buffer before the loop, i and o are the positions in the text. */
    method DecodeStep(p: nat, q: nat, ghost was: string, ghost text: string, ghost i: nat, ghost o: nat)
      returns (p': nat, q': nat, ghost written: string)
      requires start <= q <= p < end < buffer.Length && buffer[end] == NUL && i == p - start && o == q - start
      requires |was| == buffer.Length && text == was[start..end]
        && forall k | q <= k < buffer.Length :: buffer[k] == was[k]
      modifies buffer
      ensures q <= q' <= p' && p < p' <= end && q' == q + |written|
      ensures buffer[..q'] == old(buffer[..q]) + written && forall k | q' <= k < buffer.Length :: buffer[k] == was[k]
      ensures var s := NextStep(text[i..], needs);
        p' == p + s.used && written == if s.bytes.Some? then s.bytes.value else [text[o]]
    {
      hide NextStep;
      assert buffer[p..end] == text[i..];
      p', q' := WriteStep(p, q);
      written := buffer[q..q'];
      assert buffer[..q] == old(buffer[..q]);
      assert buffer[..q'] == buffer[..q] + written;
    }

    /** The branches of GetStr's loop. */
    method WriteStep(p: nat, q: nat) returns (p': nat, q': nat)
      requires q <= p < end < buffer.Length && buffer[end] == NUL
      modifies buffer
      ensures q <= q' <= p' && p < p' <= end
      ensures forall k | q' <= k < buffer.Length || 0 <= k < q :: buffer[k] == old(buffer[k])
      ensures var s := NextStep(old(buffer[p..end]), needs);
        p' == p + s.used && buffer[q..q'] == if s.bytes.Some? then s.bytes.value else [old(buffer[q])]
    {
      hide CharacterRef, EntityAt;
      ghost var r := buffer[p..end];
      assert r[1..] == buffer[p + 1..end];
      assert buffer[p] == r[0] && buffer[p + 1] == At(r, 1);
      if needs.newlines && buffer[p] == CR {
        p' := if buffer[p + 1] == LF then p + 2 else p + 1;
        buffer[q] := LF;
        q' := q + 1;
      } else if needs.newlines && buffer[p] == LF {
        p' := if buffer[p + 1] == CR then p + 2 else p + 1;
        buffer[q] := LF;
        q' := q + 1;
      } else if needs.entities && buffer[p] == '&' {
        if buffer[p + 1] == '#' {
          p', q' := DecodeReference(p, q, end);
        } else {
          var found := FindEntity(p, end);
          if found.Some? {
            buffer[q] := found.value.value;
            p', q' := p + |found.value.pattern| + 2, q + 1;
          } else {
            p', q' := p + 1, q + 1;
          }
        }
      } else {
        buffer[q] := buffer[p];
        p', q' := p + 1, q + 1;
      }
    }

    /** GetStr's branch for a character reference. */
    method DecodeReference(p: nat, q: nat, ghost end: nat) returns (p': nat, q': nat)
      requires q <= p && p + 2 <= end < buffer.Length && buffer[p + 1] == '#' && buffer[end] == NUL
      modifies buffer
      ensures q <= q' <= p' && p < p' <= end
      ensures forall k | q' <= k < buffer.Length || 0 <= k < q :: buffer[k] == old(buffer[k])
      ensures match CharacterRef(old(buffer[p..end])) {
          case None => p' == p + 1 && buffer[q..q'] == [old(buffer[p])]
          case Some(s) => p' == p + s.used && buffer[q..q'] == s.bytes.value
        }
    {
      hide CharacterRef;
      var buf := new char[10];
      var adjusted, len := GetCharacterRef(buffer, p, end, buf);
      if adjusted.None? {
        buffer[q] := buffer[p];
        p', q' := p + 1, q + 1;
      } else {
        p' := adjusted.value;
        forall k | 0 <= k < len {
          buffer[q + k] := buf[k];
        }
        q' := q + len;
      }
    }

    /** The loop over the entity table. */
    method FindEntity(p: nat, ghost end: nat) returns (found: Option<Entity>)
      requires p < end < buffer.Length && buffer[end] == NUL
      ensures found == EntityAt(buffer[p + 1..end], 0)
    {
      ghost var r := buffer[p + 1..end];
      for i := 0 to |ENTITIES|
        invariant EntityAt(r, 0) == EntityAt(r, i)
      {
        var matches := Matches(p, ENTITIES[i].pattern, end);
        if matches {
          return Some(ENTITIES[i]);
        }
      }
      found := None;
    }

    /** The name of an entity and its semicolon. */
    method Matches(p: nat, pattern: string, ghost end: nat) returns (matches: bool)
      requires p < end < buffer.Length && buffer[end] == NUL && NUL !in pattern
      ensures matches == (pattern + ";" <= buffer[p + 1..end])
    {
      ghost var r := buffer[p + 1..end];
      matches := StartsWith(p + 1, pattern, end);
      if matches {
        matches := buffer[p + 1 + |pattern|] == ';';
      }
      PrefixOneMore(r, pattern, ';');
    }

    /** strncmp with the whole pattern, which stops at the terminating NUL. */
    method StartsWith(k: nat, pattern: string, ghost end: nat) returns (same: bool)
      requires k <= end < buffer.Length && buffer[end] == NUL && NUL !in pattern
      ensures same == (pattern <= buffer[k..end])
    {
      ghost var r := buffer[k..end];
      var j := 0;
      while j < |pattern| && buffer[k + j] == pattern[j]
        invariant j <= |pattern| && j <= |r|
        invariant forall i | 0 <= i < j :: pattern[i] == r[i]
      {
        assert pattern[j] != NUL;
        j := j + 1;
      }
      same := j == |pattern|;
      if same {
        assert pattern == r[..j];
      }
    }
  }
  lemma {:induction false} CTextEnds(s: string, n: nat)
    requires n <= |s| && NUL !in s[..n] && (n == |s| || s[n] == NUL)
    ensures CText(s) == s[..n]
  {
    if n > 0 {
      assert s[0] == s[..n][0] && s[1..][..n - 1] == s[..n][1..];
      CTextEnds(s[1..], n - 1);
      assert s[..n] == [s[0]] + s[1..][..n - 1];
    }
  }

  /** The C string at the start of a terminated text. */
  lemma CTextAt(buffer: array<char>, start: nat, text: string)
    requires start + |text| < buffer.Length && buffer[start..start + |text|] == text && buffer[start + |text|] == NUL
    ensures var n := |CText(text)|; buffer[start..start + n] == CText(text) && buffer[start + n] == NUL
  {
    hide CText;
    var n := |CText(text)|;
    assert forall k | 0 <= k < |text| :: buffer[start + k] == text[k];
    assert buffer[start..start + n] == text[..n];
  }

  lemma NothingCollapsed()
    ensures Collapse("") == ""
  {
  }

  lemma CollapseCharAt(was: string, p: nat, last: nat)
    requires p < last <= |was| && !IsWhite(was[p])
    ensures Collapse(was[p..last]) == "" + ([was[p]] + Collapse(was[p + 1..last]))
  {
    assert was[p..last][0] == was[p] && was[p..last][1..] == was[p + 1..last];
    assert "" + ([was[p]] + Collapse(was[p + 1..last])) == [was[p]] + Collapse(was[p + 1..last]);
  }

  lemma CollapseGapAt(was: string, p: nat, next: nat, last: nat)
    requires p <= next <= last <= |was| && p < last && IsWhite(was[p]) && was[next..last] == SkipWhite(was[p..last])
    ensures p < next
    ensures next == last ==> Collapse(was[p..last]) == "" + Collapse(was[next..last])
    ensures next < last ==> Collapse(was[p..last]) == " " + ([was[next]] + Collapse(was[next + 1..last]))
  {
    var rest, r := was[p..last], was[next..last];
    assert rest[0] == was[p];
    SkipsSome(rest);
    if next < last {
      assert r[0] == was[next] && r[1..] == was[next + 1..last];
      Regroup(" ", [r[0]], Collapse(r[1..]));
    }
  }

  lemma SkipAt(was: string, p: nat, last: nat)
    requires p <= last < |was| && was[last] == NUL
    ensures IsWhite(was[p]) ==> p < last && SkipWhite(was[p..last]) == SkipWhite(was[p + 1..last])
    ensures !IsWhite(was[p]) ==> SkipWhite(was[p..last]) == was[p..last]
  {
    if p < last {
      assert was[p..last][0] == was[p] && was[p..last][1..] == was[p + 1..last];
    }
  }

  /** No NUL among the characters of a C string that are left. */
  lemma NoNulLeft(was: string, start: nat, last: nat, p: nat)
    requires start <= p <= last < |was| && NUL !in was[start..last]
    ensures NUL !in was[p..last] && (p < last ==> was[p] != NUL)
  {
    assert forall k | p <= k < last :: was[k] == was[start..last][k - start];
  }

  lemma SkipsSome(s: string)
    requires s != "" && IsWhite(s[0])
    ensures |SkipWhite(s)| < |s|
  {
  }

  /** Without needs nothing is decoded. */
  lemma DecodeNothing(text: string)
    ensures Decode(text, Needs(false, false)) == text
  {
    DecodeNothingFrom(text, 0);
    assert text[..0] == "";
  }

  lemma {:induction false} DecodeNothingFrom(text: string, i: nat)
    requires i <= |text|
    ensures DecodeFrom(text, i, text[..i], Needs(false, false)) == text
    decreases |text| - i
  {
    if i < |text| {
      assert text[..i] + [text[i]] == text[..i + 1];
      assert text[i..][0] == text[i];
      DecodeNothingFrom(text, i + 1);
    } else {
      assert text[..i] == text;
    }
  }
}
