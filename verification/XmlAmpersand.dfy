/** The ampersand that starts nothing the reader knows. Decoding moves its write cursor over it without writing, so
    what stays in its place is the character that stood at the write position. */
module XmlAmpersand {
  import opened Wrappers
  import opened XmlText

  /** Decoding as DecodeFrom does it, but with such an ampersand kept. */
  function KeepFrom(text: string, i: nat, out: string, needs: Needs): (d: string)
    requires |out| <= i <= |text|
    decreases |text| - i
  {
    if i == |text| then out
    else
      var s := NextStep(text[i..], needs);
      KeepFrom(text, i + s.used, out + (if s.bytes.Some? then s.bytes.value else "&"), needs)
  }

  /** From position i on, with o characters written so far: wherever an ampersand starts nothing known, the character
      at the write position is an ampersand. So it is as long as nothing before it became shorter. */
  predicate WritesOverAmpersands(text: string, i: nat, o: nat, needs: Needs)
    requires o <= i <= |text|
    decreases |text| - i
  {
    i < |text| ==>
      var s := NextStep(text[i..], needs);
      && (s.bytes.None? ==> text[o] == '&')
      && WritesOverAmpersands(text, i + s.used, o + (if s.bytes.Some? then |s.bytes.value| else 1), needs)
  }

  /** What is written stays. */
  lemma {:induction false} WrittenStays(text: string, i: nat, out: string, needs: Needs)
    requires |out| <= i <= |text|
    ensures out <= DecodeFrom(text, i, out, needs) && out <= KeepFrom(text, i, out, needs)
    decreases |text| - i
  {
    hide NextStep;
    if i < |text| {
      var s := NextStep(text[i..], needs);
      var kept := out + if s.bytes.Some? then s.bytes.value else "&";
      var stale := out + if s.bytes.Some? then s.bytes.value else [text[|out|]];
      WrittenStays(text, i + s.used, kept, needs);
      WrittenStays(text, i + s.used, stale, needs);
    }
  }

  /** Unknown ampersands are kept exactly when each of them is written over an ampersand. */
  lemma {:induction false} KeepsUnknown(text: string, i: nat, out: string, needs: Needs)
    requires |out| <= i <= |text|
    ensures DecodeFrom(text, i, out, needs) == KeepFrom(text, i, out, needs)
      <==> WritesOverAmpersands(text, i, |out|, needs)
    decreases |text| - i
  {
    hide NextStep;
    if i < |text| {
      var s := NextStep(text[i..], needs);
      if s.bytes.None? && text[|out|] != '&' {
        var stale, kept := out + [text[|out|]], out + "&";
        WrittenStays(text, i + s.used, stale, needs);
        WrittenStays(text, i + s.used, kept, needs);
        assert stale[|out|] != kept[|out|];
      } else {
        KeepsUnknown(text, i + s.used, out + (if s.bytes.Some? then s.bytes.value else "&"), needs);
      }
    }
  }

  /** A known entity in front of an unknown one: a letter of the first takes the ampersand's place. */
  lemma StaleLetter()
    ensures Decode("&lt;&x", Needs(true, false)) == "<lx"
    ensures KeepFrom("&lt;&x", 0, "", Needs(true, false)) == "<&x"
  {
    hide NextStep, DecodeFrom, KeepFrom;
    var text, needs := "&lt;&x", Needs(true, false);
    KnownEntity();
    UnknownEntity();
    assert text[0..] == text && text[4..] == "&x" && text[5..] == "x" && text[1] == 'l';
    assert "" + "<" == "<" && "<" + "l" == "<l" && "<" + "&" == "<&" && "<l" + "x" == "<lx" && "<&" + "x" == "<&x";
    DecodeOneStep(text, 0, "", "<", needs);
    DecodeOneStep(text, 4, "<", "l", needs);
    DecodeOneStep(text, 5, "<l", "x", needs);
    DecodeAll(text, "<lx", needs);
    KeepOneStep(text, 0, "", "<", needs);
    KeepOneStep(text, 4, "<", "&", needs);
    KeepOneStep(text, 5, "<&", "x", needs);
    KeepAll(text, "<&x", needs);
  }

  lemma KeepOneStep(text: string, i: nat, out: string, written: string, needs: Needs)
    requires |out| <= i < |text|
    requires var s := NextStep(text[i..], needs); written == if s.bytes.Some? then s.bytes.value else "&"
    ensures KeepFrom(text, i, out, needs) == KeepFrom(text, i + NextStep(text[i..], needs).used, out + written, needs)
  {
    hide NextStep;
  }

  lemma KeepAll(text: string, out: string, needs: Needs)
    requires |out| <= |text|
    ensures KeepFrom(text, |text|, out, needs) == out
  {
  }

  lemma KnownEntity()
    ensures NextStep("&lt;&x", Needs(true, false)) == Step(4, Some("<"))
  {
    hide CharacterRef;
    var r := "&lt;&x"[1..];
    assert r == "lt;&x" && r[..3] == "lt;" && r[0] == 'l';
    assert ENTITIES[0].pattern[0] == 'q' && ENTITIES[1].pattern[0] == 'a' && ENTITIES[2].pattern[0] == 'a';
    assert !("quot;" <= r) && !("amp;" <= r) && !("apos;" <= r) && "lt;" <= r;
    assert EntityAt(r, 3) == Some(ENTITIES[3]);
    assert EntityAt(r, 2) == EntityAt(r, 3) && EntityAt(r, 1) == EntityAt(r, 2) && EntityAt(r, 0) == EntityAt(r, 1);
  }

  lemma UnknownEntity()
    ensures NextStep("&x", Needs(true, false)) == Step(1, None)
      && NextStep("x", Needs(true, false)) == Step(1, Some("x"))
  {
    hide CharacterRef;
    var r := "&x"[1..];
    assert r == "x";
    assert EntityAt(r, 5) == None;
    assert EntityAt(r, 4) == None && EntityAt(r, 3) == None;
    assert EntityAt(r, 2) == None && EntityAt(r, 1) == None && EntityAt(r, 0) == None;
  }
}
