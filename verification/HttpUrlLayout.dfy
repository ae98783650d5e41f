/** What the fields of an accepted URL are: non-empty ranges in URL order that leave out nothing but
    delimiters, each with the characters of its kind. */
module HttpUrlLayout {
  import opened Digits
  import opened Wrappers
  import opened HttpUrl

  /** The place of a field in a URL. */
  function Rank(f: Field): nat {
    match f
    case SCHEMA => 0
    case USERINFO => 1
    case HOST => 2
    case PORT => 3
    case PATH => 4
    case QUERY => 5
    case FRAGMENT => 6
  }

  predicate IsDelimiter(c: char) { c in ":/?#@[]" }

  /** The fields are non-empty ranges of the first n bytes. */
  ghost predicate Inside(u: Fields, n: nat) {
    forall f | f in u :: 0 < u[f].len && u[f].End() <= n
  }

  /** They are disjoint and appear in URL order. */
  ghost predicate InOrder(u: Fields) {
    forall f, g | f in u && g in u && Rank(f) < Rank(g) :: u[f].End() <= u[g].off
  }

  ghost predicate InField(u: Fields, k: nat) {
    exists f | f in u :: u[f].Contains(k)
  }

  /** Every one of the bytes from m to n is a delimiter or belongs to a field. */
  ghost predicate Covered(u: Fields, s: string, m: nat, n: nat)
    requires n <= |s|
  {
    forall k | m <= k < n :: IsDelimiter(s[k]) || InField(u, k)
  }

  /** The characters a field may hold. */
  predicate Fits(f: Field, c: char) {
    match f
    case SCHEMA => IsAlpha(c)
    case USERINFO => IsUserinfoChar(c)
    case HOST => IsHostChar(c) || c in ":%_~"
    case PORT => IsDigit(c)
    case PATH => IsUrlChar(c)
    case QUERY => IsUrlChar(c) || c == '?'
    case FRAGMENT => IsUrlChar(c) || c == '?' || c == '#'
  }

  /** What stands at the start of a field and before it. */
  predicate Begins(f: Field, s: string, off: nat)
    requires off < |s|
  {
    match f
    case SCHEMA => off == 0
    case USERINFO => true
    case HOST => true
    case PORT => off > 0 && s[off - 1] == ':'
    case PATH => s[off] == '/' || s[off] == '*'
    case QUERY => off > 0 && s[off - 1] == '?'
    case FRAGMENT => off > 0 && s[off - 1] == '#'
  }

  ghost predicate Spelled(f: Field, r: Range, s: string)
    requires r.End() <= |s| && r.len > 0
  {
    Begins(f, s, r.off) && forall k | r.off <= k < r.End() :: Fits(f, s[k])
  }

  /** What an accepted URL looks like. */
  ghost predicate WellLaid(u: Fields, s: string, n: nat) {
    && n <= |s| && Inside(u, n) && InOrder(u) && Covered(u, s, 0, n)
    && forall f | f in u :: Spelled(f, u[f], s)
  }

  /** Fields that keep their bytes and take in byte p cover one byte more. */
  lemma CoverGrows(u: Fields, v: Fields, f: Field, s: string, m: nat, p: nat)
    requires m <= p < |s| && Covered(u, s, m, p)
    requires f in v && v[f].Contains(p)
    requires forall g | g in u :: g in v && v[g].off == u[g].off && u[g].len <= v[g].len
    ensures Covered(v, s, m, p + 1)
  {
    forall k | m <= k < p + 1 ensures IsDelimiter(s[k]) || InField(v, k) {
      if k < p && !IsDelimiter(s[k]) {
        var g :| g in u && u[g].Contains(k);
        assert v[g].Contains(k);
      }
    }
  }

  lemma ExtendedRange(u: Fields, f: Field, p: nat)
    requires f in u && u[f].End() == p && p + 1 < FIELD_LIMIT
    ensures Extend(u, f) == u[f := Range(u[f].off, u[f].len + 1)]
  {
  }

  lemma OpenedRange(u: Fields, f: Field, p: nat)
    requires p < FIELD_LIMIT
    ensures Open(u, f, p) == u[f := Range(p, 1)]
  {
  }

  lemma ExtendKeeps(u: Fields, f: Field, s: string, m: nat, p: nat)
    requires f in u && Inside(u, p) && InOrder(u) && m <= p < |s| && Covered(u, s, m, p)
    requires u[f].End() == p && p + 1 < FIELD_LIMIT
    requires forall g | g in u :: Rank(g) <= Rank(f)
    ensures var v := Extend(u, f);
            Inside(v, p + 1) && InOrder(v) && Covered(v, s, m, p + 1)
  {
    hide Covered, Rank, Extend;
    ExtendedRange(u, f, p);
    var v := Extend(u, f);
    CoverGrows(u, v, f, s, m, p);
  }

  lemma OpenKeeps(u: Fields, f: Field, s: string, m: nat, p: nat)
    requires f !in u && Inside(u, p) && InOrder(u) && m <= p < |s| && Covered(u, s, m, p)
    requires p + 1 < FIELD_LIMIT
    requires forall g | g in u :: Rank(g) < Rank(f)
    ensures var v := Open(u, f, p);
            Inside(v, p + 1) && InOrder(v) && Covered(v, s, m, p + 1)
  {
    hide Covered, Rank, Open;
    OpenedRange(u, f, p);
    var v := Open(u, f, p);
    CoverGrows(u, v, f, s, m, p);
  }

  /** The highest place of a field that can have been seen in a state. */
  function Limit(s: State): int {
    match s
    case SpacesBeforeUrl => -1
    case Schema => 0
    case SchemaSlash => 0
    case SchemaSlashSlash => 0
    case ServerStart => 0
    case Server => 2
    case ServerWithAt => 2
    case Path => 4
    case QueryStart => 4
    case Query => 5
    case FragmentStart => 5
    case Fragment => 6
    case Nowhere => 6
  }

  /** The characters of the first pass: the server part still has its brackets and at signs. */
  predicate FitsRaw(f: Field, c: char) {
    if f == HOST then IsUserinfoChar(c) || c in "@[]" else Fits(f, c)
  }

  predicate DelimiterBefore(state: State, s: string, p: nat)
    requires p <= |s|
  {
    && (state == SpacesBeforeUrl ==> p == 0)
    && (state == QueryStart ==> p > 0 && s[p - 1] == '?')
    && (state == FragmentStart ==> p > 0 && s[p - 1] == '#')
  }

  /** One character never leads back: it stays in its field, opens one further on, or is a delimiter. */
  lemma Transition(s: State, c: char)
    requires ParseUrlChar(s, c) != Nowhere
    ensures var t := ParseUrlChar(s, c);
            match FieldOf(t)
            case None =>
              && IsDelimiter(c) && Limit(s) <= Limit(t) && t != SpacesBeforeUrl
              && (t == QueryStart ==> c == '?') && (t == FragmentStart ==> c == '#')
            case Some(f) =>
              && Limit(t) == Rank(f) && FitsRaw(f, c) && f != USERINFO && f != PORT
              && (FieldOf(s) == Some(f) || Limit(s) < Rank(f))
              && (FieldOf(s) != Some(f) ==>
                    && (f == SCHEMA ==> s == SpacesBeforeUrl)
                    && (f == PATH ==> c == '/' || c == '*')
                    && (f == QUERY ==> s == QueryStart)
                    && (f == FRAGMENT ==> s == FragmentStart))
  {
  }

  ghost predicate SpelledRaw(f: Field, r: Range, s: string)
    requires r.End() <= |s| && r.len > 0
  {
    Begins(f, s, r.off) && forall k | r.off <= k < r.End() :: FitsRaw(f, s[k])
  }

  ghost predicate ScanInv(q: Scan, s: string, p: nat) {
    && p <= |s| && p < FIELD_LIMIT && Known(q, p)
    && Inside(q.fields, p) && InOrder(q.fields) && Covered(q.fields, s, 0, p)
    && (forall f | f in q.fields :: Rank(f) <= Limit(q.state) && f != USERINFO && f != PORT)
    && (forall f | f in q.fields :: SpelledRaw(f, q.fields[f], s))
    && (FieldOf(q.state).Some? ==>
          q.last == FieldOf(q.state) && q.last.value in q.fields && q.fields[q.last.value].End() == p)
    && DelimiterBefore(q.state, s, p)
  }

  lemma {:induction false} UrlByteKeepsInv(q: Scan, s: string, p: nat)
    requires ScanInv(q, s, p) && p < |s| && p + 1 < FIELD_LIMIT && UrlByte(q, p, s[p]).Some?
    ensures ScanInv(UrlByte(q, p, s[p]).value, s, p + 1)
  {
    hide ParseUrlChar, FieldOf, FitsRaw, Limit, Covered, InOrder, Inside, SpelledRaw, Extend, Open, Known;
    var t := ParseUrlChar(q.state, s[p]);
    Transition(q.state, s[p]);
    match FieldOf(t) {
      case None =>
        DelimiterKeepsInv(q, t, s, p);
      case Some(f) =>
        if FieldOf(q.state) == Some(f) {
          ExtendingKeepsInv(q, t, f, s, p);
        } else {
          OpeningKeepsInv(q, t, f, s, p);
        }
    }
  }

  lemma DelimiterKeepsInv(q: Scan, t: State, s: string, p: nat)
    requires ScanInv(q, s, p) && p < |s| && p + 1 < FIELD_LIMIT
    requires FieldOf(t).None? && IsDelimiter(s[p]) && Limit(q.state) <= Limit(t) && t != SpacesBeforeUrl
    requires (t == QueryStart ==> s[p] == '?') && (t == FragmentStart ==> s[p] == '#')
    ensures ScanInv(q.(state := t), s, p + 1)
  {
    hide FieldOf, FitsRaw, Limit, InOrder, SpelledRaw;
  }

  lemma LimitOfField(s: State)
    requires FieldOf(s).Some?
    ensures Limit(s) == Rank(FieldOf(s).value)
    ensures s != SpacesBeforeUrl && s != QueryStart && s != FragmentStart
  {
  }

  lemma ExtendingKeepsInv(q: Scan, t: State, f: Field, s: string, p: nat)
    requires ScanInv(q, s, p) && p < |s| && p + 1 < FIELD_LIMIT
    requires FieldOf(t) == Some(f) == FieldOf(q.state) && Limit(t) == Rank(f) && FitsRaw(f, s[p])
    requires f != USERINFO && f != PORT
    ensures q.last == Some(f)
    ensures ScanInv(Scan(t, Some(f), Extend(q.fields, f), q.foundAt || t == ServerWithAt), s, p + 1)
  {
    hide FitsRaw, Covered, InOrder, Begins, Extend, Wrap, FieldOf, IsDelimiter, Rank, Limit;
    LimitOfField(q.state);
    LimitOfField(t);
    ExtendedRange(q.fields, f, p);
    ExtendKeeps(q.fields, f, s, 0, p);
    forall g | g in q.fields ensures SpelledRaw(g, Extend(q.fields, f)[g], s) {
      assert SpelledRaw(g, q.fields[g], s);
    }
  }

  lemma OpeningKeepsInv(q: Scan, t: State, f: Field, s: string, p: nat)
    requires ScanInv(q, s, p) && p < |s| && p + 1 < FIELD_LIMIT
    requires FieldOf(t) == Some(f) && Limit(t) == Rank(f) && Limit(q.state) < Rank(f) && FitsRaw(f, s[p])
    requires f != USERINFO && f != PORT
    requires f == SCHEMA ==> q.state == SpacesBeforeUrl
    requires f == PATH ==> s[p] == '/' || s[p] == '*'
    requires f == QUERY ==> q.state == QueryStart
    requires f == FRAGMENT ==> q.state == FragmentStart
    ensures q.last != Some(f)
    ensures ScanInv(Scan(t, Some(f), Open(q.fields, f, p), q.foundAt || t == ServerWithAt), s, p + 1)
  {
    hide FitsRaw, Covered, InOrder, Limit, Open, Wrap;
    OpenedRange(q.fields, f, p);
    assert t != SpacesBeforeUrl && t != QueryStart && t != FragmentStart;
    OpenKeeps(q.fields, f, s, 0, p);
    assert Begins(f, s, p);
  }

  lemma {:induction false} UrlScanKeepsInv(q: Scan, s: string, p: nat, n: nat)
    requires ScanInv(q, s, p) && p <= n <= |s| && n < FIELD_LIMIT && UrlScan(q, s, p, n).Some?
    ensures ScanInv(UrlScan(q, s, p, n).value, s, n)
    decreases n - p
  {
    hide ScanInv, UrlByte;
    assert Known(q, p) by { InvIsKnown(q, s, p); }
    if p < n {
      UrlByteKeepsInv(q, s, p);
      UrlScanKeepsInv(UrlByte(q, p, s[p]).value, s, p + 1, n);
    }
  }

  lemma InvIsKnown(q: Scan, s: string, p: nat)
    requires ScanInv(q, s, p)
    ensures Known(q, p)
  {
  }

  /** The second pass: the fields of the server part found so far. The host counts once it has begun. */
  ghost function ServerFields(u: Fields, s: HostState): Fields {
    map f | f in u && (f == USERINFO || f == PORT || (f == HOST && HostLimit(s) >= 2)) :: u[f]
  }

  function HostLimit(s: HostState): int {
    match s
    case UserinfoStart => 0
    case Userinfo => 1
    case HostStart => 1
    case HostV6Start => 1
    case Host => 2
    case HostV6 => 2
    case HostV6End => 2
    case HostV6ZoneStart => 2
    case HostV6Zone => 2
    case HostPortStart => 2
    case HostPort => 3
    case HostNowhere => 3
  }

  lemma HostTransition(s: HostState, c: char)
    requires ParseHostChar(s, c) != HostNowhere
    ensures var t := ParseHostChar(s, c);
            match HostFieldOf(t)
            case None =>
              && IsDelimiter(c) && HostLimit(s) <= HostLimit(t) && (HostLimit(s) < 2 ==> HostLimit(t) < 2)
              && (t == HostPortStart ==> c == ':')
            case Some(f) =>
              && HostLimit(t) == Rank(f) && Fits(f, c) && (f == USERINFO || f == HOST || f == PORT)
              && (HostFieldOf(s) == Some(f) || HostLimit(s) < Rank(f))
              && (HostFieldOf(s) == Some(f) <==> s == t || t == HostV6ZoneStart || t == HostV6Zone)
              && (HostFieldOf(s) != Some(f) && f == PORT ==> s == HostPortStart)
  {
  }

  /** The other fields are those of the first pass. */
  ghost predicate SameOutside(v: Fields, u: Fields) {
    forall f | f != USERINFO && f != HOST && f != PORT :: (f in v <==> f in u) && (f in v ==> v[f] == u[f])
  }

  ghost predicate HostInv(q: HostScan, u: Fields, s: string, h: nat, p: nat) {
    var a := ServerFields(q.fields, q.state);
    && h <= p <= |s| && p < FIELD_LIMIT && HostKnown(q) && SameOutside(q.fields, u)
    && Inside(a, p) && InOrder(a) && Covered(a, s, h, p)
    && (forall f | f in a :: Rank(f) <= HostLimit(q.state) && h <= a[f].off)
    && (forall f | f in a :: Spelled(f, a[f], s))
    && (HostFieldOf(q.state).Some? ==>
          HostFieldOf(q.state).value in a && a[HostFieldOf(q.state).value].End() == p)
    && (q.state == HostPortStart ==> p > 0 && s[p - 1] == ':')
  }

  lemma SameOutsideUpdate(v: Fields, u: Fields, f: Field, r: Range)
    requires SameOutside(v, u) && (f == USERINFO || f == HOST || f == PORT)
    ensures SameOutside(v[f := r], u)
  {
  }

  lemma {:induction false} HostByteKeepsInv(q: HostScan, u: Fields, s: string, h: nat, p: nat)
    requires HostInv(q, u, s, h, p) && p < |s| && p + 1 < FIELD_LIMIT && HostByte(q, p, s[p]).Some?
    ensures HostInv(HostByte(q, p, s[p]).value, u, s, h, p + 1)
  {
    hide ParseHostChar, HostFieldOf, Fits, HostLimit, Covered, InOrder, Inside, Spelled, Extend, SameOutside;
    var t := ParseHostChar(q.state, s[p]);
    HostTransition(q.state, s[p]);
    match HostFieldOf(t) {
      case None =>
        HostDelimiterKeepsInv(q, t, u, s, h, p);
      case Some(f) =>
        if HostFieldOf(q.state) == Some(f) {
          HostExtendingKeepsInv(q, t, f, u, s, h, p);
        } else {
          HostOpeningKeepsInv(q, t, f, u, s, h, p);
        }
    }
  }

  lemma HostDelimiterKeepsInv(q: HostScan, t: HostState, u: Fields, s: string, h: nat, p: nat)
    requires HostInv(q, u, s, h, p) && p < |s| && p + 1 < FIELD_LIMIT
    requires HostFieldOf(t).None? && IsDelimiter(s[p]) && HostLimit(q.state) <= HostLimit(t)
    requires (HostLimit(q.state) < 2 ==> HostLimit(t) < 2) && (t == HostPortStart ==> s[p] == ':')
    ensures HostInv(q.(state := t), u, s, h, p + 1)
  {
    hide Fits, HostLimit, InOrder, Spelled, SameOutside;
    assert ServerFields(q.fields, t) == ServerFields(q.fields, q.state);
    assert t != Userinfo && t != HostPort;
  }

  lemma ServerFieldsAgree(u: Fields, s: HostState)
    ensures forall f | f in ServerFields(u, s) :: f in u && ServerFields(u, s)[f] == u[f]
  {
  }

  lemma ServerFieldsUpdate(u: Fields, s: HostState, t: HostState, f: Field, r: Range)
    requires f == USERINFO || f == HOST || f == PORT
    requires HostLimit(t) == Rank(f) && HostLimit(s) <= HostLimit(t)
    requires HOST in u && (f == PORT ==> HostLimit(s) >= 2)
    ensures ServerFields(u[f := r], t) == ServerFields(u, s)[f := r]
  {
  }

  lemma HostExtendingKeepsInv(q: HostScan, t: HostState, f: Field, u: Fields, s: string, h: nat, p: nat)
    requires HostInv(q, u, s, h, p) && p < |s| && p + 1 < FIELD_LIMIT
    requires HostFieldOf(t) == Some(f) == HostFieldOf(q.state) && HostLimit(t) == Rank(f) && Fits(f, s[p])
    requires f == USERINFO || f == HOST || f == PORT
    ensures HostInv(HostScan(t, Extend(q.fields, f)), u, s, h, p + 1)
  {
    hide Fits, Covered, InOrder, Begins, Extend, Wrap, HostFieldOf, IsDelimiter, Rank,
      SameOutside, ServerFields, HostLimit;
    ServerFieldsAgree(q.fields, q.state);
    var a, v := ServerFields(q.fields, q.state), Extend(q.fields, f);
    HostLimitOfField(q.state);
    HostLimitOfField(t);
    ExtendedRange(a, f, p);
    ExtendedRange(q.fields, f, p);
    ExtendKeeps(a, f, s, h, p);
    ServerFieldsUpdate(q.fields, q.state, t, f, v[f]);
    SameOutsideUpdate(q.fields, u, f, v[f]);
    forall g | g in a ensures Spelled(g, Extend(a, f)[g], s) {
      assert Spelled(g, a[g], s);
    }
  }

  lemma HostLimitOfField(s: HostState)
    requires HostFieldOf(s).Some?
    ensures HostLimit(s) == Rank(HostFieldOf(s).value)
    ensures s != HostPortStart && (s == Userinfo <==> HostFieldOf(s) == Some(USERINFO))
    ensures s == HostPort <==> HostFieldOf(s) == Some(PORT)
    ensures HostLimit(s) >= 2 <==> HostFieldOf(s) != Some(USERINFO)
  {
  }

  lemma HostOpeningKeepsInv(q: HostScan, t: HostState, f: Field, u: Fields, s: string, h: nat, p: nat)
    requires HostInv(q, u, s, h, p) && p < |s| && p + 1 < FIELD_LIMIT
    requires HostFieldOf(t) == Some(f) && HostLimit(t) == Rank(f) && HostLimit(q.state) < Rank(f) && Fits(f, s[p])
    requires f == USERINFO || f == HOST || f == PORT
    requires f == PORT ==> q.state == HostPortStart
    ensures HostInv(HostScan(t, Extend(q.fields[f := Range(Wrap(p), 0)], f)), u, s, h, p + 1)
  {
    hide Fits, Covered, InOrder, Open, HostFieldOf, IsDelimiter, SameOutside, ServerFields, HostLimit;
    var a, v := ServerFields(q.fields, q.state), Extend(q.fields[f := Range(Wrap(p), 0)], f);
    HostLimitOfField(t);
    OpenedRange(a, f, p);
    assert v == q.fields[f := Range(p, 1)];
    assert f !in a;
    OpenKeeps(a, f, s, h, p);
    assert Begins(f, s, p);
    PortLimit(q.state);
    ServerFieldsUpdate(q.fields, q.state, t, f, v[f]);
    SameOutsideUpdate(q.fields, u, f, v[f]);
  }

  lemma PortLimit(s: HostState)
    ensures s == HostPortStart ==> HostLimit(s) == 2
    ensures s == HostPort ==> HostLimit(s) == 3
  {
  }

  lemma {:induction false} HostScanKeepsInv(q: HostScan, u: Fields, s: string, h: nat, p: nat, e: nat)
    requires HostInv(q, u, s, h, p) && p <= e <= |s| && e < FIELD_LIMIT && HostScanFrom(q, s, p, e).Some?
    ensures HostInv(HostScanFrom(q, s, p, e).value, u, s, h, e)
    decreases e - p
  {
    hide HostInv, HostByte;
    assert HostKnown(q) by { HostInvIsKnown(q, u, s, h, p); }
    if p < e {
      HostByteKeepsInv(q, u, s, h, p);
      HostScanKeepsInv(HostByte(q, p, s[p]).value, u, s, h, p + 1, e);
    }
  }

  lemma HostInvIsKnown(q: HostScan, u: Fields, s: string, h: nat, p: nat)
    requires HostInv(q, u, s, h, p)
    ensures HostKnown(q)
  {
  }

  /** Without a server part the fields of the first pass are final. */
  lemma RawIsFinal(q: Scan, s: string, n: nat)
    requires ScanInv(q, s, n) && HOST !in q.fields
    ensures WellLaid(q.fields, s, n)
  {
    hide Covered, InOrder, Fits;
  }

  lemma HostStarts(q: Scan, s: string, n: nat)
    requires ScanInv(q, s, n) && HOST in q.fields
    ensures HostInv(StartHost(q.fields, q.foundAt), q.fields, s, q.fields[HOST].off, q.fields[HOST].off)
  {
    hide Covered, InOrder, SpelledRaw;
    var start := StartHost(q.fields, q.foundAt);
    assert ServerFields(start.fields, start.state) == map[];
    assert InOrder(map[]) by { NothingInOrder(); }
    assert Covered(map[], s, q.fields[HOST].off, q.fields[HOST].off) by { NothingCovered(s, q.fields[HOST].off); }
  }

  lemma NothingInOrder()
    ensures InOrder(map[])
  {
  }

  lemma NothingCovered(s: string, n: nat)
    requires n <= |s|
    ensures Covered(map[], s, n, n)
  {
  }

  /** Fields v are those of u with the server part's fields a, between h and e, in place of the host. */
  ghost predicate Replaced(v: Fields, u: Fields, a: Fields, h: nat, e: nat) {
    && (forall f | f in v :: f in a || (f in u && v[f] == u[f] && Rank(f) !in {1, 2, 3}))
    && (forall f | f in a :: Rank(f) in {1, 2, 3} && f in v && v[f] == a[f] && h <= a[f].off && a[f].End() <= e)
    && (forall f | f in u && f != HOST :: f in v && v[f] == u[f])
  }

  /** The fields of the server part take the place of the raw range. */
  lemma HostIsFinal(q: Scan, r: HostScan, s: string, n: nat)
    requires ScanInv(q, s, n) && HOST in q.fields
    requires HostInv(r, q.fields, s, q.fields[HOST].off, q.fields[HOST].End())
    requires HostLimit(r.state) >= 2
    ensures WellLaid(r.fields, s, n)
  {
    hide Covered, InOrder, Inside, Spelled, SpelledRaw, HostLimit, Limit, ServerFields, SameOutside, Replaced, Rank;
    var u, a, h, e := q.fields, ServerFields(r.fields, r.state), q.fields[HOST].off, q.fields[HOST].End();
    HostIsReplaced(q, r, s, n);
    FieldsAreSpelled(q, r, s, n);
    OrderOfParts(u, a, r.fields, h, e);
    CoverOfParts(u, a, r.fields, s, n);
  }

  lemma HostIsReplaced(q: Scan, r: HostScan, s: string, n: nat)
    requires ScanInv(q, s, n) && HOST in q.fields
    requires HostInv(r, q.fields, s, q.fields[HOST].off, q.fields[HOST].End())
    requires HostLimit(r.state) >= 2
    ensures var a := ServerFields(r.fields, r.state);
            Replaced(r.fields, q.fields, a, q.fields[HOST].off, q.fields[HOST].End())
            && InOrder(q.fields) && InOrder(a) && q.fields[HOST].End() <= n <= |s|
            && Covered(q.fields, s, 0, n) && Covered(a, s, q.fields[HOST].off, q.fields[HOST].End())
  {
    hide Covered, InOrder, Spelled, SpelledRaw, HostLimit, Limit, ServerFields, SameOutside, Rank;
    var u, a, h, e := q.fields, ServerFields(r.fields, r.state), q.fields[HOST].off, q.fields[HOST].End();
    ServerFieldsAgree(r.fields, r.state);
    forall f | f in r.fields
      ensures f in a <==> Rank(f) in {1, 2, 3}
      ensures f in a ==> r.fields[f] == a[f] && h <= a[f].off && a[f].End() <= e
      ensures f !in a ==> f in u && r.fields[f] == u[f]
    {
      FieldIsFinal(q, r, s, n, f);
    }
    OthersStay(q, r, s, n);
  }

  lemma FieldsAreSpelled(q: Scan, r: HostScan, s: string, n: nat)
    requires ScanInv(q, s, n) && HOST in q.fields
    requires HostInv(r, q.fields, s, q.fields[HOST].off, q.fields[HOST].End())
    requires HostLimit(r.state) >= 2
    ensures n <= |s| && Inside(r.fields, n) && forall f | f in r.fields :: Spelled(f, r.fields[f], s)
  {
    hide Covered, InOrder, Spelled, SpelledRaw, HostLimit, Limit, ServerFields, SameOutside, Rank;
    forall f | f in r.fields
      ensures 0 < r.fields[f].len && r.fields[f].End() <= n && Spelled(f, r.fields[f], s)
    {
      FieldIsFinal(q, r, s, n, f);
    }
  }

  lemma OthersStay(q: Scan, r: HostScan, s: string, n: nat)
    requires ScanInv(q, s, n) && HOST in q.fields && SameOutside(r.fields, q.fields)
    ensures forall f | f in q.fields && f != HOST :: f in r.fields && r.fields[f] == q.fields[f]
  {
    hide Covered, InOrder, SpelledRaw;
  }

  lemma FieldIsFinal(q: Scan, r: HostScan, s: string, n: nat, f: Field)
    requires ScanInv(q, s, n) && HOST in q.fields && f in r.fields
    requires HostInv(r, q.fields, s, q.fields[HOST].off, q.fields[HOST].End())
    requires HostLimit(r.state) >= 2
    ensures 0 < r.fields[f].len && r.fields[f].End() <= n && Spelled(f, r.fields[f], s)
    ensures var a := ServerFields(r.fields, r.state);
            && (f in a <==> Rank(f) in {1, 2, 3})
            && (if f in a then
                  r.fields[f] == a[f] && q.fields[HOST].off <= a[f].off && a[f].End() <= q.fields[HOST].End()
                else f in q.fields && r.fields[f] == q.fields[f])
  {
    hide Fits, FitsRaw, Covered, HostLimit, Limit, Begins, InOrder;
    if f != USERINFO && f != HOST && f != PORT {
      assert SpelledRaw(f, q.fields[f], s);
      FitsOutside(f);
    } else {
      var a := ServerFields(r.fields, r.state);
      assert f in a && a[f] == r.fields[f];
      assert Spelled(f, a[f], s);
    }
  }

  lemma FitsOutside(f: Field)
    requires f != HOST
    ensures forall c :: FitsRaw(f, c) == Fits(f, c)
  {
  }

  lemma OrderOfParts(u: Fields, a: Fields, v: Fields, h: nat, e: nat)
    requires InOrder(u) && InOrder(a) && HOST in u && h <= e && u[HOST] == Range(h, e - h)
    requires Replaced(v, u, a, h, e)
    ensures InOrder(v)
  {
    forall f, g | f in v && g in v && Rank(f) < Rank(g) ensures v[f].End() <= v[g].off {
      assert f in a || u[f] == v[f];
      assert g in a || u[g] == v[g];
    }
  }

  lemma CoverOfParts(u: Fields, a: Fields, v: Fields, s: string, n: nat)
    requires HOST in u && u[HOST].End() <= n <= |s|
    requires Covered(u, s, 0, n) && Covered(a, s, u[HOST].off, u[HOST].End())
    requires Replaced(v, u, a, u[HOST].off, u[HOST].End())
    ensures Covered(v, s, 0, n)
  {
    forall k | 0 <= k < n && !IsDelimiter(s[k]) ensures InField(v, k) {
      if u[HOST].Contains(k) {
        assert InField(a, k);
        var f :| f in a && a[f].Contains(k);
        assert v[f].Contains(k);
      } else {
        assert InField(u, k);
        var f :| f in u && u[f].Contains(k);
        assert v[f].Contains(k);
      }
    }
  }

  /** For every accepted URL of at most 65535 bytes the fields lie inside the buffer, are disjoint and
      contiguous, appear in URL order, hold the characters of their kind behind their delimiter, and
      every byte outside them is a delimiter. The port is a number of 16 bits. */
  lemma {:induction false} AcceptedIsWellLaid(memory: string, n: nat, isConnect: bool)
    requires n <= |memory| && n < FIELD_LIMIT && ParseUrl(memory, n, isConnect).Some?
    ensures var url := ParseUrl(memory, n, isConnect).value;
            && WellLaid(url.fields, memory, n)
            && url.port <= 0xFFFF
            && (SCHEMA in url.fields ==> HOST in url.fields)
            && (isConnect ==> url.fields.Keys == {HOST, PORT})
  {
    hide UrlScan, HostScanFrom, ScanInv, HostInv, WellLaid, Strtoul;
    var start := StartScan(isConnect);
    assert ScanInv(start, memory, 0) by { StartInv(isConnect, memory); }
    UrlScanKeepsInv(start, memory, 0, n);
    var q := UrlScan(start, memory, 0, n).value;
    if HOST in q.fields {
      HostStarts(q, memory, n);
      var h, e := q.fields[HOST].off, q.fields[HOST].End();
      HostScanKeepsInv(StartHost(q.fields, q.foundAt), q.fields, memory, h, h, e);
      var r := HostScanFrom(StartHost(q.fields, q.foundAt), memory, h, e).value;
      HostIsFinal(q, r, memory, n);
      SchemaStays(r, q.fields, memory, h, e);
    } else {
      RawIsFinal(q, memory, n);
    }
  }

  lemma SchemaStays(r: HostScan, u: Fields, s: string, h: nat, e: nat)
    requires HostInv(r, u, s, h, e)
    ensures HOST in r.fields
  {
  }

  lemma StartInv(isConnect: bool, s: string)
    ensures ScanInv(StartScan(isConnect), s, 0)
  {
  }
}
