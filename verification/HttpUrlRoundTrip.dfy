/** The port of an accepted URL, and the parse of a URL that was put together from its parts. */
module HttpUrlRoundTrip {
  import opened Digits
  import opened Sequences
  import opened Wrappers
  import opened HttpUrl
  import opened HttpUrlLayout

  lemma {:induction false} LongerNumeral(s: string, k: nat)
    requires AllDigits(s) && k <= |s|
    ensures Numeral(s[..k]) <= Numeral(s)
    ensures k < |s| && Numeral(s) > 0 ==> Numeral(s[..k]) < Numeral(s)
  {
    NumeralOfPrefix(s, k);
    if k == |s| {
      assert s[..k] == s;
    }
  }

  predicate AllZeros(s: string) { forall k | 0 <= k < |s| :: s[k] == '0' }

  lemma {:induction false} ZeroNumeral(s: string)
    requires AllDigits(s)
    ensures Numeral(s) == 0 <==> AllZeros(s)
  {
    if s != "" {
      ZeroNumeral(s[..|s| - 1]);
    }
  }

  /** All digits that stand in memory from a position on. */
  function DigitsAt(memory: string, off: nat): (d: string)
    requires off <= |memory|
    ensures AllDigits(d)
  {
    DigitRunIsDigits(memory[off..]);
    memory[off..][..DigitRun(memory[off..])]
  }

  /** strtoul gives the number of the m digits it starts on exactly when no further digit follows them
      or all digits are zeros. */
  lemma StrtoulOfField(memory: string, off: nat, m: nat)
    requires off + m <= |memory| && AllDigits(memory[off..off + m])
    ensures var v := Strtoul(memory, off);
            v == Numeral(memory[off..off + m]) <==>
            off + m == |memory| || !IsDigit(memory[off + m]) || AllZeros(DigitsAt(memory, off))
  {
    hide Numeral, AllDigits, DigitRun, AllZeros;
    var s := memory[off..];
    assert s[..m] == memory[off..off + m];
    DigitRunCovers(s, m);
    DigitRunIsDigits(s);
    var run := s[..DigitRun(s)];
    assert run[..m] == s[..m];
    LongerNumeral(run, m);
    assert run == DigitsAt(memory, off);
    ZeroNumeral(run);
    if m == DigitRun(s) {
      assert run == s[..m];
    }
  }

  /** strtoul does not stop at the end of the buffer: the port is the number of its field exactly when
      the field ends before the buffer does, no digit stands behind the buffer in memory, or all digits
      from the start of the field are zeros. */
  lemma {:induction false} PortIsExact(memory: string, n: nat, isConnect: bool)
    requires n <= |memory| && n < FIELD_LIMIT && ParseUrl(memory, n, isConnect).Some?
    requires PORT in ParseUrl(memory, n, isConnect).value.fields
    ensures var url := ParseUrl(memory, n, isConnect).value;
            var r := url.fields[PORT];
            && r.End() <= n && AllDigits(memory[r.off..r.End()])
            && (url.port == Numeral(memory[r.off..r.End()]) <==>
                  r.End() < n || n == |memory| || !IsDigit(memory[n]) || AllZeros(DigitsAt(memory, r.off)))
  {
    hide Covered, InOrder, Strtoul, Numeral, ParseUrl, DigitsAt, AllZeros;
    AcceptedIsWellLaid(memory, n, isConnect);
    var url := ParseUrl(memory, n, isConnect).value;
    var r := url.fields[PORT];
    assert Spelled(PORT, r, memory);
    assert AllDigits(memory[r.off..r.End()]);
    PortIsStrtoul(memory, n, isConnect);
    StrtoulOfField(memory, r.off, r.len);
    if r.End() < n {
      PortEnds(url.fields, memory, n);
    }
  }

  lemma PortIsStrtoul(memory: string, n: nat, isConnect: bool)
    requires n <= |memory| && ParseUrl(memory, n, isConnect).Some?
    requires var u := ParseUrl(memory, n, isConnect).value.fields; PORT in u && u[PORT].off <= |memory|
    ensures var url := ParseUrl(memory, n, isConnect).value; url.port == Strtoul(memory, url.fields[PORT].off)
  {
    hide UrlScan, ParseHost, Strtoul;
  }

  /** A buffer "a:8" with a digit behind it in memory: the field is 8, the port 80. */
  lemma PortReadsOn()
    ensures ParseUrl("a:80", 3, true) == Some(Url(map[HOST := Range(0, 1), PORT := Range(2, 1)], 80))
  {
    hide UrlScan, HostScanFrom, Strtoul;
    FirstPassOfExample();
    SecondPassOfExample();
    assert Strtoul("a:80", 2) == 80 by { StrtoulOfExample(); }
  }

  lemma FirstPassOfExample()
    ensures UrlScan(StartScan(true), "a:80", 0, 3) ==
      Some(Scan(State.Server, Some(HOST), map[HOST := Range(0, 3)], false))
  {
    hide ParseUrlChar;
    ServerBytes();
    var q := Scan(State.Server, Some(HOST), map[HOST := Range(0, 1)], false);
    assert UrlByte(StartScan(true), 0, 'a') == Some(q);
    var r := Scan(State.Server, Some(HOST), map[HOST := Range(0, 2)], false);
    assert Extend(q.fields, HOST) == r.fields;
    assert Extend(r.fields, HOST) == map[HOST := Range(0, 3)];
    assert UrlByte(q, 1, ':') == Some(r);
    assert UrlScan(r, "a:80", 2, 3) == Some(Scan(State.Server, Some(HOST), map[HOST := Range(0, 3)], false));
  }

  lemma ServerBytes()
    ensures ParseUrlChar(ServerStart, 'a') == ParseUrlChar(State.Server, ':') ==
      ParseUrlChar(State.Server, '8') == State.Server
  {
  }

  lemma SecondPassOfExample()
    ensures var u := map[HOST := Range(0, 3)];
            ParseHost(u, "a:80", false) == Some(map[HOST := Range(0, 1), PORT := Range(2, 1)])
  {
    hide ParseHostChar;
    HostBytes();
    var start := StartHost(map[HOST := Range(0, 3)], false);
    var a := HostScan(HostState.Host, map[HOST := Range(0, 1)]);
    assert Extend(start.fields[HOST := Range(0, 0)], HOST) == a.fields;
    assert HostByte(start, 0, 'a') == Some(a);
    var b := HostScan(HostPortStart, a.fields);
    assert HostByte(a, 1, ':') == Some(b);
    var c := HostScan(HostPort, map[HOST := Range(0, 1), PORT := Range(2, 1)]);
    assert Extend(b.fields[PORT := Range(2, 0)], PORT) == c.fields;
    assert HostByte(b, 2, '8') == Some(c);
    assert HostScanFrom(b, "a:80", 2, 3) == Some(c);
  }

  lemma HostBytes()
    ensures ParseHostChar(HostStart, 'a') == HostState.Host
    ensures ParseHostChar(HostState.Host, ':') == HostPortStart && ParseHostChar(HostPortStart, '8') == HostPort
  {
  }

  lemma StrtoulOfExample()
    ensures Strtoul("a:80", 2) == 80
  {
    assert "a:80"[2..] == "80" && "80"[1..] == "0" && "0"[1..] == "";
    assert "80"[..2] == "80" && "80"[..1] == "8" && "8"[..0] == "";
  }

  lemma PortEnds(u: Fields, s: string, n: nat)
    requires WellLaid(u, s, n) && PORT in u && u[PORT].End() < n
    ensures !IsDigit(s[u[PORT].End()])
  {
    hide Spelled, Covered, InField, Rank;
    var e := u[PORT].End();
    assert IsDigit(s[e - 1]) by { LastDigit(u[PORT], s); }
    assert IsDelimiter(s[e]) || InField(u, e) by { CoveredAt(u, s, n, e); }
    if IsDelimiter(s[e]) {
      return;
    }
    var g := FieldAt(u, e);
    assert Rank(PORT) == 3 && Rank(g) > 3 by { RankAfterPort(u, g, e); }
    assert u[g].off == e;
    FieldStart(g, u[g], s);
  }

  lemma LastDigit(r: Range, s: string)
    requires r.End() <= |s| && r.len > 0 && Spelled(PORT, r, s)
    ensures IsDigit(s[r.End() - 1])
  {
    assert Fits(PORT, s[r.End() - 1]);
  }

  lemma CoveredAt(u: Fields, s: string, n: nat, k: nat)
    requires k < n <= |s| && Covered(u, s, 0, n)
    ensures IsDelimiter(s[k]) || InField(u, k)
  {
  }

  lemma FieldAt(u: Fields, k: nat) returns (g: Field)
    requires InField(u, k)
    ensures g in u && u[g].Contains(k)
  {
    g :| g in u && u[g].Contains(k);
  }

  lemma RankAfterPort(u: Fields, g: Field, e: nat)
    requires InOrder(u) && PORT in u && e == u[PORT].End() && g in u && u[g].Contains(e)
    ensures Rank(g) > Rank(PORT) == 3
  {
  }

  /** A field behind the port does not start with a digit right behind a digit. */
  lemma FieldStart(g: Field, r: Range, s: string)
    requires Rank(g) > 3 && r.End() <= |s| && r.len > 0 && r.off > 0 && Spelled(g, r, s) && IsDigit(s[r.off - 1])
    ensures !IsDigit(s[r.off])
  {
  }

  /** A URL by its parts; an absent part is empty. The host has its brackets. */
  datatype Parts = Parts(schema: string, userinfo: string, host: string, port: string, path: string,
                         query: string, fragment: string)

  predicate All(s: string, f: char -> bool) { forall k | 0 <= k < |s| :: f(s[k]) }

  predicate IsAddressChar(c: char) { HexValue(c) >= 0 || c == ':' || c == '.' }

  predicate IsZoneChar(c: char) { IsAlphaNum(c) || c in "%.-_~" }

  /** An address of k characters and, behind a percent sign, a zone. */
  predicate IsAddress(inside: string, k: nat) {
    && 0 < k <= |inside| && All(inside[..k], IsAddressChar)
    && (k == |inside| || (inside[k] == '%' && k + 1 < |inside| && All(inside[k + 1..], IsZoneChar)))
  }

  predicate HoldsAddress(inside: string) {
    exists k :: 0 <= k <= |inside| && IsAddress(inside, k)
  }

  /** A host as it is written: a name, or an address in brackets. */
  predicate IsBracketed(host: string) {
    && |host| > 2 && host[0] == '[' && host[|host| - 1] == ']'
    && HoldsAddress(host[1..|host| - 1])
  }

  /** The field of a host written at off: brackets do not belong to it. */
  function HostRange(host: string, off: nat): Range {
    if |host| > 2 && host[0] == '[' then Range(off + 1, |host| - 2) else Range(off, |host|)
  }

  predicate ValidParts(u: Parts) {
    && u.schema != "" && All(u.schema, IsAlpha)
    && All(u.userinfo, IsUserinfoChar)
    && u.host != "" && (All(u.host, IsHostChar) || IsBracketed(u.host))
    && AllDigits(u.port) && Numeral(u.port) <= 0xFFFF
    && All(u.path, IsUrlChar) && (u.path == "" || u.path[0] == '/')
    && All(u.query, c => IsUrlChar(c) || c == '?')
    && All(u.fragment, c => IsUrlChar(c) || c == '?' || c == '#') && (u.fragment == "" || u.fragment[0] != '#')
  }

  /** A part that is present, behind its mark. */
  function Optional(mark: char, text: string): string {
    if text == "" then "" else [mark] + text
  }

  function Server(u: Parts): string {
    (if u.userinfo == "" then "" else u.userinfo + "@") + u.host + Optional(':', u.port)
  }

  function Assemble(u: Parts): string {
    u.schema + "://" + Server(u) + u.path + Optional('?', u.query) + Optional('#', u.fragment)
  }

  /** A part that is present, as a field starting at off. */
  function Place(fields: Fields, f: Field, off: nat, text: string): Fields {
    if text == "" then fields else fields[f := Range(off, |text|)]
  }

  /** Where the parts are in the assembled URL. */
  function Placed(u: Parts): Fields {
    var server := |u.schema| + 3;
    var host := server + (if u.userinfo == "" then 0 else |u.userinfo| + 1);
    var a := Place(map[], SCHEMA, 0, u.schema);
    var b := Place(Place(a, USERINFO, server, u.userinfo)[HOST := HostRange(u.host, host)],
      PORT, host + |u.host| + 1, u.port);
    PlaceTail(b, u, server + |Server(u)|)
  }

  /** The parts behind the server, from e on. */
  function PlaceTail(fields: Fields, u: Parts, e: nat): Fields {
    var query := e + |u.path|;
    var fragment := query + (if u.query == "" then 0 else |u.query| + 1);
    Place(Place(Place(fields, PATH, e, u.path), QUERY, query + 1, u.query), FRAGMENT, fragment + 1, u.fragment)
  }

  /** Bytes m to p that open a field and stay in it. */
  lemma {:induction false} ScanField(q: Scan, s: string, p: nat, m: nat, n: nat, f: Field, t: State)
    requires p < m <= n <= |s| && n < FIELD_LIMIT && Known(q, p) && q.last != Some(f) && f != PORT
    requires FieldOf(t) == Some(f) && t != Nowhere && t != ServerWithAt
    requires ParseUrlChar(q.state, s[p]) == t
    requires forall k | p < k < m :: ParseUrlChar(t, s[k]) == t
    ensures var r := Scan(t, Some(f), q.fields[f := Range(p, m - p)], q.foundAt);
            Known(r, m) && UrlScan(q, s, p, n) == UrlScan(r, s, m, n)
  {
    hide ParseUrlChar, FieldOf, UrlScan, Bounded;
    UrlScanStep(q, s, p, n);
    OpenedRange(q.fields, f, p);
    var one := Scan(t, Some(f), q.fields[f := Range(p, 1)], q.foundAt);
    assert UrlByte(q, p, s[p]) == Some(one);
    ScanMore(one, s, p + 1, m, n, f);
    assert one.fields[f := Range(p, m - p)] == q.fields[f := Range(p, m - p)];
  }

  lemma UrlScanStep(q: Scan, s: string, p: nat, n: nat)
    requires p < n <= |s| && Known(q, p)
    ensures UrlScan(q, s, p, n) == match UrlByte(q, p, s[p]) case None => None case Some(r) => UrlScan(r, s, p + 1, n)
  {
  }

  /** Bytes that stay in the field of the byte before them. */
  lemma {:induction false} ScanMore(q: Scan, s: string, p: nat, m: nat, n: nat, f: Field)
    requires p <= m <= n <= |s| && n < FIELD_LIMIT && Known(q, p) && q.last == Some(f)
    requires q.fields[f].End() == p && FieldOf(q.state) == Some(f) && q.state != Nowhere
    requires forall k | p <= k < m :: ParseUrlChar(q.state, s[k]) == q.state
    requires q.state == ServerWithAt ==> q.foundAt
    ensures var r := q.(fields := q.fields[f := Range(q.fields[f].off, q.fields[f].len + m - p)]);
            Known(r, m) && UrlScan(q, s, p, n) == UrlScan(r, s, m, n)
    decreases m - p
  {
    hide ParseUrlChar, FieldOf, UrlScan;
    if p < m {
      UrlScanStep(q, s, p, n);
      ExtendedRange(q.fields, f, p);
      var one := q.(fields := q.fields[f := Range(q.fields[f].off, q.fields[f].len + 1)]);
      assert UrlByte(q, p, s[p]) == Some(one);
      ScanMore(one, s, p + 1, m, n, f);
      ghost var whole := Range(q.fields[f].off, q.fields[f].len + m - p);
      assert one.fields[f := whole] == q.fields[f := whole];
    } else {
      assert q.fields[f := Range(q.fields[f].off, q.fields[f].len)] == q.fields;
    }
  }

  /** A delimiter byte. */
  lemma ScanDelimiter(q: Scan, s: string, p: nat, n: nat, t: State)
    requires p < n <= |s| && Known(q, p)
    requires ParseUrlChar(q.state, s[p]) == t && t != Nowhere && FieldOf(t).None?
    ensures Known(q.(state := t), p + 1) && UrlScan(q, s, p, n) == UrlScan(q.(state := t), s, p + 1, n)
  {
    hide ParseUrlChar, FieldOf, UrlScan;
    UrlScanStep(q, s, p, n);
  }

  /** The at sign behind the user information, and the bytes of the host and port. */
  lemma ScanAt(q: Scan, s: string, p: nat, m: nat, n: nat)
    requires p + 1 < m <= n <= |s| && n < FIELD_LIMIT && Known(q, p) && q.last == Some(HOST)
    requires q.state == State.Server && q.fields[HOST].End() == p && s[p] == '@'
    requires forall k | p < k < m :: IsServerChar(s[k])
    ensures var r := Scan(State.Server, Some(HOST),
        q.fields[HOST := Range(q.fields[HOST].off, m - q.fields[HOST].off)], true);
            Known(r, m) && UrlScan(q, s, p, n) == UrlScan(r, s, m, n)
  {
    hide UrlScan, Extend, ParseUrlChar, IsServerChar;
    AtFollows();
    var off, len := q.fields[HOST].off, q.fields[HOST].len;
    UrlScanStep(q, s, p, n);
    ExtendedRange(q.fields, HOST, p);
    var at := Scan(ServerWithAt, Some(HOST), q.fields[HOST := Range(off, len + 1)], true);
    assert UrlByte(q, p, s[p]) == Some(at);
    UserinfoStays(ServerWithAt, s[p + 1]);
    UrlScanStep(at, s, p + 1, n);
    ExtendedRange(at.fields, HOST, p + 1);
    var one := Scan(State.Server, Some(HOST), at.fields[HOST := Range(off, len + 2)], true);
    assert UrlByte(at, p + 1, s[p + 1]) == Some(one);
    forall k | p + 2 <= k < m ensures ParseUrlChar(State.Server, s[k]) == State.Server {
      UserinfoStays(State.Server, s[k]);
    }
    ScanMore(one, s, p + 2, m, n, HOST);
    assert one.fields[HOST := Range(off, m - off)] == q.fields[HOST := Range(off, m - off)];
  }

  lemma AtFollows()
    ensures ParseUrlChar(State.Server, '@') == ServerWithAt
  {
  }

  /** The characters of a server part but the at sign. */
  predicate IsServerChar(c: char) { IsUserinfoChar(c) || c == '[' || c == ']' }

  lemma UserinfoStays(t: State, c: char)
    requires IsServerChar(c) && (t == ServerStart || t == State.Server || t == ServerWithAt)
    ensures ParseUrlChar(t, c) == State.Server
  {
  }

  lemma SchemaStays(t: State, c: char)
    requires IsAlpha(c) && (t == SpacesBeforeUrl || t == Schema)
    ensures ParseUrlChar(t, c) == Schema
  {
  }

  lemma HostIsUserinfo(c: char)
    requires IsHostChar(c) || IsAddressChar(c) || IsZoneChar(c) || c == ':' || c == '%' || IsDigit(c)
    ensures IsUserinfoChar(c)
  {
  }

  lemma HostIsServer(host: string, j: nat)
    requires j < |host| && (All(host, IsHostChar) || IsBracketed(host))
    ensures IsServerChar(host[j])
  {
    hide IsHostChar, IsAddressChar, IsZoneChar, IsUserinfoChar;
    if All(host, IsHostChar) {
      HostIsUserinfo(host[j]);
    } else if 0 < j < |host| - 1 {
      var inside := host[1..|host| - 1];
      var k :| 0 <= k <= |inside| && IsAddress(inside, k);
      assert inside[j - 1] == host[j];
      assert j - 1 < k ==> inside[..k][j - 1] == host[j];
      assert j - 1 > k ==> inside[k + 1..][j - 2 - k] == host[j];
      HostIsUserinfo(host[j]);
    }
  }

  /** The first pass over the schema and its delimiters. */
  lemma ScanSchema(u: Parts, rest: string)
    requires u.schema != "" && All(u.schema, IsAlpha) && |u.schema + "://" + rest| < FIELD_LIMIT
    ensures var s, h := u.schema + "://" + rest, |u.schema| + 3;
            var r := Scan(ServerStart, Some(SCHEMA), map[SCHEMA := Range(0, h - 3)], false);
            Known(r, h) && UrlScan(StartScan(false), s, 0, |s|) == UrlScan(r, s, h, |s|)
  {
    hide UrlScan, ParseUrlChar;
    var s, a := u.schema + "://" + rest, |u.schema|;
    assert forall k | 0 <= k < a :: s[k] == u.schema[k];
    forall k, t | 0 <= k < a && (t == SpacesBeforeUrl || t == Schema) ensures ParseUrlChar(t, s[k]) == Schema {
      SchemaStays(t, s[k]);
    }
    ScanField(StartScan(false), s, 0, a, |s|, SCHEMA, Schema);
    var q := Scan(Schema, Some(SCHEMA), map[SCHEMA := Range(0, a)], false);
    assert map[][SCHEMA := Range(0, a)] == map[SCHEMA := Range(0, a)];
    assert s[a] == ':' && s[a + 1] == '/' && s[a + 2] == '/';
    SchemaDelimiters();
    ScanDelimiter(q, s, a, |s|, SchemaSlash);
    ScanDelimiter(q.(state := SchemaSlash), s, a + 1, |s|, SchemaSlashSlash);
    ScanDelimiter(q.(state := SchemaSlashSlash), s, a + 2, |s|, ServerStart);
  }

  lemma SchemaDelimiters()
    ensures ParseUrlChar(Schema, ':') == SchemaSlash
    ensures ParseUrlChar(SchemaSlash, '/') == SchemaSlashSlash
    ensures ParseUrlChar(SchemaSlashSlash, '/') == ServerStart
  {
  }

  /** The first pass over the server part: one range, whatever is in it. */
  lemma ScanServer(u: Parts, q: Scan, s: string, h: nat)
    requires ValidParts(u) && h + |Server(u)| <= |s| < FIELD_LIMIT && s[h..h + |Server(u)|] == Server(u)
    requires Known(q, h) && q.state == ServerStart && q.last != Some(HOST) && !q.foundAt
    ensures var e := h + |Server(u)|;
            var r := Scan(State.Server, Some(HOST), q.fields[HOST := Range(h, e - h)], u.userinfo != "");
            Known(r, e) && UrlScan(q, s, h, |s|) == UrlScan(r, s, e, |s|)
  {
    hide UrlScan, ParseUrlChar, IsServerChar, ValidParts, Server, Optional;
    var e, n := h + |Server(u)|, |s|;
    ServerSplits(u, s, h, e);
    forall k | h <= k < e ensures IsServerChar(s[k]) || (s[k] == '@' && u.userinfo != "" && k == h + |u.userinfo|) {
      assert s[k] == s[h..e][k - h];
      ServerChars(u, k - h);
    }
    if u.userinfo == "" {
      forall k, t | h <= k < e && (t == ServerStart || t == State.Server)
        ensures ParseUrlChar(t, s[k]) == State.Server
      {
        UserinfoStays(t, s[k]);
      }
      ScanField(q, s, h, e, n, HOST, State.Server);
    } else {
      var m := h + |u.userinfo|;
      forall k, t | h <= k < m && (t == ServerStart || t == State.Server)
        ensures ParseUrlChar(t, s[k]) == State.Server
      {
        UserinfoStays(t, s[k]);
      }
      ScanField(q, s, h, m, n, HOST, State.Server);
      var one := Scan(State.Server, Some(HOST), q.fields[HOST := Range(h, m - h)], false);
      assert s[m] == s[h..e][m - h];
      ScanAt(one, s, m, e, n);
      assert one.fields[HOST := Range(h, e - h)] == q.fields[HOST := Range(h, e - h)];
    }
  }

  lemma ServerChars(u: Parts, k: nat)
    requires ValidParts(u) && k < |Server(u)|
    ensures var c := Server(u)[k];
            if u.userinfo != "" && k == |u.userinfo| then c == '@' else IsServerChar(c)
  {
    hide IsUserinfoChar, IsHostChar, IsBracketed;
    var c, m := Server(u)[k], if u.userinfo == "" then 0 else |u.userinfo| + 1;
    if k >= m {
      var j := k - m;
      if j < |u.host| {
        assert c == u.host[j];
        HostIsServer(u.host, j);
      } else if j == |u.host| {
        assert c == ':';
        HostIsUserinfo(c);
      } else {
        assert c == u.port[j - |u.host| - 1];
        HostIsUserinfo(c);
      }
    } else if k < |u.userinfo| {
      assert c == u.userinfo[k];
    }
  }

  /** The parts behind the server. */
  function Tail(u: Parts): string {
    u.path + Optional('?', u.query) + Optional('#', u.fragment)
  }

  /** The parser does not accept a fragment right behind the server part. */
  predicate FragmentBehindServer(u: Parts) {
    u.path == "" && u.query == "" && u.fragment != ""
  }

  /** The scan after a part that is present, or no different. */
  function AfterPart(q: Scan, t: State, f: Field, off: nat, text: string): Scan {
    if text == "" then q else Scan(t, Some(f), Place(q.fields, f, off, text), q.foundAt)
  }

  lemma AfterPartFields(q: Scan, t: State, f: Field, off: nat, text: string)
    ensures var r := AfterPart(q, t, f, off, text);
            && r.fields == Place(q.fields, f, off, text) && r.foundAt == q.foundAt
            && (if text == "" then r == q else r.state == t && r.last == Some(f))
  {
  }

  /** The end of the first pass: path, query and fragment. */
  lemma ScanParts(u: Parts, q: Scan, s: string, e: nat)
    requires ValidParts(u) && e <= |s| < FIELD_LIMIT && s[e..] == Tail(u)
    requires Known(q, e) && q.state == State.Server && q.last == Some(HOST)
    ensures var p := e + |u.path|;
            var m := p + (if u.query == "" then 0 else |u.query| + 1);
            var t := AfterPart(AfterPart(q, State.Path, PATH, e, u.path), State.Query, QUERY, p + 1, u.query);
            UrlScan(q, s, e, |s|) ==
            if FragmentBehindServer(u) then None else Some(AfterPart(t, State.Fragment, FRAGMENT, m + 1, u.fragment))
  {
    hide *;
    TailSplits(u, s, e);
    OnlyFragment(u);
    var m := e + |u.path| + (if u.query == "" then 0 else |u.query| + 1);
    var t := ScanPathQuery(u, q, s, e);
    StepFragment(u, t, s, m);
  }

  lemma ScanPathQuery(u: Parts, q: Scan, s: string, e: nat) returns (t: Scan)
    requires ValidParts(u) && e <= |s| < FIELD_LIMIT && s[e..] == Tail(u)
    requires Known(q, e) && q.state == State.Server && q.last == Some(HOST)
    ensures var p := e + |u.path|;
            var m := p + (if u.query == "" then 0 else |u.query| + 1);
            && t == AfterPart(AfterPart(q, State.Path, PATH, e, u.path), State.Query, QUERY, p + 1, u.query)
            && m <= |s| && UrlScan(q, s, e, |s|) == UrlScan(t, s, m, |s|) && Known(t, m)
    ensures t.last != Some(FRAGMENT)
    ensures t.state == if u.query != "" then State.Query else if u.path != "" then State.Path else State.Server
  {
    hide *;
    TailSplits(u, s, e);
    var p := e + |u.path|;
    var m := p + (if u.query == "" then 0 else |u.query| + 1);
    var r := AfterPart(q, State.Path, PATH, e, u.path);
    t := AfterPart(r, State.Query, QUERY, p + 1, u.query);
    AfterPartFields(q, State.Path, PATH, e, u.path);
    AfterPartFields(r, State.Query, QUERY, p + 1, u.query);
    StepPath(u, q, s, e);
    StepQuery(u, r, s, p, m);
  }

  lemma OnlyFragment(u: Parts)
    ensures FragmentBehindServer(u) <==> u.path == "" && u.query == "" && u.fragment != ""
  {
  }

  lemma ScanTail(u: Parts, q: Scan, s: string, e: nat)
    requires ValidParts(u) && e <= |s| < FIELD_LIMIT && s[e..] == Tail(u)
    requires Known(q, e) && q.state == State.Server && q.last == Some(HOST)
    ensures if FragmentBehindServer(u) then UrlScan(q, s, e, |s|) == None
            else
              && UrlScan(q, s, e, |s|).Some?
              && UrlScan(q, s, e, |s|).value.foundAt == q.foundAt
              && UrlScan(q, s, e, |s|).value.fields == PlaceTail(q.fields, u, e)
  {
    hide UrlScan, Known, ValidParts, Place, Tail, AfterPart, FragmentBehindServer;
    ScanParts(u, q, s, e);
    var p := e + |u.path|;
    var m := p + (if u.query == "" then 0 else |u.query| + 1);
    var r := AfterPart(q, State.Path, PATH, e, u.path);
    var t := AfterPart(r, State.Query, QUERY, p + 1, u.query);
    AfterPartFields(q, State.Path, PATH, e, u.path);
    AfterPartFields(r, State.Query, QUERY, p + 1, u.query);
    AfterPartFields(t, State.Fragment, FRAGMENT, m + 1, u.fragment);
  }

  lemma StepPath(u: Parts, q: Scan, s: string, e: nat)
    requires ValidParts(u) && e + |u.path| <= |s| < FIELD_LIMIT && s[e..] == Tail(u)
    requires Known(q, e) && q.state == State.Server && q.last == Some(HOST)
    ensures var r := AfterPart(q, State.Path, PATH, e, u.path);
            Known(r, e + |u.path|) && UrlScan(q, s, e, |s|) == UrlScan(r, s, e + |u.path|, |s|)
  {
    hide UrlScan, Known;
    if u.path != "" {
      ScanPath(u, q, s, e);
    }
  }

  lemma StepQuery(u: Parts, q: Scan, s: string, p: nat, m: nat)
    requires ValidParts(u) && p <= m <= |s| < FIELD_LIMIT && m == p + (if u.query == "" then 0 else |u.query| + 1)
    requires u.query != "" ==> s[p] == '?' && s[p + 1..m] == u.query
    requires Known(q, p) && q.last != Some(QUERY) && (q.state == State.Server || q.state == State.Path)
    ensures var r := AfterPart(q, State.Query, QUERY, p + 1, u.query);
            Known(r, m) && UrlScan(q, s, p, |s|) == UrlScan(r, s, m, |s|)
  {
    hide UrlScan, Known;
    if u.query != "" {
      ScanQuery(u, q, s, p);
    }
  }

  lemma StepFragment(u: Parts, q: Scan, s: string, m: nat)
    requires ValidParts(u) && m <= |s| < FIELD_LIMIT && |s| == m + (if u.fragment == "" then 0 else |u.fragment| + 1)
    requires u.fragment != "" ==> s[m] == '#' && s[m + 1..] == u.fragment
    requires Known(q, m) && q.last != Some(FRAGMENT)
    requires q.state == State.Server || q.state == State.Path || q.state == State.Query
    ensures UrlScan(q, s, m, |s|) ==
            if u.fragment != "" && q.state == State.Server then None
            else Some(AfterPart(q, State.Fragment, FRAGMENT, m + 1, u.fragment))
  {
    hide UrlScan, Known;
    if u.fragment == "" {
      EndOfScan(q, s, |s|);
    } else if q.state == State.Server {
      UrlScanStep(q, s, m, |s|);
      NoFragmentHere();
    } else {
      ScanFragment(u, q, s, m);
      EndOfScan(AfterPart(q, State.Fragment, FRAGMENT, m + 1, u.fragment), s, |s|);
    }
  }

  /** Where the parts are in the tail. */
  lemma TailSplits(u: Parts, s: string, e: nat)
    requires e <= |s| && s[e..] == Tail(u)
    ensures var p := e + |u.path|;
            var m := p + (if u.query == "" then 0 else |u.query| + 1);
            && |s| == m + (if u.fragment == "" then 0 else |u.fragment| + 1)
            && s[e..p] == u.path
            && (u.query != "" ==> s[p] == '?' && s[p + 1..m] == u.query)
            && (u.fragment != "" ==> s[m] == '#' && s[m + 1..] == u.fragment)
  {
    hide *;
    var p := e + |u.path|;
    var m := p + (if u.query == "" then 0 else |u.query| + 1);
    TailIs(u);
    OptionalLength('?', u.query);
    OptionalLength('#', u.fragment);
    SliceOfSum(s, e, |s|, u.path + Optional('?', u.query), Optional('#', u.fragment));
    SliceOfSum(s, e, e + |u.path + Optional('?', u.query)|, u.path, Optional('?', u.query));
    OptionalAt(s, p, m, '?', u.query);
    OptionalAt(s, m, |s|, '#', u.fragment);
  }

  lemma OptionalAt(s: string, p: nat, m: nat, mark: char, text: string)
    requires p <= |s| && p + |Optional(mark, text)| == m <= |s| && s[p..m] == Optional(mark, text)
    ensures m == p + (if text == "" then 0 else |text| + 1)
    ensures text != "" ==> s[p] == mark && s[p + 1..m] == text
    ensures text != "" && m == |s| ==> s[p + 1..] == text
  {
    if text != "" {
      Marked(s, p, m, mark, text);
      assert s[p + 1..] == s[p + 1..|s|];
    }
  }

  lemma TailIs(u: Parts)
    ensures Tail(u) ==
            u.path + Optional('?', u.query) + Optional('#', u.fragment)
  {
  }

  lemma OptionalLength(mark: char, text: string)
    ensures |Optional(mark, text)| == if text == "" then 0 else |text| + 1
  {
  }

  lemma Marked(s: string, p: nat, m: nat, mark: char, text: string)
    requires p <= m <= |s| && s[p..m] == [mark] + text
    ensures p < m && s[p] == mark && s[p + 1..m] == text
  {
    SliceOfSum(s, p, m, [mark], text);
    assert s[p] == s[p..m][0];
  }

  lemma NoFragmentHere()
    ensures ParseUrlChar(State.Server, '#') == Nowhere
  {
  }

  lemma EndOfScan(q: Scan, s: string, n: nat)
    requires n <= |s| && Known(q, n)
    ensures UrlScan(q, s, n, n) == Some(q)
  {
  }

  lemma ScanPath(u: Parts, q: Scan, s: string, e: nat)
    requires ValidParts(u) && e <= |s| < FIELD_LIMIT && s[e..] == Tail(u) && u.path != ""
    requires Known(q, e) && q.state == State.Server && q.last == Some(HOST)
    ensures var r := Scan(State.Path, Some(PATH), q.fields[PATH := Range(e, |u.path|)], q.foundAt);
            e + |u.path| <= |s| && Known(r, e + |u.path|) && UrlScan(q, s, e, |s|) == UrlScan(r, s, e + |u.path|, |s|)
  {
    hide UrlScan, ParseUrlChar, Tail, Numeral, IsBracketed;
    TailSplits(u, s, e);
    forall k | e <= k < e + |u.path| ensures s[k] == u.path[k - e] { assert s[k] == s[e..e + |u.path|][k - e]; }
    PathStays('/');
    forall k | e < k < e + |u.path| ensures ParseUrlChar(State.Path, s[k]) == State.Path { PathStays(s[k]); }
    ScanField(q, s, e, e + |u.path|, |s|, PATH, State.Path);
  }

  lemma PathStays(c: char)
    requires IsUrlChar(c)
    ensures ParseUrlChar(State.Path, c) == State.Path && ParseUrlChar(State.Server, '/') == State.Path
  {
  }

  lemma ScanQuery(u: Parts, q: Scan, s: string, p: nat)
    requires ValidParts(u) && p + |u.query| < |s| < FIELD_LIMIT && u.query != ""
    requires s[p] == '?' && s[p + 1..p + 1 + |u.query|] == u.query
    requires Known(q, p) && q.last != Some(QUERY) && (q.state == State.Server || q.state == State.Path)
    ensures var m := p + 1 + |u.query|;
            var r := Scan(State.Query, Some(QUERY), q.fields[QUERY := Range(p + 1, |u.query|)], q.foundAt);
            Known(r, m) && UrlScan(q, s, p, |s|) == UrlScan(r, s, m, |s|)
  {
    hide UrlScan, ParseUrlChar, Known;
    var m := p + 1 + |u.query|;
    forall k, t | p < k < m && (t == QueryStart || t == State.Query) ensures ParseUrlChar(t, s[k]) == State.Query {
      assert s[k] == s[p + 1..m][k - p - 1];
      QueryStays(t, s[k]);
    }
    QueryOpens(q.state);
    ScanDelimiter(q, s, p, |s|, QueryStart);
    ScanField(q.(state := QueryStart), s, p + 1, m, |s|, QUERY, State.Query);
  }

  lemma QueryStays(t: State, c: char)
    requires IsUrlChar(c) || c == '?'
    requires t == QueryStart || t == State.Query
    ensures ParseUrlChar(t, c) == State.Query
  {
  }

  lemma QueryOpens(t: State)
    requires t == State.Server || t == State.Path
    ensures ParseUrlChar(t, '?') == QueryStart
  {
  }

  lemma ScanFragment(u: Parts, q: Scan, s: string, p: nat)
    requires ValidParts(u) && p + 1 + |u.fragment| == |s| < FIELD_LIMIT && u.fragment != ""
    requires s[p] == '#' && s[p + 1..] == u.fragment
    requires Known(q, p) && q.last != Some(FRAGMENT) && (q.state == State.Query || q.state == State.Path)
    ensures var r := Scan(State.Fragment, Some(FRAGMENT), q.fields[FRAGMENT := Range(p + 1, |u.fragment|)], q.foundAt);
            Known(r, |s|) && UrlScan(q, s, p, |s|) == UrlScan(r, s, |s|, |s|)
  {
    hide UrlScan, ParseUrlChar, Known;
    forall k | p < k < |s| ensures s[k] == u.fragment[k - p - 1] { assert s[k] == s[p + 1..][k - p - 1]; }
    FragmentOpens(q.state, s[p + 1]);
    forall k | p + 1 < k < |s| ensures ParseUrlChar(State.Fragment, s[k]) == State.Fragment { FragmentContinues(s[k]); }
    ScanDelimiter(q, s, p, |s|, FragmentStart);
    ScanField(q.(state := FragmentStart), s, p + 1, |s|, |s|, FRAGMENT, State.Fragment);
  }

  lemma FragmentOpens(t: State, c: char)
    requires (t == State.Query || t == State.Path) && (IsUrlChar(c) || c == '?')
    ensures ParseUrlChar(t, '#') == FragmentStart && ParseUrlChar(FragmentStart, c) == State.Fragment
  {
  }

  lemma FragmentContinues(c: char)
    requires IsUrlChar(c) || c == '?' || c == '#'
    ensures ParseUrlChar(State.Fragment, c) == State.Fragment
  {
  }

  lemma HostStep(q: HostScan, s: string, p: nat, e: nat)
    requires p < e <= |s| && HostKnown(q)
    ensures HostScanFrom(q, s, p, e) ==
            match HostByte(q, p, s[p]) case None => None case Some(r) => HostScanFrom(r, s, p + 1, e)
  {
  }

  /** A field of the server part that opens at p and goes on to m. */
  lemma HostField(q: HostScan, s: string, p: nat, m: nat, e: nat, f: Field, t: HostState)
    requires p < m <= e <= |s| < FIELD_LIMIT && HostKnown(q)
    requires HostFieldOf(t) == Some(f) && t != HostNowhere && t != HostV6ZoneStart && t != HostV6Zone && q.state != t
    requires ParseHostChar(q.state, s[p]) == t && forall k | p < k < m :: ParseHostChar(t, s[k]) == t
    requires (t == Userinfo ==> f == USERINFO) && (t == HostPort ==> f == PORT)
    ensures var r := HostScan(t, q.fields[f := Range(p, m - p)]);
            HostKnown(r) && HostScanFrom(q, s, p, e) == HostScanFrom(r, s, m, e)
  {
    hide ParseHostChar, HostFieldOf, HostScanFrom;
    HostStep(q, s, p, e);
    var one := HostScan(t, q.fields[f := Range(p, 1)]);
    assert q.fields[f := Range(Wrap(p), 0)][f := Range(p, 1)] == q.fields[f := Range(p, 1)];
    assert HostByte(q, p, s[p]) == Some(one);
    HostMore(one, s, p + 1, m, e, f);
    assert one.fields[f := Range(p, m - p)] == q.fields[f := Range(p, m - p)];
  }

  lemma {:induction false} HostMore(q: HostScan, s: string, p: nat, m: nat, e: nat, f: Field)
    requires p <= m <= e <= |s| < FIELD_LIMIT && HostKnown(q)
    requires f in q.fields && q.fields[f].End() == p && HostFieldOf(q.state) == Some(f) && q.state != HostNowhere
    requires forall k | p <= k < m :: ParseHostChar(q.state, s[k]) == q.state
    ensures var r := q.(fields := q.fields[f := Range(q.fields[f].off, q.fields[f].len + m - p)]);
            HostKnown(r) && HostScanFrom(q, s, p, e) == HostScanFrom(r, s, m, e)
    decreases m - p
  {
    hide ParseHostChar, HostFieldOf, HostScanFrom;
    if p < m {
      HostStep(q, s, p, e);
      ExtendedRange(q.fields, f, p);
      var one := q.(fields := q.fields[f := Range(q.fields[f].off, q.fields[f].len + 1)]);
      assert HostByte(q, p, s[p]) == Some(one);
      HostMore(one, s, p + 1, m, e, f);
      var whole := Range(q.fields[f].off, q.fields[f].len + m - p);
      assert one.fields[f := whole] == q.fields[f := whole];
    } else {
      assert q.fields[f := Range(q.fields[f].off, q.fields[f].len)] == q.fields;
    }
  }

  lemma HostDelimiter(q: HostScan, s: string, p: nat, e: nat, t: HostState)
    requires p < e <= |s| && HostKnown(q)
    requires ParseHostChar(q.state, s[p]) == t && t != HostNowhere && HostFieldOf(t).None?
    ensures HostKnown(q.(state := t)) && HostScanFrom(q, s, p, e) == HostScanFrom(q.(state := t), s, p + 1, e)
  {
    hide HostScanFrom;
    HostStep(q, s, p, e);
  }

  lemma UserinfoHost(c: char)
    requires IsUserinfoChar(c)
    ensures ParseHostChar(UserinfoStart, c) == Userinfo && ParseHostChar(Userinfo, c) == Userinfo
    ensures ParseHostChar(Userinfo, '@') == HostStart
  {
  }

  lemma HostHost(c: char)
    requires IsHostChar(c)
    ensures ParseHostChar(HostStart, c) == Host && ParseHostChar(Host, c) == Host
    ensures ParseHostChar(Host, ':') == HostPortStart
  {
  }

  lemma PortHost(c: char)
    requires IsDigit(c)
    ensures ParseHostChar(HostPortStart, c) == HostPort && ParseHostChar(HostPort, c) == HostPort
  {
  }

  /** The second pass over the user information. */
  lemma ScanUserinfo(u: Parts, q: HostScan, s: string, h: nat, e: nat)
    requires ValidParts(u) && HostKnown(q) && h + |u.userinfo| + 1 < e <= |s| < FIELD_LIMIT && u.userinfo != ""
    requires s[h..h + |u.userinfo|] == u.userinfo && s[h + |u.userinfo|] == '@' && q.state == UserinfoStart
    ensures var r := HostScan(HostStart, q.fields[USERINFO := Range(h, |u.userinfo|)]);
            HostKnown(r) && HostScanFrom(q, s, h, e) == HostScanFrom(r, s, h + |u.userinfo| + 1, e)
  {
    hide ParseHostChar, HostScanFrom, IsUserinfoChar;
    var m := h + |u.userinfo|;
    forall k, t | h <= k < m && (t == UserinfoStart || t == Userinfo) ensures ParseHostChar(t, s[k]) == Userinfo {
      assert s[k] == s[h..m][k - h];
      UserinfoHost(s[k]);
    }
    HostField(q, s, h, m, e, USERINFO, Userinfo);
    UserinfoHost(u.userinfo[0]);
    HostDelimiter(HostScan(Userinfo, q.fields[USERINFO := Range(h, m - h)]), s, m, e, HostStart);
  }

  /** The state behind a host. */
  function BehindHost(host: string): HostState {
    if |host| > 2 && host[0] == '[' then HostV6End else Host
  }

  /** The second pass over a host that is a name. */
  lemma ScanName(host: string, q: HostScan, s: string, h: nat, e: nat)
    requires host != "" && All(host, IsHostChar) && HostKnown(q)
      && h + |host| <= e <= |s| < FIELD_LIMIT && q.state == HostStart
    requires s[h..h + |host|] == host
    ensures var r := HostScan(BehindHost(host), q.fields[HOST := HostRange(host, h)]);
            HostKnown(r) && HostScanFrom(q, s, h, e) == HostScanFrom(r, s, h + |host|, e)
  {
    hide ParseHostChar, HostScanFrom, IsHostChar;
    var m := h + |host|;
    forall k, t | h <= k < m && (t == HostStart || t == Host) ensures ParseHostChar(t, s[k]) == Host {
      assert s[k] == s[h..m][k - h];
      HostHost(s[k]);
    }
    assert host[0] != '[' by { NoBracket(host[0]); }
    HostField(q, s, h, m, e, HOST, Host);
  }

  lemma NoBracket(c: char)
    requires IsHostChar(c)
    ensures c != '['
  {
  }

  /** A byte that changes the state and belongs to the host. */
  lemma HostGoesOn(q: HostScan, s: string, p: nat, e: nat, t: HostState)
    requires p < e <= |s| < FIELD_LIMIT && HostKnown(q) && q.fields[HOST].End() == p
    requires ParseHostChar(q.state, s[p]) == t && (t == HostV6ZoneStart || t == HostV6Zone)
    ensures var r := HostScan(t, q.fields[HOST := Range(q.fields[HOST].off, q.fields[HOST].len + 1)]);
            HostKnown(r) && HostScanFrom(q, s, p, e) == HostScanFrom(r, s, p + 1, e)
  {
    hide ParseHostChar, HostScanFrom;
    HostStep(q, s, p, e);
    ExtendedRange(q.fields, HOST, p);
  }

  lemma AddressHost(c: char)
    ensures IsAddressChar(c) ==> ParseHostChar(HostV6Start, c) == HostV6 && ParseHostChar(HostV6, c) == HostV6
    ensures IsZoneChar(c) ==>
      ParseHostChar(HostV6ZoneStart, c) == HostV6Zone && ParseHostChar(HostV6Zone, c) == HostV6Zone
    ensures ParseHostChar(HostStart, '[') == HostV6Start && ParseHostChar(HostV6, '%') == HostV6ZoneStart
    ensures ParseHostChar(HostV6, ']') == HostV6End && ParseHostChar(HostV6Zone, ']') == HostV6End
    ensures ParseHostChar(HostV6End, ':') == HostPortStart
  {
  }

  /** The zone of an address, with the percent sign at p. */
  lemma ScanZone(q: HostScan, s: string, p: nat, m: nat, e: nat)
    requires p + 1 < m <= e <= |s| < FIELD_LIMIT && HostKnown(q) && q.state == HostV6 && q.fields[HOST].End() == p
    requires s[p] == '%' && All(s[p + 1..m], IsZoneChar)
    ensures var r := HostScan(HostV6Zone, q.fields[HOST := Range(q.fields[HOST].off, q.fields[HOST].len + m - p)]);
            HostKnown(r) && HostScanFrom(q, s, p, e) == HostScanFrom(r, s, m, e)
  {
    hide *;
    ZoneChars(s, p, m);
    ZoneState(q, p);
    ZoneStarts(q, s, p, e);
    ZoneGoesOn(q, s, p, m, e);
  }

  lemma ZoneChars(s: string, p: nat, m: nat)
    requires p < m <= |s| && All(s[p + 1..m], IsZoneChar)
    ensures forall k | p < k < m :: IsZoneChar(s[k])
  {
    forall k | p < k < m ensures IsZoneChar(s[k]) {
      assert s[k] == s[p + 1..m][k - p - 1];
    }
  }

  lemma ZoneState(q: HostScan, p: nat)
    ensures HostKnown(q) ==> HOST in q.fields
    ensures q.state == HostV6Zone && HOST in q.fields ==> HostKnown(q) && HostFieldOf(q.state) == Some(HOST)
  {
  }

  lemma EndMoves(r: Range, n: nat)
    ensures Range(r.off, r.len + n).End() == r.End() + n
  {
  }

  /** The rest of the zone. */
  lemma ZoneGoesOn(q: HostScan, s: string, p: nat, m: nat, e: nat)
    requires p + 1 < m <= e <= |s| < FIELD_LIMIT && HOST in q.fields && q.fields[HOST].End() == p
    requires forall k | p < k < m :: IsZoneChar(s[k])
    ensures var r := HostScan(HostV6Zone, q.fields[HOST := Range(q.fields[HOST].off, q.fields[HOST].len + 2)]);
            var r' := HostScan(HostV6Zone, q.fields[HOST := Range(q.fields[HOST].off, q.fields[HOST].len + m - p)]);
            HostKnown(r) && HostKnown(r') && HostScanFrom(r, s, p + 2, e) == HostScanFrom(r', s, m, e)
  {
    hide *;
    var off, len := q.fields[HOST].off, q.fields[HOST].len;
    ZoneState(HostScan(HostV6Zone, q.fields[HOST := Range(off, len + 2)]), p + 2);
    ZoneState(HostScan(HostV6Zone, q.fields[HOST := Range(off, len + m - p)]), m);
    EndMoves(q.fields[HOST], 2);
    forall k | p < k < m ensures ParseHostChar(HostV6Zone, s[k]) == HostV6Zone {
      AddressHost(s[k]);
    }
    HostMore(HostScan(HostV6Zone, q.fields[HOST := Range(off, len + 2)]), s, p + 2, m, e, HOST);
    SetTwice(q.fields, Range(off, len + 2), Range(off, len + m - p));
  }

  /** The percent sign and the first character of the zone. */
  lemma ZoneStarts(q: HostScan, s: string, p: nat, e: nat)
    requires p + 1 < e <= |s| < FIELD_LIMIT && HostKnown(q) && q.state == HostV6 && q.fields[HOST].End() == p
    requires s[p] == '%' && IsZoneChar(s[p + 1])
    ensures var r := HostScan(HostV6Zone, q.fields[HOST := Range(q.fields[HOST].off, q.fields[HOST].len + 2)]);
            HostKnown(r) && HostScanFrom(q, s, p, e) == HostScanFrom(r, s, p + 2, e)
  {
    hide ParseHostChar, HostScanFrom, IsZoneChar, IsAddressChar;
    var off, len := q.fields[HOST].off, q.fields[HOST].len;
    AddressHost('a');
    HostGoesOn(q, s, p, e, HostV6ZoneStart);
    AddressHost(s[p + 1]);
    HostGoesOn(HostScan(HostV6ZoneStart, q.fields[HOST := Range(off, len + 1)]), s, p + 1, e, HostV6Zone);
    SetTwice(q.fields, Range(off, len + 1), Range(off, len + 2));
  }

  lemma SetTwice(fields: Fields, first: Range, second: Range)
    ensures fields[HOST := first][HOST := second] == fields[HOST := second]
  {
  }

  /** The second pass over an address and its zone. */
  lemma ScanAddress(inside: string, n: nat, q: HostScan, s: string, p: nat, m: nat, e: nat)
    requires IsAddress(inside, n) && HostKnown(q) && p < m < e <= |s| < FIELD_LIMIT && q.state == HostV6Start
    requires s[p..m] == inside && s[m] == ']'
    ensures var r := HostScan(HostV6End, q.fields[HOST := Range(p, m - p)]);
            HostKnown(r) && HostScanFrom(q, s, p, e) == HostScanFrom(r, s, m + 1, e)
  {
    hide ParseHostChar, HostScanFrom, IsAddressChar, IsZoneChar;
    AddressHost('a');
    forall k, t | p <= k < p + n && (t == HostV6Start || t == HostV6) ensures ParseHostChar(t, s[k]) == HostV6 {
      assert s[k] == s[p..m][..n][k - p];
      AddressHost(s[k]);
    }
    HostField(q, s, p, p + n, e, HOST, HostV6);
    var r := HostScan(HostV6, q.fields[HOST := Range(p, n)]);
    if n < |inside| {
      assert s[p + n] == s[p..m][n];
      SplitSlice(s, p, p + n + 1, m);
      ScanZone(r, s, p + n, m, e);
      assert r.fields[HOST := Range(p, m - p)] == q.fields[HOST := Range(p, m - p)];
      r := HostScan(HostV6Zone, q.fields[HOST := Range(p, m - p)]);
    }
    HostDelimiter(r, s, m, e, HostV6End);
  }

  /** The second pass over the host. */
  lemma ScanHostPart(host: string, q: HostScan, s: string, h: nat, e: nat)
    requires host != "" && (All(host, IsHostChar) || IsBracketed(host))
    requires HostKnown(q) && h + |host| <= e <= |s| < FIELD_LIMIT && q.state == HostStart && s[h..h + |host|] == host
    ensures var r := HostScan(BehindHost(host), q.fields[HOST := HostRange(host, h)]);
            HostKnown(r) && HostScanFrom(q, s, h, e) == HostScanFrom(r, s, h + |host|, e)
  {
    hide ParseHostChar, HostScanFrom, IsHostChar, IsAddressChar, IsZoneChar, IsAddress;
    if All(host, IsHostChar) {
      ScanName(host, q, s, h, e);
    } else {
      var m := h + |host|;
      var inside := host[1..|host| - 1];
      var k :| 0 <= k <= |inside| && IsAddress(inside, k);
      AddressHost('a');
      assert s[h] == s[h..m][0] && s[m - 1] == s[h..m][|host| - 1];
      SliceOfSlice(s, h, m, 1, |host| - 1);
      HostDelimiter(q, s, h, e, HostV6Start);
      ScanAddress(inside, k, q.(state := HostV6Start), s, h + 1, m - 1, e);
    }
  }

  /** The second pass over the port. */
  lemma ScanPortPart(q: HostScan, s: string, m: nat, e: nat)
    requires HostKnown(q) && m + 1 < e <= |s| < FIELD_LIMIT && (q.state == Host || q.state == HostV6End) && s[m] == ':'
    requires AllDigits(s[m + 1..e])
    ensures HostScanFrom(q, s, m, e) == Some(HostScan(HostPort, q.fields[PORT := Range(m + 1, e - m - 1)]))
  {
    hide ParseHostChar, HostScanFrom;
    HostHost('a');
    AddressHost('a');
    HostDelimiter(q, s, m, e, HostPortStart);
    forall k, t | m < k < e && (t == HostPortStart || t == HostPort) ensures ParseHostChar(t, s[k]) == HostPort {
      assert s[k] == s[m + 1..e][k - m - 1];
      PortHost(s[k]);
    }
    HostField(q.(state := HostPortStart), s, m + 1, e, e, PORT, HostPort);
    EndOfHost(HostScan(HostPort, q.fields[PORT := Range(m + 1, e - m - 1)]), s, e);
  }

  /** The second pass over the host and the port. */
  lemma ScanHostPort(u: Parts, q: HostScan, s: string, h: nat, e: nat)
    requires ValidParts(u) && HostKnown(q) && h < e <= |s| < FIELD_LIMIT && q.state == HostStart
    requires s[h..e] == u.host + Optional(':', u.port)
    ensures HostScanFrom(q, s, h, e) ==
            Some(HostScan(if u.port == "" then BehindHost(u.host) else HostPort,
                          Place(q.fields[HOST := HostRange(u.host, h)], PORT, h + |u.host| + 1, u.port)))
  {
    hide *;
    var m := h + |u.host|;
    HostSplits(u, s, h, e);
    ScanHostPart(u.host, q, s, h, e);
    EitherHost(u.host);
    var r := HostScan(BehindHost(u.host), q.fields[HOST := HostRange(u.host, h)]);
    PlaceIs(r.fields, PORT, m + 1, u.port);
    if u.port == "" {
      EndOfHost(r, s, e);
    } else {
      ScanPortPart(r, s, m, e);
    }
  }

  lemma PlaceIs(fields: Fields, f: Field, off: nat, text: string)
    ensures Place(fields, f, off, text) == if text == "" then fields else fields[f := Range(off, |text|)]
  {
  }

  lemma EitherHost(host: string)
    ensures BehindHost(host) == Host || BehindHost(host) == HostV6End
  {
    hide IsBracketed;
  }

  lemma HostSplits(u: Parts, s: string, h: nat, e: nat)
    requires ValidParts(u) && h < e <= |s| && s[h..e] == u.host + Optional(':', u.port)
    ensures u.host != "" && (All(u.host, IsHostChar) || IsBracketed(u.host))
    ensures var m := h + |u.host|;
            && m <= e && s[h..m] == u.host
            && if u.port == "" then m == e else m + 1 < e && s[m] == ':' && s[m + 1..e] == u.port && AllDigits(u.port)
  {
    hide IsHostChar, Numeral, IsUserinfoChar, IsBracketed;
    var m := h + |u.host|;
    SliceOfSum(s, h, e, u.host, Optional(':', u.port));
    OptionalAt(s, m, e, ':', u.port);
  }

  lemma EndOfHost(q: HostScan, s: string, e: nat)
    requires e <= |s| && HostKnown(q)
    ensures HostScanFrom(q, s, e, e) == Some(q)
  {
  }

  /** The second pass over the whole server part. */
  lemma ParseServer(u: Parts, fields: Fields, s: string)
    requires ValidParts(u) && HOST in fields && PORT !in fields && fields[HOST].End() <= |s| < FIELD_LIMIT
    requires s[fields[HOST].off..fields[HOST].End()] == Server(u)
    ensures var h := fields[HOST].off;
            var host := h + (if u.userinfo == "" then 0 else |u.userinfo| + 1);
            ParseHost(fields, s, u.userinfo != "") ==
            Some(Place(Place(fields[HOST := Range(h, 0)], USERINFO, h, u.userinfo)[HOST := HostRange(u.host, host)],
                       PORT, host + |u.host| + 1, u.port))
  {
    hide HostScanFrom, ValidParts, HostRange;
    var h, e := fields[HOST].off, fields[HOST].End();
    var start := StartHost(fields, u.userinfo != "");
    ServerSplits(u, s, h, e);
    if u.userinfo == "" {
      ScanHostPort(u, start, s, h, e);
    } else {
      ScanUserinfo(u, start, s, h, e);
      ScanHostPort(u, HostScan(HostStart, start.fields[USERINFO := Range(h, |u.userinfo|)]),
        s, h + |u.userinfo| + 1, e);
    }
  }

  lemma ServerSplits(u: Parts, s: string, h: nat, e: nat)
    requires ValidParts(u) && h <= e <= |s| && s[h..e] == Server(u)
    ensures var m := h + (if u.userinfo == "" then 0 else |u.userinfo| + 1);
            && m < e && s[m..e] == u.host + Optional(':', u.port)
            && (u.userinfo != "" ==> s[h..h + |u.userinfo|] == u.userinfo && s[h + |u.userinfo|] == '@')
  {
    hide IsUserinfoChar, IsHostChar, IsBracketed, Numeral, Optional;
    var user := if u.userinfo == "" then "" else u.userinfo + "@";
    Regroup(user, u.host, Optional(':', u.port));
    SliceOfSum(s, h, e, user, u.host + Optional(':', u.port));
    if u.userinfo != "" {
      SliceOfSum(s, h, h + |user|, u.userinfo, "@");
      assert s[h + |u.userinfo|] == s[h + |u.userinfo|..h + |user|][0];
    }
  }

  /** The fields after the first pass, with the server part as one range. */
  function RawFields(u: Parts): Fields {
    var h := |u.schema| + 3;
    var e := h + |Server(u)|;
    PlaceTail(map[SCHEMA := Range(0, h - 3)][HOST := Range(h, e - h)], u, e)
  }

  lemma FirstPass(u: Parts)
    requires ValidParts(u) && |Assemble(u)| < FIELD_LIMIT
    ensures var r := UrlScan(StartScan(false), Assemble(u), 0, |Assemble(u)|);
            if FragmentBehindServer(u) then r == None
            else r.Some? && r.value.foundAt == (u.userinfo != "") && r.value.fields == RawFields(u)
  {
    hide UrlScan, ValidParts, Server, Tail, Place, Known;
    var s, h := Assemble(u), |u.schema| + 3;
    var e := h + |Server(u)|;
    AssembledSplits(u);
    ValidSchema(u);
    ScanSchema(u, Server(u) + Tail(u));
    var q := Scan(ServerStart, Some(SCHEMA), map[SCHEMA := Range(0, h - 3)], false);
    ScanServer(u, q, s, h);
    ScanTail(u, Scan(State.Server, Some(HOST), q.fields[HOST := Range(h, e - h)], u.userinfo != ""), s, e);
  }

  /** Parsing undoes assembling: a URL put together from a schema, a server part with or without user
      information and port, whose host is a name or an address in brackets with or without a zone, a
      path, a query and a fragment is parsed into exactly those parts, unless a
      fragment comes right behind the server part, which is refused. */
  lemma ParseOfAssembled(u: Parts)
    requires ValidParts(u) && |Assemble(u)| < FIELD_LIMIT
    ensures ParseUrl(Assemble(u), |Assemble(u)|, false) ==
            if FragmentBehindServer(u) then None else Some(Url(Placed(u), Numeral(u.port)))
  {
    hide UrlScan, ParseHost, ValidParts, Server, Assemble, Placed, RawFields, Strtoul, Numeral;
    FirstPass(u);
    if !FragmentBehindServer(u) {
      ValidSchema(u);
      AssembledSplits(u);
      RawServer(u);
      ParseServer(u, RawFields(u), Assemble(u));
      PlacedInAnyOrder(u);
      PortOfAssembled(u);
    }
  }

  lemma ValidSchema(u: Parts)
    requires ValidParts(u)
    ensures u.schema != "" && All(u.schema, IsAlpha) && u.host != ""
  {
  }

  lemma AssembledSplits(u: Parts)
    ensures var s, h := Assemble(u), |u.schema| + 3;
            var e := h + |Server(u)|;
            s == u.schema + "://" + (Server(u) + Tail(u)) && e <= |s| && s[h..e] == Server(u) && s[e..] == Tail(u)
  {
    hide Server, Optional;
    var s, head := Assemble(u), u.schema + "://";
    FiveParts(head, Server(u), u.path, Optional('?', u.query), Optional('#', u.fragment));
    SplitsInThree(s, head, Server(u), Tail(u));
  }

  lemma FiveParts(head: string, server: string, path: string, query: string, fragment: string)
    ensures head + server + path + query + fragment == head + (server + (path + query + fragment))
  {
  }

  lemma SplitsInThree(s: string, a: string, b: string, c: string)
    requires s == a + (b + c)
    ensures |a| + |b| <= |s| && s[|a|..|a| + |b|] == b && s[|a| + |b|..] == c
  {
  }

  lemma RawServer(u: Parts)
    ensures var (t, h) := (RawFields(u), |u.schema| + 3);
            PORT !in t && HOST in t && t[HOST] == Range(h, |Server(u)|) && SCHEMA in t
  {
    hide Server;
  }

  lemma PlacedInAnyOrder(u: Parts)
    requires u.schema != "" && u.host != ""
    ensures var h := |u.schema| + 3;
            var host := h + (if u.userinfo == "" then 0 else |u.userinfo| + 1);
            Place(Place(RawFields(u)[HOST := Range(h, 0)], USERINFO, h, u.userinfo)[HOST := HostRange(u.host, host)],
                  PORT, host + |u.host| + 1, u.port) == Placed(u)
  {
    hide Server, HostRange, Place, PlaceTail;
    var h, e := |u.schema| + 3, |u.schema| + 3 + |Server(u)|;
    var host := h + (if u.userinfo == "" then 0 else |u.userinfo| + 1);
    var a := map[SCHEMA := Range(0, h - 3)];
    var b := a[HOST := Range(h, e - h)];
    TailStays(b, u, e, HOST, Range(h, 0));
    TailStaysPlaced(b[HOST := Range(h, 0)], u, e, USERINFO, h, u.userinfo);
    TailStays(Place(b[HOST := Range(h, 0)], USERINFO, h, u.userinfo), u, e, HOST, HostRange(u.host, host));
    HostIsSetLast(a, Range(h, e - h), Range(h, 0), h, u.userinfo, HostRange(u.host, host));
    TailStaysPlaced(Place(a, USERINFO, h, u.userinfo)[HOST := HostRange(u.host, host)],
      u, e, PORT, host + |u.host| + 1, u.port);
    assert Place(map[], SCHEMA, 0, u.schema) == a by { FirstPlaced(u.schema); }
  }

  lemma FirstPlaced(text: string)
    requires text != ""
    ensures Place(map[], SCHEMA, 0, text) == map[SCHEMA := Range(0, |text|)]
  {
  }

  /** The parts behind the server and another field can be placed in any order. */
  lemma TailStays(fields: Fields, u: Parts, e: nat, f: Field, r: Range)
    requires f == HOST || f == USERINFO || f == PORT
    ensures PlaceTail(fields, u, e)[f := r] == PlaceTail(fields[f := r], u, e)
  {
  }

  lemma TailStaysPlaced(fields: Fields, u: Parts, e: nat, f: Field, off: nat, text: string)
    requires f == HOST || f == USERINFO || f == PORT
    ensures Place(PlaceTail(fields, u, e), f, off, text) == PlaceTail(Place(fields, f, off, text), u, e)
  {
    hide PlaceTail;
    if text != "" {
      TailStays(fields, u, e, f, Range(off, |text|));
    }
  }

  lemma HostIsSetLast(fields: Fields, first: Range, second: Range, off: nat, userinfo: string, last: Range)
    ensures Place(fields[HOST := first][HOST := second], USERINFO, off, userinfo)[HOST := last] ==
            Place(fields, USERINFO, off, userinfo)[HOST := last]
  {
  }

  lemma PortOfAssembled(u: Parts)
    requires ValidParts(u) && !FragmentBehindServer(u)
    ensures PORT in Placed(u) <==> u.port != ""
    ensures u.port == "" ==> Numeral(u.port) == 0
    ensures u.port != "" ==> Placed(u)[PORT].off <= |Assemble(u)| &&
                             Strtoul(Assemble(u), Placed(u)[PORT].off) == Numeral(u.port) <= 0xFFFF
    ensures SCHEMA in Placed(u) && HOST in Placed(u)
  {
    hide Server, Numeral, Strtoul, Tail, Assemble;
    if u.port == "" {
      EmptyNumeral();
    } else {
      PortSplits(u);
      StrtoulOfField(Assemble(u), Placed(u)[PORT].off, |u.port|);
    }
  }

  lemma EmptyNumeral()
    ensures Numeral("") == 0
  {
  }

  lemma PortSplits(u: Parts)
    requires ValidParts(u) && !FragmentBehindServer(u) && u.port != ""
    ensures var off := |u.schema| + 3 + (if u.userinfo == "" then 0 else |u.userinfo| + 1) + |u.host| + 1;
            var (s, m) := (Assemble(u), off + |u.port|);
            && m <= |s| && s[off..m] == u.port && (m == |s| || !IsDigit(s[m]))
  {
    hide Server, Tail, Assemble, ValidParts;
    AssembledSplits(u);
    var h, server := |u.schema| + 3, Server(u);
    var off := |server| - |u.port|;
    ServerEndsWithPort(u);
    var s := Assemble(u);
    assert s[h..h + |server|][off..] == s[h + off..h + |server|];
    TailStart(u);
    assert s[h + |server|..] == Tail(u);
  }

  lemma ServerEndsWithPort(u: Parts)
    requires u.port != ""
    ensures var off := (if u.userinfo == "" then 0 else |u.userinfo| + 1) + |u.host| + 1;
            off + |u.port| == |Server(u)| && Server(u)[off..] == u.port
  {
  }

  lemma TailStart(u: Parts)
    requires ValidParts(u) && !FragmentBehindServer(u)
    ensures Tail(u) == "" || !IsDigit(Tail(u)[0])
  {
  }

  /** A fragment right behind the host is refused. */
  lemma FragmentBehindHost()
    ensures ParseUrl("http://a#f", 10, false) == None
  {
    var u := Parts("http", "", "a", "", "", "", "f");
    assert Server(u) == "" + "a" + "" == "a";
    assert Assemble(u) == "http" + "://" + "a" + "" + "" + "#f" == "http://a#f";
    assert AllDigits("") && Numeral("") == 0;
    hide ParseUrl, Assemble;
    ParseOfAssembled(u);
  }
}
