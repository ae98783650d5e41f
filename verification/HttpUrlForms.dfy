/** The two other forms of a request's URL: a path with query and fragment, and the server of a CONNECT request. */
module HttpUrlForms {
  import opened Digits
  import opened HttpUrl
  import opened HttpUrlRoundTrip
  import R = HttpUrlRoundTrip
  import opened Sequences
  import opened Wrappers

  lemma PathOpens(c: char)
    ensures c == '/' || c == '*' ==> ParseUrlChar(SpacesBeforeUrl, c) == State.Path
    ensures IsUrlChar(c) ==> ParseUrlChar(State.Path, c) == State.Path
  {
  }

  /** The first pass over a path at the start. */
  lemma ScanFirst(path: string, s: string)
    requires path != "" && (path[0] == '/' || path[0] == '*') && All(path, IsUrlChar)
    requires |path| <= |s| < FIELD_LIMIT && s[..|path|] == path
    ensures var q := Scan(State.Path, Some(PATH), map[PATH := Range(0, |path|)], false);
      Known(q, |path|) && UrlScan(StartScan(false), s, 0, |s|) == UrlScan(q, s, |path|, |s|)
  {
    hide UrlScan, ParseUrlChar, IsUrlChar;
    assert forall k | 0 <= k < |path| :: s[k] == s[..|path|][k];
    PathOpens(s[0]);
    forall k | 0 < k < |path| ensures ParseUrlChar(State.Path, s[k]) == State.Path {
      PathOpens(s[k]);
    }
    ScanField(StartScan(false), s, 0, |path|, |s|, PATH, State.Path);
    assert map[][PATH := Range(0, |path|)] == map[PATH := Range(0, |path|)];
  }

  /** Parts of which only the query and the fragment matter. */
  function Behind(query: string, fragment: string): Parts {
    Parts("http", "", "h", "", "", query, fragment)
  }

  lemma BehindIsValid(query: string, fragment: string)
    requires All(query, c => IsUrlChar(c) || c == '?')
    requires All(fragment, c => IsUrlChar(c) || c == '?' || c == '#') && (fragment == "" || fragment[0] != '#')
    ensures ValidParts(Behind(query, fragment))
  {
    assert All("h", IsHostChar) && All("http", IsAlpha) && Numeral("") == 0;
  }

  lemma OnlyTail(path: string, query: string, fragment: string)
    ensures var s := path + Optional('?', query) + Optional('#', fragment);
      s[..|path|] == path && s[|path|..] == Tail(Behind(query, fragment))
  {
    hide Optional;
    var s := path + Optional('?', query) + Optional('#', fragment);
    Regroup(path, Optional('?', query), Optional('#', fragment));
    assert "" + Optional('?', query) == Optional('?', query);
  }

  lemma NoServer(fields: Fields, query: string, fragment: string, p: nat, m: nat)
    requires HOST !in fields && SCHEMA !in fields
    ensures var all := Place(Place(fields, QUERY, p, query), FRAGMENT, m, fragment);
      HOST !in all && SCHEMA !in all
  {
  }

  /** The first pass behind a path. */
  lemma ScanBehind(u: Parts, q: Scan, s: string, p: nat)
    requires ValidParts(u) && u.path == "" && p <= |s| < FIELD_LIMIT && s[p..] == Tail(u)
    requires Known(q, p) && q.state == State.Path && q.last == Some(PATH)
    ensures var m := p + if u.query == "" then 0 else |u.query| + 1;
      var r := UrlScan(q, s, p, |s|);
      r.Some? && r.value.foundAt == q.foundAt
      && r.value.fields == Place(Place(q.fields, QUERY, p + 1, u.query), FRAGMENT, m + 1, u.fragment)
  {
    hide UrlScan, Place, AfterPart, Tail, ValidParts, Known;
    TailSplits(u, s, p);
    var m := p + if u.query == "" then 0 else |u.query| + 1;
    var r := AfterPart(q, State.Query, QUERY, p + 1, u.query);
    AfterPartFields(q, State.Query, QUERY, p + 1, u.query);
    AfterPartFields(r, State.Fragment, FRAGMENT, m + 1, u.fragment);
    StepQuery(u, q, s, p, m);
    StepFragment(u, r, s, m);
  }

  /** A URL that is only a path, which starts with a slash or an asterisk, with a query and a fragment. */
  lemma ParseOfPath(path: string, query: string, fragment: string)
    requires path != "" && (path[0] == '/' || path[0] == '*') && All(path, IsUrlChar)
    requires All(query, c => IsUrlChar(c) || c == '?')
    requires All(fragment, c => IsUrlChar(c) || c == '?' || c == '#') && (fragment == "" || fragment[0] != '#')
    requires |path + Optional('?', query) + Optional('#', fragment)| < FIELD_LIMIT
    ensures var s := path + Optional('?', query) + Optional('#', fragment);
      var behind := |path| + if query == "" then 0 else |query| + 1;
      ParseUrl(s, |s|, false) == Some(Url(
        Place(Place(map[PATH := Range(0, |path|)], QUERY, |path| + 1, query), FRAGMENT, behind + 1, fragment), 0))
  {
    hide UrlScan, ParseUrlChar, Place, IsUrlChar, Optional, FieldOf, Tail, ValidParts, All, Known;
    var s := path + Optional('?', query) + Optional('#', fragment);
    OnlyTail(path, query, fragment);
    ScanFirst(path, s);
    BehindIsValid(query, fragment);
    var q := Scan(State.Path, Some(PATH), map[PATH := Range(0, |path|)], false);
    ScanBehind(Behind(query, fragment), q, s, |path|);
    NoServer(q.fields, query, fragment, |path| + 1, |path| + (if query == "" then 0 else |query| + 1) + 1);
  }

  // CONNECT

  /** The first pass over a server part alone. */
  lemma FirstPassOfServer(u: Parts)
    requires ValidParts(u) && u.path == u.query == u.fragment == "" && 0 < |R.Server(u)| < FIELD_LIMIT
    ensures var n := |R.Server(u)|;
      UrlScan(StartScan(true), R.Server(u), 0, n) ==
      Some(Scan(State.Server, Some(HOST), map[HOST := Range(0, n)], u.userinfo != ""))
  {
    hide UrlScan, ValidParts, R.Server;
    var s := R.Server(u);
    assert s[0..|s|] == s;
    ScanServer(u, StartScan(true), s, 0);
    assert map[][HOST := Range(0, |s|)] == map[HOST := Range(0, |s|)];
    EndOfScan(Scan(State.Server, Some(HOST), map[HOST := Range(0, |s|)], u.userinfo != ""), s, |s|);
  }

  /** The URL of a CONNECT request: a host and a port, and nothing else. */
  lemma ParseOfServer(u: Parts)
    requires ValidParts(u) && u.path == u.query == u.fragment == "" && |R.Server(u)| < FIELD_LIMIT
    ensures ParseUrl(R.Server(u), |R.Server(u)|, true) ==
      if u.userinfo != "" || u.port == "" then None
      else Some(Url(map[HOST := HostRange(u.host, 0), PORT := Range(|u.host| + 1, |u.port|)], Numeral(u.port)))
  {
    hide UrlScan, ParseHost, ValidParts, HostRange, Strtoul, Numeral, R.Server;
    var s := R.Server(u);
    assert u.host != "" && |s| > 0 by {
      hide *;
      NotEmpty(u);
    }
    FirstPassOfServer(u);
    var fields: Fields := map[HOST := Range(0, |s|)];
    assert s[0..|s|] == s;
    ParseServer(u, fields, s);
    PlacedServer(u, |s|);
    if u.userinfo == "" && u.port != "" {
      PortOfServer(u);
    }
  }

  lemma NotEmpty(u: Parts)
    requires ValidParts(u)
    ensures u.host != "" && |R.Server(u)| > 0 && Numeral(u.port) <= 0xFFFF
  {
    hide Numeral;
  }

  lemma PlacedServer(u: Parts, n: nat)
    ensures var host := if u.userinfo == "" then 0 else |u.userinfo| + 1;
      var fields: Fields := map[HOST := Range(0, n)];
      var all := Place(Place(fields[HOST := Range(0, 0)], USERINFO, 0, u.userinfo)[HOST := HostRange(u.host, host)],
        PORT, host + |u.host| + 1, u.port);
      && SCHEMA !in all && HOST in all && (PORT in all <==> u.port != "") && (USERINFO in all <==> u.userinfo != "")
      && (u.port != "" ==> all[PORT] == Range(host + |u.host| + 1, |u.port|))
      && (u.userinfo == "" && u.port != "" ==>
        all == map[HOST := HostRange(u.host, 0), PORT := Range(|u.host| + 1, |u.port|)])
  {
    hide HostRange;
  }

  lemma PortOfServer(u: Parts)
    requires ValidParts(u) && u.userinfo == "" && u.port != ""
    ensures |u.host| + 1 <= |R.Server(u)| && Strtoul(R.Server(u), |u.host| + 1) == Numeral(u.port) <= 0xFFFF
  {
    hide Numeral, Strtoul, IsHostChar, IsBracketed, IsUserinfoChar;
    var s, off := R.Server(u), |u.host| + 1;
    assert s == "" + u.host + ([':'] + u.port);
    assert s[off..off + |u.port|] == u.port && off + |u.port| == |s|;
    StrtoulOfField(s, off, |u.port|);
  }
}
