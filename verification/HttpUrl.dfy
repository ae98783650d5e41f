/** http_parser_parse_url and http_parse_host: the fields of a URL as ranges of its buffer. */
module HttpUrl {
  import opened Digits
  import opened Wrappers

  /** The states of parse_url_char; Nowhere is s_dead. */
  datatype State =
    | SpacesBeforeUrl
    | Schema
    | SchemaSlash
    | SchemaSlashSlash
    | ServerStart
    | Server
    | ServerWithAt
    | Path
    | QueryStart
    | Query
    | FragmentStart
    | Fragment
    | Nowhere

  datatype HostState =
    | UserinfoStart
    | Userinfo
    | HostStart
    | HostV6Start
    | Host
    | HostV6
    | HostV6End
    | HostV6ZoneStart
    | HostV6Zone
    | HostPortStart
    | HostPort
    | HostNowhere

  datatype Field = SCHEMA | USERINFO | HOST | PORT | PATH | QUERY | FRAGMENT

  datatype Range = Range(off: nat, len: nat) {
    predicate Contains(k: nat) { off <= k < off + len }

    function End(): nat { off + len }
  }

  predicate IsAlpha(c: char) { 'a' <= c <= 'z' || 'A' <= c <= 'Z' }

  predicate IsAlphaNum(c: char) { IsAlpha(c) || IsDigit(c) }

  predicate IsUserinfoChar(c: char) {
    IsAlphaNum(c) || c in "-_.!~*'()" || c in "%;:&=+$,"
  }

  /** normal_url_char in strict mode: the visible ASCII characters but for the two delimiters. */
  predicate IsUrlChar(c: char) { '!' <= c <= '~' && c != '#' && c != '?' }

  predicate IsHostChar(c: char) { IsAlphaNum(c) || c == '.' || c == '-' }

  /** The table normal_url_char in strict mode: eight characters for each number, the lowest bit first. All others have
      no bits. */
  const NORMAL_URL_CHAR: seq<nat> := [0, 0, 0, 0, 246, 255, 255, 127, 255, 255, 255, 255, 255, 255, 255, 127]

  predicate BitAt(table: seq<nat>, i: nat) {
    i / 8 < |table| && table[i / 8] / [1, 2, 4, 8, 16, 32, 64, 128][i % 8] % 2 == 1
  }

  lemma FullRow(j: nat)
    requires j < 8
    ensures 255 / [1, 2, 4, 8, 16, 32, 64, 128][j] % 2 == 1
    ensures 127 / [1, 2, 4, 8, 16, 32, 64, 128][j] % 2 == 1 <==> j != 7
    ensures 246 / [1, 2, 4, 8, 16, 32, 64, 128][j] % 2 == 1 <==> j != 0 && j != 3
    ensures 0 / [1, 2, 4, 8, 16, 32, 64, 128][j] % 2 == 0
  {
    var p := [1, 2, 4, 8, 16, 32, 64, 128];
    assert p[0] == 1 && p[1] == 2 && p[2] == 4 && p[3] == 8 && p[4] == 16 && p[5] == 32 && p[6] == 64 && p[7] == 128;
    assert j == 0 || j == 1 || j == 2 || j == 3 || j == 4 || j == 5 || j == 6 || j == 7;
  }

  /** The characters of a path are those of the table. */
  lemma UrlCharsAreTable(c: char)
    ensures IsUrlChar(c) <==> BitAt(NORMAL_URL_CHAR, c as int)
  {
    FullRow(c as int % 8);
    assert c as int == c as int / 8 * 8 + c as int % 8;
    assert '#' as int == 35 && '?' as int == 63;
  }

  /** The other kinds of characters, by their ASCII codes. */
  lemma CharacterKinds(c: char)
    ensures var n := c as int;
      var alphaNum := 0x30 <= n <= 0x39 || 0x41 <= n <= 0x5A || 0x61 <= n <= 0x7A;
      && (IsHostChar(c) <==> alphaNum || n == 0x2E || n == 0x2D)
      && (IsUserinfoChar(c) <==> alphaNum || c in "-_.!~*'()%;:&=+$,")
      && (IsAlpha(c) <==> alphaNum && n >= 0x41)
  {
    var marks, signs := "-_.!~*'()", "%;:&=+$,";
    assert "-_.!~*'()%;:&=+$," == marks + signs;
  }

  /** parse_url_char, in strict mode. */
  function ParseUrlChar(s: State, c: char): State {
    if c == ' ' || c == '\r' || c == '\n' || c == '\t' || c == '\U{C}' then Nowhere
    else match s
      case SpacesBeforeUrl =>
        if c == '/' || c == '*' then Path else if IsAlpha(c) then Schema else Nowhere
      case Schema => if IsAlpha(c) then Schema else if c == ':' then SchemaSlash else Nowhere
      case SchemaSlash => if c == '/' then SchemaSlashSlash else Nowhere
      case SchemaSlashSlash => if c == '/' then ServerStart else Nowhere
      case ServerWithAt => if c == '@' then Nowhere else ServerChar(c)
      case ServerStart => ServerChar(c)
      case Server => ServerChar(c)
      case Path =>
        if IsUrlChar(c) then Path else if c == '?' then QueryStart else if c == '#' then FragmentStart else Nowhere
      case QueryStart => QueryChar(c)
      case Query => QueryChar(c)
      case FragmentStart =>
        if IsUrlChar(c) || c == '?' then Fragment else if c == '#' then FragmentStart else Nowhere
      case Fragment => if IsUrlChar(c) || c == '?' || c == '#' then Fragment else Nowhere
      case Nowhere => Nowhere
  }

  function ServerChar(c: char): State {
    if c == '/' then Path
    else if c == '?' then QueryStart
    else if c == '@' then ServerWithAt
    else if IsUserinfoChar(c) || c == '[' || c == ']' then Server
    else Nowhere
  }

  function QueryChar(c: char): State {
    if IsUrlChar(c) || c == '?' then Query else if c == '#' then FragmentStart else Nowhere
  }

  /** The field a state belongs to; a state of a delimiter has none. */
  function FieldOf(s: State): Option<Field> {
    match s
    case Schema => Some(SCHEMA)
    case Server => Some(HOST)
    case ServerWithAt => Some(HOST)
    case Path => Some(PATH)
    case Query => Some(QUERY)
    case Fragment => Some(FRAGMENT)
    case _ => None
  }

  /** http_parse_host_char. */
  function ParseHostChar(s: HostState, c: char): HostState {
    match s
    case Userinfo => UserinfoChar(c)
    case UserinfoStart => UserinfoChar(c)
    case HostStart => if c == '[' then HostV6Start else if IsHostChar(c) then Host else HostNowhere
    case Host => if IsHostChar(c) then Host else if c == ':' then HostPortStart else HostNowhere
    case HostV6End => if c == ':' then HostPortStart else HostNowhere
    case HostV6 =>
      if c == ']' then HostV6End
      else if HexValue(c) >= 0 || c == ':' || c == '.' then HostV6
      else if c == '%' then HostV6ZoneStart
      else HostNowhere
    case HostV6Start => if HexValue(c) >= 0 || c == ':' || c == '.' then HostV6 else HostNowhere
    case HostV6Zone => if c == ']' then HostV6End else ZoneChar(c)
    case HostV6ZoneStart => ZoneChar(c)
    case HostPort => if IsDigit(c) then HostPort else HostNowhere
    case HostPortStart => if IsDigit(c) then HostPort else HostNowhere
    case HostNowhere => HostNowhere
  }

  function UserinfoChar(c: char): HostState {
    if c == '@' then HostStart else if IsUserinfoChar(c) then Userinfo else HostNowhere
  }

  function ZoneChar(c: char): HostState {
    if IsAlphaNum(c) || c in "%.-_~" then HostV6Zone else HostNowhere
  }

  type Fields = map<Field, Range>

  /** Offsets and lengths are kept in 16 bits. */
  const FIELD_LIMIT := 0x1_0000

  function Wrap(n: nat): nat { n % FIELD_LIMIT }

  predicate Bounded(u: Fields, n: nat) {
    forall f | f in u :: u[f].End() <= n
  }

  /** A field that starts at position p. */
  function Open(u: Fields, f: Field, p: nat): Fields {
    u[f := Range(Wrap(p), 1)]
  }

  /** A field that goes on for one byte. */
  function Extend(u: Fields, f: Field): Fields
    requires f in u
  {
    u[f := Range(u[f].off, Wrap(u[f].len + 1))]
  }

  /** The loop of http_parser_parse_url between two bytes: the state, the field of the last byte that
      had one, the fields, and whether an at sign was seen in the server part. */
  datatype Scan = Scan(state: State, last: Option<Field>, fields: Fields, foundAt: bool)

  predicate Known(q: Scan, p: nat) {
    Bounded(q.fields, p) && PORT !in q.fields && (q.last.Some? ==> q.last.value in q.fields)
  }

  /** One byte at position p; None is the error return. */
  function UrlByte(q: Scan, p: nat, c: char): (r: Option<Scan>)
    requires Known(q, p)
    ensures r.Some? ==> Known(r.value, p + 1)
  {
    var s := ParseUrlChar(q.state, c);
    if s == Nowhere then None
    else match FieldOf(s)
      case None => Some(q.(state := s))
      case Some(f) =>
        var fields := if q.last == Some(f) then Extend(q.fields, f) else Open(q.fields, f, p);
        Some(Scan(s, Some(f), fields, q.foundAt || s == ServerWithAt))
  }

  function UrlScan(q: Scan, s: string, p: nat, n: nat): (r: Option<Scan>)
    requires p <= n <= |s| && Known(q, p)
    ensures r.Some? ==> Known(r.value, n)
    decreases n - p
  {
    if p == n then Some(q)
    else match UrlByte(q, p, s[p])
      case None => None
      case Some(next) => UrlScan(next, s, p + 1, n)
  }

  /** The field a host state adds its byte to. */
  function HostFieldOf(s: HostState): Option<Field> {
    match s
    case Userinfo => Some(USERINFO)
    case Host => Some(HOST)
    case HostV6 => Some(HOST)
    case HostV6ZoneStart => Some(HOST)
    case HostV6Zone => Some(HOST)
    case HostPort => Some(PORT)
    case _ => None
  }

  datatype HostScan = HostScan(state: HostState, fields: Fields)

  predicate HostKnown(q: HostScan) {
    && HOST in q.fields
    && (q.state == Userinfo ==> USERINFO in q.fields)
    && (q.state == HostPort ==> PORT in q.fields)
  }

  predicate PortWithin(u: Fields, n: nat) {
    PORT in u ==> u[PORT].off <= n
  }

  /** One byte of http_parse_host. The zone of an address goes on in the host field. */
  function HostByte(q: HostScan, p: nat, c: char): (r: Option<HostScan>)
    requires HostKnown(q)
    ensures r.Some? ==> HostKnown(r.value)
    ensures r.Some? && PortWithin(q.fields, p) ==> PortWithin(r.value.fields, p + 1)
  {
    var s := ParseHostChar(q.state, c);
    if s == HostNowhere then None
    else match HostFieldOf(s)
      case None => Some(q.(state := s))
      case Some(f) =>
        var begun := if q.state == s || s == HostV6ZoneStart || s == HostV6Zone then q.fields
                      else q.fields[f := Range(Wrap(p), 0)];
        Some(HostScan(s, Extend(begun, f)))
  }

  function HostScanFrom(q: HostScan, s: string, p: nat, e: nat): (r: Option<HostScan>)
    requires e <= |s| && HostKnown(q)
    ensures r.Some? && p <= e && PortWithin(q.fields, p) ==> PortWithin(r.value.fields, e)
    decreases e - p
  {
    if p >= e then Some(q)
    else match HostByte(q, p, s[p])
      case None => None
      case Some(next) => HostScanFrom(next, s, p + 1, e)
  }

  function StartHost(u: Fields, foundAt: bool): HostScan
    requires HOST in u
  {
    HostScan(if foundAt then UserinfoStart else HostStart, u[HOST := Range(u[HOST].off, 0)])
  }

  /** http_parse_host on the range the first pass gave to the server part. */
  function ParseHost(u: Fields, s: string, foundAt: bool): (r: Option<Fields>)
    requires HOST in u && PORT !in u && u[HOST].End() <= |s|
    ensures r.Some? && PORT in r.value ==> r.value[PORT].off <= |s|
  {
    var start := StartHost(u, foundAt);
    match HostScanFrom(start, s, u[HOST].off, u[HOST].End())
    case None => None
    case Some(q) => if q.state in {Host, HostV6End, HostPort} then Some(q.fields) else None
  }

  /** strtoul reads every digit from its start on, and does not know where the buffer ends. */
  function Strtoul(memory: string, off: nat): nat
    requires off <= |memory|
  {
    DigitRunIsDigits(memory[off..]);
    Numeral(memory[off..][..DigitRun(memory[off..])])
  }

  datatype Url = Url(fields: Fields, port: nat)

  function StartScan(isConnect: bool): Scan {
    Scan(if isConnect then ServerStart else SpacesBeforeUrl, None, map[], false)
  }

  /** http_parser_parse_url on the first n bytes of a memory; None is the error return. */
  function ParseUrl(memory: string, n: nat, isConnect: bool): Option<Url>
    requires n <= |memory|
  {
    match UrlScan(StartScan(isConnect), memory, 0, n)
    case None => None
    case Some(q) =>
      if SCHEMA in q.fields && HOST !in q.fields then None
      else if HOST !in q.fields then (if isConnect then None else Some(Url(q.fields, 0)))
      else match ParseHost(q.fields, memory, q.foundAt)
        case None => None
        case Some(u) =>
          if isConnect && u.Keys != {HOST, PORT} then None
          else if PORT !in u then Some(Url(u, 0))
          else
            var v := Strtoul(memory, u[PORT].off);
            if v > 0xFFFF then None else Some(Url(u, v))
  }
}
