/** http_parser_parse_url and http_parse_host as loops that update the URL structure in place. */
module HttpUrlParser {
  import opened Wrappers
  import opened HttpUrl

  /** struct http_parser_url: the fields whose bit is set, and the port. */
  class ParsedUrl {
    var fields: Fields
    var port: nat

    constructor ()
      ensures fields == map[] && port == 0
    {
      fields, port := map[], 0;
    }

    /** The loop over the bytes of the server part; 0 is success. */
    method ParseHost(memory: string, foundAt: bool) returns (rc: int)
      requires HOST in fields && PORT !in fields && fields[HOST].End() <= |memory|
      modifies `fields
      ensures rc == 0 || rc == 1
      ensures var r := HttpUrl.ParseHost(old(fields), memory, foundAt);
              (rc == 0 <==> r.Some?) && (rc == 0 ==> fields == r.value)
    {
      hide HostByte, ParseHostChar;
      ghost var start := StartHost(fields, foundAt);
      var p, end := fields[HOST].off, fields[HOST].End();
      var s := if foundAt then UserinfoStart else HostStart;
      fields := fields[HOST := Range(fields[HOST].off, 0)];
      ghost var h := p;
      while p < end
        invariant p <= end
        invariant HostKnown(HostScan(s, fields))
        invariant HostScanFrom(HostScan(s, fields), memory, p, end) == HostScanFrom(start, memory, h, end)
      {
        var t := ParseHostChar(s, memory[p]);
        if t == HostNowhere {
          assert HostByte(HostScan(s, fields), p, memory[p]) == None by {
            HostByteCases(HostScan(s, fields), p, memory[p]);
          }
          return 1;
        }
        HostByteCases(HostScan(s, fields), p, memory[p]);
        match t {
          case Host =>
            if s != Host {
              fields := fields[HOST := Range(Wrap(p), 0)];
            }
            fields := Extend(fields, HOST);
          case HostV6 =>
            if s != HostV6 {
              fields := fields[HOST := Range(Wrap(p), 0)];
            }
            fields := Extend(fields, HOST);
          case HostV6ZoneStart => fields := Extend(fields, HOST);
          case HostV6Zone => fields := Extend(fields, HOST);
          case HostPort =>
            if s != HostPort {
              fields := fields[PORT := Range(Wrap(p), 0)];
            }
            fields := Extend(fields, PORT);
          case Userinfo =>
            if s != Userinfo {
              fields := fields[USERINFO := Range(Wrap(p), 0)];
            }
            fields := Extend(fields, USERINFO);
          case _ =>
        }
        s := t;
        p := p + 1;
      }
      if s in {HostStart, HostV6Start, HostV6, HostV6ZoneStart, HostV6Zone, HostPortStart, Userinfo, UserinfoStart} {
        return 1;
      }
      NotNowhere(start, memory, h, end, HostScan(s, fields), p);
      rc := 0;
    }

    /** Parses the first n bytes of a memory; 0 is success. */
    method Parse(memory: string, n: nat, isConnect: bool) returns (rc: int)
      requires n <= |memory|
      modifies this
      ensures rc == 0 || rc == 1
      ensures var r := ParseUrl(memory, n, isConnect);
              (rc == 0 <==> r.Some?) && (rc == 0 ==> Url(fields, port) == r.value)
    {
      hide ParseUrlChar, HttpUrl.ParseHost, UrlByte, Strtoul;
      fields, port := map[], 0;
      var s := if isConnect then ServerStart else SpacesBeforeUrl;
      var last: Option<Field> := None;
      var foundAt := false;
      for p := 0 to n
        invariant Known(Scan(s, last, fields, foundAt), p)
        invariant UrlScan(Scan(s, last, fields, foundAt), memory, p, n) == UrlScan(StartScan(isConnect), memory, 0, n)
        invariant port == 0
      {
        UrlByteCases(Scan(s, last, fields, foundAt), p, memory[p]);
        s := ParseUrlChar(s, memory[p]);
        if s == Nowhere {
          return 1;
        }
        if s == ServerWithAt {
          foundAt := true;
        }
        var field := FieldOf(s);
        if field.Some? {
          if last == field {
            fields := Extend(fields, field.value);
          } else {
            fields := Open(fields, field.value, p);
            last := field;
          }
        }
      }
      if SCHEMA in fields && HOST !in fields {
        return 1;
      }
      if HOST in fields {
        rc := ParseHost(memory, foundAt);
        if rc != 0 {
          return 1;
        }
      }
      if isConnect && fields.Keys != {HOST, PORT} {
        return 1;
      }
      if PORT in fields {
        var v := Strtoul(memory, fields[PORT].off);
        if v > 0xFFFF {
          return 1;
        }
        port := v;
      }
      rc := 0;
    }
  }

  lemma HostByteCases(q: HostScan, p: nat, c: char)
    requires HostKnown(q)
    ensures var t := ParseHostChar(q.state, c);
            if t == HostNowhere then HostByte(q, p, c) == None
            else if HostFieldOf(t).None? then HostByte(q, p, c) == Some(q.(state := t))
            else
              var f := HostFieldOf(t).value;
              && (t == HostV6ZoneStart || t == HostV6Zone ==> f == HOST)
              && HostByte(q, p, c) ==
                 Some(HostScan(t, Extend(if q.state == t || t == HostV6ZoneStart || t == HostV6Zone then q.fields
                                         else q.fields[f := Range(Wrap(p), 0)], f)))
  {
    hide ParseHostChar;
  }

  lemma UrlByteCases(q: Scan, p: nat, c: char)
    requires Known(q, p)
    ensures var s := ParseUrlChar(q.state, c);
            if s == Nowhere then UrlByte(q, p, c) == None
            else match FieldOf(s)
              case None => UrlByte(q, p, c) == Some(q.(state := s))
              case Some(f) =>
                UrlByte(q, p, c) ==
                Some(Scan(s, Some(f), if q.last == Some(f) then Extend(q.fields, f) else Open(q.fields, f, p),
                          q.foundAt || s == ServerWithAt))
  {
    hide ParseUrlChar;
  }

  lemma {:induction false} NotNowhere(start: HostScan, s: string, h: nat, e: nat, q: HostScan, p: nat)
    requires HostKnown(start) && e <= |s| && HostScanFrom(start, s, h, e) == Some(q)
    requires start.state != HostNowhere
    ensures q.state != HostNowhere
    decreases e - h
  {
    hide ParseHostChar;
    if h < e {
      NotNowhere(HostByte(start, h, s[h]).value, s, h + 1, e, q, p);
    }
  }
}
