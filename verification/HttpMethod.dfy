/** The method matcher of http_parser_execute: s_start_req and s_req_method. */
module HttpMethod {
  import opened Wrappers

  /** HTTP_MAX of the method table: methods are the numbers 0 to 32. */
  const METHODS := 33

  type Method = m: nat | m < METHODS

  const DELETE: Method := 0
  const GET: Method := 1
  const HEAD: Method := 2
  const POST: Method := 3
  const PUT: Method := 4
  const CONNECT: Method := 5
  const OPTIONS: Method := 6
  const TRACE: Method := 7
  const COPY: Method := 8
  const LOCK: Method := 9
  const MKCOL: Method := 10
  const MOVE: Method := 11
  const PROPFIND: Method := 12
  const PROPPATCH: Method := 13
  const SEARCH: Method := 14
  const UNLOCK: Method := 15
  const BIND: Method := 16
  const REBIND: Method := 17
  const UNBIND: Method := 18
  const ACL: Method := 19
  const REPORT: Method := 20
  const MKACTIVITY: Method := 21
  const CHECKOUT: Method := 22
  const MERGE: Method := 23
  const MSEARCH: Method := 24
  const NOTIFY: Method := 25
  const SUBSCRIBE: Method := 26
  const UNSUBSCRIBE: Method := 27
  const PATCH: Method := 28
  const PURGE: Method := 29
  const MKCALENDAR: Method := 30
  const LINK: Method := 31
  const UNLINK: Method := 32

  /** method_strings. */
  function Name(m: Method): string {
    match m
    case 0 => "DELETE"
    case 1 => "GET"
    case 2 => "HEAD"
    case 3 => "POST"
    case 4 => "PUT"
    case 5 => "CONNECT"
    case 6 => "OPTIONS"
    case 7 => "TRACE"
    case 8 => "COPY"
    case 9 => "LOCK"
    case 10 => "MKCOL"
    case 11 => "MOVE"
    case 12 => "PROPFIND"
    case 13 => "PROPPATCH"
    case 14 => "SEARCH"
    case 15 => "UNLOCK"
    case 16 => "BIND"
    case 17 => "REBIND"
    case 18 => "UNBIND"
    case 19 => "ACL"
    case 20 => "REPORT"
    case 21 => "MKACTIVITY"
    case 22 => "CHECKOUT"
    case 23 => "MERGE"
    case 24 => "M-SEARCH"
    case 25 => "NOTIFY"
    case 26 => "SUBSCRIBE"
    case 27 => "UNSUBSCRIBE"
    case 28 => "PATCH"
    case 29 => "PURGE"
    case 30 => "MKCALENDAR"
    case 31 => "LINK"
    case _ => "UNLINK"
  }

  // The names, one by one

  lemma BasicNames()
    ensures Name(DELETE) == "DELETE" && Name(GET) == "GET" && Name(HEAD) == "HEAD" && Name(POST) == "POST"
    ensures Name(PUT) == "PUT" && Name(CONNECT) == "CONNECT" && Name(OPTIONS) == "OPTIONS"
    ensures Name(TRACE) == "TRACE"
  {
  }

  lemma WebDavNames()
    ensures Name(COPY) == "COPY" && Name(LOCK) == "LOCK" && Name(MKCOL) == "MKCOL" && Name(MOVE) == "MOVE"
    ensures Name(PROPFIND) == "PROPFIND" && Name(PROPPATCH) == "PROPPATCH" && Name(SEARCH) == "SEARCH"
    ensures Name(UNLOCK) == "UNLOCK" && Name(BIND) == "BIND" && Name(REBIND) == "REBIND"
    ensures Name(UNBIND) == "UNBIND"
  {
  }

  lemma VersioningNames()
    ensures Name(ACL) == "ACL" && Name(REPORT) == "REPORT" && Name(MKACTIVITY) == "MKACTIVITY"
    ensures Name(CHECKOUT) == "CHECKOUT" && Name(MERGE) == "MERGE"
  {
  }

  lemma OtherNames()
    ensures Name(MSEARCH) == "M-SEARCH" && Name(NOTIFY) == "NOTIFY" && Name(SUBSCRIBE) == "SUBSCRIBE"
    ensures Name(UNSUBSCRIBE) == "UNSUBSCRIBE" && Name(PATCH) == "PATCH" && Name(PURGE) == "PURGE"
    ensures Name(MKCALENDAR) == "MKCALENDAR" && Name(LINK) == "LINK" && Name(UNLINK) == "UNLINK"
  {
  }

  datatype Matcher =
    | Matching(verb: Method, index: nat)
    | Accepted(verb: Method)
    | Rejected

  predicate IsAlpha(c: char) { 'a' <= c <= 'z' || 'A' <= c <= 'Z' }

  /** Empty lines before a request line are skipped, so a word does not begin with a line break. */
  predicate StartsLine(word: string) {
    word != "" && word[0] != '\r' && word[0] != '\n'
  }

  /** s_start_req on the first character of a word: a representative of the methods with that letter. */
  function First(c: char): Matcher {
    match c
    case 'A' => Matching(ACL, 1)
    case 'B' => Matching(BIND, 1)
    case 'C' => Matching(CONNECT, 1)
    case 'D' => Matching(DELETE, 1)
    case 'G' => Matching(GET, 1)
    case 'H' => Matching(HEAD, 1)
    case 'L' => Matching(LOCK, 1)
    case 'M' => Matching(MKCOL, 1)
    case 'N' => Matching(NOTIFY, 1)
    case 'O' => Matching(OPTIONS, 1)
    case 'P' => Matching(POST, 1)
    case 'R' => Matching(REPORT, 1)
    case 'S' => Matching(SUBSCRIBE, 1)
    case 'T' => Matching(TRACE, 1)
    case 'U' => Matching(UNLOCK, 1)
    case _ => Rejected
  }

  /** The table of method changes: a method, a position and the letter found there. */
  function Switch(m: Method, index: nat, c: char): Option<Method> {
    if m == POST && index == 1 && c == 'U' then Some(PUT)
    else if m == POST && index == 1 && c == 'A' then Some(PATCH)
    else if m == CONNECT && index == 1 && c == 'H' then Some(CHECKOUT)
    else if m == CONNECT && index == 2 && c == 'P' then Some(COPY)
    else if m == MKCOL && index == 1 && c == 'O' then Some(MOVE)
    else if m == MKCOL && index == 1 && c == 'E' then Some(MERGE)
    else if m == MKCOL && index == 2 && c == 'A' then Some(MKACTIVITY)
    else if m == MKCOL && index == 3 && c == 'A' then Some(MKCALENDAR)
    else if m == SUBSCRIBE && index == 1 && c == 'E' then Some(SEARCH)
    else if m == REPORT && index == 2 && c == 'B' then Some(REBIND)
    else if m == POST && index == 1 && c == 'R' then Some(PROPFIND)
    else if m == PROPFIND && index == 4 && c == 'P' then Some(PROPPATCH)
    else if m == PUT && index == 2 && c == 'R' then Some(PURGE)
    else if m == LOCK && index == 1 && c == 'I' then Some(LINK)
    else if m == UNLOCK && index == 2 && c == 'S' then Some(UNSUBSCRIBE)
    else if m == UNLOCK && index == 2 && c == 'B' then Some(UNBIND)
    else if m == UNLOCK && index == 3 && c == 'I' then Some(UNLINK)
    else None
  }

  /** s_req_method on one character. Behind the end of a name the source reads the terminating NUL. */
  function Next(s: Matcher, c: char): Matcher {
    if !s.Matching? || c == '\0' then Rejected
    else
      var name := Name(s.verb);
      var expected := if s.index < |name| then name[s.index] else '\0';
      if c == ' ' && expected == '\0' then Accepted(s.verb)
      else if c == expected then Matching(s.verb, s.index + 1)
      else if IsAlpha(c) then
        match Switch(s.verb, s.index, c)
        case Some(m) => Matching(m, s.index + 1)
        case None => Rejected
      else if c == '-' && s.index == 1 && s.verb == MKCOL then Matching(MSEARCH, s.index + 1)
      else Rejected
  }

  /** The matcher after a word. */
  function After(word: string): Matcher
    requires word != ""
  {
    if |word| == 1 then First(word[0]) else Next(After(word[..|word| - 1]), word[|word| - 1])
  }

  /** A matched prefix of a name. */
  predicate Prefix(m: Method, word: string) {
    word <= Name(m)
  }

  lemma SwitchKeepsPrefix(m: Method, word: string, c: char)
    requires Prefix(m, word) && Switch(m, |word|, c).Some?
    ensures Prefix(Switch(m, |word|, c).value, word + [c])
  {
    var n := Switch(m, |word|, c).value;
    assert word == Name(m)[..|word|];
    assert |word| < |Name(n)| && Name(n)[|word|] == c;
    forall k | 0 <= k < |word| ensures Name(n)[k] == word[k] {
      assert k == 0 || k == 1 || k == 2 || k == 3;
    }
  }

  lemma NextKeepsPrefix(m: Method, word: string, c: char)
    requires word != "" && Prefix(m, word) && Next(Matching(m, |word|), c).Matching?
    ensures var n := Next(Matching(m, |word|), c);
            n.index == |word| + 1 && Prefix(n.verb, word + [c])
  {
    hide Switch, Name;
    var n := Next(Matching(m, |word|), c);
    if |word| < |Name(m)| && c == Name(m)[|word|] {
      assert word + [c] == Name(m)[..|word| + 1];
    } else if IsAlpha(c) {
      SwitchKeepsPrefix(m, word, c);
    } else {
      DashKeepsPrefix(word);
    }
  }

  lemma DashKeepsPrefix(word: string)
    requires |word| == 1 && Prefix(MKCOL, word)
    ensures Prefix(MSEARCH, word + ['-'])
  {
    assert word[0] == Name(MKCOL)[0];
  }

  lemma FirstIsPrefix(c: char)
    requires First(c).Matching?
    ensures First(c).index == 1 && Prefix(First(c).verb, [c])
  {
  }

  /** At any point of a word the characters consumed are the first index characters of the name of the
      current method, whatever changes of method led there. */
  lemma {:induction false} ConsumedIsPrefix(word: string)
    requires word != "" && After(word).Matching?
    ensures After(word).index == |word| && Prefix(After(word).verb, word)
  {
    hide Switch, Name, Next, First;
    if |word| == 1 {
      FirstIsPrefix(word[0]);
      assert [word[0]] == word;
    } else {
      var init, c := word[..|word| - 1], word[|word| - 1];
      OnlyMatchingGoesOn(After(init), c);
      ConsumedIsPrefix(init);
      NextKeepsPrefix(After(init).verb, init, c);
      assert init + [c] == word;
    }
  }

  lemma OnlyMatchingGoesOn(s: Matcher, c: char)
    ensures Next(s, c) != Rejected ==> s.Matching?
    ensures Next(s, c).Accepted? ==>
      c == ' ' && Next(s, c).verb == s.verb && (s.index < |Name(s.verb)| ==> Name(s.verb)[s.index] == '\0')
  {
    hide Switch, Name;
  }

  /** The method the matcher holds after the first k characters of the name of m. */
  function Held(m: Method, k: nat): Method {
    if k == 1 then
      if m in {PUT, PATCH, PROPFIND, PROPPATCH, PURGE} then POST
      else if m in {CHECKOUT, COPY} then CONNECT
      else if m in {MOVE, MERGE, MKACTIVITY, MKCALENDAR, MSEARCH} then MKCOL
      else if m == SEARCH then SUBSCRIBE
      else if m == REBIND then REPORT
      else if m == LINK then LOCK
      else if m in {UNSUBSCRIBE, UNBIND, UNLINK} then UNLOCK
      else m
    else if k == 2 && m == COPY then CONNECT
    else if k == 2 && m in {MKACTIVITY, MKCALENDAR} then MKCOL
    else if k == 2 && m == REBIND then REPORT
    else if k == 2 && m == PURGE then PUT
    else if k == 2 && m in {UNSUBSCRIBE, UNBIND, UNLINK} then UNLOCK
    else if k == 3 && m == MKCALENDAR then MKCOL
    else if k == 3 && m == UNLINK then UNLOCK
    else if 2 <= k <= 4 && m == PROPPATCH then PROPFIND
    else m
  }

  lemma ForwardStep(m: Method, k: nat)
    requires 1 <= k < |Name(m)|
    ensures Next(Matching(Held(m, k), k), Name(m)[k]) == Matching(Held(m, k + 1), k + 1)
  {
    if Held(m, k) == m {
      NameCharacter(m, k);
      assert Held(m, k + 1) == m;
    } else {
      assert k == 1 || k == 2 || k == 3 || k == 4;
    }
  }

  lemma NameCharacter(m: Method, k: nat)
    requires 1 <= k < |Name(m)|
    ensures Name(m)[k] != '\0' && Name(m)[k] != ' '
  {
    hide Name;
    if m < 17 {
      PlainNames(m);
    } else {
      MorePlainNames(m);
    }
  }

  lemma PlainNames(m: Method)
    requires m < 17
    ensures '\0' !in Name(m) && ' ' !in Name(m)
  {
  }

  lemma MorePlainNames(m: Method)
    requires m >= 17
    ensures '\0' !in Name(m) && ' ' !in Name(m)
  {
  }

  lemma FirstStep(m: Method)
    ensures |Name(m)| >= 3 && First(Name(m)[0]) == Matching(Held(m, 1), 1)
  {
  }

  lemma HeldAtEnd(m: Method)
    ensures Held(m, |Name(m)|) == m
  {
  }

  lemma {:induction false} NameIsMatched(m: Method, k: nat)
    requires 1 <= k <= |Name(m)|
    ensures After(Name(m)[..k]) == Matching(Held(m, k), k)
  {
    hide Name, Held, Next, First;
    var word := Name(m)[..k];
    FirstStep(m);
    if k > 1 {
      NameIsMatched(m, k - 1);
      ForwardStep(m, k - 1);
      assert word[..k - 1] == Name(m)[..k - 1];
    }
  }

  /** Method recognition is exact: a word, followed by a space, is accepted as a method exactly when it
      is that method's name in the table; every other word is rejected. */
  lemma {:induction false} RecognitionIsExact(word: string, m: Method)
    requires StartsLine(word) && ' ' !in word
    ensures After(word + " ") == Accepted(m) <==> word == Name(m)
  {
    hide Name, Held, First, Switch;
    assert (word + " ")[..|word|] == word;
    if word == Name(m) {
      NameIsMatched(m, |word|);
      HeldAtEnd(m);
      assert Name(m)[..|word|] == word;
    }
    if After(word + " ") == Accepted(m) {
      OnlyMatchingGoesOn(After(word), ' ');
      ConsumedIsPrefix(word);
      if |word| < |Name(m)| {
        NameCharacter(m, |word|);
      }
    }
  }

  /** The names of the table are different, so at most one method is accepted. */
  lemma NamesDiffer(m: Method, n: Method)
    requires Name(m) == Name(n)
    ensures m == n
  {
    hide Name;
    NameIsMatched(m, |Name(m)|) by { FirstStep(m); }
    NameIsMatched(n, |Name(n)|) by { FirstStep(n); }
    HeldAtEnd(m);
    HeldAtEnd(n);
  }

  /** The parser's fields while it reads a request method. */
  class MethodMatcher {
    var started: bool
    var failed: bool
    var verb: Method
    var index: nat
    var done: bool

    constructor ()
      ensures !started && !failed && !done
    {
      started, failed, verb, index, done := false, false, DELETE, 0, false;
    }

    function Snapshot(): Matcher
      reads this
    {
      if failed then Rejected else if done then Accepted(verb) else Matching(verb, index)
    }

    /** s_start_req on a character that starts a request line. */
    method Start(c: char)
      requires !started && !failed && !done && c != '\r' && c != '\n'
      modifies this
      ensures started && Snapshot() == First(c) && !done
    {
      started := true;
      index := 1;
      match c {
        case 'A' => verb := ACL;
        case 'B' => verb := BIND;
        case 'C' => verb := CONNECT;
        case 'D' => verb := DELETE;
        case 'G' => verb := GET;
        case 'H' => verb := HEAD;
        case 'L' => verb := LOCK;
        case 'M' => verb := MKCOL;
        case 'N' => verb := NOTIFY;
        case 'O' => verb := OPTIONS;
        case 'P' => verb := POST;
        case 'R' => verb := REPORT;
        case 'S' => verb := SUBSCRIBE;
        case 'T' => verb := TRACE;
        case 'U' => verb := UNLOCK;
        case _ => failed := true;
      }
    }

    /** s_req_method on one more character. */
    method Continue(c: char)
      requires started && !failed && !done
      modifies this
      ensures started && Snapshot() == Next(old(Snapshot()), c) && !(failed && done)
    {
      hide Name;
      if c == '\0' {
        failed := true;
        return;
      }
      var name := Name(verb);
      var expected := if index < |name| then name[index] else '\0';
      if c == ' ' && expected == '\0' {
        done := true;
        return;
      }
      if c != expected {
        if IsAlpha(c) {
          var other := Switch(verb, index, c);
          if other.None? {
            failed := true;
            return;
          }
          verb := other.value;
        } else if c == '-' && index == 1 && verb == MKCOL {
          verb := MSEARCH;
        } else {
          failed := true;
          return;
        }
      }
      index := index + 1;
    }

    /** A request line up to the space behind its method. */
    method Recognize(word: string) returns (found: Option<Method>)
      requires !started && !failed && !done && StartsLine(word) && ' ' !in word
      modifies this
      ensures found.Some? ==> word == Name(found.value)
      ensures found.None? ==> forall m: Method :: word != Name(m)
    {
      hide Name, Next, First, After;
      var line := word + " ";
      Start(line[0]);
      OneCharacter(line);
      var k := 1;
      while k < |line| && !failed && !done
        invariant 1 <= k <= |line| && started
        invariant Snapshot() == After(line[..k])
        invariant !(failed && done) && (done ==> k == |line|)
      {
        assert line[..k + 1][..k] == line[..k];
        AfterNext(line[..k], line[k]);
        assert line[..k + 1] == line[..k] + [line[k]];
        OnlyMatchingGoesOn(Snapshot(), line[k]);
        Continue(line[k]);
        k := k + 1;
      }
      forall m: Method ensures After(line) == Accepted(m) <==> word == Name(m) {
        RecognitionIsExact(word, m);
      }
      if failed {
        RejectedStays(line, k);
        return None;
      }
      assert line[..|line|] == line;
      if done {
        return Some(verb);
      }
      return None;
    }
  }

  lemma OneCharacter(word: string)
    requires word != ""
    ensures After(word[..1]) == First(word[0])
  {
  }

  lemma AfterNext(word: string, c: char)
    requires word != ""
    ensures After(word + [c]) == Next(After(word), c)
  {
    assert (word + [c])[..|word|] == word;
  }

  lemma {:induction false} RejectedStays(word: string, k: nat)
    requires 1 <= k <= |word| && After(word[..k]) == Rejected
    ensures After(word) == Rejected
    decreases |word| - k
  {
    hide Next;
    if k == |word| {
      assert word[..k] == word;
    } else {
      AfterNext(word[..k], word[k]);
      OnlyMatchingGoesOn(Rejected, word[k]);
      assert word[..k + 1] == word[..k] + [word[k]];
      RejectedStays(word, k + 1);
    }
  }
}
