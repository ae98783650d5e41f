/** What becomes of a socket that was handed over with a finished request: a worker sends the response, in as many
    pieces as it takes, and closes the socket. */
module HttpRespond {
  import opened Sequences
  import opened Wrappers

  const LIMIT := 15

  /** A call of send: the clock before it, its result, and whether errno says behind it that it is to be tried again.
      A call without an error leaves errno as it was. */
  datatype Send = Send(now: int, len: int, tryAgain: bool)

  /** A task that sends the rest of a response until a time. */
  datatype NextTask = NextTask(content: string, expires: int)

  predicate Expired(expires: Option<int>, now: int) {
    expires.Some? && now > expires.value
  }

  /** The characters a call can send. */
  predicate Possible(content: string, s: Send) {
    -1 <= s.len <= |content|
  }

  /** SendResponse: the next task, or None when the socket is to be closed. The first call for a response has no
      predecessor, and sets the time. */
  function SendResponse(content: string, expires: Option<int>, s: Send): (next: Option<NextTask>)
    requires Possible(content, s)
  {
    var until := if expires.None? then s.now + LIMIT else expires.value;
    if s.now > until then None
    else if 0 < s.len < |content| then Some(NextTask(content[s.len..], until))
    else if s.tryAgain then Some(NextTask(content, until))
    else None
  }

  /** What a call sends. */
  function Piece(content: string, expires: Option<int>, s: Send): (piece: string)
    requires Possible(content, s)
    ensures piece <= content
  {
    if !Expired(expires, s.now) && s.len > 0 then content[..s.len] else ""
  }

  /** The calls are possible, as long as the socket is open. */
  predicate AllPossible(content: string, expires: Option<int>, sends: seq<Send>)
    decreases |sends|
  {
    sends != [] ==>
      Possible(content, sends[0]) &&
      match SendResponse(content, expires, sends[0])
      case None => true
      case Some(next) => AllPossible(next.content, Some(next.expires), sends[1..])
  }

  /** What HttpTask::Run and the NextTasks behind it send. */
  function Sent(content: string, expires: Option<int>, sends: seq<Send>): string
    requires AllPossible(content, expires, sends)
    decreases |sends|
  {
    if sends == [] then ""
    else
      Piece(content, expires, sends[0]) +
      match SendResponse(content, expires, sends[0])
      case None => ""
      case Some(next) => Sent(next.content, Some(next.expires), sends[1..])
  }

  /** Whether the socket has been closed. */
  predicate Closes(content: string, expires: Option<int>, sends: seq<Send>)
    requires AllPossible(content, expires, sends)
    decreases |sends|
  {
    sends != [] &&
    match SendResponse(content, expires, sends[0])
    case None => true
    case Some(next) => Closes(next.content, Some(next.expires), sends[1..])
  }

  /** A call that sends all that is left. */
  predicate Completes(content: string, expires: Option<int>, s: Send) {
    !Expired(expires, s.now) && s.len == |content|
  }

  /** Something is sent behind a call that sent all that was left: errno says try again from an earlier call. */
  predicate SendsAgain(content: string, expires: Option<int>, sends: seq<Send>)
    requires AllPossible(content, expires, sends)
    decreases |sends|
  {
    sends != [] &&
    match SendResponse(content, expires, sends[0])
    case None => false
    case Some(next) =>
      if Completes(content, expires, sends[0]) then Sent(next.content, Some(next.expires), sends[1..]) != ""
      else SendsAgain(next.content, Some(next.expires), sends[1..])
  }

  /** Some call sends all that is left. */
  predicate Finishes(content: string, expires: Option<int>, sends: seq<Send>)
    requires AllPossible(content, expires, sends)
    decreases |sends|
  {
    sends != [] &&
    (Completes(content, expires, sends[0]) ||
    match SendResponse(content, expires, sends[0])
    case None => false
    case Some(next) => Finishes(next.content, Some(next.expires), sends[1..]))
  }

  lemma PrefixBehind(a: string, b: string, c: string)
    ensures a + b <= a + c <==> b <= c
    ensures a + b == a + c <==> b == c
  {
    SameBehind(a, b, c);
    if |b| <= |c| {
      assert (a + c)[..|a + b|] == a + c[..|b|];
      SameBehind(a, b, c[..|b|]);
    }
  }

  /** What a call does to the response that is left. */
  lemma OneCall(content: string, expires: Option<int>, s: Send)
    requires content != "" && Possible(content, s)
    ensures var (piece, next) := (Piece(content, expires, s), SendResponse(content, expires, s));
      && (next.None? ==> (piece == content <==> Completes(content, expires, s)))
      && (next.Some? && Completes(content, expires, s) ==> piece == next.value.content == content)
      && (next.Some? && !Completes(content, expires, s) ==>
            content == piece + next.value.content && next.value.content != "")
  {
  }

  /** What is sent is a part of the response from its start exactly when nothing is sent again, and then it is the whole
      response exactly when some call sends all that is left. */
  lemma {:induction false} DeliveredOnce(content: string, expires: Option<int>, sends: seq<Send>)
    requires content != "" && AllPossible(content, expires, sends)
    ensures Sent(content, expires, sends) <= content <==> !SendsAgain(content, expires, sends)
    ensures Sent(content, expires, sends) == content <==>
      Finishes(content, expires, sends) && !SendsAgain(content, expires, sends)
    decreases |sends|
  {
    hide Piece, SendResponse, Completes, Possible;
    if sends != [] {
      var s, next := sends[0], SendResponse(content, expires, sends[0]);
      var piece := Piece(content, expires, s);
      OneCall(content, expires, s);
      assert piece + "" == piece;
      if next.Some? {
        var rest := Sent(next.value.content, Some(next.value.expires), sends[1..]);
        if Completes(content, expires, s) {
          PrefixBehind(content, rest, "");
        } else {
          DeliveredOnce(next.value.content, Some(next.value.expires), sends[1..]);
          PrefixBehind(piece, rest, next.value.content);
        }
      }
    }
  }

  /** The socket is closed at the latest by a call whose time is over, 15 seconds behind the first one. */
  lemma {:induction false} ClosesInTime(content: string, expires: Option<int>, sends: seq<Send>, k: nat)
    requires AllPossible(content, expires, sends) && k < |sends|
    requires sends[k].now > if expires.Some? then expires.value else sends[0].now + 15
    ensures Closes(content, expires, sends)
    decreases |sends|
  {
    var next := SendResponse(content, expires, sends[0]);
    if next.Some? {
      ClosesInTime(next.value.content, Some(next.value.expires), sends[1..], k - 1);
    }
  }

  /** Until then it stays open as long as errno says try again. */
  lemma {:induction false} StaysOpen(content: string, expires: Option<int>, sends: seq<Send>)
    requires AllPossible(content, expires, sends)
    requires forall k | 0 <= k < |sends| :: sends[k].tryAgain
    requires forall k | 0 <= k < |sends| :: sends[k].now <= if expires.Some? then expires.value else sends[0].now + 15
    ensures !Closes(content, expires, sends)
    decreases |sends|
  {
    if sends != [] {
      var next := SendResponse(content, expires, sends[0]);
      StaysOpen(next.value.content, Some(next.value.expires), sends[1..]);
    }
  }

  /** It is closed behind a call that sends all that is left or nothing, without an errno that says try again. */
  lemma ClosesAtEnd(content: string, expires: Option<int>, s: Send, rest: seq<Send>)
    requires Possible(content, s) && !s.tryAgain && (s.len <= 0 || s.len == |content|)
    ensures AllPossible(content, expires, [s] + rest) && Closes(content, expires, [s] + rest)
  {
    hide Possible;
  }

  /** A response of two characters, sent with one call whose errno is that of an earlier one, is sent twice. */
  lemma StaleError()
    ensures var sends := [Send(0, 2, true), Send(0, 2, false)];
      AllPossible("ab", None, sends) && Sent("ab", None, sends) == "abab" && Closes("ab", None, sends)
  {
    var sends := [Send(0, 2, true), Send(0, 2, false)];
    assert sends[1..] == [Send(0, 2, false)] && "ab"[..2] == "ab";
    assert Sent("ab", Some(LIMIT), sends[1..]) == "ab" + "";
  }
}
