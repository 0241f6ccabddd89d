/**
 * The text debate room in the browser: the message list, the set of users shown as typing,
 * the input box and its send guard, and how this client view relates to the server's history.
 */
module DebateRoom {
  import opened Wrappers
  import opened Text
  import opened DebateModel
  import opened SocketServer

  datatype RoomState = RoomState(messages: seq<Message>, input: string, typing: set<UserId>)

  const Entered := RoomState([], "", {})

  /** Only text debates are opened in this room; any other format is sent back home. */
  predicate Accepts(f: Format) {
    f == Texto
  }

  /** The client turns away exactly the debates whose format the server's `join_room` refuses. */
  lemma AcceptsAgreesWithServer(debateId: DebateId, debates: map<DebateId, Debate>, users: map<UserId, string>,
                                caller: UserId, store: map<DebateId, seq<Message>>)
    requires debateId != "" && debateId in debates && debates[debateId].status != Cerrado
    ensures !Accepts(debates[debateId].format) <==> JoinRoom(Some(debateId), debates, users, caller, store) == Err(UnsupportedFormat)
  {
    JoinRoomChecksInOrder(Some(debateId), debates, users, caller, store);
  }

  /** The join acknowledgement: the history replaces the messages only when it is an array. */
  function OnHistory(s: RoomState, history: Option<seq<Message>>): (t: RoomState)
    ensures history.Some? ==> t.messages == history.value
    ensures history.None? ==> t.messages == s.messages
    ensures t.input == s.input && t.typing == s.typing
  {
    match history
    case Some(h) => s.(messages := h)
    case None => s
  }

  /** A `message` event: the message goes after every message already shown. */
  function OnMessage(s: RoomState, m: Message): (t: RoomState)
    ensures |t.messages| == |s.messages| + 1 && t.messages[..|s.messages|] == s.messages
    ensures t.messages[|s.messages|] == m
    ensures t.input == s.input && t.typing == s.typing
  {
    s.(messages := s.messages + [m])
  }

  /** A `typing` event: the user joins the set when typing and leaves it otherwise. */
  function OnTyping(s: RoomState, userId: UserId, typing: bool): (t: RoomState)
    ensures typing ==> userId in t.typing
    ensures !typing ==> userId !in t.typing
    ensures forall u :: u != userId ==> (u in t.typing <==> u in s.typing)
    ensures t.messages == s.messages && t.input == s.input
  {
    if typing then s.(typing := s.typing + {userId}) else s.(typing := s.typing - {userId})
  }

  /** Reporting the same typing state twice is the same as reporting it once. */
  lemma OnTypingIdempotent(s: RoomState, userId: UserId, typing: bool)
    ensures OnTyping(OnTyping(s, userId, typing), userId, typing) == OnTyping(s, userId, typing)
  {
  }

  /** "Someone is typing" is shown while the set is non-empty. */
  predicate TypingIndicatorShown(s: RoomState) {
    |s.typing| > 0
  }

  /** The indicator shows after a typing report and clears when the only typist stops. */
  lemma TypingIndicatorFollowsEvents(s: RoomState, userId: UserId)
    ensures TypingIndicatorShown(OnTyping(s, userId, true))
    ensures s.typing <= {userId} ==> !TypingIndicatorShown(OnTyping(s, userId, false))
  {
    var t := OnTyping(s, userId, false);
    if s.typing <= {userId} {
      assert t.typing == {};
    }
  }

  /**
   * `handleSend`: blank input sends nothing and stays; otherwise the trimmed text is sent
   * and the input cleared.
   */
  function HandleSend(s: RoomState): (r: (RoomState, Option<string>))
    ensures Trim(s.input) == "" <==> r.1 == None
    ensures r.1 == None ==> r.0 == s
    ensures r.1.Some? ==> r.1.value == Trim(s.input) && r.0 == s.(input := "")
  {
    var txt := Trim(s.input);
    if txt == "" then (s, None) else (s.(input := ""), Some(txt))
  }

  /** Whatever the client sends passes the server's content guard unchanged. */
  lemma SentTextPassesContentGuard(s: RoomState, debateId: DebateId, debates: map<DebateId, Debate>,
                                   users: map<UserId, string>, caller: UserId, now: int)
    requires debateId != "" && HandleSend(s).1.Some?
    ensures var txt := HandleSend(s).1.value;
      var r := CheckMessage(Some(debateId), Some(txt), debates, users, caller, now);
      r != Err(InvalidMessage) && (r.Ok? ==> r.value.content == txt)
  {
    TrimIdempotent(s.input);
  }

  /** The server's history after a sequence of accepted messages, pushed one by one. */
  function PushAll(h: seq<Message>, ms: seq<Message>): seq<Message>
    decreases |ms|
  {
    if |ms| == 0 then h else Pushed(PushAll(h, ms[..|ms| - 1]), ms[|ms| - 1])
  }

  /**
   * A client that loaded history `h` and then received messages `ms` holds, as its last
   * entries, exactly what the server now keeps: the newest `min(500, |h| + |ms|)` of them.
   */
  lemma {:induction false} PushAllIsNewestSuffix(h: seq<Message>, ms: seq<Message>)
    requires |h| <= HistoryLimit
    ensures |PushAll(h, ms)| == Min(|h| + |ms|, HistoryLimit)
    ensures PushAll(h, ms) == (h + ms)[|h| + |ms| - |PushAll(h, ms)|..]
    decreases |ms|
  {
    if |ms| > 0 {
      var init := ms[..|ms| - 1];
      var m := ms[|ms| - 1];
      var prev := PushAll(h, init);
      assert PushAll(h, ms) == Pushed(prev, m);
      PushAllIsNewestSuffix(h, init);
      PushStep(h, init, m, prev);
      LastSplit(h, ms);
    } else {
      assert h + ms == h;
    }
  }

  function Min(a: int, b: int): int {
    if a < b then a else b
  }

  /** One push past the newest-suffix property of the messages before it. */
  lemma PushStep(h: seq<Message>, init: seq<Message>, m: Message, prev: seq<Message>)
    requires |prev| <= HistoryLimit && |prev| <= |h| + |init|
    requires prev == (h + init)[|h| + |init| - |prev|..]
    requires |prev| == Min(|h| + |init|, HistoryLimit)
    ensures |Pushed(prev, m)| == Min(|h| + |init| + 1, HistoryLimit)
    ensures Pushed(prev, m) == (h + init + [m])[|h| + |init| + 1 - |Pushed(prev, m)|..]
  {
    var r := Pushed(prev, m);
    StepSuffix(h + init, m, prev, r, |h| + |init| - |prev|, |prev| + 1 - |r|);
  }

  lemma LastSplit<T>(h: seq<T>, ms: seq<T>)
    requires |ms| > 0
    ensures h + ms == h + ms[..|ms| - 1] + [ms[|ms| - 1]]
  {
    assert ms == ms[..|ms| - 1] + [ms[|ms| - 1]];
  }

  /** A suffix of `prev + [m]`, where `prev` is a suffix of `s`, is a suffix of `s + [m]`. */
  lemma StepSuffix<T>(s: seq<T>, m: T, prev: seq<T>, r: seq<T>, a: nat, b: nat)
    requires a <= |s| && prev == s[a..]
    requires b <= |prev| + 1 && r == (prev + [m])[b..]
    ensures r == (s + [m])[a + b..]
  {
    assert prev + [m] == (s + [m])[a..];
  }

  /** A client that joins and then receives every accepted message shows the server's history as its tail. */
  lemma ClientEndsWithServerHistory(s: RoomState, h: seq<Message>, ms: seq<Message>)
    requires |h| <= HistoryLimit
    ensures var c := Receive(OnHistory(s, Some(h)), ms).messages;
      var r := PushAll(h, ms);
      |r| <= |c| && c[|c| - |r|..] == r
  {
    ReceiveAppends(OnHistory(s, Some(h)), ms);
    PushAllIsNewestSuffix(h, ms);
  }

  /** Several `message` events in a row. */
  function Receive(s: RoomState, ms: seq<Message>): RoomState
    decreases |ms|
  {
    if |ms| == 0 then s else OnMessage(Receive(s, ms[..|ms| - 1]), ms[|ms| - 1])
  }

  lemma {:induction false} ReceiveAppends(s: RoomState, ms: seq<Message>)
    ensures Receive(s, ms).messages == s.messages + ms
    decreases |ms|
  {
    if |ms| > 0 {
      ReceiveAppends(s, ms[..|ms| - 1]);
      assert s.messages + ms == s.messages + ms[..|ms| - 1] + [ms[|ms| - 1]];
    }
  }
}
