/**
 * The text-room side of the socket server: the Cookie-header parser and the authentication
 * step built on it, the `join_room` and `send_message` guards, and the per-debate message
 * history that `send_message` appends to.
 */
module SocketServer {
  import opened Wrappers
  import opened Text
  import opened DebateModel

  // ---------------------------------------------------------------- cookies

  /**
   * One `;`-separated part of a Cookie header: trimmed, then cut at its first `=`; the text
   * after that `=` is the value, whatever further `=` it holds, and a part without `=` has
   * the empty value.
   */
  function CookiePart(part: string): (kv: (string, string))
    ensures '=' !in kv.0
    ensures '=' in Trim(part) ==> Trim(part) == kv.0 + "=" + kv.1
    ensures '=' !in Trim(part) ==> kv.0 == Trim(part) && kv.1 == ""
  {
    var t := Trim(part);
    var pieces := Split(t, '=');
    JoinSplit(t, '=');
    assert |pieces| >= 2 ==> Join(pieces, '=') == pieces[0] + "=" + Join(pieces[1..], '=');
    (pieces[0], Join(pieces[1..], '='))
  }

  /** One step of the reduce: a part with an empty key adds nothing. */
  function AddCookie(acc: map<string, string>, part: string): map<string, string> {
    var kv := CookiePart(part);
    if kv.0 == "" then acc else acc[kv.0 := kv.1]
  }

  /** The left-to-right reduce over the parts, starting from `{}`. */
  function FoldCookies(parts: seq<string>): map<string, string>
    decreases |parts|
  {
    if parts == [] then map[] else AddCookie(FoldCookies(parts[..|parts| - 1]), parts[|parts| - 1])
  }

  /** `parseCookies(header)`. */
  function ParseCookies(header: string): map<string, string> {
    FoldCookies(Split(header, ';'))
  }

  /** Reference reading of a header: the value given to `k` by the LAST part that names it. */
  function LastBinding(parts: seq<string>, k: string): Option<string>
    decreases |parts|
  {
    if parts == [] then None
    else
      var kv := CookiePart(parts[|parts| - 1]);
      if k != "" && kv.0 == k then Some(kv.1) else LastBinding(parts[..|parts| - 1], k)
  }

  /** The reduce binds exactly the non-empty keys some part names, each to its last value. */
  lemma {:induction false} FoldIsLastBinding(parts: seq<string>, k: string)
    ensures k in FoldCookies(parts) <==> LastBinding(parts, k).Some?
    ensures k in FoldCookies(parts) ==> FoldCookies(parts)[k] == LastBinding(parts, k).value
    decreases |parts|
  {
    if parts != [] {
      FoldIsLastBinding(parts[..|parts| - 1], k);
    }
  }

  /** No part ever binds the empty key. */
  lemma {:induction false} NoEmptyKey(parts: seq<string>)
    ensures LastBinding(parts, "") == None
    decreases |parts|
  {
    if parts != [] {
      NoEmptyKey(parts[..|parts| - 1]);
    }
  }

  /** A parsed header binds `k` iff some part has key `k`, and then to the later value. */
  lemma ParseCookiesLastWins(header: string, k: string)
    ensures k in ParseCookies(header) <==> LastBinding(Split(header, ';'), k).Some?
    ensures k in ParseCookies(header) ==> ParseCookies(header)[k] == LastBinding(Split(header, ';'), k).value
    ensures "" !in ParseCookies(header)
  {
    var parts := Split(header, ';');
    FoldIsLastBinding(parts, k);
    FoldIsLastBinding(parts, "");
    NoEmptyKey(parts);
  }

  /** An empty header gives an empty map. */
  lemma EmptyHeader()
    ensures ParseCookies("") == map[]
  {
    assert Split("", ';') == [""];
    assert CookiePart("").0 == "";
  }

  datatype AuthError = NoToken | Unauthorized

  /**
   * The connection middleware: read the `token` cookie of the handshake's Cookie header
   * (absent header read as `''`) and verify it. Token verification is a parameter.
   */
  function Authenticate(cookieHeader: Option<string>, verify: string -> Option<UserId>): (r: Result<UserId, AuthError>)
    ensures r.Ok? ==> "token" in ParseCookies(cookieHeader.GetOr("")) && verify(ParseCookies(cookieHeader.GetOr(""))["token"]) == Some(r.value)
    ensures r == Err(NoToken) <==> LastBinding(Split(cookieHeader.GetOr(""), ';'), "token") in {None, Some("")}
    ensures var b := LastBinding(Split(cookieHeader.GetOr(""), ';'), "token");
      r == Err(Unauthorized) <==> b.Some? && b.value != "" && verify(b.value).None?
    ensures var b := LastBinding(Split(cookieHeader.GetOr(""), ';'), "token");
      r.Ok? <==> b.Some? && b.value != "" && verify(b.value).Some?
  {
    var cookies := ParseCookies(cookieHeader.GetOr(""));
    ParseCookiesLastWins(cookieHeader.GetOr(""), "token");
    if "token" !in cookies || cookies["token"] == "" then Err(NoToken)
    else
      match verify(cookies["token"])
      case None => Err(Unauthorized)
      case Some(u) => Ok(u)
  }

  // ---------------------------------------------------------------- participants

  /**
   * A participant entry after `populate('participants.user', 'username')`: the user record,
   * or `null` when the referenced user no longer exists. `Raw` is an unpopulated reference.
   */
  datatype UserRef = Populated(id: UserId, username: string) | Raw(id: UserId) | NullRef

  /** Populating one entry against the users collection (id to username). */
  function Populate(p: Participant, users: map<UserId, string>): UserRef {
    if p.user in users then Populated(p.user, users[p.user]) else NullRef
  }

  function PopulateAll(ps: seq<Participant>, users: map<UserId, string>): (refs: seq<UserRef>)
    ensures |refs| == |ps|
    ensures forall i :: 0 <= i < |ps| ==> refs[i] == Populate(ps[i], users)
  {
    seq(|ps|, i requires 0 <= i < |ps| => Populate(ps[i], users))
  }

  /** The id an entry is matched by: `user._id`, else `user`, else `''`. */
  function Uid(r: UserRef): string {
    match r
    case Populated(id, _) => id
    case Raw(id) => id
    case NullRef => ""
  }

  predicate IsRoomParticipant(refs: seq<UserRef>, caller: UserId) {
    exists i :: 0 <= i < |refs| && Uid(refs[i]) == caller
  }

  /** `participants.find(...)`: the first entry whose id matches. */
  function FindEntry(refs: seq<UserRef>, caller: UserId): (r: Option<UserRef>)
    ensures r.Some? <==> IsRoomParticipant(refs, caller)
    ensures r.Some? ==> Uid(r.value) == caller && r.value in refs
  {
    if refs == [] then None
    else if Uid(refs[0]) == caller then Some(refs[0])
    else
      var r := FindEntry(refs[1..], caller);
      assert IsRoomParticipant(refs, caller) ==> IsRoomParticipant(refs[1..], caller) by {
        if IsRoomParticipant(refs, caller) {
          var i :| 0 <= i < |refs| && Uid(refs[i]) == caller;
          assert refs[1..][i - 1] == refs[i];
        }
      }
      assert r.Some? ==> IsRoomParticipant(refs, caller) by {
        if r.Some? {
          var i :| 0 <= i < |refs[1..]| && Uid(refs[1..][i]) == caller;
          assert refs[i + 1] == refs[1..][i];
        }
      }
      r
  }

  /**
   * The room admits exactly the listed users whose user record still exists: an entry whose
   * user was deleted populates to `null` and matches no real id.
   */
  lemma RoomMembership(ps: seq<Participant>, users: map<UserId, string>, caller: UserId)
    requires caller != ""
    ensures IsRoomParticipant(PopulateAll(ps, users), caller)
        <==> caller in users && exists i :: 0 <= i < |ps| && ps[i].user == caller
  {
    var refs := PopulateAll(ps, users);
    if IsRoomParticipant(refs, caller) {
      var i :| 0 <= i < |refs| && Uid(refs[i]) == caller;
      assert ps[i].user == caller;
    }
    if caller in users && exists i :: 0 <= i < |ps| && ps[i].user == caller {
      var i :| 0 <= i < |ps| && ps[i].user == caller;
      assert Uid(refs[i]) == caller;
    }
  }

  // ---------------------------------------------------------------- messages

  /** A chat message as stored and broadcast; `ts` is the server clock at acceptance. */
  datatype Message = Message(userId: UserId, username: string, content: string, ts: int)

  /** How many messages of a debate are kept. */
  const HistoryLimit := 500

  /**
   * `arr.push(msg); if (arr.length > 500) arr.shift()`: the new message goes last and the
   * history keeps only the most recent entries.
   */
  function Pushed(h: seq<Message>, m: Message): (r: seq<Message>)
    ensures |r| == if |h| < HistoryLimit then |h| + 1 else |h|
    ensures r == (h + [m])[|h| + 1 - |r|..]
    ensures r[|r| - 1] == m
  {
    var arr := h + [m];
    if |arr| > HistoryLimit then arr[1..] else arr
  }

  /** Below the limit nothing is evicted; at the limit exactly the oldest entry is. */
  lemma PushedEvictsOldest(h: seq<Message>, m: Message)
    requires |h| <= HistoryLimit
    ensures |Pushed(h, m)| <= HistoryLimit
    ensures |h| < HistoryLimit ==> Pushed(h, m) == h + [m]
    ensures |h| == HistoryLimit ==> Pushed(h, m) == h[1..] + [m]
  {
    if |h| == HistoryLimit {
      assert (h + [m])[1..] == h[1..] + [m];
    }
  }

  /** `messagesStore.get(debateId) || []`. */
  function HistoryOf(store: map<DebateId, seq<Message>>, id: DebateId): seq<Message> {
    if id in store then store[id] else []
  }

  /** Every stored history is within the cap. */
  ghost predicate Capped(store: map<DebateId, seq<Message>>) {
    forall id :: id in store ==> |store[id]| <= HistoryLimit
  }

  /** The module-level store: debate id to that debate's recent messages. */
  class MessageStore {
    var histories: map<DebateId, seq<Message>>

    ghost predicate Valid()
      reads this
    {
      Capped(histories)
    }

    constructor()
      ensures histories == map[] && Valid()
    {
      histories := map[];
    }

    function History(id: DebateId): seq<Message>
      reads this
    {
      HistoryOf(histories, id)
    }

    /** Appends to one debate's history, evicting its oldest message past the limit. */
    method Append(id: DebateId, m: Message)
      modifies this
      ensures histories == old(histories)[id := Pushed(old(History(id)), m)]
      ensures forall other :: other != id ==> History(other) == old(History(other))
      ensures old(Valid()) ==> Valid()
    {
      var arr := History(id);
      arr := arr + [m];
      if |arr| > HistoryLimit {
        arr := arr[1..];
      }
      assert arr == Pushed(History(id), m);
      if old(Valid()) {
        PushedEvictsOldest(History(id), m);
      }
      histories := histories[id := arr];
    }

    /**
     * The `send_message` handler: validate, then store the accepted message. A rejected
     * message leaves every history as it was.
     */
    method SendMessage(debateId: Option<string>, content: Option<string>, debates: map<DebateId, Debate>,
                       users: map<UserId, string>, caller: UserId, now: int)
      returns (r: Result<Message, SendError>)
      modifies this
      ensures r == CheckMessage(debateId, content, debates, users, caller, now)
      ensures r.Err? ==> histories == old(histories)
      ensures r.Ok? ==> histories == old(histories)[debateId.value := Pushed(old(History(debateId.value)), r.value)]
    {
      r := CheckMessage(debateId, content, debates, users, caller, now);
      if r.Ok? {
        Append(debateId.value, r.value);
      }
    }
  }

  // ---------------------------------------------------------------- handlers

  /** A missing or empty string argument (`!x`). */
  predicate Falsy(s: Option<string>) {
    s.None? || s.value == ""
  }

  datatype JoinError =
    | DebateIdRequired
    | DebateNotFound
    | DebateClosed
    | UnsupportedFormat
    | NotAParticipant
    /** reading `p.user.id` of an entry whose user is `null` throws inside the handler */
    | MissingParticipantUser

  datatype Member = Member(id: UserId, username: string)
  datatype RoomSummary = RoomSummary(id: DebateId, title: string, mode: Mode, status: Status, participants: seq<Member>)
  datatype JoinReply = JoinReply(history: seq<Message>, debate: RoomSummary)

  /** The participants of the summary, or `None` when an entry's user is `null`. */
  function Members(refs: seq<UserRef>): (r: Option<seq<Member>>)
    ensures r.Some? <==> forall i :: 0 <= i < |refs| ==> refs[i].Populated?
    ensures r.Some? ==> |r.value| == |refs|
    ensures r.Some? ==> forall i :: 0 <= i < |refs| ==>
      refs[i].Populated? && r.value[i] == Member(refs[i].id, refs[i].username)
  {
    if refs == [] then Some([])
    else if !refs[0].Populated? then None
    else
      var rest := Members(refs[1..]);
      assert (forall i :: 0 <= i < |refs| ==> refs[i].Populated?)
         <==> (forall i :: 0 <= i < |refs[1..]| ==> refs[1..][i].Populated?) by {
        if forall i :: 0 <= i < |refs[1..]| ==> refs[1..][i].Populated? {
          forall i | 0 <= i < |refs| ensures refs[i].Populated? {
            if i > 0 { assert refs[i] == refs[1..][i - 1]; }
          }
        }
      }
      if rest.None? then None else Some([Member(refs[0].id, refs[0].username)] + rest.value)
  }

  /**
   * The `join_room` handler: debate id given, debate found, not closed, text format, caller
   * listed; the first failing check is the reply. On success the reply carries the stored
   * history (or `[]`) and a summary of the debate.
   */
  function JoinRoom(debateId: Option<string>, debates: map<DebateId, Debate>, users: map<UserId, string>,
                    caller: UserId, store: map<DebateId, seq<Message>>): (r: Result<JoinReply, JoinError>)
    ensures r.Ok? ==> !Falsy(debateId) && debateId.value in debates
    ensures r.Ok? ==> r.value.history == HistoryOf(store, debateId.value)
    ensures r.Ok? ==> r.value.debate.id == debateId.value
    ensures r.Ok? ==> |r.value.debate.participants| == |debates[debateId.value].participants|
    ensures r.Ok? ==> var d := debates[debateId.value];
      && r.value.debate.title == d.title && r.value.debate.mode == d.mode && r.value.debate.status == d.status
      && forall i :: 0 <= i < |d.participants| ==>
           d.participants[i].user in users
           && r.value.debate.participants[i] == Member(d.participants[i].user, users[d.participants[i].user])
  {
    if Falsy(debateId) then Err(DebateIdRequired)
    else if debateId.value !in debates then Err(DebateNotFound)
    else
      var d := debates[debateId.value];
      var refs := PopulateAll(d.participants, users);
      if d.status == Cerrado then Err(DebateClosed)
      else if d.format != Texto then Err(UnsupportedFormat)
      else if !IsRoomParticipant(refs, caller) then Err(NotAParticipant)
      else
        var members := Members(refs);
        if members.None? then Err(MissingParticipantUser)
        else Ok(JoinReply(HistoryOf(store, debateId.value),
                          RoomSummary(debateId.value, d.title, d.mode, d.status, members.value)))
  }

  /** The first four checks of `join_room` pass: id given, debate found, not closed, text format. */
  predicate OpenTextRoom(debateId: Option<string>, debates: map<DebateId, Debate>) {
    && !Falsy(debateId)
    && debateId.value in debates
    && debates[debateId.value].status != Cerrado
    && debates[debateId.value].format == Texto
  }

  /** The checks of `join_room` run in order and the first one that fails is reported. */
  lemma JoinRoomChecksInOrder(debateId: Option<string>, debates: map<DebateId, Debate>, users: map<UserId, string>,
                              caller: UserId, store: map<DebateId, seq<Message>>)
    ensures var r := JoinRoom(debateId, debates, users, caller, store);
      && (r == Err(DebateIdRequired) <==> Falsy(debateId))
      && (r == Err(DebateNotFound) <==> !Falsy(debateId) && debateId.value !in debates)
      && (r == Err(DebateClosed) <==>
            (!Falsy(debateId) && debateId.value in debates && debates[debateId.value].status == Cerrado))
      && (r == Err(UnsupportedFormat) <==>
            (!Falsy(debateId) && debateId.value in debates
             && debates[debateId.value].status != Cerrado && debates[debateId.value].format != Texto))
      && (r.Ok? ==>
            (!Falsy(debateId) && debateId.value in debates
             && debates[debateId.value].status in {Abierto, EnProgreso}
             && debates[debateId.value].format == Texto
             && IsRoomParticipant(PopulateAll(debates[debateId.value].participants, users), caller)))
    ensures var r := JoinRoom(debateId, debates, users, caller, store);
      && (r == Err(NotAParticipant) <==>
            OpenTextRoom(debateId, debates)
            && !IsRoomParticipant(PopulateAll(debates[debateId.value].participants, users), caller))
      && (r == Err(MissingParticipantUser) <==>
            OpenTextRoom(debateId, debates)
            && IsRoomParticipant(PopulateAll(debates[debateId.value].participants, users), caller)
            && Members(PopulateAll(debates[debateId.value].participants, users)).None?)
      && (r.Ok? <==>
            OpenTextRoom(debateId, debates)
            && IsRoomParticipant(PopulateAll(debates[debateId.value].participants, users), caller)
            && Members(PopulateAll(debates[debateId.value].participants, users)).Some?)
  {
  }

  /**
   * As written, a listed caller is still refused when another entry of the same debate refers
   * to a deleted user: building the summary reads `p.user.id` of a `null` entry. The handler
   * has already joined the socket to the room by then, so the refused caller still receives
   * the room's broadcasts; that transport side is not part of this model.
   */
  lemma JoinRoomRefusedOnDeletedUser(debateId: DebateId, d: Debate, users: map<UserId, string>, caller: UserId)
    requires debateId != "" && caller != "" && caller in users
    requires d.status != Cerrado && d.format == Texto
    requires d.participants == [Participant(caller, 0), Participant("gone", 0)] && "gone" !in users
    ensures JoinRoom(Some(debateId), map[debateId := d], users, caller, map[]) == Err(MissingParticipantUser)
  {
    var refs := PopulateAll(d.participants, users);
    assert Uid(refs[0]) == caller;
    assert !refs[1].Populated?;
  }

  datatype SendError = InvalidMessage | SendDebateNotFound | NotParticipant

  /** The name shown with a message: the entry's username, or `'Usuario'` when it has none. */
  function SenderName(entry: Option<UserRef>): string {
    if entry.Some? && entry.value.Populated? && entry.value.username != "" then entry.value.username
    else "Usuario"
  }

  /**
   * The validation part of `send_message`: arguments present and content not blank (checked
   * before any lookup), debate found, caller listed. The accepted message holds the trimmed
   * content.
   */
  function CheckMessage(debateId: Option<string>, content: Option<string>, debates: map<DebateId, Debate>,
                        users: map<UserId, string>, caller: UserId, now: int): (r: Result<Message, SendError>)
    ensures (Falsy(debateId) || Falsy(content) || Trim(content.value) == "") <==> r == Err(InvalidMessage)
    ensures r.Ok? ==> debateId.value in debates
    ensures r.Ok? ==> IsRoomParticipant(PopulateAll(debates[debateId.value].participants, users), caller)
    ensures r.Ok? ==> r.value.userId == caller && r.value.ts == now
    ensures r.Ok? ==> r.value.content == Trim(content.value) && r.value.content != ""
    ensures r.Ok? ==> Trim(r.value.content) == r.value.content
    ensures r.Ok? ==> r.value.username != ""
    ensures r == Err(SendDebateNotFound) <==>
      !(Falsy(debateId) || Falsy(content) || Trim(content.value) == "") && debateId.value !in debates
    ensures r == Err(NotParticipant) <==>
      && !(Falsy(debateId) || Falsy(content) || Trim(content.value) == "")
      && debateId.value in debates
      && !IsRoomParticipant(PopulateAll(debates[debateId.value].participants, users), caller)
    ensures r.Ok? ==>
      r.value.username == SenderName(FindEntry(PopulateAll(debates[debateId.value].participants, users), caller))
  {
    if Falsy(debateId) || Falsy(content) || Trim(content.value) == "" then Err(InvalidMessage)
    else if debateId.value !in debates then Err(SendDebateNotFound)
    else
      var refs := PopulateAll(debates[debateId.value].participants, users);
      if !IsRoomParticipant(refs, caller) then Err(NotParticipant)
      else
        TrimIdempotent(content.value);
        Ok(Message(caller, SenderName(FindEntry(refs, caller)), Trim(content.value), now))
  }

  /**
   * The sender's name is the caller's username when the users collection holds a non-empty
   * one, and `'Usuario'` otherwise; a caller whose user record is gone is never accepted.
   */
  lemma SenderIsCallersName(debateId: Option<string>, content: Option<string>, debates: map<DebateId, Debate>,
                            users: map<UserId, string>, caller: UserId, now: int)
    requires caller != ""
    requires CheckMessage(debateId, content, debates, users, caller, now).Ok?
    ensures caller in users
    ensures CheckMessage(debateId, content, debates, users, caller, now).value.username
         == (if users[caller] != "" then users[caller] else "Usuario")
  {
    var d := debates[debateId.value];
    var refs := PopulateAll(d.participants, users);
    var e := FindEntry(refs, caller).value;
    var j :| 0 <= j < |refs| && refs[j] == e;
    assert e == Populate(d.participants[j], users);
    assert e == Populated(caller, users[caller]);
  }

  /** A valid message from a listed caller of an existing debate is accepted. */
  lemma ListedCallerAccepted(debateId: DebateId, content: string, debates: map<DebateId, Debate>,
                             users: map<UserId, string>, caller: UserId, now: int)
    requires debateId != "" && Trim(content) != ""
    requires debateId in debates && IsRoomParticipant(PopulateAll(debates[debateId].participants, users), caller)
    ensures CheckMessage(Some(debateId), Some(content), debates, users, caller, now).Ok?
  {
  }

  /** A blank message is refused the same way whatever debates exist. */
  lemma BlankRefusedBeforeLookup(debateId: Option<string>, content: string, debates: map<DebateId, Debate>,
                                 users: map<UserId, string>, caller: UserId, now: int)
    requires AllSpace(content)
    ensures CheckMessage(debateId, Some(content), debates, users, caller, now) == Err(InvalidMessage)
  {
    TrimEmptyIffAllSpace(content);
  }
}
