/**
 * The voice debate room in the browser: the participant list keyed by socket id, the
 * per-peer bookkeeping maps and their cleanup, the format check and the author test.
 */
module VoiceRoom {
  import opened Wrappers
  import opened Js
  import opened DebateModel
  import SocketServer

  /** A row of the participant list; the local user's row has socket id `'local'`. */
  datatype VoiceParticipant = VoiceParticipant(socketId: string, userId: string, username: string, isLocal: bool)

  /** An entry of `otherUsers` in the join acknowledgement. */
  datatype RemoteUser = RemoteUser(socketId: string, userId: string, username: string)

  const LocalSocket := "local"

  predicate DistinctSocketIds(ps: seq<VoiceParticipant>) {
    forall i, j :: 0 <= i < j < |ps| ==> ps[i].socketId != ps[j].socketId
  }

  predicate Listed(ps: seq<VoiceParticipant>, socketId: string) {
    exists p :: p in ps && p.socketId == socketId
  }

  /** Only voice debates are opened in this room; any other format is sent back home. */
  predicate Accepts(f: Format) {
    f == Voz
  }

  /** A debate this room opens is one the server's text room refuses to join. */
  lemma VoiceDebatesStayOutOfTextRoom(debateId: DebateId, debates: map<DebateId, Debate>, users: map<UserId, string>,
                                      caller: UserId, store: map<DebateId, seq<SocketServer.Message>>)
    requires debateId in debates && Accepts(debates[debateId].format)
    ensures SocketServer.JoinRoom(Some(debateId), debates, users, caller, store).Err?
  {
  }

  /** The local row first, then the other users (`otherUsers || []`), all marked remote. */
  function InitialParticipants(userId: string, username: string, others: Option<seq<RemoteUser>>): (ps: seq<VoiceParticipant>)
    ensures |ps| >= 1 && ps[0] == VoiceParticipant(LocalSocket, userId, username, true)
    ensures others.None? ==> |ps| == 1
    ensures others.Some? ==> |ps| == 1 + |others.value|
    ensures others.Some? ==> forall i :: 0 <= i < |others.value| ==>
      ps[i + 1] == VoiceParticipant(others.value[i].socketId, others.value[i].userId, others.value[i].username, false)
  {
    var rest := others.GetOr([]);
    [VoiceParticipant(LocalSocket, userId, username, true)]
      + seq(|rest|, i requires 0 <= i < |rest| => VoiceParticipant(rest[i].socketId, rest[i].userId, rest[i].username, false))
  }

  /** With distinct remote socket ids, none of them `'local'`, the initial list has distinct socket ids. */
  lemma InitialDistinct(userId: string, username: string, others: seq<RemoteUser>)
    requires forall i, j :: 0 <= i < j < |others| ==> others[i].socketId != others[j].socketId
    requires forall i :: 0 <= i < |others| ==> others[i].socketId != LocalSocket
    ensures DistinctSocketIds(InitialParticipants(userId, username, Some(others)))
  {
    var ps := InitialParticipants(userId, username, Some(others));
    forall i, j | 0 <= i < j < |ps| ensures ps[i].socketId != ps[j].socketId {
      if i == 0 {
        assert ps[j].socketId == others[j - 1].socketId;
      } else {
        assert ps[i].socketId == others[i - 1].socketId;
        assert ps[j].socketId == others[j - 1].socketId;
      }
    }
  }

  /** `voice_user_joined`: nothing changes when the socket id is listed; otherwise a remote row is appended. */
  function OnUserJoined(ps: seq<VoiceParticipant>, socketId: string, userId: string, username: string): (qs: seq<VoiceParticipant>)
    ensures Listed(ps, socketId) ==> qs == ps
    ensures !Listed(ps, socketId) ==> qs == ps + [VoiceParticipant(socketId, userId, username, false)]
    ensures Listed(qs, socketId)
  {
    if Listed(ps, socketId) then ps
    else
      var p := VoiceParticipant(socketId, userId, username, false);
      assert p in ps + [p];
      ps + [p]
  }

  /** `voice_user_left`: the rows with that socket id go; the others keep their order. */
  function OnUserLeft(ps: seq<VoiceParticipant>, socketId: string): (qs: seq<VoiceParticipant>)
    ensures !Listed(qs, socketId)
    ensures forall p :: p in qs <==> p in ps && p.socketId != socketId
    ensures |qs| <= |ps|
  {
    if ps == [] then []
    else if ps[0].socketId == socketId then OnUserLeft(ps[1..], socketId)
    else
      assert forall p :: p in ps <==> p == ps[0] || p in ps[1..] by {
        assert ps == [ps[0]] + ps[1..];
      }
      [ps[0]] + OnUserLeft(ps[1..], socketId)
  }

  /** A join never lists a socket id twice. */
  lemma JoinKeepsDistinct(ps: seq<VoiceParticipant>, socketId: string, userId: string, username: string)
    requires DistinctSocketIds(ps)
    ensures DistinctSocketIds(OnUserJoined(ps, socketId, userId, username))
  {
    var qs := OnUserJoined(ps, socketId, userId, username);
    if !Listed(ps, socketId) {
      forall i, j | 0 <= i < j < |qs| ensures qs[i].socketId != qs[j].socketId {
        if j == |ps| {
          assert qs[i] in ps;
        }
      }
    }
  }

  /** A leave keeps the socket ids distinct. */
  lemma {:induction false} LeaveKeepsDistinct(ps: seq<VoiceParticipant>, socketId: string)
    requires DistinctSocketIds(ps)
    ensures DistinctSocketIds(OnUserLeft(ps, socketId))
  {
    if ps != [] {
      assert DistinctSocketIds(ps[1..]);
      LeaveKeepsDistinct(ps[1..], socketId);
      if ps[0].socketId != socketId {
        var rest := OnUserLeft(ps[1..], socketId);
        assert !Listed(rest, ps[0].socketId) by {
          forall p | p in rest ensures p.socketId != ps[0].socketId {
            assert p in ps[1..];
            var k :| 0 <= k < |ps[1..]| && ps[1..][k] == p;
            assert ps[k + 1] == p;
          }
        }
        PrependKeepsDistinct(ps[0], rest);
      }
    }
  }

  lemma PrependKeepsDistinct(p: VoiceParticipant, rest: seq<VoiceParticipant>)
    requires DistinctSocketIds(rest) && !Listed(rest, p.socketId)
    ensures DistinctSocketIds([p] + rest)
  {
    var qs := [p] + rest;
    forall i, j | 0 <= i < j < |qs| ensures qs[i].socketId != qs[j].socketId {
      if i == 0 {
        assert qs[j] == rest[j - 1];
        assert rest[j - 1] in rest;
      } else {
        assert qs[i] == rest[i - 1] && qs[j] == rest[j - 1];
      }
    }
  }

  /** A user who joins and then leaves is gone, and the other rows are as before. */
  lemma JoinThenLeave(ps: seq<VoiceParticipant>, socketId: string, userId: string, username: string)
    requires !Listed(ps, socketId)
    ensures OnUserLeft(OnUserJoined(ps, socketId, userId, username), socketId) == ps
  {
    LeaveAppend(ps, VoiceParticipant(socketId, userId, username, false), socketId);
    LeaveAbsent(ps, socketId);
  }

  lemma {:induction false} LeaveAbsent(ps: seq<VoiceParticipant>, socketId: string)
    requires !Listed(ps, socketId)
    ensures OnUserLeft(ps, socketId) == ps
  {
    if ps != [] {
      assert ps[0] in ps;
      assert !Listed(ps[1..], socketId) by {
        forall p | p in ps[1..] ensures p.socketId != socketId {
          assert p in ps;
        }
      }
      LeaveAbsent(ps[1..], socketId);
    }
  }

  lemma {:induction false} LeaveAppend(ps: seq<VoiceParticipant>, p: VoiceParticipant, socketId: string)
    ensures OnUserLeft(ps + [p], socketId) == OnUserLeft(ps, socketId) + (if p.socketId == socketId then [] else [p])
  {
    if ps != [] {
      assert (ps + [p])[1..] == ps[1..] + [p];
      LeaveAppend(ps[1..], p, socketId);
    }
  }

  /** Opaque handles standing for the browser objects kept per peer. */
  datatype Handle = Handle(n: nat)

  /**
   * The refs of the voice room: socket id to peer connection, to audio element and to remote
   * stream, and the local microphone stream.
   */
  class PeerRegistry {
    var connections: map<string, Handle>
    var audio: map<string, Handle>
    var streams: map<string, Handle>
    var localStream: Option<Handle>

    /** Audio elements and remote streams exist only for peers that have a connection. */
    ghost predicate Valid()
      reads this
    {
      audio.Keys <= connections.Keys && streams.Keys <= connections.Keys
    }

    constructor()
      ensures connections == map[] && audio == map[] && streams == map[] && localStream == None
      ensures Valid()
    {
      connections := map[];
      audio := map[];
      streams := map[];
      localStream := None;
    }

    /** `closePeerConnection(socketId)`: the key leaves all three maps; every other key stays. */
    method ClosePeerConnection(socketId: string)
      modifies this
      ensures connections == old(connections) - {socketId}
      ensures audio == old(audio) - {socketId}
      ensures streams == old(streams) - {socketId}
      ensures localStream == old(localStream)
      ensures old(Valid()) ==> Valid()
    {
      if socketId in connections {
        connections := connections - {socketId};
      }
      if socketId in audio {
        audio := audio - {socketId};
      }
      streams := streams - {socketId};
    }

    /**
     * `stopAudio`: the local stream is dropped, then every peer that has a connection is
     * closed, which leaves no connection at all.
     */
    method StopAudio()
      modifies this
      ensures localStream == None
      ensures connections == map[]
      ensures audio == old(audio) - old(connections).Keys
      ensures streams == old(streams) - old(connections).Keys
      ensures old(Valid()) ==> Valid() && audio == map[] && streams == map[]
    {
      localStream := None;
      ghost var closed: set<string> := {};
      var pending := connections.Keys;
      while pending != {}
        invariant closed <= old(connections).Keys && pending == old(connections).Keys - closed
        invariant connections == old(connections) - closed
        invariant audio == old(audio) - closed
        invariant streams == old(streams) - closed
        invariant localStream == None
        decreases pending
      {
        var socketId :| socketId in pending;
        ClosePeerConnection(socketId);
        MinusOneMore(old(connections), closed, socketId);
        MinusOneMore(old(audio), closed, socketId);
        MinusOneMore(old(streams), closed, socketId);
        closed := closed + {socketId};
        pending := pending - {socketId};
      }
      assert closed == old(connections).Keys;
      MinusCovering(old(connections), closed);
      if old(Valid()) {
        MinusCovering(old(audio), closed);
        MinusCovering(old(streams), closed);
      }
    }
  }

  /** Removing the keys of `done`, then `x`, removes the keys of `done + {x}`. */
  lemma MinusOneMore<K, V>(m: map<K, V>, done: set<K>, x: K)
    ensures m - done - {x} == m - (done + {x})
  {
  }

  /** Removing a superset of a map's keys leaves the empty map. */
  lemma MinusCovering<K, V>(m: map<K, V>, keys: set<K>)
    requires m.Keys <= keys
    ensures m - keys == map[]
  {
  }

  /** `debate.author._id === user._id || debate.author === user._id`. */
  predicate IsAuthor(author: JsValue, user: JsValue) {
    StrictEquals(Prop(author, "_id"), Prop(user, "_id")) || StrictEquals(author, Prop(user, "_id"))
  }

  /** For a signed-in user with a string id, the author is the one whose `_id`, or raw reference, is that id. */
  lemma IsAuthorById(author: JsValue, user: map<string, JsValue>, u: string)
    requires "_id" in user && user["_id"] == Str(u)
    ensures IsAuthor(author, Obj(user)) <==> Prop(author, "_id") == Str(u) || author == Str(u)
  {
  }

  /**
   * As written, the test also holds when neither side has an id: a populated author without
   * `_id` and a user without `_id` compare `undefined === undefined`.
   */
  lemma IsAuthorWithoutIds(author: map<string, JsValue>, user: JsValue)
    requires "_id" !in author && Prop(user, "_id") == Undefined
    ensures IsAuthor(Obj(author), user)
  {
  }
}
