/**
 * The debate HTTP controller: create, join, leave, and the author guard of update and
 * delete. The collection is a class whose map of stored debates each handler updates in
 * place; the pure functions below specify each handler and carry its properties.
 */
module DebateController {
  import opened Wrappers
  import opened DebateModel

  datatype HttpError =
    | NotFound                    // 404
    | NotOpen                     // 400
    | AlreadyParticipant          // 400
    | Full                        // 400
    | NotParticipant              // 400
    | NotAuthor                   // 403
    | Invalid(paths: set<Path>)   // schema validation failure

  /** The HTTP status each refusal is reported with (schema failures go to the error middleware). */
  function StatusCode(e: HttpError): int {
    match e
    case NotFound => 404
    case NotAuthor => 403
    case _ => 400
  }

  /** `participants.some(p => p.user.toString() === id)`. */
  predicate Listed(ps: seq<Participant>, u: UserId) {
    exists i :: 0 <= i < |ps| && ps[i].user == u
  }

  /** No user appears twice in the participants list. */
  predicate NoDuplicateUsers(ps: seq<Participant>) {
    forall i, j :: 0 <= i < j < |ps| ==> ps[i].user != ps[j].user
  }

  /** The counter agrees with the list, and the list is within capacity and duplicate-free. */
  predicate Consistent(d: Debate) {
    && d.currentParticipants == |d.participants|
    && d.currentParticipants <= d.maxParticipants
    && NoDuplicateUsers(d.participants)
  }

  /** `participants.findIndex(p => p.user.toString() === id)`. */
  function FindIndex(ps: seq<Participant>, u: UserId): (i: int)
    ensures -1 <= i < |ps|
    ensures i == -1 <==> !Listed(ps, u)
    ensures i >= 0 ==> ps[i].user == u && forall j :: 0 <= j < i ==> ps[j].user != u
  {
    if ps == [] then -1
    else if ps[0].user == u then 0
    else
      var k := FindIndex(ps[1..], u);
      assert Listed(ps, u) ==> Listed(ps[1..], u) by {
        if Listed(ps, u) {
          var j :| 0 <= j < |ps| && ps[j].user == u;
          assert ps[1..][j - 1] == ps[j];
        }
      }
      if k == -1 then -1 else k + 1
  }

  // ---------------------------------------------------------------- specification

  /** `createDebate`: the validated record with its author pushed as the first participant. */
  function Created(input: DebateInput, author: UserId, now: int): (r: Result<Debate, HttpError>)
    ensures r.Err? <==> Failures(input, author) != {}
    ensures r.Ok? ==> Valid(r.value) && Consistent(r.value)
    ensures r.Ok? ==> r.value.participants == [Participant(author, now)] && r.value.author == author
    ensures r.Ok? ==> r.value.status == Abierto && |r.value.tags| == |input.tags.GetOr([])|
    ensures r.Err? ==> r.error == Invalid(Failures(input, author))
    ensures r.Ok? ==> New(input, author).Ok? && r.value == New(input, author).value.(participants := [Participant(author, now)])
  {
    match New(input, author)
    case Err(paths) => Err(Invalid(paths))
    case Ok(d) => Ok(d.(participants := d.participants + [Participant(author, now)]))
  }

  /** The refusals of `joinDebate` once the debate is found, in the order they are checked. */
  function JoinRefusal(d: Debate, u: UserId): Option<HttpError> {
    if d.status != Abierto then Some(NotOpen)
    else if Listed(d.participants, u) then Some(AlreadyParticipant)
    else if d.currentParticipants >= d.maxParticipants then Some(Full)
    else None
  }

  /** A successful join: one entry pushed for the caller, the counter incremented. */
  function Joined(d: Debate, u: UserId, now: int): Debate {
    d.(participants := d.participants + [Participant(u, now)],
       currentParticipants := d.currentParticipants + 1)
  }

  /** A successful leave: the entry at `i` spliced out, the counter decremented. */
  function Left(d: Debate, i: nat): Debate
    requires i < |d.participants|
  {
    d.(participants := d.participants[..i] + d.participants[i + 1..],
       currentParticipants := d.currentParticipants - 1)
  }

  /** `updateDebate` and `deleteDebate` refuse a missing debate, then anyone but the author. */
  function AuthorRefusal(debates: map<DebateId, Debate>, id: DebateId, u: UserId): (r: Option<HttpError>)
    ensures r.None? <==> id in debates && debates[id].author == u
    ensures r == Some(NotFound) <==> id !in debates
    ensures r == Some(NotAuthor) <==> id in debates && debates[id].author != u
  {
    if id !in debates then Some(NotFound)
    else if debates[id].author != u then Some(NotAuthor)
    else None
  }

  // ---------------------------------------------------------------- properties

  /** Join refuses exactly a debate that is not open, already lists the caller, or is full. */
  lemma JoinRefusalOrder(d: Debate, u: UserId)
    ensures JoinRefusal(d, u) == Some(NotOpen) <==> d.status != Abierto
    ensures JoinRefusal(d, u) == Some(AlreadyParticipant) <==> d.status == Abierto && Listed(d.participants, u)
    ensures JoinRefusal(d, u) == Some(Full)
        <==> d.status == Abierto && !Listed(d.participants, u) && d.currentParticipants >= d.maxParticipants
    ensures JoinRefusal(d, u).None?
        <==> d.status == Abierto && !Listed(d.participants, u) && d.currentParticipants < d.maxParticipants
  {
  }

  /**
   * An accepted join keeps the debate consistent: the count stays within `maxParticipants`,
   * grows by exactly one, and the caller now appears exactly once.
   */
  lemma JoinPreservesConsistency(d: Debate, u: UserId, now: int)
    requires Consistent(d) && JoinRefusal(d, u).None?
    ensures Consistent(Joined(d, u, now))
    ensures Joined(d, u, now).currentParticipants == d.currentParticipants + 1 <= d.maxParticipants
    ensures Listed(Joined(d, u, now).participants, u)
  {
    var ps := Joined(d, u, now).participants;
    assert ps[|ps| - 1].user == u;
  }

  /** An accepted leave keeps the debate consistent and removes the caller entirely. */
  lemma LeavePreservesConsistency(d: Debate, u: UserId)
    requires Consistent(d) && FindIndex(d.participants, u) >= 0
    ensures Consistent(Left(d, FindIndex(d.participants, u)))
    ensures !Listed(Left(d, FindIndex(d.participants, u)).participants, u)
  {
    var i := FindIndex(d.participants, u);
    var ps := d.participants;
    var qs := ps[..i] + ps[i + 1..];
    assert Left(d, i).participants == qs;
    Spliced(ps, i, qs);
    forall a, b | 0 <= a < b < |qs| ensures qs[a].user != qs[b].user {
      var x, y := (if a < i then a else a + 1), (if b < i then b else b + 1);
      assert qs[a] == ps[x] && qs[b] == ps[y] && x < y;
    }
    forall k | 0 <= k < |qs| ensures qs[k].user != u {
      var x := if k < i then k else k + 1;
      assert qs[k] == ps[x];
      if x < i {
        assert ps[x].user != ps[i].user;
      } else {
        assert ps[i].user != ps[x].user;
      }
    }
  }

  /** Splicing out position `i` shifts every later element down by one. */
  lemma Spliced<T>(s: seq<T>, i: nat, t: seq<T>)
    requires i < |s| && t == s[..i] + s[i + 1..]
    ensures |t| == |s| - 1
    ensures forall k :: 0 <= k < |t| ==> t[k] == s[if k < i then k else k + 1]
  {
  }

  /** Leave removes the first matching entry and keeps every other entry in its order. */
  lemma LeaveKeepsOthers(d: Debate, u: UserId)
    requires FindIndex(d.participants, u) >= 0
    ensures var i := FindIndex(d.participants, u);
      var qs := Left(d, i).participants;
      && |qs| == |d.participants| - 1
      && (forall k :: 0 <= k < i ==> qs[k] == d.participants[k])
      && (forall k :: i <= k < |qs| ==> qs[k] == d.participants[k + 1])
      && Left(d, i).currentParticipants == d.currentParticipants - 1
  {
  }

  /** Joining and then leaving as the same user restores the participants and the counter. */
  lemma JoinThenLeave(d: Debate, u: UserId, now: int)
    requires JoinRefusal(d, u).None?
    ensures FindIndex(Joined(d, u, now).participants, u) == |d.participants|
    ensures Left(Joined(d, u, now), |d.participants|) == d
  {
    var ps := Joined(d, u, now).participants;
    assert forall k :: 0 <= k < |d.participants| ==> ps[k] == d.participants[k];
    var i := FindIndex(ps, u);
    assert ps[|ps| - 1].user == u;
    assert i < |d.participants| ==> Listed(d.participants, u);
    assert ps[..|d.participants|] == d.participants;
  }

  // ---------------------------------------------------------------- the collection

  /** Every stored debate satisfies the schema and is consistent. */
  ghost predicate StoreValid(debates: map<DebateId, Debate>) {
    forall id :: id in debates ==> DebateModel.Valid(debates[id]) && Consistent(debates[id])
  }

  lemma StoreUpdate(debates: map<DebateId, Debate>, id: DebateId, d: Debate)
    requires StoreValid(debates) && DebateModel.Valid(d) && Consistent(d)
    ensures StoreValid(debates[id := d])
  {
  }

  /** The stored debates, keyed by id; each handler finds, mutates and saves one of them. */
  class DebateCollection {
    var debates: map<DebateId, Debate>

    ghost predicate Valid()
      reads this
    {
      StoreValid(debates)
    }

    constructor()
      ensures debates == map[] && Valid()
    {
      debates := map[];
    }

    /** `createDebate` under the fresh id the store assigns. */
    method Create(id: DebateId, input: DebateInput, author: UserId, now: int) returns (r: Result<Debate, HttpError>)
      requires id !in debates
      modifies this
      ensures r == Created(input, author, now)
      ensures r.Ok? ==> debates == old(debates)[id := r.value]
      ensures r.Err? ==> debates == old(debates)
      ensures old(Valid()) ==> Valid()
    {
      var made := New(input, author);
      if made.Err? {
        return Err(Invalid(made.error));
      }
      var d := made.value.(participants := made.value.participants + [Participant(author, now)]);
      assert Created(input, author, now) == Ok(d);
      if old(Valid()) {
        StoreUpdate(debates, id, d);
      }
      debates := debates[id := d];
      r := Ok(d);
    }

    /** `joinDebate`: 404, then the join refusals; only an accepted join changes the store. */
    method Join(id: DebateId, u: UserId, now: int) returns (r: Result<Debate, HttpError>)
      modifies this
      ensures id !in old(debates) ==> r == Err(NotFound) && debates == old(debates)
      ensures id in old(debates) && JoinRefusal(old(debates)[id], u).Some? ==>
        r == Err(JoinRefusal(old(debates)[id], u).value) && debates == old(debates)
      ensures id in old(debates) && JoinRefusal(old(debates)[id], u).None? ==>
        r == Ok(Joined(old(debates)[id], u, now)) && debates == old(debates)[id := r.value]
      ensures old(Valid()) ==> Valid()
    {
      if id !in debates {
        return Err(NotFound);
      }
      var d := debates[id];
      if d.status != Abierto {
        return Err(NotOpen);
      }
      if Listed(d.participants, u) {
        return Err(AlreadyParticipant);
      }
      if d.currentParticipants >= d.maxParticipants {
        return Err(Full);
      }
      d := d.(participants := d.participants + [Participant(u, now)]);
      d := d.(currentParticipants := d.currentParticipants + 1);
      assert d == Joined(debates[id], u, now);
      if old(Valid()) {
        JoinPreservesConsistency(debates[id], u, now);
        StoreUpdate(debates, id, d);
      }
      debates := debates[id := d];
      r := Ok(d);
    }

    /** `leaveDebate`: 404, then 400 for a caller not listed; otherwise splice out their entry. */
    method Leave(id: DebateId, u: UserId) returns (r: Result<Debate, HttpError>)
      modifies this
      ensures id !in old(debates) ==> r == Err(NotFound) && debates == old(debates)
      ensures id in old(debates) && !Listed(old(debates)[id].participants, u) ==>
        r == Err(NotParticipant) && debates == old(debates)
      ensures id in old(debates) && Listed(old(debates)[id].participants, u) ==>
        r == Ok(Left(old(debates)[id], FindIndex(old(debates)[id].participants, u)))
        && debates == old(debates)[id := r.value]
      ensures old(Valid()) ==> Valid()
    {
      if id !in debates {
        return Err(NotFound);
      }
      var d := debates[id];
      var i := FindIndex(d.participants, u);
      if i == -1 {
        return Err(NotParticipant);
      }
      var e := d.(participants := d.participants[..i] + d.participants[i + 1..]);
      e := e.(currentParticipants := e.currentParticipants - 1);
      assert e == Left(d, i);
      if old(Valid()) {
        LeavePreservesConsistency(d, u);
        StoreUpdate(debates, id, e);
      }
      debates := debates[id := e];
      r := Ok(e);
    }

    /**
     * The guard of `updateDebate`; the merge of the request body into the record that follows
     * an accepted guard is not modelled, so the store is left as it is.
     */
    method CheckUpdate(id: DebateId, u: UserId) returns (refusal: Option<HttpError>)
      ensures refusal == AuthorRefusal(debates, id, u)
      ensures refusal.None? ==> id in debates && debates[id].author == u
    {
      if id !in debates {
        return Some(NotFound);
      }
      if debates[id].author != u {
        return Some(NotAuthor);
      }
      refusal := None;
    }

    /** `deleteDebate`: 404, 403 unless the caller is the author, otherwise the debate is removed. */
    method Delete(id: DebateId, u: UserId) returns (refusal: Option<HttpError>)
      modifies this
      ensures refusal == AuthorRefusal(old(debates), id, u)
      ensures refusal.Some? ==> debates == old(debates)
      ensures refusal.None? ==> debates == old(debates) - {id}
      ensures old(Valid()) ==> Valid()
    {
      if id !in debates {
        return Some(NotFound);
      }
      if debates[id].author != u {
        return Some(NotAuthor);
      }
      debates := debates - {id};
      refusal := None;
    }
  }
}
