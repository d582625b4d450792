/**
 * The call page's participant list (`useParticipants`): participants are
 * added from the signed-in user's profile, removed by id and updated in
 * place. A participant's id is meant to identify it: the list never holds
 * two participants with the same id as long as only `addParticipant` adds.
 */
module Participants {
  import opened Common

  /**
   * One participant. `id`, `name`, `avatar` and `email` come from an
   * untyped profile object and may be `undefined` (`None`); `joinedAt` is
   * the clock reading taken when the record was made.
   */
  datatype Participant = Participant(
    id: Option<string>,
    name: Option<string>,
    avatar: Option<string>,
    email: Option<string>,
    isAudioEnabled: bool,
    isVideoEnabled: bool,
    joinedAt: int)

  /** The profile fields `addParticipant` reads. */
  datatype UserData = UserData(
    sub: Option<string>,
    name: Option<string>,
    picture: Option<string>,
    email: Option<string>)

  /** A `Partial<Participant>`: the fields an update carries, `None` where absent. */
  datatype Updates = Updates(
    id: Option<string>,
    name: Option<string>,
    avatar: Option<string>,
    email: Option<string>,
    isAudioEnabled: Option<bool>,
    isVideoEnabled: Option<bool>,
    joinedAt: Option<int>)

  /** JavaScript truthiness of an optional string: defined and not empty. */
  predicate Truthy(s: Option<string>) {
    s.Some? && s.value != ""
  }

  /** The record `addParticipant` builds: id from `sub || email`, media on. */
  function NewParticipant(u: UserData, now: int): (p: Participant)
    ensures Truthy(u.sub) ==> p.id == u.sub
    ensures !Truthy(u.sub) ==> p.id == u.email
    ensures p.name == u.name && p.avatar == u.picture && p.email == u.email
    ensures p.isAudioEnabled && p.isVideoEnabled && p.joinedAt == now
  {
    Participant(if Truthy(u.sub) then u.sub else u.email,
                u.name, u.picture, u.email, true, true, now)
  }

  /** Some participant in `list` carries `id` (`list.some(p => p.id === id)`). */
  predicate HasId(list: seq<Participant>, id: Option<string>) {
    exists i | 0 <= i < |list| :: list[i].id == id
  }

  /** No two participants share an id. */
  predicate UniqueIds(list: seq<Participant>) {
    forall i, j | 0 <= i < j < |list| :: list[i].id != list[j].id
  }

  /** The list after `addParticipant` has offered `p`. */
  function Added(list: seq<Participant>, p: Participant): seq<Participant> {
    if HasId(list, p.id) then list else list + [p]
  }

  /** `list.filter(p => p.id !== id)` */
  function Removed(list: seq<Participant>, id: string): (r: seq<Participant>)
    ensures |r| <= |list|
    ensures forall p :: p in r <==> p in list && p.id != Some(id)
  {
    if list == [] then []
    else if list[0].id == Some(id) then Removed(list[1..], id)
    else [list[0]] + Removed(list[1..], id)
  }

  /** `list.findIndex(p => p.id === id)`: the first index carrying `id`, or -1. */
  function FindIndex(list: seq<Participant>, id: string): (r: int)
    ensures -1 <= r < |list|
    ensures r >= 0 ==> list[r].id == Some(id)
    ensures forall k | 0 <= k < |list| && (r == -1 || k < r) :: list[k].id != Some(id)
  {
    if list == [] then -1
    else if list[0].id == Some(id) then 0
    else
      var rest := FindIndex(list[1..], id);
      if rest == -1 then -1 else rest + 1
  }

  /** `{ ...p, ...updates }`: every field the update carries wins. */
  function Merge(p: Participant, u: Updates): Participant {
    Participant(
      if u.id.Some? then u.id else p.id,
      if u.name.Some? then u.name else p.name,
      if u.avatar.Some? then u.avatar else p.avatar,
      if u.email.Some? then u.email else p.email,
      u.isAudioEnabled.GetOr(p.isAudioEnabled),
      u.isVideoEnabled.GetOr(p.isVideoEnabled),
      u.joinedAt.GetOr(p.joinedAt))
  }

  /** The list after `updateParticipant(id, u)`. */
  function Updated(list: seq<Participant>, id: string, u: Updates): seq<Participant> {
    var i := FindIndex(list, id);
    if i == -1 then list else list[i := Merge(list[i], u)]
  }

  /** The reactive state the composable returns. */
  class ParticipantList {
    var participants: seq<Participant>
    var activeParticipant: Option<Participant>

    constructor()
      ensures participants == [] && activeParticipant == None
    {
      participants := [];
      activeParticipant := None;
    }

    /** Pushes the profile's record unless its id is already listed; returns it either way. */
    method AddParticipant(u: UserData, now: int) returns (p: Participant)
      modifies this
      ensures p == NewParticipant(u, now)
      ensures participants == Added(old(participants), p)
      ensures activeParticipant == old(activeParticipant)
    {
      p := NewParticipant(u, now);
      var present := HasId(participants, p.id);
      if !present {
        participants := participants + [p];
      }
    }

    /** Replaces the list by the participants whose id differs. */
    method RemoveParticipant(id: string)
      modifies this
      ensures participants == Removed(old(participants), id)
      ensures activeParticipant == old(activeParticipant)
    {
      participants := Removed(participants, id);
    }

    /** Merges `u` into the first participant with `id`, in place. */
    method UpdateParticipant(id: string, u: Updates)
      modifies this
      ensures participants == Updated(old(participants), id, u)
      ensures activeParticipant == old(activeParticipant)
    {
      var index := FindIndex(participants, id);
      if index != -1 {
        participants := participants[index := Merge(participants[index], u)];
      }
    }
  }

  // ---------------------------------------------------------------- adding

  /** Adding keeps ids unique, keeps the earlier entries, and lists the id afterwards. */
  lemma AddKeepsUnique(list: seq<Participant>, p: Participant)
    requires UniqueIds(list)
    ensures UniqueIds(Added(list, p))
    ensures Added(list, p)[..|list|] == list
    ensures HasId(Added(list, p), p.id)
  {
    var r := Added(list, p);
    if !HasId(list, p.id) {
      assert r[|list|] == p;
    }
  }

  /** The record is appended exactly when its id is new. */
  lemma AddAppendsIffNew(list: seq<Participant>, p: Participant)
    ensures |Added(list, p)| == |list| + 1 <==> !HasId(list, p.id)
    ensures !HasId(list, p.id) ==> Added(list, p)[|list|] == p
  {
  }

  /** Offering the same profile twice changes the list once. */
  lemma AddIdempotent(list: seq<Participant>, p: Participant)
    ensures Added(Added(list, p), p) == Added(list, p)
  {
    if !HasId(list, p.id) {
      assert (list + [p])[|list|] == p;
    }
  }

  /** A profile without a usable `sub` is identified by its email. */
  lemma SubFallsBackToEmail(u: UserData, now: int)
    requires u.sub == None || u.sub == Some("")
    ensures NewParticipant(u, now).id == u.email
  {
  }

  // -------------------------------------------------------------- removing

  /** The filter distributes over concatenation: it keeps the order of what stays. */
  lemma {:induction false} RemovedAppend(a: seq<Participant>, b: seq<Participant>, id: string)
    ensures Removed(a + b, id) == Removed(a, id) + Removed(b, id)
  {
    if a == [] {
      assert a + b == b;
    } else {
      assert (a + b)[0] == a[0];
      assert (a + b)[1..] == a[1..] + b;
      RemovedAppend(a[1..], b, id);
    }
  }

  /** A single participant stays exactly when its id differs. */
  lemma RemovedSingle(p: Participant, id: string)
    ensures Removed([p], id) == (if p.id == Some(id) then [] else [p])
  {
    assert [p][1..] == [];
  }

  /** Removing an id nobody has changes nothing. */
  lemma {:induction false} RemoveAbsentIsIdentity(list: seq<Participant>, id: string)
    requires !HasId(list, Some(id))
    ensures Removed(list, id) == list
  {
    if list != [] {
      assert list[0].id != Some(id);
      assert !HasId(list[1..], Some(id)) by {
        forall i | 0 <= i < |list[1..]|
          ensures list[1..][i].id != Some(id)
        {
          assert list[1..][i] == list[i + 1];
        }
      }
      RemoveAbsentIsIdentity(list[1..], id);
    }
  }

  /** Removal takes away every participant with the id and keeps ids unique. */
  lemma {:induction false} RemoveKeepsUnique(list: seq<Participant>, id: string)
    requires UniqueIds(list)
    ensures UniqueIds(Removed(list, id))
    ensures !HasId(Removed(list, id), Some(id))
  {
    var r := Removed(list, id);
    if list != [] {
      var tail := list[1..];
      assert UniqueIds(tail) by {
        forall i, j | 0 <= i < j < |tail|
          ensures tail[i].id != tail[j].id
        {
          assert tail[i] == list[i + 1] && tail[j] == list[j + 1];
        }
      }
      RemoveKeepsUnique(tail, id);
      if list[0].id != Some(id) {
        assert r == [list[0]] + Removed(tail, id);
        forall j | 0 < j < |r|
          ensures r[0].id != r[j].id
        {
          assert r[j] in Removed(tail, id);
          assert r[j] in tail;
        }
      }
    }
    assert !HasId(r, Some(id)) by {
      forall i | 0 <= i < |r|
        ensures r[i].id != Some(id)
      {
        assert r[i] in r;
      }
    }
  }

  // -------------------------------------------------------------- updating

  /** The update reaches the first participant with the id and no other index. */
  lemma UpdateTouchesFirstMatch(list: seq<Participant>, id: string, u: Updates)
    ensures |Updated(list, id, u)| == |list|
    ensures HasId(list, Some(id)) ==>
      var i := FindIndex(list, id);
      0 <= i && Updated(list, id, u)[i] == Merge(list[i], u)
      && forall k | 0 <= k < i :: list[k].id != Some(id)
    ensures forall k | 0 <= k < |list| && k != FindIndex(list, id) ::
      Updated(list, id, u)[k] == list[k]
  {
  }

  /** Updating an id nobody has is a no-op. */
  lemma UpdateAbsentIsNoOp(list: seq<Participant>, id: string, u: Updates)
    requires !HasId(list, Some(id))
    ensures Updated(list, id, u) == list
  {
  }

  /** An update that leaves the id alone keeps ids unique. */
  lemma UpdateKeepsUnique(list: seq<Participant>, id: string, u: Updates)
    requires UniqueIds(list) && u.id.None?
    ensures UniqueIds(Updated(list, id, u))
  {
    var r := Updated(list, id, u);
    forall k | 0 <= k < |list|
      ensures r[k].id == list[k].id
    {
    }
  }

  /** An update carrying another participant's id makes two entries share it. */
  lemma UpdateCanDuplicateId(a: Participant, b: Participant, u: Updates)
    requires a.id == Some("alice") && b.id == Some("bob") && u.id == Some("bob")
    ensures !UniqueIds(Updated([a, b], "alice", u))
    ensures UniqueIds([a, b])
  {
    var r := Updated([a, b], "alice", u);
    assert FindIndex([a, b], "alice") == 0;
    assert r[0].id == r[1].id;
  }
}
