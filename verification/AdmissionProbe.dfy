// `check` (scripts/check_hyperlight_admission_aks.py): refuse collisions, create the probe's objects and
// record their UIDs, exercise admission, then remove what was created and nothing else.
module AdmissionProbe {
  import opened Common
  import opened Cluster

  datatype CleanupError =
    Unreachable | OwnershipChanged | UidUnavailable | UidChanged | DeleteFailed | WaitFailed | Survived

  datatype Outcome = NotStarted | CleanupIncomplete(errors: seq<(Key, CleanupError)>) | Raised | Passed

  type Uids = map<Key, nat>

  // ----- one turn of the cleanup loop -----

  /** Why an object that was found is not asked to be deleted. */
  function Obstacle(key: Key, owner: string, uids: Uids, o: Object): Option<CleanupError> {
    if o.owner != Some(owner) then Some(OwnershipChanged)
    else if key !in uids then Some(UidUnavailable)
    else if o.uid != uids[key] then Some(UidChanged)
    else None
  }

  /** What follows an accepted delete: the wait, and the last look. */
  ghost predicate Watched(key: Key, r: seq<Entry>, error: Option<CleanupError>) {
    match error
    case Some(WaitFailed) => r == [Broke]
    case Some(Survived) =>
      |r| == 2 && r[0] == Done && (r[1] == Broke || (r[1].Saw? && r[1].key == key && r[1].found.Some?))
    case None => r == [Done, Saw(key, None)]
    case _ => false
  }

  /** What follows a request to delete `o`. */
  ghost predicate Deletion(key: Key, o: Object, r: seq<Entry>, error: Option<CleanupError>) {
    || (r == [Broke] && error == Some(DeleteFailed))
    || (|r| > 1 && r[0].Removed? && r[0].key == key && r[0].item == o
        && if r[1] == Done then Watched(key, r[2..], error) else r[1..] == [Broke] && error == Some(DeleteFailed))
  }

  /** What one turn adds to the log, and the error it ends in. */
  ghost predicate Turn(key: Key, owner: string, uids: Uids, t: seq<Entry>, error: Option<CleanupError>) {
    || (t == [Broke] && error == Some(Unreachable))
    || (t == [Saw(key, None)] && error.None?)
    || (|t| > 0 && t[0].Saw? && t[0].key == key && t[0].found.Some?
        && var o := t[0].found.value;
        if Obstacle(key, owner, uids, o).Some? then |t| == 1 && error == Obstacle(key, owner, uids, o)
        else |t| > 1 && t[1] == Asked(key, o.uid, o.version) && Deletion(key, o, t[2..], error))
  }

  /** The object is there as this run made it. */
  ghost predicate Mine(objects: Objects, key: Key, owner: string, uids: Uids) {
    key in objects && key in uids && objects[key].uid == uids[key] && objects[key].owner == Some(owner)
  }

  /** The object was seen, asked to be deleted, removed, waited for, and seen absent. */
  ghost predicate Removes(t: seq<Entry>, key: Key, uid: nat) {
    exists o: Object, inside :: o.uid == uid
      && t == [Saw(key, Some(o)), Asked(key, uid, o.version), Removed(key, o, inside), Done, Done, Saw(key, None)]
  }

  method Watch(s: Server, key: Key) returns (error: Option<CleanupError>, ghost t: seq<Entry>)
    requires s.Valid()
    modifies s
    ensures s.Valid() && s.Extends() && s.made == old(s.made)
    ensures s.log == old(s.log) + t && Watched(key, t, error)
    ensures s.Quiet() ==> s.objects == old(s.objects) && (error.None? <==> key !in s.objects)
  {
    var waited := s.Other();
    if waited.Failed? {
      return Some(WaitFailed), [Broke];
    }
    var last := s.Get(key);
    t := [Done, if last.Ok? then Saw(key, last.value) else Broke];
    return if last.Ok? && last.value.None? then None else Some(Survived), t;
  }

  method DeleteAndWatch(s: Server, key: Key, o: Object) returns (error: Option<CleanupError>, ghost t: seq<Entry>)
    requires s.Valid() && o.version in s.versions && s.versions[o.version] == o
    modifies s
    ensures s.Valid() && s.Extends() && s.made == old(s.made)
    ensures |t| > 0 && t[0] == Asked(key, o.uid, o.version) && Deletion(key, o, t[1..], error)
    ensures s.log == old(s.log) + t
    ensures s.Quiet() && key in old(s.objects) && old(s.objects)[key] == o ==>
      error.None? && s.objects == old(s.objects) - ({key} + Inside(old(s.objects), key).Keys)
  {
    hide Watched, Inside;
    ghost var before := s.log;
    var deleted := s.Delete(key, o.uid, o.version);
    t := s.log[|before|..];
    if |t| == 3 {
      SameVersion(s, |before| + 1, o);
    }
    if deleted.Failed? {
      return Some(DeleteFailed), t;
    }
    ghost var watched;
    error, watched := Watch(s, key);
    assert (t + watched)[1..][2..] == watched;
    t := t + watched;
  }

  /** A version belongs to one state of one object. */
  lemma SameVersion(s: Server, i: int, o: Object)
    requires s.Valid() && 0 <= i < |s.log| && s.log[i].Removed? && s.log[i].item.version == o.version
    requires o.version in s.versions && s.versions[o.version] == o
    ensures s.log[i].item == o
  {
    assert s.Recorded(s.log[i]);
  }

  method CleanUpOne(s: Server, key: Key, owner: string, uids: Uids)
    returns (error: Option<CleanupError>, ghost t: seq<Entry>)
    requires s.Valid()
    modifies s
    ensures s.Valid() && s.Extends() && s.made == old(s.made)
    ensures s.log == old(s.log) + t && Turn(key, owner, uids, t, error)
    ensures s.Quiet() && Mine(old(s.objects), key, owner, uids) ==>
      error.None? && |t| > 1 && s.objects == old(s.objects) - ({key} + Inside(old(s.objects), key).Keys)
  {
    hide Deletion;
    ghost var before := s.log;
    var first := s.Get(key);
    if first.Failed? {
      return Some(Unreachable), [Broke];
    }
    t := [Saw(key, first.value)];
    if first.value.None? {
      return None, t;
    }
    var current := first.value.value;
    assert s.log[|before|] == t[0] && s.Recorded(s.log[|before|]);
    if Obstacle(key, owner, uids, current).Some? {
      return Obstacle(key, owner, uids, current), t;
    }
    ghost var rest;
    error, rest := DeleteAndWatch(s, key, current);
    t := t + rest;
    assert t[2..] == rest[1..];
  }

  /** A turn that ends without an error either finds nothing or removes what it finds. */
  lemma CleanTurn(key: Key, owner: string, uids: Uids, t: seq<Entry>)
    requires Turn(key, owner, uids, t, None)
    ensures t == [Saw(key, None)] || (key in uids && Removes(t, key, uids[key]))
  {
    if t != [Saw(key, None)] {
      var o, r := t[0].found.value, t[2..];
      assert r == [r[0], Done, Done, Saw(key, None)];
      assert t == [t[0], t[1]] + r;
      assert t == [Saw(key, Some(o)), Asked(key, o.uid, o.version),
                   Removed(key, o, r[0].contents), Done, Done, Saw(key, None)];
    }
  }

  /** When the lookup is answered and finds the run's label and the recorded UID, the delete is asked for;
      the object counts as unreachable only when the lookup was not answered. */
  lemma TurnAsks(key: Key, owner: string, uids: Uids, t: seq<Entry>, error: Option<CleanupError>)
    requires Turn(key, owner, uids, t, error)
    ensures |t| > 0 && (t[0] == Broke || (t[0].Saw? && t[0].key == key))
    ensures error == Some(Unreachable) <==> t == [Broke]
    ensures error == Some(Unreachable) <==> t[0] == Broke
    ensures (exists i :: 0 <= i < |t| && t[i].Asked?) <==>
      t[0].Saw? && t[0].found.Some? && key in uids
      && t[0].found.value.uid == uids[key] && t[0].found.value.owner == Some(owner)
  {
    if t[0].Saw? && t[0].found.Some? {
      var o := t[0].found.value;
      assert Obstacle(key, owner, uids, o).None? ==> t[1].Asked?;
    }
  }

  // ----- the collision scan -----

  /** Every object is looked up in turn; what exists, or cannot be looked up, ends the scan. */
  ghost predicate Scanned(objects: seq<Key>, t: seq<Entry>, clear: bool) {
    if clear then |t| == |objects| && forall i :: 0 <= i < |t| ==> t[i] == Saw(objects[i], None)
    else
      && 0 < |t| <= |objects| && (forall i :: 0 <= i < |t| - 1 ==> t[i] == Saw(objects[i], None))
      && var last := t[|t| - 1];
      last == Broke || (last.Saw? && last.key == objects[|t| - 1] && last.found.Some?)
  }

  method NoCollision(s: Server, objects: seq<Key>) returns (clear: bool, ghost t: seq<Entry>)
    requires s.Valid()
    modifies s
    ensures s.Valid() && s.Extends() && s.made == old(s.made)
    ensures s.log == old(s.log) + t && Scanned(objects, t, clear)
    ensures s.Quiet() ==> s.objects == old(s.objects) && (clear <==> forall k :: k in objects ==> k !in s.objects)
  {
    t := [];
    for i := 0 to |objects|
      invariant s.Valid() && s.Extends() && s.made == old(s.made)
      invariant s.log == old(s.log) + t && Scanned(objects[..i], t, true)
      invariant s.Quiet() ==> s.objects == old(s.objects) && forall j :: 0 <= j < i ==> objects[j] !in s.objects
    {
      var found := s.Get(objects[i]);
      t := t + [if found.Ok? then Saw(objects[i], found.value) else Broke];
      if found.Failed? || found.value.Some? {
        return false, t;
      }
    }
    clear := true;
  }

  // ----- the create loop -----

  function Creations(objects: seq<Key>, ids: seq<nat>): (t: seq<Entry>)
    requires |ids| <= |objects|
    ensures forall i :: 0 <= i < |t| ==> t[i].Made? || t[i] == Done
  {
    if ids == [] then []
    else
      var n := |ids| - 1;
      Creations(objects, ids[..n]) + [Made(objects[n], ids[n]), Done]
  }

  function UidsOf(objects: seq<Key>, ids: seq<nat>): Uids
    requires |ids| <= |objects|
  {
    if ids == [] then map[] else UidsOf(objects, ids[..|ids| - 1])[objects[|ids| - 1] := ids[|ids| - 1]]
  }

  /** The objects are created in turn, up to the first create that fails or whose reply names no UID. */
  ghost predicate Created(objects: seq<Key>, ids: seq<nat>, t: seq<Entry>, ok: bool) {
    && |ids| <= |objects| && (ok <==> |ids| == |objects|)
    && if ok then t == Creations(objects, ids)
       else
         || t == Creations(objects, ids) + [Broke]
         || exists uid :: t == Creations(objects, ids) + [Made(objects[|ids|], uid), Broke]
  }

  /** The objects from index `from` up to `upto` are there as this run made them. */
  ghost predicate AllMine(here: Objects, objects: seq<Key>, upto: int, owner: string, uids: Uids) {
    forall i :: 0 <= i < upto && i < |objects| ==> Mine(here, objects[i], owner, uids)
  }

  /** Different objects, none of which stands in a namespace. */
  ghost predicate Distinct(objects: seq<Key>) {
    (forall i, j :: 0 <= i < j < |objects| ==> objects[i] != objects[j]) && forall k :: k in objects ==> k.space.None?
  }

  lemma OneMoreCreated(objects: seq<Key>, ids: seq<nat>, uid: nat)
    requires |ids| < |objects|
    ensures Creations(objects, ids + [uid]) == Creations(objects, ids) + [Made(objects[|ids|], uid), Done]
    ensures UidsOf(objects, ids + [uid]) == UidsOf(objects, ids)[objects[|ids|] := uid]
  {
    assert (ids + [uid])[..|ids|] == ids;
  }

  method CreateAll(s: Server, objects: seq<Key>, owner: string)
    returns (uids: Uids, ok: bool, ghost ids: seq<nat>, ghost t: seq<Entry>)
    requires s.Valid()
    modifies s
    ensures s.Valid() && s.Extends() && s.log == old(s.log) + t
    ensures Created(objects, ids, t, ok) && uids == UidsOf(objects, ids)
    ensures s.Quiet() && Distinct(objects) && (forall k :: k in objects ==> k !in old(s.objects)) ==>
      ok && AllMine(s.objects, objects, |objects|, owner, uids)
  {
    hide Mine, AllMine, Creations, UidsOf, Distinct;
    uids, ids, t := map[], [], [];
    NoneCreated(s.objects, objects, owner);
    ghost var quiet := s.Quiet() && Distinct(objects) && forall k :: k in objects ==> k !in s.objects;
    for i := 0 to |objects|
      invariant s.Valid() && s.Extends() && s.log == old(s.log) + t
      invariant |ids| == i && t == Creations(objects, ids) && uids == UidsOf(objects, ids)
      invariant quiet ==> AllMine(s.objects, objects, i, owner, uids)
      invariant quiet ==> forall j :: i <= j < |objects| ==> objects[j] !in s.objects
    {
      ghost var was, before, log := s.objects, uids, s.log;
      var created := s.Create(objects[i], owner);
      if created.Failed? {
        t := t + s.log[|log|..];
        return uids, false, ids, t;
      }
      t := t + [Made(objects[i], created.value), Done];
      OneMoreCreated(objects, ids, created.value);
      ids := ids + [created.value];
      uids := uids[objects[i] := created.value];
      if quiet {
        OneMoreMine(was, s.objects, objects, i, owner, before, uids);
      }
    }
    ok := true;
  }

  lemma NoneCreated(here: Objects, objects: seq<Key>, owner: string)
    ensures Creations(objects, []) == [] && UidsOf(objects, []) == map[] && AllMine(here, objects, 0, owner, map[])
  {
  }

  lemma OneMoreMine(was: Objects, here: Objects, objects: seq<Key>, i: nat, owner: string, before: Uids, uids: Uids)
    requires i < |objects| && Distinct(objects) && AllMine(was, objects, i, owner, before)
    requires objects[i] in here && here == was[objects[i] := here[objects[i]]]
    requires uids == before[objects[i] := here[objects[i]].uid] && here[objects[i]].owner == Some(owner)
    ensures AllMine(here, objects, i + 1, owner, uids)
    ensures forall j :: i < j < |objects| && objects[j] !in was ==> objects[j] !in here
  {
  }

  // ----- the cleanup loop -----

  /** The turns of the objects from index `i` on, the last object's first, and the errors they end in. */
  ghost predicate Cleaned(objects: seq<Key>, i: nat, owner: string, uids: Uids, t: seq<Entry>,
                          errors: seq<(Key, CleanupError)>)
    decreases |objects| - i
  {
    if i >= |objects| then t == [] && errors == []
    else exists a, b, named, error ::
      CleanedOneMore(objects, i, owner, uids, a, b, named, error, t, errors)
      && Cleaned(objects, i + 1, owner, uids, a, named)
  }

  ghost predicate CleanedOneMore(objects: seq<Key>, i: nat, owner: string, uids: Uids, a: seq<Entry>, b: seq<Entry>,
                                 named: seq<(Key, CleanupError)>, error: Option<CleanupError>,
                                 t: seq<Entry>, errors: seq<(Key, CleanupError)>)
    requires i < |objects|
  {
    && t == a + b && Turn(objects[i], owner, uids, b, error)
    && errors == named + if error.Some? then [(objects[i], error.value)] else []
  }

  /** The objects before index `i` stay when another one of them goes with what stands in it. */
  lemma OthersStayMine(was: Objects, objects: seq<Key>, i: nat, owner: string, uids: Uids)
    requires i < |objects| && Distinct(objects) && AllMine(was, objects, i + 1, owner, uids)
    ensures AllMine(was - ({objects[i]} + Inside(was, objects[i]).Keys), objects, i, owner, uids)
  {
  }

  /** Every object gets its turn whatever became of the others. */
  method CleanUp(s: Server, objects: seq<Key>, owner: string, uids: Uids)
    returns (errors: seq<(Key, CleanupError)>, ghost t: seq<Entry>)
    requires s.Valid()
    modifies s
    ensures s.Valid() && s.Extends() && s.made == old(s.made)
    ensures s.log == old(s.log) + t && Cleaned(objects, 0, owner, uids, t, errors)
    ensures s.Quiet() && Distinct(objects) && AllMine(old(s.objects), objects, |objects|, owner, uids) ==>
      errors == [] && forall k :: k in objects ==> k in uids && Undone(t, k, uids[k])
  {
    hide Turn, Undone, Mine, Inside;
    errors, t := [], [];
    ghost var quiet := s.Quiet() && Distinct(objects) && AllMine(s.objects, objects, |objects|, owner, uids);
    for i := |objects| downto 0
      invariant s.Valid() && s.Extends() && s.made == old(s.made) && s.log == old(s.log) + t
      invariant Cleaned(objects, i, owner, uids, t, errors)
      invariant quiet ==> errors == [] && AllMine(s.objects, objects, i, owner, uids)
      invariant quiet ==>
        forall j :: i <= j < |objects| ==> objects[j] in uids && Undone(t, objects[j], uids[objects[j]])
    {
      ghost var was, before, named := s.objects, t, errors;
      if quiet {
        OthersStayMine(was, objects, i, owner, uids);
      }
      var error, turn := CleanUpOne(s, objects[i], owner, uids);
      t := t + turn;
      if error.Some? {
        errors := errors + [(objects[i], error.value)];
      }
      assert CleanedOneMore(objects, i, owner, uids, before, turn, named, error, t, errors);
      if quiet {
        assert Mine(was, objects[i], owner, uids);
        CleanTurn(objects[i], owner, uids, turn);
        MoreUndone(before, turn, objects, i, uids);
      }
    }
  }

  /** Somewhere in the log the object was removed, turn by turn. */
  ghost predicate Undone(t: seq<Entry>, key: Key, uid: nat) {
    exists p, q :: 0 <= p <= q <= |t| && Removes(t[p..q], key, uid)
  }

  lemma MoreUndone(t: seq<Entry>, turn: seq<Entry>, objects: seq<Key>, i: nat, uids: Uids)
    requires i < |objects| && objects[i] in uids && Removes(turn, objects[i], uids[objects[i]])
    requires forall j :: i < j < |objects| ==> objects[j] in uids && Undone(t, objects[j], uids[objects[j]])
    ensures forall j :: i <= j < |objects| ==> Undone(t + turn, objects[j], uids[objects[j]])
  {
    hide Removes;
    var all := t + turn;
    forall j | i <= j < |objects|
      ensures Undone(all, objects[j], uids[objects[j]])
    {
      if j == i {
        assert all[|t|..|all|] == turn;
      } else {
        var p, q :| 0 <= p <= q <= |t| && Removes(t[p..q], objects[j], uids[objects[j]]);
        assert all[p..q] == t[p..q];
      }
    }
  }

  // ----- the whole log -----

  ghost predicate SeenAbsent(log: seq<Entry>, from: nat, key: Key) {
    exists i :: from <= i < |log| && log[i] == Saw(key, None)
  }

  ghost predicate MadeBefore(log: seq<Entry>, i: int, key: Key, uid: nat) {
    exists j :: 0 <= j < i <= |log| && log[j] == Made(key, uid)
  }

  /** A delete is asked for, or done, only with the UID that a create of this run returned for that very
      object, and the object named by a delete carries this run's label when it is removed. */
  ghost predicate Owned(log: seq<Entry>, owner: string) {
    forall i :: 0 <= i < |log| ==> OwnedAt(log, i, owner)
  }

  ghost predicate OwnedAt(log: seq<Entry>, i: int, owner: string)
    requires 0 <= i < |log|
  {
    match log[i]
    case Asked(key, uid, _) => MadeBefore(log, i, key, uid)
    case Removed(key, o, _) => MadeBefore(log, i, key, o.uid) && o.owner == Some(owner)
    case _ => true
  }

  /** Every recorded UID was returned by a create of this run. */
  ghost predicate Returned(log: seq<Entry>, uids: Uids) {
    forall k :: k in uids ==> MadeBefore(log, |log|, k, uids[k])
  }

  lemma MadeStays(log: seq<Entry>, t: seq<Entry>, i: int, key: Key, uid: nat)
    requires MadeBefore(log, |log|, key, uid) && |log| <= i <= |log + t|
    ensures MadeBefore(log + t, i, key, uid)
  {
    var j :| 0 <= j < |log| && log[j] == Made(key, uid);
    assert (log + t)[j] == log[j];
  }

  lemma OwnedBefore(log: seq<Entry>, t: seq<Entry>, owner: string, i: int)
    requires Owned(log, owner) && 0 <= i < |log|
    ensures OwnedAt(log + t, i, owner)
  {
    assert OwnedAt(log, i, owner) && (log + t)[i] == log[i];
    if log[i].Asked? {
      var j :| 0 <= j < i && log[j] == Made(log[i].key, log[i].uid);
      assert (log + t)[j] == log[j];
    } else if log[i].Removed? {
      var j :| 0 <= j < i && log[j] == Made(log[i].key, log[i].item.uid);
      assert (log + t)[j] == log[j];
    }
  }

  /** Entries that ask for nothing and remove nothing keep the log owned. */
  lemma OwnedHarmless(log: seq<Entry>, t: seq<Entry>, owner: string)
    requires Owned(log, owner) && forall i :: 0 <= i < |t| ==> !t[i].Asked? && !t[i].Removed?
    ensures Owned(log + t, owner)
  {
    forall i | 0 <= i < |log + t|
      ensures OwnedAt(log + t, i, owner)
    {
      if i < |log| {
        OwnedBefore(log, t, owner, i);
      } else {
        assert (log + t)[i] == t[i - |log|];
      }
    }
  }

  /** So does a turn of the cleanup loop, because of what it checks before it asks. */
  lemma TurnKeepsOwned(log: seq<Entry>, t: seq<Entry>, owner: string, uids: Uids, key: Key, error: Option<CleanupError>)
    requires Owned(log, owner) && Returned(log, uids) && Turn(key, owner, uids, t, error)
    ensures Owned(log + t, owner) && Returned(log + t, uids)
  {
    var all := log + t;
    forall k | k in uids
      ensures MadeBefore(all, |all|, k, uids[k])
    {
      MadeStays(log, t, |all|, k, uids[k]);
    }
    if |t| > 1 {
      MadeStays(log, t, |log| + 1, key, uids[key]);
      MadeStays(log, t, |log| + 2, key, uids[key]);
      AskedOnce(key, owner, uids, t, error);
    }
    forall i | 0 <= i < |all|
      ensures OwnedAt(all, i, owner)
    {
      if i < |log| {
        OwnedBefore(log, t, owner, i);
      } else {
        assert all[i] == t[i - |log|];
      }
    }
  }

  /** A turn asks for one deletion at most, right after it saw the object, and removes no other object. */
  lemma AskedOnce(key: Key, owner: string, uids: Uids, t: seq<Entry>, error: Option<CleanupError>)
    requires Turn(key, owner, uids, t, error) && |t| > 1
    ensures key in uids && t[0].Saw? && t[0].found.Some? && t[0].found.value.owner == Some(owner)
    ensures t[0].found.value.uid == uids[key] && t[1] == Asked(key, uids[key], t[0].found.value.version)
    ensures forall i :: 2 <= i < |t| ==> !t[i].Asked? && !t[i].Made?
    ensures forall i :: 2 <= i < |t| && t[i].Removed? ==> i == 2 && t[i].key == key && t[i].item == t[0].found.value
  {
    var r := t[2..];
    assert forall i :: 2 <= i < |t| ==> t[i] == r[i - 2];
  }

  lemma UidsReturned(log: seq<Entry>, objects: seq<Key>, ids: seq<nat>)
    requires |ids| <= |objects|
    ensures Returned(log + Creations(objects, ids), UidsOf(objects, ids))
  {
    if ids != [] {
      var n := |ids| - 1;
      var before := log + Creations(objects, ids[..n]);
      var last := [Made(objects[n], ids[n]), Done];
      UidsReturned(log, objects, ids[..n]);
      assert log + Creations(objects, ids) == before + last;
      assert (before + last)[|before|] == last[0];
      forall k | k in UidsOf(objects, ids)
        ensures MadeBefore(before + last, |before + last|, k, UidsOf(objects, ids)[k])
      {
        if k != objects[n] {
          MadeStays(before, last, |before + last|, k, UidsOf(objects, ids)[k]);
        }
      }
    }
  }

  /** An object is seen absent, or an error names it. */
  ghost predicate Accounted(t: seq<Entry>, errors: seq<(Key, CleanupError)>, key: Key) {
    Saw(key, None) in t || exists e :: e in errors && e.0 == key
  }

  lemma {:induction false} CleanedAccounts(objects: seq<Key>, i: nat, owner: string, uids: Uids, t: seq<Entry>,
                                           errors: seq<(Key, CleanupError)>)
    requires Cleaned(objects, i, owner, uids, t, errors)
    ensures forall j :: i <= j < |objects| ==> Accounted(t, errors, objects[j])
    ensures forall n :: 0 <= n < |t| ==> !t[n].Made?
    decreases |objects| - i
  {
    hide Turn;
    if i < |objects| {
      var a, b, named: seq<(Key, CleanupError)>, error :|
        CleanedOneMore(objects, i, owner, uids, a, b, named, error, t, errors)
        && Cleaned(objects, i + 1, owner, uids, a, named);
      CleanedAccounts(objects, i + 1, owner, uids, a, named);
      TurnAccounts(objects[i], owner, uids, b, error);
      if error.Some? {
        assert errors[|named|] == (objects[i], error.value);
      }
      forall j | i < j < |objects|
        ensures Accounted(t, errors, objects[j])
      {
        if Saw(objects[j], None) !in a {
          var e: (Key, CleanupError) :| e in named && e.0 == objects[j];
          assert e in errors;
        }
      }
    }
  }

  lemma TurnAccounts(key: Key, owner: string, uids: Uids, t: seq<Entry>, error: Option<CleanupError>)
    requires Turn(key, owner, uids, t, error)
    ensures error.None? ==> Saw(key, None) in t
    ensures forall n :: 0 <= n < |t| ==> !t[n].Made?
  {
    if |t| > 1 {
      AskedOnce(key, owner, uids, t, error);
    }
    if error.None? {
      CleanTurn(key, owner, uids, t);
    }
  }

  lemma {:induction false} CleanedOwned(log: seq<Entry>, objects: seq<Key>, i: nat, owner: string, uids: Uids,
                                        t: seq<Entry>, errors: seq<(Key, CleanupError)>)
    requires Owned(log, owner) && Returned(log, uids) && Cleaned(objects, i, owner, uids, t, errors)
    ensures Owned(log + t, owner) && Returned(log + t, uids)
    decreases |objects| - i
  {
    hide Owned, Returned, Turn;
    if i < |objects| {
      var a, b, named: seq<(Key, CleanupError)>, error :|
        CleanedOneMore(objects, i, owner, uids, a, b, named, error, t, errors)
        && Cleaned(objects, i + 1, owner, uids, a, named);
      CleanedOwned(log, objects, i + 1, owner, uids, a, named);
      TurnKeepsOwned(log + a, b, owner, uids, objects[i], error);
      assert log + t == log + a + b;
    } else {
      assert log + t == log;
    }
  }

  // ----- the whole run -----

  /** What the run adds to the log, phase by phase. */
  datatype Trace = Trace(scan: seq<Entry>, creation: seq<Entry>, calls: seq<Entry>, cleanup: seq<Entry>)
  {
    function All(): seq<Entry> {
      scan + creation + calls + cleanup
    }
  }

  ghost predicate Stopped(t: seq<Entry>) {
    t != [] && t[|t| - 1] == Broke
  }

  /** As many further calls as the probe makes, or up to the first that fails. */
  ghost predicate Exercised(calls: nat, t: seq<Entry>) {
    && |t| <= calls && (|t| < calls ==> Stopped(t))
    && forall i :: 0 <= i < |t| ==> t[i] == Done || (t[i] == Broke && i == |t| - 1)
  }

  /** The run: after a clear scan objects are created and, if all were, the probe makes its calls; whatever
      became of these, the cleanup follows, and its errors come first in how the run ends. */
  ghost predicate Story(objects: seq<Key>, owner: string, calls: nat, fails: bool, ids: seq<nat>, t: Trace,
                        outcome: Outcome)
  {
    if outcome.NotStarted? then Scanned(objects, t.scan, false) && t.All() == t.scan
    else
      && Scanned(objects, t.scan, true)
      && var made := |ids| == |objects|;
      && Created(objects, ids, t.creation, made) && Exercised(if made then calls else 0, t.calls)
      && exists errors ::
        && Cleaned(objects, 0, owner, UidsOf(objects, ids), t.cleanup, errors)
        && outcome == if errors != [] then CleanupIncomplete(errors)
                      else if !made || Stopped(t.calls) || fails then Raised else Passed
  }

  method Exercise(s: Server, calls: nat) returns (ok: bool, ghost t: seq<Entry>)
    requires s.Valid()
    modifies s
    ensures s.Valid() && s.Extends() && s.log == old(s.log) + t
    ensures Exercised(calls, t) && (ok <==> !Stopped(t))
    ensures s.Quiet() ==> ok && s.objects == old(s.objects)
  {
    t := [];
    for i := 0 to calls
      invariant s.Valid() && s.Extends() && s.log == old(s.log) + t
      invariant |t| == i && forall j :: 0 <= j < i ==> t[j] == Done
      invariant s.Quiet() ==> s.objects == old(s.objects)
    {
      var reply := s.Other();
      t := t + [if reply.Ok? then Done else Broke];
      if reply.Failed? {
        return false, t;
      }
    }
    ok := true;
  }

  /** `calls` is how many further calls the probe itself makes, and `fails` whether it raises. Left alone,
      the probe passes, and everything it created is gone. */
  method Check(s: Server, objects: seq<Key>, owner: string, calls: nat, fails: bool)
    returns (outcome: Outcome, ghost ids: seq<nat>, ghost t: Trace)
    requires s.Valid()
    modifies s
    ensures s.Valid() && s.log == old(s.log) + t.All()
    ensures Story(objects, owner, calls, fails, ids, t, outcome)
    ensures s.Quiet() && !fails && Distinct(objects) && (forall k :: k in objects ==> k !in old(s.objects)) ==>
      outcome == Passed && forall k :: k in objects ==> CameAndWent(t, k)
  {
    hide Scanned, Created, Exercised, Cleaned, Undone, AllMine, Distinct, Stopped,
         Story, UidsOf, CameAndWent, Trace.All;
    ghost var quiet := s.Quiet() && !fails && Distinct(objects) && forall k :: k in objects ==> k !in s.objects;
    ids, t := [], Trace([], [], [], []);
    var clear, scan := NoCollision(s, objects);
    t := t.(scan := scan);
    if !clear {
      NoStory(objects, owner, calls, fails, scan);
      assert old(s.log) + t.All() == old(s.log) + scan;
      return NotStarted, ids, t;
    }
    var uids, made, gave, creation := CreateAll(s, objects, owner);
    ids, t := gave, t.(creation := creation);
    var ok, used := Exercise(s, if made then calls else 0);
    t := t.(calls := used);
    var errors, cleanup := CleanUp(s, objects, owner, uids);
    t := t.(cleanup := cleanup);
    CreatedMeans(objects, ids, creation, made);
    outcome := if errors != [] then CleanupIncomplete(errors) else if !made || !ok || fails then Raised else Passed;
    StoryEnds(objects, owner, calls, fails, ids, t, errors, outcome);
    AllAdds(old(s.log), t);
    if quiet {
      AllCameAndWent(objects, ids, t);
    }
  }

  lemma AllAdds(log: seq<Entry>, t: Trace)
    ensures log + t.scan + t.creation + t.calls + t.cleanup == log + t.All()
  {
  }

  lemma NoStory(objects: seq<Key>, owner: string, calls: nat, fails: bool, scan: seq<Entry>)
    requires Scanned(objects, scan, false)
    ensures Trace(scan, [], [], []).All() == scan
    ensures Story(objects, owner, calls, fails, [], Trace(scan, [], [], []), NotStarted)
  {
    hide Scanned;
  }

  lemma StoryEnds(objects: seq<Key>, owner: string, calls: nat, fails: bool, ids: seq<nat>, t: Trace,
                  errors: seq<(Key, CleanupError)>, outcome: Outcome)
    requires Scanned(objects, t.scan, true)
    requires Created(objects, ids, t.creation, |ids| == |objects|)
    requires Exercised(if |ids| == |objects| then calls else 0, t.calls) && |ids| <= |objects|
    requires Cleaned(objects, 0, owner, UidsOf(objects, ids), t.cleanup, errors)
    requires outcome == if errors != [] then CleanupIncomplete(errors)
                        else if |ids| != |objects| || Stopped(t.calls) || fails then Raised else Passed
    ensures Story(objects, owner, calls, fails, ids, t, outcome)
  {
    hide Scanned, Created, Exercised, Cleaned, UidsOf, Stopped;
  }

  /** The object was created by the run, and its cleanup removed just that. */
  ghost predicate CameAndWent(t: Trace, key: Key) {
    exists uid :: Made(key, uid) in t.creation && Undone(t.cleanup, key, uid)
  }

  lemma CreatedMeans(objects: seq<Key>, ids: seq<nat>, t: seq<Entry>, made: bool)
    requires Created(objects, ids, t, made)
    ensures |ids| <= |objects| && (made <==> |ids| == |objects|) && (made ==> t == Creations(objects, ids))
  {
  }

  lemma AllCameAndWent(objects: seq<Key>, ids: seq<nat>, t: Trace)
    requires |ids| == |objects| && t.creation == Creations(objects, ids)
    requires forall k :: k in objects ==> k in UidsOf(objects, ids) && Undone(t.cleanup, k, UidsOf(objects, ids)[k])
    ensures forall k :: k in objects ==> CameAndWent(t, k)
  {
    hide Undone;
    var uids := UidsOf(objects, ids);
    UidsReturned([], objects, ids);
    forall k | k in objects
      ensures CameAndWent(t, k)
    {
      var log := [] + Creations(objects, ids);
      assert MadeBefore(log, |log|, k, uids[k]);
    }
  }

  // ----- what every run keeps, whatever others do -----

  lemma StartIsOwned(objects: seq<Key>, owner: string, ids: seq<nat>, scan: seq<Entry>, t: seq<Entry>, made: bool)
    requires Created(objects, ids, t, made) && Owned(scan, owner)
    ensures Owned(scan + t, owner) && Returned(scan + t, UidsOf(objects, ids))
  {
    hide Owned, Returned, UidsOf;
    var given := Creations(objects, ids);
    var rest := t[|given|..];
    OwnedHarmless(scan, t, owner);
    UidsReturned(scan, objects, ids);
    ReturnedStays(scan + given, rest, UidsOf(objects, ids));
    assert scan + t == scan + given + rest;
  }

  /** Every delete names an object by a UID that a create of this run returned for it. */
  lemma RunIsOwned(objects: seq<Key>, owner: string, calls: nat, fails: bool, ids: seq<nat>, t: Trace, outcome: Outcome)
    requires Story(objects, owner, calls, fails, ids, t, outcome)
    ensures Owned(t.All(), owner)
  {
    hide Owned, Returned, Cleaned, Created, UidsOf;
    ScanIsOwned(objects, owner, t.scan, !outcome.NotStarted?);
    if !outcome.NotStarted? {
      var made, start := |ids| == |objects|, t.scan + t.creation;
      CreatedMeans(objects, ids, t.creation, made);
      var errors :| Cleaned(objects, 0, owner, UidsOf(objects, ids), t.cleanup, errors);
      StartIsOwned(objects, owner, ids, t.scan, t.creation, made);
      OwnedHarmless(start, t.calls, owner);
      ReturnedStays(start, t.calls, UidsOf(objects, ids));
      CleanedOwned(start + t.calls, objects, 0, owner, UidsOf(objects, ids), t.cleanup, errors);
    }
  }

  lemma ScanIsOwned(objects: seq<Key>, owner: string, t: seq<Entry>, clear: bool)
    requires Scanned(objects, t, clear)
    ensures Owned(t, owner)
  {
    hide Owned;
    OwnedNothing(owner);
    assert [] + t == t;
    OwnedHarmless([], t, owner);
  }

  lemma OwnedNothing(owner: string)
    ensures Owned([], owner)
  {
  }

  lemma ReturnedStays(log: seq<Entry>, t: seq<Entry>, uids: Uids)
    requires Returned(log, uids)
    ensures Returned(log + t, uids)
  {
    forall k | k in uids
      ensures MadeBefore(log + t, |log + t|, k, uids[k])
    {
      MadeStays(log, t, |log + t|, k, uids[k]);
    }
  }

  /** A run that does not start touched nothing, and its last lookup failed or found an object. */
  lemma NotStartedMeans(objects: seq<Key>, owner: string, calls: nat, fails: bool, ids: seq<nat>, t: Trace)
    requires Story(objects, owner, calls, fails, ids, t, NotStarted)
    ensures var log := t.All();
      && (forall i :: 0 <= i < |log| - 1 ==> log[i].Saw? && log[i].found.None?) && log != []
      && var last := log[|log| - 1];
      last == Broke || (last.Saw? && last.key in objects && last.found.Some?)
  {
  }

  /** However a started run ends, every object was seen absent after the last create or is named in an
      error. */
  lemma EveryObjectAccounted(objects: seq<Key>, owner: string, calls: nat, fails: bool, ids: seq<nat>, t: Trace,
                             outcome: Outcome)
    requires Story(objects, owner, calls, fails, ids, t, outcome) && !outcome.NotStarted?
    ensures forall i :: 0 <= i < |t.cleanup| ==> !t.cleanup[i].Made?
    ensures var errors := if outcome.CleanupIncomplete? then outcome.errors else [];
      && (outcome.CleanupIncomplete? <==> errors != [])
      && forall k :: k in objects ==> Accounted(t.cleanup, errors, k)
  {
    hide Cleaned, Accounted;
    var errors :| Cleaned(objects, 0, owner, UidsOf(objects, ids), t.cleanup, errors)
      && outcome == if errors != [] then CleanupIncomplete(errors)
                    else if |ids| != |objects| || Stopped(t.calls) || fails then Raised else Passed;
    CleanedAccounts(objects, 0, owner, UidsOf(objects, ids), t.cleanup, errors);
  }

  /** A run passes only when all objects were created, all calls answered, and all objects seen absent. */
  lemma PassedMeans(objects: seq<Key>, owner: string, calls: nat, fails: bool, ids: seq<nat>, t: Trace)
    requires Story(objects, owner, calls, fails, ids, t, Passed)
    ensures !fails && |t.calls| == calls && forall i :: 0 <= i < calls ==> t.calls[i] == Done
    ensures forall k :: k in objects ==> Saw(k, None) in t.scan && (exists uid :: Made(k, uid) in t.creation)
    ensures forall k :: k in objects ==> Saw(k, None) in t.cleanup
  {
    EveryObjectAccounted(objects, owner, calls, fails, ids, t, Passed);
    hide Cleaned;
    forall k | k in objects
      ensures Saw(k, None) in t.scan
      ensures exists uid :: Made(k, uid) in t.creation
      ensures Saw(k, None) in t.cleanup
    {
      assert Accounted(t.cleanup, [], k);
      var i :| 0 <= i < |objects| && objects[i] == k;
      assert t.scan[i] == Saw(k, None);
      CreationHas(objects, ids, i);
    }
  }

  lemma {:induction false} CreationHas(objects: seq<Key>, ids: seq<nat>, i: nat)
    requires i < |ids| <= |objects|
    ensures Made(objects[i], ids[i]) in Creations(objects, ids)
  {
    var n := |ids| - 1;
    if i < n {
      CreationHas(objects, ids[..n], i);
    }
  }

  /** The removal of `key` takes `o` with it, which stood at `k`. */
  predicate Takes(e: Entry, k: Key, o: Object) {
    e.Removed? && ((k == e.key && o == e.item) || (k in e.contents && e.contents[k] == o))
  }

  /** Whatever goes, and whoever made it: this run created it, or it stood in a namespace that this run
      created and asked to delete. */
  lemma RemovedIsOwnOrInside(s: Server, owner: string, i: int, k: Key, o: Object)
    requires s.Valid() && Owned(s.log, owner) && 0 <= i < |s.log| && Takes(s.log[i], k, o)
    ensures var e := s.log[i];
      && MadeBefore(s.log, i, e.key, e.item.uid) && e.item.uid in s.made && e.item.uid !in s.others
      && (o.uid in s.others ==> e.key.kind.Namespace? && k.space == Some(e.key.name))
  {
    assert OwnedAt(s.log, i, owner) && s.Recorded(s.log[i]);
    var j :| 0 <= j < i && s.log[j] == Made(s.log[i].key, s.log[i].item.uid);
    assert s.Recorded(s.log[j]);
  }

  /** And that does happen: an object another client puts into the namespace goes with it, although every
      delete is owned. */
  method OthersGoWithTheNamespace(owner: string) returns (s: Server, k: Key)
    ensures s.Valid() && Owned(s.log, owner) && |s.log| == 6
    ensures exists o :: Takes(s.log[4], k, o) && o.uid in s.others
  {
    hide Owned, Inside;
    var space := Key(Namespace, "probe", None);
    k := Key(Inner, "theirs", Some("probe"));
    s := CreateThenPut(space, owner, k);
    ghost var theirs := s.objects[k];
    var seen := s.Get(space);
    var found := s.objects[space];
    StandsInside(s.objects, space, k);
    var deleted := s.Delete(space, found.uid, found.version);
    ghost var log := s.log;
    assert Takes(log[4], k, theirs);
    OneDelete(log, owner, space, found);
  }

  method CreateThenPut(space: Key, owner: string, k: Key) returns (s: Server)
    requires k != space
    ensures fresh(s) && s.Valid() && s.Quiet() && space in s.objects && k in s.objects
    ensures s.objects[space].owner == Some(owner) && s.objects[k].uid in s.others
    ensures s.log == [Made(space, s.objects[space].uid), Done]
  {
    s := new Server(_ => QUIET);
    var created := s.Create(space, owner);
    s.Interfere(Put(k, None));
  }

  lemma StandsInside(objects: Objects, space: Key, k: Key)
    requires k in objects && space.kind.Namespace? && k.space == Some(space.name)
    ensures k in Inside(objects, space) && Inside(objects, space)[k] == objects[k]
  {
  }

  lemma OneDelete(log: seq<Entry>, owner: string, key: Key, o: Object)
    requires |log| == 6 && log[0] == Made(key, o.uid) && log[1] == log[5] == Done && log[2].Saw?
    requires log[3] == Asked(key, o.uid, o.version) && o.owner == Some(owner)
    requires log[4].Removed? && log[4].key == key && log[4].item == o
    ensures Owned(log, owner)
  {
    assert MadeBefore(log, 3, key, o.uid) && MadeBefore(log, 4, key, o.uid);
    assert forall i :: 0 <= i < 6 ==> OwnedAt(log, i, owner);
  }
}
