// `cleanup` (scripts/cleanup_acas_sandboxes.py): inventory a group, pick what has been stopped for long,
// look at each again and delete it. What the service answers to each call is unconstrained, so anything
// may have happened between the inventory and a second look.
module SandboxSweep {
  import opened Common

  // ----- what the service answers -----

  /** `stateDetails.stoppedAt`: absent, no date, without a zone, not representable in UTC, or an instant. */
  datatype Stamp = Absent | Unreadable | NoZone | OutOfRange | At(time: int)

  /** An empty `id` stands for a missing one. */
  datatype Sandbox = Sandbox(id: string, state: string, stamp: Stamp)

  datatype Found = Found(sandbox: Sandbox) | NotFound | Unavailable

  datatype Removal = Confirmed | AlreadyGone | Refused

  /** The answers to `list_sandboxes`, and to the second look and the delete of each candidate. */
  datatype Service = Service(inventory: Option<seq<Sandbox>>, look: nat -> Found, remove: nat -> Removal)

  // ----- `_stopped_at` -----

  /** None of the two: a ValueError, or an OverflowError, which the inventory loop does not catch. */
  datatype Stop = Running | Since(time: int) | Invalid | Overflow

  function StoppedAt(s: Sandbox): Stop {
    if s.state != "Stopped" then Running
    else match s.stamp
      case At(time) => Since(time)
      case OutOfRange => Overflow
      case _ => Invalid
  }

  // ----- the result -----

  datatype Failure = NoInventory | BadIds | InvalidStamp(id: string) | NotDeleted(id: string)

  /** What a `CleanupResult` holds, as a value. */
  datatype Report = Report(
    cutoff: int, dryRun: bool, scanned: nat, eligible: seq<string>, deleted: seq<string>,
    alreadyAbsent: seq<string>, retained: seq<string>, failures: seq<Failure>)

  class CleanupResult {
    var cutoff: int
    var dryRun: bool
    var scanned: nat
    var eligible: seq<string>
    var deleted: seq<string>
    var alreadyAbsent: seq<string>
    var retained: seq<string>
    var failures: seq<Failure>

    constructor (cutoff: int, dryRun: bool)
      ensures Value() == Report(cutoff, dryRun, 0, [], [], [], [], [])
    {
      this.cutoff, this.dryRun, scanned := cutoff, dryRun, 0;
      eligible, deleted, alreadyAbsent, retained, failures := [], [], [], [], [];
    }

    function Value(): Report
      reads this
    {
      Report(cutoff, dryRun, scanned, eligible, deleted, alreadyAbsent, retained, failures)
    }
  }

  // ----- the inventory -----

  predicate IdsAreUsable(inventory: seq<Sandbox>) {
    && (forall i :: 0 <= i < |inventory| ==> inventory[i].id != "")
    && (forall i, j :: 0 <= i < j < |inventory| ==> inventory[i].id != inventory[j].id)
  }

  predicate IsCandidate(s: Sandbox, cutoff: int) {
    StoppedAt(s).Since? && StoppedAt(s).time < cutoff
  }

  /** The sandboxes stopped before the cutoff, in inventory order. */
  function Candidates(inventory: seq<Sandbox>, cutoff: int): seq<Sandbox> {
    if inventory == [] then []
    else
      var front, last := Candidates(inventory[..|inventory| - 1], cutoff), inventory[|inventory| - 1];
      if IsCandidate(last, cutoff) then front + [last] else front
  }

  function Complaints(inventory: seq<Sandbox>): seq<Failure> {
    if inventory == [] then []
    else
      var front, last := Complaints(inventory[..|inventory| - 1]), inventory[|inventory| - 1];
      if StoppedAt(last).Invalid? then front + [InvalidStamp(last.id)] else front
  }

  predicate AnyOverflow(inventory: seq<Sandbox>) {
    exists i :: 0 <= i < |inventory| && StoppedAt(inventory[i]).Overflow?
  }

  function Ids(sandboxes: seq<Sandbox>): (ids: seq<string>)
    ensures |ids| == |sandboxes| && forall i :: 0 <= i < |ids| ==> ids[i] == sandboxes[i].id
  {
    seq(|sandboxes|, i requires 0 <= i < |sandboxes| => sandboxes[i].id)
  }

  // ----- the second look -----

  datatype Verdict = Deleted | Gone | Kept | Failing

  /** The second look shows the same sandbox with the same stop time, so its deletion is requested. */
  predicate Unchanged(candidate: Sandbox, found: Found) {
    found.Found? && found.sandbox.id == candidate.id && StoppedAt(found.sandbox) == StoppedAt(candidate)
  }

  function VerdictOn(service: Service, candidate: Sandbox, i: nat): Verdict {
    match service.look(i)
    case NotFound => Gone
    case Unavailable => Failing
    case Found(s) =>
      if s.id != candidate.id || StoppedAt(s).Invalid? || StoppedAt(s).Overflow? then Failing
      else if StoppedAt(s) != StoppedAt(candidate) then Kept
      else match service.remove(i)
        case Confirmed => Deleted
        case AlreadyGone => Gone
        case Refused => Failing
  }

  /** The ids of the first `n` candidates with verdict `v`, in order. */
  function With(service: Service, candidates: seq<Sandbox>, n: nat, v: Verdict): seq<string>
    requires n <= |candidates|
  {
    if n == 0 then []
    else
      var front, last := With(service, candidates, n - 1, v), candidates[n - 1];
      if VerdictOn(service, last, n - 1) == v then front + [last.id] else front
  }

  function Requested(service: Service, candidates: seq<Sandbox>, n: nat): seq<string>
    requires n <= |candidates|
  {
    if n == 0 then []
    else
      var front, last := Requested(service, candidates, n - 1), candidates[n - 1];
      if Unchanged(last, service.look(n - 1)) then front + [last.id] else front
  }

  function NotDeletedAll(ids: seq<string>): (failures: seq<Failure>)
    ensures |failures| == |ids| && forall i :: 0 <= i < |ids| ==> failures[i] == NotDeleted(ids[i])
  {
    seq(|ids|, i requires 0 <= i < |ids| => NotDeleted(ids[i]))
  }

  // ----- the sweep -----

  /** The clock: an instant, or one without a zone. */
  datatype Clock = Naive | Utc(now: int)

  /** What a sweep reports, given that it returns. */
  function Expected(service: Service, cutoff: int, apply: bool): Report {
    var empty := Report(cutoff, !apply, 0, [], [], [], [], []);
    match service.inventory
    case None => empty.(failures := [NoInventory])
    case Some(inventory) =>
      var seen := empty.(scanned := |inventory|);
      if !IdsAreUsable(inventory) then seen.(failures := [BadIds])
      else
        var candidates := Candidates(inventory, cutoff);
        var listed := seen.(eligible := Ids(candidates), failures := Complaints(inventory));
        if !apply then listed
        else
          var n := |candidates|;
          listed.(
            deleted := With(service, candidates, n, Deleted),
            alreadyAbsent := With(service, candidates, n, Gone),
            retained := With(service, candidates, n, Kept),
            failures := Complaints(inventory) + NotDeletedAll(With(service, candidates, n, Failing)))
  }

  /** What a sweep asks the service to delete. */
  function ExpectedRequests(service: Service, cutoff: int, apply: bool): seq<string> {
    if !apply || service.inventory.None? || !IdsAreUsable(service.inventory.value) then []
    else
      var candidates := Candidates(service.inventory.value, cutoff);
      Requested(service, candidates, |candidates|)
  }

  /** The sweep raises for a duration that is not positive, a clock without a zone, and a stop time in the
      inventory that has no UTC form. */
  predicate Raises(service: Service, stoppedFor: int, clock: Clock) {
    || stoppedFor <= 0 || clock.Naive?
    || (service.inventory.Some? && IdsAreUsable(service.inventory.value) && AnyOverflow(service.inventory.value))
  }

  method Cleanup(service: Service, stoppedFor: int, apply: bool, clock: Clock)
    returns (result: Option<CleanupResult>, ghost requests: seq<string>)
    ensures result.None? <==> Raises(service, stoppedFor, clock)
    ensures result.None? ==> requests == []
    ensures result.Some? ==>
      var cutoff := clock.now - stoppedFor;
      fresh(result.value) && result.value.Value() == Expected(service, cutoff, apply)
      && requests == ExpectedRequests(service, cutoff, apply)
    // A preview, an inventory that could not be had, and a missing or repeated id: no deletion at all.
    ensures !apply || service.inventory.None? || !IdsAreUsable(service.inventory.value) ==>
      requests == [] && (result.Some? ==> result.value.deleted == [])
  {
    hide Candidates, Complaints, AnyOverflow, IdsAreUsable, StoppedAt, With, Requested;
    requests := [];
    if stoppedFor <= 0 || clock.Naive? {
      return None, [];
    }
    var cutoff := clock.now - stoppedFor;
    var r := new CleanupResult(cutoff, !apply);
    if service.inventory.None? {
      r.failures := r.failures + [NoInventory];
      return Some(r), [];
    }
    var sandboxes := service.inventory.value;
    r.scanned := |sandboxes|;
    var usable := CheckIds(sandboxes);
    if !usable {
      r.failures := r.failures + [BadIds];
      return Some(r), [];
    }
    var candidates: seq<Sandbox> := [];
    InventoryStart(cutoff);
    for i := 0 to |sandboxes|
      invariant r.Value() == Report(cutoff, !apply, |sandboxes|, [], [], [], [], Complaints(sandboxes[..i]))
      invariant candidates == Candidates(sandboxes[..i], cutoff)
      invariant !AnyOverflow(sandboxes[..i])
    {
      InventoryStep(sandboxes, i, cutoff);
      var stopped := StoppedAt(sandboxes[i]);
      if stopped.Overflow? {
        return None, [];
      }
      if stopped.Invalid? {
        r.failures := r.failures + [InvalidStamp(sandboxes[i].id)];
      } else if stopped.Since? && stopped.time < cutoff {
        candidates := candidates + [sandboxes[i]];
      }
    }
    assert sandboxes[..|sandboxes|] == sandboxes;
    r.eligible := Ids(candidates);
    if !apply {
      return Some(r), [];
    }
    CandidatesAreStopped(sandboxes, cutoff);
    requests := Sweep(service, candidates, r);
    return Some(r), requests;
  }

  lemma InventoryStart(cutoff: int)
    ensures Candidates([], cutoff) == [] && Complaints([]) == [] && !AnyOverflow([])
  {
  }

  lemma InventoryStep(inventory: seq<Sandbox>, i: nat, cutoff: int)
    requires i < |inventory|
    ensures var before, after, last := inventory[..i], inventory[..i + 1], inventory[i];
      && Candidates(after, cutoff) == Candidates(before, cutoff) + (if IsCandidate(last, cutoff) then [last] else [])
      && Complaints(after) == Complaints(before) + (if StoppedAt(last).Invalid? then [InvalidStamp(last.id)] else [])
      && (AnyOverflow(after) <==> AnyOverflow(before) || StoppedAt(last).Overflow?)
      && (StoppedAt(last).Overflow? ==> AnyOverflow(inventory))
  {
    hide StoppedAt;
    var before, after := inventory[..i], inventory[..i + 1];
    assert after[..i] == before && after[i] == inventory[i];
    assert forall j :: 0 <= j < i ==> after[j] == before[j];
  }

  method CheckIds(sandboxes: seq<Sandbox>) returns (usable: bool)
    ensures usable == IdsAreUsable(sandboxes)
  {
    var seen: set<string> := {};
    for i := 0 to |sandboxes|
      invariant seen == set j | 0 <= j < i :: sandboxes[j].id
      invariant IdsAreUsable(sandboxes[..i])
    {
      if sandboxes[i].id == "" || sandboxes[i].id in seen {
        return false;
      }
      seen := seen + {sandboxes[i].id};
    }
    assert sandboxes[..|sandboxes|] == sandboxes;
    usable := true;
  }

  /** The last loop: every candidate gets one entry in one list. */
  method Sweep(service: Service, candidates: seq<Sandbox>, r: CleanupResult) returns (ghost requests: seq<string>)
    requires r.deleted == r.alreadyAbsent == r.retained == []
    requires forall c :: c in candidates ==> StoppedAt(c).Since?
    modifies r
    ensures requests == Requested(service, candidates, |candidates|)
    ensures var was, n := old(r.Value()), |candidates|;
      r.Value() == was.(
        deleted := With(service, candidates, n, Deleted),
        alreadyAbsent := With(service, candidates, n, Gone),
        retained := With(service, candidates, n, Kept),
        failures := was.failures + NotDeletedAll(With(service, candidates, n, Failing)))
  {
    requests := [];
    ghost var was := r.Value();
    for i := 0 to |candidates|
      invariant requests == Requested(service, candidates, i)
      invariant r.Value() == was.(
        deleted := With(service, candidates, i, Deleted),
        alreadyAbsent := With(service, candidates, i, Gone),
        retained := With(service, candidates, i, Kept),
        failures := was.failures + NotDeletedAll(With(service, candidates, i, Failing)))
    {
      assert candidates[i] in candidates;
      var verdict, asked := Consider(service, candidates[i], i, r);
      if asked {
        requests := requests + [candidates[i].id];
      }
      NotDeletedAlso(With(service, candidates, i, Failing), candidates[i].id);
    }
  }

  lemma NotDeletedAlso(ids: seq<string>, id: string)
    ensures NotDeletedAll(ids + [id]) == NotDeletedAll(ids) + [NotDeleted(id)]
  {
  }

  /** One turn of the last loop. */
  method Consider(service: Service, candidate: Sandbox, i: nat, r: CleanupResult)
    returns (ghost verdict: Verdict, ghost asked: bool)
    requires StoppedAt(candidate).Since?
    modifies r
    ensures verdict == VerdictOn(service, candidate, i)
    ensures asked <==> Unchanged(candidate, service.look(i))
    ensures var was, id := old(r.Value()), candidate.id;
      r.Value() == match verdict
        case Deleted => was.(deleted := was.deleted + [id])
        case Gone => was.(alreadyAbsent := was.alreadyAbsent + [id])
        case Kept => was.(retained := was.retained + [id])
        case Failing => was.(failures := was.failures + [NotDeleted(id)])
  {
    verdict := VerdictOn(service, candidate, i);
    asked := false;
    var id, stopped := candidate.id, StoppedAt(candidate);
    match service.look(i)
    case NotFound =>
      r.alreadyAbsent := r.alreadyAbsent + [id];
    case Unavailable =>
      r.failures := r.failures + [NotDeleted(id)];
    case Found(sandbox) =>
      if sandbox.id != id || StoppedAt(sandbox).Invalid? || StoppedAt(sandbox).Overflow? {
        r.failures := r.failures + [NotDeleted(id)];
      } else if StoppedAt(sandbox) != stopped {
        r.retained := r.retained + [id];
      } else {
        asked := true;
        match service.remove(i) {
          case Confirmed => r.deleted := r.deleted + [id];
          case AlreadyGone => r.alreadyAbsent := r.alreadyAbsent + [id];
          case Refused => r.failures := r.failures + [NotDeleted(id)];
        }
      }
  }

  lemma {:induction false} CandidatesAreStopped(inventory: seq<Sandbox>, cutoff: int)
    ensures forall c :: c in Candidates(inventory, cutoff) <==> c in inventory && IsCandidate(c, cutoff)
  {
    if inventory != [] {
      CandidatesAreStopped(inventory[..|inventory| - 1], cutoff);
      assert inventory == inventory[..|inventory| - 1] + [inventory[|inventory| - 1]];
    }
  }

  // ----- what a sweep guarantees -----

  lemma {:induction false} WithMeans(service: Service, candidates: seq<Sandbox>, n: nat, v: Verdict, id: string)
    requires n <= |candidates|
    ensures id in With(service, candidates, n, v)
       <==> exists i :: 0 <= i < n && candidates[i].id == id && VerdictOn(service, candidates[i], i) == v
  {
    hide VerdictOn;
    if n > 0 {
      WithMeans(service, candidates, n - 1, v, id);
    }
  }

  /** Conservation: the four lists of verdicts are a rearrangement of the candidates. */
  lemma {:induction false} VerdictsPartition(service: Service, candidates: seq<Sandbox>, n: nat)
    requires n <= |candidates|
    ensures multiset(Ids(candidates[..n]))
         == multiset(With(service, candidates, n, Deleted)) + multiset(With(service, candidates, n, Gone))
          + multiset(With(service, candidates, n, Kept)) + multiset(With(service, candidates, n, Failing))
  {
    hide VerdictOn;
    if n > 0 {
      VerdictsPartition(service, candidates, n - 1);
      assert Ids(candidates[..n]) == Ids(candidates[..n - 1]) + [candidates[n - 1].id];
      forall v
        ensures var before := multiset(With(service, candidates, n - 1, v));
          multiset(With(service, candidates, n, v))
          == if VerdictOn(service, candidates[n - 1], n - 1) == v then before + multiset{candidates[n - 1].id}
             else before
      {
      }
      hide With, Ids;
    }
  }

  lemma {:induction false} CandidatesKeepOrder(inventory: seq<Sandbox>, cutoff: int)
    requires IdsAreUsable(inventory)
    ensures IdsAreUsable(Candidates(inventory, cutoff))
  {
    if inventory != [] {
      var front, last := inventory[..|inventory| - 1], inventory[|inventory| - 1];
      var kept := Candidates(front, cutoff);
      CandidatesKeepOrder(front, cutoff);
      CandidatesAreStopped(front, cutoff);
      forall i | 0 <= i < |kept|
        ensures kept[i].id != "" && kept[i].id != last.id
      {
        assert kept[i] in kept;
        var j :| 0 <= j < |front| && front[j] == kept[i];
        assert inventory[j].id != last.id;
      }
      hide Candidates, StoppedAt;
      assert IdsAreUsable(kept + [last]);
    }
  }

  /** In apply mode every eligible id ends up in exactly one of the lists: deleted, already absent,
      retained, or the new failures. */
  lemma EveryIdAccountedFor(service: Service, cutoff: int)
    requires service.inventory.Some? && IdsAreUsable(service.inventory.value)
    ensures var r := Expected(service, cutoff, true);
      var failed := With(service, Candidates(service.inventory.value, cutoff), |r.eligible|, Failing);
      && multiset(r.eligible)
        == multiset(r.deleted) + multiset(r.alreadyAbsent) + multiset(r.retained) + multiset(failed)
      && (forall id :: multiset(r.eligible)[id] <= 1)
      && r.failures == Complaints(service.inventory.value) + NotDeletedAll(failed)
  {
    var candidates := Candidates(service.inventory.value, cutoff);
    VerdictsPartition(service, candidates, |candidates|);
    assert candidates[..|candidates|] == candidates;
    CandidatesKeepOrder(service.inventory.value, cutoff);
    forall id
      ensures multiset(Ids(candidates))[id] <= 1
    {
      DistinctOnce(Ids(candidates), id);
    }
  }

  lemma {:induction false} DistinctOnce(ids: seq<string>, id: string)
    requires forall i, j :: 0 <= i < j < |ids| ==> ids[i] != ids[j]
    ensures multiset(ids)[id] <= 1 && (id !in ids ==> multiset(ids)[id] == 0)
  {
    if ids != [] {
      DistinctOnce(ids[1..], id);
      assert ids == [ids[0]] + ids[1..];
    }
  }

  /** A deletion is requested exactly for the candidates the second look shows unchanged. */
  lemma {:induction false} RequestedMeans(service: Service, candidates: seq<Sandbox>, n: nat, id: string)
    requires n <= |candidates|
    ensures id in Requested(service, candidates, n)
       <==> exists i :: 0 <= i < n && candidates[i].id == id && Unchanged(candidates[i], service.look(i))
  {
    hide Unchanged;
    if n > 0 {
      RequestedMeans(service, candidates, n - 1, id);
    }
  }

  /** The `i`-th candidate has this id, and its second look shows it unchanged. */
  ghost predicate SeenUnchanged(service: Service, candidates: seq<Sandbox>, i: nat, id: string) {
    i < |candidates| && candidates[i].id == id && Unchanged(candidates[i], service.look(i))
  }

  /** Nothing is asked to be deleted unless the inventory and the second look at that very candidate both
      showed it Stopped since one and the same time before the cutoff. */
  lemma OnlyLongStoppedRequested(service: Service, cutoff: int, apply: bool, id: string)
    requires id in ExpectedRequests(service, cutoff, apply)
    ensures apply && service.inventory.Some? && IdsAreUsable(service.inventory.value)
    ensures exists i: nat :: var cs := Candidates(service.inventory.value, cutoff);
      && SeenUnchanged(service, cs, i, id) && cs[i] in service.inventory.value
      && var s, t := cs[i], service.look(i).sandbox;
      && t.id == id && s.state == "Stopped" == t.state
      && s.stamp == t.stamp && s.stamp.At? && s.stamp.time < cutoff
  {
    hide Candidates, Requested, IdsAreUsable;
    var cs := Candidates(service.inventory.value, cutoff);
    RequestedMeans(service, cs, |cs|, id);
    CandidatesAreStopped(service.inventory.value, cutoff);
    var i: nat :| i < |cs| && cs[i].id == id && Unchanged(cs[i], service.look(i));
    assert cs[i] in cs && SeenUnchanged(service, cs, i, id);
  }

  /** What is reported deleted is exactly what was asked for and confirmed: the candidate of that id was
      seen unchanged, and the service confirmed the removal of that candidate. */
  lemma DeletedExactly(service: Service, cutoff: int, apply: bool, id: string)
    ensures id in Expected(service, cutoff, apply).deleted
       <==> apply && service.inventory.Some? && IdsAreUsable(service.inventory.value)
            && exists i: nat :: SeenUnchanged(service, Candidates(service.inventory.value, cutoff), i, id)
                 && service.remove(i).Confirmed?
    ensures id in Expected(service, cutoff, apply).deleted ==> id in ExpectedRequests(service, cutoff, apply)
  {
    hide With, Requested, Candidates, IdsAreUsable;
    if apply && service.inventory.Some? && IdsAreUsable(service.inventory.value) {
      var cs := Candidates(service.inventory.value, cutoff);
      WithMeans(service, cs, |cs|, Deleted, id);
      RequestedMeans(service, cs, |cs|, id);
      CandidatesAreStopped(service.inventory.value, cutoff);
      forall i: nat | i < |cs|
        ensures VerdictOn(service, cs[i], i) == Deleted
           <==> Unchanged(cs[i], service.look(i)) && service.remove(i).Confirmed?
      {
        assert cs[i] in cs;
      }
      if i: nat :| SeenUnchanged(service, cs, i, id) && service.remove(i).Confirmed? {
        assert VerdictOn(service, cs[i], i) == Deleted;
      }
      if id in Expected(service, cutoff, apply).deleted {
        var i: nat :| i < |cs| && cs[i].id == id && VerdictOn(service, cs[i], i) == Deleted;
        assert SeenUnchanged(service, cs, i, id);
      }
    }
  }

  // ----- every list, read off the answers -----

  /** The sweep deletes: it was told to, and had an inventory with usable ids. */
  predicate Applied(service: Service, apply: bool) {
    apply && service.inventory.Some? && IdsAreUsable(service.inventory.value)
  }

  /** The second look shows the same stopped sandbox with the same stop time. */
  predicate StillStopped(c: Sandbox, found: Found) {
    found.Found? && found.sandbox.id == c.id && found.sandbox.state == "Stopped" && found.sandbox.stamp == c.stamp
  }

  /** It shows the sandbox running, or stopped at another time. */
  predicate Changed(c: Sandbox, found: Found) {
    && found.Found? && found.sandbox.id == c.id
    && (found.sandbox.state != "Stopped" || (found.sandbox.stamp.At? && found.sandbox.stamp != c.stamp))
  }

  /** It shows nothing usable: no answer, another sandbox, or a stop time that cannot be read. */
  predicate Unclear(c: Sandbox, found: Found) {
    || found.Unavailable?
    || (found.Found? && (found.sandbox.id != c.id || (found.sandbox.state == "Stopped" && !found.sandbox.stamp.At?)))
  }

  lemma VerdictExactly(service: Service, c: Sandbox, i: nat)
    requires c.state == "Stopped" && c.stamp.At?
    ensures var (found, removal, v) := (service.look(i), service.remove(i), VerdictOn(service, c, i));
      && (v == Deleted <==> StillStopped(c, found) && removal.Confirmed?)
      && (v == Gone <==> found.NotFound? || (StillStopped(c, found) && removal.AlreadyGone?))
      && (v == Kept <==> Changed(c, found))
      && (v == Failing <==> Unclear(c, found) || (StillStopped(c, found) && removal.Refused?))
  {
  }

  /** The eligible ids are those of sandboxes stopped at a readable time before the cutoff. */
  lemma EligibleExactly(service: Service, cutoff: int, apply: bool, id: string)
    requires service.inventory.Some? && IdsAreUsable(service.inventory.value)
    ensures id in Expected(service, cutoff, apply).eligible <==>
      exists s :: s in service.inventory.value && s.id == id && s.state == "Stopped"
        && s.stamp.At? && s.stamp.time < cutoff
  {
    var inventory := service.inventory.value;
    var cs := Candidates(inventory, cutoff);
    hide Candidates, Complaints, With, IdsAreUsable;
    CandidatesAreStopped(inventory, cutoff);
    if id in Ids(cs) {
      var i :| 0 <= i < |cs| && Ids(cs)[i] == id;
      assert cs[i] in cs;
    }
    if s :| s in inventory && s.id == id && s.state == "Stopped" && s.stamp.At? && s.stamp.time < cutoff {
      assert s in cs;
      var i :| 0 <= i < |cs| && cs[i] == s;
      assert Ids(cs)[i] == id;
    }
  }

  predicate HasBadStamp(s: Sandbox) {
    s.state == "Stopped" && (s.stamp.Absent? || s.stamp.Unreadable? || s.stamp.NoZone?)
  }

  /** A stop time that has no UTC form is the one thing in an inventory that makes the sweep raise. */
  lemma RaisesExactly(service: Service, stoppedFor: int, clock: Clock)
    ensures Raises(service, stoppedFor, clock) <==>
      || stoppedFor <= 0 || clock == Naive
      || (service.inventory.Some? && IdsAreUsable(service.inventory.value)
          && exists s :: s in service.inventory.value && s.state == "Stopped" && s.stamp == OutOfRange)
  {
    hide IdsAreUsable;
    if service.inventory.Some? {
      var inventory := service.inventory.value;
      if s :| s in inventory && s.state == "Stopped" && s.stamp == OutOfRange {
        var i :| 0 <= i < |inventory| && inventory[i] == s;
        assert StoppedAt(inventory[i]).Overflow?;
      }
    }
  }

  lemma {:induction false} ComplaintsExactly(inventory: seq<Sandbox>, f: Failure)
    ensures f in Complaints(inventory) <==>
      f.InvalidStamp? && exists s :: s in inventory && s.id == f.id && HasBadStamp(s)
  {
    if inventory != [] {
      var front, last := inventory[..|inventory| - 1], inventory[|inventory| - 1];
      ComplaintsExactly(front, f);
      assert inventory == front + [last];
      assert forall s :: s in inventory <==> s in front || s == last;
    }
  }

  /** A candidate of that id with that second look and answer to its removal. */
  ghost predicate Met(service: Service, candidates: seq<Sandbox>, id: string, v: Verdict, i: nat) {
    i < |candidates| && candidates[i].id == id
    && var (c, found, removal) := (candidates[i], service.look(i), service.remove(i));
    match v
    case Deleted => StillStopped(c, found) && removal.Confirmed?
    case Gone => found.NotFound? || (StillStopped(c, found) && removal.AlreadyGone?)
    case Kept => Changed(c, found)
    case Failing => Unclear(c, found) || (StillStopped(c, found) && removal.Refused?)
  }

  lemma WithExactly(service: Service, inventory: seq<Sandbox>, cutoff: int, v: Verdict, id: string)
    ensures var cs := Candidates(inventory, cutoff);
      id in With(service, cs, |cs|, v) <==> exists i: nat :: Met(service, cs, id, v, i)
  {
    hide Candidates, With, VerdictOn, Changed, Unclear, StillStopped;
    var cs := Candidates(inventory, cutoff);
    WithMeans(service, cs, |cs|, v, id);
    CandidatesAreStopped(inventory, cutoff);
    forall i: nat | i < |cs| && cs[i].id == id
      ensures VerdictOn(service, cs[i], i) == v <==> Met(service, cs, id, v, i)
    {
      assert cs[i] in cs;
      VerdictExactly(service, cs[i], i);
    }
    if id in With(service, cs, |cs|, v) {
      var i: nat :| i < |cs| && cs[i].id == id && VerdictOn(service, cs[i], i) == v;
      assert Met(service, cs, id, v, i);
    }
  }

  /** Each list by what the service answered: `alreadyAbsent` are those not found on the second look or gone
      when the removal came, `retained` those seen running or stopped at another time, and a new failure
      names those whose second look was unclear or whose removal was refused. */
  lemma ListsExactly(service: Service, cutoff: int, apply: bool, id: string)
    requires Applied(service, apply)
    ensures var (r, cs) := (Expected(service, cutoff, apply), Candidates(service.inventory.value, cutoff));
      && (id in r.deleted <==> exists i: nat :: Met(service, cs, id, Deleted, i))
      && (id in r.alreadyAbsent <==> exists i: nat :: Met(service, cs, id, Gone, i))
      && (id in r.retained <==> exists i: nat :: Met(service, cs, id, Kept, i))
      && (NotDeleted(id) in r.failures <==> exists i: nat :: Met(service, cs, id, Failing, i))
  {
    hide Candidates, With, Met, Complaints, IdsAreUsable;
    var inventory := service.inventory.value;
    var cs := Candidates(inventory, cutoff);
    WithExactly(service, inventory, cutoff, Deleted, id);
    WithExactly(service, inventory, cutoff, Gone, id);
    WithExactly(service, inventory, cutoff, Kept, id);
    WithExactly(service, inventory, cutoff, Failing, id);
    ComplaintsExactly(inventory, NotDeleted(id));
    NotDeletedHas(With(service, cs, |cs|, Failing), id);
  }

  lemma NotDeletedHas(ids: seq<string>, id: string)
    ensures NotDeleted(id) in NotDeletedAll(ids) <==> id in ids
  {
    if id in ids {
      var i :| 0 <= i < |ids| && ids[i] == id;
      assert NotDeletedAll(ids)[i] == NotDeleted(id);
    }
  }
}
