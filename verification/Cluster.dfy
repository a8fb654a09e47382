// The API server the admission probe talks to, as far as scripts/check_hyperlight_admission_aks.py relies
// on it: objects with a UID given once and a resource version that every change replaces, deletes with
// preconditions, and other clients that may do anything between any two calls.
module Cluster {
  import opened Common

  datatype Kind = Namespace | Policy | Binding | Inner

  /** `space` is the namespace an object stands in; namespaces, policies and bindings stand in none. */
  datatype Key = Key(kind: Kind, name: string, space: Option<string>)

  /** `owner` is the value of the probe's label, if the object carries one. */
  datatype Object = Object(uid: nat, owner: Option<string>, version: nat)

  /** What another client may do: create an object or relabel one, or make one disappear. */
  datatype Action = Put(key: Key, owner: Option<string>) | Drop(key: Key)

  /** A call may be refused without effect, or take effect and lose its reply. */
  datatype Fault = Fine | Refused | Lost

  /** What surrounds one call: the actions of others before it, its fault, whether a deletion is over at
      once or left to a finalizer, whether a create reply names the UID. */
  datatype Tick = Tick(before: seq<Action>, fault: Fault, atOnce: bool, namesUid: bool)

  /** No other client acts, nothing fails, a deletion is over at once and a reply names the UID. */
  const QUIET := Tick([], Fine, true, true)

  type Objects = map<Key, Object>

  /** What stands in the namespace of that name, if `key` is one. */
  function Inside(objects: Objects, key: Key): Objects {
    map k | k in objects && key.kind.Namespace? && k.space == Some(key.name) :: objects[k]
  }

  /** What a call saw, did, or asked to have deleted; with a namespace goes what stands in it. A lookup ends
      in what it saw, any other call in `Done`, and either in `Broke` when the reply is an error or of no
      use. */
  datatype Entry =
    | Saw(key: Key, found: Option<Object>)
    | Made(key: Key, uid: nat)
    | Asked(key: Key, uid: nat, version: nat)
    | Removed(key: Key, item: Object, contents: Objects)
    | Done
    | Broke

  datatype Reply<T> = Ok(value: T) | Failed

  class Server {
    const world: nat -> Tick
    var clock: nat
    var objects: Objects
    var next: nat
    ghost var versions: map<nat, Object>
    ghost var made: set<nat>
    ghost var others: set<nat>
    ghost var log: seq<Entry>

    /** A resource version belongs to one state of one object for good, and a UID to one creator. */
    ghost predicate Valid()
      reads this
    {
      && (forall k :: k in objects ==> objects[k].version in versions && versions[objects[k].version] == objects[k])
      && (forall k :: k in objects ==> objects[k].uid in made + others)
      && (forall v :: v in versions ==> v < next)
      && (forall u :: u in made + others ==> u < next)
      && made !! others
      && (forall i :: 0 <= i < |log| ==> Recorded(log[i]))
    }

    ghost predicate Recorded(e: Entry)
      reads this
    {
      match e
      case Saw(_, found) =>
          found.Some? ==> found.value.version in versions && versions[found.value.version] == found.value
      case Made(_, uid) => uid in made
      case Removed(key, item, contents) =>
        && item.version in versions && versions[item.version] == item
        && forall k :: k in contents ==>
          key.kind.Namespace? && k.space == Some(key.name) && contents[k].uid in made + others
      case _ => true
    }

    /** Nothing ever happens but what this client asks for. */
    ghost predicate Quiet() {
      forall n: nat :: world(n) == QUIET
    }

    /** History is only added to. */
    twostate predicate Extends()
      reads this
    {
      && old(log) <= log
      && (forall v :: v in old(versions) ==> v in versions && versions[v] == old(versions)[v])
      && old(made) <= made && old(others) <= others
    }

    constructor (world: nat -> Tick)
      ensures Valid() && this.world == world && clock == 0 && objects == map[] && log == []
    {
      this.world := world;
      clock, objects, next, versions, made, others, log := 0, map[], 0, map[], {}, {}, [];
    }

    /** Give `key` a new state, under a version never used before. */
    method Store(key: Key, uid: nat, owner: Option<string>)
      requires Valid() && uid in made + others
      modifies `objects, `versions, `next
      ensures Valid() && Extends()
      ensures key in objects && objects == old(objects)[key := objects[key]]
      ensures objects[key].uid == uid && objects[key].owner == owner
    {
      var item := Object(uid, owner, next);
      versions := versions[next := item];
      objects := objects[key := item];
      next := next + 1;
    }

    /** A UID never given before. */
    method Issue(ours: bool) returns (uid: nat)
      requires Valid()
      modifies `next, `made, `others
      ensures Valid() && Extends() && uid == old(next)
      ensures uid in if ours then made else others
      ensures made == old(made) + (if ours then {uid} else {})
    {
      uid := next;
      next := next + 1;
      if ours {
        made := made + {uid};
      } else {
        others := others + {uid};
      }
    }

    method Note(e: Entry)
      requires Valid() && Recorded(e)
      modifies `log
      ensures Valid() && Extends() && log == old(log) + [e]
    {
      log := log + [e];
      assert forall i :: 0 <= i < |log| - 1 ==> log[i] == old(log)[i];
    }

    /** Make objects disappear. */
    method Forget(keys: set<Key>)
      requires Valid()
      modifies `objects
      ensures Valid() && Extends() && objects == old(objects) - keys
    {
      objects := objects - keys;
    }

    /** One action of another client. */
    method Interfere(a: Action)
      requires Valid()
      modifies this
      ensures Valid() && Extends() && log == old(log) && made == old(made) && clock == old(clock)
      ensures a.Drop? ==> objects == old(objects) - {a.key}
      ensures a.Put? ==> a.key in objects && objects == old(objects)[a.key := objects[a.key]]
      ensures a.Put? && a.key !in old(objects) ==> objects[a.key].uid in others
    {
      match a
      case Drop(key) =>
        Forget({key});
      case Put(key, owner) =>
        var uid;
        if key in objects {
          uid := objects[key].uid;
        } else {
          uid := Issue(false);
        }
        Store(key, uid, owner);
    }

    /** The time up to the next call. */
    method Pass() returns (tick: Tick)
      requires Valid()
      modifies this
      ensures Valid() && Extends() && log == old(log) && made == old(made)
      ensures tick == world(old(clock)) && clock == old(clock) + 1
      ensures tick.before == [] ==> objects == old(objects)
    {
      tick := world(clock);
      clock := clock + 1;
      for i := 0 to |tick.before|
        invariant Valid() && Extends() && log == old(log) && made == old(made) && clock == old(clock) + 1
        invariant i == 0 ==> objects == old(objects)
      {
        Interfere(tick.before[i]);
      }
    }

    /** `kubectl get --ignore-not-found`. */
    method Get(key: Key) returns (reply: Reply<Option<Object>>)
      requires Valid()
      modifies this
      ensures Valid() && Extends() && made == old(made)
      ensures log == old(log) + [if reply.Ok? then Saw(key, reply.value) else Broke]
      ensures world(old(clock)) == QUIET ==>
        objects == old(objects) && reply == Ok(if key in objects then Some(objects[key]) else None)
    {
      var tick := Pass();
      if tick.fault != Fine {
        Note(Broke);
        return Failed;
      }
      var found := if key in objects then Some(objects[key]) else None;
      Note(Saw(key, found));
      return Ok(found);
    }

    /** `kubectl create`: refused when the name is taken. A reply without the UID is of no use. */
    method Create(key: Key, owner: string) returns (reply: Reply<nat>)
      requires Valid()
      modifies this
      ensures Valid() && Extends()
      ensures reply.Ok? ==>
        made == old(made) + {reply.value} && log == old(log) + [Made(key, reply.value), Done]
      ensures reply.Failed? ==>
        || (made == old(made) && log == old(log) + [Broke])
        || exists uid :: made == old(made) + {uid} && log == old(log) + [Made(key, uid), Broke]
      ensures world(old(clock)) == QUIET && key !in old(objects) ==>
        reply.Ok? && key in objects && objects == old(objects)[key := objects[key]]
        && objects[key].uid == reply.value && objects[key].owner == Some(owner)
    {
      hide Valid;
      var tick := Pass();
      if tick.fault == Refused || key in objects {
        Note(Broke);
        return Failed;
      }
      var uid := Issue(true);
      Store(key, uid, Some(owner));
      Note(Made(key, uid));
      if tick.fault == Lost || !tick.namesUid {
        Note(Broke);
        assert log == old(log) + [Made(key, uid), Broke];
        return Failed;
      }
      Note(Done);
      return Ok(uid);
    }

    /** The object is deleted, or marked for a finalizer to delete. */
    method Accept(key: Key, atOnce: bool)
      requires Valid() && key in objects
      modifies `objects, `versions, `next, `log
      ensures Valid() && Extends()
      ensures log == old(log) + [Removed(key, old(objects)[key], Inside(old(objects), key))]
      ensures atOnce ==> objects == old(objects) - ({key} + Inside(old(objects), key).Keys)
    {
      var item, inside := objects[key], Inside(objects, key);
      Note(Removed(key, item, inside));
      if atOnce {
        Forget({key} + inside.Keys);
      } else {
        Store(key, item.uid, item.owner);
      }
    }

    /** A delete with preconditions: it acts only on the object that still has this UID and version. What
        stands in a deleted namespace has no say in it. */
    method Delete(key: Key, uid: nat, version: nat) returns (reply: Reply<()>)
      requires Valid()
      modifies this
      ensures Valid() && Extends() && made == old(made)
      ensures
        || (reply.Failed? && log == old(log) + [Asked(key, uid, version), Broke])
        || exists o: Object, inside :: o.uid == uid && o.version == version
             && log == old(log) + [Asked(key, uid, version), Removed(key, o, inside), if reply.Ok? then Done else Broke]
      ensures var was := old(objects);
        world(old(clock)) == QUIET && key in was && was[key].uid == uid && was[key].version == version ==>
          reply.Ok? && objects == was - ({key} + Inside(was, key).Keys)
          && log == old(log) + [Asked(key, uid, version), Removed(key, was[key], Inside(was, key)), Done]
    {
      hide Valid, Inside;
      var tick := Pass();
      Note(Asked(key, uid, version));
      if tick.fault == Refused || key !in objects || objects[key].uid != uid || objects[key].version != version {
        Note(Broke);
        return Failed;
      }
      ghost var item, inside := objects[key], Inside(objects, key);
      Accept(key, tick.atOnce);
      reply := if tick.fault == Lost then Failed else Ok(());
      Note(if tick.fault == Lost then Broke else Done);
      assert log == old(log) + [Asked(key, uid, version), Removed(key, item, inside),
                                if reply.Ok? then Done else Broke];
    }

    /** Any other call, `kubectl wait` among them: it may fail, and promises nothing when it does not. */
    method Other() returns (reply: Reply<()>)
      requires Valid()
      modifies this
      ensures Valid() && Extends() && made == old(made)
      ensures log == old(log) + [if reply.Ok? then Done else Broke]
      ensures world(old(clock)) == QUIET ==> reply.Ok? && objects == old(objects)
    {
      var tick := Pass();
      reply := if tick.fault == Fine then Ok(()) else Failed;
      Note(if tick.fault == Fine then Done else Broke);
    }
  }
}
