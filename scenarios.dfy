/**
 * The repository's unit tests that do not depend on the garbage collector's
 * timing, written as client methods: each builds a registry, drives it
 * through the test's calls and states the test's assertions as
 * postconditions, which follow from the registries' contracts alone.
 * Two more drive the worker of each registry over reclaimed handles, and
 * one shows that the iterator's `remove` may be repeated.
 */
module Scenarios {
  import opened Handles
  import opened Seqs
  import opened ReferenceSet
  import opened ReferenceList

  /** A distinct sequence whose elements are exactly `{x}` is `[x]`. */
  lemma SingletonSnapshot<T>(s: seq<T>, x: T)
    requires Distinct(s) && Elements(s) == {x}
    ensures s == [x]
  {
    DistinctCardinality(s);
    assert s[0] in Elements(s);
  }

  /** A two-element snapshot of two distinct objects holds each of them once. */
  lemma TwoElements<T>(s: seq<T>, x: T, y: T)
    requires Distinct(s) && Elements(s) == {x, y} && x != y
    ensures |s| == 2 && {s[0], s[1]} == {x, y}
  {
    DistinctCardinality(s);
    assert s[0] in Elements(s) && s[1] in Elements(s);
  }

  /** Every handle in `hs` still dereferences to an element of `rest`. */
  ghost predicate Pending<T>(hs: set<Handle<T>>, rest: seq<T>)
    reads hs
  {
    forall h :: h in hs ==> h.Get().Some? && h.Get().value in rest
  }

  /** No handle can be pending on an exhausted snapshot. */
  lemma NothingPending<T>(hs: set<Handle<T>>, rest: seq<T>)
    requires Pending(hs, rest) && rest == []
    ensures hs == {}
  {
  }

  /**
   * One turn of the loop in `testIterator`: dropping the handles that
   * dereference to the element just yielded leaves handles pending on the
   * rest of the snapshot.
   */
  lemma PendingStep<T>(hs: set<Handle<T>>, arr: seq<T>, i: nat)
    requires i < |arr| && Pending(hs, arr[i..])
    ensures Pending(hs - (set h | h in hs && h.Get() == Some(arr[i])), arr[i + 1..])
  {
    forall h | h in hs && h.Get() != Some(arr[i])
      ensures h.Get().value in arr[i + 1..]
    {
      var k :| i <= k < |arr| && arr[k] == h.Get().value;
      assert arr[k] == arr[i + 1..][k - i - 1];
    }
  }

  /** Handles that all dereference to `x` show `x` exactly when there is one. */
  lemma PendingSingle<T>(hs: set<Handle<T>>, x: T)
    requires Pending(hs, [x])
    ensures ValuesOf(hs) == if hs == {} then {} else {x}
    ensures (set h | h in hs && h.Get() == Some(x)) == hs
  {
    if hs != {} {
      var h :| h in hs;
      ValuesOfWitness(hs, x);
    }
  }

  /** One step of `testAddAndRemove`: `add(obj, ...)`, then `size()` and `toArray()`. */
  method AddAndInspect<T(==)>(registry: FinalizableReferenceSet<T>, obj: T, callback: Callback)
    returns (added: Result<bool>, size: nat, snapshot: seq<T>)
    requires registry.Valid() && registry.tier == Weak && Pending(registry.callbacks.Keys, [obj])
    modifies registry
    ensures registry.Valid() && Pending(registry.callbacks.Keys, [obj])
    ensures added == Ok(old(registry.callbacks) == map[])
    ensures size == |registry.callbacks| == old(|registry.callbacks|) + 1
    ensures snapshot == [obj]
  {
    PendingSingle(registry.callbacks.Keys, obj);
    ghost var h;
    added, h := registry.Add(Some(obj), callback);
    size := registry.Size();
    snapshot := registry.ToArray();
    SingletonSnapshot(snapshot, obj);
  }

  /** `testAddAndRemove`: the same object added twice to a weak set. */
  method SetAddAndRemove<T(==)>(obj: T)
    returns (first: Result<bool>, second: Result<bool>, removed: bool, sizes: seq<nat>,
             firstArray: seq<T>, secondArray: seq<T>)
    ensures first == Ok(true) && second == Ok(false) && removed
    ensures sizes == [1, 2, 0]
    ensures firstArray == [obj] && secondArray == [obj]
  {
    var registry := new FinalizableReferenceSet<T>(Weak);
    var size1, size2;
    first, size1, firstArray := AddAndInspect(registry, obj, Callback(0));
    second, size2, secondArray := AddAndInspect(registry, obj, Callback(1));
    PendingSingle(registry.callbacks.Keys, obj);
    removed := registry.Remove(Some(obj));
    var size3 := registry.Size();
    sizes := [size1, size2, size3];
  }

  /** `add(obj, ...)` on a phantom set. */
  method AddPhantom<T(==)>(registry: FinalizableReferenceSet<T>, obj: T, callback: Callback) returns (added: Result<bool>)
    requires registry.Valid() && registry.tier == Phantom
    modifies registry
    ensures registry.Valid() && added == Ok(true)
    ensures |registry.callbacks| == old(|registry.callbacks|) + 1
  {
    ghost var h;
    added, h := registry.Add(Some(obj), callback);
  }

  /** `testPhantomValues`: a phantom set never reports a value as present. */
  method SetPhantomValues<T(==)>(obj: T)
    returns (first: Result<bool>, second: Result<bool>, removed: bool, size: nat, snapshot: seq<T>)
    ensures first == Ok(true) && second == Ok(true) && !removed
    ensures size == 2 && snapshot == []
  {
    var registry := new FinalizableReferenceSet<T>(Phantom);
    first := AddPhantom(registry, obj, Callback(0));
    second := AddPhantom(registry, obj, Callback(1));
    removed := registry.Remove(Some(obj));
    size := registry.Size();
    snapshot := registry.ToArray();
  }

  /** `add(obj, ...)` on a weak set whose handles all dereference to an element of `values`. */
  method Register<T(==)>(registry: FinalizableReferenceSet<T>, obj: T, values: seq<T>, callback: Callback)
    requires registry.Valid() && registry.tier == Weak && obj in values && Pending(registry.callbacks.Keys, values)
    modifies registry
    ensures registry.Valid() && Pending(registry.callbacks.Keys, values)
    ensures registry.LiveValues() == old(registry.LiveValues()) + {obj}
  {
    var added;
    ghost var h;
    added, h := registry.Add(Some(obj), callback);
  }

  /** The registrations `testIterator` starts from: `obj` twice and `obj2` once, in a weak set. */
  method ThreeRegistrations<T(==)>(obj: T, obj2: T) returns (registry: FinalizableReferenceSet<T>)
    ensures fresh(registry) && registry.Valid() && registry.tier == Weak
    ensures registry.LiveValues() == {obj, obj2}
    ensures Pending(registry.callbacks.Keys, [obj, obj2])
  {
    registry := new FinalizableReferenceSet<T>(Weak);
    Register(registry, obj, [obj, obj2], Callback(0));
    Register(registry, obj, [obj, obj2], Callback(1));
    Register(registry, obj2, [obj, obj2], Callback(2));
  }

  /** One turn of the loop in `testIterator`: `next()`, `remove()`, `hasNext()`. */
  method NextAndRemove<T(==)>(iter: SetIterator<T>) returns (more: bool)
    requires iter.Valid() && iter.owner.Valid() && iter.i < |iter.arr| && !iter.increased
    requires Pending(iter.owner.callbacks.Keys, iter.arr[iter.i..])
    modifies iter, iter.owner
    ensures iter.Valid() && iter.owner.Valid() && iter.i == old(iter.i) + 1 && !iter.increased
    ensures more == (iter.i < |iter.arr|)
    ensures Pending(iter.owner.callbacks.Keys, iter.arr[iter.i..])
  {
    ghost var k := iter.i;
    var yielded := iter.Next();
    PendingStep(iter.owner.callbacks.Keys, iter.arr, k);
    ghost var rest := iter.owner.callbacks.Keys - iter.owner.Matching(Some(iter.arr[k]));
    var outcome := iter.Remove();
    assert iter.owner.callbacks.Keys == rest;
    more := iter.HasNext();
  }

  /** The iterator `testIterator` walks: a snapshot of the two objects, every registered handle pending on it. */
  method StartIterating<T(==)>(obj: T, obj2: T) returns (registry: FinalizableReferenceSet<T>, iter: SetIterator<T>)
    requires obj != obj2
    ensures fresh(registry) && fresh(iter) && registry.Valid() && iter.Valid() && iter.owner == registry
    ensures iter.i == 0 && !iter.increased && |iter.arr| == 2
    ensures Pending(registry.callbacks.Keys, iter.arr[iter.i..])
  {
    registry := ThreeRegistrations(obj, obj2);
    iter := registry.Iterator();
    TwoElements(iter.arr, obj, obj2);
    assert iter.arr[0..] == iter.arr;
  }

  /**
   * `testIterator`: three registrations for two objects; iterating and
   * removing at each step visits two positions and empties the set, after
   * which `remove` and `next` both fail.
   */
  method SetIteratorTest<T(==)>(obj: T, obj2: T)
    returns (visited: nat, size: nat, lateRemove: Outcome, lateNext: Result<T>)
    requires obj != obj2
    ensures visited == 2 && size == 0
    ensures lateRemove == Fail(IllegalState) && lateNext == Err(NoSuchElement)
  {
    var registry, iter := StartIterating(obj, obj2);
    visited := 0;
    var more := iter.HasNext();
    while more
      invariant iter.Valid() && registry.Valid() && iter.owner == registry
      invariant more == (iter.i < |iter.arr|) && !iter.increased
      invariant visited == iter.i
      invariant Pending(registry.callbacks.Keys, iter.arr[iter.i..])
      decreases |iter.arr| - iter.i
    {
      visited := visited + 1;
      more := NextAndRemove(iter);
    }
    NothingPending(registry.callbacks.Keys, iter.arr[iter.i..]);
    size := registry.Size();
    lateRemove := iter.Remove();
    lateNext := iter.Next();
  }

  /**
   * The memory manager reclaims the referent of the only registered handle,
   * which the worker then picks up from the queue.
   */
  method ReclaimSole<T(==)>(registry: FinalizableReferenceSet<T>, ghost h: Handle<T>) returns (ran: Option<Callback>)
    requires registry.Valid() && registry.callbacks.Keys == {h} && h.Valid() && h.referent.Some?
    modifies registry, h
    ensures registry.Valid() && registry.isActive == old(registry.isActive)
    ensures old(registry.isActive) ==> ran == Some(old(registry.callbacks)[h]) && registry.callbacks == map[]
    ensures !old(registry.isActive) ==> ran == None && registry.callbacks == old(registry.callbacks)
  {
    var refs := registry.GetReferences();
    var sole := refs[0];
    assert sole == h;
    sole.Reclaim();
    ran := registry.Fire(sole);
  }

  /**
   * A weak registration whose referent the memory manager reclaims: the
   * worker runs its callback once and the set is empty again.  A second
   * object registered afterwards is reclaimed after the set was destroyed,
   * however often, and its callback no longer runs.
   */
  method SetReclaimAndFire<T(==)>(obj: T, other: T)
    returns (ran: Option<Callback>, size: nat, ranAfterDestroy: Option<Callback>, sizeAfterDestroy: nat)
    ensures ran == Some(Callback(7)) && size == 0
    ensures ranAfterDestroy == None && sizeAfterDestroy == 1
  {
    var registry := new FinalizableReferenceSet<T>(Weak);
    ghost var h: Handle?<T>;
    var added;
    added, h := registry.Add(Some(obj), Callback(7));
    ran := ReclaimSole(registry, h);
    size := registry.Size();
    added, h := registry.Add(Some(other), Callback(8));
    registry.Destroy();
    registry.Destroy();
    ranAfterDestroy := ReclaimSole(registry, h);
    sizeAfterDestroy := registry.Size();
  }

  /** `remove()` right after the `next()` that yielded `obj`, every handle showing `obj`. */
  method RemoveEvery<T(==)>(iter: SetIterator<T>, obj: T) returns (r: Outcome)
    requires iter.Valid() && iter.owner.Valid() && iter.increased && iter.arr[iter.i - 1] == obj
    requires iter.owner.Matching(Some(obj)) == iter.owner.callbacks.Keys
    modifies iter.owner
    ensures iter.owner.Valid() && iter.owner.callbacks == map[] && r == Pass
  {
    ghost var before := iter.owner.callbacks;
    r := iter.Remove();
    assert iter.owner.callbacks == before - before.Keys;
  }

  /**
   * `remove()` on the iterator does not forget the preceding `next()`: after
   * one `next()`, a second `remove()` succeeds as well, finding nothing left
   * to drop.
   */
  method IteratorRemoveTwice<T(==)>(obj: T) returns (yielded: Result<T>, first: Outcome, second: Outcome, size: nat)
    ensures yielded == Ok(obj) && first == Pass && second == Pass && size == 0
  {
    var registry := new FinalizableReferenceSet<T>(Weak);
    var added, size1, snapshot := AddAndInspect(registry, obj, Callback(0));
    var iter := registry.Iterator();
    SingletonSnapshot(iter.arr, obj);
    yielded := iter.Next();
    PendingSingle(registry.callbacks.Keys, obj);
    first := RemoveEvery(iter, obj);
    second := iter.Remove();
    size := registry.Size();
  }

  /** `testListAddRemove`: add, read back, remove by index, add again, remove by handle. */
  method ListAddRemove<T(==)>(obj: T) returns (sizes: seq<nat>, got: Option<T>)
    ensures sizes == [1, 0, 0] && got == Some(obj)
  {
    var registry := new FinalizableReferenceList<T>(Weak);
    ghost var h: Handle<T>;
    var added;
    added, h := registry.Add(Some(obj), Callback(0));
    var size1 := registry.Size();
    got := registry.Get(0).value.Get();
    var removed := registry.RemoveAt(0);
    var size2 := registry.Size();
    added, h := registry.Add(Some(obj), Callback(1));
    var removedByHandle := registry.Remove(registry.Get(0).value);
    var size3 := registry.Size();
    sizes := [size1, size2, size3];
  }

  /** The memory manager reclaims the referent of a registered handle and the list worker picks it up. */
  method ReclaimListed<T(==)>(registry: FinalizableReferenceList<T>, h: Handle<T>) returns (ran: Callback)
    requires registry.Valid() && h in registry.callbacks && h.Valid() && h.referent.Some?
    modifies registry, h
    ensures registry.Valid() && ran == old(registry.callbacks)[h]
    ensures registry.callbacks == old(registry.callbacks) - {h}
    ensures registry.list == RemoveFirst(old(registry.list), h)
  {
    h.Reclaim();
    ran := registry.Fire(h);
  }

  /**
   * The list worker: a handle replaced by `set` keeps its callback, so it
   * still fires when reclaimed, and firing a listed handle unlists it.
   */
  method ListReplaceAndFire<T(==)>(obj: T, other: T) returns (ranReplaced: Callback, ranListed: Callback, size: nat)
    ensures ranReplaced == Callback(0) && ranListed == Callback(1) && size == 0
  {
    var registry := new FinalizableReferenceList<T>(Soft);
    ghost var h1: Handle<T>;
    ghost var h2: Handle<T>;
    var added;
    added, h1 := registry.Add(Some(obj), Callback(0));
    var replaced;
    replaced, h2 := registry.Set(0, Some(other), Callback(1));
    var listed := registry.Get(0).value;
    ranReplaced := ReclaimListed(registry, replaced.value);
    ranListed := ReclaimListed(registry, listed);
    size := registry.Size();
  }
}
