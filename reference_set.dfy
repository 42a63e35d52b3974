/**
 * The set variant of the registry: a map from reference handles to callbacks,
 * deduplicated by referent identity when it is read, with an explicit
 * lifecycle flag for the worker and a snapshot iterator.
 *
 * The worker thread is modelled by `Fire`, one turn of its loop; the memory
 * manager by `Handle.Reclaim`.  Every operation is one atomic step.
 */
module ReferenceSet {
  import opened Handles
  import opened Seqs

  /** The referents still observable through a set of handles. */
  ghost function ValuesOf<T>(hs: set<Handle<T>>): set<T>
    reads hs
  {
    set h | h in hs && h.Get().Some? :: h.Get().value
  }

  /** Adding one handle adds its referent, if it still has an observable one. */
  lemma ValuesOfInsert<T>(hs: set<Handle<T>>, h: Handle<T>)
    ensures ValuesOf(hs + {h}) == ValuesOf(hs) + (if h.Get().Some? then {h.Get().value} else {})
  {
  }

  /** A value is observable through some handle exactly when some handle dereferences to it. */
  lemma ValuesOfWitness<T>(hs: set<Handle<T>>, x: T)
    ensures x in ValuesOf(hs) <==> exists h :: h in hs && h.Get() == Some(x)
  {
    if exists h :: h in hs && h.Get() == Some(x) {
      var h :| h in hs && h.Get() == Some(x);
      assert h.Get().value == x;
    }
  }

  /** Some handle dereferences to `x` exactly when `x` is observable. */
  lemma MatchingNonEmpty<T>(hs: set<Handle<T>>, x: T)
    ensures (set h | h in hs && h.Get() == Some(x)) != {} <==> x in ValuesOf(hs)
  {
    ValuesOfWitness(hs, x);
    var m := set h | h in hs && h.Get() == Some(x);
    if x in ValuesOf(hs) {
      var h :| h in hs && h.Get() == Some(x);
      assert h in m;
    }
  }

  /** Dropping every handle that dereferences to `x` drops `x` and nothing else. */
  lemma ValuesOfWithout<T>(hs: set<Handle<T>>, gone: set<Handle<T>>, x: T)
    requires gone == set h | h in hs && h.Get() == Some(x)
    ensures ValuesOf(hs - gone) == ValuesOf(hs) - {x}
  {
    forall y | y in ValuesOf(hs) - {x} ensures y in ValuesOf(hs - gone) {
      ValuesOfWitness(hs, y);
      var h :| h in hs && h.Get() == Some(y);
      assert h !in gone;
      ValuesOfWitness(hs - gone, y);
    }
  }

  /** The referents observable through handles that did not change are the same as before. */
  twostate lemma ValuesUnchanged<T>(hs: set<Handle<T>>)
    requires unchanged(hs)
    ensures ValuesOf(hs) == old(ValuesOf(hs))
  {
  }

  /** Removing keys from a map removes as many entries as there were keys. */
  lemma MapWithoutSize<K, V>(m: map<K, V>, gone: set<K>)
    requires gone <= m.Keys
    ensures (m - gone).Keys == m.Keys - gone
    ensures |m - gone| == |m| - |gone|
  {
    assert (m - gone).Keys == m.Keys - gone;
    assert m.Keys == (m.Keys - gone) + gone;
  }

  /**
   * Dropping the handles that dereference to `x` from a callback map: the
   * entries left are the other ones, and when `x` is a value it is the one
   * value no longer observable.
   */
  lemma WithoutMatching<T>(m: map<Handle<T>, Callback>, x: Option<T>)
    ensures var gone := set h | h in m.Keys && h.Get() == x;
      && (m - gone).Keys == m.Keys - gone
      && |m - gone| == |m| - |gone|
      && (x.Some? ==> ValuesOf(m.Keys - gone) == ValuesOf(m.Keys) - {x.value})
  {
    var gone := set h | h in m.Keys && h.Get() == x;
    MapWithoutSize(m, gone);
    if x.Some? {
      ValuesOfWithout(m.Keys, gone, x.value);
    }
  }

  class FinalizableReferenceSet<T(==)> {
    /** The tier of the reference factory this set was built with. */
    const tier: Tier
    /** Every registered handle and its callback. */
    var callbacks: map<Handle<T>, Callback>
    /** Whether the worker is still running. */
    var isActive: bool
    /** Every handle whose callback the worker has run, oldest first. */
    ghost var Fired: seq<Handle<T>>

    /**
     * Every handle was made by this set's factory, and no callback has run
     * twice or is still registered after it ran.
     */
    ghost predicate Valid()
      reads this
    {
      && (forall h :: h in callbacks ==> h.tier == tier)
      && Distinct(Fired)
      && (forall h :: h in callbacks ==> h !in Fired)
    }

    /** `weak()`, `soft()`, `phantom()`: an empty set whose worker is running. */
    constructor (tier: Tier)
      ensures Valid() && this.tier == tier
      ensures callbacks == map[] && isActive && Fired == []
      ensures LiveValues() == {}
    {
      this.tier := tier;
      callbacks := map[];
      isActive := true;
      Fired := [];
    }

    /** The distinct referents still observable through the registered handles. */
    ghost function LiveValues(): (r: set<T>)
      reads this, callbacks.Keys
      ensures Valid() && tier == Phantom ==> r == {}
    {
      ValuesOf(callbacks.Keys)
    }

    /** The registered handles whose `get()` is identical to `x` (the filter `ref.get() == x`). */
    function Matching(x: Option<T>): (r: set<Handle<T>>)
      reads this, callbacks.Keys
      ensures r <= callbacks.Keys
      ensures Valid() && tier == Phantom && x.Some? ==> r == {}
    {
      set h | h in callbacks.Keys && h.Get() == x
    }

    /** The number of registrations, several handles for one value counted separately. */
    function Size(): (n: nat)
      reads this
      ensures n == |callbacks.Keys|
    {
      |callbacks|
    }

    /** `wasPresent` in `add`: whether some registered handle still dereferences to `element`. */
    function WasPresent(element: T): (present: bool)
      reads this, callbacks.Keys
      ensures present <==> element in LiveValues()
      ensures Valid() && tier == Phantom ==> !present
    {
      MatchingNonEmpty(callbacks.Keys, element);
      Matching(Some(element)) != {}
    }

    /** A phantom set never shows a value. */
    lemma PhantomHidesValues(x: T)
      requires Valid() && tier == Phantom
      ensures LiveValues() == {}
      ensures Matching(Some(x)) == {}
    {
    }

    /** `destroy()`: stop the worker; a second call changes nothing. */
    method Destroy()
      requires Valid()
      modifies this
      ensures Valid() && !isActive
      ensures callbacks == old(callbacks) && Fired == old(Fired)
    {
      if !isActive {
        return;
      }
      isActive := false;
    }

    /**
     * `add(element, callback)`: null is refused; otherwise a new handle is
     * registered, and the result says whether no earlier handle dereferenced
     * to the same element.
     */
    method Add(element: Option<T>, callback: Callback) returns (r: Result<bool>, ghost h: Handle?<T>)
      requires Valid()
      modifies this
      ensures Valid() && isActive == old(isActive) && Fired == old(Fired)
      ensures element == None ==> r == Err(NullPointer) && h == null && callbacks == old(callbacks)
      ensures element.Some? ==>
        && h != null && fresh(h)
        && h.tier == tier && h.referent == element && !h.reclaimed
        && callbacks == old(callbacks)[h := callback]
        && |callbacks| == old(|callbacks|) + 1
        && r == Ok(element.value !in old(LiveValues()))
      ensures element.Some? && tier != Phantom ==> LiveValues() == old(LiveValues()) + {element.value}
      ensures element.Some? && tier == Phantom ==> r == Ok(true) && LiveValues() == {}
    {
      if element == None {
        return Err(NullPointer), null;
      }
      var wasPresent := WasPresent(element.value);
      var reference := new Handle(tier, element);
      callbacks := callbacks[reference := callback];
      assert callbacks.Keys == old(callbacks.Keys) + {reference};
      ValuesUnchanged(old(callbacks.Keys));
      ValuesOfInsert(old(callbacks.Keys), reference);
      r, h := Ok(!wasPresent), reference;
    }

    /**
     * `remove(element)`: unregister every handle whose `get()` is identical to
     * `element`, without running their callbacks.  With `element == None` that
     * is every handle that shows no value.
     */
    method Remove(element: Option<T>) returns (removed: bool)
      requires Valid()
      modifies this
      ensures Valid() && isActive == old(isActive) && Fired == old(Fired)
      ensures callbacks == old(callbacks) - old(Matching(element))
      ensures |callbacks| == old(|callbacks|) - |old(Matching(element))|
      ensures removed <==> old(Matching(element)) != {}
      ensures element.Some? ==> LiveValues() == old(LiveValues()) - {element.value}
      ensures tier == Phantom && element.Some? ==> !removed && callbacks == old(callbacks)
    {
      var gone := Matching(element);
      ghost var kept := callbacks.Keys - gone;
      WithoutMatching(callbacks, element);
      if tier == Phantom && element.Some? {
        PhantomHidesValues(element.value);
      }
      removed := gone != {};
      callbacks := callbacks - gone;
      ValuesUnchanged(kept);
    }

    /** `clear()`: unregister every handle. */
    method Clear()
      requires Valid()
      modifies this
      ensures Valid() && isActive == old(isActive) && Fired == old(Fired)
      ensures callbacks == map[] && Size() == 0
    {
      callbacks := map[];
    }

    /** `getReferences()`: a new array holding every registered handle once, in the map's order. */
    method GetReferences() returns (arr: array<Handle?<T>>)
      ensures fresh(arr) && arr.Length == |callbacks|
      ensures forall k :: 0 <= k < arr.Length ==> arr[k] != null && arr[k] in callbacks
      ensures Distinct(arr[..])
      ensures forall h :: h in callbacks ==> h in arr[..]
    {
      arr := new Handle?<T>[|callbacks|];
      var rest := callbacks.Keys;
      var i := 0;
      ghost var picked: seq<Handle<T>> := [];
      while rest != {}
        invariant rest <= callbacks.Keys && i + |rest| == |callbacks|
        invariant |picked| == i && arr[..i] == picked
        invariant forall h :: h in picked ==> h in callbacks && h !in rest
        invariant Distinct(picked)
        invariant forall h :: h in callbacks && h !in rest ==> h in picked
        decreases rest
      {
        var h :| h in rest;
        AppendDistinct(picked, h);
        arr[i] := h;
        picked := picked + [h];
        assert arr[..i + 1] == picked;
        rest := rest - {h};
        i := i + 1;
      }
      assert arr[..] == arr[..i];
    }

    /** `toArray()`: the distinct non-null referents of the registered handles. */
    method ToArray() returns (arr: seq<T>)
      ensures Distinct(arr)
      ensures Elements(arr) == LiveValues()
      ensures |arr| == |LiveValues()| <= |callbacks|
      ensures Valid() && tier == Phantom ==> arr == []
    {
      var rest := callbacks.Keys;
      ghost var done: set<Handle<T>> := {};
      arr := [];
      while rest != {}
        invariant rest + done == callbacks.Keys && rest !! done
        invariant Distinct(arr)
        invariant Elements(arr) == ValuesOf(done)
        invariant |arr| <= |done|
        decreases rest
      {
        var h :| h in rest;
        ToArrayStep(arr, done, h);
        var v := h.Get();
        if v.Some? && v.value !in arr {
          arr := arr + [v.value];
        }
        rest := rest - {h};
        done := done + {h};
      }
      DistinctCardinality(arr);
    }

    /** `iterator()`: a cursor over a `toArray()` snapshot taken now. */
    method Iterator() returns (it: SetIterator<T>)
      ensures fresh(it) && it.owner == this && it.Valid()
      ensures it.i == 0 && !it.increased
      ensures Distinct(it.arr) && Elements(it.arr) == LiveValues()
      ensures Valid() && tier == Phantom ==> it.arr == []
    {
      it := new SetIterator(this);
    }

    /**
     * One turn of the worker loop for a handle the memory manager has
     * enqueued: while the set is active, run its callback, then unregister
     * it.  After `destroy()` the worker is gone and nothing happens.
     */
    method Fire(h: Handle<T>) returns (ran: Option<Callback>)
      requires Valid() && h in callbacks && h.reclaimed
      modifies this
      ensures Valid() && isActive == old(isActive)
      ensures old(isActive) ==>
        && ran == Some(old(callbacks)[h])
        && callbacks == old(callbacks) - {h}
        && |callbacks| == old(|callbacks|) - 1
        && Fired == old(Fired) + [h]
      ensures !old(isActive) ==> ran == None && callbacks == old(callbacks) && Fired == old(Fired)
    {
      if !isActive {
        return None;
      }
      ran := Some(callbacks[h]);
      callbacks := callbacks - {h};
      Fired := Fired + [h];
    }
  }

  /** One turn of the loop in `toArray`: keep the referent of `h` unless it is already there. */
  lemma ToArrayStep<T>(arr: seq<T>, done: set<Handle<T>>, h: Handle<T>)
    requires Distinct(arr) && Elements(arr) == ValuesOf(done) && |arr| <= |done| && h !in done
    ensures var v := h.Get();
      var arr' := if v.Some? && v.value !in arr then arr + [v.value] else arr;
      && Distinct(arr') && Elements(arr') == ValuesOf(done + {h}) && |arr'| <= |done + {h}|
  {
    ValuesOfInsert(done, h);
    var v := h.Get();
    if v.Some? && v.value !in arr {
      assert Elements(arr + [v.value]) == Elements(arr) + {v.value};
    }
  }

  /** The anonymous iterator class of `iterator()`. */
  class SetIterator<T(==)> {
    /** The set the iterator removes from. */
    const owner: FinalizableReferenceSet<T>
    /** The snapshot taken when the iterator was created. */
    const arr: seq<T>
    /** The position of the next element to yield. */
    var i: nat
    /** Whether the latest `next`/`hasNext` call was a successful `next`. */
    var increased: bool

    ghost predicate Valid()
      reads this
    {
      i <= |arr| && (increased ==> 0 < i)
    }

    constructor (owner: FinalizableReferenceSet<T>)
      ensures this.owner == owner && Valid() && i == 0 && !increased
      ensures Distinct(arr) && Elements(arr) == owner.LiveValues()
      ensures owner.Valid() && owner.tier == Phantom ==> arr == []
    {
      this.owner := owner;
      var snapshot := owner.ToArray();
      arr := snapshot;
      i := 0;
      increased := false;
    }

    /** `hasNext()`: whether the snapshot has more elements; it forgets the last `next`. */
    method HasNext() returns (more: bool)
      requires Valid()
      modifies this
      ensures Valid() && more == (i < |arr|)
      ensures i == old(i) && !increased
    {
      increased := false;
      more := i < |arr|;
    }

    /** `next()`: the next snapshot element, or `NoSuchElement` past the end. */
    method Next() returns (r: Result<T>)
      requires Valid()
      modifies this
      ensures Valid()
      ensures old(i) < |arr| ==> r == Ok(arr[old(i)]) && i == old(i) + 1 && increased
      ensures old(i) >= |arr| ==> r == Err(NoSuchElement) && i == old(i) && increased == old(increased)
    {
      if i >= |arr| {
        return Err(NoSuchElement);
      }
      increased := true;
      r := Ok(arr[i]);
      i := i + 1;
    }

    /**
     * `remove()`: unregister every handle of the set whose referent is the
     * element `next` yielded last.  It fails unless the latest call was a
     * successful `next`, and it does not itself reset that state.
     */
    method Remove() returns (r: Outcome)
      requires Valid() && owner.Valid()
      modifies owner
      ensures owner.Valid() && owner.isActive == old(owner.isActive) && owner.Fired == old(owner.Fired)
      ensures i == old(i) && increased == old(increased)
      ensures !increased ==> r == Fail(IllegalState) && owner.callbacks == old(owner.callbacks)
      ensures increased ==>
        && r == Pass
        && owner.callbacks == old(owner.callbacks) - old(owner.Matching(Some(arr[i - 1])))
        && owner.LiveValues() == old(owner.LiveValues()) - {arr[i - 1]}
    {
      if !increased {
        return Fail(IllegalState);
      }
      var _ := owner.Remove(Some(arr[i - 1]));
      r := Pass;
    }
  }
}
