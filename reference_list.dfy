/**
 * The list variant of the registry: an ordered sequence of reference handles
 * next to a map from handles to callbacks.  The positional operations change
 * the sequence the way `java.util.ArrayList` does; they keep every listed
 * handle registered, but `set`, `clear` and a failed `add(index, ...)` leave
 * callbacks registered for handles that are no longer (or never were) listed.
 *
 * The worker thread is modelled by `Fire`, one turn of its loop; the memory
 * manager by `Handle.Reclaim`.  Every operation is one atomic step.
 */
module ReferenceList {
  import opened Handles
  import opened Seqs

  /**
   * The list invariant on the values of the fields: the list holds each
   * handle at most once and only registered ones; every handle was made by
   * the list's factory; no callback has run twice or is still registered
   * after it ran.
   */
  ghost predicate Consistent<T>(list: seq<Handle<T>>, callbacks: map<Handle<T>, Callback>, tier: Tier, fired: seq<Handle<T>>)
  {
    && Distinct(list)
    && (forall h :: h in list ==> h in callbacks)
    && (forall h :: h in callbacks ==> h.tier == tier)
    && Distinct(fired)
    && (forall h :: h in callbacks ==> h !in fired)
  }

  /** Registering a new handle of the right tier keeps the invariant, whether or not it is listed. */
  lemma RegisterKeeps<T>(list: seq<Handle<T>>, callbacks: map<Handle<T>, Callback>, tier: Tier, fired: seq<Handle<T>>,
                         h: Handle<T>, callback: Callback)
    requires Consistent(list, callbacks, tier, fired) && h.tier == tier && h !in fired
    ensures Consistent(list, callbacks[h := callback], tier, fired)
  {
  }

  /** Inserting a registered, unlisted handle anywhere keeps the invariant. */
  lemma InsertKeeps<T>(list: seq<Handle<T>>, callbacks: map<Handle<T>, Callback>, tier: Tier, fired: seq<Handle<T>>,
                       i: nat, h: Handle<T>)
    requires Consistent(list, callbacks, tier, fired) && i <= |list| && h in callbacks && h !in list
    ensures Consistent(InsertAt(list, i, h), callbacks, tier, fired)
    ensures Elements(InsertAt(list, i, h)) == Elements(list) + {h}
  {
    InsertAtDistinct(list, i, h);
    forall g | g in InsertAt(list, i, h) ensures g in callbacks {
      assert g in Elements(InsertAt(list, i, h));
    }
  }

  /** Putting a registered, unlisted handle in place of a listed one keeps the invariant. */
  lemma ReplaceKeeps<T>(list: seq<Handle<T>>, callbacks: map<Handle<T>, Callback>, tier: Tier, fired: seq<Handle<T>>,
                        i: nat, h: Handle<T>)
    requires Consistent(list, callbacks, tier, fired) && i < |list| && h in callbacks && h !in list
    ensures Consistent(list[i := h], callbacks, tier, fired)
    ensures list[i] !in list[i := h]
  {
    UpdateDistinct(list, i, h);
    forall g | g in list[i := h] ensures g in callbacks && g != list[i] {
      assert g in Elements(list[i := h]);
    }
  }

  /** Unregistering a handle and unlisting its first occurrence keeps the invariant. */
  lemma UnregisterKeeps<T>(list: seq<Handle<T>>, callbacks: map<Handle<T>, Callback>, tier: Tier, fired: seq<Handle<T>>,
                           h: Handle<T>)
    requires Consistent(list, callbacks, tier, fired)
    ensures Consistent(RemoveFirst(list, h), callbacks - {h}, tier, fired)
    ensures h !in RemoveFirst(list, h)
    ensures Elements(RemoveFirst(list, h)) == Elements(list) - {h}
  {
    RemoveFirstDistinct(list, h);
    RemoveFirstMembers(list, h);
  }

  /** Running a registered handle's callback and unregistering it keeps the invariant, with the handle logged. */
  lemma FireKeeps<T>(list: seq<Handle<T>>, callbacks: map<Handle<T>, Callback>, tier: Tier, fired: seq<Handle<T>>,
                     h: Handle<T>)
    requires Consistent(list, callbacks, tier, fired) && h in callbacks
    ensures Consistent(RemoveFirst(list, h), callbacks - {h}, tier, fired + [h])
    ensures h !in RemoveFirst(list, h)
  {
    UnregisterKeeps(list, callbacks, tier, fired, h);
    AppendDistinct(fired, h);
  }

  class FinalizableReferenceList<T(==)> {
    /** The tier of the reference factory this list was built with. */
    const tier: Tier
    /** The listed handles, in order. */
    var list: seq<Handle<T>>
    /** Every registered handle and its callback. */
    var callbacks: map<Handle<T>, Callback>
    /** Every handle whose callback the worker has run, oldest first. */
    ghost var Fired: seq<Handle<T>>

    /**
     * The list holds each handle at most once and only registered ones; every
     * handle was made by this list's factory; no callback has run twice or is
     * still registered after it ran.
     */
    ghost predicate Valid()
      reads this
    {
      Consistent(list, callbacks, tier, Fired)
    }

    /** `weak()`, `soft()`, `phantom()`: an empty list whose worker is running. */
    constructor (tier: Tier)
      ensures Valid() && this.tier == tier
      ensures list == [] && callbacks == map[] && Fired == []
    {
      this.tier := tier;
      list := [];
      callbacks := map[];
      Fired := [];
    }

    /** `size()`: the number of listed handles, not of registered callbacks. */
    function Size(): (n: nat)
      reads this
      ensures n == |list|
    {
      |list|
    }

    /** Every listed handle is registered, so there are at least as many callbacks as listed handles. */
    lemma ListedAreRegistered()
      requires Valid()
      ensures |list| <= |callbacks|
    {
      DistinctCardinality(list);
      SubsetCardinality(Elements(list), callbacks.Keys);
    }

    /** `get(index)`: the handle at `index`, or `IndexOutOfBounds`. */
    function Get(index: int): (r: Result<Handle<T>>)
      reads this
      ensures r.Ok? <==> 0 <= index < |list|
      ensures r.Ok? ==> r.value == list[index]
      ensures r.Err? ==> r.error == IndexOutOfBounds
      ensures Valid() && r.Ok? ==> r.value in callbacks && r.value.tier == tier
    {
      if 0 <= index < |list| then Ok(list[index]) else Err(IndexOutOfBounds)
    }

    /** `add(element, callback)`: register a new handle and append it; always true. */
    method Add(element: Option<T>, callback: Callback) returns (r: bool, ghost h: Handle<T>)
      requires Valid()
      modifies this
      ensures Valid() && r && Fired == old(Fired)
      ensures fresh(h) && h.tier == tier && h.referent == element && !h.reclaimed
      ensures list == old(list) + [h] && |list| == old(|list|) + 1
      ensures callbacks == old(callbacks)[h := callback]
    {
      var reference := new Handle(tier, element);
      RegisterKeeps(list, callbacks, tier, Fired, reference, callback);
      InsertKeeps(list, callbacks[reference := callback], tier, Fired, |list|, reference);
      assert InsertAt(list, |list|, reference) == list + [reference];
      callbacks := callbacks[reference := callback];
      list := list + [reference];
      r, h := true, reference;
    }

    /**
     * `add(index, element, callback)`: register a new handle and insert it at
     * `index`.  The callback is registered before the range check, so an
     * index outside `0..size()` fails with the new handle registered but not
     * listed.
     */
    method AddAt(index: int, element: Option<T>, callback: Callback) returns (r: Outcome, ghost h: Handle<T>)
      requires Valid()
      modifies this
      ensures Valid() && Fired == old(Fired)
      ensures fresh(h) && h.tier == tier && h.referent == element && !h.reclaimed
      ensures callbacks == old(callbacks)[h := callback]
      ensures 0 <= index <= old(|list|) ==> r == Pass && list == InsertAt(old(list), index, h)
      ensures !(0 <= index <= old(|list|)) ==> r == Fail(IndexOutOfBounds) && list == old(list)
    {
      var reference := new Handle(tier, element);
      RegisterKeeps(list, callbacks, tier, Fired, reference, callback);
      callbacks := callbacks[reference := callback];
      h := reference;
      if !(0 <= index <= |list|) {
        return Fail(IndexOutOfBounds), h;
      }
      InsertKeeps(list, callbacks, tier, Fired, index, reference);
      list := InsertAt(list, index, reference);
      r := Pass;
    }

    /**
     * `set(index, element, callback)`: register a new handle and put it in
     * place of the one at `index`, which is returned and keeps its callback.
     * As with `AddAt`, the callback is registered before the range check.
     */
    method Set(index: int, element: Option<T>, callback: Callback) returns (r: Result<Handle<T>>, ghost h: Handle<T>)
      requires Valid()
      modifies this
      ensures Valid() && Fired == old(Fired)
      ensures fresh(h) && h.tier == tier && h.referent == element && !h.reclaimed
      ensures callbacks == old(callbacks)[h := callback]
      ensures 0 <= index < old(|list|) ==>
        && r == Ok(old(list)[index])
        && list == old(list)[index := h] && |list| == old(|list|)
        && r.value in callbacks && r.value !in list
      ensures !(0 <= index < old(|list|)) ==> r == Err(IndexOutOfBounds) && list == old(list)
    {
      var reference := new Handle(tier, element);
      RegisterKeeps(list, callbacks, tier, Fired, reference, callback);
      callbacks := callbacks[reference := callback];
      h := reference;
      if !(0 <= index < |list|) {
        return Err(IndexOutOfBounds), h;
      }
      var previous := list[index];
      ReplaceKeeps(list, callbacks, tier, Fired, index, reference);
      list := list[index := reference];
      r := Ok(previous);
    }

    /**
     * `remove(ref)`: unregister `ref` whether or not it is listed, and drop it
     * from the list; the result says whether it was listed.
     */
    method Remove(ref: Handle<T>) returns (removed: bool)
      requires Valid()
      modifies this
      ensures Valid() && Fired == old(Fired)
      ensures removed == (ref in old(list))
      ensures callbacks == old(callbacks) - {ref}
      ensures list == RemoveFirst(old(list), ref)
      ensures Elements(list) == Elements(old(list)) - {ref}
      ensures removed ==> |list| == old(|list|) - 1
      ensures !removed ==> list == old(list)
    {
      removed := ref in list;
      UnregisterKeeps(list, callbacks, tier, Fired, ref);
      callbacks := callbacks - {ref};
      list := RemoveFirst(list, ref);
    }

    /** `remove(index)`: unregister and unlist the handle at `index` and return it. */
    method RemoveAt(index: int) returns (r: Result<Handle<T>>)
      requires Valid()
      modifies this
      ensures Valid() && Fired == old(Fired)
      ensures 0 <= index < old(|list|) ==>
        && r == Ok(old(list)[index])
        && list == old(list)[..index] + old(list)[index + 1..]
        && |list| == old(|list|) - 1
        && callbacks == old(callbacks) - {old(list)[index]}
      ensures !(0 <= index < old(|list|)) ==>
        r == Err(IndexOutOfBounds) && list == old(list) && callbacks == old(callbacks)
    {
      if !(0 <= index < |list|) {
        return Err(IndexOutOfBounds);
      }
      var reference := list[index];
      RemoveFirstAt(list, index);
      UnregisterKeeps(list, callbacks, tier, Fired, reference);
      callbacks := callbacks - {reference};
      list := RemoveFirst(list, reference);
      r := Ok(reference);
    }

    /** `clear()`: empty the list; every callback stays registered. */
    method Clear()
      requires Valid()
      modifies this
      ensures Valid() && Fired == old(Fired)
      ensures list == [] && callbacks == old(callbacks)
    {
      list := [];
    }

    /**
     * One turn of the worker loop for a handle the memory manager has
     * enqueued: run its callback, unregister it and drop it from the list.
     */
    method Fire(h: Handle<T>) returns (ran: Callback)
      requires Valid() && h in callbacks && h.reclaimed
      modifies this
      ensures Valid()
      ensures ran == old(callbacks)[h]
      ensures callbacks == old(callbacks) - {h}
      ensures list == RemoveFirst(old(list), h) && h !in list
      ensures Fired == old(Fired) + [h]
    {
      ran := callbacks[h];
      FireKeeps(list, callbacks, tier, Fired, h);
      callbacks := callbacks - {h};
      list := RemoveFirst(list, h);
      Fired := Fired + [h];
    }
  }
}
