# FinalizableReferenceSet and FinalizableReferenceList in Dafny

This project models the two registries of the FinalizableReferenceList
repository. Each registry wraps values in `java.lang.ref` references and runs
a callback once the garbage collector has reclaimed a referent.

- `FinalizableReferenceSet` keeps a map from reference handles to callbacks.
  It compares values by identity (`ref.get() == element`), offers a snapshot
  iterator, and can be stopped with `destroy()`.
- `FinalizableReferenceList` keeps an ordered `ArrayList` of handles next to
  a callback map. Its positional operations do not always keep the two in
  step.

Modules:

- `Handles` (`handles.dfy`): the reference handle. It is a class with an
  identity, a tier (weak, soft or phantom), a referent that `Get()` hides for
  phantoms, and a `reclaimed` flag. `Reclaim()` stands for the garbage
  collector clearing the referent and enqueueing the handle. The module also
  holds the shared value types: `Option` for Java `null`, the exceptions as
  `Error`, `Result`/`Outcome`, and callbacks as identities.
- `Seqs` (`seqs.dfy`): the `ArrayList` operations the list relies on
  (`indexOf`, `remove(Object)`, `add(int, E)`) as functions on sequences,
  with the facts about repetition-free sequences that the list invariant
  needs.
- `ReferenceSet` (`reference_set.dfy`): the set registry, class
  `FinalizableReferenceSet`, and its anonymous iterator, class
  `SetIterator`.
  - `LiveValues()` is the set of distinct referents still observable.
  - `Matching(x)` is the set of handles that `removeIf(ref -> ref.get() == x)`
    drops.
  - `Fire(h)` is one turn of the worker loop for a handle the collector has
    enqueued.
  - A ghost log `Fired` records every handle whose callback has run. The
    invariant keeps it free of repetitions and disjoint from the registered
    handles, so no callback runs twice.
- `ReferenceList` (`reference_list.dfy`): the list registry, class
  `FinalizableReferenceList`. Its invariant is `Consistent` over the list,
  the map, the tier and the fired log. Each operation is proved against
  `Consistent` through one lemma per kind of change.
- `Scenarios` (`scenarios.dfy`): the repository's unit tests that do not
  depend on garbage-collector timing, written as client methods whose
  postconditions are the tests' assertions. Two more methods drive the worker
  through reclaimed handles, and one shows the repeated iterator `remove()`.

Each Java operation is one atomic step. The worker thread and the memory
manager take turns with the other operations as `Fire` and `Reclaim` calls.

Where the code and its documentation differ, the model follows the code:

- Iterator `remove()` does not reset `increased`. Two `remove()` calls after
  one `next()` both succeed, and the second finds nothing left to drop
  (`Scenarios.IteratorRemoveTwice`).
- `add(index, ...)` and `set(index, ...)` register the callback before the
  `ArrayList` range check throws. An out-of-range index therefore leaves a
  new handle registered but not listed, and its callback still runs when its
  referent is reclaimed.
- The handle replaced by `set` keeps its callback entry. That callback still
  runs when its referent is reclaimed.
- `remove(null)` on the set drops every handle whose `get()` is null: all
  phantom handles and all reclaimed ones.
- `add(null, ...)` on the list is accepted (there is no null check there);
  on the set it throws `NullPointerException`.

## Model

| member | source | states |
|---|---|---|
| Handles.Handle.constructor | src/main/java/org/peekit/finalizablereferenceset/set/FinalizableReferenceSet.java:76 | a new reference has the factory's tier and holds the element, and `get()` shows it unless the tier is phantom |
| Handles.Handle.Get | src/main/java/org/peekit/finalizablereferenceset/set/FinalizableReferenceSet.java:74 | `get()` of a phantom is always null, and so is `get()` of a reclaimed reference |
| Handles.Handle.Reclaim | src/main/java/org/peekit/finalizablereferenceset/set/FinalizableReferenceSet.java:40 | the collector clears a referent that is still there and enqueues the handle, after which `get()` is null, so a handle is enqueued at most once |
| Seqs.IndexOf | FinalizableReferenceList/src/main/java/org/peekit/finalizablereferencelist/list/FinalizableReferenceList.java:92 | `indexOf` is -1 exactly when the element is absent, and otherwise the first position that holds it |
| Seqs.IndexOfDistinct | FinalizableReferenceList/src/main/java/org/peekit/finalizablereferencelist/list/FinalizableReferenceList.java:96-98 | in a list without repetitions, the first position of the handle at `index` is `index` |
| Seqs.RemoveFirst | FinalizableReferenceList/src/main/java/org/peekit/finalizablereferencelist/list/FinalizableReferenceList.java:92 | `remove(Object)` leaves an absent element's list unchanged, and otherwise drops exactly one occurrence, as a multiset |
| Seqs.InsertAt | FinalizableReferenceList/src/main/java/org/peekit/finalizablereferencelist/list/FinalizableReferenceList.java:81 | `add(int, E)` puts the element at the index, keeps the earlier elements and moves the later ones one place right |
| Seqs.RemoveFirstDistinct | FinalizableReferenceList/src/main/java/org/peekit/finalizablereferencelist/list/FinalizableReferenceList.java:92 | removing from a list without repetitions keeps it free of repetitions and removes exactly that element |
| Seqs.RemoveFirstMembers | FinalizableReferenceList/src/main/java/org/peekit/finalizablereferencelist/list/FinalizableReferenceList.java:53 | after removal, an element is in the list exactly when it was before and is not the removed one |
| Seqs.RemoveFirstAt | FinalizableReferenceList/src/main/java/org/peekit/finalizablereferencelist/list/FinalizableReferenceList.java:96-98 | removing the handle found at `index` by identity removes position `index` |
| Seqs.InsertAtDistinct | FinalizableReferenceList/src/main/java/org/peekit/finalizablereferencelist/list/FinalizableReferenceList.java:81 | inserting a new handle keeps the list free of repetitions and adds exactly that handle |
| Seqs.UpdateDistinct | FinalizableReferenceList/src/main/java/org/peekit/finalizablereferencelist/list/FinalizableReferenceList.java:87 | overwriting a position with a new handle keeps the list free of repetitions, and swaps the old handle for the new one |
| Seqs.AppendDistinct | FinalizableReferenceList/src/main/java/org/peekit/finalizablereferencelist/list/FinalizableReferenceList.java:74 | appending a new handle keeps the list free of repetitions |
| Seqs.DistinctCardinality | src/main/java/org/peekit/finalizablereferenceset/set/FinalizableReferenceSet.java:113 | a sequence without repetitions has as many elements as its set of elements |
| Seqs.SubsetCardinality | FinalizableReferenceList/src/main/java/org/peekit/finalizablereferencelist/list/FinalizableReferenceList.java:23-24 | a subset is no larger than its superset |
| ReferenceSet.ValuesOfInsert | src/main/java/org/peekit/finalizablereferenceset/set/FinalizableReferenceSet.java:78 | registering a handle adds its observable referent, if it has one, to the observable values |
| ReferenceSet.ValuesOfWitness | src/main/java/org/peekit/finalizablereferenceset/set/FinalizableReferenceSet.java:74 | a value is observable exactly when some registered handle's `get()` is identical to it |
| ReferenceSet.MatchingNonEmpty | src/main/java/org/peekit/finalizablereferenceset/set/FinalizableReferenceSet.java:74 | the filter `ref.get() == x` selects some handle exactly when `x` is observable |
| ReferenceSet.ValuesOfWithout | src/main/java/org/peekit/finalizablereferenceset/set/FinalizableReferenceSet.java:88 | dropping every handle that dereferences to `x` makes `x`, and only `x`, no longer observable |
| ReferenceSet.MapWithoutSize | src/main/java/org/peekit/finalizablereferenceset/set/FinalizableReferenceSet.java:88 | removing keys of a map removes exactly that many entries |
| ReferenceSet.WithoutMatching | src/main/java/org/peekit/finalizablereferenceset/set/FinalizableReferenceSet.java:88 | `removeIf(ref -> ref.get() == x)` keeps exactly the other entries, shrinks the map by the number of matches and, for a non-null `x`, drops `x` from the observable values |
| ReferenceSet.ValuesUnchanged | src/main/java/org/peekit/finalizablereferenceset/set/FinalizableReferenceSet.java:78 | changing only the map leaves what the untouched handles dereference to the same |
| ReferenceSet.ToArrayStep | src/main/java/org/peekit/finalizablereferenceset/set/FinalizableReferenceSet.java:112-115 | one element of the `map(get).distinct().filter(nonNull)` pipeline keeps the result free of repetitions and equal to the values seen so far |
| ReferenceSet.FinalizableReferenceSet.constructor | src/main/java/org/peekit/finalizablereferenceset/set/FinalizableReferenceSet.java:174-184 | `weak()`, `soft()` and `phantom()` build an empty, active set whose factory has that tier |
| ReferenceSet.FinalizableReferenceSet.LiveValues | src/main/java/org/peekit/finalizablereferenceset/set/FinalizableReferenceSet.java:112-115 | the distinct non-null referents of the registered handles, the values that `add`, `toArray()` and the iterator are specified against. A phantom set has none |
| ReferenceSet.FinalizableReferenceSet.Matching | src/main/java/org/peekit/finalizablereferenceset/set/FinalizableReferenceSet.java:88 | the registered handles whose `get()` is identical to `x`, null included: the filter of `removeIf` here and in the iterator's `remove()` (line 169), and of the count at line 74. It never matches a value on a phantom set |
| ReferenceSet.FinalizableReferenceSet.Size | src/main/java/org/peekit/finalizablereferenceset/set/FinalizableReferenceSet.java:61-63 | `size()` counts registrations, several handles for one value counted separately |
| ReferenceSet.FinalizableReferenceSet.WasPresent | src/main/java/org/peekit/finalizablereferenceset/set/FinalizableReferenceSet.java:74 | `wasPresent` holds exactly when the element is observable, and never on a phantom set |
| ReferenceSet.FinalizableReferenceSet.PhantomHidesValues | src/main/java/org/peekit/finalizablereferenceset/set/FinalizableReferenceSet.java:65-68 | a phantom set shows no value, and no handle of it matches any value |
| ReferenceSet.FinalizableReferenceSet.Destroy | src/main/java/org/peekit/finalizablereferenceset/set/FinalizableReferenceSet.java:54-59 | `destroy()` deactivates the set and changes nothing else, and a second call is a no-op |
| ReferenceSet.FinalizableReferenceSet.Add | src/main/java/org/peekit/finalizablereferenceset/set/FinalizableReferenceSet.java:70-81 | null throws and changes nothing. Otherwise exactly one fresh handle is registered, so `size()` grows by one even for a value already present. The result is true exactly when the value was not observable, so always true on a phantom set, and a non-phantom set then shows the value |
| ReferenceSet.FinalizableReferenceSet.Remove | src/main/java/org/peekit/finalizablereferenceset/set/FinalizableReferenceSet.java:83-89 | exactly the handles whose `get()` is identical to the element are dropped, and `size()` falls by their number. The result is true exactly when there was one. The value is no longer observable, and on a phantom set the result is false and nothing changes |
| ReferenceSet.FinalizableReferenceSet.Clear | src/main/java/org/peekit/finalizablereferenceset/set/FinalizableReferenceSet.java:91-93 | `clear()` unregisters every handle |
| ReferenceSet.FinalizableReferenceSet.GetReferences | src/main/java/org/peekit/finalizablereferenceset/set/FinalizableReferenceSet.java:95-104 | a new array of `size()` entries holding every registered handle exactly once |
| ReferenceSet.FinalizableReferenceSet.ToArray | src/main/java/org/peekit/finalizablereferenceset/set/FinalizableReferenceSet.java:106-116 | no duplicates and no nulls, exactly the observable values, no longer than `size()`, and empty for a phantom set |
| ReferenceSet.FinalizableReferenceSet.Iterator | src/main/java/org/peekit/finalizablereferenceset/set/FinalizableReferenceSet.java:145-149 | `iterator()` starts at position 0, before any `next`, over a `toArray()` snapshot taken now |
| ReferenceSet.FinalizableReferenceSet.Fire | src/main/java/org/peekit/finalizablereferenceset/set/FinalizableReferenceSet.java:38-42 | while active, the worker runs the enqueued handle's callback once, then unregisters only that handle and logs it as fired. After `destroy()` nothing happens |
| ReferenceSet.SetIterator.constructor | src/main/java/org/peekit/finalizablereferenceset/set/FinalizableReferenceSet.java:147-149 | the snapshot is `toArray()` at creation: distinct, exactly the observable values, empty for phantoms |
| ReferenceSet.SetIterator.HasNext | src/main/java/org/peekit/finalizablereferenceset/set/FinalizableReferenceSet.java:151-155 | `hasNext()` says whether the snapshot has more elements and clears `increased` |
| ReferenceSet.SetIterator.Next | src/main/java/org/peekit/finalizablereferenceset/set/FinalizableReferenceSet.java:157-163 | `next()` yields the snapshot element at the cursor and advances, or throws `NoSuchElementException` past the end and changes nothing |
| ReferenceSet.SetIterator.Remove | src/main/java/org/peekit/finalizablereferenceset/set/FinalizableReferenceSet.java:165-170 | `remove()` throws `IllegalStateException` unless the latest `next()`/`hasNext()` call was a successful `next()`. Otherwise it drops every handle whose `get()` is the last yielded element, which is then no longer observable. It leaves the cursor and the flag as they were, so a repeated `remove()` also succeeds |
| ReferenceList.RegisterKeeps | FinalizableReferenceList/src/main/java/org/peekit/finalizablereferencelist/list/FinalizableReferenceList.java:86 | registering a new handle of the list's tier keeps the invariant, whether or not the handle is listed |
| ReferenceList.InsertKeeps | FinalizableReferenceList/src/main/java/org/peekit/finalizablereferencelist/list/FinalizableReferenceList.java:80-81 | inserting a registered, unlisted handle anywhere keeps the invariant and lists exactly one more handle |
| ReferenceList.ReplaceKeeps | FinalizableReferenceList/src/main/java/org/peekit/finalizablereferencelist/list/FinalizableReferenceList.java:86-87 | putting a registered, unlisted handle in place of a listed one keeps the invariant and unlists the old one |
| ReferenceList.UnregisterKeeps | FinalizableReferenceList/src/main/java/org/peekit/finalizablereferencelist/list/FinalizableReferenceList.java:91-92 | unregistering a handle and removing it from the list keeps the invariant and unlists exactly that handle |
| ReferenceList.FireKeeps | FinalizableReferenceList/src/main/java/org/peekit/finalizablereferencelist/list/FinalizableReferenceList.java:51-53 | running, unregistering and unlisting a registered handle keeps the invariant with the handle logged as fired, so it cannot fire again |
| ReferenceList.FinalizableReferenceList.constructor | FinalizableReferenceList/src/main/java/org/peekit/finalizablereferencelist/list/FinalizableReferenceList.java:27-43 | the factories build an empty list with an empty map, whose factory has that tier |
| ReferenceList.FinalizableReferenceList.Size | FinalizableReferenceList/src/main/java/org/peekit/finalizablereferencelist/list/FinalizableReferenceList.java:61-63 | `size()` counts listed handles, not registered callbacks |
| ReferenceList.FinalizableReferenceList.ListedAreRegistered | FinalizableReferenceList/src/main/java/org/peekit/finalizablereferencelist/list/FinalizableReferenceList.java:61-63 | `size()` never exceeds the number of registered callbacks |
| ReferenceList.FinalizableReferenceList.Get | FinalizableReferenceList/src/main/java/org/peekit/finalizablereferencelist/list/FinalizableReferenceList.java:65-67 | `get(index)` returns the handle at the index without changing anything, and throws `IndexOutOfBoundsException` exactly outside `0..size()-1`. The handle it returns is registered |
| ReferenceList.FinalizableReferenceList.Add | FinalizableReferenceList/src/main/java/org/peekit/finalizablereferencelist/list/FinalizableReferenceList.java:70-75 | a fresh handle holding the element is registered with the callback and appended. The result is true and `size()` grows by one |
| ReferenceList.FinalizableReferenceList.AddAt | FinalizableReferenceList/src/main/java/org/peekit/finalizablereferencelist/list/FinalizableReferenceList.java:77-82 | a fresh handle is registered. Within `0..size()` it is inserted at the index, the later handles moving right; outside that range the call throws and the list is unchanged, but the registration stays |
| ReferenceList.FinalizableReferenceList.Set | FinalizableReferenceList/src/main/java/org/peekit/finalizablereferencelist/list/FinalizableReferenceList.java:84-88 | a fresh handle is registered. Within range it replaces the handle at the index, which is returned, stays registered and is no longer listed, and `size()` is unchanged. Out of range the call throws with the registration kept |
| ReferenceList.FinalizableReferenceList.Remove | FinalizableReferenceList/src/main/java/org/peekit/finalizablereferencelist/list/FinalizableReferenceList.java:90-93 | `remove(ref)` unregisters `ref` and drops it from the list. The result is true exactly when it was listed, and an unlisted `ref` leaves the list unchanged |
| ReferenceList.FinalizableReferenceList.RemoveAt | FinalizableReferenceList/src/main/java/org/peekit/finalizablereferencelist/list/FinalizableReferenceList.java:95-100 | `remove(index)` returns the handle at the index and removes it from both the list and the map, so `size()` falls by one. Out of range it throws and changes nothing |
| ReferenceList.FinalizableReferenceList.Clear | FinalizableReferenceList/src/main/java/org/peekit/finalizablereferencelist/list/FinalizableReferenceList.java:106-108 | `clear()` empties the list and leaves every callback registered |
| ReferenceList.FinalizableReferenceList.Fire | FinalizableReferenceList/src/main/java/org/peekit/finalizablereferencelist/list/FinalizableReferenceList.java:48-53 | the worker runs the enqueued handle's callback, then removes that handle from the map and the list and logs it as fired |
| Scenarios.SetAddAndRemove | src/test/java/org/peekit/finalizablereferenceset/set/FinalizableReferenceSetTest.java:59-78 | adding one object twice to a weak set gives true then false and sizes 1 and 2, with `toArray()` equal to `[obj]` both times. Removing it gives true and size 0 |
| Scenarios.SetPhantomValues | src/test/java/org/peekit/finalizablereferenceset/set/FinalizableReferenceSetTest.java:193-209 | on a phantom set both adds give true, remove gives false, size is 2 and `toArray()` is empty |
| Scenarios.SetIteratorTest | src/test/java/org/peekit/finalizablereferenceset/set/FinalizableReferenceSetTest.java:211-237 | the loop `hasNext`/`next`/`remove` over three registrations of two objects runs twice and empties the set. A later `remove()` throws `IllegalStateException` and `next()` throws `NoSuchElementException` |
| Scenarios.SetReclaimAndFire | src/main/java/org/peekit/finalizablereferenceset/set/FinalizableReferenceSet.java:38-59 | a reclaimed registration's callback runs once and the set is empty again. A second object registered afterwards is reclaimed after two `destroy()` calls; its callback no longer runs and its registration stays |
| Scenarios.IteratorRemoveTwice | src/main/java/org/peekit/finalizablereferenceset/set/FinalizableReferenceSet.java:165-170 | after one `next()` over a single registration, two `remove()` calls both succeed, and the set ends empty |
| Scenarios.ListAddRemove | src/test/java/org/peekit/finalizablereferencelist/list/FinalizableReferenceListTest.java:35-49 | after `add` the size is 1 and `get(0).get()` is the object. `remove(0)` gives size 0, and `add` then `remove(get(0))` gives size 0 again |
| Scenarios.ListReplaceAndFire | FinalizableReferenceList/src/main/java/org/peekit/finalizablereferencelist/list/FinalizableReferenceList.java:48-53 | a handle replaced by `set` still fires its own callback when reclaimed, the listed handle fires its callback, and the list ends empty |

## Left out

- The garbage collector's reachability analysis, the memory-pressure policy of soft references and the blocking `ReferenceQueue.remove()` are JVM runtime behaviour. `Handle.Reclaim` is a step any client may take on a handle that still has a referent, so weak and soft handles behave alike.
- The queue's order is not modelled. `Fire(h)` may be called for any registered handle that has been reclaimed.
- Threads and synchronisation are not modelled: the worker thread, `volatile isActive`, `interrupt()`, `synchronized`, and the race between the unsynchronised `remove` and the worker. Operations are atomic and interleave one at a time.
- Firing a handle that was unregistered explicitly before the worker reached it dereferences a missing callback in the source. `Fire` requires the handle to be registered instead.
- A callback that throws would end the worker thread. A null `Runnable` is one such callback: both registries accept it, and the worker's `run()` call then throws `NullPointerException`. Callbacks are identities that `Fire` returns as "the one that ran", with no null value, so that case does not arise.
- `toString()`, the header built from class names, `referenceType()`, `stream()` and `queue()` are diagnostics over JVM class metadata.
- `CmdUi`, the demo `Context`, `Util` and `DemoREPL` are console I/O and memory-filling demos. They are not part of this model.
- The constructors that take a reference generator are modelled only for `WeakReference::new`, `SoftReference::new` and `PhantomReference::new`. For the list that constructor is public; for the set it is package-private. Other generators are left out: they may override `get()` or return a shared reference, which would break the list's freedom from repetitions.
- ReferenceSet.FinalizableReferenceSet.ToArray: `distinct()` compares with `equals`, but the model compares values with `==`, as if every element's `equals` were identity.
- ReferenceSet.FinalizableReferenceSet.GetReferences and ReferenceSet.FinalizableReferenceSet.ToArray: the order in which `HashMap` iterates its keys is left open. Both methods pick the next key nondeterministically, so their contracts state contents and not order.
- Integer widths: `size()` and indexes are `int` in Java. The model uses unbounded integers, since no registry comes near 2^31 entries.
