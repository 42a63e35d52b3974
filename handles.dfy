/**
 * Reference handles and the small value types shared by both registries.
 *
 * A handle stands for a `java.lang.ref.Reference`: an object with its own
 * identity, created for one value on one of three tiers.  The memory manager
 * (the JVM's garbage collector) is not modelled; its only visible effect, the
 * clearing of a referent and the pushing of the handle onto its queue, is the
 * method `Reclaim`.
 */
module Handles {

  datatype Option<+V> = None | Some(value: V)

  /** The reference strength chosen by a registry's factory. */
  datatype Tier = Weak | Soft | Phantom

  /** The exceptions the registries raise. */
  datatype Error =
    | NullPointer        // Set.add(null)
    | IndexOutOfBounds   // positional List access outside the list
    | NoSuchElement      // iterator advanced past its snapshot
    | IllegalState       // iterator remove without a preceding next

  datatype Result<+R> = Ok(value: R) | Err(error: Error)

  /** The outcome of an operation that returns nothing but may throw. */
  datatype Outcome = Pass | Fail(error: Error)

  /** The identity of one `Runnable` handed to `add`; running it is done by the caller of `Fire`. */
  datatype Callback = Callback(id: nat)

  class Handle<T> {
    /** The tier this handle was created on; it never changes. */
    const tier: Tier
    /** The object the memory manager tracks; cleared when it is reclaimed. */
    var referent: Option<T>
    /** True once the memory manager has pushed this handle onto its queue. */
    var reclaimed: bool

    /** Creating a reference: `new WeakReference<>(v, queue)` and its Soft/Phantom siblings. */
    constructor (tier: Tier, v: Option<T>)
      ensures this.tier == tier && referent == v && !reclaimed
      ensures Get() == (if tier == Phantom then None else v)
    {
      this.tier := tier;
      referent := v;
      reclaimed := false;
    }

    /** `Reference.get()`: the referent until it is reclaimed, and never anything for a phantom. */
    function Get(): (r: Option<T>)
      reads this
      ensures tier == Phantom ==> r == None
      ensures reclaimed && Valid() ==> r == None
    {
      if tier == Phantom then None else referent
    }

    /** A reclaimed handle has lost its referent. */
    predicate Valid()
      reads this
    {
      reclaimed ==> referent == None
    }

    /**
     * The memory manager finds the referent unreachable under this tier's policy,
     * clears it and enqueues the handle.  A reference whose referent is null is
     * never enqueued, so each handle is enqueued at most once.
     */
    method Reclaim()
      requires Valid() && referent.Some?
      modifies this
      ensures Valid() && reclaimed && referent == None && Get() == None
    {
      referent := None;
      reclaimed := true;
    }
  }
}
