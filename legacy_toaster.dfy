/**
 * The earlier `Toaster` class of toaster.js.  Its `#toasts` object maps a
 * bare UUID to the message; every change rebuilds the container's children
 * from scratch, and removing a toast by hand does not cancel its expiry
 * timer, whose later callback then finds the id gone.
 */
module LegacyToaster {
  import opened Wrappers
  import opened JsObject
  import opened Dom
  import opened Timers
  import opened Uuid

  /** The constructor's `defaultTimeout > 0 ? defaultTimeout : 10000`. */
  function EffectiveDefaultTimeout(defaultTimeout: Option<int>): (t: int)
    ensures t > 0
    ensures defaultTimeout.Some? && defaultTimeout.value > 0 ==> t == defaultTimeout.value
    ensures !(defaultTimeout.Some? && defaultTimeout.value > 0) ==> t == 10000
  {
    if defaultTimeout.Some? && defaultTimeout.value > 0 then defaultTimeout.value else 10000
  }

  /** Every live toast has at least one pending timer. */
  ghost predicate Timed(toasts: PlainObject<string>, timers: map<Handle, Timer>) {
    forall k :: k in toasts.values ==> k in Targets(timers)
  }

  /** No two pending timers target the same id. */
  ghost predicate OnePerId(timers: map<Handle, Timer>) {
    forall h1, h2 :: h1 in timers && h2 in timers && timers[h1].target == timers[h2].target ==> h1 == h2
  }

  /** Every pending handle is below the next one the host hands out. */
  ghost predicate HandlesBelow(timers: map<Handle, Timer>, nextHandle: Handle) {
    forall h :: h in timers ==> h < nextHandle
  }

  /**
   * The state invariant: a positive default, children that show exactly the
   * live toasts newest first, at least one pending timer for each live toast,
   * at most one pending timer per id, and handles below the next one.
   */
  ghost predicate Consistent(defaultTimeout: int, toasts: PlainObject<string>, children: seq<Element>,
                             timers: map<Handle, Timer>, nextHandle: Handle)
  {
    && defaultTimeout > 0
    && Wf(toasts)
    && children == Render(toasts.keys, toasts.values)
    && Timed(toasts, timers)
    && OnePerId(timers)
    && HandlesBelow(timers, nextHandle)
  }

  /**
   * Scheduling a fresh handle for a new toast whose id no pending timer
   * targets keeps every live toast timed and at most one timer per id.
   */
  lemma TimersAfterAdd(toasts: PlainObject<string>, timers: map<Handle, Timer>, nextHandle: Handle,
                       id: string, message: string, delay: int)
    requires Wf(toasts) && Timed(toasts, timers) && OnePerId(timers) && HandlesBelow(timers, nextHandle)
    requires id !in Targets(timers)
    ensures Timed(Set(toasts, id, message), timers[nextHandle := Timer(id, delay)])
    ensures OnePerId(timers[nextHandle := Timer(id, delay)])
    ensures HandlesBelow(timers[nextHandle := Timer(id, delay)], nextHandle + 1)
  {
    SetWf(toasts, id, message);
    var timers' := timers[nextHandle := Timer(id, delay)];
    forall k | k in Set(toasts, id, message).values ensures k in Targets(timers') {
      if k == id {
        assert timers'[nextHandle].target == id;
      } else {
        var h :| h in timers && timers[h].target == k;
        assert timers'[h].target == k;
      }
    }
    assert forall h :: h in timers ==> timers[h].target in Targets(timers);
    forall h1, h2 | h1 in timers' && h2 in timers' && timers'[h1].target == timers'[h2].target
      ensures h1 == h2
    {
      if h1 != nextHandle && h2 != nextHandle {
        assert timers[h1].target == timers[h2].target;
      }
    }
  }

  /**
   * Rebuilding after adding a fresh toast gives the old children with the
   * new element in front, the same children js-toaster.js reaches by
   * prepending one element.
   */
  lemma RebuildAfterAdd(toasts: PlainObject<string>, id: string, message: string)
    requires Wf(toasts) && id !in toasts.values
    ensures Wf(Set(toasts, id, message))
    ensures Render(Set(toasts, id, message).keys, Set(toasts, id, message).values)
         == [Element(id, message)] + Render(toasts.keys, toasts.values)
  {
    SetWf(toasts, id, message);
    RenderAppend(toasts.keys, toasts.values[id := message], id);
    RenderFrame(toasts.keys, toasts.values[id := message], toasts.values);
  }

  /** Rebuilding after deleting a toast gives the old children without its element. */
  lemma RebuildAfterDelete(toasts: PlainObject<string>, id: string)
    requires Wf(toasts)
    ensures Wf(Delete(toasts, id))
    ensures Render(Delete(toasts, id).keys, Delete(toasts, id).values)
         == RemoveFirst(Render(toasts.keys, toasts.values), id)
  {
    DeleteWf(toasts, id);
    RenderWithout(toasts.keys, toasts.values, id);
    WithoutMembers(toasts.keys, id);
    RenderFrame(Without(toasts.keys, id), toasts.values - {id}, toasts.values);
  }

  /** `addToast` on an id that no pending timer targets keeps the invariant. */
  lemma AddKeepsConsistent(defaultTimeout: int, toasts: PlainObject<string>, children: seq<Element>,
                           timers: map<Handle, Timer>, nextHandle: Handle, id: string, message: string, delay: int)
    requires Consistent(defaultTimeout, toasts, children, timers, nextHandle) && id !in Targets(timers)
    ensures id !in toasts.values
    ensures Consistent(defaultTimeout, Set(toasts, id, message), [Element(id, message)] + children,
                       timers[nextHandle := Timer(id, delay)], nextHandle + 1)
  {
    RebuildAfterAdd(toasts, id, message);
    TimersAfterAdd(toasts, timers, nextHandle, id, message, delay);
  }

  /** `removeToast` on a live id keeps the invariant; its timer stays pending. */
  lemma RemoveKeepsConsistent(defaultTimeout: int, toasts: PlainObject<string>, children: seq<Element>,
                              timers: map<Handle, Timer>, nextHandle: Handle, id: string)
    requires Consistent(defaultTimeout, toasts, children, timers, nextHandle)
    ensures Consistent(defaultTimeout, Delete(toasts, id), RemoveFirst(children, id), timers, nextHandle)
  {
    RebuildAfterDelete(toasts, id);
  }

  /**
   * Once the toast a timer targets is gone, dropping the fired timer keeps
   * the invariant: every other live toast has its own timer.
   */
  lemma ExpiryKeepsConsistent(defaultTimeout: int, toasts: PlainObject<string>, children: seq<Element>,
                              timers: map<Handle, Timer>, nextHandle: Handle, h: Handle)
    requires Consistent(defaultTimeout, toasts, children, timers, nextHandle)
    requires h in timers && timers[h].target !in toasts.values
    ensures Consistent(defaultTimeout, toasts, children, timers - {h}, nextHandle)
  {
    assert OnePerId(timers - {h});
    forall k | k in toasts.values ensures k in Targets(timers - {h}) {
      var h' :| h' in timers && timers[h'].target == k;
      assert h' != h;
      assert (timers - {h})[h'].target == k;
    }
  }

  class Toaster {
    /** The public `defaultTimeout` field, fixed by the constructor. */
    const defaultTimeout: int
    const toasterId: string
    /** `#toasts`. */
    var toasts: PlainObject<string>
    /** The children of `toasterElemenet`. */
    var children: seq<Element>
    /** The host's pending timers and the next handle it will hand out. */
    var timers: map<Handle, Timer>
    var nextHandle: Handle

    ghost predicate Valid()
      reads this
    {
      Consistent(defaultTimeout, toasts, children, timers, nextHandle)
    }

    /**
     * `new Toaster(parentElement, defaultTimeout)`, with `rnd` the random
     * bytes of the toaster's id, which is a bare UUID; appending the
     * container to `parentElement` is not modelled.
     */
    constructor (defaultTimeoutArg: Option<int>, rnd: seq<bv8>)
      requires |rnd| == RandomBytes
      ensures Valid()
      ensures defaultTimeout == EffectiveDefaultTimeout(defaultTimeoutArg)
      ensures toasterId == GetUuidV4(rnd) && IsUuidV4(toasterId)
      ensures toasts == Empty() && children == [] && timers == map[]
    {
      defaultTimeout := EffectiveDefaultTimeout(defaultTimeoutArg);
      toasterId := GetUuidV4(rnd);
      toasts := Empty();
      children := [];
      timers := map[];
      nextHandle := 0;
    }

    /**
     * `updateToasts()`: strip every child, then prepend one element per
     * entry in key order, so the children end up newest first.
     */
    method UpdateToasts()
      requires Wf(toasts)
      modifies this`children
      ensures children == Render(toasts.keys, toasts.values)
    {
      while children != []
        decreases |children|
      {
        children := children[1..];
      }
      var keys := toasts.keys;
      for i := 0 to |keys|
        invariant children == Render(keys[..i], toasts.values)
      {
        assert keys[..i + 1][..i] == keys[..i];
        children := [Element(keys[i], toasts.values[keys[i]])] + children;
      }
      assert keys[..|keys|] == keys;
    }

    /**
     * `addToast(message, timeout)` with `rnd` the random bytes of the new
     * id, which no pending timer may target.  The entry goes last in key
     * order, one timer is scheduled, and the rebuilt children are the old
     * ones with the new element in front.
     */
    method AddToast(message: string, timeout: Option<int>, rnd: seq<bv8>)
      requires Valid() && |rnd| == RandomBytes
      requires GetUuidV4(rnd) !in Targets(timers)
      modifies this
      ensures Valid()
      ensures GetUuidV4(rnd) !in old(toasts.values)
      ensures toasts.keys == old(toasts.keys) + [GetUuidV4(rnd)]
      ensures toasts.values == old(toasts.values)[GetUuidV4(rnd) := message]
      ensures timers == old(timers)[old(nextHandle) := Timer(GetUuidV4(rnd), Delay(timeout, defaultTimeout))]
      ensures children == [Element(GetUuidV4(rnd), message)] + old(children)
    {
      var toastId := GetUuidV4(rnd);
      var delay := Delay(timeout, defaultTimeout);
      ghost var after := [Element(toastId, message)] + children;
      AddKeepsConsistent(defaultTimeout, toasts, children, timers, nextHandle, toastId, message, delay);
      RebuildAfterAdd(toasts, toastId, message);
      SetWf(toasts, toastId, message);
      toasts := Set(toasts, toastId, message);
      timers := timers[nextHandle := Timer(toastId, delay)];  // setTimeout
      nextHandle := nextHandle + 1;
      assert Consistent(defaultTimeout, toasts, after, timers, nextHandle);
      UpdateToasts();
      assert children == after;
    }

    /**
     * `removeToast(toastId)`: an unknown id returns before any rebuild; a
     * live one is deleted and the children are rebuilt.  No timer is
     * cancelled.
     */
    method RemoveToast(toastId: string)
      requires Valid()
      modifies this
      ensures Valid()
      ensures timers == old(timers) && nextHandle == old(nextHandle)
      ensures toastId !in toasts.values
      ensures toastId !in old(toasts.values) ==> toasts == old(toasts) && children == old(children)
      ensures toastId in old(toasts.values) ==>
        && toasts == Delete(old(toasts), toastId)
        && children == RemoveFirst(old(children), toastId)
    {
      if toastId !in toasts.values {
        return;
      }
      ghost var after := RemoveFirst(children, toastId);
      RemoveKeepsConsistent(defaultTimeout, toasts, children, timers, nextHandle, toastId);
      RebuildAfterDelete(toasts, toastId);
      toasts := Delete(toasts, toastId);
      UpdateToasts();
      assert children == after;
    }

    /**
     * The host runs the expiry callback of pending timer `h`, which calls
     * `removeToast` on its target, and discards the handle (the two orders
     * are indistinguishable, since `removeToast` does not touch timers).  A
     * target removed by hand earlier makes the callback a no-op.
     */
    method Fire(h: Handle)
      requires Valid()
      modifies this
      ensures Valid()
      ensures h !in old(timers) ==> toasts == old(toasts) && children == old(children) && timers == old(timers)
      ensures h in old(timers) ==> timers == old(timers) - {h}
      ensures h in old(timers) && old(timers)[h].target in old(toasts.values) ==>
        && toasts == Delete(old(toasts), old(timers)[h].target)
        && children == RemoveFirst(old(children), old(timers)[h].target)
      ensures h in old(timers) && old(timers)[h].target !in old(toasts.values) ==>
        toasts == old(toasts) && children == old(children)
    {
      if h in timers {
        var target := timers[h].target;
        RemoveToast(target);
        DeleteWf(old(toasts), target);
        ExpiryKeepsConsistent(defaultTimeout, toasts, children, timers, nextHandle, h);
        timers := timers - {h};
      }
    }
  }
}
