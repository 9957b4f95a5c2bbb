/**
 * The `Toaster` class of js-toaster.js.  Its private `#toasts` object maps
 * each live toast id to its message and the handle of its pending expiry
 * timer; the container element shows one child per live toast, newest
 * first; the host's timer facility holds one pending timer per live toast.
 */
module JsToaster {
  import opened Wrappers
  import opened JsObject
  import opened Dom
  import opened Timers
  import opened Uuid
  import opened Options

  /** The value stored under a toast id: `{ message, timeout }`. */
  datatype ToastRecord = ToastRecord(message: string, timeout: Handle)

  /** The text each live toast's element shows. */
  function Messages(values: map<string, ToastRecord>): map<string, string>
  {
    map k | k in values :: values[k].message
  }

  /** The children a container holding exactly the live toasts shows. */
  function Children(toasts: PlainObject<ToastRecord>): seq<Element>
    requires Wf(toasts)
  {
    Render(toasts.keys, Messages(toasts.values))
  }

  /**
   * Pending timers and live toasts correspond one to one: each live toast's
   * recorded handle is pending and targets it, and each pending timer is the
   * recorded one of the live toast it targets.
   */
  ghost predicate TimersMatch(toasts: PlainObject<ToastRecord>, timers: map<Handle, Timer>) {
    && (forall k :: k in toasts.values ==>
          toasts.values[k].timeout in timers && timers[toasts.values[k].timeout].target == k)
    && (forall h :: h in timers ==>
          timers[h].target in toasts.values && toasts.values[timers[h].target].timeout == h)
  }

  /** Under the correspondence, every live toast has exactly one pending timer. */
  lemma OneTimerPerToast(toasts: PlainObject<ToastRecord>, timers: map<Handle, Timer>, k: string)
    requires TimersMatch(toasts, timers) && k in toasts.values
    ensures (set h | h in timers && timers[h].target == k) == {toasts.values[k].timeout}
  {
    var hs := set h | h in timers && timers[h].target == k;
    assert toasts.values[k].timeout in hs;
    forall h | h in hs ensures h == toasts.values[k].timeout {
      assert toasts.values[timers[h].target].timeout == h;
    }
  }

  /** Under the correspondence, no timer is pending once no toast is live. */
  lemma NoToastsNoTimers(toasts: PlainObject<ToastRecord>, timers: map<Handle, Timer>)
    requires TimersMatch(toasts, timers) && toasts.values == map[]
    ensures timers == map[]
  {
    if h :| h in timers {
      assert timers[h].target in toasts.values;
    }
  }

  /** Adding a fresh toast together with a fresh timer for it keeps the correspondence. */
  lemma TimersMatchAdd(toasts: PlainObject<ToastRecord>, timers: map<Handle, Timer>,
                       id: string, message: string, h: Handle, delay: int)
    requires Wf(toasts) && TimersMatch(toasts, timers)
    requires id !in toasts.values && h !in timers
    ensures TimersMatch(Set(toasts, id, ToastRecord(message, h)), timers[h := Timer(id, delay)])
  {
    SetWf(toasts, id, ToastRecord(message, h));
  }

  /** Deleting a live toast together with its timer keeps the correspondence. */
  lemma TimersMatchDelete(toasts: PlainObject<ToastRecord>, timers: map<Handle, Timer>, id: string)
    requires Wf(toasts) && TimersMatch(toasts, timers) && id in toasts.values
    ensures TimersMatch(Delete(toasts, id), timers - {toasts.values[id].timeout})
  {
    DeleteWf(toasts, id);
    var gone := toasts.values[id].timeout;
    var t' := timers - {gone};
    var o' := Delete(toasts, id);
    forall k | k in o'.values
      ensures o'.values[k].timeout in t' && t'[o'.values[k].timeout].target == k
    {
      assert o'.values[k] == toasts.values[k];
      assert timers[toasts.values[k].timeout].target == k != id == timers[gone].target;
    }
  }

  /** A fresh toast's element goes first, in front of the existing children. */
  lemma ChildrenAdd(toasts: PlainObject<ToastRecord>, id: string, r: ToastRecord)
    requires Wf(toasts) && id !in toasts.values
    ensures Wf(Set(toasts, id, r))
    ensures Children(Set(toasts, id, r)) == [Element(id, r.message)] + Children(toasts)
  {
    SetWf(toasts, id, r);
    var m, m' := Messages(toasts.values), Messages(toasts.values[id := r]);
    RenderAppend(toasts.keys, m', id);
    RenderFrame(toasts.keys, m', m);
  }

  /** Deleting a toast takes its element, and only it, out of the children. */
  lemma ChildrenDelete(toasts: PlainObject<ToastRecord>, id: string)
    requires Wf(toasts)
    ensures Wf(Delete(toasts, id))
    ensures Children(Delete(toasts, id)) == RemoveFirst(Children(toasts), id)
  {
    DeleteWf(toasts, id);
    var m, m' := Messages(toasts.values), Messages(toasts.values - {id});
    RenderWithout(toasts.keys, m, id);
    WithoutMembers(toasts.keys, id);
    RenderFrame(Without(toasts.keys, id), m', m);
  }

  /**
   * The state invariant: sanitised options, a well-formed registry, children
   * that show exactly the live toasts newest first, one pending timer per
   * live toast and none for other ids, and handles below the next one the
   * host hands out.
   */
  ghost predicate Consistent(options: map<string, OptionValue>, toasts: PlainObject<ToastRecord>,
                             children: seq<Element>, timers: map<Handle, Timer>, nextHandle: Handle)
  {
    && WellFormed(options)
    && Wf(toasts)
    && children == Children(toasts)
    && TimersMatch(toasts, timers)
    && (forall h :: h in timers ==> h < nextHandle)
  }

  /** `addToast` on a fresh id keeps the invariant. */
  lemma AddKeepsConsistent(options: map<string, OptionValue>, toasts: PlainObject<ToastRecord>,
                           children: seq<Element>, timers: map<Handle, Timer>, nextHandle: Handle,
                           id: string, message: string, delay: int)
    requires Consistent(options, toasts, children, timers, nextHandle) && id !in toasts.values
    ensures Consistent(options, Set(toasts, id, ToastRecord(message, nextHandle)),
                       [Element(id, message)] + children,
                       timers[nextHandle := Timer(id, delay)], nextHandle + 1)
  {
    TimersMatchAdd(toasts, timers, id, message, nextHandle, delay);
    ChildrenAdd(toasts, id, ToastRecord(message, nextHandle));
  }

  /** `removeToast` on a live id keeps the invariant. */
  lemma RemoveKeepsConsistent(options: map<string, OptionValue>, toasts: PlainObject<ToastRecord>,
                              children: seq<Element>, timers: map<Handle, Timer>, nextHandle: Handle,
                              id: string)
    requires Consistent(options, toasts, children, timers, nextHandle) && id in toasts.values
    ensures Consistent(options, Delete(toasts, id), RemoveFirst(children, id),
                       timers - {toasts.values[id].timeout}, nextHandle)
  {
    ChildrenDelete(toasts, id);
    TimersMatchDelete(toasts, timers, id);
  }

  /** For an id that is not live, deleting it and removing its element change nothing. */
  lemma RemoveAbsentIsNoOp(options: map<string, OptionValue>, toasts: PlainObject<ToastRecord>,
                           children: seq<Element>, timers: map<Handle, Timer>, nextHandle: Handle,
                           id: string)
    requires Consistent(options, toasts, children, timers, nextHandle) && id !in toasts.values
    ensures Delete(toasts, id) == toasts && RemoveFirst(children, id) == children
  {
    DeleteWf(toasts, id);
    RenderAbsent(toasts.keys, Messages(toasts.values), id);
    RemoveFirstAbsent(children, id);
  }

  class Toaster {
    const options: map<string, OptionValue>
    const toasterId: string
    /** `#toasts`. */
    var toasts: PlainObject<ToastRecord>
    /** The children of `#toasterElement`. */
    var children: seq<Element>
    /** The host's pending timers and the next handle it will hand out. */
    var timers: map<Handle, Timer>
    var nextHandle: Handle

    ghost predicate Valid()
      reads this
    {
      Consistent(options, toasts, children, timers, nextHandle)
    }

    /**
     * `new Toaster(parentElement, options)` with `rnd` the random bytes of
     * the toaster's id; appending the container to `parentElement` is not
     * modelled.
     */
    constructor (supplied: map<string, OptionValue>, rnd: seq<bv8>)
      requires |rnd| == RandomBytes
      ensures Valid()
      ensures options == GetValidatedOptions(supplied)
      ensures toasterId == GetId(ToasterPrefixOf(options), rnd)
      ensures toasts == Empty() && children == [] && timers == map[]
    {
      options := GetValidatedOptions(supplied);
      toasterId := GetId(ToasterPrefixOf(GetValidatedOptions(supplied)), rnd);
      toasts := Empty();
      children := [];
      timers := map[];
      nextHandle := 0;
    }

    /** `setTimeout(() => this.removeToast(target), delay)`. */
    method SetTimeout(target: string, delay: int) returns (h: Handle)
      modifies this`timers, this`nextHandle
      ensures h == old(nextHandle) && nextHandle == h + 1
      ensures timers == old(timers)[h := Timer(target, delay)]
    {
      h := nextHandle;
      nextHandle := nextHandle + 1;
      timers := timers[h := Timer(target, delay)];
    }

    /** `clearTimeout(h)`; clearing a handle that is not pending does nothing. */
    method ClearTimeout(h: Handle)
      modifies this`timers
      ensures timers == old(timers) - {h}
    {
      timers := timers - {h};
    }

    /**
     * `addToast(message, timeout)` with `rnd` the random bytes of the new
     * id, which must not name a live toast.  The new element is prepended,
     * the entry is appended last in key order with every earlier entry
     * untouched, and one timer is scheduled with a positive delay.
     */
    method AddToast(message: string, timeout: Option<int>, rnd: seq<bv8>) returns (toastId: string)
      requires Valid() && |rnd| == RandomBytes
      requires GetId(ToastPrefixOf(options), rnd) !in toasts.values
      modifies this
      ensures Valid()
      ensures toastId == GetId(ToastPrefixOf(options), rnd)
      ensures toasts.keys == old(toasts.keys) + [toastId]
      ensures toasts.values == old(toasts.values)[toastId := ToastRecord(message, old(nextHandle))]
      ensures children == [Element(toastId, message)] + old(children)
      ensures timers == old(timers)[old(nextHandle) := Timer(toastId, Delay(timeout, DefaultTimeoutOf(options)))]
    {
      toastId := GetId(ToastPrefixOf(options), rnd);
      var delay := Delay(timeout, DefaultTimeoutOf(options));
      AddKeepsConsistent(options, toasts, children, timers, nextHandle, toastId, message, delay);
      SetWf(toasts, toastId, ToastRecord(message, nextHandle));
      children := [Element(toastId, message)] + children;
      var h := SetTimeout(toastId, delay);
      toasts := Set(toasts, toastId, ToastRecord(message, h));
    }

    /**
     * `#removeToastElement(toastId)`: removes the child with that id; when
     * there is none the error is caught and reported instead of thrown.
     */
    method RemoveToastElement(toastId: string) returns (reported: bool)
      modifies this`children
      ensures children == RemoveFirst(old(children), toastId)
      ensures reported == !HasChild(old(children), toastId)
    {
      reported := !HasChild(children, toastId);
      if reported {
        RemoveFirstAbsent(children, toastId);
      }
      children := RemoveFirst(children, toastId);
    }

    /**
     * `removeToast(toastId)`: an unknown id changes nothing; a live one has
     * its timer cancelled, its entry deleted (the other keys keep their
     * order) and its element removed.
     */
    method RemoveToast(toastId: string)
      requires Valid()
      modifies this
      ensures Valid()
      ensures nextHandle == old(nextHandle)
      ensures toastId !in toasts.values
      ensures toastId !in old(toasts.values) ==>
        toasts == old(toasts) && children == old(children) && timers == old(timers)
      ensures toastId in old(toasts.values) ==>
        && toasts == Delete(old(toasts), toastId)
        && children == RemoveFirst(old(children), toastId)
        && timers == old(timers) - {old(toasts.values[toastId].timeout)}
        && |toasts.keys| == old(|toasts.keys|) - 1
    {
      if toastId !in toasts.values {
        return;
      }
      RemoveKeepsConsistent(options, toasts, children, timers, nextHandle, toastId);
      WithoutLength(toasts.keys, toastId);
      ClearTimeout(toasts.values[toastId].timeout);
      toasts := Delete(toasts, toastId);
      ghost var after := RemoveFirst(children, toastId);
      assert Consistent(options, toasts, after, timers, nextHandle);
      var reported := RemoveToastElement(toastId);
      assert children == after;
    }

    /** `removeAllToasts()`: `removeToast` on each key listed at the start. */
    method RemoveAllToasts()
      requires Valid()
      modifies this
      ensures Valid()
      ensures toasts == Empty() && timers == map[] && children == []
      ensures nextHandle == old(nextHandle)
    {
      var keys := toasts.keys;
      for i := 0 to |keys|
        invariant Valid()
        invariant toasts.keys == keys[i..]
        invariant nextHandle == old(nextHandle)
      {
        WithoutAt(keys[i..], 0);
        assert keys[i..][1..] == keys[i + 1..];
        RemoveToast(keys[i]);
      }
      assert toasts.values == map[] by {
        assert forall k :: k !in toasts.values;
      }
      NoToastsNoTimers(toasts, timers);
    }

    /**
     * The host runs the expiry callback of pending timer `h`, which calls
     * `removeToast` on its target.  The host's own discarding of the fired
     * handle coincides with the callback's `clearTimeout`.  A handle that is
     * not pending never fires.
     */
    method Fire(h: Handle)
      requires Valid()
      modifies this
      ensures Valid()
      ensures h !in old(timers) ==> toasts == old(toasts) && children == old(children) && timers == old(timers)
      ensures h in old(timers) ==>
        && toasts == Delete(old(toasts), old(timers)[h].target)
        && children == RemoveFirst(old(children), old(timers)[h].target)
        && timers == old(timers) - {h}
      ensures nextHandle == old(nextHandle)
    {
      if h in timers {
        RemoveToast(timers[h].target);
      }
    }

    /** `getToastCount()`: the number of live toasts, which is also the number of children. */
    method GetToastCount() returns (n: nat)
      requires Valid()
      ensures n == |toasts.keys| && n == |toasts.values| && n == |children|
    {
      WfSize(toasts);
      RenderLayout(toasts.keys, Messages(toasts.values));
      n := |toasts.keys|;
    }

    /**
     * `getAllToastIds()`: the live ids in insertion order, without
     * duplicates; the children show them in the reverse order.
     */
    method GetAllToastIds() returns (ids: seq<string>)
      requires Valid()
      ensures ids == toasts.keys && Distinct(ids)
      ensures |children| == |ids|
      ensures forall j :: 0 <= j < |ids| ==> children[j] == Element(ids[|ids| - 1 - j], toasts.values[ids[|ids| - 1 - j]].message)
    {
      RenderLayout(toasts.keys, Messages(toasts.values));
      ids := toasts.keys;
    }

    /** `getToastMessage(toastId)`: the message of a live toast; for any other id the property access throws. */
    method GetToastMessage(toastId: string) returns (r: Completion<string>)
      ensures r.Normal? <==> toastId in toasts.values
      ensures r.Normal? ==> r.value == toasts.values[toastId].message
    {
      if toastId in toasts.values {
        r := Normal(toasts.values[toastId].message);
      } else {
        r := Throw("TypeError");
      }
    }
  }
}
