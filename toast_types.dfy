/** What the two toast implementations (`use-toast.ts` and `use-toast.tsx`)
    have in common: the severity of a toast, and the pending `setTimeout`
    callbacks that remove toasts once their window has elapsed. Time is an
    explicit clock in milliseconds standing in for `Date.now()`. Both files
    remove toasts with the same `filter(toast => toast.id !== id)`, stated
    here once over any toast record with an id accessor `idOf`. */
module ToastTypes {
  import opened SeqFilter

  /** `'success' | 'error' | 'info'`. */
  datatype ToastType = Success | Error | Info

  /** A pending `setTimeout` callback that removes the toasts carrying `id`
      once the clock reaches `due`. */
  datatype Timer = Timer(id: int, due: int)

  /** True when some pending timer will remove the toasts carrying `id`. */
  predicate Scheduled(timers: seq<Timer>, id: int) {
    exists k :: 0 <= k < |timers| && timers[k].id == id
  }

  /** The pending timers once the `k`-th has fired. */
  function Fire(timers: seq<Timer>, k: nat): (r: seq<Timer>)
    requires k < |timers|
    ensures |r| == |timers| - 1
    ensures forall id :: id != timers[k].id && Scheduled(timers, id) ==> Scheduled(r, id)
  {
    var r := timers[..k] + timers[k + 1..];
    assert forall j :: 0 <= j < |timers| && j != k ==> timers[j] == r[if j < k then j else j - 1];
    r
  }

  function IdIsNot<T>(idOf: T -> int, id: int): T -> bool {
    (t: T) => idOf(t) != id
  }

  /** `prevToasts.filter(toast => toast.id !== id)`. */
  function WithoutId<T>(toasts: seq<T>, idOf: T -> int, id: int): (r: seq<T>)
    ensures |r| <= |toasts|
    ensures forall t :: t in r ==> t in toasts && idOf(t) != id
  {
    Filter(toasts, IdIsNot(idOf, id))
  }

  /** True when some toast in the list carries `id`. */
  predicate HasToastId<T>(toasts: seq<T>, idOf: T -> int, id: int) {
    exists i :: 0 <= i < |toasts| && idOf(toasts[i]) == id
  }

  /** Removing an id leaves no toast with it (every toast sharing the id
      goes at once), keeps every other toast (every copy of it), and keeps
      their order. */
  lemma RemoveLeavesNoId<T>(toasts: seq<T>, idOf: T -> int, id: int)
    ensures var r := WithoutId(toasts, idOf, id);
      !HasToastId(r, idOf, id) &&
      (forall t :: t in toasts && idOf(t) != id ==> t in r) &&
      (forall t :: multiset(r)[t] == if idOf(t) != id then multiset(toasts)[t] else 0) &&
      IsSubsequence(r, toasts)
  {
    var r := WithoutId(toasts, idOf, id);
    FilterIsSubsequence(toasts, IdIsNot(idOf, id));
    forall t: T
      ensures multiset(r)[t] == if idOf(t) != id then multiset(toasts)[t] else 0
    {
      FilterCount(toasts, IdIsNot(idOf, id), t);
    }
    forall t | t in toasts && idOf(t) != id
      ensures t in r
    {
      FilterMembership(toasts, IdIsNot(idOf, id), t);
    }
    forall i | 0 <= i < |r|
      ensures idOf(r[i]) != id
    {
      assert r[i] in r;
    }
  }

  /** Removing an id no toast carries changes nothing. */
  lemma RemoveAbsentIsNoOp<T>(toasts: seq<T>, idOf: T -> int, id: int)
    requires !HasToastId(toasts, idOf, id)
    ensures WithoutId(toasts, idOf, id) == toasts
  {
    forall t | t in toasts
      ensures IdIsNot(idOf, id)(t)
    {
      var i :| 0 <= i < |toasts| && toasts[i] == t;
    }
    FilterAll(toasts, IdIsNot(idOf, id));
  }

  /** Removing twice is removing once. */
  lemma RemoveTwiceIsOnce<T>(toasts: seq<T>, idOf: T -> int, id: int)
    ensures WithoutId(WithoutId(toasts, idOf, id), idOf, id) == WithoutId(toasts, idOf, id)
  {
    FilterIdempotent(toasts, IdIsNot(idOf, id));
  }

  /** Two toasts posted at the same instant share an id, so removing the
      later one removes the earlier one as well. */
  lemma SameInstantRemovedTogether<T>(toasts: seq<T>, idOf: T -> int, first: T, second: T)
    requires idOf(first) == idOf(second)
    ensures WithoutId(toasts + [first] + [second], idOf, idOf(second)) == WithoutId(toasts, idOf, idOf(second))
  {
    var p := IdIsNot(idOf, idOf(second));
    FilterConcat(toasts + [first], [second], p);
    FilterConcat(toasts, [first], p);
    assert Filter([first], p) == [] + Filter([], p);
    assert Filter([second], p) == [] + Filter([], p);
  }
}
