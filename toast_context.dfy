/** `ToastProvider` and `useToast` of `src/components/ui/use-toast.tsx`: a
    provider-owned list of toasts that `addToast(message, type)` appends to
    and `removeToast(id)` filters, each toast being removed by id after a
    fixed 5000 window; `useToast` fails outside a provider. */
module ToastContext {
  import opened Wrappers
  import opened SeqFilter
  import opened ToastTypes

  datatype Toast = Toast(id: int, message: string, kind: ToastType)

  /** The fixed visibility window of every toast. */
  const Window: int := 5000

  /** The error `useToast` throws when no provider is above it. */
  const MissingProviderMessage: string := "useToast must be used within a ToastProvider"

  function IdOf(t: Toast): int {
    t.id
  }

  /** The provider's state: its toasts, the pending removal timers, and the
      clock that stands for `Date.now()`. */
  class ToastProvider {
    var toasts: seq<Toast>
    var timers: seq<Timer>
    var now: int

    /** Every shown toast has a pending timer that will remove it. */
    ghost predicate Valid()
      reads this
    {
      forall t :: t in toasts ==> Scheduled(timers, t.id)
    }

    /** `useState<Toast[]>([])` at clock `clock`. */
    constructor (clock: int)
      ensures Valid()
      ensures toasts == [] && timers == [] && now == clock
    {
      toasts, timers, now := [], [], clock;
    }

    /** `addToast(message, type)`: appends a toast stamped with the current
        time as its id and schedules `removeToast` of that id 5000 later. */
    method AddToast(message: string, kind: ToastType)
      requires Valid()
      modifies this
      ensures Valid()
      ensures toasts == old(toasts) + [Toast(old(now), message, kind)]
      ensures timers == old(timers) + [Timer(old(now), old(now) + Window)]
      ensures now == old(now)
    {
      var id := now;
      toasts := toasts + [Toast(id, message, kind)];
      timers := timers + [Timer(id, now + Window)];
      assert timers[|timers| - 1].id == id;
      assert forall i :: 0 <= i < |old(timers)| ==> timers[i] == old(timers)[i];
    }

    /** `removeToast(id)`: drops every toast carrying `id`. */
    method RemoveToast(id: int)
      requires Valid()
      modifies this
      ensures Valid()
      ensures toasts == WithoutId(old(toasts), IdOf, id)
      ensures timers == old(timers) && now == old(now)
    {
      toasts := WithoutId(toasts, IdOf, id);
    }

    /** The clock advances by `elapsed` milliseconds. */
    method Tick(elapsed: nat)
      modifies this
      ensures now == old(now) + elapsed
      ensures toasts == old(toasts) && timers == old(timers)
    {
      now := now + elapsed;
    }

    /** The `k`-th pending timer fires if it is due, calling `removeToast`
        with its id; otherwise nothing changes. */
    method Expire(k: nat) returns (fired: bool)
      requires Valid()
      modifies this
      ensures Valid()
      ensures fired <==> k < |old(timers)| && old(timers)[k].due <= old(now)
      ensures fired ==> toasts == WithoutId(old(toasts), IdOf, old(timers)[k].id) &&
                        timers == Fire(old(timers), k)
      ensures !fired ==> toasts == old(toasts) && timers == old(timers)
      ensures now == old(now)
    {
      fired := k < |timers| && timers[k].due <= now;
      if fired {
        var id := timers[k].id;
        RemoveToast(id);
        timers := Fire(timers, k);
        forall t | t in toasts
          ensures Scheduled(timers, t.id)
        {
          FilterMembership(old(toasts), IdIsNot(IdOf, id), t);
        }
      }
    }
  }

  /** `useToast()`: the provider's context, or the error it throws when
      called outside a provider (`context === undefined`, here `null`). */
  function UseToast(context: ToastProvider?): (r: Result<ToastProvider>)
    ensures r.Returned? <==> context != null
    ensures r.Returned? ==> r.value == context
    ensures r.Thrown? ==> r.error == MissingProviderMessage
  {
    if context == null then Thrown(MissingProviderMessage) else Returned(context)
  }
}
