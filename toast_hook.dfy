/** `useToast` of `src/components/ui/use-toast.ts`: a list of toasts held as
    hook state, appended to by `addToast` (which also schedules the toast's
    removal after its `duration`, 3000 by default) and filtered by id by
    `removeToast` and by the scheduled callback. The id is `Date.now()`, so
    two toasts posted at the same instant share an id. */
module ToastHook {
  import opened Wrappers
  import opened SeqFilter
  import opened ToastTypes

  datatype Toast = Toast(id: int, message: string, kind: ToastType, duration: int)

  /** The `duration` of a toast posted without one. */
  const DefaultDuration: int := 3000

  function IdOf(t: Toast): int {
    t.id
  }

  /** The toast list of one `useToast` call, with its pending timers and the
      clock that stands for `Date.now()`. */
  class Toaster {
    var toasts: seq<Toast>
    var timers: seq<Timer>
    var now: int

    /** Every shown toast has a pending timer that will remove it. */
    ghost predicate Valid()
      reads this
    {
      forall t :: t in toasts ==> Scheduled(timers, t.id)
    }

    /** `useState<Toast[]>([])` at clock `clock`. */
    constructor (clock: int)
      ensures Valid()
      ensures toasts == [] && timers == [] && now == clock
    {
      toasts, timers, now := [], [], clock;
    }

    /** `addToast({message, type, duration})`: appends a toast stamped with
        the current time as its id and the given duration (3000 when none
        is given), and schedules its removal `duration` later. */
    method AddToast(message: string, kind: ToastType, duration: Option<int>)
      requires Valid()
      modifies this
      ensures Valid()
      ensures toasts == old(toasts) + [Toast(old(now), message, kind, duration.GetOr(DefaultDuration))]
      ensures timers == old(timers) + [Timer(old(now), old(now) + duration.GetOr(DefaultDuration))]
      ensures now == old(now)
    {
      var id := now;
      var d := duration.GetOr(DefaultDuration);
      toasts := toasts + [Toast(id, message, kind, d)];
      timers := timers + [Timer(id, now + d)];
      assert timers[|timers| - 1].id == id;
      assert forall i :: 0 <= i < |old(timers)| ==> timers[i] == old(timers)[i];
    }

    /** Between two states, exactly one toast was posted with this message,
        type and duration, and nothing else changed. */
    twostate predicate PostedOne(message: string, kind: ToastType, duration: int)
      reads this
    {
      && toasts == old(toasts) + [Toast(old(now), message, kind, duration)]
      && timers == old(timers) + [Timer(old(now), old(now) + duration)]
      && now == old(now)
    }

    /** `removeToast(id)`: drops every toast carrying `id`. Pending timers
        stay; when one fires for a removed id it finds nothing to remove. */
    method RemoveToast(id: int)
      requires Valid()
      modifies this
      ensures Valid()
      ensures toasts == WithoutId(old(toasts), IdOf, id)
      ensures timers == old(timers) && now == old(now)
    {
      toasts := WithoutId(toasts, IdOf, id);
    }

    /** The clock advances by `elapsed` milliseconds. */
    method Tick(elapsed: nat)
      modifies this
      ensures now == old(now) + elapsed
      ensures toasts == old(toasts) && timers == old(timers)
    {
      now := now + elapsed;
    }

    /** The `k`-th pending timer fires if it is due: its callback has the
        same effect on the list as `removeToast` with its id. A timer that
        is not due, or that does not exist, leaves everything as it is. */
    method Expire(k: nat) returns (fired: bool)
      requires Valid()
      modifies this
      ensures Valid()
      ensures fired <==> k < |old(timers)| && old(timers)[k].due <= old(now)
      ensures fired ==> toasts == WithoutId(old(toasts), IdOf, old(timers)[k].id) &&
                        timers == Fire(old(timers), k)
      ensures !fired ==> toasts == old(toasts) && timers == old(timers)
      ensures now == old(now)
    {
      fired := k < |timers| && timers[k].due <= now;
      if fired {
        var id := timers[k].id;
        toasts := WithoutId(toasts, IdOf, id);
        timers := Fire(timers, k);
        forall t | t in toasts
          ensures Scheduled(timers, t.id)
        {
          FilterMembership(old(toasts), IdIsNot(IdOf, id), t);
        }
      }
    }

    /** Auto-expiry as one run: a toast posted with the default duration is
        shown right after posting, and once the clock has moved on by that
        duration its timer fires and no toast with its id is left. */
    method PostThenWait(message: string, kind: ToastType) returns (shown: bool, fired: bool)
      requires Valid()
      modifies this
      ensures Valid()
      ensures shown && fired
      ensures !HasToastId(toasts, IdOf, old(now))
      ensures now == old(now) + DefaultDuration
    {
      var id := now;
      AddToast(message, kind, None);
      shown := HasToastId(toasts, IdOf, id);
      assert toasts[|toasts| - 1].id == id;
      Tick(DefaultDuration);
      fired := Expire(|timers| - 1);
      RemoveLeavesNoId(old(toasts) + [Toast(id, message, kind, DefaultDuration)], IdOf, id);
    }
  }
}
