/**
 * The stateful side of the SkyrimLikeLoader component: the two values drawn
 * once and kept (the animation variant and the fallback progress value), the
 * props of the latest render, and the `useEffect` keyed on `willUnmount`,
 * which arms a one-shot 2100-unit timer that calls `canDelete` whenever it
 * runs with `willUnmount` true. Timers are never cancelled. Time advances
 * only through Tick.
 */
module Lifecycle {
  import opened Wrappers
  import opened SkyrimLikeLoader

  /** The delay passed to `setTimeout` before `canDelete` is called. */
  const UnmountDelay := 2100

  /** The deadline of each timer armed at the given times, in the same order. */
  function Deadlines(armedAt: seq<nat>): (ds: seq<nat>)
    ensures |ds| == |armedAt|
  {
    if armedAt == [] then []
    else Deadlines(armedAt[..|armedAt| - 1]) + [armedAt[|armedAt| - 1] + UnmountDelay]
  }

  /** Each timer's deadline is 2100 units after the time it was armed. */
  lemma {:induction false} DeadlineAt(armedAt: seq<nat>, i: nat)
    requires i < |armedAt|
    ensures Deadlines(armedAt)[i] == armedAt[i] + UnmountDelay
  {
    if i < |armedAt| - 1 {
      DeadlineAt(armedAt[..|armedAt| - 1], i);
    }
  }

  /** The timers, given by their deadlines, still waiting at time t. */
  function Waiting(ds: seq<nat>, t: nat): (w: seq<nat>)
    ensures |w| <= |ds|
  {
    if ds == [] then []
    else Waiting(ds[..|ds| - 1], t) + (if ds[|ds| - 1] > t then [ds[|ds| - 1]] else [])
  }

  /** A deadline is still waiting at t iff it is one of the timers and lies after t. */
  lemma {:induction false} WaitingMember(ds: seq<nat>, t: nat, x: nat)
    ensures x in Waiting(ds, t) <==> x in ds && x > t
  {
    if ds != [] {
      var init := ds[..|ds| - 1];
      WaitingMember(init, t, x);
      assert ds == init + [ds[|ds| - 1]];
    }
  }

  /** How many of the timers have fired, and so called `canDelete`, by time t. */
  function Fired(ds: seq<nat>, t: nat): (n: nat)
    ensures n + |Waiting(ds, t)| == |ds|
  {
    if ds == [] then 0
    else Fired(ds[..|ds| - 1], t) + (if ds[|ds| - 1] <= t then 1 else 0)
  }

  lemma DeadlinesSnoc(armedAt: seq<nat>, s: nat)
    ensures Deadlines(armedAt + [s]) == Deadlines(armedAt) + [s + UnmountDelay]
  {
    assert (armedAt + [s])[..|armedAt|] == armedAt;
  }

  lemma WaitingSnoc(ds: seq<nat>, d: nat, t: nat)
    ensures Waiting(ds + [d], t) == Waiting(ds, t) + (if d > t then [d] else [])
  {
    assert (ds + [d])[..|ds|] == ds;
  }

  lemma FiredSnoc(ds: seq<nat>, d: nat, t: nat)
    ensures Fired(ds + [d], t) == Fired(ds, t) + (if d <= t then 1 else 0)
  {
    assert (ds + [d])[..|ds|] == ds;
  }

  /** Nothing fires before its deadline. */
  lemma {:induction false} NoneFiredEarly(ds: seq<nat>, t: nat)
    requires forall i :: 0 <= i < |ds| ==> t < ds[i]
    ensures Fired(ds, t) == 0 && Waiting(ds, t) == ds
  {
    if ds != [] {
      NoneFiredEarly(ds[..|ds| - 1], t);
      assert ds[..|ds| - 1] + [ds[|ds| - 1]] == ds;
    }
  }

  /** Everything whose deadline has passed has fired. */
  lemma {:induction false} AllFiredLate(ds: seq<nat>, t: nat)
    requires forall i :: 0 <= i < |ds| ==> ds[i] <= t
    ensures Fired(ds, t) == |ds| && Waiting(ds, t) == []
  {
    if ds != [] {
      AllFiredLate(ds[..|ds| - 1], t);
    }
  }

  /**
   * Letting time run from t1 to t2 in one step: the timers still waiting at
   * t1 that fire by t2 are exactly those that fire between t1 and t2.
   */
  lemma {:induction false} FiredLater(ds: seq<nat>, t1: nat, t2: nat)
    requires t1 <= t2
    ensures Waiting(Waiting(ds, t1), t2) == Waiting(ds, t2)
    ensures Fired(ds, t2) == Fired(ds, t1) + Fired(Waiting(ds, t1), t2)
  {
    if ds != [] {
      var init, last := ds[..|ds| - 1], ds[|ds| - 1];
      FiredLater(init, t1, t2);
      var w := Waiting(init, t1);
      if last > t1 {
        assert Waiting(ds, t1) == w + [last];
        assert (w + [last])[..|w + [last]| - 1] == w;
      } else {
        assert Waiting(ds, t1) == w;
      }
    }
  }

  /** A timer armed at time s has called `canDelete` at time t iff s + 2100 <= t. */
  lemma TimerFiredIff(armedAt: seq<nat>, i: nat, t: nat)
    requires i < |armedAt|
    ensures armedAt[i] + UnmountDelay !in Waiting(Deadlines(armedAt), t)
            <==> armedAt[i] + UnmountDelay <= t
  {
    DeadlineAt(armedAt, i);
    WaitingMember(Deadlines(armedAt), t, armedAt[i] + UnmountDelay);
  }

  /** No timer calls `canDelete` before 2100 units have passed since it was armed. */
  lemma NoCallBeforeDelay(armedAt: seq<nat>, t: nat)
    requires forall i :: 0 <= i < |armedAt| ==> t < armedAt[i] + UnmountDelay
    ensures Fired(Deadlines(armedAt), t) == 0
  {
    forall i | 0 <= i < |armedAt| {
      DeadlineAt(armedAt, i);
    }
    NoneFiredEarly(Deadlines(armedAt), t);
  }

  /** Once 2100 units have passed since the last arming, every timer has called `canDelete` exactly once. */
  lemma EveryTimerCallsOnce(armedAt: seq<nat>, t: nat)
    requires forall i :: 0 <= i < |armedAt| ==> armedAt[i] + UnmountDelay <= t
    ensures Fired(Deadlines(armedAt), t) == |armedAt|
    ensures Waiting(Deadlines(armedAt), t) == []
  {
    forall i | 0 <= i < |armedAt| {
      DeadlineAt(armedAt, i);
    }
    AllFiredLate(Deadlines(armedAt), t);
  }

  /**
   * One pass over the pending timers at time t, as the event loop makes it:
   * the due ones fire, the others are kept in order.
   */
  method SplitDue(ds: seq<nat>, t: nat) returns (keep: seq<nat>, fired: nat)
    ensures keep == Waiting(ds, t) && fired == Fired(ds, t)
  {
    keep, fired := [], 0;
    var i := 0;
    while i < |ds|
      invariant 0 <= i <= |ds|
      invariant keep == Waiting(ds[..i], t)
      invariant fired == Fired(ds[..i], t)
    {
      assert ds[..i + 1][..i] == ds[..i];
      if ds[i] <= t {
        fired := fired + 1;
      } else {
        keep := keep + [ds[i]];
      }
      i := i + 1;
    }
    assert ds[..i] == ds;
  }

  /**
   * The timer state at time `now` agrees with the arming history: every
   * arming lies in the past, the pending deadlines are those not yet reached,
   * and `calls` counts those already reached.
   */
  ghost predicate Consistent(armedAt: seq<nat>, now: nat, pending: seq<nat>, calls: nat) {
    && (forall i :: 0 <= i < |armedAt| ==> armedAt[i] <= now)
    && pending == Waiting(Deadlines(armedAt), now)
    && calls == Fired(Deadlines(armedAt), now)
  }

  /** Arming one more timer at `now` appends its deadline to the pending ones and fires nothing. */
  lemma ArmKeeps(armedAt: seq<nat>, now: nat, pending: seq<nat>, calls: nat)
    requires Consistent(armedAt, now, pending, calls)
    ensures Consistent(armedAt + [now], now, pending + [now + UnmountDelay], calls)
  {
    DeadlinesSnoc(armedAt, now);
    WaitingSnoc(Deadlines(armedAt), now + UnmountDelay, now);
    FiredSnoc(Deadlines(armedAt), now + UnmountDelay, now);
  }

  /** Moving the clock from `now` to t fires exactly the pending timers due by t. */
  lemma TickKeeps(armedAt: seq<nat>, now: nat, t: nat, pending: seq<nat>, calls: nat)
    requires now <= t
    requires Consistent(armedAt, now, pending, calls)
    ensures Consistent(armedAt, t, Waiting(pending, t), calls + Fired(pending, t))
  {
    FiredLater(Deadlines(armedAt), now, t);
  }

  class Loader {
    /** The number k of `skl-animation-k`, drawn once at mount. */
    const variant: int
    /** The memoised `randomNumber(100)` used for a falsy `percentValue`. */
    const fallbackPercent: int
    /** The props of the latest render. */
    var props: Props
    /** Time since mount, in the units of `setTimeout`. */
    var now: nat
    /** Deadlines of the armed timers that have not fired, in arming order. */
    var pending: seq<nat>
    /** How many times a timer has called `canDelete`. */
    var canDeleteCalls: nat
    /** The time at which every timer so far was armed. */
    ghost var armedAt: seq<nat>

    ghost predicate Valid()
      reads this`now, this`pending, this`canDeleteCalls, this`armedAt
    {
      && 1 <= variant <= VariantCount
      && 1 <= fallbackPercent <= 100
      && Consistent(armedAt, now, pending, canDeleteCalls)
    }

    /**
     * Mount: the first render draws both memoised values (`Math.random()`
     * returning variantDraw / scale and percentDraw / scale), and the effect
     * runs once.
     */
    constructor (initial: Props, variantDraw: nat, percentDraw: nat, scale: nat)
      requires variantDraw < scale && percentDraw < scale
      ensures Valid()
      ensures variant == RandomNumber(VariantCount, variantDraw, scale)
      ensures fallbackPercent == RandomNumber(100, percentDraw, scale)
      ensures props == initial && now == 0 && canDeleteCalls == 0
      ensures initial.willUnmount ==> armedAt == [0] && pending == [UnmountDelay]
      ensures !initial.willUnmount ==> armedAt == [] && pending == []
    {
      variant := RandomNumber(VariantCount, variantDraw, scale);
      fallbackPercent := RandomNumber(100, percentDraw, scale);
      props := initial;
      now := 0;
      pending := [];
      canDeleteCalls := 0;
      armedAt := [];
      new;
      RunEffect();
    }

    /**
     * The body of the effect: return when `willUnmount` is false, otherwise
     * arm one timer for `canDelete` after 2100 units.
     */
    method RunEffect()
      requires Valid()
      modifies this`pending, this`armedAt
      ensures Valid()
      ensures props.willUnmount ==>
                armedAt == old(armedAt) + [now] && pending == old(pending) + [now + UnmountDelay]
      ensures !props.willUnmount ==> armedAt == old(armedAt) && pending == old(pending)
    {
      if props.willUnmount {
        Arm();
      }
    }

    /** `setTimeout(canDelete, 2100)`: one more timer, due 2100 units from now. */
    method Arm()
      requires Valid()
      modifies this`pending, this`armedAt
      ensures Valid()
      ensures armedAt == old(armedAt) + [now]
      ensures pending == old(pending) + [now + UnmountDelay]
    {
      ArmKeeps(armedAt, now, pending, canDeleteCalls);
      pending := pending + [now + UnmountDelay];
      armedAt := armedAt + [now];
    }

    /**
     * A re-render with new props. The draws are not repeated; the effect
     * runs again only when `willUnmount` differs from the previous render.
     */
    method Rerender(next: Props)
      requires Valid()
      modifies this`props, this`pending, this`armedAt
      ensures Valid()
      ensures props == next
      ensures next.willUnmount && !old(props.willUnmount) ==>
                armedAt == old(armedAt) + [now] && pending == old(pending) + [now + UnmountDelay]
      ensures !(next.willUnmount && !old(props.willUnmount)) ==>
                armedAt == old(armedAt) && pending == old(pending)
    {
      var changed := next.willUnmount != props.willUnmount;
      props := next;
      if changed {
        RunEffect();
      }
    }

    /** Time passes by dt; every timer whose deadline is reached calls `canDelete`. */
    method Tick(dt: nat)
      requires Valid()
      modifies this
      ensures Valid()
      ensures now == old(now) + dt && props == old(props) && armedAt == old(armedAt)
      ensures pending == Waiting(old(pending), now)
      ensures canDeleteCalls == old(canDeleteCalls) + Fired(old(pending), now)
    {
      var t := now + dt;
      var keep, fired := SplitDue(pending, t);
      TickKeeps(armedAt, now, t, pending, canDeleteCalls);
      now := t;
      pending := keep;
      canDeleteCalls := canDeleteCalls + fired;
    }

    /** What the latest render shows. */
    function View(): (out: Rendered)
      reads this
      requires Valid()
      ensures props.useLoadPercent && !Truthy(props.percentValue) ==>
                out.markup.progress == Some(ProgressBar(WidthStyle(Some(fallbackPercent))))
      ensures props.image.Some? ==>
                out.markup.image.Some? && |out.markup.image.value.classes| == 3
                && exists k :: 1 <= k <= VariantCount && out.markup.image.value.classes[2] == AnimationVersion(k)
      ensures (CloseClass in out.markup.classes) <==> props.willUnmount
    {
      Render(props, variant, fallbackPercent)
    }
  }

  /**
   * Mounted already closing and inline, the root carries `skl-close` at
   * once; `canDelete` has not been called 2099 units later, and has been
   * called exactly once at 2100.
   */
  method ClosingInlineScenario(variantDraw: nat, percentDraw: nat, scale: nat)
    returns (closedAtOnce: bool, inline: bool, callsAt2099: nat, callsAt2100: nat)
    requires variantDraw < scale && percentDraw < scale
    ensures closedAtOnce && inline && callsAt2099 == 0 && callsAt2100 == 1
  {
    var loader := new Loader(DefaultProps(true).(fullScreen := false), variantDraw, percentDraw, scale);
    var first := loader.View();
    closedAtOnce := CloseClass in first.markup.classes;
    inline := first.target == Inline;
    loader.Tick(2099);
    callsAt2099 := loader.canDeleteCalls;
    loader.Tick(1);
    callsAt2100 := loader.canDeleteCalls;
  }

  /**
   * Timers are not cancelled: mounted closing, reopened and closed again 100
   * units later, the loader has armed two timers, and once the second is due
   * `canDelete` has been called twice. `Math.random()` returns 0 for both draws.
   */
  method ReopenScenario() returns (calls: nat)
    ensures calls == 2
  {
    var loader := new Loader(DefaultProps(true), 0, 0, 1);
    NoneFiredEarly(loader.pending, loader.now + 100);
    loader.Tick(100);
    var first := loader.pending;
    loader.Rerender(DefaultProps(false));
    loader.Rerender(DefaultProps(true));
    var due := loader.now + UnmountDelay;
    AllFiredLate(first, due);
    FiredSnoc(first, due, due);
    loader.Tick(UnmountDelay);
    calls := loader.canDeleteCalls;
  }

  /** While `willUnmount` stays false no timer is armed, however long it runs. */
  method StayOpenScenario(variantDraw: nat, percentDraw: nat, scale: nat, wait: nat, next: Props)
    returns (calls: nat, waiting: nat)
    requires variantDraw < scale && percentDraw < scale
    requires !next.willUnmount
    ensures calls == 0 && waiting == 0
  {
    var loader := new Loader(DefaultProps(false), variantDraw, percentDraw, scale);
    loader.Tick(wait);
    loader.Rerender(next);
    loader.Tick(wait);
    calls := loader.canDeleteCalls;
    waiting := |loader.pending|;
  }
}
