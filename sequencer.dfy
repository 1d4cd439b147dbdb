/**
 * `animate` and `highlightOnly` as a schedule of timer callbacks. The unit at
 * shuffled position `i` gets a chain of three nested `setTimeout` calls:
 * stage 1 at `i * revealDelay` (show it, or repaint it with the accent
 * colour), stage 2 `flashDelay` later (transition colour) and stage 3
 * `colorDelay` after that (final colour). A nested timer is only created
 * when its parent's callback runs, and its delay counts from then, so a late
 * callback can push its children behind other units' timers. What the order
 * of firing always keeps is each unit's own chain: stage 1, then 2, then 3.
 */
module Sequencer {
  import opened Units
  import opened Shuffling
  import Config

  datatype Mode =
    | ShowMode     // animate: stage 1 sets opacity to 1
    | PaintMode    // highlightOnly: stage 1 repaints with the accent colour

  /** `setTimeout` treats a negative delay as 0: the delay used is the larger of `ms` and 0. */
  function Clamp(ms: int): (r: nat)
    ensures r >= ms && (r == ms || r == 0)
  {
    if ms < 0 then 0 else ms
  }

  /** What stage 1 does: `animate` shows the unit, `highlightOnly` repaints it with the accent colour. */
  function FirstAction(mode: Mode, c: Config.Settings): (a: Action)
    ensures a == Show <==> mode == ShowMode
    ensures a.Paint? ==> a.color == c.accentColor
  {
    match mode
    case ShowMode => Show
    case PaintMode => Paint(c.accentColor)
  }

  /**
   * The three nested timers of the unit in `slot`, at shuffled position
   * `index`: all for that unit, stages 1 to 3, each due no earlier than its
   * parent, ending with the final colour.
   */
  function Chain(index: nat, slot: nat, mode: Mode, c: Config.Settings): (r: seq<Event>)
    ensures |r| == 3
    ensures forall s :: 0 <= s < 3 ==> r[s].slot == slot && r[s].stage == s + 1
    ensures 0 <= r[0].time <= r[1].time <= r[2].time
    ensures r[0].action == FirstAction(mode, c)
    ensures r[1].action == Paint(c.transitionColor) && r[2].action == Paint(c.finalColor)
  {
    var t1 := Clamp(index * c.revealDelay);
    var t2 := t1 + Clamp(c.flashDelay);
    var t3 := t2 + Clamp(c.colorDelay);
    [Event(t1, slot, 1, FirstAction(mode, c)),
     Event(t2, slot, 2, Paint(c.transitionColor)),
     Event(t3, slot, 3, Paint(c.finalColor))]
  }

  /** The timers `shuffled.forEach(...)` creates, position by position. */
  function Schedule(order: seq<nat>, mode: Mode, c: Config.Settings): (r: seq<Event>)
    ensures |r| == 3 * |order|
    ensures mode == PaintMode ==> forall i :: 0 <= i < |r| ==> r[i].action.Paint?
    decreases |order|
  {
    if order == [] then []
    else Schedule(order[..|order| - 1], mode, c) + Chain(|order| - 1, order[|order| - 1], mode, c)
  }

  /** The `s`-th timer of position `j` sits at index `3 * j + s` of the schedule. */
  lemma {:induction false} ScheduleAt(order: seq<nat>, mode: Mode, c: Config.Settings, j: nat, s: nat)
    requires j < |order| && s < 3
    ensures Schedule(order, mode, c)[3 * j + s] == Chain(j, order[j], mode, c)[s]
    decreases |order|
  {
    var n := |order| - 1;
    var prefix := Schedule(order[..n], mode, c);
    if j < n {
      ScheduleAt(order[..n], mode, c, j, s);
      assert order[..n][j] == order[j];
    } else {
      assert Schedule(order, mode, c)[3 * j + s] == Chain(n, order[n], mode, c)[3 * j + s - |prefix|];
    }
  }

  /** Every timer in the schedule belongs to the chain of some position. */
  lemma ScheduleMember(order: seq<nat>, mode: Mode, c: Config.Settings, e: Event) returns (j: nat, s: nat)
    requires e in Schedule(order, mode, c)
    ensures j < |order| && s < 3 && e == Chain(j, order[j], mode, c)[s]
  {
    var t :| 0 <= t < |Schedule(order, mode, c)| && Schedule(order, mode, c)[t] == e;
    j, s := t / 3, t % 3;
    ScheduleAt(order, mode, c, j, s);
    assert 3 * j + s == t;
  }

  /**
   * With non-negative delays, the unit at position `j` is shown (or
   * repainted) at `j * revealDelay`, turns to the transition colour
   * `flashDelay` later and to the final colour `colorDelay` after that.
   */
  lemma ScheduleTimes(order: seq<nat>, mode: Mode, c: Config.Settings, j: nat)
    requires j < |order|
    requires c.revealDelay >= 0 && c.flashDelay >= 0 && c.colorDelay >= 0
    ensures var r := Schedule(order, mode, c);
      && r[3 * j] == Event(j * c.revealDelay, order[j], 1, FirstAction(mode, c))
      && r[3 * j + 1] == Event(j * c.revealDelay + c.flashDelay, order[j], 2, Paint(c.transitionColor))
      && r[3 * j + 2] == Event(j * c.revealDelay + c.flashDelay + c.colorDelay, order[j], 3, Paint(c.finalColor))
  {
    ScheduleAt(order, mode, c, j, 0);
    ScheduleAt(order, mode, c, j, 1);
    ScheduleAt(order, mode, c, j, 2);
    assert j * c.revealDelay >= 0;
  }

  /**
   * `evs` is an order in which the timers of `sched` can fire: each timer
   * exactly once, and the timers of one unit in the order of their nesting.
   * The planned times are not required to be increasing, because a nested
   * delay counts from when its parent actually ran, and the page may run
   * a callback late.
   */
  predicate Delivery(evs: seq<Event>, sched: seq<Event>): (r: bool)
    ensures r ==> |evs| == |sched|
    ensures r ==> forall i :: 0 <= i < |evs| ==> evs[i] in multiset(sched)
  {
    assert |multiset(evs)| == |evs| && |multiset(sched)| == |sched|;
    && multiset(evs) == multiset(sched)
    && (forall a, b :: 0 <= a < b < |evs| && evs[a].slot == evs[b].slot ==> evs[a].stage < evs[b].stage)
  }

  /** Every delivered timer is one of the scheduled chains, so only units named in the schedule are touched. */
  lemma DeliveryTouchesOnly(order: seq<nat>, mode: Mode, c: Config.Settings, evs: seq<Event>, i: nat)
    returns (j: nat, s: nat)
    requires multiset(evs) == multiset(Schedule(order, mode, c)) && i < |evs|
    ensures j < |order| && s < 3 && evs[i] == Chain(j, order[j], mode, c)[s]
    ensures evs[i].slot == order[j] && evs[i].slot in order
  {
    assert evs[i] in multiset(Schedule(order, mode, c));
    j, s := ScheduleMember(order, mode, c, evs[i]);
  }

  /** The timer of stage `s` for position `j` fires at some index of the delivery. */
  lemma DeliveredAt(order: seq<nat>, mode: Mode, c: Config.Settings, evs: seq<Event>, j: nat, s: nat)
    returns (m: nat)
    requires multiset(evs) == multiset(Schedule(order, mode, c)) && j < |order| && s < 3
    ensures m < |evs| && evs[m] == Chain(j, order[j], mode, c)[s]
  {
    ScheduleAt(order, mode, c, j, s);
    assert Chain(j, order[j], mode, c)[s] in multiset(evs);
    m :| 0 <= m < |evs| && evs[m] == Chain(j, order[j], mode, c)[s];
  }

  /**
   * Nothing touches a unit after its final-colour timer has fired: that
   * timer is the last stage of the unit's chain.
   */
  lemma FinalTimerIsLast(order: seq<nat>, mode: Mode, c: Config.Settings, evs: seq<Event>, j: nat, m: nat)
    requires j < |order|
    requires Delivery(evs, Schedule(order, mode, c))
    requires m < |evs| && evs[m] == Chain(j, order[j], mode, c)[2]
    ensures forall b :: m < b < |evs| ==> evs[b].slot != order[j]
  {
    forall b | m < b < |evs|
      ensures evs[b].slot != order[j]
    {
      var j', s' := DeliveryTouchesOnly(order, mode, c, evs, b);
    }
  }

  /** Once every timer has fired, each scheduled unit shows the final colour. */
  lemma FinalColorWins(units: seq<Unit>, order: seq<nat>, mode: Mode, c: Config.Settings, evs: seq<Event>, j: nat)
    requires Distinct(order) && j < |order| && order[j] < |units|
    requires Delivery(evs, Schedule(order, mode, c))
    ensures Apply(units, evs)[order[j]].color == c.finalColor
  {
    var k := order[j];
    var m := DeliveredAt(order, mode, c, evs, j, 2);
    FinalTimerIsLast(order, mode, c, evs, j, m);
    LastPaintWins(units, evs, m, k);
  }

  /** Units outside the schedule end as they started. */
  lemma UnscheduledUntouched(units: seq<Unit>, order: seq<nat>, mode: Mode, c: Config.Settings, evs: seq<Event>, k: nat)
    requires k < |units| && k !in order
    requires Delivery(evs, Schedule(order, mode, c))
    ensures Apply(units, evs)[k] == units[k]
  {
    forall i | 0 <= i < |evs|
      ensures evs[i].slot != k
    {
      var j, s := DeliveryTouchesOnly(order, mode, c, evs, i);
    }
    ApplyUntouched(units, evs, k);
  }

  /** Under `animate`, a scheduled unit ends shown, in the final colour. */
  lemma RevealedUnit(units: seq<Unit>, order: seq<nat>, c: Config.Settings, evs: seq<Event>, j: nat)
    requires Distinct(order) && j < |order| && order[j] < |units|
    requires Delivery(evs, Schedule(order, ShowMode, c))
    ensures Apply(units, evs)[order[j]] == Unit(units[order[j]].ch, 1, c.finalColor)
  {
    var k := order[j];
    FinalColorWins(units, order, ShowMode, c, evs, j);
    var m := DeliveredAt(order, ShowMode, c, evs, j, 0);
    ShownFrom(units, evs, m, k);
  }

  /**
   * `animate`, once all its timers have fired in any valid order: every
   * scheduled unit is shown with the final colour, whatever the shuffle,
   * and every other unit is untouched.
   */
  lemma RevealEndState(units: seq<Unit>, order: seq<nat>, c: Config.Settings, evs: seq<Event>)
    requires Distinct(order) && forall j :: 0 <= j < |order| ==> order[j] < |units|
    requires Delivery(evs, Schedule(order, ShowMode, c))
    ensures |Apply(units, evs)| == |units|
    ensures forall k :: 0 <= k < |units| ==>
      Apply(units, evs)[k] == if k in order then Unit(units[k].ch, 1, c.finalColor) else units[k]
  {
    forall k | 0 <= k < |units|
      ensures Apply(units, evs)[k] == if k in order then Unit(units[k].ch, 1, c.finalColor) else units[k]
    {
      if k in order {
        var j :| 0 <= j < |order| && order[j] == k;
        RevealedUnit(units, order, c, evs, j);
      } else {
        UnscheduledUntouched(units, order, ShowMode, c, evs, k);
      }
    }
  }

  /** Under `highlightOnly` no timer changes opacity. */
  lemma HighlightPaintsOnly(order: seq<nat>, c: Config.Settings, evs: seq<Event>)
    requires Delivery(evs, Schedule(order, PaintMode, c))
    ensures forall i :: 0 <= i < |evs| ==> evs[i].action.Paint?
  {
    forall i | 0 <= i < |evs|
      ensures evs[i].action.Paint?
    {
      var sched := Schedule(order, PaintMode, c);
      assert evs[i] in multiset(sched);
      var t :| 0 <= t < |sched| && sched[t] == evs[i];
    }
  }

  /**
   * `highlightOnly`, once all its timers have fired: no unit's opacity
   * changes, and every scheduled unit ends with the final colour.
   */
  lemma HighlightEndState(units: seq<Unit>, order: seq<nat>, c: Config.Settings, evs: seq<Event>)
    requires Distinct(order) && forall j :: 0 <= j < |order| ==> order[j] < |units|
    requires Delivery(evs, Schedule(order, PaintMode, c))
    ensures |Apply(units, evs)| == |units|
    ensures forall k :: 0 <= k < |units| ==>
      Apply(units, evs)[k] == if k in order then Unit(units[k].ch, units[k].opacity, c.finalColor) else units[k]
  {
    HighlightPaintsOnly(order, c, evs);
    forall k | 0 <= k < |units|
      ensures Apply(units, evs)[k] == if k in order then Unit(units[k].ch, units[k].opacity, c.finalColor) else units[k]
    {
      ApplyPaintOnly(units, evs, k);
      if k in order {
        var j :| 0 <= j < |order| && order[j] == k;
        FinalColorWins(units, order, PaintMode, c, evs, j);
      } else {
        UnscheduledUntouched(units, order, PaintMode, c, evs, k);
      }
    }
  }

  /** The shuffled slots are distinct, name existing units, and name every one of them. */
  lemma ShuffledOrder(n: nat, keys: seq<real>)
    requires |keys| == n
    ensures var order := Shuffle(Range(n), keys);
      && Distinct(order)
      && (forall j :: 0 <= j < |order| ==> order[j] < n)
      && (forall k: nat :: k < n ==> k in order)
  {
    var order := Shuffle(Range(n), keys);
    ShuffledSlots(n, keys);
    forall j | 0 <= j < |order|
      ensures order[j] < n
    {
      assert order[j] in order;
    }
  }

  /** `animate()` on `n` units with the given random draws, all timers fired: every unit shown in the final colour. */
  lemma AnimateCompletes(units: seq<Unit>, keys: seq<real>, c: Config.Settings, evs: seq<Event>)
    requires |keys| == |units|
    requires Delivery(evs, Schedule(Shuffle(Range(|units|), keys), ShowMode, c))
    ensures forall k :: 0 <= k < |units| ==> Apply(units, evs)[k] == Unit(units[k].ch, 1, c.finalColor)
  {
    var order := Shuffle(Range(|units|), keys);
    ShuffledOrder(|units|, keys);
    RevealEndState(units, order, c, evs);
  }

  /** `highlightOnly()` with the given random draws, all timers fired: opacity kept, every unit in the final colour. */
  lemma HighlightCompletes(units: seq<Unit>, keys: seq<real>, c: Config.Settings, evs: seq<Event>)
    requires |keys| == |units|
    requires Delivery(evs, Schedule(Shuffle(Range(|units|), keys), PaintMode, c))
    ensures forall k :: 0 <= k < |units| ==> Apply(units, evs)[k] == Unit(units[k].ch, units[k].opacity, c.finalColor)
  {
    var order := Shuffle(Range(|units|), keys);
    ShuffledOrder(|units|, keys);
    HighlightEndState(units, order, c, evs);
  }
}
