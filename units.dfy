/**
 * Character units and the style changes applied to them. A unit is the
 * `span` created for one non-space character, abstracted to its character,
 * its `style.opacity` (0 or 1) and its `style.color`. A timer callback is an
 * event naming a unit by its index (slot) in the list of animatable units.
 */
module Units {

  datatype Unit = Unit(ch: char, opacity: nat, color: string)

  /** What one timer callback does to its unit. */
  datatype Action =
    | Show                  // style.opacity = "1"
    | Paint(color: string)  // style.color = color

  /** A timer callback: when it fires, which unit it touches, which of the three stages it is and what it does. */
  datatype Event = Event(time: int, slot: nat, stage: nat, action: Action)

  /** One style write: `Show` sets only the opacity to 1, `Paint` sets only the colour. */
  function Perform(u: Unit, a: Action): (r: Unit)
    ensures r.ch == u.ch
    ensures a.Show? ==> r.opacity == 1 && r.color == u.color
    ensures a.Paint? ==> r.opacity == u.opacity && r.color == a.color
  {
    match a
    case Show => u.(opacity := 1)
    case Paint(c) => u.(color := c)
  }

  /** One callback firing. */
  function Step(units: seq<Unit>, e: Event): (r: seq<Unit>)
    ensures |r| == |units|
    ensures forall k :: 0 <= k < |units| && k != e.slot ==> r[k] == units[k]
    ensures e.slot < |units| ==> r[e.slot] == Perform(units[e.slot], e.action)
  {
    if e.slot < |units| then units[e.slot := Perform(units[e.slot], e.action)] else units
  }

  /** Callbacks firing one after another, in the order given. Characters never change. */
  function Apply(units: seq<Unit>, evs: seq<Event>): (r: seq<Unit>)
    ensures |r| == |units|
    ensures forall k :: 0 <= k < |units| ==> r[k].ch == units[k].ch
    decreases |evs|
  {
    if evs == [] then units else Apply(Step(units, evs[0]), evs[1..])
  }

  /** Firing `a` and then `b` is firing `a + b`. */
  lemma {:induction false} ApplyAppend(units: seq<Unit>, a: seq<Event>, b: seq<Event>)
    ensures Apply(units, a + b) == Apply(Apply(units, a), b)
    decreases |a|
  {
    if a == [] {
      assert a + b == b;
    } else {
      assert (a + b)[0] == a[0] && (a + b)[1..] == a[1..] + b;
      ApplyAppend(Step(units, a[0]), a[1..], b);
    }
  }

  /** Firing the prefix up to and including index `m` ends with the callback at `m`. */
  lemma ApplyThrough(units: seq<Unit>, evs: seq<Event>, m: nat)
    requires m < |evs|
    ensures Apply(units, evs[..m + 1]) == Step(Apply(units, evs[..m]), evs[m])
  {
    assert evs[..m + 1] == evs[..m] + [evs[m]];
    ApplyAppend(units, evs[..m], [evs[m]]);
    assert [evs[m]][1..] == [];
  }

  /** Callbacks for other units leave a unit as it was. */
  lemma {:induction false} ApplyUntouched(units: seq<Unit>, evs: seq<Event>, k: nat)
    requires k < |units|
    requires forall i :: 0 <= i < |evs| ==> evs[i].slot != k
    ensures Apply(units, evs)[k] == units[k]
    decreases |evs|
  {
    if evs != [] {
      ApplyUntouched(Step(units, evs[0]), evs[1..], k);
    }
  }

  /** No callback hides a unit: once shown, a unit stays shown. */
  lemma {:induction false} ApplyKeepsShown(units: seq<Unit>, evs: seq<Event>, k: nat)
    requires k < |units| && units[k].opacity == 1
    ensures Apply(units, evs)[k].opacity == 1
    decreases |evs|
  {
    if evs != [] {
      ApplyKeepsShown(Step(units, evs[0]), evs[1..], k);
    }
  }

  /** A unit shown by the callback at index `m` is still shown once every callback has fired. */
  lemma ShownFrom(units: seq<Unit>, evs: seq<Event>, m: nat, k: nat)
    requires m < |evs| && k < |units| && evs[m].slot == k && evs[m].action == Show
    ensures Apply(units, evs)[k].opacity == 1
  {
    assert evs == evs[..m + 1] + evs[m + 1..];
    ApplyAppend(units, evs[..m + 1], evs[m + 1..]);
    ApplyThrough(units, evs, m);
    ApplyKeepsShown(Apply(units, evs[..m + 1]), evs[m + 1..], k);
  }

  /** The colour written by the last callback for a unit is the colour it ends with. */
  lemma LastPaintWins(units: seq<Unit>, evs: seq<Event>, m: nat, k: nat)
    requires m < |evs| && k < |units| && evs[m].slot == k && evs[m].action.Paint?
    requires forall b :: m < b < |evs| ==> evs[b].slot != k
    ensures Apply(units, evs)[k].color == evs[m].action.color
  {
    assert evs == evs[..m + 1] + evs[m + 1..];
    ApplyAppend(units, evs[..m + 1], evs[m + 1..]);
    ApplyThrough(units, evs, m);
    ApplyUntouched(Apply(units, evs[..m + 1]), evs[m + 1..], k);
  }

  /** Callbacks that only paint leave every unit's opacity as it was. */
  lemma {:induction false} ApplyPaintOnly(units: seq<Unit>, evs: seq<Event>, k: nat)
    requires k < |units|
    requires forall i :: 0 <= i < |evs| ==> evs[i].action.Paint?
    ensures Apply(units, evs)[k].opacity == units[k].opacity
    decreases |evs|
  {
    if evs != [] {
      ApplyPaintOnly(Step(units, evs[0]), evs[1..], k);
    }
  }

  /** The hidden state `reset` gives a unit: opacity 0 and the accent colour. */
  function Hidden(u: Unit, accent: string): (r: Unit)
    ensures r.ch == u.ch && r.opacity == 0 && r.color == accent
  {
    Unit(u.ch, 0, accent)
  }

  /** `reset`: every unit hidden and painted with the accent colour, in place. */
  function ResetAll(units: seq<Unit>, accent: string): (r: seq<Unit>)
    ensures |r| == |units|
    ensures forall k :: 0 <= k < |r| ==> r[k].ch == units[k].ch && r[k].opacity == 0 && r[k].color == accent
  {
    seq(|units|, k requires 0 <= k < |units| => Hidden(units[k], accent))
  }

  /** Resetting twice is resetting once. */
  lemma ResetIdempotent(units: seq<Unit>, accent: string)
    ensures ResetAll(ResetAll(units, accent), accent) == ResetAll(units, accent)
  {
  }
}
