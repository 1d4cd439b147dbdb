/**
 * The effect attached to one element: the state `textFlashyReveal` keeps in
 * its closure (the element's children, the animatable character spans and
 * the `hasAnimated` flag) and the operations that update it in place.
 *
 * Timers are not fired by the operations that create them: `Animate` and
 * `HighlightOnly` return the callbacks they schedule, and `Deliver` fires
 * callbacks in a given order. The draws of `Math.random()` are passed in.
 */
module Reveal {
  import opened Wrappers
  import opened Units
  import opened Shuffling
  import opened Segment
  import Sequencer
  import Visibility
  import Config

  /** The timers the callback schedules for one reaction, with the random draws of that shuffle. */
  function Planned(r: Visibility.Reaction, n: nat, keys: seq<real>, c: Config.Settings): (timers: seq<Event>)
    requires |keys| == n
    ensures r == Visibility.FullReveal || r == Visibility.Highlight ==> |timers| == 3 * n
    ensures r == Visibility.ImmediateReset || r == Visibility.Nothing ==> timers == []
    ensures r == Visibility.Highlight ==> forall i :: 0 <= i < |timers| ==> timers[i].action.Paint?
  {
    match r
    case FullReveal => Sequencer.Schedule(Shuffle(Range(n), keys), Sequencer.ShowMode, c)
    case Highlight => Sequencer.Schedule(Shuffle(Range(n), keys), Sequencer.PaintMode, c)
    case _ => []
  }

  /** The units after one more entry, when `before` were the units after the earlier ones. */
  lemma ResetStep(c0: seq<Unit>, accent: string, rs: seq<Visibility.Reaction>, i: nat, before: seq<Unit>)
    requires i < |rs|
    requires before == if Visibility.ImmediateReset in rs[..i] then ResetAll(c0, accent) else c0
    ensures (if rs[i] == Visibility.ImmediateReset then ResetAll(before, accent) else before) ==
      (if Visibility.ImmediateReset in rs[..i + 1] then ResetAll(c0, accent) else c0)
  {
    assert rs[..i + 1] == rs[..i] + [rs[i]];
    ResetIdempotent(c0, accent);
  }

  /** The units `splitText` creates for the characters of `s`: hidden and painted with `accent`. */
  function NewUnits(s: string, accent: string): (r: seq<Unit>)
    ensures |r| == |s| && forall k :: 0 <= k < |s| ==> r[k] == Unit(s[k], 0, accent)
  {
    seq(|s|, k requires 0 <= k < |s| => Unit(s[k], 0, accent))
  }

  lemma NewUnitsAppend(s: string, t: string, accent: string)
    ensures NewUnits(s + t, accent) == NewUnits(s, accent) + NewUnits(t, accent)
  {
  }

  /**
   * One more character of `text`, after the children `shown` and the units
   * `units` that were there before: its token, and its unit unless it is a space.
   */
  lemma ExpandStep(text: string, j: nat, accent: string, shown: seq<Token>, units: seq<Unit>)
    requires j < |text|
    ensures shown + Chars(text[..j + 1]) == (shown + Chars(text[..j])) + [Character(text[j])]
    ensures units + NewUnits(NonSpace(text[..j + 1]), accent) ==
      (units + NewUnits(NonSpace(text[..j]), accent)) + NewUnits(NonSpace([text[j]]), accent)
  {
    CharsSnoc(text, j);
    assert [text[j]][..0] == [];
    NewUnitsAppend(NonSpace(text[..j]), NonSpace([text[j]]), accent);
  }

  /** One more entry's plan. */
  lemma PlansSnoc(plans: seq<seq<Event>>, timers: seq<Event>, rs: seq<Visibility.Reaction>, n: nat,
                  draws: seq<seq<real>>, c: Config.Settings)
    requires |plans| < |rs| == |draws| && forall j :: 0 <= j < |draws| ==> |draws[j]| == n
    requires forall j :: 0 <= j < |plans| ==> plans[j] == Planned(rs[j], n, draws[j], c)
    requires timers == Planned(rs[|plans|], n, draws[|plans|], c)
    ensures forall j :: 0 <= j <= |plans| ==> (plans + [timers])[j] == Planned(rs[j], n, draws[j], c)
  {
  }

  /** Whether the element has been visible, one entry further. */
  lemma SeenSnoc(h: bool, entries: seq<bool>, i: nat)
    requires i < |entries|
    ensures (h || true in entries[..i + 1]) == Visibility.After(h || true in entries[..i], entries[i])
  {
    assert entries[..i + 1] == entries[..i] + [entries[i]];
  }

  class RevealEffect {
    /** The resolved configuration. */
    const config: Config.Settings
    /** The nodes the tree walker visited when the effect was set up. */
    const source: seq<Node>
    /** The element's children. */
    var layout: seq<Piece>
    /** `animatableChars`: the character spans, in document order. */
    var chars: seq<Unit>
    var hasAnimated: bool

    /**
     * The children show the original text, one child per character or
     * line break; glyph `k` is the k-th child that is a glyph, and the
     * units are exactly the non-space characters of the text.
     */
    predicate Valid()
      reads this
    {
      && SlotsBelow(layout, |chars|)
      && GlyphSlots(layout) == Range(|chars|)
      && Render(layout, chars) == Tokens(source)
      && CharsOf(chars) == Glyphs(source)
    }

    /** Every unit is hidden and painted with the accent colour. */
    predicate AllHidden()
      reads this
    {
      forall k :: 0 <= k < |chars| ==> chars[k].opacity == 0 && chars[k].color == config.accentColor
    }

    /** Setting up: split the text, then hide it (`reset(true)`). */
    constructor (config: Config.Settings, nodes: seq<Node>)
      ensures this.config == config && source == nodes
      ensures Valid() && AllHidden() && !hasAnimated
    {
      this.config := config;
      source := nodes;
      layout := [];
      chars := [];
      hasAnimated := false;
      new;
      SplitText(nodes);
      assert CharsOf(chars) == Glyphs(nodes);
      ghost var split := chars;
      Reset();
      RenderSameChars(layout, split, chars);
    }

    /** `element.appendChild(space)`: a fixed-width spacer showing `" "`. */
    method AppendSpacer()
      modifies this
      requires SlotsBelow(layout, |chars|) && GlyphSlots(layout) == Range(|chars|)
      ensures SlotsBelow(layout, |chars|) && GlyphSlots(layout) == Range(|chars|)
      ensures layout == old(layout) + [Spacer] && chars == old(chars) && hasAnimated == old(hasAnimated)
      ensures Render(layout, chars) == old(Render(layout, chars)) + [Character(' ')]
    {
      RenderSnoc(layout, chars, Spacer);
      GlyphSlotsSnoc(layout, Spacer);
      layout := layout + [Spacer];
    }

    /** `element.appendChild(node.cloneNode(true))` for a line break. */
    method AppendBreak(node: Node)
      modifies this
      requires SlotsBelow(layout, |chars|) && GlyphSlots(layout) == Range(|chars|)
      ensures SlotsBelow(layout, |chars|) && GlyphSlots(layout) == Range(|chars|)
      ensures layout == old(layout) + [Clone(node)] && chars == old(chars) && hasAnimated == old(hasAnimated)
      ensures Render(layout, chars) == old(Render(layout, chars)) + [Break(node)]
    {
      RenderSnoc(layout, chars, Clone(node));
      GlyphSlotsSnoc(layout, Clone(node));
      layout := layout + [Clone(node)];
    }

    /**
     * `element.appendChild(span)` followed by `animatableChars.push(span)`:
     * one child and one unit, hidden and painted with the accent colour,
     * aliased by the new glyph's slot.
     */
    method AppendGlyph(ch: char)
      modifies this
      requires SlotsBelow(layout, |chars|) && GlyphSlots(layout) == Range(|chars|)
      ensures SlotsBelow(layout, |chars|) && GlyphSlots(layout) == Range(|chars|)
      ensures layout == old(layout) + [Glyph(old(|chars|))] && hasAnimated == old(hasAnimated)
      ensures chars == old(chars) + [Unit(ch, 0, config.accentColor)]
      ensures Render(layout, chars) == old(Render(layout, chars)) + [Character(ch)]
      ensures CharsOf(chars) == old(CharsOf(chars)) + [ch]
    {
      var u := Unit(ch, 0, config.accentColor);
      RenderExtend(layout, chars, [u]);
      RenderSnoc(layout, chars + [u], Glyph(|chars|));
      GlyphSlotsSnoc(layout, Glyph(|chars|));
      assert Range(|chars| + 1) == Range(|chars|) + [|chars|];
      assert CharsOf(chars + [u]) == CharsOf(chars) + [ch];
      layout := layout + [Glyph(|chars|)];
      chars := chars + [u];
    }

    /** The span for one character of an expanded text: a spacer for `" "`, a new hidden unit otherwise. */
    method AppendChar(ch: char)
      modifies this
      requires SlotsBelow(layout, |chars|) && GlyphSlots(layout) == Range(|chars|)
      ensures SlotsBelow(layout, |chars|) && GlyphSlots(layout) == Range(|chars|)
      ensures Render(layout, chars) == old(Render(layout, chars)) + [Character(ch)]
      ensures chars == old(chars) + NewUnits(NonSpace([ch]), config.accentColor)
      ensures hasAnimated == old(hasAnimated)
    {
      assert [ch][..0] == [];
      if ch == ' ' {
        AppendSpacer();
      } else {
        AppendGlyph(ch);
      }
    }

    /** The spans for the characters of `text`, in order. */
    method Expand(text: string)
      modifies this
      requires SlotsBelow(layout, |chars|) && GlyphSlots(layout) == Range(|chars|)
      ensures SlotsBelow(layout, |chars|) && GlyphSlots(layout) == Range(|chars|)
      ensures Render(layout, chars) == old(Render(layout, chars)) + Chars(text)
      ensures chars == old(chars) + NewUnits(NonSpace(text), config.accentColor)
      ensures hasAnimated == old(hasAnimated)
    {
      ghost var shown0, chars0 := Render(layout, chars), chars;
      for j := 0 to |text|
        invariant SlotsBelow(layout, |chars|) && GlyphSlots(layout) == Range(|chars|)
        invariant Render(layout, chars) == shown0 + Chars(text[..j])
        invariant chars == chars0 + NewUnits(NonSpace(text[..j]), config.accentColor)
        invariant hasAnimated == old(hasAnimated)
      {
        ExpandStep(text, j, config.accentColor, shown0, chars0);
        AppendChar(text[j]);
      }
      assert text[..|text|] == text;
    }

    /**
     * `splitText`: the children become the visited nodes' characters and
     * line breaks, and the units are their non-space characters, all hidden
     * and painted with the accent colour.
     */
    method SplitText(nodes: seq<Node>)
      modifies this
      ensures SlotsBelow(layout, |chars|) && GlyphSlots(layout) == Range(|chars|)
      ensures Render(layout, chars) == Tokens(nodes)
      ensures chars == NewUnits(Glyphs(nodes), config.accentColor)
      ensures hasAnimated == old(hasAnimated)
    {
      layout := [];
      chars := [];
      for i := 0 to |nodes|
        invariant SlotsBelow(layout, |chars|) && GlyphSlots(layout) == Range(|chars|)
        invariant Render(layout, chars) == Tokens(nodes[..i])
        invariant chars == NewUnits(Glyphs(nodes[..i]), config.accentColor)
        invariant hasAnimated == old(hasAnimated)
      {
        TokensSnoc(nodes, i);
        NewUnitsAppend(Glyphs(nodes[..i]), NonSpace(Expanded(nodes[i])), config.accentColor);
        var node := nodes[i];
        match node
        case Element(tag, text) =>
          if tag == "BR" {
            AppendBreak(node);
          } else {
            Expand(text);
          }
        case Text(data) =>
          var text := Trim(data);
          if text != [] {
            Expand(text);
          }
        case Other =>
      }
      assert nodes[..|nodes|] == nodes;
    }

    /** `reset`: every unit hidden and painted with the accent colour. */
    method Reset()
      modifies this
      ensures chars == ResetAll(old(chars), config.accentColor)
      ensures layout == old(layout) && hasAnimated == old(hasAnimated)
      ensures CharsOf(chars) == old(CharsOf(chars)) && AllHidden()
    {
      for k := 0 to |chars|
        invariant |chars| == old(|chars|)
        invariant forall i :: 0 <= i < k ==> chars[i] == Hidden(old(chars)[i], config.accentColor)
        invariant forall i :: k <= i < |chars| ==> chars[i] == old(chars)[i]
        invariant layout == old(layout) && hasAnimated == old(hasAnimated)
      {
        chars := chars[k := Hidden(chars[k], config.accentColor)];
      }
    }

    /** One timer callback firing. */
    method Fire(e: Event)
      modifies this
      ensures chars == Step(old(chars), e)
      ensures layout == old(layout) && hasAnimated == old(hasAnimated)
    {
      if e.slot < |chars| {
        var u := chars[e.slot];
        match e.action
        case Show => chars := chars[e.slot := u.(opacity := 1)];
        case Paint(color) => chars := chars[e.slot := u.(color := color)];
      }
    }

    /** Timer callbacks firing in the order given. */
    method Deliver(evs: seq<Event>)
      modifies this
      ensures chars == Apply(old(chars), evs)
      ensures layout == old(layout) && hasAnimated == old(hasAnimated)
    {
      for i := 0 to |evs|
        invariant chars == Apply(old(chars), evs[..i])
        invariant layout == old(layout) && hasAnimated == old(hasAnimated)
      {
        ApplyThrough(old(chars), evs, i);
        Fire(evs[i]);
      }
      assert evs[..|evs|] == evs;
    }

    /** `shuffled.forEach((char, index) => setTimeout(...))`: one chain of three timers per unit, in shuffled order. */
    method Stagger(mode: Sequencer.Mode, keys: seq<real>) returns (timers: seq<Event>)
      requires |keys| == |chars|
      ensures timers == Sequencer.Schedule(Shuffle(Range(|chars|), keys), mode, config)
    {
      var shuffled := Shuffle(Range(|chars|), keys);
      timers := [];
      for index := 0 to |shuffled|
        invariant timers == Sequencer.Schedule(shuffled[..index], mode, config)
      {
        assert shuffled[..index + 1][..index] == shuffled[..index];
        timers := timers + Sequencer.Chain(index, shuffled[index], mode, config);
      }
      assert shuffled[..|shuffled|] == shuffled;
    }

    /** `animate`: the timers that show each unit and run it through the transition colour to the final colour. */
    method Animate(keys: seq<real>) returns (timers: seq<Event>)
      requires |keys| == |chars|
      ensures timers == Sequencer.Schedule(Shuffle(Range(|chars|), keys), Sequencer.ShowMode, config)
    {
      timers := Stagger(Sequencer.ShowMode, keys);
    }

    /** `highlightOnly`: like `animate`, but the first timer repaints with the accent colour instead of showing. */
    method HighlightOnly(keys: seq<real>) returns (timers: seq<Event>)
      requires |keys| == |chars|
      ensures timers == Sequencer.Schedule(Shuffle(Range(|chars|), keys), Sequencer.PaintMode, config)
    {
      timers := Stagger(Sequencer.PaintMode, keys);
    }

    /**
     * The visibility callback for one entry: it schedules what its reaction
     * calls for, hides the text on an immediate reset, and records the
     * first reveal.
     */
    method OnEntry(isIntersecting: bool, keys: seq<real>) returns (timers: seq<Event>)
      modifies this
      requires |keys| == |chars|
      ensures old(Valid()) ==> Valid()
      ensures layout == old(layout) && |chars| == old(|chars|)
      ensures hasAnimated == Visibility.After(old(hasAnimated), isIntersecting)
      ensures timers == Planned(Visibility.React(old(hasAnimated), config, isIntersecting), |chars|, keys, config)
      ensures chars == if Visibility.React(old(hasAnimated), config, isIntersecting) == Visibility.ImmediateReset
        then ResetAll(old(chars), config.accentColor) else old(chars)
    {
      timers := [];
      if isIntersecting {
        if !hasAnimated {
          timers := Animate(keys);
          hasAnimated := true;
        } else if config.replay {
          if config.revealOnReplay {
            timers := Animate(keys);
          } else {
            timers := HighlightOnly(keys);
          }
        }
      } else {
        if config.replay && hasAnimated && config.revealOnReplay {
          Reset();
          if old(Valid()) {
            RenderSameChars(layout, old(chars), chars);
          }
        }
      }
    }

    /**
     * The visibility callback for a batch of entries, with the random draws
     * of each entry's shuffle: entry `i` schedules what its reaction calls
     * for, and the text ends hidden exactly when some entry reset it.
     */
    method OnEntries(entries: seq<bool>, draws: seq<seq<real>>) returns (plans: seq<seq<Event>>)
      modifies this
      requires Valid() && |draws| == |entries|
      requires forall i :: 0 <= i < |draws| ==> |draws[i]| == |chars|
      ensures Valid() && layout == old(layout) && |chars| == old(|chars|)
      ensures hasAnimated == (old(hasAnimated) || true in entries)
      ensures |plans| == |entries|
      ensures forall i :: 0 <= i < |entries| ==>
        plans[i] == Planned(Visibility.Reactions(old(hasAnimated), config, entries)[i], |chars|, draws[i], config)
      ensures chars == if Visibility.ImmediateReset in Visibility.Reactions(old(hasAnimated), config, entries)
        then ResetAll(old(chars), config.accentColor) else old(chars)
    {
      ghost var h0, c0 := hasAnimated, chars;
      ghost var rs := Visibility.Reactions(h0, config, entries);
      var n := |chars|;
      plans := [];
      for i := 0 to |entries|
        invariant layout == old(layout) && |chars| == n
        invariant hasAnimated == (h0 || true in entries[..i])
        invariant |plans| == i
        invariant forall j :: 0 <= j < i ==> plans[j] == Planned(rs[j], n, draws[j], config)
        invariant chars == if Visibility.ImmediateReset in rs[..i] then ResetAll(c0, config.accentColor) else c0
      {
        Visibility.ReactionsAt(h0, config, entries, i);
        ghost var before := chars;
        var timers := OnEntry(entries[i], draws[i]);
        PlansSnoc(plans, timers, rs, n, draws, config);
        plans := plans + [timers];
        SeenSnoc(h0, entries, i);
        ResetStep(c0, config.accentColor, rs, i, before);
      }
      assert entries[..|entries|] == entries;
      assert rs[..|entries|] == rs;
      assert CharsOf(chars) == CharsOf(c0);
      RenderSameChars(layout, c0, chars);
    }
  }

  /**
   * `textFlashyReveal(element, options)`: without an element it fails with
   * the documented message; otherwise it resolves the options, splits the
   * element's text and hides it, ready for the first visible entry.
   */
  method TextFlashyReveal(element: Option<seq<Node>>, options: Config.Options) returns (r: Result<RevealEffect, string>)
    requires element.Some? ==> Config.Resolvable(options)
    ensures r.Failure? <==> element.None?
    ensures r.Failure? ==> r.error == Config.MissingElement
    ensures r.Success? ==> fresh(r.value) && r.value.config == Config.Resolve(options) && r.value.source == element.value
    ensures r.Success? ==> r.value.Valid() && r.value.AllHidden() && !r.value.hasAnimated
  {
    var started := Config.Start(element, options);
    match started
    case Failure(e) =>
      r := Failure(e);
    case Success(c) =>
      var effect := new RevealEffect(c, element.value);
      r := Success(effect);
  }
}
