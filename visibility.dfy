/**
 * The visibility callback as a decision: for each observed entry, whether the
 * effect reveals, only re-highlights, hides itself again, or does nothing,
 * given whether it has animated before and the replay settings.
 */
module Visibility {
  import Config

  /** What the callback does for one entry. */
  datatype Reaction =
    | FullReveal      // animate()
    | Highlight       // highlightOnly()
    | ImmediateReset  // reset(true)
    | Nothing

  /**
   * The reaction to one entry: the first time the element becomes visible
   * it always reveals; later visibility replays only when `replay` is set,
   * revealing again or just recolouring according to `revealOnReplay`; and
   * leaving the view hides the text again only when both are set and it
   * has animated before.
   */
  function React(hasAnimated: bool, c: Config.Settings, isIntersecting: bool): (r: Reaction)
    ensures r == FullReveal <==> isIntersecting && (!hasAnimated || (c.replay && c.revealOnReplay))
    ensures r == Highlight <==> isIntersecting && hasAnimated && c.replay && !c.revealOnReplay
    ensures r == ImmediateReset <==> !isIntersecting && hasAnimated && c.replay && c.revealOnReplay
  {
    if isIntersecting then
      if !hasAnimated then FullReveal
      else if c.replay then (if c.revealOnReplay then FullReveal else Highlight)
      else Nothing
    else if c.replay && hasAnimated && c.revealOnReplay then ImmediateReset
    else Nothing
  }

  /** `hasAnimated` after one entry: set by the first visible entry, never cleared. */
  function After(hasAnimated: bool, isIntersecting: bool): (h: bool)
    ensures h <==> hasAnimated || isIntersecting
  {
    if isIntersecting && !hasAnimated then true else hasAnimated
  }

  /** The reactions to a batch of entries, in order, starting from `hasAnimated`. */
  function Reactions(hasAnimated: bool, c: Config.Settings, entries: seq<bool>): (r: seq<Reaction>)
    ensures |r| == |entries|
    decreases |entries|
  {
    if entries == [] then []
    else [React(hasAnimated, c, entries[0])] + Reactions(After(hasAnimated, entries[0]), c, entries[1..])
  }

  /** The reaction to entry `i` depends only on whether it or an earlier entry was visible. */
  lemma {:induction false} ReactionsAt(hasAnimated: bool, c: Config.Settings, entries: seq<bool>, i: nat)
    requires i < |entries|
    ensures Reactions(hasAnimated, c, entries)[i] == React(hasAnimated || true in entries[..i], c, entries[i])
    decreases i
  {
    if i > 0 {
      var rest := entries[1..];
      ReactionsAt(After(hasAnimated, entries[0]), c, rest, i - 1);
      assert entries[..i] == [entries[0]] + rest[..i - 1];
    }
  }

  /** The reactions to two batches are the reactions to the first, then to the second from the state the first left. */
  lemma {:induction false} ReactionsAppend(hasAnimated: bool, c: Config.Settings, a: seq<bool>, b: seq<bool>)
    ensures Reactions(hasAnimated, c, a + b) == Reactions(hasAnimated, c, a) + Reactions(hasAnimated || true in a, c, b)
    decreases |a|
  {
    if a == [] {
      assert a + b == b;
    } else {
      assert (a + b)[0] == a[0] && (a + b)[1..] == a[1..] + b;
      ReactionsAppend(After(hasAnimated, a[0]), c, a[1..], b);
      assert a == [a[0]] + a[1..];
    }
  }

  /** Without `replay`, the text is revealed once, at the first visible entry, and nothing else ever happens. */
  lemma OneShot(hasAnimated: bool, c: Config.Settings, entries: seq<bool>, i: nat)
    requires !c.replay && i < |entries|
    ensures Reactions(hasAnimated, c, entries)[i] ==
      if !hasAnimated && entries[i] && true !in entries[..i] then FullReveal else Nothing
  {
    ReactionsAt(hasAnimated, c, entries, i);
  }

  /** With `replay` and `revealOnReplay`, every visible entry reveals and every later invisible one hides. */
  lemma ReplayReveals(hasAnimated: bool, c: Config.Settings, entries: seq<bool>, i: nat)
    requires c.replay && c.revealOnReplay && i < |entries|
    ensures Reactions(hasAnimated, c, entries)[i] ==
      if entries[i] then FullReveal
      else if hasAnimated || true in entries[..i] then ImmediateReset
      else Nothing
  {
    ReactionsAt(hasAnimated, c, entries, i);
  }

  /** With `replay` but not `revealOnReplay`, visible entries after the first only recolour, and nothing ever hides. */
  lemma ReplayHighlights(hasAnimated: bool, c: Config.Settings, entries: seq<bool>, i: nat)
    requires c.replay && !c.revealOnReplay && i < |entries|
    ensures Reactions(hasAnimated, c, entries)[i] ==
      if !entries[i] then Nothing
      else if hasAnimated || true in entries[..i] then Highlight
      else FullReveal
  {
    ReactionsAt(hasAnimated, c, entries, i);
  }

  /** Before the first visible entry, nothing happens, whatever the settings. */
  lemma NothingBeforeFirstView(c: Config.Settings, entries: seq<bool>, i: nat)
    requires i < |entries| && true !in entries[..i + 1]
    ensures Reactions(false, c, entries)[i] == Nothing
  {
    ReactionsAt(false, c, entries, i);
    assert entries[..i + 1][i] == entries[i];
  }
}
