/**
 * Configuration resolution: the caller's options are spread over the
 * defaults, and the transition colour is derived from the accent colour
 * when the caller gives none (or gives a falsy one).
 */
module Config {
  import opened Wrappers
  import Color

  /** The options object; `None` is an option the caller left out. */
  datatype Options = Options(
    accentColor: Option<string>,
    finalColor: Option<string>,
    transitionColor: Option<string>,
    revealDelay: Option<int>,
    fadeDuration: Option<int>,
    colorDelay: Option<int>,
    flashDelay: Option<int>,
    replay: Option<bool>,
    revealOnReplay: Option<bool>,
    threshold: Option<real>)

  /** The effective configuration; times are in milliseconds. */
  datatype Settings = Settings(
    accentColor: string,
    finalColor: string,
    transitionColor: string,
    revealDelay: int,
    fadeDuration: int,
    colorDelay: int,
    flashDelay: int,
    replay: bool,
    revealOnReplay: bool,
    threshold: real)

  const NoOptions: Options := Options(None, None, None, None, None, None, None, None, None, None)

  const DefaultAccent: string := "#ff7a00"
  const DefaultFinal: string := "#000"
  const DefaultRevealDelay: int := 40
  const DefaultFadeDuration: int := 350
  const DefaultColorDelay: int := 300
  const DefaultFlashDelay: int := 150
  const DefaultThreshold: real := 0.4

  /** The blend toward white used for a derived transition colour. */
  const TransitionPercent: int := 60

  const MissingElement: string := "Element is required for textFlashyReveal"

  /** JavaScript truthiness of an optional string: left out and `""` are both falsy, every other string is truthy. */
  predicate Truthy(s: Option<string>): (r: bool)
    ensures s == None ==> !r
    ensures s == Some("") ==> !r
    ensures s.Some? && |s.value| > 0 ==> r
  {
    s.Some? && s.value != ""
  }

  /**
   * Resolution is defined when the transition colour need not be derived,
   * or the accent colour it is derived from is a well-formed hex colour.
   */
  predicate Resolvable(o: Options) {
    Truthy(o.transitionColor) || Color.WellFormed(o.accentColor.GetOr(DefaultAccent))
  }

  /** The spread `{ ...defaults, ...options }` followed by the transition-colour rule. */
  function Resolve(o: Options): (c: Settings)
    requires Resolvable(o)
    ensures c.accentColor == (if o.accentColor.Some? then o.accentColor.value else DefaultAccent)
    ensures c.finalColor == (if o.finalColor.Some? then o.finalColor.value else DefaultFinal)
    ensures c.revealDelay == (if o.revealDelay.Some? then o.revealDelay.value else DefaultRevealDelay)
    ensures c.fadeDuration == (if o.fadeDuration.Some? then o.fadeDuration.value else DefaultFadeDuration)
    ensures c.colorDelay == (if o.colorDelay.Some? then o.colorDelay.value else DefaultColorDelay)
    ensures c.flashDelay == (if o.flashDelay.Some? then o.flashDelay.value else DefaultFlashDelay)
    ensures c.replay == (o.replay != Some(false))
    ensures c.revealOnReplay == (o.revealOnReplay != Some(false))
    ensures c.threshold == (if o.threshold.Some? then o.threshold.value else DefaultThreshold)
    ensures Truthy(o.transitionColor) ==> c.transitionColor == o.transitionColor.value
    ensures !Truthy(o.transitionColor) ==>
      Color.WellFormed(c.accentColor) && c.transitionColor == Color.LightenColor(c.accentColor, TransitionPercent)
  {
    var accent := o.accentColor.GetOr(DefaultAccent);
    Settings(
      accent,
      o.finalColor.GetOr(DefaultFinal),
      if Truthy(o.transitionColor) then o.transitionColor.value else Color.LightenColor(accent, TransitionPercent),
      o.revealDelay.GetOr(DefaultRevealDelay),
      o.fadeDuration.GetOr(DefaultFadeDuration),
      o.colorDelay.GetOr(DefaultColorDelay),
      o.flashDelay.GetOr(DefaultFlashDelay),
      o.replay.GetOr(true),
      o.revealOnReplay.GetOr(true),
      o.threshold.GetOr(DefaultThreshold))
  }

  /** Every field of a resolved configuration, supplied as an option. */
  function AsOptions(c: Settings): Options {
    Options(Some(c.accentColor), Some(c.finalColor), Some(c.transitionColor),
            Some(c.revealDelay), Some(c.fadeDuration), Some(c.colorDelay), Some(c.flashDelay),
            Some(c.replay), Some(c.revealOnReplay), Some(c.threshold))
  }

  /** With no options at all, the configuration is the documented defaults and the transition colour is `#ffca99`. */
  lemma ResolveDefaults()
    ensures Resolvable(NoOptions)
    ensures Resolve(NoOptions) == Settings(DefaultAccent, DefaultFinal, "#ffca99", DefaultRevealDelay,
      DefaultFadeDuration, DefaultColorDelay, DefaultFlashDelay, true, true, DefaultThreshold)
  {
    Color.DefaultTransitionColor();
  }

  /** A resolved configuration always carries a truthy transition colour, so resolving it again changes nothing. */
  lemma ResolveIsFixedPoint(o: Options)
    requires Resolvable(o)
    ensures Truthy(Some(Resolve(o).transitionColor))
    ensures Resolvable(AsOptions(Resolve(o))) && Resolve(AsOptions(Resolve(o))) == Resolve(o)
  {
  }

  /**
   * The entry point's first step: a missing element fails before anything
   * else happens (in particular, no colour is derived).
   */
  function Start<E>(element: Option<E>, o: Options): (r: Result<Settings, string>)
    requires element.Some? ==> Resolvable(o)
    ensures r.Failure? <==> element.None?
    ensures r.Failure? ==> r.error == MissingElement
    ensures r.Success? ==> r.value == Resolve(o)
  {
    if element.None? then Failure(MissingElement) else Success(Resolve(o))
  }
}
