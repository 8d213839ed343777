/** The navigation bar's client-side state and its two buttons
    (src/components/landing/Navigation.tsx).

    The bar is either expanded or compact. One boolean, `isCompact`, holds
    that state. The initialiser sets it when the bar is created (`false`
    without a window); the mount effect and every scroll sample then set it
    to "the offset is above 64" through a guarded updater. The language
    button navigates to the current path rewritten for the other locale, and
    the theme button picks the other theme. */
module Navigation {
  import opened Wrappers
  import opened Segments
  import opened LocalePath

  /** Scroll offset, in pixels, above which the bar is compact. */
  const CompactThreshold: real := 64.0

  /** The updater `prev => prev === next ? prev : next`: it keeps the old
      value only when that value already equals the new one, so it always
      ends in the new value. */
  function GuardedSet(prev: bool, next: bool): (r: bool)
    ensures r == next
  {
    if prev == next then prev else next
  }

  /** The state after the scroll samples `samples`, in order, starting from `state`. */
  function Replay(state: bool, samples: seq<real>): bool
    decreases |samples|
  {
    if samples == [] then state
    else Replay(GuardedSet(state, samples[0] > CompactThreshold), samples[1..])
  }

  /** One more sample is one more guarded set. */
  lemma {:induction false} ReplaySnoc(state: bool, samples: seq<real>, v: real)
    ensures Replay(state, samples + [v]) == GuardedSet(Replay(state, samples), v > CompactThreshold)
    decreases |samples|
  {
    if samples == [] {
      assert ([] + [v])[1..] == [];
    } else {
      assert (samples + [v])[1..] == samples[1..] + [v];
      ReplaySnoc(GuardedSet(state, samples[0] > CompactThreshold), samples[1..], v);
    }
  }

  /** The display mode is level-triggered: after at least one sample it is
      compact exactly when the latest sample is above the threshold, whatever
      the state before and the samples before it. There is no hysteresis. */
  lemma {:induction false} ReplayIsLevelTriggered(state: bool, samples: seq<real>)
    requires samples != []
    ensures Replay(state, samples) == (samples[|samples| - 1] > CompactThreshold)
    decreases |samples|
  {
    if |samples| > 1 {
      ReplayIsLevelTriggered(GuardedSet(state, samples[0] > CompactThreshold), samples[1..]);
    }
  }

  /** The navigation bar's state. `initial` and `samples` record, for the
      proof only, the state chosen at construction and every scroll offset
      applied since. */
  class NavigationBar {
    var isCompact: bool
    ghost var initial: bool
    ghost var samples: seq<real>

    ghost predicate Valid()
      reads this
    {
      isCompact == Replay(initial, samples)
    }

    /** The lazy `useState` initialiser: compact when the window's scroll
        offset is above the threshold, expanded when there is no window (the
        page is rendered on the server). */
    constructor (windowScrollY: Option<real>)
      ensures Valid() && samples == []
      ensures isCompact <==> (windowScrollY.Some? && windowScrollY.value > CompactThreshold)
    {
      isCompact := if windowScrollY.Some? then windowScrollY.value > CompactThreshold else false;
      initial := isCompact;
      samples := [];
    }

    /** The mount effect: re-derive the state from the window's scroll offset. */
    method OnMount(windowScrollY: real)
      requires Valid()
      modifies this
      ensures Valid() && initial == old(initial) && samples == old(samples) + [windowScrollY]
      ensures isCompact <==> windowScrollY > CompactThreshold
    {
      var next := windowScrollY > CompactThreshold;
      isCompact := GuardedSet(isCompact, next);
      ReplaySnoc(initial, samples, windowScrollY);
      samples := samples + [windowScrollY];
    }

    /** The scroll listener: re-derive the state from the sample `v`. */
    method OnScroll(v: real)
      requires Valid()
      modifies this
      ensures Valid() && initial == old(initial) && samples == old(samples) + [v]
      ensures isCompact <==> v > CompactThreshold
    {
      var next := v > CompactThreshold;
      isCompact := GuardedSet(isCompact, next);
      ReplaySnoc(initial, samples, v);
      samples := samples + [v];
    }

    /** The current `data-nav-variant` of the header, which is also the
        animation variant every animated element is driven to. */
    function Variant(): (r: string)
      reads this
      ensures r == "compact" || r == "expanded"
      ensures r == "compact" <==> isCompact
    {
      if isCompact then "compact" else "expanded"
    }

    /** The current `data-nav-shape` of the inner bar: the pill shape goes
        with the compact variant. */
    function Shape(): (r: string)
      reads this
      ensures r == "pill" || r == "square"
      ensures r == "pill" <==> Variant() == "compact"
    {
      if isCompact then "pill" else "square"
    }

    /** Once any offset has been applied, the variant is `compact` and the
        shape `pill` exactly when the latest offset is above the threshold. */
    lemma ModeFollowsLatestSample()
      requires Valid() && samples != []
      ensures Variant() == "compact" <==> samples[|samples| - 1] > CompactThreshold
      ensures Shape() == "pill" <==> samples[|samples| - 1] > CompactThreshold
    {
      ReplayIsLevelTriggered(initial, samples);
    }
  }

  /** The language the button switches to: `zh` from `en`, `en` from anything else. */
  function NextLocale(locale: string): (r: Locale)
    ensures r == Zh <==> locale == "en"
  {
    if locale == "en" then Zh else En
  }

  /** The language button's label, written in the language it switches to. */
  function LanguageLabel(locale: string): (r: string)
    ensures r == "中文" <==> NextLocale(locale) == Zh
    ensures r == "EN" <==> NextLocale(locale) == En
  {
    if locale == "en" then "中文" else "EN"
  }

  /** The theme the theme button sets: `light` from `dark`, `dark` from any
      other theme and from an unresolved one. */
  function NextTheme(theme: Option<string>): (r: string)
    ensures r == "light" <==> theme == Some("dark")
    ensures r == "dark" <==> theme != Some("dark")
  {
    if theme == Some("dark") then "light" else "dark"
  }

  /** For the two site locales, the language toggle goes to the other one
      and toggling twice comes back. */
  lemma NextLocaleToggles(l: Locale)
    ensures NextLocale(Tag(l)) == Other(l)
    ensures NextLocale(Tag(NextLocale(Tag(l)))) == l
  {
  }

  /** For the two named themes, the theme toggle goes to the other one and
      toggling twice comes back. */
  lemma NextThemeToggles(theme: string)
    requires theme == "light" || theme == "dark"
    ensures NextTheme(Some(theme)) != theme
    ensures NextTheme(Some(NextTheme(Some(theme)))) == theme
  {
  }

  /** Where the language button navigates: the current path rewritten for
      the other locale, which is segment 1 of the new path. */
  function LanguageButtonTarget(pathname: string, locale: string): (r: string)
    ensures SegmentAt(Split(r), 1) == Some(Tag(NextLocale(locale)))
  {
    TargetIsSegmentOne(pathname, NextLocale(locale));
    SwitchLocalePathname(pathname, NextLocale(locale))
  }

  /** Pressing the language button on a page whose path carries the current
      locale, then pressing it again on the page it led to, returns to the
      original path. */
  lemma LanguageButtonRoundTrip(pathname: string, l: Locale)
    requires SegmentAt(Split(pathname), 1) == Some(Tag(l))
    ensures LanguageButtonTarget(LanguageButtonTarget(pathname, Tag(l)), Tag(Other(l))) == pathname
  {
    NextLocaleToggles(l);
    NextLocaleToggles(Other(l));
    assert Other(Other(l)) == l;
    LocaleRoundTrip(pathname, l);
  }

  /** The worked cases: with path `/en` and locale `en` the language button
      navigates to `/zh`; the theme button from `light` sets `dark`. */
  lemma ButtonExamples()
    ensures LanguageButtonTarget("/en", "en") == "/zh"
    ensures NextTheme(Some("light")) == "dark"
  {
    ExampleLocaleRoot();
  }

  /** The scroll cases: an offset of 64 at mount leaves the bar expanded;
      after mounting at 0, a sample of 65 makes it compact and one of 80 gives
      the pill shape. Each bar is mounted before it sees any scroll sample. */
  method ScrollScenarios() returns (variantAt64: string, variantAt65: string, shapeAt80: string)
    ensures variantAt64 == "expanded"
    ensures variantAt65 == "compact"
    ensures shapeAt80 == "pill"
  {
    var bar := new NavigationBar(Some(64.0));
    bar.OnMount(64.0);
    variantAt64 := bar.Variant();
    bar := new NavigationBar(Some(0.0));
    bar.OnMount(0.0);
    bar.OnScroll(65.0);
    variantAt65 := bar.Variant();
    bar.OnScroll(80.0);
    shapeAt80 := bar.Shape();
  }
}
