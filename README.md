# UniClipboard website: navigation bar logic

The UniClipboard marketing site is presentational: its sections render
translated copy. Its only logic is in the navigation bar
(`src/components/landing/Navigation.tsx`), and this project models that logic
and proves properties of it:

- **The locale-preserving path rewrite** (`switchLocalePathname`). The path
  is split on `/` as JavaScript's `split("/")` does. If segment 1 (the second
  element of the split) is `en` or `zh`, that element is overwritten with the
  target locale and the segments are joined again. Otherwise `/` becomes
  `/<locale>`, a rooted path `/p` becomes `/<locale>/p`, and a path without a
  leading `/` becomes `/<locale>/p`.
- **The display mode.** One boolean, `isCompact`, holds the state. The lazy
  `useState` initialiser sets it when the bar is created: "the window's scroll
  offset is above 64", or `false` when there is no window. The mount effect and
  every scroll sample then set it again to "the offset is above 64", through
  the guarded updater `prev === next ? prev : next`. The `data-nav-variant`
  attribute (`compact`/`expanded`) and the `data-nav-shape` attribute
  (`pill`/`square`) are derived from it.
- **The two buttons.** The language button targets `zh` when the locale is
  `en` and `en` otherwise, is labelled in the target language, and navigates to
  the rewritten path. The theme button sets `light` when the theme is `dark`
  and `dark` otherwise.

Files:

- `wrappers.dfy`, module `Wrappers`: `Option`, which stands for JavaScript's
  `undefined` (an array index past the end, a theme not yet resolved).
- `segments.dfy`, module `Segments`: `Split` and `Join`, the separator `/`,
  and their two round trips.
- `locale_path.dfy`, module `LocalePath`: `SwitchLocalePathname` and its
  algebra. The central lemma, `SplitOfSwitch`, says that the segments of the
  result are the input's "locale slots" with the target locale in slot 1.
  The rest follows from it: only the last switch matters, the rewrite is
  idempotent, and a locale path switched to the other locale and back is
  restored.
- `navigation.dfy`, module `Navigation`: the `NavigationBar` class with
  `isCompact`, its mount and scroll handlers, the derived attributes, and the
  toggles and button targets.

The overwrite of `segments[1]` is a sequence update (`segments[1 := tag]`).
The component's state is a class whose methods reassign `isCompact`. A ghost
record of the initial state and of every offset applied lets `Valid()` state
that `isCompact` always equals the replay of those offsets.

Segment 1 is element 1 of `pathname.split("/")`. For a path without a
leading `/` that is the second `/`-separated piece, so `foo/en` becomes
`foo/zh`, still without a leading `/` (`ExampleRelativeLocale`).

## Model

| member | source | states |
|---|---|---|
| `Segments.Split` | src/components/landing/Navigation.tsx:13 | `pathname.split("/")` has at least one element and no element contains `/` |
| `Segments.Join` | src/components/landing/Navigation.tsx:18 | `segments.join("/")` starts with the first segment, and with two or more segments a `/` follows it |
| `Segments.SegmentAt` | src/components/landing/Navigation.tsx:14 | `segments[1]` is a value exactly when the index is in range, and that value is the element; past the end it is `undefined` |
| `Segments.JoinSplit` | src/components/landing/Navigation.tsx:13-18 | joining the split segments with `/` gives back the path |
| `Segments.SplitJoin` | src/components/landing/Navigation.tsx:17-18 | splitting a join of one or more `/`-free segments gives back the segments |
| `Segments.JoinOfSeveral` | src/components/landing/Navigation.tsx:18 | a join of two or more segments contains `/` and is not empty |
| `LocalePath.SwitchLocalePathname` | src/components/landing/Navigation.tsx:12-23 | the rewritten path is never empty |
| `LocalePath.HasLocaleSegment` | src/components/landing/Navigation.tsx:14-16 | the locale test on `maybeLocale` holds exactly when the split has a segment 1 and it is `en` or `zh` |
| `LocalePath.StartsWithSlash` | src/components/landing/Navigation.tsx:22 | `pathname.startsWith("/")` holds exactly when the split has an empty first segment followed by at least one more |
| `LocalePath.LocaleSlots` | src/components/landing/Navigation.tsx:16-22 | the segments the result is built from number at least two and are `/`-free |
| `LocalePath.SplitOfSwitchLocaleCase` | src/components/landing/Navigation.tsx:16-18 | when segment 1 is a locale, the result's segments are the input's with segment 1 overwritten by the target |
| `LocalePath.SplitOfSwitchRootCase` | src/components/landing/Navigation.tsx:21 | `/` rewrites to a path whose segments are `""` and the target locale |
| `LocalePath.SplitOfSwitchRootedCase` | src/components/landing/Navigation.tsx:22 | a rooted path without a locale segment gets the target inserted as its first segment, the rest unchanged |
| `LocalePath.SplitOfSwitchRelativeCase` | src/components/landing/Navigation.tsx:22 | a path without a leading `/` gets `""` and the target in front of all its segments |
| `LocalePath.SplitOfSwitch` | src/components/landing/Navigation.tsx:12-23 | for every input, the result's segments are the input's locale slots with the target locale in slot 1 |
| `LocalePath.TargetIsSegmentOne` | src/components/landing/Navigation.tsx:12-23 | for every input, segment 1 of the result is the target locale |
| `LocalePath.RootedOutputStartsWithLocale` | src/components/landing/Navigation.tsx:12-23 | a rooted input gives a result starting with `/<locale>` whose first segment after `/` is the target |
| `LocalePath.LocaleSegmentReplaced` | src/components/landing/Navigation.tsx:13-18 | with a locale in segment 1, exactly that segment is replaced; the segment count and every other segment are kept |
| `LocalePath.FallbackNeverTaken` | src/components/landing/Navigation.tsx:16-18 | the join after the overwrite is non-empty and contains `/`, so the fallback `/<locale>` is never taken |
| `LocalePath.NonLocalePathsArePrefixed` | src/components/landing/Navigation.tsx:21-22 | without a locale segment: `/` gives `/<locale>`, a rooted path gets `/<locale>` in front, any other path `/<locale>/` |
| `LocalePath.AlreadyTargetIsFixed` | src/components/landing/Navigation.tsx:16-18 | a path whose segment 1 already is the target is returned unchanged |
| `LocalePath.LastSwitchWins` | src/components/landing/Navigation.tsx:12-23 | switching to `l1` and then to `l2` equals switching to `l2`, for every path |
| `LocalePath.Idempotent` | src/components/landing/Navigation.tsx:12-23 | switching twice to the same locale equals switching once |
| `LocalePath.LocaleRoundTrip` | src/components/landing/Navigation.tsx:16-22 | a path with locale `l` in segment 1, switched to the other locale and back to `l`, is restored |
| `LocalePath.ExampleLocaleRoot` | src/__tests__/unit/navigation.spec.tsx:155-162 | `/en` switched to `zh` is `/zh` |
| `LocalePath.ExampleLocaleDeep` | src/components/landing/Navigation.tsx:16-18 | `/en/foo` switched to `zh` is `/zh/foo` |
| `LocalePath.ExampleRelativeLocale` | src/components/landing/Navigation.tsx:13-18 | `foo/en` switched to `zh` is `foo/zh`: segment 1 is the second element even without a leading `/` |
| `LocalePath.ExamplesPrefixed` | src/components/landing/Navigation.tsx:21-22 | `/` gives `/zh`, `/foo` gives `/zh/foo`, the empty path gives `/zh/` |
| `Navigation.GuardedSet` | src/components/landing/Navigation.tsx:39 | the guarded updater always ends in the new value |
| `Navigation.ReplaySnoc` | src/components/landing/Navigation.tsx:42-45 | each further scroll sample applies one guarded set to the state so far |
| `Navigation.ReplayIsLevelTriggered` | src/components/landing/Navigation.tsx:42-45 | after one or more samples the state is "latest sample above 64", whatever came before: no hysteresis |
| `Navigation.NavigationBar.constructor` | src/components/landing/Navigation.tsx:33-35 | the initial state is "window offset above 64", and expanded when there is no window |
| `Navigation.NavigationBar.OnMount` | src/components/landing/Navigation.tsx:37-40 | after mount the state is "window offset above 64"; the invariant is kept |
| `Navigation.NavigationBar.OnScroll` | src/components/landing/Navigation.tsx:42-45 | after a sample `v` the state is `v > 64`; the invariant is kept |
| `Navigation.NavigationBar.Variant` | src/components/landing/Navigation.tsx:74-77 | `data-nav-variant` (and the animation variant) is `compact` exactly when `isCompact`, otherwise `expanded` |
| `Navigation.NavigationBar.Shape` | src/components/landing/Navigation.tsx:83 | `data-nav-shape` is `pill` exactly when the variant is `compact`, otherwise `square` |
| `Navigation.NavigationBar.ModeFollowsLatestSample` | src/components/landing/Navigation.tsx:33-45 | once an offset was applied, the variant is `compact` and the shape `pill` exactly when the latest offset is above 64 |
| `Navigation.NextLocale` | src/components/landing/Navigation.tsx:47 | the language target is `zh` exactly when the locale is `en` |
| `Navigation.LanguageLabel` | src/components/landing/Navigation.tsx:48 | the label is `中文` when the target is `zh` and `EN` when it is `en` |
| `Navigation.NextTheme` | src/components/landing/Navigation.tsx:49 | the theme target is `light` exactly when the theme is `dark`, otherwise `dark` |
| `Navigation.NextLocaleToggles` | src/components/landing/Navigation.tsx:47 | for `en` and `zh` the target is the other locale, and toggling twice returns |
| `Navigation.NextThemeToggles` | src/components/landing/Navigation.tsx:49 | for `light` and `dark` the target is the other theme, and toggling twice returns |
| `Navigation.LanguageButtonTarget` | src/components/landing/Navigation.tsx:159-160 | the button navigates to a path whose segment 1 is the target locale |
| `Navigation.LanguageButtonRoundTrip` | src/components/landing/Navigation.tsx:159-160 | pressing the language button twice, on a path carrying the current locale, returns to that path |
| `Navigation.ButtonExamples` | src/__tests__/unit/navigation.spec.tsx:155-171 | path `/en` with locale `en` navigates to `/zh`; theme `light` sets `dark` |
| `Navigation.ScrollScenarios` | src/__tests__/unit/navigation.spec.tsx:173-212 | with mount before any sample: an offset of 64 gives `expanded`, a sample of 65 gives `compact`, a sample of 80 gives `pill` |

## Left out

- `router.push` and `setTheme` are side effects. The model returns the chosen path (`LanguageButtonTarget`) and the chosen theme (`NextTheme`) instead.
- The check `typeof window !== "undefined"` becomes the constructor's `Option<real>` parameter: `None` means the page is rendered on the server. The window's and the scroll listener's offsets are parameters.
- Scroll offsets are JavaScript numbers. They are modelled as `real`, so NaN and the infinities are not modelled.
- React's rendering and effect scheduling are not modelled: the order of calls on `NavigationBar` stands for the order of events.
- The framer-motion variants, springs, easing, opacities and widths (Navigation.tsx lines 51-69 and the `transition` props) are styling handled by a foreign library. Only the name of the chosen variant is modelled.
- `getFormUrl` (src/lib/form-config.ts) is a constant two-entry lookup that gives the same URL for both locales. The link it feeds is plain markup and is not modelled.
- JavaScript strings are sequences of UTF-16 code units; the model uses Dafny's Unicode characters. Splitting on `/` gives the same result either way.
- The section components, the whitepaper page, the environment schema (src/env.mjs, src/lib/site-config.ts) and the font loader (src/lib/fonts.ts) only render markup or configure libraries. They have no behaviour to model.
