/** The locale-preserving path rewrite behind the navigation bar's language
    button (`switchLocalePathname`, src/components/landing/Navigation.tsx).

    A path whose second `/`-separated segment is a locale tag gets that one
    segment replaced by the target locale. Any other path gets the target
    locale put in front: `/` becomes `/<locale>`, a rooted path `/p` becomes
    `/<locale>/p`, and a path without a leading `/` becomes `/<locale>/p`. */
module LocalePath {
  import opened Wrappers
  import opened Segments

  /** The two locales the site is published in. */
  datatype Locale = En | Zh

  /** The locale's tag as it appears in a path. */
  function Tag(l: Locale): (r: string)
    ensures Slash !in r && r != ""
  {
    match l
    case En => "en"
    case Zh => "zh"
  }

  /** The other locale. */
  function Other(l: Locale): (r: Locale)
    ensures r != l
  {
    match l
    case En => Zh
    case Zh => En
  }

  /** `pathname.startsWith("/")`: exactly the paths whose split has an
      empty first segment followed by at least one more. */
  predicate StartsWithSlash(p: string)
    ensures StartsWithSlash(p) <==> |Split(p)| >= 2 && Split(p)[0] == ""
  {
    |p| > 0 && p[0] == Slash
  }

  /** Segment 1 of `p` (the second element of `p.split("/")`) is a locale tag. */
  predicate HasLocaleSegment(p: string)
    ensures HasLocaleSegment(p) <==>
      |Split(p)| >= 2 && (Split(p)[1] == "en" || Split(p)[1] == "zh")
  {
    var maybeLocale := SegmentAt(Split(p), 1);
    maybeLocale == Some("en") || maybeLocale == Some("zh")
  }

  /** `switchLocalePathname(pathname, nextLocale)`. The result is never empty:
      where JavaScript's `||` would see an empty join it takes `/<locale>`. */
  function SwitchLocalePathname(pathname: string, nextLocale: Locale): (r: string)
    ensures r != ""
  {
    var segments := Split(pathname);
    if HasLocaleSegment(pathname) then
      var joined := Join(segments[1 := Tag(nextLocale)]);
      if joined != "" then joined else "/" + Tag(nextLocale)
    else if pathname == "/" then "/" + Tag(nextLocale)
    else "/" + Tag(nextLocale) + (if StartsWithSlash(pathname) then "" else "/") + pathname
  }

  /** The segments of the rewritten path, with a slot at index 1 that the
      target locale fills: the path's own segments when segment 1 is a locale,
      otherwise a new empty first segment, a slot, and the path's segments
      after its leading `/` (none for the root path). */
  function LocaleSlots(p: string): (r: seq<string>)
    ensures |r| >= 2 && SlashFree(r)
  {
    if HasLocaleSegment(p) then Split(p)
    else if p == "/" then ["", ""]
    else if StartsWithSlash(p) then ["", ""] + Split(p)[1..]
    else ["", ""] + Split(p)
  }

  /** Splitting a path that starts with `/` gives an empty first segment. */
  lemma SplitRooted(q: string)
    ensures Split([Slash] + q) == [""] + Split(q)
  {
  }

  /** `/<tag>/q` splits into an empty segment, the tag, and the segments of `q`. */
  lemma SplitTagged(tag: string, q: string)
    requires Slash !in tag
    ensures Split([Slash] + tag + [Slash] + q) == ["", tag] + Split(q)
  {
    assert [Slash] + tag + [Slash] + q == [Slash] + (tag + [Slash] + q);
    SplitRooted(tag + [Slash] + q);
    SplitAtFirstSlash(tag, q);
  }

  /** Segment 1 is a locale: the split array with slot 1 overwritten, joined. */
  lemma SplitOfSwitchLocaleCase(p: string, l: Locale)
    requires HasLocaleSegment(p)
    ensures Split(SwitchLocalePathname(p, l)) == Split(p)[1 := Tag(l)]
  {
    var segs := Split(p)[1 := Tag(l)];
    JoinOfSeveral(segs);
    SplitJoin(segs);
  }

  /** The root path: `/<locale>`. */
  lemma SplitOfSwitchRootCase(l: Locale)
    ensures Split(SwitchLocalePathname("/", l)) == ["", Tag(l)]
  {
    var tag := Tag(l);
    SplitRooted("");
    assert "/" == [Slash] + "";
    assert !HasLocaleSegment("/");
    SplitSlashFree(tag);
    SplitRooted(tag);
  }

  /** A rooted path without a locale segment: `/<locale>` in front of it. */
  lemma SplitOfSwitchRootedCase(p: string, l: Locale)
    requires !HasLocaleSegment(p) && p != "/" && StartsWithSlash(p)
    ensures Split(SwitchLocalePathname(p, l)) == ["", Tag(l)] + Split(p)[1..]
  {
    var tag := Tag(l);
    var q := p[1..];
    assert p == [Slash] + q;
    SplitRooted(q);
    assert SwitchLocalePathname(p, l) == [Slash] + tag + [Slash] + q;
    SplitTagged(tag, q);
  }

  /** A path without a leading `/`: `/<locale>/` in front of it. */
  lemma SplitOfSwitchRelativeCase(p: string, l: Locale)
    requires !HasLocaleSegment(p) && !StartsWithSlash(p)
    ensures Split(SwitchLocalePathname(p, l)) == ["", Tag(l)] + Split(p)
  {
    assert p != "/";
    assert SwitchLocalePathname(p, l) == [Slash] + Tag(l) + [Slash] + p;
    SplitTagged(Tag(l), p);
  }

  /** The segments of the rewritten path are the path's locale slots with the
      target locale in slot 1. This is the whole behaviour of the rewrite at
      the level of segments. */
  lemma SplitOfSwitch(p: string, l: Locale)
    ensures Split(SwitchLocalePathname(p, l)) == LocaleSlots(p)[1 := Tag(l)]
  {
    var slots := LocaleSlots(p);
    if HasLocaleSegment(p) {
      SplitOfSwitchLocaleCase(p, l);
    } else if p == "/" {
      SplitOfSwitchRootCase(l);
      assert slots[1 := Tag(l)] == ["", Tag(l)];
    } else if StartsWithSlash(p) {
      SplitOfSwitchRootedCase(p, l);
      assert slots[1 := Tag(l)] == ["", Tag(l)] + Split(p)[1..];
    } else {
      SplitOfSwitchRelativeCase(p, l);
      assert slots[1 := Tag(l)] == ["", Tag(l)] + Split(p);
    }
  }

  /** Every rewritten path has the target locale as segment 1, whatever the input. */
  lemma TargetIsSegmentOne(p: string, l: Locale)
    ensures SegmentAt(Split(SwitchLocalePathname(p, l)), 1) == Some(Tag(l))
    ensures HasLocaleSegment(SwitchLocalePathname(p, l))
  {
    SplitOfSwitch(p, l);
  }

  /** A rooted input gives a rooted output that starts with `/<locale>`, and
      whose first segment (after the leading `/`) is the target locale. */
  lemma RootedOutputStartsWithLocale(p: string, l: Locale)
    requires StartsWithSlash(p)
    ensures var r := SwitchLocalePathname(p, l);
      [Slash] + Tag(l) <= r && Split(r)[0] == "" && Split(r)[1] == Tag(l)
  {
    var r := SwitchLocalePathname(p, l);
    SplitOfSwitch(p, l);
    var slots := LocaleSlots(p);
    assert slots[0] == "";
    var segs := slots[1 := Tag(l)];
    assert Split(r) == segs && segs[0] == "" && segs[1] == Tag(l);
    JoinSplit(r);
    assert Join(segs) == [Slash] + Join(segs[1..]);
    assert Tag(l) <= Join(segs[1..]);
  }

  /** When segment 1 is a locale, exactly that segment is replaced: the
      segment count is kept, every other segment is unchanged, and the
      `||` fallback is never taken. */
  lemma LocaleSegmentReplaced(p: string, l: Locale)
    requires HasLocaleSegment(p)
    ensures var r := SwitchLocalePathname(p, l);
      Split(r) == Split(p)[1 := Tag(l)] &&
      |Split(r)| == |Split(p)| &&
      (forall i :: 0 <= i < |Split(p)| && i != 1 ==> Split(r)[i] == Split(p)[i]) &&
      r == Join(Split(p)[1 := Tag(l)])
  {
    SplitOfSwitch(p, l);
    JoinOfSeveral(Split(p)[1 := Tag(l)]);
  }

  /** The fallback `/<locale>` after `||` is unreachable: once segment 1
      exists there are at least two segments, so their join contains `/`. */
  lemma FallbackNeverTaken(p: string, l: Locale)
    requires HasLocaleSegment(p)
    ensures var joined := Join(Split(p)[1 := Tag(l)]);
      joined != "" && Slash in joined
  {
  }

  /** The cases without a locale segment: the root becomes `/<locale>`, a
      rooted path is prefixed by `/<locale>`, any other path by `/<locale>/`. */
  lemma NonLocalePathsArePrefixed(p: string, l: Locale)
    requires !HasLocaleSegment(p)
    ensures p == "/" ==> SwitchLocalePathname(p, l) == "/" + Tag(l)
    ensures p != "/" && StartsWithSlash(p) ==> SwitchLocalePathname(p, l) == "/" + Tag(l) + p
    ensures !StartsWithSlash(p) ==> SwitchLocalePathname(p, l) == "/" + Tag(l) + "/" + p
  {
  }

  /** A path whose segment 1 already names the target is left unchanged. */
  lemma {:induction false} AlreadyTargetIsFixed(p: string, l: Locale)
    requires SegmentAt(Split(p), 1) == Some(Tag(l))
    ensures SwitchLocalePathname(p, l) == p
  {
    var segs := Split(p);
    assert segs[1 := Tag(l)] == segs;
    JoinOfSeveral(segs);
    JoinSplit(p);
  }

  /** Only the last switch matters: switching to `l1` and then to `l2` is
      switching to `l2`. */
  lemma {:induction false} LastSwitchWins(p: string, l1: Locale, l2: Locale)
    ensures SwitchLocalePathname(SwitchLocalePathname(p, l1), l2) == SwitchLocalePathname(p, l2)
  {
    var r1 := SwitchLocalePathname(p, l1);
    var r2 := SwitchLocalePathname(p, l2);
    SplitOfSwitch(p, l1);
    SplitOfSwitch(p, l2);
    TargetIsSegmentOne(p, l1);
    var slots := LocaleSlots(p);
    assert Split(r1)[1 := Tag(l2)] == slots[1 := Tag(l2)];
    JoinOfSeveral(slots[1 := Tag(l2)]);
    JoinSplit(r2);
  }

  /** Rewriting is idempotent in the target locale. */
  lemma Idempotent(p: string, l: Locale)
    ensures SwitchLocalePathname(SwitchLocalePathname(p, l), l) == SwitchLocalePathname(p, l)
  {
    LastSwitchWins(p, l, l);
  }

  /** For a path whose segment 1 is locale `l`, switching to the other
      locale and back to `l` restores the path. */
  lemma LocaleRoundTrip(p: string, l: Locale)
    requires SegmentAt(Split(p), 1) == Some(Tag(l))
    ensures SwitchLocalePathname(SwitchLocalePathname(p, Other(l)), l) == p
  {
    LastSwitchWins(p, Other(l), l);
    AlreadyTargetIsFixed(p, l);
  }

  /** Worked case: `/en` to `zh` gives `/zh`. */
  lemma ExampleLocaleRoot()
    ensures SwitchLocalePathname("/en", Zh) == "/zh"
  {
    assert "/en" == [Slash] + "en";
    SplitRooted("en");
    SplitSlashFree("en");
    LocaleSegmentReplaced("/en", Zh);
    assert Split("/en")[1 := "zh"] == ["", "zh"];
  }

  /** Worked case: `/en/foo` to `zh` gives `/zh/foo`. */
  lemma ExampleLocaleDeep()
    ensures SwitchLocalePathname("/en/foo", Zh) == "/zh/foo"
  {
    assert "/en/foo" == [Slash] + "en" + [Slash] + "foo";
    SplitTagged("en", "foo");
    SplitSlashFree("foo");
    LocaleSegmentReplaced("/en/foo", Zh);
    assert Split("/en/foo")[1 := "zh"] == ["", "zh", "foo"];
    assert ["", "zh", "foo"][1..] == ["zh", "foo"] && ["zh", "foo"][1..] == ["foo"];
  }

  /** Worked case: a locale in segment 1 of a relative path is the second
      element, so `foo/en` to `zh` gives `foo/zh`. */
  lemma ExampleRelativeLocale()
    ensures SwitchLocalePathname("foo/en", Zh) == "foo/zh"
  {
    assert "foo/en" == "foo" + [Slash] + "en";
    SplitAtFirstSlash("foo", "en");
    SplitSlashFree("en");
    LocaleSegmentReplaced("foo/en", Zh);
    assert Split("foo/en")[1 := "zh"] == ["foo", "zh"];
  }

  /** Worked cases without a locale segment: the root, a rooted path and the
      empty path. */
  lemma ExamplesPrefixed()
    ensures SwitchLocalePathname("/", Zh) == "/zh"
    ensures SwitchLocalePathname("/foo", Zh) == "/zh/foo"
    ensures SwitchLocalePathname("", Zh) == "/zh/"
  {
    assert "/" == [Slash] + "";
    SplitRooted("");
    assert "/foo" == [Slash] + "foo";
    SplitRooted("foo");
    SplitSlashFree("foo");
  }
}
