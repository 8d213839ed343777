/** Path segments as JavaScript produces and consumes them with
    `String.prototype.split("/")` and `Array.prototype.join("/")`.

    `split` with a one-character separator always yields at least one
    element: "" splits into [""], "/" into ["", ""], "a/b" into ["a", "b"].
    No element contains the separator, and joining the elements again gives
    back the string that was split. */
module Segments {
  import opened Wrappers

  const Slash: char := '/'

  /** The pieces of `s` between occurrences of `/`, as `s.split("/")`. */
  function Split(s: string): (r: seq<string>)
    ensures |r| >= 1
    ensures forall i :: 0 <= i < |r| ==> Slash !in r[i]
    decreases |s|
  {
    if s == [] then [""]
    else if s[0] == Slash then [""] + Split(s[1..])
    else
      var rest := Split(s[1..]);
      [[s[0]] + rest[0]] + rest[1..]
  }

  /** The elements of `segs` with `/` between neighbours, as `segs.join("/")`. */
  function Join(segs: seq<string>): (r: string)
    ensures |segs| >= 1 ==> segs[0] <= r
    ensures |segs| >= 2 ==> |r| > |segs[0]| && r[|segs[0]|] == Slash
  {
    if |segs| == 0 then ""
    else if |segs| == 1 then segs[0]
    else segs[0] + [Slash] + Join(segs[1..])
  }

  /** `segs[i]`, or `None` where JavaScript reads `undefined`. */
  function SegmentAt(segs: seq<string>, i: nat): (r: Option<string>)
    ensures r.Some? <==> i < |segs|
    ensures r.Some? ==> r.value == segs[i]
  {
    if i < |segs| then Some(segs[i]) else None
  }

  /** No segment contains the separator. */
  predicate SlashFree(segs: seq<string>)
  {
    forall i :: 0 <= i < |segs| ==> Slash !in segs[i]
  }

  /** Putting a character in front of the first segment puts it in front of the join. */
  lemma {:induction false} JoinConsChar(c: char, segs: seq<string>)
    requires |segs| >= 1
    ensures Join([[c] + segs[0]] + segs[1..]) == [c] + Join(segs)
  {
  }

  /** Joining what was split gives back the original string. */
  lemma {:induction false} JoinSplit(s: string)
    ensures Join(Split(s)) == s
    decreases |s|
  {
    if s == [] {
    } else if s[0] == Slash {
      JoinSplit(s[1..]);
      var t := [""] + Split(s[1..]);
      assert t[1..] == Split(s[1..]);
      assert s == [Slash] + s[1..];
    } else {
      JoinSplit(s[1..]);
      JoinConsChar(s[0], Split(s[1..]));
      assert s == [s[0]] + s[1..];
    }
  }

  /** Splitting `a + tail` where `a` has no separator glues `a` onto the
      first segment of `tail` and leaves the other segments alone. */
  lemma {:induction false} SplitSlashFreePrefix(a: string, tail: string)
    requires Slash !in a
    ensures Split(a + tail) == [a + Split(tail)[0]] + Split(tail)[1..]
    decreases |a|
  {
    if a == [] {
      assert a + tail == tail;
      assert a + Split(tail)[0] == Split(tail)[0];
      assert [Split(tail)[0]] + Split(tail)[1..] == Split(tail);
    } else {
      var a' := a[1..];
      assert a == [a[0]] + a';
      assert a + tail == [a[0]] + (a' + tail);
      assert (a + tail)[1..] == a' + tail;
      SplitSlashFreePrefix(a', tail);
      var rest := Split(a' + tail);
      assert rest == [a' + Split(tail)[0]] + Split(tail)[1..];
      assert rest[1..] == Split(tail)[1..];
      assert [a[0]] + rest[0] == a + Split(tail)[0];
    }
  }

  /** A string without the separator is one segment. */
  lemma SplitSlashFree(a: string)
    requires Slash !in a
    ensures Split(a) == [a]
  {
    SplitSlashFreePrefix(a, "");
    assert a + "" == a;
  }

  /** A separator after a separator-free prefix starts a new segment. */
  lemma SplitAtFirstSlash(a: string, b: string)
    requires Slash !in a
    ensures Split(a + [Slash] + b) == [a] + Split(b)
  {
    SplitSlashFreePrefix(a, [Slash] + b);
    assert a + [Slash] + b == a + ([Slash] + b);
    var sb := [Slash] + b;
    assert sb[0] == Slash && sb[1..] == b;
    assert Split(sb) == [""] + Split(b);
    assert a + Split(sb)[0] == a;
    assert Split(sb)[1..] == Split(b);
  }

  /** Splitting what was joined gives back the segments, provided there is at
      least one and none contains the separator. */
  lemma {:induction false} SplitJoin(segs: seq<string>)
    requires |segs| >= 1 && SlashFree(segs)
    ensures Split(Join(segs)) == segs
  {
    if |segs| == 1 {
      SplitSlashFree(segs[0]);
    } else {
      SplitJoin(segs[1..]);
      SplitAtFirstSlash(segs[0], Join(segs[1..]));
      assert segs == [segs[0]] + segs[1..];
    }
  }

  /** Two or more segments join into a non-empty string containing the separator. */
  lemma JoinOfSeveral(segs: seq<string>)
    requires |segs| >= 2
    ensures Slash in Join(segs) && Join(segs) != ""
  {
  }
}
