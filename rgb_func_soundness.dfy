/**
 * What `regexpRGBFunc` captures: whatever it matches, each captured group is
 * a component (`none`, a number or an unsigned percentage).
 */
module RGBFuncSoundness {
  import opened Wrappers
  import opened Regexps
  import opened RGBFuncRegexp

  /** Every captured group is a component. */
  predicate ComponentGroups(g: Groups)
  {
    forall i | 0 <= i < |g| && g[i].Some? :: IsComponent(g[i].value)
  }

  /** Every candidate within `s` is the end of a component starting at `p`. */
  predicate SoundCandidates(s: string, p: nat, cands: seq<nat>)
  {
    forall e | e in cands && p < e <= |s| :: IsComponent(s[p..e])
  }

  /** `ends` only proposes ends of components. */
  predicate SoundEnds(s: string, ends: nat -> seq<nat>)
  {
    forall q: nat | q <= |s| :: SoundCandidates(s, q, ends(q))
  }

  lemma ComponentGroupsAppend(g: Groups, x: Option<string>)
    requires ComponentGroups(g) && (x.Some? ==> IsComponent(x.value))
    ensures ComponentGroups(g + [x])
  {
    forall i | 0 <= i < |g + [x]| && (g + [x])[i].Some? ensures IsComponent((g + [x])[i].value) {
      if i < |g| { assert (g + [x])[i] == g[i]; }
    }
  }

  lemma {:induction false} TryAlphaSound(s: string, p: nat, cands: seq<nat>, got: Groups)
    requires p <= |s| && |got| == 3 && ComponentGroups(got) && SoundCandidates(s, p, cands)
    ensures TryAlpha(s, p, cands, got).Some? ==> ComponentGroups(TryAlpha(s, p, cands, got).value)
    decreases |cands|
  {
    if |cands| > 0 {
      if p < cands[0] <= |s| {
        ComponentGroupsAppend(got, Some(s[p..cands[0]]));
      }
      assert SoundCandidates(s, p, cands[1..]) by {
        forall e | e in cands[1..] && p < e <= |s| ensures IsComponent(s[p..e]) { assert e in cands; }
      }
      TryAlphaSound(s, p, cands[1..], got);
    }
  }

  lemma {:induction false} TryBlueSound(s: string, ends: nat -> seq<nat>, p: nat, cands: seq<nat>, got: Groups)
    requires p <= |s| && |got| == 2 && ComponentGroups(got) && SoundCandidates(s, p, cands) && SoundEnds(s, ends)
    ensures TryBlue(s, ends, p, cands, got).Some? ==> ComponentGroups(TryBlue(s, ends, p, cands, got).value)
    decreases |cands|
  {
    if |cands| > 0 {
      var c := cands[0];
      if p < c <= |s| {
        var g := got + [Some(s[p..c])];
        ComponentGroupsAppend(got, Some(s[p..c]));
        match AlphaSepEnd(s, c) {
          case Some(q) => TryAlphaSound(s, q, ends(q), g);
          case None =>
        }
        ComponentGroupsAppend(g, None);
      }
      assert SoundCandidates(s, p, cands[1..]) by {
        forall e | e in cands[1..] && p < e <= |s| ensures IsComponent(s[p..e]) { assert e in cands; }
      }
      TryBlueSound(s, ends, p, cands[1..], got);
    }
  }

  lemma {:induction false} TryGreenSound(s: string, ends: nat -> seq<nat>, p: nat, cands: seq<nat>, got: Groups)
    requires p <= |s| && |got| == 1 && ComponentGroups(got) && SoundCandidates(s, p, cands) && SoundEnds(s, ends)
    ensures TryGreen(s, ends, p, cands, got).Some? ==> ComponentGroups(TryGreen(s, ends, p, cands, got).value)
    decreases |cands|
  {
    if |cands| > 0 {
      var c := cands[0];
      if p < c <= |s| {
        ComponentGroupsAppend(got, Some(s[p..c]));
        var q := ListSepEnd(s, c);
        TryBlueSound(s, ends, q, ends(q), got + [Some(s[p..c])]);
      }
      assert SoundCandidates(s, p, cands[1..]) by {
        forall e | e in cands[1..] && p < e <= |s| ensures IsComponent(s[p..e]) { assert e in cands; }
      }
      TryGreenSound(s, ends, p, cands[1..], got);
    }
  }

  lemma {:induction false} TryRedSound(s: string, ends: nat -> seq<nat>, p: nat, cands: seq<nat>)
    requires p <= |s| && SoundCandidates(s, p, cands) && SoundEnds(s, ends)
    ensures TryRed(s, ends, p, cands).Some? ==> ComponentGroups(TryRed(s, ends, p, cands).value)
    decreases |cands|
  {
    if |cands| > 0 {
      var c := cands[0];
      if p < c <= |s| {
        ComponentGroupsAppend([], Some(s[p..c]));
        var q := ListSepEnd(s, c);
        TryGreenSound(s, ends, q, ends(q), [Some(s[p..c])]);
      }
      assert SoundCandidates(s, p, cands[1..]) by {
        forall e | e in cands[1..] && p < e <= |s| ensures IsComponent(s[p..e]) { assert e in cands; }
      }
      TryRedSound(s, ends, p, cands[1..]);
    }
  }

  lemma ComponentEndsSoundAll(s: string, p: nat, percentFirst: bool)
    requires p <= |s|
    ensures SoundCandidates(s, p, ComponentEnds(s, p, percentFirst))
  {
    forall e | e in ComponentEnds(s, p, percentFirst) && p < e <= |s| ensures IsComponent(s[p..e]) {
      ComponentEndsSound(s, p, percentFirst, e);
    }
  }

  lemma EndsSound(s: string, percentFirst: bool)
    ensures SoundEnds(s, Ends(s, percentFirst))
  {
    forall q: nat | q <= |s| ensures SoundCandidates(s, q, Ends(s, percentFirst)(q)) {
      ComponentEndsSoundAll(s, q, percentFirst);
    }
  }

  /**
   * The pattern captures nothing but components: three of them, and a fourth
   * when the alpha group took part.
   */
  lemma MatchSound(s: string, percentFirst: bool)
    ensures MatchRGBFunc(s, percentFirst).Some? ==>
      WellFormed(MatchRGBFunc(s, percentFirst).value) && ComponentGroups(MatchRGBFunc(s, percentFirst).value)
  {
    match PrefixEnd(s) {
      case None =>
      case Some(p) =>
        EndsSound(s, percentFirst);
        ComponentEndsSoundAll(s, p, percentFirst);
        TryRedSound(s, Ends(s, percentFirst), p, ComponentEnds(s, p, percentFirst));
    }
  }
}
