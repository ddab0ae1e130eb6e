/**
 * `regexpRGBFunc`, the pattern of the `rgb()` / `rgba()` functional notation:
 *
 *   ^rgba?\(\s*C\s*,?\s*C\s*,?\s*C(?:\s*[,/]\s+C)?\s*\)$      (flags `g`, `i`)
 *
 * where each component C (groups red, green, blue, alpha) is
 * `none|NUMBER|\d*\.?\d+%`.  The matcher is modelled exactly as JavaScript's
 * backtracking engine runs it: every separator has a single end that a
 * component can follow, and the component alternatives are tried in order,
 * `none` first, then every number prefix from the longest down, then the
 * percentage.  `percentFirst` swaps the last two alternatives.
 */
module RGBFuncRegexp {
  import opened Wrappers
  import opened Text
  import opened Regexps

  /** The groups red, green, blue and alpha of a match; a group that took no part is `None`. */
  type Groups = seq<Option<string>>

  /** The keyword `none`, in any case. */
  predicate IsNoneKeyword(t: string)
  {
    |t| == 4 && Lower(t[0]) == 'n' && Lower(t[1]) == 'o' && Lower(t[2]) == 'n' && Lower(t[3]) == 'e'
  }

  /** One component, `none|NUMBER|\d*\.?\d+%`. */
  predicate IsComponent(t: string)
  {
    IsNoneKeyword(t) || IsNumber(t) || IsUnsignedPercent(t)
  }

  /** Three captured components and an optional fourth. */
  predicate WellFormed(g: Groups)
  {
    |g| == 4 && g[0].Some? && g[1].Some? && g[2].Some?
  }

  /** The end of the run of characters from `p` that can occur in a number. */
  function NumberRun(s: string, p: nat): (q: nat)
    requires p <= |s|
    ensures p <= q <= |s|
    ensures forall i | p <= i < q :: IsNumberChar(s[i])
    ensures q < |s| ==> !IsNumberChar(s[q])
    decreases |s| - p
  {
    if p == |s| || !IsNumberChar(s[p]) then p else NumberRun(s, p + 1)
  }

  /** The end of the run of digits and points from `p`. */
  function MantissaRun(s: string, p: nat): (q: nat)
    requires p <= |s|
    ensures p <= q <= |s|
    ensures forall i | p <= i < q :: IsDigit(s[i]) || s[i] == '.'
    ensures q < |s| ==> !(IsDigit(s[q]) || s[q] == '.')
    decreases |s| - p
  {
    if p == |s| || !(IsDigit(s[p]) || s[p] == '.') then p else MantissaRun(s, p + 1)
  }

  /**
   * The ends `e` with `p < e <= hi` of the prefixes `s[p..e]` that `accept`
   * recognises, longest first: the order in which greedy quantifiers give
   * characters back.
   */
  function AcceptedEnds(s: string, p: nat, hi: nat, accept: string -> bool): seq<nat>
    requires p <= hi <= |s|
    decreases hi - p
  {
    if hi == p then [] else (if accept(s[p..hi]) then [hi] else []) + AcceptedEnds(s, p, hi - 1, accept)
  }

  /** The ends listed are exactly those of the accepted prefixes. */
  lemma {:induction false} AcceptedEndsExact(s: string, p: nat, hi: nat, accept: string -> bool, e: nat)
    requires p <= hi <= |s|
    ensures e in AcceptedEnds(s, p, hi, accept) <==> p < e <= hi && accept(s[p..e])
    decreases hi - p
  {
    if hi > p {
      AcceptedEndsExact(s, p, hi - 1, accept, e);
    }
  }

  /** The ends are listed longest first. */
  lemma {:induction false} AcceptedEndsDescending(s: string, p: nat, hi: nat, accept: string -> bool)
    requires p <= hi <= |s|
    ensures forall i, j | 0 <= i < j < |AcceptedEnds(s, p, hi, accept)| :: AcceptedEnds(s, p, hi, accept)[i] > AcceptedEnds(s, p, hi, accept)[j]
    decreases hi - p
  {
    if hi > p {
      var rest := AcceptedEnds(s, p, hi - 1, accept);
      AcceptedEndsDescending(s, p, hi - 1, accept);
      forall j | 0 <= j < |rest| ensures rest[j] < hi {
        AcceptedEndsExact(s, p, hi - 1, accept, rest[j]);
      }
    }
  }

  /** The end of the keyword `none` if it starts at `p`. */
  function KeywordEnd(s: string, p: nat): seq<nat>
    requires p <= |s|
  {
    if p + 4 <= |s| && IsNoneKeyword(s[p..p + 4]) then [p + 4] else []
  }

  /** The ends of the numbers that start at `p`, longest first. */
  function NumberEnds(s: string, p: nat): seq<nat>
    requires p <= |s|
  {
    AcceptedEnds(s, p, NumberRun(s, p), IsNumber)
  }

  /** The end of the percentage `\d*\.?\d+%` if one starts at `p` (there is at most one). */
  function PercentEnd(s: string, p: nat): seq<nat>
    requires p <= |s|
  {
    var m := MantissaRun(s, p);
    if m < |s| && s[m] == '%' && IsMantissa(s[p..m]) then [m + 1] else []
  }

  /**
   * The ends of the components starting at `p`, in the order the matcher tries
   * them: `none`, then the numbers longest first and the percentage, or the
   * percentage before the numbers when `percentFirst` holds.
   */
  function ComponentEnds(s: string, p: nat, percentFirst: bool): seq<nat>
    requires p <= |s|
  {
    KeywordEnd(s, p) + if percentFirst then PercentEnd(s, p) + NumberEnds(s, p) else NumberEnds(s, p) + PercentEnd(s, p)
  }

  lemma KeywordEndSound(s: string, p: nat, e: nat)
    requires p <= |s| && e in KeywordEnd(s, p)
    ensures p < e <= |s| && IsNoneKeyword(s[p..e])
  {
  }

  lemma NumberEndsExact(s: string, p: nat, e: nat)
    requires p <= |s|
    ensures e in NumberEnds(s, p) <==> p < e <= |s| && IsNumber(s[p..e])
  {
    AcceptedEndsExact(s, p, NumberRun(s, p), IsNumber, e);
    if p < e <= |s| && IsNumber(s[p..e]) {
      NumberWithinRun(s, p, e);
    }
  }

  lemma PercentEndExact(s: string, p: nat, e: nat)
    requires p <= |s|
    ensures e in PercentEnd(s, p) <==> p < e <= |s| && IsUnsignedPercent(s[p..e])
  {
    var m := MantissaRun(s, p);
    if e in PercentEnd(s, p) {
      assert s[p..e][..m - p] == s[p..m];
    }
    if p < e <= |s| && IsUnsignedPercent(s[p..e]) {
      PercentAfterRun(s, p, e);
    }
  }

  /** Every candidate the matcher tries is a component. */
  lemma ComponentEndsSound(s: string, p: nat, percentFirst: bool, e: nat)
    requires p <= |s| && e in ComponentEnds(s, p, percentFirst)
    ensures p < e <= |s| && IsComponent(s[p..e])
  {
    if e in KeywordEnd(s, p) {
      KeywordEndSound(s, p, e);
    } else if e in NumberEnds(s, p) {
      NumberEndsExact(s, p, e);
    } else {
      PercentEndExact(s, p, e);
    }
  }

  /** A number that starts at `p` lies within the run of number characters there. */
  lemma NumberWithinRun(s: string, p: nat, e: nat)
    requires p < e <= |s| && IsNumber(s[p..e])
    ensures e <= NumberRun(s, p)
  {
    var t := s[p..e];
    NumberChars(t);
    forall i | p <= i < e ensures IsNumberChar(s[i]) {
      assert s[i] == t[i - p];
    }
  }

  /** A percentage that starts at `p` ends just after the run of digits and points there. */
  lemma PercentAfterRun(s: string, p: nat, e: nat)
    requires p < e <= |s| && IsUnsignedPercent(s[p..e])
    ensures MantissaRun(s, p) == e - 1 && s[e - 1] == '%' && IsMantissa(s[p..e - 1])
  {
    var t := s[p..e];
    var u := t[..|t| - 1];
    MantissaChars(u);
    forall i | p <= i < e - 1 ensures IsDigit(s[i]) || s[i] == '.' {
      assert s[i] == u[i - p];
    }
    assert u == s[p..e - 1];
  }

  /** Every component that starts at `p` is among the candidates the matcher tries. */
  lemma ComponentEndsComplete(s: string, p: nat, percentFirst: bool, e: nat)
    requires p < e <= |s| && IsComponent(s[p..e])
    ensures e in ComponentEnds(s, p, percentFirst)
  {
    var t := s[p..e];
    if IsNumber(t) {
      NumberEndsExact(s, p, e);
    } else if IsUnsignedPercent(t) {
      PercentEndExact(s, p, e);
    } else {
      assert |t| == 4;
      assert e in KeywordEnd(s, p);
    }
  }

  /** `\s*,?\s*`: the only end of the separator that a component can follow. */
  function ListSepEnd(s: string, p: nat): (q: nat)
    requires p <= |s|
    ensures p <= q <= |s|
  {
    var a := SkipSpaces(s, p);
    if a < |s| && s[a] == ',' then SkipSpaces(s, a + 1) else a
  }

  /** `\s*[,/]\s+`, the separator before the alpha component, if it matches at `p`. */
  function AlphaSepEnd(s: string, p: nat): (r: Option<nat>)
    requires p <= |s|
    ensures r.Some? ==> p < r.value <= |s|
  {
    var a := SkipSpaces(s, p);
    if a < |s| && (s[a] == ',' || s[a] == '/') then
      var b := SkipSpaces(s, a + 1);
      if b > a + 1 then Some(b) else None
    else None
  }

  /** `\s*\)$`: the rest of `s` from `p` is white space and a closing parenthesis. */
  predicate ClosesAt(s: string, p: nat)
    requires p <= |s|
  {
    var a := SkipSpaces(s, p);
    a + 1 == |s| && s[a] == ')'
  }

  /** `^rgba?\(\s*` with the `i` flag: where the first component starts. */
  function PrefixEnd(s: string): (r: Option<nat>)
    ensures r.Some? ==> r.value <= |s|
  {
    if |s| >= 4 && ToLower(s[..3]) == "rgb" then
      var k := if Lower(s[3]) == 'a' then 4 else 3;
      if k < |s| && s[k] == '(' then Some(SkipSpaces(s, k + 1)) else None
    else None
  }

  /**
   * The candidate ends of a component at each position of `s`, in the order
   * the matcher tries them.
   */
  function Ends(s: string, percentFirst: bool): nat -> seq<nat>
  {
    (q: nat) => if q <= |s| then ComponentEnds(s, q, percentFirst) else []
  }

  // The search, two functions per component: `...At` continues the match after
  // the component ends at `c`, and `Try...` tries the candidate ends in turn.
  // `ends` gives the candidates of the next component; `ComponentEnds` only
  // lists ends within `p + 1 .. |s|`, and any other end would be passed over.

  /** The alpha component ends at `c`: the match completes if `\s*\)$` follows. */
  function AlphaAt(s: string, p: nat, c: nat, got: Groups): (r: Option<Groups>)
    requires p < c <= |s| && |got| == 3
    ensures r.Some? ==> r.value == got + [Some(s[p..c])]
  {
    if ClosesAt(s, c) then Some(got + [Some(s[p..c])]) else None
  }

  function TryAlpha(s: string, p: nat, cands: seq<nat>, got: Groups): (r: Option<Groups>)
    requires p <= |s| && |got| == 3
    ensures r.Some? ==> |r.value| == 4 && r.value[..3] == got && r.value[3].Some?
    decreases |cands|
  {
    if |cands| == 0 then None
    else
      var here := if p < cands[0] <= |s| then AlphaAt(s, p, cands[0], got) else None;
      if here.Some? then here else TryAlpha(s, p, cands[1..], got)
  }

  /**
   * The blue component ends at `c`: the match continues with the optional alpha
   * group, and failing that, without it.
   */
  function BlueAt(s: string, ends: nat -> seq<nat>, p: nat, c: nat, got: Groups): (r: Option<Groups>)
    requires p < c <= |s| && |got| == 2
    ensures r.Some? ==> |r.value| == 4 && r.value[..3] == got + [Some(s[p..c])]
  {
    var g := got + [Some(s[p..c])];
    var withAlpha :=
      match AlphaSepEnd(s, c)
      case Some(q) => TryAlpha(s, q, ends(q), g)
      case None => None;
    if withAlpha.Some? then withAlpha
    else if ClosesAt(s, c) then Some(g + [None])
    else None
  }

  function TryBlue(s: string, ends: nat -> seq<nat>, p: nat, cands: seq<nat>, got: Groups): (r: Option<Groups>)
    requires p <= |s| && |got| == 2
    ensures r.Some? ==> |r.value| == 4 && r.value[..2] == got && r.value[2].Some?
    decreases |cands|
  {
    if |cands| == 0 then None
    else
      var here := if p < cands[0] <= |s| then BlueAt(s, ends, p, cands[0], got) else None;
      if here.Some? then here else TryBlue(s, ends, p, cands[1..], got)
  }

  /** The green component ends at `c`: the match continues with its separator and the blue component. */
  function GreenAt(s: string, ends: nat -> seq<nat>, p: nat, c: nat, got: Groups): (r: Option<Groups>)
    requires p < c <= |s| && |got| == 1
    ensures r.Some? ==> |r.value| == 4 && r.value[..2] == got + [Some(s[p..c])] && r.value[2].Some?
  {
    var q := ListSepEnd(s, c);
    TryBlue(s, ends, q, ends(q), got + [Some(s[p..c])])
  }

  function TryGreen(s: string, ends: nat -> seq<nat>, p: nat, cands: seq<nat>, got: Groups): (r: Option<Groups>)
    requires p <= |s| && |got| == 1
    ensures r.Some? ==> |r.value| == 4 && r.value[..1] == got && r.value[1].Some? && r.value[2].Some?
    decreases |cands|
  {
    if |cands| == 0 then None
    else
      var here := if p < cands[0] <= |s| then GreenAt(s, ends, p, cands[0], got) else None;
      if here.Some? then here else TryGreen(s, ends, p, cands[1..], got)
  }

  /** The red component ends at `c`: the match continues with its separator and the green component. */
  function RedAt(s: string, ends: nat -> seq<nat>, p: nat, c: nat): (r: Option<Groups>)
    requires p < c <= |s|
    ensures r.Some? ==> WellFormed(r.value) && r.value[0] == Some(s[p..c])
  {
    var q := ListSepEnd(s, c);
    TryGreen(s, ends, q, ends(q), [Some(s[p..c])])
  }

  function TryRed(s: string, ends: nat -> seq<nat>, p: nat, cands: seq<nat>): (r: Option<Groups>)
    requires p <= |s|
    ensures r.Some? ==> WellFormed(r.value)
    decreases |cands|
  {
    if |cands| == 0 then None
    else
      var here := if p < cands[0] <= |s| then RedAt(s, ends, p, cands[0]) else None;
      if here.Some? then here else TryRed(s, ends, p, cands[1..])
  }

  /** The groups of the one match of the pattern on `s` (it is anchored at both ends), if any. */
  function MatchRGBFunc(s: string, percentFirst: bool): (r: Option<Groups>)
    ensures r.Some? ==> WellFormed(r.value)
  {
    match PrefixEnd(s)
    case None => None
    case Some(p) => TryRed(s, Ends(s, percentFirst), p, ComponentEnds(s, p, percentFirst))
  }

  /** `regexpRGBFunc` as the library writes it: numbers are tried before percentages. */
  function WrittenMatch(s: string): (r: Option<Groups>)
    ensures r.Some? ==> WellFormed(r.value)
  {
    MatchRGBFunc(s, false)
  }

  /** The pattern with the percentage alternative ahead of the number alternative. */
  function CorrectedMatch(s: string): (r: Option<Groups>)
    ensures r.Some? ==> WellFormed(r.value)
  {
    MatchRGBFunc(s, true)
  }

  /** The matches `matchAll` finds for a pattern that matches `s` whole or not at all. */
  function WholeMatches(s: string, g: Option<Groups>): (r: seq<Match>)
    ensures |r| <= 1
    ensures CaptureFirst(r) == g
  {
    match g
    case None => []
    case Some(groups) => [Match(s, groups)]
  }

  // ---------------------------------------------------------------------------
  // The notation as written out, and the groups the pattern should capture.

  /** `\s*,?\s*` written out with at least one space or the comma. */
  datatype ListSep = ListSep(before: string, comma: bool, after: string)
  {
    predicate Valid() { AllSpaces(before) && AllSpaces(after) && (comma || |before| + |after| > 0) }
    function Text(): string { before + (if comma then "," else "") + after }
  }

  /** `\s*[,/]\s+` written out. */
  datatype AlphaSep = AlphaSep(before: string, slash: bool, after: string)
  {
    predicate Valid() { AllSpaces(before) && AllSpaces(after) && |after| > 0 }
    function Text(): string { before + (if slash then "/" else ",") + after }
  }

  /** A functional colour string: its name, spacing, components and separators. */
  datatype Notation = Notation(
    rgba: bool, lead: string,
    red: string, sep1: ListSep, green: string, sep2: ListSep, blue: string,
    alpha: Option<(AlphaSep, string)>, trail: string)
  {
    predicate Valid()
    {
      AllSpaces(lead) && AllSpaces(trail) && sep1.Valid() && sep2.Valid()
      && IsComponent(red) && IsComponent(green) && IsComponent(blue)
      && (alpha.Some? ==> alpha.value.0.Valid() && IsComponent(alpha.value.1))
    }

    predicate HasPercent()
    {
      IsUnsignedPercent(red) || IsUnsignedPercent(green) || IsUnsignedPercent(blue)
      || (alpha.Some? && IsUnsignedPercent(alpha.value.1))
    }

    function Tail(): string
    {
      (match alpha case Some(a) => a.0.Text() + a.1 case None => "") + trail + ")"
    }

    function Text(): string
    {
      (if rgba then "rgba(" else "rgb(") + lead + red + sep1.Text() + green + sep2.Text() + blue + Tail()
    }

    function Groups(): Groups
    {
      [Some(red), Some(green), Some(blue), match alpha case Some(a) => Some(a.1) case None => None]
    }
  }

  // ---------------------------------------------------------------------------
  // Properties

  /** The positions `hi`, `hi - 1`, ..., `lo + 1`. */
  function Countdown(hi: nat, lo: nat): (r: seq<nat>)
    requires lo <= hi
    ensures |r| == hi - lo
    ensures forall i | 0 <= i < |r| :: r[i] == hi - i
    decreases hi - lo
  {
    if hi == lo then [] else [hi] + Countdown(hi - 1, lo)
  }

  /** A run of digits is a mantissa. */
  lemma DigitsAreMantissa(t: string)
    requires IsDigits(t)
    ensures IsMantissa(t)
  {
    assert forall i | 0 <= i < |t| :: IsDigit(t[i]);
    assert LeadingDigits(t) == |t|;
  }

  /** A run of digits is a number. */
  lemma DigitsAreNumber(t: string)
    requires IsDigits(t)
    ensures IsNumber(t)
  {
    assert Unsigned(t) == t;
    IntegerIsNumber(t);
  }

  /** When every prefix up to `hi` is accepted, all of them are listed, longest first. */
  lemma {:induction false} AcceptedEndsAll(s: string, p: nat, hi: nat, accept: string -> bool)
    requires p <= hi <= |s|
    requires forall e | p < e <= hi :: accept(s[p..e])
    ensures AcceptedEnds(s, p, hi, accept) == Countdown(hi, p)
    decreases hi - p
  {
    if hi > p {
      AcceptedEndsAll(s, p, hi - 1, accept);
    }
  }

  /** Every prefix of a run of digits is a number, so all of them are candidates, longest first. */
  lemma DigitPrefixEnds(s: string, p: nat, hi: nat)
    requires p <= hi <= |s|
    requires forall i | p <= i < hi :: IsDigit(s[i])
    ensures AcceptedEnds(s, p, hi, IsNumber) == Countdown(hi, p)
  {
    forall e | p < e <= hi ensures IsNumber(s[p..e]) {
      assert IsDigits(s[p..e]) by {
        forall i | 0 <= i < e - p ensures IsDigit(s[p..e][i]) { assert s[p..e][i] == s[p + i]; }
      }
      DigitsAreNumber(s[p..e]);
    }
    AcceptedEndsAll(s, p, hi, IsNumber);
  }

  /**
   * The candidates for a component that is a run of digits followed by `%`:
   * every digit prefix, longest first, and the percentage either last (as
   * written) or first.
   */
  lemma DigitPercentEnds(s: string, p: nat, q: nat, percentFirst: bool)
    requires p < q < |s| && s[q] == '%'
    requires forall i | p <= i < q :: IsDigit(s[i])
    ensures ComponentEnds(s, p, percentFirst)
         == if percentFirst then [q + 1] + Countdown(q, p) else Countdown(q, p) + [q + 1]
  {
    assert NumberRun(s, p) == q && MantissaRun(s, p) == q;
    DigitPrefixEnds(s, p, q);
    var t := s[p..q];
    assert IsDigits(t) by {
      forall i | 0 <= i < q - p ensures IsDigit(t[i]) { assert t[i] == s[p + i]; }
    }
    DigitsAreMantissa(t);
    if p + 4 <= |s| {
      assert s[p..p + 4][0] == s[p];
    }
  }

  /** No component starts with `%`. */
  lemma NoComponentAtPercent(s: string, p: nat, percentFirst: bool)
    requires p < |s| && s[p] == '%'
    ensures ComponentEnds(s, p, percentFirst) == []
  {
    assert NumberRun(s, p) == p && MantissaRun(s, p) == p;
    assert !IsMantissa(s[p..p]);
  }

  /**
   * The strings `rgb(DD%,D%, D%)`, each `D` a decimal digit, such as
   * `rgb(10%,2%, 3%)`.
   */
  predicate SplitShape(s: string)
  {
    |s| == 15 && s[0] == 'r' && s[1] == 'g' && s[2] == 'b' && s[3] == '('
    && IsDigit(s[4]) && IsDigit(s[5]) && s[6] == '%' && s[7] == ','
    && IsDigit(s[8]) && s[9] == '%' && s[10] == ',' && s[11] == ' '
    && IsDigit(s[12]) && s[13] == '%' && s[14] == ')'
  }

  /** Where the separators of such a string end, and where the text may close. */
  lemma SplitShapeSeparators(s: string)
    requires SplitShape(s)
    ensures PrefixEnd(s) == Some(4)
    ensures ListSepEnd(s, 5) == 5 && ListSepEnd(s, 6) == 6 && ListSepEnd(s, 7) == 8
    ensures AlphaSepEnd(s, 9) == None && !ClosesAt(s, 9)
    ensures AlphaSepEnd(s, 10) == Some(12)
    ensures !ClosesAt(s, 13) && ClosesAt(s, 14)
  {
    assert s[..3] == ['r', 'g', 'b'];
  }

  /** One digit and `%`: the number is tried first, then the percentage. */
  lemma DigitPercentEndsAt(s: string, p: nat)
    requires p + 1 < |s| && IsDigit(s[p]) && s[p + 1] == '%'
    ensures ComponentEnds(s, p, false) == [p + 1, p + 2]
  {
    DigitPercentEnds(s, p, p + 1, false);
    assert Countdown(p + 1, p) == [p + 1];
  }

  /** Two digits and `%`: the longer number, the shorter one, then the percentage. */
  lemma TwoDigitsPercentEnds(s: string, p: nat)
    requires p + 2 < |s| && IsDigit(s[p]) && IsDigit(s[p + 1]) && s[p + 2] == '%'
    ensures ComponentEnds(s, p, false) == [p + 2, p + 1, p + 3]
  {
    DigitPercentEnds(s, p, p + 2, false);
    assert Countdown(p + 2, p) == [p + 2, p + 1];
  }

  // The candidates the matcher tries at each component start of such a string.

  lemma SplitShapeRedCandidates(s: string)
    requires SplitShape(s)
    ensures ComponentEnds(s, 4, false) == [6, 5, 7]
  {
    TwoDigitsPercentEnds(s, 4);
  }

  lemma SplitShapeGreenCandidates(s: string)
    requires SplitShape(s)
    ensures ComponentEnds(s, 5, false) == [6, 7]
    ensures ComponentEnds(s, 6, false) == []
  {
    DigitPercentEndsAt(s, 5);
    NoComponentAtPercent(s, 6, false);
  }

  lemma SplitShapeBlueCandidates(s: string)
    requires SplitShape(s)
    ensures ComponentEnds(s, 8, false) == [9, 10]
  {
    DigitPercentEndsAt(s, 8);
  }

  lemma SplitShapeAlphaCandidates(s: string)
    requires SplitShape(s)
    ensures ComponentEnds(s, 12, false) == [13, 14]
  {
    DigitPercentEndsAt(s, 12);
  }

  lemma SplitPercentAlpha(s: string, got: Groups)
    requires SplitShape(s) && |got| == 3
    ensures TryAlpha(s, 12, [13, 14], got) == Some(got + [Some(s[12..14])])
  {
    SplitShapeSeparators(s);
    assert AlphaAt(s, 12, 13, got) == None;
  }

  lemma SplitPercentBlue(s: string, ends: nat -> seq<nat>, got: Groups)
    requires SplitShape(s) && ends(12) == [13, 14] && |got| == 2
    ensures TryBlue(s, ends, 8, [9, 10], got) == Some(got + [Some(s[8..10]), Some(s[12..14])])
  {
    var g := got + [Some(s[8..10])];
    SplitShapeSeparators(s);
    assert BlueAt(s, ends, 8, 9, got) == None;
    SplitPercentAlpha(s, g);
    assert BlueAt(s, ends, 8, 10, got) == Some(g + [Some(s[12..14])]);
    assert g + [Some(s[12..14])] == got + [Some(s[8..10]), Some(s[12..14])];
  }

  lemma SplitPercentGreen(s: string, ends: nat -> seq<nat>, got: Groups)
    requires SplitShape(s) && ends(6) == [] && ends(8) == [9, 10] && ends(12) == [13, 14] && |got| == 1
    ensures TryGreen(s, ends, 5, [6, 7], got) == Some(got + [Some(s[5..7]), Some(s[8..10]), Some(s[12..14])])
  {
    var g := got + [Some(s[5..7])];
    SplitShapeSeparators(s);
    assert GreenAt(s, ends, 5, 6, got) == None;
    SplitPercentBlue(s, ends, g);
    assert GreenAt(s, ends, 5, 7, got) == Some(g + [Some(s[8..10]), Some(s[12..14])]);
    assert g + [Some(s[8..10]), Some(s[12..14])] == got + [Some(s[5..7]), Some(s[8..10]), Some(s[12..14])];
  }

  lemma SplitPercentRed(s: string, ends: nat -> seq<nat>)
    requires SplitShape(s) && ends(5) == [6, 7] && ends(6) == [] && ends(8) == [9, 10] && ends(12) == [13, 14]
    ensures TryRed(s, ends, 4, [6, 5, 7]) == Some([Some(s[4..5]), Some(s[5..7]), Some(s[8..10]), Some(s[12..14])])
  {
    SplitShapeSeparators(s);
    assert RedAt(s, ends, 4, 6) == None;
    SplitPercentGreen(s, ends, [Some(s[4..5])]);
    assert RedAt(s, ends, 4, 5) == Some([Some(s[4..5])] + [Some(s[5..7]), Some(s[8..10]), Some(s[12..14])]);
    assert [Some(s[4..5])] + [Some(s[5..7]), Some(s[8..10]), Some(s[12..14])]
        == [Some(s[4..5]), Some(s[5..7]), Some(s[8..10]), Some(s[12..14])];
    assert [6, 5, 7][1..] == [5, 7];
    assert TryRed(s, ends, 4, [5, 7]) == RedAt(s, ends, 4, 5);
  }

  /** The candidates of every component start of such a string. */
  lemma SplitShapeEnds(s: string)
    requires SplitShape(s)
    ensures Ends(s, false)(5) == [6, 7] && Ends(s, false)(6) == [] && Ends(s, false)(8) == [9, 10]
    ensures Ends(s, false)(12) == [13, 14]
  {
    SplitShapeGreenCandidates(s);
    SplitShapeBlueCandidates(s);
    SplitShapeAlphaCandidates(s);
  }

  /**
   * As written, the number alternative is tried before the percentage, and the
   * separators between the first three components may be empty; backtracking
   * therefore splits `DD%` into the red component `D` and the green component
   * `D%`, and the match succeeds with every component shifted by one: on
   * `rgb(10%,2%, 3%)` the groups are `1`, `0%`, `2%` and `3%`.
   */
  lemma WrittenMatchSplitsPercent(s: string)
    requires SplitShape(s)
    ensures WrittenMatch(s) == Some([Some(s[4..5]), Some(s[5..7]), Some(s[8..10]), Some(s[12..14])])
  {
    SplitShapeSeparators(s);
    SplitShapeRedCandidates(s);
    SplitShapeEnds(s);
    SplitPercentRed(s, Ends(s, false));
  }
}
