/**
 * The functional notation read back: a well-formed `rgb()` / `rgba()` string
 * whose separators are not empty matches `regexpRGBFunc` with exactly the
 * components it was written with, provided percentages are tried before
 * numbers or no component is a percentage.
 */
module RGBFuncRoundTrip {
  import opened Wrappers
  import opened Text
  import opened Regexps
  import opened RGBFuncRegexp

  /** The characters that can follow a component: white space, `,`, `/` and `)`. */
  predicate IsStop(c: char) { IsSpace(c) || c == ',' || c == '/' || c == ')' }

  // ---------------------------------------------------------------------------
  // The runs the matcher scans

  lemma {:induction false} NumberRunOver(s: string, p: nat, q: nat)
    requires p <= q < |s|
    requires forall i | p <= i < q :: IsNumberChar(s[i])
    requires !IsNumberChar(s[q])
    ensures NumberRun(s, p) == q
    decreases q - p
  {
    if p < q {
      NumberRunOver(s, p + 1, q);
    }
  }

  /** A stop character cannot be part of a component. */
  lemma StopIsNotComponentChar(c: char)
    requires IsStop(c)
    ensures !IsNumberChar(c) && c != '.' && c != '%'
  {
  }

  /** A component starts with a character that is neither white space nor a separator. */
  lemma ComponentHead(t: string)
    requires IsComponent(t)
    ensures |t| > 0 && !IsStop(t[0])
  {
    if IsNumber(t) {
      NumberChars(t);
    } else if IsUnsignedPercent(t) {
      var u := t[..|t| - 1];
      MantissaChars(u);
      assert t[0] == u[0];
    }
  }

  // ---------------------------------------------------------------------------
  // The first candidate is the component as written

  lemma NoKeywordAt(s: string, p: nat)
    requires p < |s| && (IsNumberChar(s[p]) || s[p] == '.')
    ensures KeywordEnd(s, p) == []
  {
    if p + 4 <= |s| {
      assert s[p..p + 4][0] == s[p];
    }
  }

  lemma KeywordFirst(s: string, p: nat, e: nat)
    requires p < e <= |s| && IsNoneKeyword(s[p..e])
    ensures KeywordEnd(s, p) == [e]
  {
  }

  lemma AcceptedEndsFirst(s: string, p: nat, hi: nat, accept: string -> bool)
    requires p < hi <= |s| && accept(s[p..hi])
    ensures |AcceptedEnds(s, p, hi, accept)| > 0 && AcceptedEnds(s, p, hi, accept)[0] == hi
  {
  }

  /** A number followed by a stop: the longest number candidate is the whole of it, and there is no percentage. */
  lemma NumberFirst(s: string, p: nat, e: nat)
    requires p < e < |s| && IsNumber(s[p..e]) && IsStop(s[e])
    ensures |NumberEnds(s, p)| > 0 && NumberEnds(s, p)[0] == e
    ensures PercentEnd(s, p) == [] && KeywordEnd(s, p) == []
  {
    var t := s[p..e];
    NumberChars(t);
    StopIsNotComponentChar(s[e]);
    forall i | p <= i < e ensures IsNumberChar(s[i]) {
      assert s[i] == t[i - p];
    }
    NumberRunOver(s, p, e);
    AcceptedEndsFirst(s, p, e, IsNumber);
    NoKeywordAt(s, p);
    NoPercentBefore(s, p, e);
  }

  /** No percentage starts where a run of number characters ends at a character that cannot continue one. */
  lemma NoPercentBefore(s: string, p: nat, e: nat)
    requires p <= e < |s| && forall i | p <= i < e :: IsNumberChar(s[i])
    requires !IsNumberChar(s[e]) && s[e] != '.' && s[e] != '%'
    ensures PercentEnd(s, p) == []
  {
    var m := MantissaRun(s, p);
    assert m <= e;
  }

  /** A percentage: its end is the one percentage candidate, and `none` is not a candidate. */
  lemma PercentFirst(s: string, p: nat, e: nat)
    requires p < e <= |s| && IsUnsignedPercent(s[p..e])
    ensures PercentEnd(s, p) == [e] && KeywordEnd(s, p) == []
  {
    PercentAfterRun(s, p, e);
    var t := s[p..e];
    MantissaChars(t[..|t| - 1]);
    assert s[p] == t[..|t| - 1][0];
    NoKeywordAt(s, p);
  }

  /**
   * A component followed by a stop is the first candidate the matcher tries,
   * unless it is a percentage and numbers are tried first.
   */
  lemma FirstEnd(s: string, p: nat, e: nat, percentFirst: bool)
    requires p < e < |s| && IsComponent(s[p..e]) && IsStop(s[e])
    requires percentFirst || !IsUnsignedPercent(s[p..e])
    ensures |ComponentEnds(s, p, percentFirst)| > 0 && ComponentEnds(s, p, percentFirst)[0] == e
  {
    var t := s[p..e];
    if IsNoneKeyword(t) {
      KeywordFirst(s, p, e);
    } else if IsNumber(t) {
      NumberFirst(s, p, e);
    } else {
      PercentFirst(s, p, e);
    }
  }

  /** The same, for the candidates `Ends` hands to the search. */
  lemma FirstEndOf(s: string, p: nat, e: nat, percentFirst: bool)
    requires p < e < |s| && IsComponent(s[p..e]) && IsStop(s[e])
    requires percentFirst || !IsUnsignedPercent(s[p..e])
    ensures |Ends(s, percentFirst)(p)| > 0 && Ends(s, percentFirst)(p)[0] == e
  {
    FirstEnd(s, p, e, percentFirst);
  }

  // ---------------------------------------------------------------------------
  // Separators as written are crossed whole

  lemma ListSepStarts(sep: ListSep)
    requires sep.Valid()
    ensures |sep.Text()| > 0 && IsStop(sep.Text()[0])
  {
  }

  lemma AlphaSepStarts(a: AlphaSep)
    requires a.Valid()
    ensures |a.Text()| > 0 && IsStop(a.Text()[0])
  {
  }

  lemma ListSepOver(s: string, e: nat, sep: ListSep, q: nat)
    requires sep.Valid() && e <= q < |s| && s[e..q] == sep.Text()
    requires !IsStop(s[q])
    ensures ListSepEnd(s, e) == q
  {
    var b := |sep.before|;
    var t := sep.Text();
    forall i | e <= i < e + b ensures IsSpace(s[i]) {
      assert s[i] == t[i - e];
    }
    if sep.comma {
      assert s[e + b] == t[b];
      forall i | e + b + 1 <= i < q ensures IsSpace(s[i]) {
        assert s[i] == t[i - e];
      }
      SkipSpacesOver(s, e, e + b);
      SkipSpacesOver(s, e + b + 1, q);
    } else {
      forall i | e <= i < q ensures IsSpace(s[i]) {
        assert s[i] == t[i - e];
      }
      SkipSpacesOver(s, e, q);
    }
  }

  lemma AlphaSepOver(s: string, e: nat, a: AlphaSep, q: nat)
    requires a.Valid() && e <= q < |s| && s[e..q] == a.Text()
    requires !IsStop(s[q])
    ensures AlphaSepEnd(s, e) == Some(q)
  {
    var b := |a.before|;
    var t := a.Text();
    forall i | e <= i < e + b ensures IsSpace(s[i]) {
      assert s[i] == t[i - e];
    }
    assert s[e + b] == t[b];
    forall i | e + b + 1 <= i < q ensures IsSpace(s[i]) {
      assert s[i] == t[i - e];
    }
    SkipSpacesOver(s, e, e + b);
    SkipSpacesOver(s, e + b + 1, q);
  }

  /** Trailing white space and `)` close the match, and leave no room for the alpha separator. */
  lemma ClosesOver(s: string, e: nat, trail: string)
    requires e <= |s| && AllSpaces(trail) && s[e..] == trail + ")"
    ensures ClosesAt(s, e) && AlphaSepEnd(s, e) == None
  {
    forall i | e <= i < e + |trail| ensures IsSpace(s[i]) {
      assert s[i] == s[e..][i - e];
    }
    assert s[e + |trail|] == s[e..][|trail|];
    SkipSpacesOver(s, e, e + |trail|);
  }

  // ---------------------------------------------------------------------------
  // The search succeeds at its first candidate at every level

  lemma AlphaLevel(s: string, p: nat, cands: seq<nat>, got: Groups)
    requires |cands| > 0 && p < cands[0] <= |s| && |got| == 3
    requires ClosesAt(s, cands[0])
    ensures TryAlpha(s, p, cands, got) == Some(got + [Some(s[p..cands[0]])])
  {
  }

  lemma BlueLevelWithAlpha(s: string, ends: nat -> seq<nat>, p: nat, cands: seq<nat>, got: Groups, q: nat)
    requires |cands| > 0 && p < cands[0] <= |s| && |got| == 2
    requires AlphaSepEnd(s, cands[0]) == Some(q)
    requires |ends(q)| > 0 && q < ends(q)[0] <= |s| && ClosesAt(s, ends(q)[0])
    ensures TryBlue(s, ends, p, cands, got) == Some(got + [Some(s[p..cands[0]]), Some(s[q..ends(q)[0]])])
  {
    var g := got + [Some(s[p..cands[0]])];
    AlphaLevel(s, q, ends(q), g);
    assert g + [Some(s[q..ends(q)[0]])] == got + [Some(s[p..cands[0]]), Some(s[q..ends(q)[0]])];
  }

  lemma BlueLevelWithoutAlpha(s: string, ends: nat -> seq<nat>, p: nat, cands: seq<nat>, got: Groups)
    requires |cands| > 0 && p < cands[0] <= |s| && |got| == 2
    requires AlphaSepEnd(s, cands[0]) == None && ClosesAt(s, cands[0])
    ensures TryBlue(s, ends, p, cands, got) == Some(got + [Some(s[p..cands[0]]), None])
  {
    var g := got + [Some(s[p..cands[0]])];
    assert g + [None] == got + [Some(s[p..cands[0]]), None];
  }

  lemma GreenLevel(s: string, ends: nat -> seq<nat>, p: nat, cands: seq<nat>, got: Groups, r: Groups)
    requires |cands| > 0 && p < cands[0] <= |s| && |got| == 1
    requires TryBlue(s, ends, ListSepEnd(s, cands[0]), ends(ListSepEnd(s, cands[0])), got + [Some(s[p..cands[0]])]) == Some(r)
    ensures TryGreen(s, ends, p, cands, got) == Some(r)
  {
  }

  lemma RedLevel(s: string, ends: nat -> seq<nat>, p: nat, cands: seq<nat>, r: Groups)
    requires |cands| > 0 && p < cands[0] <= |s|
    requires TryGreen(s, ends, ListSepEnd(s, cands[0]), ends(ListSepEnd(s, cands[0])), [Some(s[p..cands[0]])]) == Some(r)
    ensures TryRed(s, ends, p, cands) == Some(r)
  {
  }

  // ---------------------------------------------------------------------------
  // The notation read back

  /** The group of the alpha component as written. */
  function AlphaGroup(n: Notation): Option<string>
  {
    match n.alpha case Some(a) => Some(a.1) case None => None
  }

  /** A component written at `p` and followed by a stop is the first candidate there. */
  lemma ComponentAt(s: string, p: nat, t: string, next: string, percentFirst: bool)
    requires At(s, p, t) && At(s, p + |t|, next) && |next| > 0 && IsStop(next[0])
    requires IsComponent(t) && (percentFirst || !IsUnsignedPercent(t))
    ensures FirstIs(Ends(s, percentFirst), p, p + |t|)
  {
    ComponentHead(t);
    var e := p + |t|;
    assert s[p..e] == t;
    assert IsStop(s[e]) by { AtChar(s, e, next, 0); }
    FirstEndOf(s, p, e, percentFirst);
  }

  /** A list separator written at `e` and followed by a component is crossed whole. */
  lemma ListSepAt(s: string, e: nat, sep: ListSep, next: string)
    requires sep.Valid() && At(s, e, sep.Text()) && At(s, e + |sep.Text()|, next) && StartsComponent(next)
    ensures ListSepEnd(s, e) == e + |sep.Text()|
  {
    AtChar(s, e + |sep.Text()|, next, 0);
    ListSepOver(s, e, sep, e + |sep.Text()|);
  }

  /** A component can start with the character `t` starts with. */
  predicate StartsComponent(t: string)
  {
    |t| > 0 && !IsStop(t[0])
  }

  /** The same for the separator before the alpha component. */
  lemma AlphaSepAt(s: string, e: nat, a: AlphaSep, next: string)
    requires a.Valid() && At(s, e, a.Text()) && At(s, e + |a.Text()|, next) && StartsComponent(next)
    ensures AlphaSepEnd(s, e) == Some(e + |a.Text()|)
  {
    AtChar(s, e + |a.Text()|, next, 0);
    AlphaSepOver(s, e, a, e + |a.Text()|);
  }

  /** White space and `)` written at `e`, at the end of `s`. */
  lemma TrailAt(s: string, e: nat, trail: string)
    requires AllSpaces(trail) && At(s, e, trail + ")") && e + |trail| + 1 == |s|
    ensures ClosesAt(s, e) && AlphaSepEnd(s, e) == None
  {
    ClosesOver(s, e, trail);
  }

  lemma TailStarts(n: Notation)
    requires AllSpaces(n.trail) && (n.alpha.Some? ==> n.alpha.value.0.Valid())
    ensures |n.Tail()| > 0 && IsStop(n.Tail()[0])
  {
    match n.alpha
    case Some(a) =>
      AlphaSepStarts(a.0);
      assert n.Tail()[0] == a.0.Text()[0];
    case None =>
  }

  /**
   * When every component's first candidate is the one written and each separator
   * is crossed whole, the search returns the components as written.
   */
  lemma SearchFirst(s: string, ends: nat -> seq<nat>, p0: nat, e0: nat, p1: nat, e1: nat, p2: nat, e2: nat, last: Option<(nat, nat)>)
    requires p0 < e0 <= p1 < e1 <= p2 < e2 <= |s|
    requires |ends(p0)| > 0 && ends(p0)[0] == e0 && ListSepEnd(s, e0) == p1
    requires |ends(p1)| > 0 && ends(p1)[0] == e1 && ListSepEnd(s, e1) == p2
    requires |ends(p2)| > 0 && ends(p2)[0] == e2
    requires last.Some? ==>
      last.value.0 < last.value.1 <= |s| && AlphaSepEnd(s, e2) == Some(last.value.0)
      && |ends(last.value.0)| > 0 && ends(last.value.0)[0] == last.value.1 && ClosesAt(s, last.value.1)
    requires last.None? ==> AlphaSepEnd(s, e2) == None && ClosesAt(s, e2)
    ensures TryRed(s, ends, p0, ends(p0))
      == Some([Some(s[p0..e0]), Some(s[p1..e1]), Some(s[p2..e2]), if last.Some? then Some(s[last.value.0..last.value.1]) else None])
  {
    var g1 := [Some(s[p0..e0])];
    var g2 := g1 + [Some(s[p1..e1])];
    var a := if last.Some? then Some(s[last.value.0..last.value.1]) else None;
    if last.Some? {
      BlueLevelWithAlpha(s, ends, p2, ends(p2), g2, last.value.0);
    } else {
      BlueLevelWithoutAlpha(s, ends, p2, ends(p2), g2);
    }
    var r := g2 + [Some(s[p2..e2]), a];
    assert r == [Some(s[p0..e0]), Some(s[p1..e1]), Some(s[p2..e2]), a];
    GreenLevel(s, ends, p1, ends(p1), g1, r);
    RedLevel(s, ends, p0, ends(p0), r);
  }

  /** The name of the notation as written. */
  function Opening(rgba: bool): string
  {
    if rgba then "rgba(" else "rgb("
  }

  /** The name, `(` and leading white space are crossed, and the first component starts after them. */
  lemma PrefixAt(s: string, rgba: bool, lead: string, next: string)
    requires AllSpaces(lead) && At(s, 0, Opening(rgba) + lead + next) && StartsComponent(next)
    ensures PrefixEnd(s) == Some(|Opening(rgba)| + |lead|)
  {
    var o := Opening(rgba);
    var k := |o|;
    AtSplit(s, 0, o + lead, next);
    AtSplit(s, 0, o, lead);
    forall i | 0 <= i < k ensures s[i] == o[i] {
      AtChar(s, 0, o, i);
    }
    assert s[..3] == "rgb";
    forall i | k <= i < k + |lead| ensures IsSpace(s[i]) {
      AtChar(s, k, lead, i - k);
    }
    AtChar(s, k + |lead|, next, 0);
    SkipSpacesOver(s, k, k + |lead|);
  }

  // Where each piece of the notation starts and ends in its text.
  function RedStart(n: Notation): nat { |Opening(n.rgba)| + |n.lead| }
  function RedEnd(n: Notation): nat { RedStart(n) + |n.red| }
  function GreenStart(n: Notation): nat { RedEnd(n) + |n.sep1.Text()| }
  function GreenEnd(n: Notation): nat { GreenStart(n) + |n.green| }
  function BlueStart(n: Notation): nat { GreenEnd(n) + |n.sep2.Text()| }
  function BlueEnd(n: Notation): nat { BlueStart(n) + |n.blue| }
  function AlphaStart(n: Notation): nat
    requires n.alpha.Some?
  {
    BlueEnd(n) + |n.alpha.value.0.Text()|
  }
  function AlphaEnd(n: Notation): nat
    requires n.alpha.Some?
  {
    AlphaStart(n) + |n.alpha.value.1|
  }

  /** The pieces of `n` lie one after the other in `s`. */
  predicate LaidOut(n: Notation, s: string)
  {
    At(s, 0, Opening(n.rgba) + n.lead + n.red)
    && At(s, RedStart(n), n.red) && At(s, RedEnd(n), n.sep1.Text())
    && At(s, GreenStart(n), n.green) && At(s, GreenEnd(n), n.sep2.Text())
    && At(s, BlueStart(n), n.blue) && At(s, BlueEnd(n), n.Tail())
    && BlueEnd(n) + |n.Tail()| == |s|
  }

  /** The pieces of the notation lie one after the other in its text. */
  lemma TextLayout(n: Notation)
    ensures LaidOut(n, n.Text())
  {
    var s := n.Text();
    var o, S1, S2 := Opening(n.rgba), n.sep1.Text(), n.sep2.Text();
    Consecutive(s, o, n.lead, n.red, S1, n.green, S2, n.blue, n.Tail());
    assert RedStart(n) == |o| + |n.lead|;
    assert RedEnd(n) == |o| + |n.lead| + |n.red|;
    assert GreenStart(n) == |o| + |n.lead| + |n.red| + |S1|;
    assert GreenEnd(n) == |o| + |n.lead| + |n.red| + |S1| + |n.green|;
    assert BlueStart(n) == |o| + |n.lead| + |n.red| + |S1| + |n.green| + |S2|;
    assert BlueEnd(n) == |o| + |n.lead| + |n.red| + |S1| + |n.green| + |S2| + |n.blue|;
  }

  /** Eight strings written one after the other, each at the sum of the lengths before it. */
  lemma Consecutive(s: string, a: string, b: string, c: string, d: string, e: string, f: string, g: string, h: string)
    requires s == a + b + c + d + e + f + g + h
    ensures At(s, 0, a + b + c) && At(s, |a| + |b|, c) && At(s, |a| + |b| + |c|, d)
    ensures At(s, |a| + |b| + |c| + |d|, e) && At(s, |a| + |b| + |c| + |d| + |e|, f)
    ensures At(s, |a| + |b| + |c| + |d| + |e| + |f|, g) && At(s, |a| + |b| + |c| + |d| + |e| + |f| + |g|, h)
    ensures |a| + |b| + |c| + |d| + |e| + |f| + |g| + |h| == |s|
  {
    var x := a + b + c + d;
    assert At(s, 0, x + e + f + g + h) by {
      assert At(s, 0, s);
    }
    PeelBack(s, x, e, f, g, h);
    PeelFront(s, a, b, c, d);
    assert |x| == |a| + |b| + |c| + |d|;
  }

  /** The last four of five strings laid out from the start of `s`. */
  lemma PeelBack(s: string, x: string, e: string, f: string, g: string, h: string)
    requires At(s, 0, x + e + f + g + h)
    ensures At(s, 0, x) && At(s, |x|, e) && At(s, |x| + |e|, f)
    ensures At(s, |x| + |e| + |f|, g) && At(s, |x| + |e| + |f| + |g|, h)
  {
    assert At(s, 0, x + e + f + g) && At(s, |x + e + f + g|, h) by { AtSplit(s, 0, x + e + f + g, h); }
    assert At(s, 0, x + e + f) && At(s, |x + e + f|, g) by { AtSplit(s, 0, x + e + f, g); }
    assert At(s, 0, x + e) && At(s, |x + e|, f) by { AtSplit(s, 0, x + e, f); }
    AtSplit(s, 0, x, e);
  }

  /** The first four strings laid out from the start of `s`. */
  lemma PeelFront(s: string, a: string, b: string, c: string, d: string)
    requires At(s, 0, a + b + c + d)
    ensures At(s, 0, a + b + c) && At(s, |a| + |b|, c) && At(s, |a| + |b| + |c|, d)
  {
    assert At(s, 0, a + b + c) && At(s, |a + b + c|, d) by { AtSplit(s, 0, a + b + c, d); }
    AtSplit(s, 0, a + b, c);
  }

  /** The alpha separator, the alpha component and the close, when an alpha component is written. */
  lemma TailLayout(n: Notation, s: string)
    requires n.alpha.Some? && At(s, BlueEnd(n), n.Tail()) && BlueEnd(n) + |n.Tail()| == |s|
    ensures At(s, BlueEnd(n), n.alpha.value.0.Text()) && At(s, AlphaStart(n), n.alpha.value.1)
    ensures At(s, AlphaEnd(n), n.trail + ")") && AlphaEnd(n) + |n.trail| + 1 == |s|
  {
    var a := n.alpha.value;
    assert n.Tail() == a.0.Text() + a.1 + (n.trail + ")");
    AtSplit(s, BlueEnd(n), a.0.Text() + a.1, n.trail + ")");
    AtSplit(s, BlueEnd(n), a.0.Text(), a.1);
  }

  /** `ends` tries first, at `p`, the end `e`. */
  predicate FirstIs(ends: nat -> seq<nat>, p: nat, e: nat)
  {
    |ends(p)| > 0 && ends(p)[0] == e
  }

  lemma RedEnds(n: Notation, s: string, percentFirst: bool)
    requires n.sep1.Valid() && IsComponent(n.red) && (percentFirst || !IsUnsignedPercent(n.red))
    requires At(s, RedStart(n), n.red) && At(s, RedEnd(n), n.sep1.Text())
    ensures FirstIs(Ends(s, percentFirst), RedStart(n), RedEnd(n))
  {
    ListSepStarts(n.sep1);
    ComponentAt(s, RedStart(n), n.red, n.sep1.Text(), percentFirst);
  }

  lemma GreenEnds(n: Notation, s: string, percentFirst: bool)
    requires n.sep2.Valid() && IsComponent(n.green) && (percentFirst || !IsUnsignedPercent(n.green))
    requires At(s, GreenStart(n), n.green) && At(s, GreenEnd(n), n.sep2.Text())
    ensures FirstIs(Ends(s, percentFirst), GreenStart(n), GreenEnd(n))
  {
    ListSepStarts(n.sep2);
    ComponentAt(s, GreenStart(n), n.green, n.sep2.Text(), percentFirst);
  }

  lemma BlueEnds(n: Notation, s: string, percentFirst: bool)
    requires AllSpaces(n.trail) && (n.alpha.Some? ==> n.alpha.value.0.Valid())
    requires IsComponent(n.blue) && (percentFirst || !IsUnsignedPercent(n.blue))
    requires At(s, BlueStart(n), n.blue) && At(s, BlueEnd(n), n.Tail())
    ensures FirstIs(Ends(s, percentFirst), BlueStart(n), BlueEnd(n))
  {
    TailStarts(n);
    ComponentAt(s, BlueStart(n), n.blue, n.Tail(), percentFirst);
  }

  lemma AlphaEnds(n: Notation, s: string, percentFirst: bool)
    requires n.alpha.Some? && AllSpaces(n.trail) && IsComponent(n.alpha.value.1) && (percentFirst || !IsUnsignedPercent(n.alpha.value.1))
    requires At(s, BlueEnd(n), n.Tail()) && BlueEnd(n) + |n.Tail()| == |s|
    ensures FirstIs(Ends(s, percentFirst), AlphaStart(n), AlphaEnd(n))
  {
    TailLayout(n, s);
    ComponentAt(s, AlphaStart(n), n.alpha.value.1, n.trail + ")", percentFirst);
  }

  /** The list separators as written are crossed whole. */
  lemma FirstSeparator(n: Notation, s: string)
    requires n.sep1.Valid() && StartsComponent(n.green)
    requires At(s, RedEnd(n), n.sep1.Text()) && At(s, GreenStart(n), n.green)
    ensures ListSepEnd(s, RedEnd(n)) == GreenStart(n)
  {
    ListSepAt(s, RedEnd(n), n.sep1, n.green);
  }

  lemma SecondSeparator(n: Notation, s: string)
    requires n.sep2.Valid() && StartsComponent(n.blue)
    requires At(s, GreenEnd(n), n.sep2.Text()) && At(s, BlueStart(n), n.blue)
    ensures ListSepEnd(s, GreenEnd(n)) == BlueStart(n)
  {
    ListSepAt(s, GreenEnd(n), n.sep2, n.blue);
  }

  /** After the blue component: the alpha separator as written, or the close. */
  lemma TailSeparators(n: Notation, s: string)
    requires AllSpaces(n.trail) && (n.alpha.Some? ==> n.alpha.value.0.Valid() && StartsComponent(n.alpha.value.1))
    requires At(s, BlueEnd(n), n.Tail()) && BlueEnd(n) + |n.Tail()| == |s|
    ensures n.alpha.Some? ==>
      AlphaEnd(n) <= |s| && AlphaSepEnd(s, BlueEnd(n)) == Some(AlphaStart(n)) && ClosesAt(s, AlphaEnd(n))
    ensures n.alpha.None? ==> AlphaSepEnd(s, BlueEnd(n)) == None && ClosesAt(s, BlueEnd(n))
  {
    if n.alpha.Some? {
      var a := n.alpha.value;
      assert n.Tail() == a.0.Text() + a.1 + (n.trail + ")");
      AlphaTail(s, BlueEnd(n), a.0, a.1, n.trail);
    } else {
      assert n.Tail() == n.trail + ")";
      TrailAt(s, BlueEnd(n), n.trail);
    }
  }

  /** An alpha separator, a component and the close, written from `e` to the end of `s`. */
  lemma AlphaTail(s: string, e: nat, a: AlphaSep, v: string, trail: string)
    requires a.Valid() && StartsComponent(v) && AllSpaces(trail)
    requires At(s, e, a.Text() + v + (trail + ")")) && e + |a.Text()| + |v| + |trail| + 1 == |s|
    ensures AlphaSepEnd(s, e) == Some(e + |a.Text()|) && ClosesAt(s, e + |a.Text()| + |v|)
  {
    var m := e + |a.Text()|;
    assert At(s, e, a.Text()) && At(s, m, v) && At(s, m + |v|, trail + ")") by {
      AtSplit(s, e, a.Text() + v, trail + ")");
      AtSplit(s, e, a.Text(), v);
    }
    assert AlphaSepEnd(s, e) == Some(m) by {
      AlphaSepAt(s, e, a, v);
    }
    TrailAt(s, m + |v|, trail);
  }

  /** The groups the search returns, read off the text, are the components as written. */
  lemma GroupsAsWritten(n: Notation, s: string)
    requires Shaped(n) && At(s, RedStart(n), n.red) && At(s, GreenStart(n), n.green) && At(s, BlueStart(n), n.blue)
    requires At(s, BlueEnd(n), n.Tail()) && BlueEnd(n) + |n.Tail()| == |s|
    ensures RedStart(n) < RedEnd(n) <= GreenStart(n) < GreenEnd(n) <= BlueStart(n) < BlueEnd(n) <= |s|
    ensures n.alpha.Some? ==> AlphaStart(n) < AlphaEnd(n) <= |s|
    ensures [Some(s[RedStart(n)..RedEnd(n)]), Some(s[GreenStart(n)..GreenEnd(n)]), Some(s[BlueStart(n)..BlueEnd(n)]),
             if n.alpha.Some? then Some(s[AlphaStart(n)..AlphaEnd(n)]) else None] == n.Groups()
  {
    var r, g, b := s[RedStart(n)..RedEnd(n)], s[GreenStart(n)..GreenEnd(n)], s[BlueStart(n)..BlueEnd(n)];
    assert r == n.red && g == n.green && b == n.blue;
    var last := None;
    if n.alpha.Some? {
      assert AlphaStart(n) < AlphaEnd(n) <= |s| && s[AlphaStart(n)..AlphaEnd(n)] == n.alpha.value.1 by {
        TailLayout(n, s);
      }
      last := Some(s[AlphaStart(n)..AlphaEnd(n)]);
    }
    GroupsOf(n, r, g, b, last);
  }

  /** What the search needs of a notation besides its components' grammar. */
  predicate Shaped(n: Notation)
  {
    n.sep1.Valid() && n.sep2.Valid() && AllSpaces(n.trail)
    && StartsComponent(n.red) && StartsComponent(n.green) && StartsComponent(n.blue)
    && (n.alpha.Some? ==> n.alpha.value.0.Valid() && StartsComponent(n.alpha.value.1))
  }

  lemma ValidShaped(n: Notation)
    requires n.Valid()
    ensures Shaped(n)
  {
    ComponentHead(n.red);
    ComponentHead(n.green);
    ComponentHead(n.blue);
    if n.alpha.Some? {
      ComponentHead(n.alpha.value.1);
    }
  }

  /** The groups of a notation, from its components. */
  lemma GroupsOf(n: Notation, r: string, g: string, b: string, last: Option<string>)
    requires r == n.red && g == n.green && b == n.blue
    requires last == if n.alpha.Some? then Some(n.alpha.value.1) else None
    ensures [Some(r), Some(g), Some(b), last] == n.Groups()
  {
  }

  /**
   * The search over any candidate lists whose first entries are the
   * components as written returns the components as written.
   */
  lemma SearchNotation(n: Notation, s: string, ends: nat -> seq<nat>)
    requires Shaped(n) && LaidOut(n, s)
    requires FirstIs(ends, RedStart(n), RedEnd(n)) && FirstIs(ends, GreenStart(n), GreenEnd(n))
    requires FirstIs(ends, BlueStart(n), BlueEnd(n))
    requires n.alpha.Some? ==> FirstIs(ends, AlphaStart(n), AlphaEnd(n))
    ensures TryRed(s, ends, RedStart(n), ends(RedStart(n))) == Some(n.Groups())
  {
    FirstSeparator(n, s);
    SecondSeparator(n, s);
    TailSeparators(n, s);
    GroupsAsWritten(n, s);
    var last := if n.alpha.Some? then Some((AlphaStart(n), AlphaEnd(n))) else None;
    SearchFirst(s, ends, RedStart(n), RedEnd(n), GreenStart(n), GreenEnd(n), BlueStart(n), BlueEnd(n), last);
  }

  /** Once the prefix is read, the match is the search from the first component. */
  lemma MatchFromPrefix(s: string, percentFirst: bool, p: nat)
    requires PrefixEnd(s) == Some(p)
    ensures p <= |s|
    ensures MatchRGBFunc(s, percentFirst) == TryRed(s, Ends(s, percentFirst), p, Ends(s, percentFirst)(p))
  {
  }

  /**
   * Round trip of the functional notation: a well-formed `rgb()` / `rgba()`
   * string is matched with exactly the components it was written with, when
   * percentages are tried before numbers or no component is a percentage.
   */
  lemma ReadBack(n: Notation, percentFirst: bool)
    requires n.Valid() && (percentFirst || !n.HasPercent())
    ensures MatchRGBFunc(n.Text(), percentFirst) == Some(n.Groups())
  {
    var s := n.Text();
    TextLayout(n);
    ValidShaped(n);
    assert PrefixEnd(s) == Some(RedStart(n)) by {
      PrefixAt(s, n.rgba, n.lead, n.red);
    }
    MatchFromPrefix(s, percentFirst, RedStart(n));
    RedEnds(n, s, percentFirst);
    GreenEnds(n, s, percentFirst);
    BlueEnds(n, s, percentFirst);
    if n.alpha.Some? {
      AlphaEnds(n, s, percentFirst);
    }
    SearchNotation(n, s, Ends(s, percentFirst));
  }
}
