/**
 * The HSL colour of `src/HSL.ts`: hue in degrees, saturation, lightness and
 * alpha as unit numbers.  `apply` builds the tuple from loosely typed
 * arguments; `set`, `setAlpha`, `get`, `toArray` and `toObject` work on it.
 * The constructor of `ColorHSL` stores none of its arguments, so each
 * operation is modelled by the tuple it computes.  The `wrap` helper that
 * folds a hue into range is a parameter: its definition is not part of this
 * model.
 */
module HSL {
  import opened Wrappers
  import opened Text
  import opened MathUtils
  import opened Params

  /** Hue, saturation, lightness and alpha. */
  datatype HSLA = HSLA(hue: real, saturation: real, lightness: real, alpha: real)
  {
    /** `get(index)`: the component at `index` (0 hue, 1 saturation, 2 lightness, 3 alpha), 0 elsewhere. */
    function Get(index: int): (x: real)
      ensures !(0 <= index < 4) ==> x == 0.0
    {
      if index == 0 then hue
      else if index == 1 then saturation
      else if index == 2 then lightness
      else if index == 3 then alpha
      else 0.0
    }

    /** `forceAlpha || alpha !== 1.0` */
    predicate ShowsAlpha(forceAlpha: bool)
    {
      forceAlpha || alpha != 1.0
    }

    /** Saturation, lightness and alpha are unit numbers. */
    predicate UnitParts()
    {
      0.0 <= saturation <= 1.0 && 0.0 <= lightness <= 1.0 && 0.0 <= alpha <= 1.0
    }
  }

  /** The `TypeError` `apply` throws: the index and the argument it could not use. */
  datatype HSLError = InvalidComponent(index: nat, token: Param)

  /** The tuple `apply` starts from. */
  const Default: seq<real> := [0.0, 0.0, 0.0, 1.0]

  /** The kinds the component at `ind` accepts: no percentage for the hue. */
  predicate Accepts(ind: nat, kind: ParameterType)
  {
    if ind == 0 then kind == Float || kind == Integer || kind == NoneKind
    else kind == Float || kind == Integer || kind == Percentage || kind == NoneKind
  }

  /**
   * The value `apply` stores at `ind` < 4 for a converted argument: a number
   * hue is wrapped, a saturation or lightness clamped, a number alpha clamped
   * and a percentage alpha stored as it is; `none` is 0; anything else throws.
   */
  function SlotValue(ind: nat, p: ParamConvertResults, wrap: real -> real): (r: Result<real, HSLError>)
    requires ind < 4
    ensures r.Success? <==> Accepts(ind, p.kind)
    ensures r.Failure? ==> r.error == InvalidComponent(ind, p.original)
    ensures p.kind == NoneKind ==> r == Success(0.0)
    ensures ind == 0 && (p.kind == Float || p.kind == Integer) ==> r == Success(wrap(p.value))
    ensures (ind == 1 || ind == 2) && r.Success? ==> 0.0 <= r.value <= 1.0
    ensures ind == 3 && (p.kind == Float || p.kind == Integer) ==> r == Success(ClampUnit(p.value))
  {
    if ind == 0 then
      if p.kind == Float || p.kind == Integer then Success(wrap(p.value))
      else if p.kind == NoneKind then Success(0.0)
      else Failure(InvalidComponent(0, p.original))
    else if ind == 1 || ind == 2 then
      if p.kind == Float || p.kind == Integer || p.kind == Percentage then Success(ClampUnit(p.value))
      else if p.kind == NoneKind then Success(0.0)
      else Failure(InvalidComponent(ind, p.original))
    else
      if p.kind == Float || p.kind == Integer then Success(ClampUnit(p.value))
      else if p.kind == Percentage then Success(p.value)
      else if p.kind == NoneKind then Success(0.0)
      else Failure(InvalidComponent(3, p.original))
  }

  /** `convertParam` on an argument, unless it is missing. */
  function ConvertOne(component: Option<Param>): Option<ParamConvertResults>
  {
    if component.Some? then Some(ConvertParam(component.value)) else None
  }

  /** `convertParam` applied to each argument that is present. */
  function Converted(components: seq<Option<Param>>): (args: seq<Option<ParamConvertResults>>)
    ensures |args| == |components|
  {
    if |components| == 0 then [] else [ConvertOne(components[0])] + Converted(components[1..])
  }

  /** Each converted argument is the conversion of the argument at the same index. */
  lemma {:induction false} ConvertedAt(components: seq<Option<Param>>, i: nat)
    requires i < |components|
    ensures Converted(components)[i] == ConvertOne(components[i])
    decreases i
  {
    if i > 0 {
      ConvertedAt(components[1..], i - 1);
      assert components[1..][i - 1] == components[i];
    }
  }

  /** One turn of the loop of `apply`: a missing argument, or one past the fourth, changes nothing. */
  function Step(t: seq<real>, ind: nat, arg: Option<ParamConvertResults>, wrap: real -> real): (r: Result<seq<real>, HSLError>)
    requires |t| == 4
    ensures r.Success? ==> |r.value| == 4
  {
    if arg.None? || ind >= 4 then Success(t)
    else
      match SlotValue(ind, arg.value, wrap)
      case Failure(e) => Failure(e)
      case Success(v) => Success(t[ind := v])
  }

  /** The tuple after the first `n` turns of the loop over the converted arguments, or the first error. */
  function ApplyPrefix(args: seq<Option<ParamConvertResults>>, n: nat, wrap: real -> real): (r: Result<seq<real>, HSLError>)
    requires n <= |args|
    ensures r.Success? ==> |r.value| == 4
  {
    if n == 0 then Success(Default)
    else
      match ApplyPrefix(args, n - 1, wrap)
      case Failure(e) => Failure(e)
      case Success(t) => Step(t, n - 1, args[n - 1], wrap)
  }

  /** The colour the loop makes of the converted arguments. */
  function ApplyConverted(args: seq<Option<ParamConvertResults>>, wrap: real -> real): Result<HSLA, HSLError>
  {
    match ApplyPrefix(args, |args|, wrap)
    case Failure(e) => Failure(e)
    case Success(t) => Success(HSLA(t[0], t[1], t[2], t[3]))
  }

  /** What `apply(...components)` computes; a missing, `null` or `undefined` argument is `None`. */
  function Applied(components: seq<Option<Param>>, wrap: real -> real): Result<HSLA, HSLError>
  {
    ApplyConverted(Converted(components), wrap)
  }

  /** An error stays the result of every longer prefix. */
  lemma {:induction false} FailureSticks(args: seq<Option<ParamConvertResults>>, n: nat, m: nat, wrap: real -> real)
    requires n <= m <= |args| && ApplyPrefix(args, n, wrap).Failure?
    ensures ApplyPrefix(args, m, wrap) == ApplyPrefix(args, n, wrap)
    decreases m - n
  {
    if n < m {
      FailureSticks(args, n, m - 1, wrap);
    }
  }

  /** The next turn of the loop, after a prefix that has not failed. */
  lemma PrefixNext(args: seq<Option<ParamConvertResults>>, n: nat, wrap: real -> real, t: seq<real>)
    requires n < |args| && ApplyPrefix(args, n, wrap) == Success(t)
    ensures ApplyPrefix(args, n + 1, wrap) == Step(t, n, args[n], wrap)
  {
  }

  /** A turn that fails decides the result of the whole loop. */
  lemma StopAt(args: seq<Option<ParamConvertResults>>, n: nat, wrap: real -> real, e: HSLError)
    requires n < |args| && ApplyPrefix(args, n + 1, wrap) == Failure(e)
    ensures ApplyConverted(args, wrap) == Failure(e)
  {
    FailureSticks(args, n + 1, |args|, wrap);
  }

  /** The tuple after the last turn is the colour `apply` returns. */
  lemma ApplyDone(components: seq<Option<Param>>, wrap: real -> real, t: seq<real>)
    requires ApplyPrefix(Converted(components), |components|, wrap) == Success(t)
    ensures Applied(components, wrap) == Success(HSLA(t[0], t[1], t[2], t[3]))
  {
  }

  /**
   * The `switch (ind)` in the loop of `apply`: writes slot `ind` of the tuple
   * for an accepted argument, or gives the error it throws; an index past the
   * fourth changes nothing.
   */
  method WriteSlot(hsl: array<real>, ind: nat, p: ParamConvertResults, wrap: real -> real) returns (err: Option<HSLError>)
    requires hsl.Length == 4
    modifies hsl
    ensures err.None? ==> Step(old(hsl[..]), ind, Some(p), wrap) == Success(hsl[..])
    ensures err.Some? ==> Step(old(hsl[..]), ind, Some(p), wrap) == Failure(err.value)
  {
    err := None;
    if ind == 0 {
      if p.kind == Float || p.kind == Integer {
        hsl[0] := wrap(p.value);
      } else if p.kind == NoneKind {
        hsl[0] := 0.0;
      } else {
        err := Some(InvalidComponent(0, p.original));
      }
    } else if ind == 1 || ind == 2 {
      if p.kind == Float || p.kind == Integer || p.kind == Percentage {
        hsl[ind] := ClampUnit(p.value);
      } else if p.kind == NoneKind {
        hsl[ind] := 0.0;
      } else {
        err := Some(InvalidComponent(ind, p.original));
      }
    } else if ind == 3 {
      if p.kind == Float || p.kind == Integer {
        hsl[3] := ClampUnit(p.value);
      } else if p.kind == Percentage {
        hsl[3] := p.value;
      } else if p.kind == NoneKind {
        hsl[3] := 0.0;
      } else {
        err := Some(InvalidComponent(3, p.original));
      }
    }
  }

  /** `apply(...components)`: the loop over the arguments, writing the slots of a local tuple. */
  method Apply(components: seq<Option<Param>>, wrap: real -> real) returns (r: Result<HSLA, HSLError>)
    ensures r == Applied(components, wrap)
  {
    ghost var args := Converted(components);
    var hsl := new real[4];
    hsl[0], hsl[1], hsl[2], hsl[3] := 0.0, 0.0, 0.0, 1.0;
    var ind := 0;
    assert hsl[..] == Default;
    while ind < |components|
      invariant 0 <= ind <= |components|
      invariant ApplyPrefix(args, ind, wrap) == Success(hsl[..])
    {
      var comp := components[ind];
      ConvertedAt(components, ind);
      PrefixNext(args, ind, wrap, hsl[..]);
      if comp.None? {
        ind := ind + 1;
        continue;
      }
      var p := ConvertParam(comp.value);
      var err := WriteSlot(hsl, ind, p, wrap);
      if err.Some? {
        StopAt(args, ind, wrap, err.value);
        return Failure(err.value);
      }
      ind := ind + 1;
    }
    ApplyDone(components, wrap, hsl[..]);
    return Success(HSLA(hsl[0], hsl[1], hsl[2], hsl[3]));
  }

  // ---------------------------------------------------------------------------
  // `apply` in closed form.

  /** Every argument among the first `n` and the first four is of a kind its component accepts. */
  predicate AllAccepted(args: seq<Option<ParamConvertResults>>, n: nat)
    requires n <= |args|
  {
    forall i | 0 <= i < n && i < 4 :: args[i].Some? ==> Accepts(i, args[i].value.kind)
  }

  /** The component `i` after `n` turns: the value of its argument, or the default when it has none. */
  function Expected(args: seq<Option<ParamConvertResults>>, n: nat, i: nat, wrap: real -> real): real
    requires n <= |args| && i < 4 && AllAccepted(args, n)
  {
    if i < n && args[i].Some? then SlotValue(i, args[i].value, wrap).value
    else Default[i]
  }

  lemma {:induction false} ApplyPrefixClosed(args: seq<Option<ParamConvertResults>>, n: nat, wrap: real -> real)
    requires n <= |args|
    ensures ApplyPrefix(args, n, wrap).Success? <==> AllAccepted(args, n)
    ensures AllAccepted(args, n) ==>
      forall i | 0 <= i < 4 :: ApplyPrefix(args, n, wrap).value[i] == Expected(args, n, i, wrap)
  {
    if n > 0 {
      ApplyPrefixClosed(args, n - 1, wrap);
      var k := n - 1;
      if AllAccepted(args, k) {
        if args[k].Some? && k < 4 {
          if Accepts(k, args[k].value.kind) {
            assert AllAccepted(args, n);
          } else {
            assert !AllAccepted(args, n);
          }
        } else {
          assert AllAccepted(args, n);
        }
      } else {
        assert !AllAccepted(args, n);
      }
    }
  }

  /**
   * The loop succeeds exactly when each of the first four arguments that is
   * present is of a kind its component accepts; each component is then the
   * value of its argument, or its default (0, 0, 0 and alpha 1).
   */
  lemma ApplyClosedForm(args: seq<Option<ParamConvertResults>>, wrap: real -> real)
    ensures ApplyConverted(args, wrap).Success? <==> AllAccepted(args, |args|)
    ensures AllAccepted(args, |args|) ==>
      var c := ApplyConverted(args, wrap).value;
      forall i | 0 <= i < 4 :: c.Get(i) == Expected(args, |args|, i, wrap)
  {
    ApplyPrefixClosed(args, |args|, wrap);
  }

  /** Without arguments, or with missing ones only, `apply` gives (0, 0, 0, 1). */
  lemma ApplyDefaults(components: seq<Option<Param>>, wrap: real -> real)
    requires forall i | 0 <= i < |components| :: components[i].None?
    ensures Applied(components, wrap) == Success(HSLA(0.0, 0.0, 0.0, 1.0))
  {
    var args := Converted(components);
    forall i | 0 <= i < |args| ensures args[i].None? {
      ConvertedAt(components, i);
    }
    ApplyClosedForm(args, wrap);
    var c := ApplyConverted(args, wrap).value;
    assert c.Get(0) == 0.0 && c.Get(1) == 0.0 && c.Get(2) == 0.0 && c.Get(3) == 1.0;
  }

  /** The first index whose argument is present and rejected. */
  lemma FirstRejected(args: seq<Option<ParamConvertResults>>) returns (n: nat)
    requires !AllAccepted(args, |args|)
    ensures n < 4 && n < |args| && args[n].Some? && !Accepts(n, args[n].value.kind)
    ensures AllAccepted(args, n)
  {
    n := 0;
    while args[n].None? || Accepts(n, args[n].value.kind)
      invariant n < 4 && n < |args| && AllAccepted(args, n)
      decreases 4 - n
    {
      n := n + 1;
    }
  }

  /** The error is the one of the first rejected argument. */
  lemma FirstFailure(args: seq<Option<ParamConvertResults>>, n: nat, wrap: real -> real)
    requires n < 4 && n < |args| && args[n].Some? && !Accepts(n, args[n].value.kind)
    requires AllAccepted(args, n)
    ensures ApplyConverted(args, wrap) == Failure(InvalidComponent(n, args[n].value.original))
  {
    ApplyPrefixClosed(args, n, wrap);
    FailureSticks(args, n + 1, |args|, wrap);
  }

  /** `apply` fails on the first of the first four arguments that is present and rejected, and on nothing else. */
  lemma ApplyRejects(components: seq<Option<Param>>, wrap: real -> real)
    ensures Applied(components, wrap).Failure? <==>
      exists i | 0 <= i < |components| && i < 4 :: components[i].Some? && !Accepts(i, ConvertParam(components[i].value).kind)
    ensures Applied(components, wrap).Failure? ==>
      var i := Applied(components, wrap).error.index;
      i < 4 && i < |components| && components[i].Some?
      && Applied(components, wrap).error.token == components[i].value
      && !Accepts(i, ConvertParam(components[i].value).kind)
      && forall j | 0 <= j < i :: components[j].Some? ==> Accepts(j, ConvertParam(components[j].value).kind)
  {
    var args := Converted(components);
    ApplyClosedForm(args, wrap);
    if !AllAccepted(args, |args|) {
      var n := FirstRejected(args);
      FirstFailure(args, n, wrap);
      ConvertedAt(components, n);
      forall j | 0 <= j < n && components[j].Some?
        ensures Accepts(j, ConvertParam(components[j].value).kind)
      {
        ConvertedAt(components, j);
      }
    } else {
      forall i | 0 <= i < |components| && i < 4 && components[i].Some?
        ensures Accepts(i, ConvertParam(components[i].value).kind)
      {
        ConvertedAt(components, i);
      }
    }
  }

  /** Arguments after the fourth are ignored. */
  lemma ApplyIgnoresExtra(components: seq<Option<Param>>, wrap: real -> real)
    requires |components| > 4
    ensures Applied(components, wrap) == Applied(components[..4], wrap)
  {
    var args, short := Converted(components), Converted(components[..4]);
    forall i | 0 <= i < 4 ensures short[i] == args[i] {
      ConvertedAt(components, i);
      ConvertedAt(components[..4], i);
    }
    ApplyClosedForm(args, wrap);
    ApplyClosedForm(short, wrap);
    assert AllAccepted(args, |args|) <==> AllAccepted(short, 4);
    if AllAccepted(short, 4) {
      var c, d := ApplyConverted(args, wrap).value, ApplyConverted(short, wrap).value;
      assert c.Get(0) == d.Get(0) && c.Get(1) == d.Get(1) && c.Get(2) == d.Get(2) && c.Get(3) == d.Get(3);
    } else {
      var n := FirstRejected(short);
      assert AllAccepted(args, n);
      FirstFailure(args, n, wrap);
      FirstFailure(short, n, wrap);
    }
  }

  /** A successful `apply` has saturation and lightness in [0, 1], and an alpha in [0, 1] unless it was a percentage. */
  lemma ApplyRanges(components: seq<Option<Param>>, wrap: real -> real)
    requires Applied(components, wrap).Success?
    ensures var c := Applied(components, wrap).value;
      0.0 <= c.saturation <= 1.0 && 0.0 <= c.lightness <= 1.0
      && (|components| <= 3 || components[3].None? || ConvertParam(components[3].value).kind != Percentage
          ==> 0.0 <= c.alpha <= 1.0)
  {
    var args := Converted(components);
    ApplyClosedForm(args, wrap);
    var c := ApplyConverted(args, wrap).value;
    assert c.Get(1) == c.saturation && c.Get(2) == c.lightness && c.Get(3) == c.alpha;
    if |components| > 3 {
      ConvertedAt(components, 3);
    }
  }

  /** `none` zeroes the component it stands for, whichever it is. */
  lemma ApplyNone(components: seq<Option<Param>>, i: nat, wrap: real -> real)
    requires i < 4 && i < |components| && components[i].Some? && ConvertParam(components[i].value).kind == NoneKind
    requires Applied(components, wrap).Success?
    ensures Applied(components, wrap).value.Get(i) == 0.0
  {
    var args := Converted(components);
    ConvertedAt(components, i);
    ApplyClosedForm(args, wrap);
  }

  /** A hue given as a percentage is rejected. */
  lemma PercentageHue(hue: Param, rest: seq<Option<Param>>, wrap: real -> real)
    requires ConvertParam(hue).kind == Percentage
    ensures Applied([Some(hue)] + rest, wrap) == Failure(InvalidComponent(0, hue))
  {
    ConvertedCons(hue, rest);
    HueRejected(ConvertParam(hue), Converted(rest), wrap);
  }

  /** Converting a list with a given first argument converts that argument, then the rest. */
  lemma ConvertedCons(a: Param, rest: seq<Option<Param>>)
    ensures Converted([Some(a)] + rest) == [Some(ConvertParam(a))] + Converted(rest)
  {
    assert ([Some(a)] + rest)[1..] == rest;
  }

  /** A present hue of a kind the hue does not accept ends the loop at once. */
  lemma HueRejected(p: ParamConvertResults, rest: seq<Option<ParamConvertResults>>, wrap: real -> real)
    requires !Accepts(0, p.kind)
    ensures ApplyConverted([Some(p)] + rest, wrap) == Failure(InvalidComponent(0, p.original))
  {
    StopAt([Some(p)] + rest, 0, wrap, InvalidComponent(0, p.original));
  }

  /** The loop over a missing hue, saturation and lightness and a given alpha. */
  lemma AlphaOnly(p: ParamConvertResults, wrap: real -> real)
    requires Accepts(3, p.kind)
    ensures ApplyConverted([None, None, None, Some(p)], wrap) == Success(HSLA(0.0, 0.0, 0.0, SlotValue(3, p, wrap).value))
  {
    var args := [None, None, None, Some(p)];
    ApplyClosedForm(args, wrap);
    var c := ApplyConverted(args, wrap).value;
    assert c.Get(0) == 0.0 && c.Get(1) == 0.0 && c.Get(2) == 0.0 && c.Get(3) == SlotValue(3, p, wrap).value;
  }

  /** `150%` converts to the percentage 1.5. */
  lemma PercentParam()
    ensures ConvertParam(Str("150%")) == ParamConvertResults(Str("150%"), Percentage, 1.5)
  {
    OverPercentScenario();
    ConvertPlain("150%");
  }

  /** `apply` of a missing hue, saturation and lightness and an alpha argument with a known conversion. */
  /** Four components, converted one by one. */
  lemma ConvertedFour(a0: Option<Param>, a1: Option<Param>, a2: Option<Param>, a3: Option<Param>)
    ensures Converted([a0, a1, a2, a3]) == [ConvertOne(a0), ConvertOne(a1), ConvertOne(a2), ConvertOne(a3)]
  {
    var l := [a0, a1, a2, a3];
    forall i | 0 <= i < 4 ensures Converted(l)[i] == ConvertOne(l[i]) {
      ConvertedAt(l, i);
    }
  }

  lemma AlphaOf(a: Param, p: ParamConvertResults, v: real, wrap: real -> real)
    requires ConvertParam(a) == p && SlotValue(3, p, wrap) == Success(v)
    ensures Applied([None, None, None, Some(a)], wrap) == Success(HSLA(0.0, 0.0, 0.0, v))
  {
    ConvertedFour(None, None, None, Some(a));
    AlphaOnly(p, wrap);
  }

  /** `150%` as alpha is stored as 1.5, unclamped. */
  lemma AlphaPercentScenario(wrap: real -> real)
    ensures Applied([None, None, None, Some(Str("150%"))], wrap) == Success(HSLA(0.0, 0.0, 0.0, 1.5))
  {
    PercentParam();
    AlphaOf(Str("150%"), ParamConvertResults(Str("150%"), Percentage, 1.5), 1.5, wrap);
  }

  /** The number 1.5 as alpha is clamped to 1. */
  lemma AlphaNumberScenario(wrap: real -> real)
    ensures Applied([None, None, None, Some(Num(1.5))], wrap) == Success(HSLA(0.0, 0.0, 0.0, 1.0))
  {
    ConvertNumber(1.5);
    AlphaOf(Num(1.5), ConvertParam(Num(1.5)), 1.0, wrap);
  }

  // ---------------------------------------------------------------------------
  // `set`, `setAlpha`, `toArray`, `toObject`.

  /** `.map((val, ind) => val ?? this.get(ind))`: a missing argument becomes the current component. */
  function Fill(c: HSLA, components: seq<Option<Param>>): (r: seq<Option<Param>>)
    ensures |r| == |components|
    ensures forall i | 0 <= i < |r| :: r[i].Some?
  {
    seq(|components|, i requires 0 <= i < |components| =>
      if components[i].Some? then components[i] else Some(Num(c.Get(i))))
  }

  /** `set(...components)` as written: the first four arguments, the missing ones among them filled, then `apply`. */
  function SetWritten(c: HSLA, components: seq<Option<Param>>, wrap: real -> real): Result<HSLA, HSLError>
  {
    var n := if |components| < 4 then |components| else 4;
    Applied(Fill(c, components[..n]), wrap)
  }

  /** The arguments padded with missing ones up to four. */
  function Pad(components: seq<Option<Param>>): (r: seq<Option<Param>>)
    ensures |r| == 4
  {
    seq(4, i requires 0 <= i < 4 => if i < |components| then components[i] else None)
  }

  /** `set(...components)` as evidently intended: every component without an argument is filled from the current one. */
  function SetFilled(c: HSLA, components: seq<Option<Param>>, wrap: real -> real): Result<HSLA, HSLError>
  {
    Applied(Fill(c, Pad(components)), wrap)
  }

  /** The current value of a component, put back through `apply`: the hue is wrapped, the unit parts kept. */
  lemma RefillComponent(c: HSLA, i: nat, wrap: real -> real)
    requires i < 4 && c.UnitParts()
    ensures var p := ConvertParam(Num(c.Get(i)));
      Accepts(i, p.kind) && SlotValue(i, p, wrap).value == if i == 0 then wrap(c.hue) else c.Get(i)
  {
    ConvertNumber(c.Get(i));
  }

  /**
   * As written, `set` with fewer than four arguments does not fill the
   * components after them: they take the defaults of `apply`.
   */
  lemma SetWrittenDropsMissing(c: HSLA, x: real, wrap: real -> real)
    ensures SetWritten(c, [Some(Num(x))], wrap) == Success(HSLA(wrap(x), 0.0, 0.0, 1.0))
  {
    SetWrittenOne(c, Num(x), wrap);
    ConvertedCons(Num(x), []);
    ConvertNumber(x);
    HueOnly(ConvertParam(Num(x)), wrap);
  }

  /** As written, `set` with one argument passes just that argument to `apply`. */
  lemma SetWrittenOne(c: HSLA, a: Param, wrap: real -> real)
    ensures SetWritten(c, [Some(a)], wrap) == ApplyConverted(Converted([Some(a)] + []), wrap)
  {
    var one := [Some(a)];
    assert one[..1] == one == one + [];
    assert Fill(c, one) == one;
    assert SetWritten(c, one, wrap) == Applied(one, wrap);
  }

  /** A lone numeric hue: wrapped, and the other components at the defaults of `apply`. */
  lemma HueOnly(p: ParamConvertResults, wrap: real -> real)
    requires p.kind == Float || p.kind == Integer
    ensures ApplyConverted([Some(p)] + Converted([]), wrap) == Success(HSLA(wrap(p.value), 0.0, 0.0, 1.0))
  {
    assert [Some(p)] + Converted([]) == [Some(p)];
    assert ApplyPrefix([Some(p)], 1, wrap) == Success(Default[0 := wrap(p.value)]);
  }

  /** What the intended `set` stores at `i`: what `apply` makes of the argument, or the current value (the hue wrapped). */
  function Kept(c: HSLA, components: seq<Option<Param>>, i: nat, wrap: real -> real): real
    requires i < 4
    requires i < |components| && components[i].Some? ==> Accepts(i, ConvertParam(components[i].value).kind)
  {
    if i < |components| && components[i].Some? then SlotValue(i, ConvertParam(components[i].value), wrap).value
    else if i == 0 then wrap(c.hue) else c.Get(i)
  }

  /**
   * With every component filled, the intended `set` fails exactly when a
   * given argument is rejected; otherwise a component without an argument
   * keeps its value (the hue wrapped), and one with an argument takes what
   * `apply` makes of it.
   */
  lemma SetFilledKeeps(c: HSLA, components: seq<Option<Param>>, wrap: real -> real)
    requires c.UnitParts()
    ensures SetFilled(c, components, wrap).Success? <==>
      forall i | 0 <= i < |components| && i < 4 :: components[i].Some? ==> Accepts(i, ConvertParam(components[i].value).kind)
    ensures SetFilled(c, components, wrap).Success? ==>
      forall i | 0 <= i < 4 :: SetFilled(c, components, wrap).value.Get(i) == Kept(c, components, i, wrap)
  {
    var args := Converted(Fill(c, Pad(components)));
    forall i | 0 <= i < 4
      ensures args[i].Some?
      ensures i < |components| && components[i].Some? ==> args[i].value == ConvertParam(components[i].value)
      ensures !(i < |components| && components[i].Some?) ==>
        Accepts(i, args[i].value.kind) && SlotValue(i, args[i].value, wrap).value == Kept(c, components, i, wrap)
    {
      ConvertedAt(Fill(c, Pad(components)), i);
      if !(i < |components| && components[i].Some?) {
        RefillComponent(c, i, wrap);
      }
    }
    ApplyClosedForm(args, wrap);
  }

  /** With no argument, the intended `set` gives the colour back, the hue wrapped. */
  lemma SetFilledNothing(c: HSLA, wrap: real -> real)
    requires c.UnitParts()
    ensures SetFilled(c, [], wrap) == Success(HSLA(wrap(c.hue), c.saturation, c.lightness, c.alpha))
  {
    SetFilledKeeps(c, [], wrap);
    var d := SetFilled(c, [], wrap).value;
    assert d.Get(0) == wrap(c.hue) && d.Get(1) == c.saturation && d.Get(2) == c.lightness && d.Get(3) == c.alpha;
  }

  /** `setAlpha(alpha)`: the same hue, saturation and lightness with the given alpha, unclamped. */
  function SetAlpha(c: HSLA, alpha: real): (r: HSLA)
    ensures forall i | 0 <= i < 4 :: r.Get(i) == if i == 3 then alpha else c.Get(i)
  {
    HSLA(c.hue, c.saturation, c.lightness, alpha)
  }

  /** `toArray(forceAlpha)`: hue, saturation and lightness, then the alpha when forced or not opaque. */
  method ToArray(c: HSLA, forceAlpha: bool) returns (arr: seq<real>)
    ensures |arr| == if c.ShowsAlpha(forceAlpha) then 4 else 3
    ensures forall i | 0 <= i < |arr| :: arr[i] == c.Get(i)
  {
    arr := [c.hue, c.saturation, c.lightness];
    if forceAlpha || c.alpha != 1.0 {
      arr := arr + [c.alpha];
    }
  }

  /** The object `toObject` returns; `a` is absent unless assigned. */
  datatype HSLObject = HSLObject(h: real, s: real, l: real, a: Option<real>)

  /** `toObject(forceAlpha)`: `h`, `s` and `l`, and `a` when the alpha is forced or not opaque. */
  method ToObject(c: HSLA, forceAlpha: bool) returns (obj: HSLObject)
    ensures obj.h == c.Get(0) && obj.s == c.Get(1) && obj.l == c.Get(2)
    ensures obj.a.Some? <==> c.ShowsAlpha(forceAlpha)
    ensures obj.a.Some? ==> obj.a.value == c.Get(3)
  {
    obj := HSLObject(c.hue, c.saturation, c.lightness, None);
    if forceAlpha || c.alpha != 1.0 {
      obj := obj.(a := Some(c.alpha));
    }
  }
}
