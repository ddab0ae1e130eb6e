/**
 * The older grammars of the TypeScript sources: `regexpFunc` (a function name
 * and a parameter body), `regexpValidateParams` (a comma-separated list of at
 * least two parameter tokens) and `regexpParams` (the parameter tokens of a
 * string, left to right).  `regexpHex` there is the same pattern as the one
 * modelled by `Regexps.HexMatch`.
 */
module DraftRegexps {
  import opened Wrappers
  import opened Text

  /** `[\d.%]`, a character of a parameter token. */
  predicate IsParamChar(c: char) { IsDigit(c) || c == '.' || c == '%' }

  /** `[\d\s.,%]`, a character of the parameter body of `regexpFunc`. */
  predicate IsBodyChar(c: char) { IsParamChar(c) || IsSpace(c) || c == ',' }

  /** `[A-Z]+` under the `i` flag. */
  predicate IsName(s: string) { |s| > 0 && forall i | 0 <= i < |s| :: IsLetter(s[i]) }

  /** `[\d\s.,%]+` */
  predicate IsBody(s: string) { |s| > 0 && forall i | 0 <= i < |s| :: IsBodyChar(s[i]) }

  /** `[\d.%]+` */
  predicate IsToken(s: string) { |s| > 0 && forall i | 0 <= i < |s| :: IsParamChar(s[i]) }

  /** The number of leading letters of `s`. */
  function LeadingLetters(s: string): (n: nat)
    ensures n <= |s|
    ensures forall i | 0 <= i < n :: IsLetter(s[i])
    ensures n < |s| ==> !IsLetter(s[n])
  {
    if |s| == 0 || !IsLetter(s[0]) then 0 else 1 + LeadingLetters(s[1..])
  }

  /**
   * `regexpFunc`, `^([A-Z]+)\(([\d\s.,%]+)\)$` with the `i` flag: the name and
   * the parameter body, or `None`.  The name can only end at the first
   * non-letter, which must be `(`, and the body runs to the final `)`.
   */
  function FuncMatch(s: string): (r: Option<(string, string)>)
    ensures r.Some? ==> IsName(r.value.0) && IsBody(r.value.1) && s == r.value.0 + "(" + r.value.1 + ")"
  {
    var k := LeadingLetters(s);
    if 0 < k && k + 2 < |s| && s[k] == '(' && s[|s| - 1] == ')' && IsBody(s[k + 1..|s| - 1]) then
      assert s == s[..k] + "(" + s[k + 1..|s| - 1] + ")";
      Some((s[..k], s[k + 1..|s| - 1]))
    else None
  }

  /** Every name followed by a parenthesised body matches, and the groups are the name and the body. */
  lemma FuncMatchWritten(name: string, body: string)
    requires IsName(name) && IsBody(body)
    ensures FuncMatch(name + "(" + body + ")") == Some((name, body))
  {
    var s := name + "(" + body + ")";
    LettersRun(s, name);
    assert s[..|name|] == name;
    assert s[|name| + 1..|s| - 1] == body;
  }

  lemma LettersRun(s: string, name: string)
    requires IsName(name) && |name| < |s| && s[..|name|] == name && !IsLetter(s[|name|])
    ensures LeadingLetters(s) == |name|
  {
    assert forall i | 0 <= i < |name| :: s[i] == name[i];
  }

  /** The end of the run of parameter characters from `p`. */
  function TokenRun(s: string, p: nat): (q: nat)
    requires p <= |s|
    ensures p <= q <= |s|
    ensures forall i | p <= i < q :: IsParamChar(s[i])
    ensures q < |s| ==> !IsParamChar(s[q])
    decreases |s| - p
  {
    if p == |s| || !IsParamChar(s[p]) then p else TokenRun(s, p + 1)
  }

  /** `\s*,\s*[\d.%]+` from `p`: where the separator and the token after it end, if they are there. */
  function CommaToken(s: string, p: nat): (r: Option<nat>)
    requires p <= |s|
    ensures r.Some? ==> p < r.value <= |s|
  {
    var a := SkipSpaces(s, p);
    if a < |s| && s[a] == ',' then
      var b := SkipSpaces(s, a + 1);
      var c := TokenRun(s, b);
      if c > b then Some(c) else None
    else None
  }

  /**
   * `(?:\s*,\s*[\d.%]+)*$` from `p`.  Tokens and separators share no
   * character, so each run is taken whole and there is nothing to backtrack.
   */
  predicate MoreParams(s: string, p: nat)
    requires p <= |s|
    decreases |s| - p
  {
    p == |s| || (CommaToken(s, p).Some? && MoreParams(s, CommaToken(s, p).value))
  }

  /** `regexpValidateParams`, `^[\d.%]+(?:\s*,\s*[\d.%]+)+$`. */
  predicate ValidParams(s: string)
  {
    var c := TokenRun(s, 0);
    0 < c < |s| && MoreParams(s, c)
  }

  /** The tokens `regexpParams` finds from `p` on: the maximal runs of parameter characters. */
  function ParamRunsFrom(s: string, p: nat): (r: seq<string>)
    requires p <= |s|
    ensures forall i | 0 <= i < |r| :: IsToken(r[i])
    decreases |s| - p
  {
    if p == |s| then []
    else if !IsParamChar(s[p]) then ParamRunsFrom(s, p + 1)
    else
      var q := TokenRun(s, p);
      assert IsToken(s[p..q]) by {
        forall i | 0 <= i < q - p ensures IsParamChar(s[p..q][i]) { assert s[p..q][i] == s[p + i]; }
      }
      [s[p..q]] + ParamRunsFrom(s, q)
  }

  /** The matches of the global `regexpParams` on `s`, in order. */
  function ParamRuns(s: string): (r: seq<string>)
    ensures forall i | 0 <= i < |r| :: IsToken(r[i])
  {
    ParamRunsFrom(s, 0)
  }

  // ---------------------------------------------------------------------------
  // A parameter list written out

  /** `\s*,\s*` written out. */
  datatype Comma = Comma(before: string, after: string)
  {
    predicate Valid() { AllSpaces(before) && AllSpaces(after) }
    function Text(): string { before + "," + after }
  }

  /** The separators and tokens after the first token: `cs[0] us[0] cs[1] us[1] ...`. */
  function Rest(us: seq<string>, cs: seq<Comma>): string
    requires |us| == |cs|
  {
    if |us| == 0 then "" else cs[0].Text() + us[0] + Rest(us[1..], cs[1..])
  }

  /** The tokens `ts` separated by the commas `cs`. */
  function Join(ts: seq<string>, cs: seq<Comma>): string
    requires |ts| == |cs| + 1
  {
    ts[0] + Rest(ts[1..], cs)
  }

  /** Tokens and well-formed commas, one comma before each token. */
  predicate ValidRest(us: seq<string>, cs: seq<Comma>)
  {
    |us| == |cs| && (forall i | 0 <= i < |us| :: IsToken(us[i])) && forall i | 0 <= i < |cs| :: cs[i].Valid()
  }

  lemma ValidRestTail(us: seq<string>, cs: seq<Comma>)
    requires ValidRest(us, cs) && |us| > 0
    ensures ValidRest(us[1..], cs[1..]) && IsToken(us[0]) && cs[0].Valid()
  {
    assert forall i | 0 <= i < |us| - 1 :: us[1..][i] == us[i + 1];
    assert forall i | 0 <= i < |cs| - 1 :: cs[1..][i] == cs[i + 1];
  }

  lemma {:induction false} TokenRunOver(s: string, p: nat, t: string)
    requires IsToken(t) && At(s, p, t) && (p + |t| < |s| ==> !IsParamChar(s[p + |t|]))
    ensures TokenRun(s, p) == p + |t|
  {
    forall i | 0 <= i < |t| ensures s[p + i] == t[i] { AtChar(s, p, t, i); }
  }

  lemma {:induction false} SkipNonParams(s: string, p: nat, q: nat)
    requires p <= q <= |s|
    requires forall i | p <= i < q :: !IsParamChar(s[i])
    ensures ParamRunsFrom(s, p) == ParamRunsFrom(s, q)
    decreases q - p
  {
    if p < q {
      SkipNonParams(s, p + 1, q);
    }
  }

  /** Where the rest of a list starts, the character is a space or a comma. */
  lemma RestStarts(us: seq<string>, cs: seq<Comma>)
    requires |us| == |cs| && |us| > 0 && cs[0].Valid()
    ensures |Rest(us, cs)| > 0 && !IsParamChar(Rest(us, cs)[0])
  {
    var c := cs[0];
    if |c.before| > 0 {
      assert Rest(us, cs)[0] == c.before[0];
    } else {
      assert Rest(us, cs)[0] == ',';
    }
  }

  /** A comma written at `p`, character by character. */
  lemma CommaParts(s: string, p: nat, c: Comma, t: string)
    requires c.Valid() && At(s, p, c.Text() + t)
    ensures var a := p + |c.before|;
      var b := p + |c.Text()|;
      (forall i | p <= i < a :: IsSpace(s[i])) && a < |s| && s[a] == ','
      && (forall i | a + 1 <= i < b :: IsSpace(s[i])) && At(s, b, t)
  {
    var a := p + |c.before|;
    var b := p + |c.Text()|;
    AtSplit(s, p, c.Text(), t);
    assert c.Text() == c.before + "," + c.after;
    AtSplit(s, p, c.before + ",", c.after);
    AtSplit(s, p, c.before, ",");
    forall i | p <= i < a ensures IsSpace(s[i]) { AtChar(s, p, c.before, i - p); }
    AtChar(s, a, ",", 0);
    forall i | a + 1 <= i < b ensures IsSpace(s[i]) { AtChar(s, a + 1, c.after, i - a - 1); }
  }

  /** A comma written at `p` holds no parameter character. */
  lemma CommaSpan(s: string, p: nat, c: Comma, t: string)
    requires c.Valid() && At(s, p, c.Text() + t)
    ensures (forall i | p <= i < p + |c.Text()| :: !IsParamChar(s[i])) && At(s, p + |c.Text()|, t)
  {
    CommaParts(s, p, c, t);
  }

  /** A comma written at `p` and followed by a token is crossed whole by `\s*,\s*`. */
  lemma CommaAt(s: string, p: nat, c: Comma, t: string)
    requires c.Valid() && IsToken(t) && At(s, p, c.Text() + t)
    ensures var a := p + |c.before|;
      SkipSpaces(s, p) == a && a < |s| && s[a] == ',' && SkipSpaces(s, a + 1) == p + |c.Text()|
  {
    var a := p + |c.before|;
    var b := p + |c.Text()|;
    CommaParts(s, p, c, t);
    AtChar(s, b, t, 0);
    SkipSpacesOver(s, p, a);
    SkipSpacesOver(s, a + 1, b);
  }

  /** The token after a comma written at `p` is the run of parameter characters there. */
  lemma TokenAfter(s: string, p: nat, c: Comma, u: string)
    requires c.Valid() && IsToken(u) && At(s, p, c.Text() + u)
    requires var e := p + |c.Text()| + |u|; e < |s| ==> !IsParamChar(s[e])
    ensures At(s, p + |c.Text()|, u) && TokenRun(s, p + |c.Text()|) == p + |c.Text()| + |u|
  {
    CommaSpan(s, p, c, u);
    TokenRunOver(s, p + |c.Text()|, u);
  }

  /** The token after the separator is the next run of parameter characters. */
  lemma RunsStep(s: string, p: nat, b: nat, e: nat)
    requires p <= b < e <= |s| && (forall i | p <= i < b :: !IsParamChar(s[i]))
    requires IsParamChar(s[b]) && TokenRun(s, b) == e
    ensures ParamRunsFrom(s, p) == [s[b..e]] + ParamRunsFrom(s, e)
  {
    SkipNonParams(s, p, b);
  }

  /** Crossing a comma and a token is one step of `(?:\s*,\s*[\d.%]+)*`. */
  lemma HeadMore(s: string, p: nat, c: Comma, u: string)
    requires c.Valid() && IsToken(u) && At(s, p, c.Text() + u)
    requires var e := p + |c.Text()| + |u|; e < |s| ==> !IsParamChar(s[e])
    ensures p + |c.Text()| + |u| <= |s| && CommaToken(s, p) == Some(p + |c.Text()| + |u|)
  {
    CommaAt(s, p, c, u);
    TokenAfter(s, p, c, u);
  }

  /** Crossing a comma and a token finds that token first. */
  lemma HeadRuns(s: string, p: nat, c: Comma, u: string)
    requires c.Valid() && IsToken(u) && At(s, p, c.Text() + u)
    requires var e := p + |c.Text()| + |u|; e < |s| ==> !IsParamChar(s[e])
    ensures var e := p + |c.Text()| + |u|;
      e <= |s| && ParamRunsFrom(s, p) == [u] + ParamRunsFrom(s, e)
  {
    HeadToken(s, p, c, u);
    RunsStep(s, p, p + |c.Text()|, p + |c.Text()| + |u|);
  }

  /** The token after a comma is a maximal run of parameter characters, and only separators come before it. */
  lemma HeadToken(s: string, p: nat, c: Comma, u: string)
    requires c.Valid() && IsToken(u) && At(s, p, c.Text() + u)
    requires var e := p + |c.Text()| + |u|; e < |s| ==> !IsParamChar(s[e])
    ensures var b := p + |c.Text()|;
      var e := b + |u|;
      p <= b < e <= |s| && (forall i | p <= i < b :: !IsParamChar(s[i]))
      && IsParamChar(s[b]) && TokenRun(s, b) == e && s[b..e] == u
  {
    TokenAfter(s, p, c, u);
    CommaSpan(s, p, c, u);
    AtChar(s, p + |c.Text()|, u, 0);
  }

  /** The rest of a list is its first comma, its first token and the rest of the rest. */
  lemma RestSplit(us: seq<string>, cs: seq<Comma>)
    requires ValidRest(us, cs) && |us| > 0
    ensures var rest := Rest(us[1..], cs[1..]);
      Rest(us, cs) == cs[0].Text() + us[0] + rest && (|rest| > 0 ==> !IsParamChar(rest[0]))
      && ValidRest(us[1..], cs[1..]) && IsToken(us[0]) && cs[0].Valid()
  {
    ValidRestTail(us, cs);
    if |us| > 1 {
      RestStarts(us[1..], cs[1..]);
    }
  }

  /**
   * The separators and tokens `us`, `cs` are written at `p` up to the end of
   * `s`, one comma and one token at a time, each token ended by the end of `s`
   * or by a character that is not a parameter character.
   */
  predicate Placed(s: string, p: nat, us: seq<string>, cs: seq<Comma>)
    decreases |us|
  {
    |us| == |cs| && p <= |s| &&
    if |us| == 0 then p == |s|
    else
      var e := p + |cs[0].Text()| + |us[0]|;
      cs[0].Valid() && IsToken(us[0]) && At(s, p, cs[0].Text() + us[0])
      && (e < |s| ==> !IsParamChar(s[e])) && Placed(s, e, us[1..], cs[1..])
  }

  /** The first comma and token of a tail written out at `p` up to the end of `s`. */
  lemma RestHeadAt(s: string, p: nat, us: seq<string>, cs: seq<Comma>)
    requires ValidRest(us, cs) && |us| > 0 && At(s, p, Rest(us, cs)) && p + |Rest(us, cs)| == |s|
    ensures var e := p + |cs[0].Text()| + |us[0]|;
      cs[0].Valid() && IsToken(us[0]) && At(s, p, cs[0].Text() + us[0]) && (e < |s| ==> !IsParamChar(s[e]))
      && ValidRest(us[1..], cs[1..]) && At(s, e, Rest(us[1..], cs[1..])) && e + |Rest(us[1..], cs[1..])| == |s|
  {
    var rest := Rest(us[1..], cs[1..]);
    var e := p + |cs[0].Text()| + |us[0]|;
    RestSplit(us, cs);
    AtSplit(s, p, cs[0].Text() + us[0], rest);
    if |rest| > 0 {
      AtChar(s, e, rest, 0);
    }
  }

  /** A tail written out at `p` up to the end of `s` is placed there. */
  lemma {:induction false} RestPlaced(s: string, p: nat, us: seq<string>, cs: seq<Comma>)
    requires ValidRest(us, cs) && At(s, p, Rest(us, cs)) && p + |Rest(us, cs)| == |s|
    ensures Placed(s, p, us, cs)
    decreases |us|
  {
    if |us| > 0 {
      RestHeadAt(s, p, us, cs);
      RestPlaced(s, p + |cs[0].Text()| + |us[0]|, us[1..], cs[1..]);
    }
  }

  lemma {:induction false} MoreParamsRest(s: string, p: nat, us: seq<string>, cs: seq<Comma>)
    requires Placed(s, p, us, cs)
    ensures MoreParams(s, p)
    decreases |us|
  {
    if |us| > 0 {
      var e := p + |cs[0].Text()| + |us[0]|;
      HeadMore(s, p, cs[0], us[0]);
      MoreParamsRest(s, e, us[1..], cs[1..]);
      MoreParamsFrom(s, p, e);
    }
  }

  /** One step of `(?:\s*,\s*[\d.%]+)*` followed by a match is a match. */
  lemma MoreParamsFrom(s: string, p: nat, e: nat)
    requires p <= e <= |s| && CommaToken(s, p) == Some(e) && MoreParams(s, e)
    ensures MoreParams(s, p)
  {
  }

  lemma {:induction false} RunsRest(s: string, p: nat, us: seq<string>, cs: seq<Comma>)
    requires Placed(s, p, us, cs)
    ensures ParamRunsFrom(s, p) == us
    decreases |us|
  {
    if |us| > 0 {
      HeadRuns(s, p, cs[0], us[0]);
      RunsRest(s, p + |cs[0].Text()| + |us[0]|, us[1..], cs[1..]);
      assert us == [us[0]] + us[1..];
    }
  }

  /** The first token of a list, and where the rest of the list starts. */
  lemma JoinHead(ts: seq<string>, cs: seq<Comma>)
    requires |ts| >= 2 && ValidRest(ts[1..], cs) && IsToken(ts[0])
    ensures var s := Join(ts, cs); var k := |ts[0]|;
      k < |s| && TokenRun(s, 0) == k && IsParamChar(s[0]) && s[0..k] == ts[0] && Placed(s, k, ts[1..], cs)
  {
    var s := Join(ts, cs);
    var k := |ts[0]|;
    assert At(s, 0, s);
    AtSplit(s, 0, ts[0], Rest(ts[1..], cs));
    RestStarts(ts[1..], cs);
    AtChar(s, k, Rest(ts[1..], cs), 0);
    TokenRunOver(s, 0, ts[0]);
    AtChar(s, 0, ts[0], 0);
    RestPlaced(s, k, ts[1..], cs);
  }

  /** A list of at least two tokens separated by commas is a valid parameter list. */
  lemma JoinValid(ts: seq<string>, cs: seq<Comma>)
    requires |ts| >= 2 && ValidRest(ts[1..], cs) && IsToken(ts[0])
    ensures ValidParams(Join(ts, cs))
  {
    JoinHead(ts, cs);
    MoreParamsRest(Join(ts, cs), |ts[0]|, ts[1..], cs);
  }

  /** `regexpParams` finds exactly the tokens of a list, in order. */
  lemma JoinRuns(ts: seq<string>, cs: seq<Comma>)
    requires |ts| >= 2 && ValidRest(ts[1..], cs) && IsToken(ts[0])
    ensures ParamRuns(Join(ts, cs)) == ts
  {
    var s := Join(ts, cs);
    var k := |ts[0]|;
    JoinHead(ts, cs);
    RunsRest(s, k, ts[1..], cs);
    assert ts == [ts[0]] + ts[1..];
  }

  /**
   * A list of at least two tokens separated by commas is a valid parameter
   * list, and `regexpParams` finds exactly its tokens, in order.
   */
  lemma JoinRoundTrip(ts: seq<string>, cs: seq<Comma>)
    requires |ts| >= 2 && ValidRest(ts[1..], cs) && IsToken(ts[0])
    ensures ValidParams(Join(ts, cs))
    ensures ParamRuns(Join(ts, cs)) == ts
  {
    JoinValid(ts, cs);
    JoinRuns(ts, cs);
  }

  // ---------------------------------------------------------------------------
  // A valid parameter list read back as tokens and commas

  /** The commas and tokens `(?:\s*,\s*[\d.%]+)*` crosses from `p` to the end of `s`. */
  function RestFrom(s: string, p: nat): (r: (seq<string>, seq<Comma>))
    requires p <= |s| && MoreParams(s, p)
    ensures |r.0| == |r.1| && (|r.0| > 0 <==> p < |s|)
    decreases |s| - p
  {
    if p == |s| then ([], [])
    else
      var a := SkipSpaces(s, p);
      var b := SkipSpaces(s, a + 1);
      var e := CommaToken(s, p).value;
      var r := RestFrom(s, e);
      ([s[b..e]] + r.0, [Comma(s[p..a], s[a + 1..b])] + r.1)
  }

  /** The comma and the token `CommaToken` crosses, cut at `a`, `b` and `e`. */
  lemma CommaStep(s: string, p: nat, a: nat, b: nat, e: nat)
    requires p <= a < |s| && a == SkipSpaces(s, p) && s[a] == ','
    requires b == SkipSpaces(s, a + 1) && e == TokenRun(s, b) && b < e
    ensures Comma(s[p..a], s[a + 1..b]).Valid() && IsToken(s[b..e])
    ensures s[p..] == Comma(s[p..a], s[a + 1..b]).Text() + s[b..e] + s[e..]
  {
    var before := s[p..a];
    assert AllSpaces(before) by {
      forall i | 0 <= i < |before| ensures IsSpace(before[i]) { assert before[i] == s[p + i]; }
    }
    var after := s[a + 1..b];
    assert AllSpaces(after) by {
      forall i | 0 <= i < |after| ensures IsSpace(after[i]) { assert after[i] == s[a + 1 + i]; }
    }
    var u := s[b..e];
    assert IsToken(u) by {
      forall i | 0 <= i < |u| ensures IsParamChar(u[i]) { assert u[i] == s[b + i]; }
    }
    SliceJoin(s, p, a, b, e);
  }

  /** Before the end, a match of `(?:\s*,\s*[\d.%]+)*$` takes one step and matches on. */
  lemma MoreParamsNext(s: string, p: nat)
    requires p < |s| && MoreParams(s, p)
    ensures CommaToken(s, p).Some? && MoreParams(s, CommaToken(s, p).value)
  {
  }

  /** A step of `CommaToken` starts with white space and a comma. */
  lemma CommaTokenComma(s: string, p: nat, e: nat)
    requires p <= |s| && CommaToken(s, p) == Some(e)
    ensures SkipSpaces(s, p) < |s| && s[SkipSpaces(s, p)] == ','
  {
  }

  /** The token of one step of `CommaToken` runs from the end of the white space after the comma. */
  lemma CommaTokenParts(s: string, p: nat, a: nat, b: nat, e: nat)
    requires p <= |s| && CommaToken(s, p) == Some(e) && a == SkipSpaces(s, p) && a < |s| && b == SkipSpaces(s, a + 1)
    ensures b < e && e == TokenRun(s, b)
  {
  }

  /** `RestFrom` at `p`, with the cut points of its first step named. */
  lemma RestFromUnfold(s: string, p: nat, a: nat, b: nat, e: nat)
    requires p < |s| && MoreParams(s, p)
    requires a == SkipSpaces(s, p) && a < |s| && b == SkipSpaces(s, a + 1) && e == CommaToken(s, p).value && b <= e
    requires MoreParams(s, e)
    ensures RestFrom(s, p) == ([s[b..e]] + RestFrom(s, e).0, [Comma(s[p..a], s[a + 1..b])] + RestFrom(s, e).1)
  {
  }

  /** `s[p..]` cut at `a`, `a + 1`, `b` and `e`. */
  lemma SliceJoin(s: string, p: nat, a: nat, b: nat, e: nat)
    requires p <= a < |s| && a + 1 <= b <= e <= |s| && s[a] == ','
    ensures s[p..] == s[p..a] + "," + s[a + 1..b] + s[b..e] + s[e..]
  {
    assert s[p..] == s[p..a] + s[a..a + 1] + s[a + 1..b] + s[b..e] + s[e..];
  }

  /** A comma and a token put in front of a tail. */
  lemma RestCons(u: string, c: Comma, us: seq<string>, cs: seq<Comma>)
    requires ValidRest(us, cs) && IsToken(u) && c.Valid()
    ensures ValidRest([u] + us, [c] + cs) && Rest([u] + us, [c] + cs) == c.Text() + u + Rest(us, cs)
  {
    assert ([u] + us)[1..] == us && ([c] + cs)[1..] == cs;
  }

  /** What `RestFrom` reads is a tail of tokens and commas that spells the rest of the string. */
  lemma {:induction false} RestFromSound(s: string, p: nat)
    requires p <= |s| && MoreParams(s, p)
    ensures var r := RestFrom(s, p); ValidRest(r.0, r.1) && Rest(r.0, r.1) == s[p..]
    decreases |s| - p
  {
    if p < |s| {
      MoreParamsNext(s, p);
      var e := CommaToken(s, p).value;
      CommaTokenComma(s, p, e);
      var a := SkipSpaces(s, p);
      var b := SkipSpaces(s, a + 1);
      CommaTokenParts(s, p, a, b, e);
      RestFromUnfold(s, p, a, b, e);
      RestFromSound(s, e);
      CommaStep(s, p, a, b, e);
      var r := RestFrom(s, e);
      SoundStep(s, p, e, s[b..e], Comma(s[p..a], s[a + 1..b]), r.0, r.1, RestFrom(s, p));
    }
  }

  /** A well-formed comma and token in front of a tail that spells `s[e..]` spell `s[p..]`. */
  lemma SoundStep(s: string, p: nat, e: nat, u: string, c: Comma, us: seq<string>, cs: seq<Comma>,
                  r: (seq<string>, seq<Comma>))
    requires p <= e <= |s| && r == ([u] + us, [c] + cs)
    requires ValidRest(us, cs) && Rest(us, cs) == s[e..] && IsToken(u) && c.Valid()
    requires s[p..] == c.Text() + u + s[e..]
    ensures ValidRest(r.0, r.1) && Rest(r.0, r.1) == s[p..]
  {
    RestCons(u, c, us, cs);
  }

  /** The tokens and commas of a valid parameter list. */
  function ListOf(s: string): (r: (seq<string>, seq<Comma>))
    requires ValidParams(s)
    ensures |r.0| == |r.1| + 1 && |r.0| >= 2
  {
    var k := TokenRun(s, 0);
    var rest := RestFrom(s, k);
    ([s[..k]] + rest.0, rest.1)
  }

  /**
   * Every string `regexpValidateParams` accepts is two or more tokens joined
   * by commas, and `regexpParams` finds exactly those tokens.
   */
  lemma ValidParamsList(s: string)
    requires ValidParams(s)
    ensures var r := ListOf(s);
      IsToken(r.0[0]) && ValidRest(r.0[1..], r.1) && Join(r.0, r.1) == s && ParamRuns(s) == r.0
  {
    var k := TokenRun(s, 0);
    var rest := RestFrom(s, k);
    RestFromSound(s, k);
    FirstToken(s, k);
    JoinParts(s, k, s[..k], rest.0, rest.1, ListOf(s));
    JoinRuns(ListOf(s).0, ListOf(s).1);
  }

  /** The run of parameter characters at the start of `s` is a token. */
  lemma FirstToken(s: string, k: nat)
    requires 0 < k <= |s| && k == TokenRun(s, 0)
    ensures IsToken(s[..k])
  {
    var t := s[..k];
    forall i | 0 <= i < |t| ensures IsParamChar(t[i]) { assert t[i] == s[i]; }
  }

  /** A first token followed by a tail that spells the rest of `s` is a list that spells `s`. */
  lemma JoinParts(s: string, k: nat, t: string, us: seq<string>, cs: seq<Comma>, r: (seq<string>, seq<Comma>))
    requires k <= |s| && t == s[..k] && r == ([t] + us, cs)
    requires IsToken(t) && ValidRest(us, cs) && Rest(us, cs) == s[k..]
    ensures |r.0| == |r.1| + 1 && IsToken(r.0[0]) && ValidRest(r.0[1..], r.1) && Join(r.0, r.1) == s
  {
    assert r.0[1..] == us;
    assert s == s[..k] + s[k..];
  }

  /**
   * `regexpValidateParams` accepts exactly the lists of two or more tokens
   * joined by commas with optional white space around each comma.
   */
  lemma ValidParamsIff(s: string)
    ensures ValidParams(s) <==>
      exists ts: seq<string>, cs: seq<Comma> :: |ts| >= 2 && IsToken(ts[0]) && ValidRest(ts[1..], cs) && Join(ts, cs) == s
  {
    if ValidParams(s) {
      ValidParamsList(s);
      var r := ListOf(s);
      assert |r.0| >= 2 && IsToken(r.0[0]) && ValidRest(r.0[1..], r.1) && Join(r.0, r.1) == s;
    }
    if exists ts: seq<string>, cs: seq<Comma> :: |ts| >= 2 && IsToken(ts[0]) && ValidRest(ts[1..], cs) && Join(ts, cs) == s {
      var ts: seq<string>, cs: seq<Comma> :| |ts| >= 2 && IsToken(ts[0]) && ValidRest(ts[1..], cs) && Join(ts, cs) == s;
      JoinValid(ts, cs);
    }
  }

  /** A colour in functional notation is split into its name and its parameter body. */
  lemma FuncMatchAccepts()
    ensures FuncMatch("rgb(255, 0, 128)") == Some(("rgb", "255, 0, 128"))
  {
    FuncMatchWritten("rgb", "255, 0, 128");
    assert "rgb(255, 0, 128)" == "rgb" + "(" + "255, 0, 128" + ")";
  }

  /** A parameter body with a sign, or with a keyword, is not accepted by `regexpFunc`. */
  lemma FuncMatchRejects(s: string)
    requires s == "rgb(-1, 0, 0)" || s == "rgb(none)"
    ensures FuncMatch(s) == None
  {
    StrayCharRejected(s, 3, 4);
  }

  /** A character outside `[\d\s.,%]` after the end of the name and before the last character fails `regexpFunc`. */
  lemma StrayCharRejected(s: string, j: nat, i: nat)
    requires j < i < |s| - 1 && !IsLetter(s[j]) && !IsBodyChar(s[i])
    ensures FuncMatch(s) == None
  {
    assert LeadingLetters(s) <= j;
  }

  lemma ValidParamsAccepts()
    ensures ValidParams("10, 20%, .5")
    ensures ParamRuns("10, 20%, .5") == ["10", "20%", ".5"]
  {
    var ts := ["10", "20%", ".5"];
    var cs := [Comma("", " "), Comma("", " ")];
    SampleList(ts, cs);
    JoinRoundTrip(ts, cs);
  }

  /** The sample list as tokens and commas. */
  lemma SampleList(ts: seq<string>, cs: seq<Comma>)
    requires ts == ["10", "20%", ".5"] && cs == [Comma("", " "), Comma("", " ")]
    ensures |ts| >= 2 && ValidRest(ts[1..], cs) && IsToken(ts[0])
    ensures Join(ts, cs) == "10, 20%, .5"
  {
    assert IsToken(ts[1]) && IsToken(ts[2]);
    assert Rest(ts[2..], cs[1..]) == ", .5";
  }

  /** One token alone, and a leading, trailing or doubled comma, are rejected by `regexpValidateParams`. */
  lemma ValidParamsRejects()
    ensures !ValidParams("10") && !ValidParams(",1,2") && !ValidParams("1,2,") && !ValidParams("1,,2")
  {
    SingleTokenRejected();
    LeadingCommaRejected();
    TrailingCommaRejected();
    DoubledCommaRejected();
  }

  lemma SingleTokenRejected()
    ensures !ValidParams("10")
  {
    assert TokenRun("10", 0) == 2;
  }

  lemma LeadingCommaRejected()
    ensures !ValidParams(",1,2")
  {
    assert TokenRun(",1,2", 0) == 0;
  }

  lemma TrailingCommaRejected()
    ensures !ValidParams("1,2,")
  {
    var s := "1,2,";
    assert TokenRun(s, 0) == 1;
    assert SkipSpaces(s, 1) == 1 && SkipSpaces(s, 2) == 2 && TokenRun(s, 2) == 3;
    assert SkipSpaces(s, 3) == 3 && SkipSpaces(s, 4) == 4 && TokenRun(s, 4) == 4;
  }

  lemma DoubledCommaRejected()
    ensures !ValidParams("1,,2")
  {
    var s := "1,,2";
    assert TokenRun(s, 0) == 1;
    assert SkipSpaces(s, 1) == 1 && SkipSpaces(s, 2) == 2 && TokenRun(s, 2) == 2;
  }
}
