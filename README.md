# coloroo colour notations in Dafny

This project models the colour-notation engine of coloroo, a JavaScript/TypeScript colour library. The engine parses colours written in the notations of CSS Color Module Level 4 and serialises them back. The notations are hex (section 5.2), `rgb()`/`rgba()` (section 5.1), named colours and `transparent` (sections 6.1 and 6.3), and HSL (section 7). The model has these parts:

- **MathUtils** (`math_utils.dfy`): `clamp` and `clampByte`, with `Math.trunc` and `Math.round`. JavaScript numbers are exact reals.
- **Text** and **Wrappers** (`text.dfy`, `wrappers.dfy`): the character classes the regular expressions use, plus `trim`, `toLowerCase` and decimal and hexadecimal digit strings. `Option` stands for `null`/`undefined` and `Result` for a thrown error.
- **Regexps** (`regexps.dfy`): `regexpHex`, `regexpInteger`, `regexpNumber` and `regexpPercent` as recognisers, with `captureAll` and `captureFirst`.
- **RGBFuncRegexp**, **RGBFuncRoundTrip** and **RGBFuncSoundness**: `regexpRGBFunc` as JavaScript's backtracking engine runs it. The round trip of the functional notation, and what the groups capture.
- **DraftRegexps** (`draft_regexps.dfy`): the older grammars `regexpFunc`, `regexpValidateParams` and `regexpParams`.
- **Params** (`params.dfy`): `detectParamType` and `convertParam`. The TypeScript source and its compiled twin are the same logic, so both are modelled once.
- **Objects** (`objects.dfy`): `objectMatchesPattern` in its loose, strict and type-ignoring modes.
- **RGB** and **RGBLaws** (`rgb.dfy`, `rgb_laws.dfy`): the byte-storage `ColorRGB` as a class with a three-slot byte array and an alpha field. Every mutator is proved against a function saying what the colour becomes. The laws prove the integer, hex, functional, array and object round trips.
- **DraftRGB** (`draft_rgb.dfy`): the unit-storage `ColorRGB` draft, with byte and unit accessors. Its `toInteger` and `toHexString` are modelled as written and as evidently intended.
- **HSL** and **HSLConvert** (`hsl.dfy`, `hsl_convert.dfy`): the `apply` loop and `get`, `set`, `setAlpha`, `toArray` and `toObject` of `ColorHSL`. Also `fromRGB` (as written and as intended) and `toRGB`, with the proof that `toRGB(fromRGB(c)) == c` for the intended `fromRGB`.

## Model

| member | source | states |
|---|---|---|
| MathUtils.Trunc | lib/utils/math.js:33 | `Math.trunc`: the integer part, at most the value when it is non-negative and at least it when negative |
| MathUtils.Round | src/RGB.ts:62-64 | `Math.round`: the nearest integer, half-way cases going up |
| MathUtils.Clamp | src/utils/math.ts:21-23 | the result lies in [min, max] when min <= max; a value inside is returned unchanged; below min gives min, above max gives max; crossed bounds give max |
| MathUtils.ClampUnit | lib/utils/math.js:23-25 | `clamp` with its default bounds 0 and 1: the result lies in [0, 1], is the value inside it, and 0 or 1 outside it |
| MathUtils.ClampByte | lib/utils/math.js:33 | `clampByte` gives an integer in 0..255: the floor of the value inside the range (truncation, not rounding), 0 below it, 255 above it |
| MathUtils.ClampScenarios | lib/utils/math.js:23-25 | `clamp(0.5)` is 0.5, `clamp(-1.5)` is 0, `clamp(5.2)` is 1; values with explicit bounds, including negative ranges |
| MathUtils.ClampByteScenarios | lib/utils/math.js:33 | 64 gives 64, -2 gives 0, 512 gives 255, 32.5 gives 32, -0.5 gives 0, 254.6 gives 254 |
| MathUtils.ClampByteOfByte | lib/utils/math.js:33 | `clampByte` is the identity on the integers 0..255 |
| MathUtils.ClampByteIdempotent | lib/utils/math.js:33 | `clampByte` applied twice gives what it gives once |
| Regexps.LeadingDigits | lib/utils/regexp.js:56 | the length of the leading `\d*` run: all digits before it and a non-digit (or the end) after it |
| Regexps.Unsigned | lib/utils/regexp.js:52 | `[+-]?`: the string itself, or the string without its one leading sign |
| Regexps.FirstExponentMark | lib/utils/regexp.js:56 | the position of the first `e`/`E`: no marker before it, a marker at it unless it is the end |
| Regexps.HexMatch | lib/utils/regexp.js:48 | a match captures 3 to 8 hexadecimal digits, which are the whole string or the string after one `#` |
| Regexps.HexMatchAccepts | lib/utils/regexp.js:48 | every run of 3 to 8 hexadecimal digits of either case matches, with or without `#`, and is the capture |
| Regexps.CaptureAll | lib/utils/regexp.js:24-27 | one group list per match, in match order, each exactly that match's groups |
| Regexps.CaptureFirst | lib/utils/regexp.js:38-42 | `null` exactly when there is no match; otherwise the first match's groups |
| Regexps.MantissaChars | lib/utils/regexp.js:56 | a `\d*\.?\d+` mantissa is non-empty, ends in a digit, and holds only digits and points |
| Regexps.NumberChars | lib/utils/regexp.js:56 | a `regexpNumber` match ends in a digit and holds only digits, points, signs and `e` |
| Regexps.IntegerIsNumber | lib/utils/regexp.js:52-56 | every `regexpInteger` match also matches `regexpNumber`, so only the classifier's order separates INTEGER from FLOAT |
| Regexps.PercentIsNotNumber | lib/utils/regexp.js:52-60 | a `regexpPercent` match matches neither `regexpNumber` nor `regexpInteger` |
| Regexps.IntegerScenarios | lib/utils/regexp.js:52 | `50` and `-5` are integers, `3.14` is not |
| Regexps.FractionScenarios | lib/utils/regexp.js:56 | `3.14` and `-.5` are numbers |
| Regexps.ExponentScenarios | lib/utils/regexp.js:56 | `2e2` and `6.4E1` are numbers (the exponent marker in either case) |
| Regexps.NumberRejections | lib/utils/regexp.js:56 | `1e`, `e5`, `+-1` and `none` are not numbers |
| Regexps.PercentScenarios | lib/utils/regexp.js:60 | `50%`, `50.0%` and `-20%` are percentages; `50%0` and `none` are not |
| Text.SkipSpaces | lib/utils/regexp.js:67 | `\s*` from a position: every character skipped is white space and the one after the run is not |
| Text.SkipSpacesOver | lib/utils/regexp.js:67 | a white-space run that ends before a non-space is exactly what `\s*` consumes |
| Text.ToLower | src/utils/params.ts:41 | `toLowerCase` on the ASCII letters: same length, each of `A`-`Z` lower-cased, every other character unchanged |
| Text.Trim | src/utils/params.ts:41 | `trim`: a slice of the string with only white space cut from either end, and no white space left at its ends |
| Text.TrimAround | src/utils/params.ts:41 | white space around a token whose ends are not white space is exactly what `trim` removes |
| Text.NatTextValue | src/utils/params.ts:65 | the decimal text of a non-negative integer reads back as that integer |
| Text.HexValueAppend | lib/RGB.js:397-406 | the value of two concatenated hexadecimal digit strings is the first shifted by the length of the second plus the second |
| Text.HexPair | lib/RGB.js:236-251 | `toString(16).padStart(2, '0')` of a byte: two lower-case hexadecimal digits whose value is that byte |
| Params.ConvertParam | src/utils/params.ts:64-87 | `convertParam` echoes its argument as `original` |
| Params.KindsInOrder | src/utils/params.ts:40-56 | the first-match-wins order, both directions: NONE iff the cleaned token is `none`; INTEGER iff an integer; PERCENTAGE iff a percentage; FLOAT iff a number but no integer; UNKNOWN iff no recogniser accepts it |
| Params.CleanIdempotent | lib/utils/params.js:29-30 | cleaning is idempotent, and a cleaned token has the kind and value of the raw one |
| Params.TrimNoSpaces | lib/utils/params.js:30 | `trim` leaves a token alone whose ends are not white space |
| Params.CleanPlain | lib/utils/params.js:30 | a token of digits, lower-case letters, `.`, `%` and signs is its own cleaned form |
| Params.ConvertPlain | lib/utils/params.js:43-65 | such a token is classified and converted exactly as it stands |
| Params.IntegerValueIsNumberValue | src/utils/params.ts:69-74 | on an integer token `parseInt` and `parseFloat` read the same value |
| Params.MantissaIsNumber | src/utils/params.ts:72-77 | a bare mantissa reads as a number to its signed decimal value |
| Params.PercentIsNumberOver100 | src/utils/params.ts:75-77 | a percentage's value is `parseFloat` of the text before `%`, divided by 100 |
| Params.IntTextShape | src/utils/params.ts:65 | the printed form of an integer is an integer token whose value is that integer |
| Params.IntTextIsInteger | src/utils/params.ts:64-71 | the printed form of an integer classifies as INTEGER with that integer as its value |
| Params.ConvertNumber | src/utils/params.ts:64-87 | a number converts to itself: INTEGER when it prints as an integer, FLOAT otherwise |
| Params.CleanAround | src/utils/params.ts:41 | white space around a token does not change its cleaned form |
| Params.NoneKeyword | src/utils/params.ts:43-44 | `none` in any case and with any surrounding white space is NONE with value 0 |
| Params.DecimalPercentScenario | src/utils/params.ts:49-50 | `50.0%` is a PERCENTAGE |
| Params.PercentNotLastScenario | src/utils/params.ts:49-55 | `50%0` is UNKNOWN |
| Params.DecimalScenario | src/utils/params.ts:46-53 | `50.0` is a FLOAT, not an INTEGER |
| Params.ExponentScenario | src/utils/params.ts:52-53 | `1.5e2` is a FLOAT |
| Params.IntegerScenarios | src/utils/params.ts:69-71 | `-5` is an INTEGER; `50` reads 50 and `-5` reads -5 |
| Params.PercentScenario | src/utils/params.ts:75-77 | `50%` is a PERCENTAGE of value 0.5 |
| Params.OverPercentScenario | src/utils/params.ts:75-77 | `150%` is a PERCENTAGE of value 1.5: no clamping here |
| Params.NegativePercentScenario | src/utils/params.ts:75-77 | `-20%` is a PERCENTAGE of value -0.2 |
| Params.FloatScenario | src/utils/params.ts:72-74 | `3.14` is a FLOAT of value 3.14 |
| Params.ExponentValueScenario | src/utils/params.ts:72-74 | `2e2` is a FLOAT of value 200 |
| Params.NumberParamScenarios | src/utils/params.ts:64-66 | the number 3.14 converts to FLOAT 3.14 and the number 50 to INTEGER 50, echoing the number |
| Params.UnknownScenarios | src/utils/params.ts:55-79 | `bad` and `some` are UNKNOWN, with value 0 |
| Params.DanglingExponentScenario | lib/utils/params.js:37-39 | `1e` is UNKNOWN |
| Objects.Check | src/utils/objects.ts:38-42 | `check` holds of an entry iff some test has its key and, unless types are ignored, its type |
| Objects.SomeChecks | src/utils/objects.ts:44-45 | `some(check)` holds iff `check` holds of some entry |
| Objects.EveryCheck | src/utils/objects.ts:47-48 | `every(check)` holds iff `check` holds of every entry |
| Objects.CheckInPattern | src/utils/objects.ts:34-42 | `check` of an entry holds iff the pattern has its key (and its type unless ignored), both directions |
| Objects.LooseMatches | src/utils/objects.ts:44-45 | loose mode holds iff some entry of the object has a pattern key with a value of the same `typeof` (unless ignored) |
| Objects.StrictMatches | src/utils/objects.ts:47-48 | strict mode holds iff every entry of the object has a pattern key with a value of the same `typeof` (unless ignored) |
| Objects.EmptyObject | src/utils/objects.ts:44-48 | an empty object passes strict mode and fails loose mode |
| Objects.IgnoreTypeKeysOnly | src/utils/objects.ts:39-40 | with `ignoreType` only keys matter: objects with the same keys get the same answer |
| Objects.ExtraKey | src/utils/objects.ts:34-48 | a key outside the pattern makes strict mode fail and leaves loose mode unchanged |
| Objects.HslPatternScenario | src/utils/objects.ts:28-49 | an object with `hue` and another key matches an HSL pattern loosely but not strictly; a string `hue` fails unless types are ignored |
| DraftRegexps.FuncMatch | src/utils/regexp.ts:25 | a `regexpFunc` match captures a letters-only name and a body of digits, white space, `.`, `,` and `%`, and the string is exactly name, `(`, body, `)` |
| DraftRegexps.FuncMatchWritten | src/utils/regexp.ts:25 | every letters-only name with a parenthesised body of those characters matches, capturing that name and that body |
| DraftRegexps.TokenRun | src/utils/regexp.ts:38 | the run of `[\d.%]` characters from a position: all parameter characters, stopped by a non-parameter character or the end |
| DraftRegexps.ParamRunsFrom | src/utils/regexp.ts:38 | every token `regexpParams` finds is a non-empty run of `[\d.%]` |
| DraftRegexps.ParamRuns | src/utils/regexp.ts:38 | the matches of the global `regexpParams` on a string are non-empty `[\d.%]` runs |
| DraftRegexps.MoreParamsRest | src/utils/regexp.ts:33 | a tail of comma-separated tokens (white space allowed around each comma) matches `(?:\s*,\s*[\d.%]+)*$` |
| DraftRegexps.RunsRest | src/utils/regexp.ts:38 | on such a tail `regexpParams` finds exactly its tokens, in order |
| DraftRegexps.JoinRoundTrip | src/utils/regexp.ts:33-38 | two or more tokens joined by commas with optional white space pass `regexpValidateParams`, and `regexpParams` gives back exactly those tokens, in order |
| DraftRegexps.RestFromSound | src/utils/regexp.ts:33 | what `(?:\s*,\s*[\d.%]+)*$` crosses to the end of the string is a tail of well-formed commas and tokens that spells exactly that rest |
| DraftRegexps.ValidParamsList | src/utils/regexp.ts:33-38 | every string `regexpValidateParams` accepts is two or more tokens joined by commas with optional white space, and `regexpParams` finds exactly those tokens |
| DraftRegexps.ValidParamsIff | src/utils/regexp.ts:33 | `regexpValidateParams` accepts a string if and only if it is two or more tokens joined by commas with optional white space around each comma |
| DraftRegexps.StrayCharRejected | src/utils/regexp.ts:25 | a character outside `[\d\s.,%]` that follows a non-letter and is not the last character makes `regexpFunc` fail, since the name stops at the first non-letter |
| DraftRegexps.FuncMatchAccepts | src/utils/regexp.ts:25 | `rgb(255, 0, 128)` splits into `rgb` and `255, 0, 128` |
| DraftRegexps.FuncMatchRejects | src/utils/regexp.ts:25 | a sign (`rgb(-1, 0, 0)`) or a keyword (`rgb(none)`) in the body is rejected |
| DraftRegexps.ValidParamsAccepts | src/utils/regexp.ts:33-38 | `10, 20%, .5` is a valid list whose tokens are `10`, `20%`, `.5` |
| DraftRegexps.ValidParamsRejects | src/utils/regexp.ts:33 | a single token and a leading, trailing or doubled comma are rejected |
| RGBFuncRegexp.NumberRun | lib/utils/regexp.js:67 | the run of characters a number can contain, from a position, stopped by any other character or the end |
| RGBFuncRegexp.MantissaRun | lib/utils/regexp.js:67 | the run of digits and points from a position, stopped by any other character or the end |
| RGBFuncRegexp.AcceptedEndsExact | lib/utils/regexp.js:67 | the candidate ends of an alternative are exactly the ends of the prefixes it accepts |
| RGBFuncRegexp.AcceptedEndsDescending | lib/utils/regexp.js:67 | candidate ends are listed longest first, the order in which greedy quantifiers give characters back |
| RGBFuncRegexp.NumberEndsExact | lib/utils/regexp.js:67 | the number candidates at a position are exactly the ends of the numbers that start there |
| RGBFuncRegexp.PercentEndExact | lib/utils/regexp.js:67 | the percentage candidate at a position is exactly the end of the unsigned percentage that starts there |
| RGBFuncRegexp.ComponentEndsSound | lib/utils/regexp.js:67 | every candidate the matcher tries for a group is a component: `none`, a number or an unsigned percentage |
| RGBFuncRegexp.ComponentEndsComplete | lib/utils/regexp.js:67 | every component that starts at a position is among the candidates tried there |
| RGBFuncRegexp.ListSepEnd | lib/utils/regexp.js:67 | `\s*,?\s*` ends at or after where it starts |
| RGBFuncRegexp.AlphaSepEnd | lib/utils/regexp.js:67 | `\s*[,/]\s+`, when it matches, consumes at least one character |
| RGBFuncRegexp.PrefixEnd | lib/utils/regexp.js:67 | `^rgba?\(\s*` under the `i` flag ends within the string |
| RGBFuncRegexp.AlphaAt | lib/utils/regexp.js:67 | a match that closes after the alpha group captures it as the fourth group |
| RGBFuncRegexp.TryAlpha | lib/utils/regexp.js:67 | a successful alpha search keeps the three earlier groups and adds a captured fourth |
| RGBFuncRegexp.BlueAt | lib/utils/regexp.js:67 | a match continuing after the blue group keeps the earlier groups and captures blue third |
| RGBFuncRegexp.TryBlue | lib/utils/regexp.js:67 | a successful blue search keeps the two earlier groups and captures a third |
| RGBFuncRegexp.GreenAt | lib/utils/regexp.js:67 | a match continuing after the green group captures it second and blue third |
| RGBFuncRegexp.TryGreen | lib/utils/regexp.js:67 | a successful green search keeps red and captures green and blue |
| RGBFuncRegexp.RedAt | lib/utils/regexp.js:67 | a match continuing after the red group captures it first, with three groups present |
| RGBFuncRegexp.TryRed | lib/utils/regexp.js:67 | a successful search captures red, green and blue, and alpha optionally |
| RGBFuncRegexp.MatchRGBFunc | lib/utils/regexp.js:67 | every match has four group slots, the first three captured |
| RGBFuncRegexp.WrittenMatch | lib/utils/regexp.js:67 | the pattern as written (numbers tried before percentages) captures red, green and blue whenever it matches |
| RGBFuncRegexp.CorrectedMatch | lib/utils/regexp.js:67 | the pattern with percentages tried first captures red, green and blue whenever it matches |
| RGBFuncRegexp.WholeMatches | lib/utils/regexp.js:24-42 | an anchored pattern has at most one match, and `captureFirst` of it gives that match's groups or `null` |
| RGBFuncRegexp.AcceptedEndsAll | lib/utils/regexp.js:67 | when every prefix is accepted, every end is a candidate, longest first |
| RGBFuncRegexp.DigitPrefixEnds | lib/utils/regexp.js:67 | every prefix of a digit run is a number candidate, longest first |
| RGBFuncRegexp.DigitPercentEnds | lib/utils/regexp.js:67 | before `DD%` the candidates are the digit prefixes longest first, with the percentage last as written or first when corrected |
| RGBFuncRegexp.NoComponentAtPercent | lib/utils/regexp.js:67 | no component starts at a `%` |
| RGBFuncRegexp.SplitShapeSeparators | lib/utils/regexp.js:67 | on `rgb(DD%,D%, D%)` the prefix ends at 4, and where each separator ends and where the text may close |
| RGBFuncRegexp.SplitShapeEnds | lib/utils/regexp.js:67 | the candidates the matcher tries at each component start of `rgb(DD%,D%, D%)` |
| RGBFuncRegexp.WrittenMatchSplitsPercent | lib/utils/regexp.js:67 | as written, `rgb(DD%,D%, D%)` matches with `DD%` split in two: the groups are `D`, `D%`, `D%`, `D%` |
| RGBFuncRoundTrip.GroupsAsWritten | lib/utils/regexp.js:67 | the text between the positions of a written-out notation is its components, in order |
| RGBFuncRoundTrip.SearchNotation | lib/utils/regexp.js:67 | a search whose first candidate at each component is the component as written returns the groups as written |
| RGBFuncRoundTrip.MatchFromPrefix | lib/utils/regexp.js:67 | once the `rgba?(` prefix is read, the match is the search from the first component |
| RGBFuncRoundTrip.ReadBack | lib/utils/regexp.js:67 | round trip: a well-formed `rgb()`/`rgba()` string matches with exactly the components it was written with, when percentages are tried first or there are none |
| RGBFuncSoundness.TryRedSound | lib/utils/regexp.js:67 | a search over component candidates captures only components |
| RGBFuncSoundness.MatchSound | lib/utils/regexp.js:67 | whatever the pattern matches, it captures red, green and blue, each group a component |
| RGB.ToUint32 | lib/RGB.js:211 | `>>> 0` gives a value in 0..2^32-1 and leaves such a value unchanged |
| RGB.ToInt32 | lib/RGB.js:203-210 | the signed operators first reduce to a 32-bit signed value congruent to the input |
| RGB.ByteAt | lib/RGB.js:362-367 | `(int >> 8k) & 0xFF` of a non-negative value is a byte |
| RGB.RGBA.AlphaByte | lib/RGB.js:205 | `Math.trunc(alpha * 255)` is a byte at most alpha times 255 and within one of it |
| RGB.RGBA.IntegerOf | lib/RGB.js:202-212 | the value `toInteger` returns lies in 0..2^32-1, and below 2^24 when the alpha is not shown |
| RGB.RGBA.ToHexString | lib/RGB.js:236-251 | `#` and 6 hexadecimal digits, or 8 exactly when alpha is forced or not 1, with no upper-case letter |
| RGB.Enc | lib/RGB.js:238 | `enc(val)`: two lower-case hexadecimal digits whose value is the low byte of the truncated value |
| RGB.ChannelValue | lib/RGB.js:317-324 | the channel a token sets is a byte: INTEGER clamped, FLOAT truncated, PERCENTAGE scaled by 255 and truncated, other kinds 0 |
| RGB.AfterSet | lib/RGB.js:307-336 | `set` keeps a valid colour valid, and arguments after the fourth are ignored |
| RGB.AfterFromInteger | lib/RGB.js:349-369 | `fromInteger` keeps a colour valid; without `useAlpha` the alpha is unchanged |
| RGB.ShortHex | lib/RGB.js:395-406 | the 3- and 4-digit forms give a valid colour |
| RGB.LongHex | lib/RGB.js:407-414 | the 6- and 8-digit forms give a valid colour |
| RGB.AfterFromHex | lib/RGB.js:388-422 | `fromHexString` fails iff the string is no `regexpHex` match or has 5 or 7 digits; on success the colour stays valid |
| RGB.GroupTokens | lib/RGB.js:459 | the captured groups become the arguments of `set`, a group that took no part becoming `undefined` |
| RGB.AfterFromFunc | lib/RGB.js:452-460 | `fromFuncString` fails iff the cleaned string does not match `regexpRGBFunc` as written (numbers tried before percentages); on success the colour stays valid |
| RGB.AfterFromString | lib/RGB.js:513-543 | `transparent` in any case or spacing gives (0, 0, 0, 0); any success keeps the colour valid |
| RGB.AfterFromObject | lib/RGB.js:573-580 | `fromObject` always gives a valid colour; a missing channel is 0 and a missing alpha is 1 |
| RGB.AfterParse | lib/RGB.js:592-612 | `parse` fails only on a string no format accepts or on an unsupported type; success keeps the colour valid |
| RGB.ColorRGB.constructor | lib/RGB.js:77-91 | a new colour is opaque black |
| RGB.ColorRGB.SetRed | lib/RGB.js:112-114 | `set red` stores `clampByte` of the value and changes nothing else |
| RGB.ColorRGB.SetGreen | lib/RGB.js:121-123 | `set green` stores `clampByte` of the value and changes nothing else |
| RGB.ColorRGB.SetBlue | lib/RGB.js:130-132 | `set blue` stores `clampByte` of the value and changes nothing else |
| RGB.ColorRGB.SetAlpha | lib/RGB.js:139-141 | `set alpha` stores the value clamped to [0, 1] and changes nothing else |
| RGB.ColorRGB.Set | lib/RGB.js:307-336 | the loop over the arguments leaves the colour valid and equal to `AfterSet` of the old colour |
| RGB.ColorRGB.FromInteger | lib/RGB.js:349-369 | the signed shifts and masks leave the colour valid and equal to `AfterFromInteger` |
| RGB.ColorRGB.FromHexString | lib/RGB.js:388-422 | on success the colour is `AfterFromHex`; on failure the error is returned and the colour is unchanged |
| RGB.ColorRGB.FromFuncString | lib/RGB.js:452-460 | on success the colour is `AfterFromFunc`; on failure the error is returned and the colour is unchanged |
| RGB.ColorRGB.FromString | lib/RGB.js:513-543 | on success the colour is `AfterFromString`; on failure the error is returned and the colour is unchanged |
| RGB.ColorRGB.FromArray | lib/RGB.js:556-558 | `fromArray` is `set` of the elements |
| RGB.ColorRGB.FromObject | lib/RGB.js:573-580 | the four setter calls leave the colour equal to `AfterFromObject` |
| RGB.ColorRGB.Parse | lib/RGB.js:592-612 | on success the colour is `AfterParse`; on failure the error is returned and the colour is unchanged |
| RGB.ColorRGB.ToInteger | lib/RGB.js:202-212 | the 32-bit signed shifts and `>>> 0` give exactly the byte layout `IntegerOf` |
| RGB.ColorRGB.ToString | lib/RGB.js:161-179 | each format prints its serialiser's text, and an unknown format prints as HEX |
| RGB.SetPrefix | lib/RGB.js:310-333 | each further argument of `set` changes only the slot it is for |
| RGB.ShortHexBits | lib/RGB.js:393-406 | the masks, shifts and `htf` of the short forms pick one digit per channel, duplicated |
| RGB.LongHexBits | lib/RGB.js:407-414 | the 6- and 8-digit forms are `fromInteger` of the digits' value, without alpha and with it |
| RGB.AppendPair | lib/RGB.js:390 | two more hexadecimal digits shift the value up one byte |
| RGB.Decompose | lib/RGB.js:362-367 | a 32-bit value is the sum of its four bytes in place |
| RGB.AlphaOnTop | lib/RGB.js:207-208 | `value \|= alpha << 24` then `>>> 0` puts the alpha byte above the colour bytes, sign bit included |
| RGB.AlphaBelow | lib/RGB.js:209-210 | `(value << 8) \| alpha` then `>>> 0` moves the colour bytes up and puts alpha in the low byte |
| RGB.SignedBytes | lib/RGB.js:353-366 | the signed reading of a 32-bit value has the same bytes under `>>` and `& 0xFF` |
| RGB.MaskedBytes | lib/RGB.js:357-358 | `int & 0xFFFFFF` keeps the three low bytes |
| RGB.ShiftedBytes | lib/RGB.js:359-360 | `int >>= 8` moves each byte down one place |
| RGB.Short3 | lib/RGB.js:395-399 | the 3-digit form's masks and `htf` give 17 times each digit |
| RGB.Short4 | lib/RGB.js:400-406 | the 4-digit form's masks and `htf` give 17 times each digit |
| RGB.Bytes3 | lib/RGB.js:203 | three bytes laid out from the most significant down are read back in place |
| RGB.Bytes4 | lib/RGB.js:207-210 | four bytes laid out are read back in place |
| RGB.IntegralUint32 | lib/RGB.js:351 | `value >>> 0` is the identity on integers 0..2^32-1 |
| RGBLaws.AlphaQuantised | lib/RGB.js:205 | the stored alpha byte over 255 is within 1/255 below the alpha and reads back as the same byte |
| RGBLaws.IntegerRoundTrip | lib/RGB.js:202-212 | `fromInteger(toInteger(true, msb), true, msb)` restores red, green and blue exactly and sets alpha to `trunc(alpha*255)/255`, whatever colour it is applied to |
| RGBLaws.OpaqueIntegerRoundTrip | lib/RGB.js:349-369 | `fromInteger(toInteger())` of an opaque colour restores the channels and keeps the target's alpha |
| RGBLaws.IntegerStable | lib/RGB.js:202-212 | after one integer round trip a second one gives the same integer |
| RGBLaws.HexDigitsLayout | lib/RGB.js:236-251 | the digits of `toHexString` are a pair per channel, with the alpha pair first (MSB) or last (LSB) when shown |
| RGBLaws.EncByte | lib/RGB.js:238 | the pair `enc` writes for a byte reads back as that byte |
| RGBLaws.HexIsInteger | lib/RGB.js:236-251 | the digits of `toHexString` spell the number `toInteger` returns with the same flags |
| RGBLaws.LongHexOf3 | lib/RGB.js:407-410 | six digits read as three pairs and keep the alpha |
| RGBLaws.LongHexOf4 | lib/RGB.js:411-414 | eight digits read as four pairs, the last the alpha byte |
| RGBLaws.HexRoundTrip | lib/RGB.js:388-422 | `fromHexString(toHexString(force))` restores the channels, and the quantised alpha when it was written; otherwise the alpha is kept |
| RGBLaws.NoUpperConcat | lib/RGB.js:452 | concatenating strings without upper-case letters gives one |
| RGBLaws.LowerCaseFixed | lib/RGB.js:453 | lower-casing a string without upper-case letters changes nothing |
| RGBLaws.ByteTextChannel | lib/RGB.js:317-318 | the decimal text of a byte as a `set` argument sets the channel to that byte |
| RGBLaws.OpaqueNotation | lib/RGB.js:273-277 | the opaque `toFuncString` layout is a well-formed functional notation |
| RGBLaws.OpaqueFuncText | lib/RGB.js:276 | the opaque `toFuncString` text is the text of that notation |
| RGBLaws.DigitsNoUpper | lib/RGB.js:276 | decimal digits contain no upper-case letter |
| RGBLaws.OpaqueFuncNoUpper | lib/RGB.js:276 | the opaque `toFuncString` text has no upper-case letter |
| RGBLaws.OpaqueFuncClean | lib/RGB.js:452-453 | the opaque `toFuncString` text is its own trimmed, lower-cased form |
| RGBLaws.FuncRoundTrip | lib/RGB.js:452-460 | `fromFuncString(toFuncString())` of an opaque colour restores its channels and keeps the target's alpha |
| RGBLaws.OpaqueTokens | lib/RGB.js:307-336 | the captured groups of that text, passed to `set`, set the three channels and keep the alpha |
| RGBLaws.NumberChannel | lib/RGB.js:317-321 | a number argument of `set` sets its channel to the number clamped to a byte, fraction dropped |
| RGBLaws.NumberTokens | lib/RGB.js:556-558 | the elements of an array become the arguments of `set`, one each, in order |
| RGBLaws.ArrayRoundTrip | lib/RGB.js:285-287 | `fromArray(toArray())` restores the colour exactly, whatever it is applied to |
| RGBLaws.ObjectRoundTrip | lib/RGB.js:573-580 | `fromObject({r, g, b, a})` of a colour gives that colour |
| RGBLaws.ObjectLongNames | lib/RGB.js:574-577 | the full names are read when the one-letter ones are missing, and `opacity` after `alpha` |
| RGBLaws.FromStringHexFirst | lib/RGB.js:524-531 | a string that is not `transparent` nor a name and reads as hexadecimal is read as such |
| RGBLaws.HexClean | lib/RGB.js:514 | `toHexString`'s text is already trimmed and lower-case |
| RGBLaws.HexStringRoundTrip | lib/RGB.js:513-543 | `fromString(toHexString(force))` restores the channels, and the quantised alpha when written |
| RGBLaws.NamedColour | lib/RGB.js:522-523 | a colour name in any case and spacing is read as the hexadecimal text the table gives it |
| RGBLaws.ToIntegerScenarios | lib/RGB.js:202-212 | (255, 127, 64) gives 0xFF7F40 opaque, 0xFF7F407F at alpha 0.5, 0xFF7F40FF forced, 0x7FFF7F40 with alpha first |
| RGBLaws.FromIntegerScenarios | lib/RGB.js:349-369 | 0xFF8840 gives (255, 136, 64); 0xFF884080 (alpha low) and 0x80FF8840 (alpha high) add alpha 128/255 |
| RGBLaws.FromFractionScenario | lib/RGB.js:351 | the fraction of the number is dropped before its bytes are read |
| RGBLaws.FromHexScenarios | lib/RGB.js:388-422 | `#F83` is (255, 136, 51), `#F83A` adds alpha 170/255, `#01234` is a length error, `bad string` fails |
| RGBLaws.SetNumberScenarios | lib/RGB.js:307-336 | `set(512, -52)` clamps, `set(255.5, 32.6)` truncates, an alpha of 2 or -0.5 is clamped to 1 or 0 |
| RGBLaws.SetSkipsScenario | lib/RGB.js:311-333 | `null` arguments are skipped and a fifth is ignored |
| RGBLaws.ParseFalsyScenario | lib/RGB.js:592-612 | `parse(0)` and `parse("")` change nothing, `fromInteger(0)` is black, another truthy type fails |
| DraftRGB.Units.Bytes | src/RGB.ts:62-108 | the byte getters read the stored units as a valid byte colour |
| DraftRGB.Units.AlphaComp | src/RGB.ts:186 | `Math.round(alpha * 255) & 0xFF` is the byte nearest to alpha times 255 |
| DraftRGB.Units.WrittenInteger | src/RGB.ts:178-194 | `toInteger` as written returns a signed 32-bit value |
| DraftRGB.Units.IntegerValue | src/RGB.ts:178-194 | `toInteger` as intended returns an unsigned 32-bit value, below 2^24 when the alpha is not shown |
| DraftRGB.Units.WrittenHexString | src/RGB.ts:196-216 | `toHexString` as written is `#` and 6 digits, or 8 when alpha is forced or not 1 |
| DraftRGB.Units.HexString | src/RGB.ts:196-216 | `toHexString` as intended is `#` and 6 or 8 hexadecimal digits, by the same rule |
| DraftRGB.Units.ToArray | src/RGB.ts:222-224 | `toArray` is the three stored unit numbers and the alpha, all in [0, 1] |
| DraftRGB.Units.Formatted | src/RGB.ts:136-154 | `toString` prints the empty string exactly for the two functional formats (a stub), the as-written hex text for an unknown format, and `#` with 6 or 8 digits for every hex format |
| DraftRGB.ByteOf | src/RGB.ts:62-64 | the byte getter gives the byte nearest to the unit times 255 |
| DraftRGB.UnitOf | src/RGB.ts:66-68 | the byte setter stores a unit in [0, 1], exactly the byte over 255 inside 0..255 |
| DraftRGB.ColorRGB.constructor | src/RGB.ts:38-57 | a new colour is opaque black |
| DraftRGB.ColorRGB.SetRed | src/RGB.ts:66-68 | `set red` stores `clamp(b, 0, 255) / 255` and changes nothing else |
| DraftRGB.ColorRGB.SetGreen | src/RGB.ts:88-90 | `set green` stores `clamp(b, 0, 255) / 255` and changes nothing else |
| DraftRGB.ColorRGB.SetBlue | src/RGB.ts:110-112 | `set blue` stores `clamp(b, 0, 255) / 255` and changes nothing else |
| DraftRGB.ColorRGB.SetRedUnit | src/RGB.ts:77-79 | `set redUnit` stores the value clamped to [0, 1] |
| DraftRGB.ColorRGB.SetGreenUnit | src/RGB.ts:99-101 | `set greenUnit` stores the value clamped to [0, 1] |
| DraftRGB.ColorRGB.SetBlueUnit | src/RGB.ts:121-123 | `set blueUnit` stores the value clamped to [0, 1] |
| DraftRGB.ColorRGB.SetAlpha | src/RGB.ts:132-134 | `set alpha` stores the value clamped to [0, 1] |
| DraftRGB.ColorRGB.ToInteger | src/RGB.ts:178-194 | accumulating into `value` gives the intended unsigned integer |
| DraftRGB.ByteSetGet | src/RGB.ts:62-68 | setting a channel to a byte and reading it back gives that byte |
| DraftRGB.ByteGetSet | src/RGB.ts:62-68 | reading a byte and setting it back moves the unit by at most half a byte step |
| DraftRGB.PackHigh | src/RGB.ts:178-194 | the alpha byte shifted to the top and read signed, joined with the colour bytes, stays within signed 32 bits |
| DraftRGB.PackLow | src/RGB.ts:178-194 | the colour bytes shifted up by a byte and read signed, joined with the alpha byte, stay within signed 32 bits |
| DraftRGB.WrittenIntegerAlwaysAlpha | src/RGB.ts:185 | as written the alpha byte is always appended, as if `forceAlpha` were set |
| DraftRGB.WrittenIntegerOpaqueBlack | src/RGB.ts:185 | opaque black without `forceAlpha`: 255 as written, 0 as intended |
| DraftRGB.WrittenIntegerOpaqueWhite | src/RGB.ts:188-193 | opaque white with its alpha: -1 as written (no `>>> 0`), 0xFFFFFFFF as intended |
| DraftRGB.IntegerBytes | src/RGB.ts:178-194 | the intended integer holds the channel bytes, and the alpha byte on top or at the bottom when shown |
| DraftRGB.EncUnit | src/RGB.ts:198 | `enc` of a unit number reads 0, or 1 for exactly 1 |
| DraftRGB.WrittenHexChannels | src/RGB.ts:201-208 | as written every channel pair reads 0 or 1, whatever the colour |
| DraftRGB.EncScenarios | src/RGB.ts:198 | `enc` writes `00`, `01` and `ff` for 0, 1 and 255 |
| DraftRGB.WrittenHexWhite | src/RGB.ts:196-216 | opaque white: `#010101` as written, `#ffffff` as intended |
| DraftRGB.HexStringOfBytes | src/RGB.ts:196-216 | the intended text is the one the byte-storage class writes for the byte view |
| DraftRGB.HexStringReadBack | src/RGB.ts:196-216 | the intended text reads back through `fromHexString` as the byte view, the alpha quantised where written |
| DraftRGB.FormattedScenarios | src/RGB.ts:136-154 | as written, red prints `#010000` as HEX and for an unknown format, and blue prints `65535` as INTEGER (the alpha byte always appended) |
| HSL.HSLA.Get | src/HSL.ts:430-438 | `get(index)` gives hue, saturation, lightness or alpha for 0 to 3, and 0 for any other index |
| HSL.SlotValue | src/HSL.ts:227-257 | one argument is accepted exactly when its kind suits its slot (no percentage hue, no angle or text elsewhere), else the error names the index and the argument; `none` gives 0, a number hue is wrapped, saturation and lightness are clamped to [0, 1], a number alpha is clamped |
| HSL.Converted | src/HSL.ts:220-225 | `convertParam` is applied to every present argument and to no missing one |
| HSL.Step | src/HSL.ts:220-260 | one loop turn keeps the tuple at four components |
| HSL.ApplyPrefix | src/HSL.ts:213-261 | every prefix of the loop keeps a four-component tuple |
| HSL.FailureSticks | src/HSL.ts:220-261 | once the loop throws, no later argument changes the outcome |
| HSL.Apply | src/HSL.ts:211-264 | the loop writing the slots of a local tuple computes the specified `apply`, error included |
| HSL.ApplyPrefixClosed | src/HSL.ts:213-261 | a prefix of the loop succeeds exactly when every present argument in it is accepted, and then each slot holds its argument's value or its default |
| HSL.ApplyClosedForm | src/HSL.ts:211-264 | `apply` succeeds exactly when every present argument among the first four is accepted, and each component is then its argument's value or the default (0, 0, 0, 1) |
| HSL.ApplyDefaults | src/HSL.ts:213-223 | without arguments, or with missing ones only, `apply` gives (0, 0, 0, 1) |
| HSL.FirstRejected | src/HSL.ts:220-257 | when some argument is rejected there is a first one, within the first four, with all before it accepted |
| HSL.FirstFailure | src/HSL.ts:220-257 | the error `apply` throws is the one of the first rejected argument |
| HSL.ApplyRejects | src/HSL.ts:227-257 | `apply` fails if and only if a present argument among the first four is rejected, and the error names the first such index and its argument |
| HSL.ApplyIgnoresExtra | src/HSL.ts:258-259 | arguments after the fourth do not change the result |
| HSL.ApplyRanges | src/HSL.ts:239-252 | a successful `apply` has saturation and lightness in [0, 1], and an alpha in [0, 1] unless it came from a percentage |
| HSL.ApplyNone | src/HSL.ts:234-254 | `none` in any of the four slots makes that component 0 |
| HSL.PercentageHue | src/HSL.ts:236-237 | a percentage hue is rejected with an error naming index 0 |
| HSL.AlphaOnly | src/HSL.ts:248-257 | an alpha alone gives (0, 0, 0, its slot value) |
| HSL.PercentParam | src/HSL.ts:225 | `150%` converts to the percentage 1.5 |
| HSL.AlphaOf | src/HSL.ts:211-264 | `apply` of three missing components and an alpha gives (0, 0, 0, the alpha's slot value) |
| HSL.AlphaPercentScenario | src/HSL.ts:251-252 | the alpha `150%` is stored as 1.5, not clamped |
| HSL.AlphaNumberScenario | src/HSL.ts:249-250 | the alpha 1.5 as a number is clamped to 1 |
| HSL.Fill | src/HSL.ts:442-443 | every argument the map visits is present afterwards, and the length is kept |
| HSL.Pad | src/HSL.ts:442 | the padded argument list has exactly four entries |
| HSL.RefillComponent | src/HSL.ts:443 | a current component put back through `apply` is kept, the hue only wrapped |
| HSL.SetWrittenDropsMissing | src/HSL.ts:440-447 | `set(x)` as written resets saturation, lightness and alpha to 0, 0 and 1 instead of keeping them |
| HSL.SetFilledKeeps | src/HSL.ts:440-447 | the intended `set` succeeds exactly when the given arguments are accepted, and keeps each component without an argument |
| HSL.SetFilledNothing | src/HSL.ts:440-447 | the intended `set()` gives the colour back, the hue wrapped |
| HSL.SetAlpha | src/HSL.ts:449-451 | `setAlpha` replaces the alpha, unclamped, and keeps the other three components |
| HSL.ToArray | src/HSL.ts:347-358 | `toArray` lists hue, saturation and lightness, and the alpha exactly when forced or not 1 |
| HSL.ToObject | src/HSL.ts:360-371 | `toObject` has `h`, `s` and `l`, and `a` exactly when the alpha is forced or not 1 |
| HSLConvert.Abs | src/HSL.ts:136 | `Math.abs` is non-negative and is the number or its negation |
| HSLConvert.TruncRem | src/HSL.ts:118 | JavaScript's `% d` has the sign of the dividend and a magnitude below `d` |
| HSLConvert.FlooredMod | src/HSL.ts:118 | the floored remainder the hue needs lies in [0, d) |
| HSLConvert.RemainderBelow | src/HSL.ts:118 | a non-negative dividend leaves a remainder in [0, d) |
| HSLConvert.RemainderAbove | src/HSL.ts:118 | a negative dividend leaves a remainder in (-d, 0] |
| HSLConvert.MinChannel | src/HSL.ts:109 | `minChannel()` is one of the channels and at most each of them |
| HSLConvert.MaxChannel | src/HSL.ts:110 | `maxChannel(true)` is the largest channel with its index; on a tie it takes the first, which gives red when all are equal (documented) and is a choice of this model for two equal channels |
| HSLConvert.DivUnit | src/HSL.ts:136 | a positive number at most `b` divided by `b` lies in (0, 1] |
| HSLConvert.Spread | src/HSL.ts:133-136 | for distinct extreme channels the lightness lies in (0, 1) and the saturation in (0, 1] |
| HSLConvert.WrittenSector | src/HSL.ts:114-129 | the hue as written, in sixths of the circle, lies in (-6, 6) |
| HSLConvert.FromRGBWritten | src/HSL.ts:108-139 | `fromRGB` as written has a hue in (-360, 360), unit lightness and the colour's alpha |
| HSLConvert.Ratio | src/HSL.ts:118-124 | a channel difference within the chroma divides to within [-1, 1] |
| HSLConvert.Sector | src/HSL.ts:114-129 | the intended hue in sixths of the circle lies in [0, 6) |
| HSLConvert.FromRGB | src/HSL.ts:108-139 | the intended `fromRGB` has a hue in [0, 360), unit saturation and lightness, and the colour's alpha |
| HSLConvert.Place | src/HSL.ts:394-412 | each channel of the sector placement is 0, the chroma or the middle value |
| HSLConvert.ToRGB | src/HSL.ts:384-418 | `toRGB` passes the alpha through |
| HSLConvert.MulUnit | src/HSL.ts:385-388 | a product with a unit factor stays between 0 and the other factor |
| HSLConvert.ChromaRange | src/HSL.ts:385 | the chroma of unit lightness and saturation lies between 0 and the room the lightness leaves |
| HSLConvert.MiddleRange | src/HSL.ts:388 | for a non-negative hue the middle value lies between 0 and the chroma |
| HSLConvert.ToRGBUnit | src/HSL.ts:384-418 | a non-negative hue with unit saturation, lightness and alpha gives unit channels |
| HSLConvert.MiddleAt | src/HSL.ts:388 | the middle value of a hue in a known pair of sectors, in closed form |
| HSLConvert.MiddleRising | src/HSL.ts:388 | on the rising half of a pair of sectors the middle value is the channel difference the sector was computed from |
| HSLConvert.MiddleFalling | src/HSL.ts:388 | on the falling half of a pair of sectors the middle value is the negated channel difference |
| HSLConvert.ChromaBack | src/HSL.ts:133-136 | the lightness and saturation `fromRGB` computes give back the chroma and the smallest channel in `toRGB` |
| HSLConvert.ChromaOfRatio | src/HSL.ts:136 | dividing a chroma by the room of a lightness and multiplying back gives it back |
| HSLConvert.ToRGBWith | src/HSL.ts:384-418 | the channels `toRGB` gives for a known chroma, middle value and minimum |
| HSLConvert.Reassembled | src/HSL.ts:384-418 | once the sector, the middle value and the placement over the channels are known, `toRGB(fromRGB(rgb))` is `rgb` |
| HSLConvert.RoundTripGrey | src/HSL.ts:108-139 | a grey converts to HSL and back to itself |
| HSLConvert.RoundTripRedUp | src/HSL.ts:108-139 | a red-dominant colour with green above blue converts back to itself |
| HSLConvert.RoundTripRedGreenTie | src/HSL.ts:108-139 | a colour with red and green tied above blue converts back to itself |
| HSLConvert.RoundTripRedDown | src/HSL.ts:108-139 | a red-dominant colour with blue above green converts back to itself |
| HSLConvert.RoundTripGreenDown | src/HSL.ts:108-139 | a green-dominant colour with red above blue converts back to itself |
| HSLConvert.RoundTripGreenUp | src/HSL.ts:108-139 | a green-dominant colour with blue at or above red converts back to itself |
| HSLConvert.RoundTripGreenBlueTie | src/HSL.ts:108-139 | a colour with green and blue tied above red converts back to itself |
| HSLConvert.RoundTripBlueDown | src/HSL.ts:108-139 | a blue-dominant colour with green above red converts back to itself |
| HSLConvert.RoundTripBlueUp | src/HSL.ts:108-139 | a blue-dominant colour with red at or above green converts back to itself |
| HSLConvert.RGBRoundTrip | src/HSL.ts:384-418 | `toRGB(fromRGB(rgb))` gives every channel and the alpha back exactly, for every colour with unit channels |
| HSLConvert.WrittenGreenHue | src/HSL.ts:120-122 | pure green gets hue 0 as written, 120 as intended |
| HSLConvert.WrittenNegativeHue | src/HSL.ts:118 | red over half blue gets hue -120 as written, 330 as intended |
| HSLConvert.WrittenByteScaleHue | src/HSL.ts:118 | red over half green gets hue 120 as written, 30 as intended |

## Left out

- JavaScript numbers are exact reals. NaN, the infinities, `-0` and floating-point rounding are not modelled, so `0.1 + 0.2` style effects and huge numbers are out.
- The 32-bit bitwise operators (`<<`, `|`, `&`, `>>>`) are modelled arithmetically: division and remainder by powers of two, with `ToInt32`/`ToUint32` for the signed and unsigned wrap.
- Params.ConvertParam: a non-integral number goes straight to FLOAT with its own value, because `Number.prototype.toString` of a non-integral number, and `parseFloat` reading it back, are not modelled. An integral number of magnitude below 10^21 goes through its decimal text.
- `cleanFloatStr`, `toPercent` and `ColorHSL.toFunctional` format reals as text. `cleanFloatStr` is a function parameter of `RGB.RGBA.ToFuncString`; the other two are not part of this model.
- The table of named colours is a `map` parameter of `RGB.AfterFromString` and `RGB.ColorRGB.FromString`, not the full table.
- `wrap`, which folds a hue into range, has no body in the modelled files, so it is a function parameter of every HSL member.
- `console.warn` in the `toString` fallbacks is output and is left out; only the hex fallback is modelled.
- Error messages are not modelled as text. An error is a datatype value that names its cause: the index and the argument, for example.
- RGBLaws.FuncRoundTrip: the functional round trip is stated for opaque colours only, because the alpha goes through `cleanFloatStr`, which is a parameter.
- Text.ToLower: only the ASCII letters `A`-`Z` are lower-cased. JavaScript's `toLowerCase` also maps other characters: U+212A (Kelvin sign) becomes `k`, so `fromString` reads `blac\u212A` as `black`, which this model rejects; and U+0130 becomes two code units, so the length changes. Strings here are sequences of Unicode scalar values, where JavaScript strings are UTF-16 code units.
- The getters of the byte-storage `ColorRGB` (`red`, `green`, `blue`, `alpha`) are read through `Model()`, not as separate members.
- The `ColorHSL` constructor never stores its arguments. Each HSL operation is therefore modelled by the tuple it computes, an `HSLA` value, and not as an object.
- HSL.Apply fills a local four-slot array and returns its contents as an `HSLA` value, not as a new `ColorHSL` object.
- `toRecord` of `ColorHSL` is `toObject`, and `HSL.ToObject` covers both.
- `ColorHSL.ensureHSL`, `fromFunctional`, `fromString` and the contrast, luminosity and YIQ delegates are not part of this model. They rely on `instanceof` checks, on a regular expression absent from the sources, and on RGB methods that are not shown.
- `ParameterType.ANGLE` is never produced by `convertParam`, so the angle branch of `apply` is unreachable and is not modelled.
- `minChannel` and `maxChannel` of the draft `ColorRGB` have no body in the modelled files. `HSLConvert.MinChannel` and `HSLConvert.MaxChannel` follow their documented behaviour: the smallest and the largest unit channel, and red when all three are equal. When only two channels tie for the maximum, `HSLConvert.MaxChannel` gives the first of them in the order red, green, blue. That is a choice of this model, not documented behaviour, and the hue `HSLConvert.FromRGBWritten` gives such a colour depends on it.
- HSLConvert.ToRGB returns the unit tuple passed to the `ColorRGB` constructor, not a draft `ColorRGB` object.
- The `toFunctionalString` of the draft `ColorRGB` is a stub that returns the empty string, and `DraftRGB.Units.Formatted` models it so. Its other formats print what `toInteger` and `toHexString` return as written.
- DraftRGB.ColorRGB.ToInteger: the method models the evidently intended `toInteger`. The as-written one is `DraftRGB.Units.WrittenInteger`.
- `src/BlendModes.ts`, luminosity, contrast, YIQ, invert, desaturate and lerp are not part of this model.
- The JavaScript runtime plumbing is not modelled: private-field helpers, module interop and method binding in constructors.

## Findings

| source | as written | input that shows it | evidently intended | confidence | as-written member | corrected member |
|---|---|---|---|---|---|---|
| lib/utils/regexp.js:67 | number tried before percentage, so backtracking splits a percentage component | `rgb(10%,2%, 3%)` captures `1`, `0%`, `2%`, `3%` | each component is captured whole: `10%`, `2%`, `3%` | not executed | RGBFuncRegexp.WrittenMatchSplitsPercent | RGBFuncRoundTrip.ReadBack |
| src/RGB.ts:185 | the alpha guard compares with -1, so the alpha byte is always appended | opaque black, `forceAlpha` false: 255 | 0, with no alpha byte | not executed | DraftRGB.WrittenIntegerOpaqueBlack | DraftRGB.IntegerBytes |
| src/RGB.ts:188-193 | signed 32-bit shifts with no `>>> 0` | opaque white with its alpha: -1 | 4294967295 (0xFFFFFFFF) | not executed | DraftRGB.WrittenIntegerOpaqueWhite | DraftRGB.IntegerBytes |
| src/RGB.ts:201-212 | `enc` masks the stored unit number, not the byte | opaque white: `#010101` | `#ffffff` | not executed | DraftRGB.WrittenHexWhite | DraftRGB.HexStringReadBack |
| src/HSL.ts:120-122 | no sector offset of 2 (green) or 4 (blue) | pure green (0, 1, 0): hue 0 | hue 120 | not executed | HSLConvert.WrittenGreenHue | HSLConvert.RGBRoundTrip |
| src/HSL.ts:118 | truncating `%` leaves a negative hue | (1, 0, 0.5): hue -120 | hue 330 | not executed | HSLConvert.WrittenNegativeHue | HSLConvert.RGBRoundTrip |
| src/HSL.ts:118 | byte getters over a unit-scale chroma | (1, 0.5, 0): hue 120 | hue 30 | not executed | HSLConvert.WrittenByteScaleHue | HSLConvert.RGBRoundTrip |
| src/HSL.ts:442-443 | `map` visits only the given arguments, so missing trailing components are not filled | `set(x)` on any colour: (wrap(x), 0, 0, 1) | the other components kept | not executed | HSL.SetWrittenDropsMissing | HSL.SetFilledKeeps |
