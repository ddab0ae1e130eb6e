/**
 * `objectMatchesPattern`: whether the entries of an object match a pattern
 * object, by key and by the `typeof` of the values.  An object is its list of
 * entries, each a key and the type of its value; the pattern's values only
 * matter through their `typeof`, so a pattern is a list of keys and types.
 */
module Objects {

  /** The results of JavaScript's `typeof`. */
  datatype TypeTag = Undefined | Boolean | Number | BigInt | String | Symbol | Function | Object

  /** One entry of `Object.entries`: a key and the type of its value. */
  datatype Entry = Entry(key: string, tag: TypeTag)

  /** One element of `tests` matches an entry: same key and, unless types are ignored, same type. */
  predicate TestMatches(test: Entry, e: Entry, ignoreType: bool)
  {
    if ignoreType then e.key == test.key else e.key == test.key && e.tag == test.tag
  }

  /** `check`: `tests.some(...)` for one entry of the object. */
  function Check(tests: seq<Entry>, e: Entry, ignoreType: bool): (r: bool)
    ensures r <==> exists i | 0 <= i < |tests| :: TestMatches(tests[i], e, ignoreType)
  {
    if |tests| == 0 then false
    else
      TestMatches(tests[0], e, ignoreType) || (
        var rest := Check(tests[1..], e, ignoreType);
        assert rest <==> exists i | 1 <= i < |tests| :: TestMatches(tests[i], e, ignoreType) by {
          forall i | 1 <= i < |tests| ensures tests[1..][i - 1] == tests[i] { }
        }
        rest)
  }

  /** `entries.some(check)` */
  function SomeChecks(tests: seq<Entry>, entries: seq<Entry>, ignoreType: bool): (r: bool)
    ensures r <==> exists j | 0 <= j < |entries| :: Check(tests, entries[j], ignoreType)
  {
    if |entries| == 0 then false
    else
      Check(tests, entries[0], ignoreType) || (
        var rest := SomeChecks(tests, entries[1..], ignoreType);
        assert rest <==> exists j | 1 <= j < |entries| :: Check(tests, entries[j], ignoreType) by {
          forall j | 1 <= j < |entries| ensures entries[1..][j - 1] == entries[j] { }
        }
        rest)
  }

  /** `entries.every(check)` */
  function EveryCheck(tests: seq<Entry>, entries: seq<Entry>, ignoreType: bool): (r: bool)
    ensures r <==> forall j | 0 <= j < |entries| :: Check(tests, entries[j], ignoreType)
  {
    if |entries| == 0 then true
    else
      Check(tests, entries[0], ignoreType) && (
        var rest := EveryCheck(tests, entries[1..], ignoreType);
        assert rest <==> forall j | 1 <= j < |entries| :: Check(tests, entries[j], ignoreType) by {
          forall j | 1 <= j < |entries| ensures entries[1..][j - 1] == entries[j] { }
        }
        rest)
  }

  /** `objectMatchesPattern(obj, pattern, loose, ignoreType)` */
  function ObjectMatchesPattern(obj: seq<Entry>, pattern: seq<Entry>, loose: bool, ignoreType: bool): bool
  {
    if loose then SomeChecks(pattern, obj, ignoreType) else EveryCheck(pattern, obj, ignoreType)
  }

  /** The key `k` occurs in the pattern, with type `t` unless types are ignored. */
  predicate InPattern(pattern: seq<Entry>, k: string, t: TypeTag, ignoreType: bool)
  {
    exists i | 0 <= i < |pattern| :: pattern[i].key == k && (ignoreType || pattern[i].tag == t)
  }

  /** `check` holds of an entry exactly when the pattern has its key (and its type, unless ignored). */
  lemma CheckInPattern(pattern: seq<Entry>, e: Entry, ignoreType: bool)
    ensures Check(pattern, e, ignoreType) <==> InPattern(pattern, e.key, e.tag, ignoreType)
  {
    if Check(pattern, e, ignoreType) {
      var i :| 0 <= i < |pattern| && TestMatches(pattern[i], e, ignoreType);
      assert pattern[i].key == e.key;
    }
    if InPattern(pattern, e.key, e.tag, ignoreType) {
      var i :| 0 <= i < |pattern| && pattern[i].key == e.key && (ignoreType || pattern[i].tag == e.tag);
      assert TestMatches(pattern[i], e, ignoreType);
    }
  }

  /**
   * Loose mode: some entry of the object has a key of the pattern, and a value
   * of the same type unless types are ignored.
   */
  lemma LooseMatches(obj: seq<Entry>, pattern: seq<Entry>, ignoreType: bool)
    ensures ObjectMatchesPattern(obj, pattern, true, ignoreType)
      <==> exists j | 0 <= j < |obj| :: InPattern(pattern, obj[j].key, obj[j].tag, ignoreType)
  {
    forall j | 0 <= j < |obj|
      ensures Check(pattern, obj[j], ignoreType) <==> InPattern(pattern, obj[j].key, obj[j].tag, ignoreType)
    {
      CheckInPattern(pattern, obj[j], ignoreType);
    }
  }

  /** Strict mode: every entry of the object has a key of the pattern, with a value of the same type unless ignored. */
  lemma StrictMatches(obj: seq<Entry>, pattern: seq<Entry>, ignoreType: bool)
    ensures ObjectMatchesPattern(obj, pattern, false, ignoreType)
      <==> forall j | 0 <= j < |obj| :: InPattern(pattern, obj[j].key, obj[j].tag, ignoreType)
  {
    forall j | 0 <= j < |obj|
      ensures Check(pattern, obj[j], ignoreType) <==> InPattern(pattern, obj[j].key, obj[j].tag, ignoreType)
    {
      CheckInPattern(pattern, obj[j], ignoreType);
    }
  }

  /** An object without entries passes strict mode and fails loose mode, whatever the pattern. */
  lemma EmptyObject(pattern: seq<Entry>, ignoreType: bool)
    ensures ObjectMatchesPattern([], pattern, false, ignoreType)
    ensures !ObjectMatchesPattern([], pattern, true, ignoreType)
  {
  }

  /** With types ignored, only keys are compared: changing the types of the object's values changes nothing. */
  lemma IgnoreTypeKeysOnly(obj: seq<Entry>, obj': seq<Entry>, pattern: seq<Entry>, loose: bool)
    requires |obj| == |obj'| && forall j | 0 <= j < |obj| :: obj[j].key == obj'[j].key
    ensures ObjectMatchesPattern(obj, pattern, loose, true) == ObjectMatchesPattern(obj', pattern, loose, true)
  {
    forall j | 0 <= j < |obj| ensures Check(pattern, obj[j], true) == Check(pattern, obj'[j], true) {
      assert forall i | 0 <= i < |pattern| :: TestMatches(pattern[i], obj[j], true) == TestMatches(pattern[i], obj'[j], true);
    }
    if loose {
      assert (exists j | 0 <= j < |obj| :: Check(pattern, obj[j], true)) == (exists j | 0 <= j < |obj'| :: Check(pattern, obj'[j], true));
    }
  }

  /** An entry whose key the pattern does not have makes strict mode fail, and is passed over in loose mode. */
  lemma ExtraKey(obj: seq<Entry>, pattern: seq<Entry>, e: Entry, ignoreType: bool)
    requires forall i | 0 <= i < |pattern| :: pattern[i].key != e.key
    ensures !ObjectMatchesPattern(obj + [e], pattern, false, ignoreType)
    ensures ObjectMatchesPattern(obj + [e], pattern, true, ignoreType) == ObjectMatchesPattern(obj, pattern, true, ignoreType)
  {
    assert !Check(pattern, e, ignoreType);
    assert (obj + [e])[|obj|] == e;
    assert forall j | 0 <= j < |obj| :: (obj + [e])[j] == obj[j];
  }

  /** The pattern `ColorHSL` uses to recognise an HSL-like object: one matching key is enough in loose mode. */
  lemma HslPatternScenario()
    ensures var hsl := [Entry("h", Number), Entry("hue", Number), Entry("s", Number),
                        Entry("saturation", Number), Entry("l", Number), Entry("lightness", Number)];
      ObjectMatchesPattern([Entry("hue", Number), Entry("other", String)], hsl, true, false)
      && !ObjectMatchesPattern([Entry("hue", Number), Entry("other", String)], hsl, false, false)
      && !ObjectMatchesPattern([Entry("hue", String)], hsl, true, false)
      && ObjectMatchesPattern([Entry("hue", String)], hsl, true, true)
  {
    var hsl := [Entry("h", Number), Entry("hue", Number), Entry("s", Number),
                Entry("saturation", Number), Entry("l", Number), Entry("lightness", Number)];
    assert TestMatches(hsl[1], Entry("hue", Number), false);
    assert TestMatches(hsl[1], Entry("hue", String), true);
    assert !Check(hsl, Entry("other", String), false);
    assert !Check(hsl, Entry("hue", String), false);
  }
}
