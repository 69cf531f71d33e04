/**
 * Fixture keys: a top-level YAML key `Type(id)` names the model type and
 * the fixture's id; a bare type is taken from the `models` package; loaded
 * objects are remembered under `type-id`.
 */
module FixtureKeys {
  import opened Wrappers
  import opened Text

  datatype FixtureKey = FixtureKey(typeName: string, id: string)

  /** What the pattern `([^(]+)\(([^)]+)\)` accepts as its two groups. */
  predicate WellFormed(k: FixtureKey)
  {
    k.typeName != [] && '(' !in k.typeName && k.id != [] && ')' !in k.id
  }

  /** The key text `Type(id)`. */
  function KeyText(k: FixtureKey): string
  {
    k.typeName + "(" + k.id + ")"
  }

  /** The position of the first `c` in `s`, or `|s|` when there is none. */
  function IndexOf(s: string, c: char): (i: nat)
    ensures i <= |s| && c !in s[..i] && (i < |s| ==> s[i] == c)
  {
    if s == [] then 0
    else if s[0] == c then 0
    else
      var i := 1 + IndexOf(s[1..], c);
      assert s[..i] == [s[0]] + s[1..][..i - 1];
      i
  }

  /**
   * `keyPattern.matcher(s).matches()` with its two groups: the type runs up to
   * the first `(`, the id from there to the closing `)` that ends the text.
   */
  function ParseKey(s: string): (r: Option<FixtureKey>)
    ensures r.Some? ==> WellFormed(r.value) && KeyText(r.value) == s
  {
    var p := IndexOf(s, '(');
    if 0 < p && p + 2 < |s| && s[|s| - 1] == ')' && ')' !in s[p + 1..|s| - 1] then
      var k := FixtureKey(s[..p], s[p + 1..|s| - 1]);
      assert KeyText(k) == s;
      Some(k)
    else None
  }

  /** Every well-formed key is recognised, with the same two groups: `ParseKey` accepts exactly the `KeyText`s. */
  lemma ParseKeyText(k: FixtureKey)
    requires WellFormed(k)
    ensures ParseKey(KeyText(k)) == Some(k)
  {
    var s := KeyText(k);
    var n := |k.typeName|;
    assert s[n] == '(';
    assert s[..n] == k.typeName;
    assert IndexOf(s, '(') == n;
    assert s[n + 1..|s| - 1] == k.id;
  }

  const MODELS_PACKAGE := "models."

  /** The type with `models.` in front, unless it already starts with it. */
  function QualifiedType(typeName: string): (r: string)
    ensures StartsWith(r, MODELS_PACKAGE)
    ensures StartsWith(typeName, MODELS_PACKAGE) <==> r == typeName
  {
    if StartsWith(typeName, MODELS_PACKAGE) then typeName
    else
      assert (MODELS_PACKAGE + typeName)[..|MODELS_PACKAGE|] == MODELS_PACKAGE;
      MODELS_PACKAGE + typeName
  }

  /** Qualifying twice is qualifying once. */
  lemma QualifiedTypeIdempotent(typeName: string)
    ensures QualifiedType(QualifiedType(typeName)) == QualifiedType(typeName)
  {
  }

  /** The `idCache` key of the object with fixture id `id` of type `typeName`. */
  function CacheKey(typeName: string, id: string): string
  {
    typeName + "-" + id
  }

  /**
   * How a top-level key is read: trimmed, matched against the pattern, and
   * its type qualified. Keys that do not match give nothing and are skipped.
   */
  function ReadKey(key: string): (r: Option<FixtureKey>)
    ensures r.Some? ==> StartsWith(r.value.typeName, MODELS_PACKAGE) && r.value.id != [] && ')' !in r.value.id
    ensures r.Some? <==> ParseKey(Trim(key)).Some?
  {
    match ParseKey(Trim(key))
    case None => None
    case Some(k) => Some(FixtureKey(QualifiedType(k.typeName), k.id))
  }

  /**
   * A well-formed key written without blank text around it is read back as
   * itself, with its type qualified.
   */
  lemma ReadKeyText(k: FixtureKey)
    requires WellFormed(k) && !IsTrimmable(k.typeName[0])
    ensures ReadKey(KeyText(k)) == Some(FixtureKey(QualifiedType(k.typeName), k.id))
  {
    var s := KeyText(k);
    assert s[0] == k.typeName[0];
    assert TrimStart(s) == s;
    assert TrimEnd(s) == s;
    ParseKeyText(k);
  }
}
