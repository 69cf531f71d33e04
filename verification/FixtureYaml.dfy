/**
 * Parsed YAML values and `serialize`, which flattens a fixture's nested
 * mapping into the request-parameter shape the binder reads:
 * `object.field.sub -> [values]`.
 */
module FixtureYaml {
  import opened Wrappers
  import opened Text

  /** A parsed YAML value; a scalar holds its `toString()` text. */
  datatype Yaml =
    | Null
    | Scalar(text: string)
    | Sequence(items: seq<Yaml>)
    | Mapping(entries: seq<Entry>)

  /** One key of a mapping with its value, in document order. */
  datatype Entry = Entry(key: string, value: Yaml)

  /** Binder parameters: names to their string values. */
  type Params = map<string, seq<string>>

  /** `String.valueOf(y)`: Java's rendering of a value, `[a, b]` for lists and `{k=v}` for maps. */
  function ToJavaString(y: Yaml): string
    decreases y, 1
  {
    match y
    case Null => "null"
    case Scalar(t) => t
    case Sequence(items) => "[" + JoinItems(y, 0) + "]"
    case Mapping(entries) => "{" + JoinEntries(y, 0) + "}"
  }

  function JoinItems(y: Yaml, i: nat): string
    requires y.Sequence? && i <= |y.items|
    decreases y, 0, |y.items| - i
  {
    if i == |y.items| then ""
    else (if i > 0 then ", " else "") + ToJavaString(y.items[i]) + JoinItems(y, i + 1)
  }

  function JoinEntries(y: Yaml, i: nat): string
    requires y.Mapping? && i <= |y.entries|
    decreases y, 0, |y.entries| - i
  {
    if i == |y.entries| then ""
    else
      var e := y.entries[i];
      assert e in y.entries;
      (if i > 0 then ", " else "") + e.key + "=" + ToJavaString(e.value) + JoinEntries(y, i + 1)
  }

  /** The parameter name of the entry with key `key` under `prefix`. */
  function ParamName(prefix: string, key: string): string
  {
    prefix + "." + key
  }

  /**
   * The first `n` entries of mapping `m` serialized under `prefix` into
   * `acc`: null values are skipped, nested mappings recurse with a longer
   * prefix, lists become their elements' strings, other values a single
   * string. A later entry overwrites an earlier one with the same name.
   * `None` stands for the `NullPointerException` that `el.toString()` throws
   * on a null list element.
   */
  function SerializeEntries(m: Yaml, n: nat, prefix: string, acc: Params): Option<Params>
    requires m.Mapping? && n <= |m.entries|
    decreases m, n
  {
    if n == 0 then Some(acc)
    else
      match SerializeEntries(m, n - 1, prefix, acc)
      case None => None
      case Some(sofar) =>
        var e := m.entries[n - 1];
        assert e in m.entries;
        var name := ParamName(prefix, e.key);
        match e.value
        case Null => Some(sofar)
        case Mapping(_) => SerializeEntries(e.value, |e.value.entries|, name, sofar)
        case Sequence(items) =>
          if Null in items then None
          else Some(sofar[name := seq(|items|, i requires 0 <= i < |items| => ToJavaString(items[i]))])
        case Scalar(t) => Some(sofar[name := [t]])
  }

  /** The whole of mapping `m` serialized under `prefix` into `acc`. */
  function SerializeAll(m: Yaml, prefix: string, acc: Params): Option<Params>
    requires m.Mapping?
  {
    SerializeEntries(m, |m.entries|, prefix, acc)
  }

  /** Some list reachable through the first `n` entries of `m` (through non-null values) holds a null element. */
  predicate HasNullElement(m: Yaml, n: nat)
    requires m.Mapping? && n <= |m.entries|
    decreases m, n
  {
    n > 0 &&
    (HasNullElement(m, n - 1) ||
     var e := m.entries[n - 1];
     assert e in m.entries;
     match e.value
     case Sequence(items) => Null in items
     case Mapping(_) => HasNullElement(e.value, |e.value.entries|)
     case _ => false)
  }

  /** Serializing fails exactly when some reachable list holds a null element. */
  lemma {:induction false} SerializeFailsIffNullElement(m: Yaml, n: nat, prefix: string, acc: Params)
    requires m.Mapping? && n <= |m.entries|
    ensures SerializeEntries(m, n, prefix, acc).None? <==> HasNullElement(m, n)
    decreases m, n
  {
    if n > 0 {
      SerializeFailsIffNullElement(m, n - 1, prefix, acc);
      var e := m.entries[n - 1];
      assert e in m.entries;
      var r := SerializeEntries(m, n - 1, prefix, acc);
      if r.Some? && e.value.Mapping? {
        SerializeFailsIffNullElement(e.value, |e.value.entries|, ParamName(prefix, e.key), r.value);
      }
    }
  }

  /** Every name serialization adds starts with `prefix.`. */
  lemma {:induction false} SerializedNamesArePrefixed(m: Yaml, n: nat, prefix: string, acc: Params)
    requires m.Mapping? && n <= |m.entries|
    ensures var r := SerializeEntries(m, n, prefix, acc);
            r.Some? ==> forall k :: k in r.value ==> k in acc || StartsWith(k, prefix + ".")
    decreases m, n
  {
    if n > 0 {
      SerializedNamesArePrefixed(m, n - 1, prefix, acc);
      var r := SerializeEntries(m, n - 1, prefix, acc);
      var e := m.entries[n - 1];
      assert e in m.entries;
      var name := ParamName(prefix, e.key);
      assert StartsWith(name, prefix + ".") by {
        assert name[..|prefix + "."|] == prefix + ".";
      }
      if r.Some? && e.value.Mapping? {
        SerializedNamesArePrefixed(e.value, |e.value.entries|, name, r.value);
        var out := SerializeEntries(e.value, |e.value.entries|, name, r.value);
        if out.Some? {
          forall k | k in out.value && k !in acc
            ensures StartsWith(k, prefix + ".")
          {
            if k !in r.value {
              assert StartsWith(k, name + ".");
              assert k[..|prefix + "."|] == (name + ".")[..|prefix + "."|];
            }
          }
        }
      }
    }
  }

  /** No entry of the mapping holds another mapping, and no two entries share a key. */
  predicate IsFlat(m: Yaml)
    requires m.Mapping?
  {
    && (forall i :: 0 <= i < |m.entries| ==> !m.entries[i].value.Mapping?)
    && (forall i, j :: 0 <= i < j < |m.entries| ==> m.entries[i].key != m.entries[j].key)
  }

  /** The parameter values a single non-mapping value stands for. */
  predicate Serializes(v: Yaml, values: seq<string>)
  {
    match v
    case Scalar(t) => values == [t]
    case Sequence(items) =>
      |values| == |items| && forall i :: 0 <= i < |items| ==> values[i] == ToJavaString(items[i])
    case _ => false
  }

  /**
   * A flat mapping without null list elements: each non-null entry gives
   * exactly one parameter `prefix.key`, a scalar as a one-element array and a
   * list as its elements' strings with the same length and order; null
   * values give nothing, and no other name is added.
   */
  lemma {:induction false} FlatMappingSerialization(m: Yaml, n: nat, prefix: string, acc: Params)
    requires m.Mapping? && n <= |m.entries| && IsFlat(m) && !HasNullElement(m, n)
    ensures var r := SerializeEntries(m, n, prefix, acc);
            && r.Some?
            && (forall i :: 0 <= i < n && !m.entries[i].value.Null? ==>
                  ParamName(prefix, m.entries[i].key) in r.value
                  && Serializes(m.entries[i].value, r.value[ParamName(prefix, m.entries[i].key)]))
            && (forall k :: k in r.value ==>
                  k in acc || exists i :: 0 <= i < n && !m.entries[i].value.Null? && k == ParamName(prefix, m.entries[i].key))
    decreases n
  {
    SerializeFailsIffNullElement(m, n, prefix, acc);
    if n > 0 {
      FlatMappingSerialization(m, n - 1, prefix, acc);
      var sofar := SerializeEntries(m, n - 1, prefix, acc).value;
      var r := SerializeEntries(m, n, prefix, acc).value;
      var e := m.entries[n - 1];
      var name := ParamName(prefix, e.key);
      forall i | 0 <= i < n - 1 && !m.entries[i].value.Null?
        ensures ParamName(prefix, m.entries[i].key) in r
                && Serializes(m.entries[i].value, r[ParamName(prefix, m.entries[i].key)])
      {
        var other := ParamName(prefix, m.entries[i].key);
        assert m.entries[i].key != e.key;
        assert other != name by {
          assert other[|prefix| + 1..] == m.entries[i].key;
          assert name[|prefix| + 1..] == e.key;
        }
        assert r[other] == sofar[other];
      }
    }
  }

  /** A value that ends up as one parameter, with the name it is serialized under. */
  datatype Leaf = Leaf(name: string, value: Yaml)

  /**
   * The leaves of the first `n` entries of `m` under `prefix`, in document
   * order.
   */
  function Leaves(m: Yaml, n: nat, prefix: string): (ls: seq<Leaf>)
    requires m.Mapping? && n <= |m.entries|
    ensures forall i :: 0 <= i < |ls| ==> ls[i].value.Scalar? || ls[i].value.Sequence?
    decreases m, n, 1
  {
    if n == 0 then [] else Leaves(m, n - 1, prefix) + EntryLeaves(m, n, prefix)
  }

  /**
   * The leaves of the `n`-th entry of `m` under `prefix`: a scalar or a list
   * is one leaf named `prefix.key`, a nested mapping contributes its own
   * leaves under `prefix.key`, and a null contributes nothing.
   */
  function EntryLeaves(m: Yaml, n: nat, prefix: string): (ls: seq<Leaf>)
    requires m.Mapping? && 0 < n <= |m.entries|
    ensures forall i :: 0 <= i < |ls| ==> ls[i].value.Scalar? || ls[i].value.Sequence?
    decreases m, n, 0
  {
    var e := m.entries[n - 1];
    assert e in m.entries;
    var name := ParamName(prefix, e.key);
    match e.value
    case Null => []
    case Mapping(_) => Leaves(e.value, |e.value.entries|, name)
    case _ => [Leaf(name, e.value)]
  }

  /** Some leaf of `ls` is named `k`. */
  predicate LeafNamed(ls: seq<Leaf>, k: string)
  {
    exists i :: 0 <= i < |ls| && ls[i].name == k
  }

  /** No two leaves share a name. */
  predicate DistinctNames(ls: seq<Leaf>)
  {
    forall i, j :: 0 <= i < j < |ls| ==> ls[i].name != ls[j].name
  }

  lemma LeafNamedAppend(a: seq<Leaf>, b: seq<Leaf>, k: string)
    ensures LeafNamed(a + b, k) <==> LeafNamed(a, k) || LeafNamed(b, k)
  {
    if LeafNamed(a + b, k) {
      var i :| 0 <= i < |a + b| && (a + b)[i].name == k;
      if i >= |a| {
        assert b[i - |a|].name == k;
      }
    }
    if LeafNamed(b, k) {
      var j :| 0 <= j < |b| && b[j].name == k;
      assert (a + b)[|a| + j].name == k;
    }
    if LeafNamed(a, k) {
      var i :| 0 <= i < |a| && a[i].name == k;
      assert (a + b)[i].name == k;
    }
  }

  lemma DistinctNamesAppend(a: seq<Leaf>, b: seq<Leaf>)
    requires DistinctNames(a + b)
    ensures DistinctNames(a) && DistinctNames(b)
    ensures forall k :: !(LeafNamed(a, k) && LeafNamed(b, k))
  {
    forall i, j | 0 <= i < j < |b|
      ensures b[i].name != b[j].name
    {
      assert (a + b)[|a| + i] == b[i] && (a + b)[|a| + j] == b[j];
    }
    forall i, j | 0 <= i < j < |a|
      ensures a[i].name != a[j].name
    {
      assert (a + b)[i] == a[i] && (a + b)[j] == a[j];
    }
    forall i, j | 0 <= i < |a| && 0 <= j < |b|
      ensures a[i].name != b[j].name
    {
      assert (a + b)[i] == a[i] && (a + b)[|a| + j] == b[j];
    }
  }

  /**
   * A mapping at any depth without null list elements, whose leaves have
   * distinct names: serializing it adds exactly one parameter per leaf,
   * holding the strings that leaf's value stands for, and keeps every other
   * parameter of `acc` as it was.
   */
  lemma {:induction false} NestedMappingSerialization(m: Yaml, n: nat, prefix: string, acc: Params)
    requires m.Mapping? && n <= |m.entries| && !HasNullElement(m, n)
    requires DistinctNames(Leaves(m, n, prefix))
    ensures var r := SerializeEntries(m, n, prefix, acc);
            var ls := Leaves(m, n, prefix);
            && r.Some?
            && (forall k :: k in r.value <==> k in acc || LeafNamed(ls, k))
            && (forall i :: 0 <= i < |ls| ==> Serializes(ls[i].value, r.value[ls[i].name]))
            && (forall k :: k in acc && !LeafNamed(ls, k) ==> r.value[k] == acc[k])
    decreases m, n, 1
  {
    SerializeFailsIffNullElement(m, n, prefix, acc);
    if n > 0 {
      var a := Leaves(m, n - 1, prefix);
      var b := EntryLeaves(m, n, prefix);
      var ls := Leaves(m, n, prefix);
      DistinctNamesAppend(a, b);
      NestedMappingSerialization(m, n - 1, prefix, acc);
      var sofar := SerializeEntries(m, n - 1, prefix, acc).value;
      var r := SerializeEntries(m, n, prefix, acc).value;
      EntrySerialization(m, n, prefix, acc, sofar);
      forall k
        ensures k in r <==> k in acc || LeafNamed(ls, k)
        ensures k in acc && !LeafNamed(ls, k) ==> r[k] == acc[k]
      {
        LeafNamedAppend(a, b, k);
      }
      forall i | 0 <= i < |ls|
        ensures Serializes(ls[i].value, r[ls[i].name])
      {
        if i < |a| {
          assert ls[i] == a[i];
          assert LeafNamed(a, a[i].name);
        } else {
          assert ls[i] == b[i - |a|];
        }
      }
    }
  }

  /** What the `n`-th entry adds to the parameters `sofar` of the entries before it. */
  lemma {:induction false} EntrySerialization(m: Yaml, n: nat, prefix: string, acc: Params, sofar: Params)
    requires m.Mapping? && 0 < n <= |m.entries| && !HasNullElement(m, n)
    requires SerializeEntries(m, n - 1, prefix, acc) == Some(sofar)
    requires DistinctNames(EntryLeaves(m, n, prefix))
    ensures var r := SerializeEntries(m, n, prefix, acc);
            var b := EntryLeaves(m, n, prefix);
            && r.Some?
            && (forall k :: k in r.value <==> k in sofar || LeafNamed(b, k))
            && (forall j :: 0 <= j < |b| ==> Serializes(b[j].value, r.value[b[j].name]))
            && (forall k :: k in sofar && !LeafNamed(b, k) ==> r.value[k] == sofar[k])
    decreases m, n, 0
  {
    var e := m.entries[n - 1];
    assert e in m.entries;
    var name := ParamName(prefix, e.key);
    var b := EntryLeaves(m, n, prefix);
    if e.value.Mapping? {
      NestedMappingSerialization(e.value, |e.value.entries|, name, sofar);
    } else if !e.value.Null? {
      assert b == [Leaf(name, e.value)];
      forall k ensures LeafNamed(b, k) <==> k == name {
        if k == name {
          assert b[0].name == k;
        }
      }
    }
  }

  /**
   * `serialize(values, prefix, serialized)`: walks the entries in order,
   * recursing into nested mappings and filling the element array of a list
   * one element at a time.
   */
  method Serialize(values: Yaml, prefix: string, serialized: Params) returns (r: Option<Params>)
    requires values.Mapping?
    ensures r == SerializeAll(values, prefix, serialized)
    decreases values
  {
    var acc := serialized;
    var i := 0;
    while i < |values.entries|
      invariant 0 <= i <= |values.entries|
      invariant SerializeEntries(values, i, prefix, serialized) == Some(acc)
    {
      var e := values.entries[i];
      assert e in values.entries;
      var name := ParamName(prefix, e.key);
      match e.value {
        case Null =>
        case Mapping(_) =>
          var nested := Serialize(e.value, name, acc);
          if nested.None? {
            FailureIsFinal(values, i + 1, |values.entries|, prefix, serialized);
            return None;
          }
          acc := nested.value;
        case Sequence(items) =>
          var strings: seq<string> := [];
          var j := 0;
          while j < |items|
            invariant 0 <= j <= |items| && Null !in items[..j]
            invariant |strings| == j && forall k :: 0 <= k < j ==> strings[k] == ToJavaString(items[k])
          {
            if items[j] == Null {
              FailureIsFinal(values, i + 1, |values.entries|, prefix, serialized);
              return None;
            }
            assert items[..j + 1] == items[..j] + [items[j]];
            strings := strings + [ToJavaString(items[j])];
            j := j + 1;
          }
          assert items[..j] == items;
          assert strings == seq(|items|, k requires 0 <= k < |items| => ToJavaString(items[k]));
          acc := acc[name := strings];
        case Scalar(t) =>
          acc := acc[name := [t]];
      }
      i := i + 1;
    }
    return Some(acc);
  }

  /** Once an entry fails, serializing further entries fails too. */
  lemma {:induction false} FailureIsFinal(m: Yaml, i: nat, n: nat, prefix: string, acc: Params)
    requires m.Mapping? && i <= n <= |m.entries|
    requires SerializeEntries(m, i, prefix, acc).None?
    ensures SerializeEntries(m, n, prefix, acc).None?
    decreases n - i
  {
    if i < n {
      FailureIsFinal(m, i + 1, n, prefix, acc);
    }
  }
}
