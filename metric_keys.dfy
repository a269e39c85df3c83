/**
 * The renaming and merging of the evaluation results at the end of
 * `train_and_eval` (main.py): every metric key is cut at its first underscore
 * and prefixed with `va_` (validation) or `te_` (test), and the two renamed
 * dictionaries are merged with the test entries written last.
 */
module MetricKeys {

  const ValidationPrefix: string := "va_"
  const TestPrefix: string := "te_"

  /** `k.split("_")[0]`: the part of `k` before its first underscore, or all of `k`. */
  function KeyStem(k: string): (r: string)
    ensures r <= k
    ensures '_' !in r
    ensures |r| < |k| ==> k[|r|] == '_'
    decreases |k|
  {
    if k == [] || k[0] == '_' then [] else [k[0]] + KeyStem(k[1..])
  }

  /** No item after position `i` has the same stem as item `i`. */
  ghost predicate LastOfStem<V>(items: seq<(string, V)>, i: int)
    requires 0 <= i < |items|
  {
    forall j :: i < j < |items| ==> KeyStem(items[j].0) != KeyStem(items[i].0)
  }

  /** No two items share a stem. */
  ghost predicate StemsDistinct<V>(items: seq<(string, V)>)
  {
    forall i, j :: 0 <= i < j < |items| ==> KeyStem(items[i].0) != KeyStem(items[j].0)
  }

  /** The key an item with key `k` gets under `prefix`. */
  function RenamedKey(prefix: string, k: string): (r: string)
    ensures prefix <= r
    ensures r[|prefix|..] <= k && '_' !in r[|prefix|..]
    ensures |r| - |prefix| < |k| ==> k[|r| - |prefix|] == '_'
  {
    prefix + KeyStem(k)
  }

  /**
   * The dictionary comprehension `{prefix + k.split("_")[0]: v for k, v in d.items()}`
   * over the items of `d` in insertion order: a later item overwrites an earlier
   * one whose key has the same stem. Its properties are the lemmas below.
   */
  function Renamed<V>(prefix: string, items: seq<(string, V)>): (r: map<string, V>)
    ensures forall key :: key in r ==> prefix <= key
    decreases |items|
  {
    if items == [] then map[]
    else
      var n := |items| - 1;
      Renamed(prefix, items[..n])[RenamedKey(prefix, items[n].0) := items[n].1]
  }

  /** The renamed keys are exactly the renamed keys of the items, each the prefix and a stem. */
  lemma {:induction false} RenamedKeys<V>(prefix: string, items: seq<(string, V)>)
    ensures forall i :: 0 <= i < |items| ==> RenamedKey(prefix, items[i].0) in Renamed(prefix, items)
    ensures forall key :: key in Renamed(prefix, items) ==>
      exists i :: 0 <= i < |items| && key == RenamedKey(prefix, items[i].0)
    ensures forall key :: key in Renamed(prefix, items) ==> prefix <= key && '_' !in key[|prefix|..]
    decreases |items|
  {
    if items != [] {
      var n := |items| - 1;
      var init := items[..n];
      RenamedKeys(prefix, init);
      var key := RenamedKey(prefix, items[n].0);
      assert Renamed(prefix, items) == Renamed(prefix, init)[key := items[n].1];
      assert key[|prefix|..] == KeyStem(items[n].0);
      forall i | 0 <= i < n ensures items[i] == init[i] { }
    }
  }

  /** Each renamed key holds the value of the last item with that stem. */
  lemma {:induction false} RenamedValues<V>(prefix: string, items: seq<(string, V)>)
    ensures forall i :: 0 <= i < |items| && LastOfStem(items, i) ==>
      RenamedKey(prefix, items[i].0) in Renamed(prefix, items) &&
      Renamed(prefix, items)[RenamedKey(prefix, items[i].0)] == items[i].1
    decreases |items|
  {
    if items != [] {
      var n := |items| - 1;
      var init := items[..n];
      RenamedValues(prefix, init);
      var key := RenamedKey(prefix, items[n].0);
      assert Renamed(prefix, items) == Renamed(prefix, init)[key := items[n].1];
      forall i | 0 <= i < |items| && LastOfStem(items, i)
        ensures RenamedKey(prefix, items[i].0) in Renamed(prefix, items)
        ensures Renamed(prefix, items)[RenamedKey(prefix, items[i].0)] == items[i].1
      {
        if i < n {
          assert items[i] == init[i];
          assert LastOfStem(init, i) by {
            forall j | i < j < |init| ensures KeyStem(init[j].0) != KeyStem(init[i].0) {
              assert init[j] == items[j];
            }
          }
          assert KeyStem(items[n].0) != KeyStem(items[i].0);
          if RenamedKey(prefix, items[i].0) == key {
            PrefixCancel(prefix, KeyStem(items[i].0), KeyStem(items[n].0));
          }
        }
      }
    }
  }

  /** `{**va, **te}`: every key of either side, the value of `te` where both have one. */
  function Merge<V>(va: map<string, V>, te: map<string, V>): (r: map<string, V>)
    ensures r.Keys == va.Keys + te.Keys
    ensures forall key :: key in te ==> r[key] == te[key]
    ensures forall key :: key in va && key !in te ==> r[key] == va[key]
  {
    va + te
  }

  /** The record `train_and_eval` returns, built from the two `evaluate` dictionaries. */
  function EvaluationRecord<V>(vaItems: seq<(string, V)>, teItems: seq<(string, V)>): (r: map<string, V>)
    ensures forall key :: key in r ==> ValidationPrefix <= key || TestPrefix <= key
    ensures r.Keys == Renamed(ValidationPrefix, vaItems).Keys + Renamed(TestPrefix, teItems).Keys
    ensures Renamed(ValidationPrefix, vaItems).Keys !! Renamed(TestPrefix, teItems).Keys
    ensures forall key :: key in Renamed(ValidationPrefix, vaItems) ==> r[key] == Renamed(ValidationPrefix, vaItems)[key]
    ensures forall key :: key in Renamed(TestPrefix, teItems) ==> r[key] == Renamed(TestPrefix, teItems)[key]
    ensures |r| == |Renamed(ValidationPrefix, vaItems)| + |Renamed(TestPrefix, teItems)|
  {
    var va := Renamed(ValidationPrefix, vaItems);
    var te := Renamed(TestPrefix, teItems);
    RenamedKeys(ValidationPrefix, vaItems);
    RenamedKeys(TestPrefix, teItems);
    forall key | key in va ensures key !in te {
      assert key[1] == 'a';
    }
    assert |va.Keys + te.Keys| == |va.Keys| + |te.Keys|;
    Merge(va, te)
  }

  lemma PrefixCancel(prefix: string, a: string, b: string)
    requires prefix + a == prefix + b
    ensures a == b
  {
    assert a == (prefix + a)[|prefix|..];
    assert b == (prefix + b)[|prefix|..];
  }

  /** The last item's stem differs from the stem of every item before it. */
  ghost predicate LastStemIsNew<V>(items: seq<(string, V)>)
    requires items != []
  {
    forall i :: 0 <= i < |items| - 1 ==> KeyStem(items[i].0) != KeyStem(items[|items| - 1].0)
  }

  lemma StemsDistinctSnoc<V>(items: seq<(string, V)>)
    requires items != []
    ensures StemsDistinct(items) <==> StemsDistinct(items[..|items| - 1]) && LastStemIsNew(items)
  {
    var init := items[..|items| - 1];
    assert forall i :: 0 <= i < |init| ==> init[i] == items[i];
  }

  /** The last item's renamed key is new exactly when its stem is new. */
  lemma LastKeyIsNew<V>(prefix: string, items: seq<(string, V)>)
    requires items != []
    ensures RenamedKey(prefix, items[|items| - 1].0) !in Renamed(prefix, items[..|items| - 1]) <==> LastStemIsNew(items)
  {
    var n := |items| - 1;
    var init := items[..n];
    var key := RenamedKey(prefix, items[n].0);
    RenamedKeys(prefix, init);
    if key in Renamed(prefix, init) {
      var i :| 0 <= i < n && key == RenamedKey(prefix, init[i].0);
      PrefixCancel(prefix, KeyStem(init[i].0), KeyStem(items[n].0));
      assert items[i] == init[i];
    } else {
      forall i | 0 <= i < n ensures KeyStem(items[i].0) != KeyStem(items[n].0) {
        assert items[i] == init[i];
      }
    }
  }

  /**
   * Renaming never adds entries, and it keeps every entry exactly when no two
   * keys share a stem: keys that do collapse into one entry.
   */
  lemma {:induction false} RenamedSize<V>(prefix: string, items: seq<(string, V)>)
    ensures |Renamed(prefix, items)| <= |items|
    ensures |Renamed(prefix, items)| == |items| <==> StemsDistinct(items)
    decreases |items|
  {
    if items != [] {
      var n := |items| - 1;
      RenamedSize(prefix, items[..n]);
      StemsDistinctSnoc(items);
      LastKeyIsNew(prefix, items);
    }
  }

  /** Two keys with the same stem collapse into one entry holding the later value. */
  lemma StemsCollapse<V>(prefix: string, k1: string, v1: V, k2: string, v2: V)
    requires KeyStem(k1) == KeyStem(k2)
    ensures Renamed(prefix, [(k1, v1), (k2, v2)]) == map[prefix + KeyStem(k1) := v2]
  {
    var items := [(k1, v1), (k2, v2)];
    assert items[..1] == [(k1, v1)];
    assert [(k1, v1)][..0] == [];
    assert Renamed(prefix, [(k1, v1)]) == map[RenamedKey(prefix, k1) := v1];
    assert Renamed(prefix, items) == map[RenamedKey(prefix, k1) := v1][RenamedKey(prefix, k2) := v2];
  }

  /** A key without an underscore is kept whole behind the prefix. */
  lemma KeyWithoutUnderscore(k: string)
    requires '_' !in k
    ensures KeyStem(k) == k
  {
  }

  /**
   * In the merged record the `va_` entry of a metric holds its validation value
   * and the `te_` entry its test value: neither split overwrites the other.
   */
  lemma RecordValuesFromSplits<V>(vaItems: seq<(string, V)>, teItems: seq<(string, V)>)
    ensures forall i :: 0 <= i < |vaItems| && LastOfStem(vaItems, i) ==>
      RenamedKey(ValidationPrefix, vaItems[i].0) in EvaluationRecord(vaItems, teItems) &&
      EvaluationRecord(vaItems, teItems)[RenamedKey(ValidationPrefix, vaItems[i].0)] == vaItems[i].1
    ensures forall i :: 0 <= i < |teItems| && LastOfStem(teItems, i) ==>
      RenamedKey(TestPrefix, teItems[i].0) in EvaluationRecord(vaItems, teItems) &&
      EvaluationRecord(vaItems, teItems)[RenamedKey(TestPrefix, teItems[i].0)] == teItems[i].1
  {
    RenamedValues(ValidationPrefix, vaItems);
    RenamedValues(TestPrefix, teItems);
  }
}
