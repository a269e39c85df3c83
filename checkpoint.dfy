/**
 * The checkpoint handling of `train_and_eval` (main.py): the checkpoint path
 * derived from the model name and the seed, and the choice between loading an
 * existing checkpoint and training a fresh model, which is then saved when
 * `save` is set. The file system is a set of existing paths passed in; the
 * model, its training and its evaluation stay abstract.
 */
module Checkpoint {

  const ModelDir: string := "./models/"
  const SeedTag: string := "_seed_"
  const Extension: string := ".h5"

  predicate IsDigit(c: char) { '0' <= c <= '9' }

  predicate AllDigits(s: string) { forall i :: 0 <= i < |s| ==> IsDigit(s[i]) }

  function Digit(d: nat): (c: char)
    requires d < 10
    ensures IsDigit(c) && c as int - '0' as int == d
  {
    ('0' as int + d) as char
  }

  /** The decimal digits of `n` with no leading zero, as Python's `str` writes a natural number. */
  function NatToDecimal(n: nat): (r: string)
    ensures |r| >= 1 && AllDigits(r)
    ensures r[0] == '0' ==> r == "0"
    decreases n
  {
    if n < 10 then [Digit(n)] else NatToDecimal(n / 10) + [Digit(n % 10)]
  }

  /** The number a string of decimal digits denotes. */
  function DecimalValue(ds: string): nat
    requires AllDigits(ds)
    decreases |ds|
  {
    if ds == [] then 0
    else 10 * DecimalValue(ds[..|ds| - 1]) + (ds[|ds| - 1] as int - '0' as int)
  }

  /** Reading back the digits of `n` gives `n`. */
  lemma {:induction false} DecimalRoundTrip(n: nat)
    ensures DecimalValue(NatToDecimal(n)) == n
    decreases n
  {
    if n >= 10 {
      DecimalRoundTrip(n / 10);
      var ds := NatToDecimal(n);
      assert ds[..|ds| - 1] == NatToDecimal(n / 10);
    }
  }

  /** `str(seed)`: a minus sign for a negative seed, then the decimal digits. */
  function IntToDecimal(i: int): (r: string)
    ensures |r| >= 1 && '_' !in r
    ensures i >= 0 <==> AllDigits(r)
  {
    if i < 0 then
      var r := "-" + NatToDecimal(-i);
      assert !IsDigit(r[0]);
      r
    else NatToDecimal(i)
  }

  /** Distinct seeds are written differently. */
  lemma IntToDecimalInjective(i: int, j: int)
    requires IntToDecimal(i) == IntToDecimal(j)
    ensures i == j
  {
    if i < 0 {
      assert NatToDecimal(-i) == IntToDecimal(i)[1..] == IntToDecimal(j)[1..] == NatToDecimal(-j);
      DecimalRoundTrip(-i);
      DecimalRoundTrip(-j);
    } else {
      DecimalRoundTrip(i);
      DecimalRoundTrip(j);
    }
  }

  /** `model_name += f'_seed_{seed}'`. */
  function TaggedName(modelName: string, seed: int): (r: string)
    ensures modelName + SeedTag <= r
    ensures var digits := r[|modelName| + |SeedTag|..]; '_' !in digits && |digits| >= 1
  {
    modelName + SeedTag + IntToDecimal(seed)
  }

  /** `f'./models/{model_name}.h5'` with the seed-tagged name. */
  function ModelPath(modelName: string, seed: int): (r: string)
    ensures ModelDir <= r
    ensures |r| >= |ModelDir| + |Extension| && r[|r| - |Extension|..] == Extension
    ensures r[|ModelDir|..|r| - |Extension|] == TaggedName(modelName, seed)
  {
    var r := ModelDir + TaggedName(modelName, seed) + Extension;
    assert r[|ModelDir|..|r| - |Extension|] == TaggedName(modelName, seed);
    r
  }

  /** In `a + "_" + d` with no underscore in `d`, the underscore after `a` is the last one. */
  lemma LastUnderscore(a: string, d: string)
    requires '_' !in d
    ensures (a + "_" + d)[|a|] == '_'
    ensures forall k :: |a| < k < |a + "_" + d| ==> (a + "_" + d)[k] != '_'
  {
  }

  /** Splitting at the last underscore: the part after it holds no underscore. */
  lemma SplitAtLastUnderscore(a: string, d1: string, b: string, d2: string)
    requires a + "_" + d1 == b + "_" + d2
    requires '_' !in d1 && '_' !in d2
    ensures a == b && d1 == d2
  {
    var x := a + "_" + d1;
    LastUnderscore(a, d1);
    LastUnderscore(b, d2);
    assert |a| == |b|;
    assert a == x[..|a|] == b;
    assert d1 == x[|a| + 1..] == d2;
  }

  /** The seed-tagged name is `name + "_seed"`, an underscore, and the digits of the seed. */
  lemma TaggedNameSplit(name: string, seed: int)
    ensures TaggedName(name, seed) == (name + "_seed") + "_" + IntToDecimal(seed)
  {
    assert SeedTag == "_seed" + "_";
  }

  /** The seed-tagged name determines both the model name and the seed. */
  lemma TaggedNameInjective(name1: string, seed1: int, name2: string, seed2: int)
    requires TaggedName(name1, seed1) == TaggedName(name2, seed2)
    ensures name1 == name2 && seed1 == seed2
  {
    TaggedNameSplit(name1, seed1);
    TaggedNameSplit(name2, seed2);
    SplitAtLastUnderscore(name1 + "_seed", IntToDecimal(seed1), name2 + "_seed", IntToDecimal(seed2));
    assert name1 == (name1 + "_seed")[..|name1|];
    assert name2 == (name2 + "_seed")[..|name2|];
    IntToDecimalInjective(seed1, seed2);
  }

  /** The path string determines both the model name and the seed: no two runs share a path string. */
  lemma ModelPathInjective(name1: string, seed1: int, name2: string, seed2: int)
    requires ModelPath(name1, seed1) == ModelPath(name2, seed2)
    ensures name1 == name2 && seed1 == seed2
  {
    TaggedNameInjective(name1, seed1, name2, seed2);
  }

  /** Which way `train_and_eval` obtains its model. */
  datatype Branch = LoadExisting | TrainFresh(persist: bool)

  /**
   * `os.path.exists(model_path) and save` selects loading; otherwise a fresh
   * model is trained and, under `if save`, written out.
   */
  function ChooseBranch(checkpointExists: bool, save: bool): (b: Branch)
    ensures b.LoadExisting? <==> checkpointExists && save
    ensures b.TrainFresh? ==> (b.persist <==> save)
  {
    if checkpointExists && save then LoadExisting else TrainFresh(save)
  }

  /** What a run does with the checkpoint, in order. */
  datatype Step = Probe(path: string) | Load(path: string) | Fit | Store(path: string)

  datatype Outcome = Outcome(branch: Branch, steps: seq<Step>, files: set<string>)

  /** The checkpoint steps of a run whose checkpoint path is `path`. */
  function StepsAt(files: set<string>, path: string, save: bool): (o: Outcome)
    ensures |o.steps| >= 2 && o.steps[0] == Probe(path)
    ensures Load(path) in o.steps <==> path in files && save
    ensures Fit in o.steps <==> !(path in files && save)
    ensures Store(path) in o.steps <==> path !in files && save
    ensures o.branch == ChooseBranch(path in files, save)
    ensures forall i :: 0 <= i < |o.steps| && (o.steps[i].Load? || o.steps[i].Store?) ==>
      save && o.steps[i].path == path
    ensures forall i :: 0 <= i < |o.steps| && o.steps[i].Store? ==> i > 0 && o.steps[i - 1] == Fit
    ensures o.files == if save then files + {path} else files
  {
    var branch := ChooseBranch(path in files, save);
    match branch
    case LoadExisting => Outcome(branch, [Probe(path), Load(path)], files)
    case TrainFresh(persist) =>
      if persist then Outcome(branch, [Probe(path), Fit, Store(path)], files + {path})
      else Outcome(branch, [Probe(path), Fit], files)
  }

  /**
   * The checkpoint part of one `train_and_eval(modelName, seed, save)` call
   * against the set `files` of existing paths: the existence probe (evaluated
   * before `save` is looked at), then either the load, or the fit followed by
   * the save when `save` is set; and the set of paths afterwards.
   */
  function CheckpointRun(files: set<string>, modelName: string, seed: int, save: bool): (o: Outcome)
    ensures |o.steps| >= 2 && o.steps[0] == Probe(ModelPath(modelName, seed))
    ensures Load(ModelPath(modelName, seed)) in o.steps <==> ModelPath(modelName, seed) in files && save
    ensures Fit in o.steps <==> !(ModelPath(modelName, seed) in files && save)
    ensures Store(ModelPath(modelName, seed)) in o.steps <==> ModelPath(modelName, seed) !in files && save
    ensures o.branch == ChooseBranch(ModelPath(modelName, seed) in files, save)
    ensures forall i :: 0 <= i < |o.steps| && (o.steps[i].Load? || o.steps[i].Store?) ==>
      save && o.steps[i].path == ModelPath(modelName, seed)
    ensures forall i :: 0 <= i < |o.steps| && o.steps[i].Store? ==> i > 0 && o.steps[i - 1] == Fit
    ensures o.files == if save then files + {ModelPath(modelName, seed)} else files
  {
    StepsAt(files, ModelPath(modelName, seed), save)
  }

  /** With `save` false the checkpoint is neither read nor written and no file changes. */
  lemma NoSaveNoCheckpoint(files: set<string>, modelName: string, seed: int)
    ensures var o := CheckpointRun(files, modelName, seed, false);
      o.files == files && o.branch == TrainFresh(false) &&
      forall i :: 0 <= i < |o.steps| ==> !o.steps[i].Load? && !o.steps[i].Store?
  {
  }

  /** A second run with `save` and the same arguments loads what the first one left. */
  lemma SecondRunLoads(files: set<string>, modelName: string, seed: int)
    ensures var first := CheckpointRun(files, modelName, seed, true);
      CheckpointRun(first.files, modelName, seed, true).branch == LoadExisting
  {
  }

  /** A run never loads the path string that a run with another name or seed has written. */
  lemma RunsDoNotShareCheckpoints(files: set<string>, name1: string, seed1: int, name2: string, seed2: int)
    requires name1 != name2 || seed1 != seed2
    requires ModelPath(name2, seed2) !in files
    ensures var first := CheckpointRun(files, name1, seed1, true);
      CheckpointRun(first.files, name2, seed2, true).branch.TrainFresh?
  {
    if ModelPath(name1, seed1) == ModelPath(name2, seed2) {
      ModelPathInjective(name1, seed1, name2, seed2);
    }
  }
}
