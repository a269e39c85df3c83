# RNA binding region: verified model of the experiment helpers

`main.py` trains a transformer classifier over paired DNA sequences and
reports validation and test metrics for 30 seeds. Apart from TensorFlow and
pandas calls, it holds a few deterministic helpers, and this project models
them in Dafny:

- **Sequence encoders** (`Encoding`, `encoding.dfy`). `seq2label` turns a
  string over A, T, C, G into the codes 0, 1, 2, 3. `seq2oneHot` turns it into
  4-column one-hot rows in the same column order. Both raise a lookup error on
  the first character outside the alphabet. The model returns
  `Err(UnknownSymbol(c))` with that first character `c`, and never
  substitutes a default.
- **Metric-key renaming and merge** (`MetricKeys`, `metric_keys.dfy`). Each
  key that `evaluate` returns is cut at its first underscore and prefixed with
  `va_` or `te_`. The two renamed dictionaries are then merged with
  `{**va, **te}`. A dictionary arrives as its items in insertion order, because
  when two keys share a stem the later item wins.
- **Checkpoint naming and the load/train/save choice** (`Checkpoint`,
  `checkpoint.dfy`). The checkpoint path is
  `./models/<name>_seed_<str(seed)>.h5`. A run loads the model when the file
  exists and `save` is set. Otherwise it fits a fresh model and, with `save`
  set, writes it out. The file system is a set of existing paths passed in.
  Fitting and evaluation appear only as steps in a trace.
- `Wrappers` (`wrappers.dfy`) holds the `Result` type used for the lookup
  error.

With `save` false, the code still checks whether the checkpoint path exists:
`os.path.exists(model_path) and save` (main.py:81) evaluates `exists` before
`save`. But it neither loads nor writes the file. The checkpoint part of a run
therefore begins with that check, the `Probe` step. Encoding the data
(main.py:69-78) comes before it and is not part of the modelled trace. With
`save` false there is no `Load` or `Store` step and the set of files does not
change (`Checkpoint.NoSaveNoCheckpoint`).

## Model

| member | source | states |
|---|---|---|
| Encoding.Seq2Label | main.py:53-61 | Succeeds exactly on strings over {A,T,C,G}. The result has one code per character, and code `k` is the base at position `k` of the column order "ATCG". On failure the error names the first character outside the alphabet |
| Encoding.Seq2OneHot | main.py:43-51 | Succeeds exactly on strings over {A,T,C,G}. It gives one row per character: 4 columns, a 1 in the character's column and 0 elsewhere. On failure the error names the first character outside the alphabet |
| Encoding.LabelCodes | main.py:44-59 | The codes are exactly A→0, T→1, C→2, G→3, so "ATCG" encodes to [0,1,2,3]; "A" one-hot encodes to [[1,0,0,0]] |
| Encoding.Seq2LabelInjective | main.py:53-60 | Two strings that both encode and have equal label encodings are equal |
| Encoding.FirstUnknownUnique | main.py:50-60 | A string has only one first character outside the alphabet, so the error an encoder reports is determined by the input |
| Encoding.EncodersFailAlike | main.py:43-60 | `seq2label` fails exactly when `seq2oneHot` fails, and both report the same unknown symbol |
| Encoding.OneHotAgreesWithLabel | main.py:44-60 | Row i of the one-hot encoding has its 1 at column `seq2label(s)[i]` and 0 in every other column |
| Encoding.OneHotRowHasSingleOne | main.py:44-50 | A one-hot row of a base has entries in {0,1} summing to 1, i.e. exactly one 1 |
| MetricKeys.KeyStem | main.py:106-107 | `k.split("_")[0]`: a prefix of `k` with no underscore, followed in `k` by an underscore unless it is the whole of `k` |
| MetricKeys.RenamedKey | main.py:106-107 | `f'va_{k.split("_")[0]}'` (and `te_`): the prefix, then a prefix of `k` with no underscore, which is all of `k` or is followed in `k` by an underscore |
| MetricKeys.Renamed | main.py:106-107 | The dictionary comprehension over the items in insertion order. Its contract only says every key starts with the prefix. The key set, the values and the size are stated by RenamedKeys, RenamedValues and RenamedSize |
| MetricKeys.KeyWithoutUnderscore | main.py:106-107 | A key with no underscore is kept whole |
| MetricKeys.RenamedKeys | main.py:106-107 | The renamed dictionary's keys are exactly `prefix + stem` of the input keys, and each is the prefix followed by an underscore-free stem |
| MetricKeys.RenamedValues | main.py:106-107 | Each renamed key holds the value of the last input item with that stem, in insertion order |
| MetricKeys.RenamedSize | main.py:106-107 | Renaming never adds entries. It keeps every entry exactly when no two input keys share a stem |
| MetricKeys.StemsCollapse | main.py:106-107 | Two keys with the same stem collapse into one entry holding the later value |
| MetricKeys.Merge | main.py:108 | `{**va, **te}`: the keys of both sides, with `te`'s value where both sides hold the key and `va`'s value elsewhere |
| MetricKeys.EvaluationRecord | main.py:106-108 | Every key of the returned record starts with `va_` or `te_`. The key set is the disjoint union of the two renamed dictionaries, so no entry of one split overwrites the other. Its size is the sum of their sizes |
| MetricKeys.RecordValuesFromSplits | main.py:106-108 | In the record, `va_<stem>` holds the validation value and `te_<stem>` the test value of the last metric with that stem |
| Checkpoint.NatToDecimal | main.py:66 | The decimal digits of a natural number, at least one digit and no leading zero |
| Checkpoint.DecimalRoundTrip | main.py:66 | Reading back the digits `str` writes for `n` gives `n` |
| Checkpoint.IntToDecimal | main.py:66 | `str(seed)`: never empty, never contains an underscore, and is all digits exactly when the seed is not negative |
| Checkpoint.TaggedName | main.py:66 | `model_name += f'_seed_{seed}'`: the name, then `_seed_`, then the non-empty, underscore-free text of the seed |
| Checkpoint.TaggedNameInjective | main.py:66 | The seed-tagged name string determines both the model name and the seed |
| Checkpoint.IntToDecimalInjective | main.py:66 | Distinct seeds are written differently |
| Checkpoint.ModelPath | main.py:66-67 | The path starts with `./models/`, ends with `.h5`, and between the two holds `<name>_seed_<str(seed)>` |
| Checkpoint.ModelPathInjective | main.py:66-67 | The path string determines both the model name and the seed, so no two runs share a path string |
| Checkpoint.ChooseBranch | main.py:81-101 | Loads iff the checkpoint exists and `save` is set. Otherwise it trains, and it persists the result iff `save` is set |
| Checkpoint.StepsAt | main.py:81-101 | For a given checkpoint path: the branch is the one `ChooseBranch` picks. The probe comes first. A load happens iff the path exists and `save` is set, and a fit happens otherwise. A store happens iff the path was absent and `save` is set, and it comes right after the fit. The path exists afterwards iff `save` was set or it existed before |
| Checkpoint.CheckpointRun | main.py:81-101 | The branch is the one `ChooseBranch` picks for this run's path. The checkpoint steps begin with the existence probe. A `Load` happens iff the file exists and `save` is set, and a `Fit` happens otherwise. A `Store` happens iff the file was absent and `save` is set, and it comes right after the fit. Every load or store touches only this run's path. With `save` the path exists afterwards; without it the file set is unchanged |
| Checkpoint.NoSaveNoCheckpoint | main.py:81-101 | With `save` false the run trains and neither reads nor writes the checkpoint, and no file changes |
| Checkpoint.SecondRunLoads | main.py:66-101 | Two runs with `save` and the same name and seed: the second loads the checkpoint whatever the starting files |
| Checkpoint.RunsDoNotShareCheckpoints | main.py:66-101 | A run never loads the path string that a run with a different name or seed has just written |

## Left out

- `learning_rate_scheduler` (main.py:26-30) computes `0.001 * 0.1 ** (epoch/10)` in floating point. It is not modelled.
- `ontHot2seq` (main.py:33-41) returns `[]` on an empty list and raises `NameError` on any other input: it iterates `onthot` but reads the undefined `onehot`, and then calls the lookup table as a function. No working inverse of `seq2oneHot` is defined in the source, so none is modelled.
- The metric singletons (main.py:17-23) and the `metrics` module are framework objects with hidden state. They are not part of this model.
- `build_data` and `split` (main.py:10, 69-70) are not part of this model. No property of the data split is stated.
- Model construction, `compile`, `fit`, `evaluate`, `load_model` and `model.save` (main.py:83-104) are TensorFlow calls. They appear only as the `Fit`, `Load` and `Store` steps. The `evaluate` dictionaries are inputs to `MetricKeys.EvaluationRecord`.
- The float32 casts of the encoded columns (main.py:72-78) are left out. The one-hot entries are exact 0.0 or 1.0, so they are modelled as the integers 0 and 1.
- The `print` on loading (main.py:82) is left out, as are the 30-seed batch loop, the pandas table and the CSV output (main.py:121-127).
- Whether the checkpoint file exists is an input: the current file set. Races between processes on the same path are not modelled.
- The file system is a set of path strings, and two paths name the same file only when the strings are equal. No normalisation (`./a` against `a`), case folding (`Base` against `base`) or symbolic links are modelled. `Checkpoint.ModelPathInjective` and `Checkpoint.RunsDoNotShareCheckpoints` are therefore about path strings: on a real file system, two runs whose path strings differ can still share a checkpoint file.
- `MetricKeys.Renamed` and `MetricKeys.EvaluationRecord` return a `map`, so the key order of the Python dictionaries is not modelled. In the source the `va_` keys come first in `evaluate` order, then the `te_` keys, and a collapsed key keeps the position of its first occurrence. pandas uses that order for the CSV columns (main.py:125-127).
