/**
 * The two sequence encoders of main.py: `seq2label` turns a DNA string into
 * integer symbol codes and `seq2oneHot` turns it into one-hot rows. Both look
 * each character up in a constant table and raise a lookup error on the first
 * character the table does not hold.
 */
module Encoding {
  import opened Wrappers

  /** Column order shared by both tables: a base's code is its position here. */
  const Alphabet: string := "ATCG"

  /** The table of `seq2label`. */
  const LabelMapping: map<char, nat> := map['A' := 0, 'T' := 1, 'C' := 2, 'G' := 3]

  /** The table of `seq2oneHot`; its 0.0/1.0 entries are exact, so they are integers here. */
  const OneHotMapping: map<char, seq<int>> :=
    map['A' := [1, 0, 0, 0], 'T' := [0, 1, 0, 0], 'C' := [0, 0, 1, 0], 'G' := [0, 0, 0, 1]]

  /** The lookup error, carrying the key that was not found. */
  datatype EncodeError = UnknownSymbol(symbol: char)

  predicate IsBase(c: char) { c in Alphabet }

  predicate IsDna(s: string) { forall i :: 0 <= i < |s| ==> IsBase(s[i]) }

  /** `c` is the first character of `s` outside the alphabet. */
  ghost predicate FirstUnknown(s: string, c: char) {
    exists i :: 0 <= i < |s| && s[i] == c && !IsBase(c) && IsDna(s[..i])
  }

  /** Row `row` is the one-hot row of base `c`: a 1 in the column of `c` and 0 elsewhere. */
  ghost predicate IsOneHotRow(row: seq<int>, c: char) {
    |row| == |Alphabet| && forall j :: 0 <= j < |Alphabet| ==> row[j] == (if Alphabet[j] == c then 1 else 0)
  }

  lemma {:induction false} FirstUnknownShift(s: string, c: char)
    requires |s| > 0 && IsBase(s[0]) && FirstUnknown(s[1..], c)
    ensures FirstUnknown(s, c)
  {
    var i :| 0 <= i < |s[1..]| && s[1..][i] == c && !IsBase(c) && IsDna(s[1..][..i]);
    assert s[..i + 1] == [s[0]] + s[1..][..i];
    assert s[i + 1] == c;
  }

  /** seq2label: one code per character, failing on the first unknown one. */
  function Seq2Label(s: string): (r: Result<seq<nat>, EncodeError>)
    ensures r.Ok? <==> IsDna(s)
    ensures r.Ok? ==> |r.value| == |s|
    ensures r.Ok? ==> forall i :: 0 <= i < |s| ==> r.value[i] < |Alphabet| && Alphabet[r.value[i]] == s[i]
    ensures r.Err? ==> FirstUnknown(s, r.error.symbol)
    decreases |s|
  {
    if s == [] then Ok([])
    else if s[0] !in LabelMapping then
      assert s[..0] == [];
      Err(UnknownSymbol(s[0]))
    else
      match Seq2Label(s[1..])
      case Err(e) =>
        FirstUnknownShift(s, e.symbol);
        Err(e)
      case Ok(rest) =>
        Ok([LabelMapping[s[0]]] + rest)
  }

  /** seq2oneHot: one 4-column row per character, failing on the first unknown one. */
  function Seq2OneHot(s: string): (r: Result<seq<seq<int>>, EncodeError>)
    ensures r.Ok? <==> IsDna(s)
    ensures r.Ok? ==> |r.value| == |s|
    ensures r.Ok? ==> forall i :: 0 <= i < |s| ==> IsOneHotRow(r.value[i], s[i])
    ensures r.Err? ==> FirstUnknown(s, r.error.symbol)
    decreases |s|
  {
    if s == [] then Ok([])
    else if s[0] !in OneHotMapping then
      assert s[..0] == [];
      Err(UnknownSymbol(s[0]))
    else
      match Seq2OneHot(s[1..])
      case Err(e) =>
        FirstUnknownShift(s, e.symbol);
        Err(e)
      case Ok(rest) =>
        Ok([OneHotMapping[s[0]]] + rest)
  }

  /** A single base encodes to its column in the alphabet. */
  lemma SingleBaseCode(c: char, k: nat)
    requires k < |Alphabet| && Alphabet[k] == c
    ensures Seq2Label([c]) == Ok([k])
  {
    var r := Seq2Label([c]).value;
    assert |r| == 1 && Alphabet[r[0]] == c;
    assert r == [r[0]];
  }

  lemma AlphabetCodes()
    ensures Seq2Label(Alphabet) == Ok([0, 1, 2, 3])
  {
    var r := Seq2Label(Alphabet).value;
    assert Alphabet[r[0]] == 'A' && Alphabet[r[1]] == 'T' && Alphabet[r[2]] == 'C' && Alphabet[r[3]] == 'G';
    assert r == [0, 1, 2, 3];
  }

  lemma OneHotOfA()
    ensures Seq2OneHot("A") == Ok([[1, 0, 0, 0]])
  {
    var h := Seq2OneHot("A").value;
    assert IsOneHotRow(h[0], 'A');
    assert h[0] == [1, 0, 0, 0];
    assert |h| == 1 && h == [h[0]];
  }

  /** The codes are exactly A->0, T->1, C->2, G->3. */
  lemma LabelCodes()
    ensures Seq2Label("A") == Ok([0]) && Seq2Label("T") == Ok([1])
    ensures Seq2Label("C") == Ok([2]) && Seq2Label("G") == Ok([3])
    ensures Seq2Label("ATCG") == Ok([0, 1, 2, 3])
    ensures Seq2OneHot("A") == Ok([[1, 0, 0, 0]])
  {
    SingleBaseCode('A', 0);
    SingleBaseCode('T', 1);
    SingleBaseCode('C', 2);
    SingleBaseCode('G', 3);
    AlphabetCodes();
    OneHotOfA();
  }

  /** Two DNA strings with the same label encoding are the same string. */
  lemma Seq2LabelInjective(s: string, t: string)
    requires Seq2Label(s).Ok? && Seq2Label(s) == Seq2Label(t)
    ensures s == t
  {
  }

  /** A string has at most one first unknown character. */
  lemma {:induction false} FirstUnknownUnique(s: string, c: char, d: char)
    requires FirstUnknown(s, c) && FirstUnknown(s, d)
    ensures c == d
  {
  }

  /** Both encoders accept the same strings and report the same unknown symbol. */
  lemma EncodersFailAlike(s: string)
    ensures Seq2Label(s).Err? <==> Seq2OneHot(s).Err?
    ensures Seq2Label(s).Err? ==> Seq2Label(s).error == Seq2OneHot(s).error
  {
  }

  /** The four bases of the alphabet are distinct. */
  lemma AlphabetDistinct(j: nat, k: nat)
    requires j < |Alphabet| && k < |Alphabet| && Alphabet[j] == Alphabet[k]
    ensures j == k
  {
  }

  /** A one-hot row of the base in column `k` has its 1 at `k` and 0 elsewhere. */
  lemma OneHotRowColumn(row: seq<int>, k: nat)
    requires k < |Alphabet| && IsOneHotRow(row, Alphabet[k])
    ensures forall j :: 0 <= j < |Alphabet| ==> row[j] == (if j == k then 1 else 0)
  {
    forall j | 0 <= j < |Alphabet| ensures row[j] == (if j == k then 1 else 0) {
      if Alphabet[j] == Alphabet[k] {
        AlphabetDistinct(j, k);
      }
    }
  }

  /** Row i of the one-hot encoding has its single 1 at column seq2label(s)[i]. */
  lemma OneHotAgreesWithLabel(s: string, i: nat)
    requires IsDna(s) && i < |s|
    ensures |Seq2OneHot(s).value[i]| == |Alphabet|
    ensures Seq2Label(s).value[i] < |Alphabet|
    ensures forall j :: 0 <= j < |Alphabet| ==>
      Seq2OneHot(s).value[i][j] == (if j == Seq2Label(s).value[i] then 1 else 0)
  {
    var k := Seq2Label(s).value[i];
    OneHotRowColumn(Seq2OneHot(s).value[i], k);
  }

  function Sum(row: seq<int>): (t: int)
  {
    if row == [] then 0 else row[0] + Sum(row[1..])
  }

  /** Every one-hot row has entries in {0, 1} summing to 1, i.e. exactly one 1. */
  lemma OneHotRowHasSingleOne(row: seq<int>, c: char)
    requires IsBase(c) && IsOneHotRow(row, c)
    ensures forall j :: 0 <= j < |row| ==> row[j] == 0 || row[j] == 1
    ensures Sum(row) == 1
  {
    assert row == [row[0], row[1], row[2], row[3]];
    assert row[3..][1..] == [];
    assert Sum(row[3..]) == row[3];
    assert Sum(row[2..]) == row[2] + row[3];
    assert Sum(row[1..]) == row[1] + row[2] + row[3];
  }
}
