/** The fixed choice tables of an asset record (its type, and how its value
    changes over time), the case-insensitive reverse lookup from a stored
    label to its enumerator, and the label lists offered to the user.

    Model_Asset.h, which declares the enumerators, is not part of this model:
    they are taken to be numbered from 0 in table order, which is what
    `ASSETTYPE` relies on when it indexes the label list with an enumerator. */
module AssetChoices {

  /** The enumerator value a failed lookup returns. */
  const NOT_FOUND: int := -1

  datatype Rate = RateNone | RateAppreciate | RateDepreciate {
    function Code(): int {
      match this
      case RateNone => 0
      case RateAppreciate => 1
      case RateDepreciate => 2
    }
  }

  datatype AssetType =
    | TypeProperty
    | TypeAuto
    | TypeHouse
    | TypeArt
    | TypeJewellery
    | TypeCash
    | TypeOther
  {
    function Code(): int {
      match this
      case TypeProperty => 0
      case TypeAuto => 1
      case TypeHouse => 2
      case TypeArt => 3
      case TypeJewellery => 4
      case TypeCash => 5
      case TypeOther => 6
    }
  }

  /** The untranslated labels, in the order the user is offered them. */
  const RATE_CHOICES: seq<(Rate, string)> := [
    (RateNone, "None"),
    (RateAppreciate, "Appreciates"),
    (RateDepreciate, "Depreciates")
  ]

  const TYPE_CHOICES: seq<(AssetType, string)> := [
    (TypeProperty, "Property"),
    (TypeAuto, "Automobile"),
    (TypeHouse, "Household Object"),
    (TypeArt, "Art"),
    (TypeJewellery, "Jewellery"),
    (TypeCash, "Cash"),
    (TypeOther, "Other")
  ]

  /** Case folding of one character, restricted to ASCII letters. */
  function FoldChar(c: char): char {
    if 'A' <= c <= 'Z' then (c as int - 'A' as int + 'a' as int) as char else c
  }

  function Fold(s: string): (r: string)
    ensures |r| == |s|
    ensures forall i :: 0 <= i < |s| ==> r[i] == FoldChar(s[i])
  {
    seq(|s|, i requires 0 <= i < |s| => FoldChar(s[i]))
  }

  /** Two labels compare equal ignoring case. */
  predicate EqualsNoCase(a: string, b: string) {
    Fold(a) == Fold(b)
  }

  /** No two labels of a table are equal ignoring case. */
  predicate DistinctNoCase<E>(table: seq<(E, string)>) {
    forall i, j :: 0 <= i < j < |table| ==> !EqualsNoCase(table[i].1, table[j].1)
  }

  /** Position of the first entry whose label equals `name` ignoring case,
      or |table| when there is none. */
  function FirstMatch<E>(table: seq<(E, string)>, name: string): (k: nat)
    ensures k <= |table|
    ensures k < |table| ==> EqualsNoCase(table[k].1, name)
    ensures forall j :: 0 <= j < k ==> !EqualsNoCase(table[j].1, name)
  {
    if table == [] then 0
    else if EqualsNoCase(table[0].1, name) then 0
    else 1 + FirstMatch(table[1..], name)
  }

  /** In a table whose labels are distinct ignoring case, any spelling of an
      entry's label finds that entry. */
  lemma FirstMatchFindsOwnEntry<E>(table: seq<(E, string)>, i: int, name: string)
    requires DistinctNoCase(table)
    requires 0 <= i < |table| && EqualsNoCase(table[i].1, name)
    ensures FirstMatch(table, name) == i
  {
  }

  lemma RateCodesArePositions()
    ensures forall i :: 0 <= i < |RATE_CHOICES| ==> RATE_CHOICES[i].0.Code() == i
  {
  }

  lemma TypeCodesArePositions()
    ensures forall i :: 0 <= i < |TYPE_CHOICES| ==> TYPE_CHOICES[i].0.Code() == i
  {
  }

  lemma RateLabelsDistinct()
    ensures DistinctNoCase(RATE_CHOICES)
  {
    assert Fold(RATE_CHOICES[1].1)[0] != Fold(RATE_CHOICES[2].1)[0];
  }

  lemma TypeLabelsDistinct()
    ensures DistinctNoCase(TYPE_CHOICES)
  {
  }

  /** `rate`: the enumerator of the first rate label equal to `valueChange`
      ignoring case, or NOT_FOUND. */
  function RateOf(valueChange: string): (r: int)
    ensures NOT_FOUND <= r < |RATE_CHOICES|
    ensures r == NOT_FOUND <==>
      forall i :: 0 <= i < |RATE_CHOICES| ==> !EqualsNoCase(RATE_CHOICES[i].1, valueChange)
    ensures r != NOT_FOUND ==>
      && RATE_CHOICES[r].0.Code() == r
      && EqualsNoCase(RATE_CHOICES[r].1, valueChange)
      && forall j :: 0 <= j < r ==> !EqualsNoCase(RATE_CHOICES[j].1, valueChange)
  {
    RateCodesArePositions();
    var k := FirstMatch(RATE_CHOICES, valueChange);
    if k < |RATE_CHOICES| then RATE_CHOICES[k].0.Code() else NOT_FOUND
  }

  /** `type`: the enumerator of the first type label equal to `assetType`
      ignoring case, or NOT_FOUND. */
  function TypeOf(assetType: string): (r: int)
    ensures NOT_FOUND <= r < |TYPE_CHOICES|
    ensures r == NOT_FOUND <==>
      forall i :: 0 <= i < |TYPE_CHOICES| ==> !EqualsNoCase(TYPE_CHOICES[i].1, assetType)
    ensures r != NOT_FOUND ==>
      && TYPE_CHOICES[r].0.Code() == r
      && EqualsNoCase(TYPE_CHOICES[r].1, assetType)
      && forall j :: 0 <= j < r ==> !EqualsNoCase(TYPE_CHOICES[j].1, assetType)
  {
    TypeCodesArePositions();
    var k := FirstMatch(TYPE_CHOICES, assetType);
    if k < |TYPE_CHOICES| then TYPE_CHOICES[k].0.Code() else NOT_FOUND
  }

  /** Any spelling of a rate label resolves to that label's own enumerator. */
  lemma RateOfLabel(i: int, valueChange: string)
    requires 0 <= i < |RATE_CHOICES| && EqualsNoCase(RATE_CHOICES[i].1, valueChange)
    ensures RateOf(valueChange) == RATE_CHOICES[i].0.Code() == i
  {
    RateLabelsDistinct();
    FirstMatchFindsOwnEntry(RATE_CHOICES, i, valueChange);
    RateCodesArePositions();
  }

  /** Any spelling of a type label resolves to that label's own enumerator. */
  lemma TypeOfLabel(i: int, assetType: string)
    requires 0 <= i < |TYPE_CHOICES| && EqualsNoCase(TYPE_CHOICES[i].1, assetType)
    ensures TypeOf(assetType) == TYPE_CHOICES[i].0.Code() == i
  {
    TypeLabelsDistinct();
    FirstMatchFindsOwnEntry(TYPE_CHOICES, i, assetType);
    TypeCodesArePositions();
  }

  lemma TypeOfExamples()
    ensures TypeOf("automobile") == TypeAuto.Code()
    ensures TypeOf("AUTOMOBILE") == TypeAuto.Code()
    ensures TypeOf("Boat") == NOT_FOUND
  {
    TypeOfLabel(1, "automobile");
    TypeOfLabel(1, "AUTOMOBILE");
    assert forall i :: 0 <= i < |TYPE_CHOICES| ==> |TYPE_CHOICES[i].1| != 4 || TYPE_CHOICES[i].1 == "Cash";
    assert Fold("Boat")[0] != Fold("Cash")[0];
  }

  /** Appends each label of `table` in turn, as the loops of `all_rate` and
      `all_type` do. */
  method CollectLabels<E>(table: seq<(E, string)>) returns (labels: seq<string>)
    ensures |labels| == |table|
    ensures forall i :: 0 <= i < |table| ==> labels[i] == table[i].1
  {
    labels := [];
    for n := 0 to |table|
      invariant |labels| == n
      invariant forall i :: 0 <= i < n ==> labels[i] == table[i].1
    {
      labels := labels + [table[n].1];
    }
  }

  /** `all_rate`: the three rate labels in table order. */
  method AllRate() returns (rates: seq<string>)
    ensures |rates| == 3
    ensures forall i :: 0 <= i < 3 ==> rates[i] == RATE_CHOICES[i].1
    ensures forall i :: 0 <= i < 3 ==> RateOf(rates[i]) == i
  {
    rates := CollectLabels(RATE_CHOICES);
    forall i | 0 <= i < 3 ensures RateOf(rates[i]) == i {
      RateOfLabel(i, rates[i]);
    }
  }

  /** `all_type`: the seven type labels in table order. */
  method AllType() returns (types: seq<string>)
    ensures |types| == 7
    ensures forall i :: 0 <= i < 7 ==> types[i] == TYPE_CHOICES[i].1
    ensures forall i :: 0 <= i < 7 ==> TypeOf(types[i]) == i
  {
    types := CollectLabels(TYPE_CHOICES);
    forall i | 0 <= i < 7 ensures TypeOf(types[i]) == i {
      TypeOfLabel(i, types[i]);
    }
  }
}
