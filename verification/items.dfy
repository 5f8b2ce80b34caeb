/**
 The `{id, value}` records the picker keeps, the id-uniqueness invariant
 the pool relies on, and the synthetic dataset used when the bundled list
 cannot be fetched.
 */
module Items {

  /** One entry of the pool: a numeric id (1-based within a load) and the
      label shown to the user. Identity is by id; labels may repeat. */
  datatype Item = Item(id: nat, value: string)

  /** No two positions of `s` carry the same id. */
  predicate DistinctIds(s: seq<Item>) {
    forall i, j :: 0 <= i < j < |s| ==> s[i].id != s[j].id
  }

  /** Ids 1, 2, ..., |s| in position order. */
  predicate NumberedFromOne(s: seq<Item>) {
    forall k :: 0 <= k < |s| ==> s[k].id == k + 1
  }

  lemma NumberedFromOneDistinct(s: seq<Item>)
    requires NumberedFromOne(s)
    ensures DistinctIds(s)
  {
  }

  /** Value of a decimal digit character. */
  function DigitValue(c: char): nat
    requires '0' <= c <= '9'
  {
    c as nat - '0' as nat
  }

  /** The digit character for `d`. */
  function DigitChar(d: nat): (c: char)
    requires d < 10
    ensures '0' <= c <= '9' && DigitValue(c) == d
  {
    ('0' as nat + d) as char
  }

  predicate AllDigits(s: string) {
    forall i :: 0 <= i < |s| ==> '0' <= s[i] <= '9'
  }

  /** The decimal text of `n`, as a JavaScript template literal renders a
      non-negative integer: no sign, no leading zeros, at least one digit. */
  function DecimalString(n: nat): (s: string)
    ensures |s| >= 1 && AllDigits(s)
    ensures |s| > 1 ==> s[0] != '0'
  {
    if n < 10 then [DigitChar(n)] else DecimalString(n / 10) + [DigitChar(n % 10)]
  }

  /** Reads a run of decimal digits back as a number. */
  function DecimalValue(s: string): nat
    requires AllDigits(s)
  {
    if |s| == 0 then 0 else DecimalValue(s[..|s| - 1]) * 10 + DigitValue(s[|s| - 1])
  }

  /** Rendering a number in decimal loses nothing. */
  lemma {:induction false} DecimalRoundTrip(n: nat)
    ensures DecimalValue(DecimalString(n)) == n
  {
    if n >= 10 {
      var s := DecimalString(n);
      assert s[..|s| - 1] == DecimalString(n / 10);
      DecimalRoundTrip(n / 10);
    }
  }

  /** The placeholder prefix "항목 " ("item "). */
  const PlaceholderPrefix: string := "\U{D56D}\U{BAA9} "

  /** Label of the synthetic item with the given id: the prefix followed by
      the decimal digits of the id, which read back as the id. */
  function PlaceholderLabel(id: nat): (text: string)
    ensures |text| > |PlaceholderPrefix| && text[..|PlaceholderPrefix|] == PlaceholderPrefix
    ensures var digits := text[|PlaceholderPrefix|..];
      AllDigits(digits) && DecimalValue(digits) == id
    ensures var digits := text[|PlaceholderPrefix|..];
      |digits| > 1 ==> digits[0] != '0'
  {
    DecimalRoundTrip(id);
    var text := PlaceholderPrefix + DecimalString(id);
    assert text[|PlaceholderPrefix|..] == DecimalString(id);
    text
  }

  /** Different ids get different placeholder labels. */
  lemma PlaceholderLabelInjective(a: nat, b: nat)
    requires PlaceholderLabel(a) == PlaceholderLabel(b)
    ensures a == b
  {
    var n := |PlaceholderPrefix|;
    assert PlaceholderLabel(a)[n..] == PlaceholderLabel(b)[n..];
  }

  /** Size of the synthetic dataset. */
  const SyntheticCount: nat := 150

  /** `generateInitialData`: items 1..150 labelled "항목 1" .. "항목 150". */
  function GenerateInitialData(): (r: seq<Item>)
    ensures |r| == SyntheticCount
    ensures NumberedFromOne(r)
    ensures forall k :: 0 <= k < |r| ==> r[k].value == PlaceholderLabel(k + 1)
  {
    seq(SyntheticCount, i requires 0 <= i < SyntheticCount => Item(i + 1, PlaceholderLabel(i + 1)))
  }

  /** The synthetic items have distinct ids and pairwise distinct labels. */
  lemma GeneratedItemsDistinct()
    ensures DistinctIds(GenerateInitialData())
    ensures forall i, j :: 0 <= i < j < SyntheticCount ==>
              GenerateInitialData()[i].value != GenerateInitialData()[j].value
  {
    var r := GenerateInitialData();
    forall i, j | 0 <= i < j < SyntheticCount
      ensures r[i].value != r[j].value
    {
      var n := |PlaceholderPrefix|;
      assert DecimalValue(r[i].value[n..]) != DecimalValue(r[j].value[n..]);
    }
  }
}
