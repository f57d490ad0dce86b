/**
 Records shared by the recommendation core: questionnaire answers (the
 request schema of db_control/schemas.py) and rows of the `product_metrics`
 table (db_control/models.py), plus Python's rendering of an integer.
 */
module Schemas {

  import opened Wrappers

  /** An answer value as the request schema admits it: `Union[int, bool, str]`. */
  datatype Value = IntValue(i: int) | BoolValue(b: bool) | StrValue(s: string)

  /** One questionnaire answer. */
  datatype Answer = Answer(questionId: int, value: Value)

  /** The three kinds of question, the `AnswerType` enum. */
  datatype AnswerType = Numeric | Boolean | Categorical

  /** One row of `product_metrics`: a product's level on one evaluation axis. */
  datatype MetricRow = MetricRow(productId: int, metricId: int, level: real)

  /**
   The integer a value compares equal to under Python's `==`: an int is itself,
   `False`/`True` are 0/1 (bool is a subclass of int), and no string equals an int.
   */
  function AsInt(v: Value): (n: Option<int>)
    ensures v.StrValue? <==> n.None?
    ensures v.IntValue? ==> n == Some(v.i)
    ensures v.BoolValue? ==> n == Some(if v.b then 1 else 0)
  {
    match v
    case IntValue(i) => Some(i)
    case BoolValue(b) => Some(if b then 1 else 0)
    case StrValue(_) => None
  }

  /** Python's `v == n` for an answer value and an integer literal. */
  predicate PyEquals(v: Value, n: int) {
    AsInt(v) == Some(n)
  }

  function DigitChar(d: int): char
    requires 0 <= d < 10
  {
    "0123456789"[d]
  }

  /** The value of a decimal digit character. */
  function DigitValue(c: char): int
    requires '0' <= c <= '9'
  {
    c as int - '0' as int
  }

  /** Reads a string of decimal digits, most significant first (Python's `int(s)`). */
  function ParseNat(s: string): nat
    requires forall i :: 0 <= i < |s| ==> '0' <= s[i] <= '9'
    decreases |s|
  {
    if |s| == 0 then 0
    else ParseNat(s[..|s| - 1]) * 10 + DigitValue(s[|s| - 1])
  }

  /** Reads an optionally '-'-signed decimal numeral. */
  function ParseInt(s: string): int
    requires |s| >= 1
    requires forall i :: (if s[0] == '-' then 1 else 0) <= i < |s| ==> '0' <= s[i] <= '9'
  {
    if s[0] == '-' then -(ParseNat(s[1..]) as int) else ParseNat(s)
  }

  /**
   The decimal digits of a natural number, most significant first, without
   leading zeros: reading them back gives the number.
   */
  function NatToString(n: nat): (s: string)
    ensures |s| >= 1
    ensures forall i :: 0 <= i < |s| ==> '0' <= s[i] <= '9'
    ensures ParseNat(s) == n
    ensures s[0] == '0' ==> s == "0"
    decreases n
  {
    if n < 10 then
      assert [DigitChar(n)][..0] == [];
      [DigitChar(n)]
    else
      var high := NatToString(n / 10);
      var s := high + [DigitChar(n % 10)];
      assert s[..|s| - 1] == high;
      s
  }

  /**
   Python's `str(n)` for an integer: a leading '-' exactly for negatives,
   then the digits of the magnitude; reading it back gives `n`.
   */
  function IntToString(n: int): (s: string)
    ensures |s| >= 1
    ensures s[0] == '-' <==> n < 0
    ensures forall i :: (if s[0] == '-' then 1 else 0) <= i < |s| ==> '0' <= s[i] <= '9'
    ensures ParseInt(s) == n
  {
    if n < 0 then
      var s := "-" + NatToString(-n);
      assert s[1..] == NatToString(-n);
      s
    else NatToString(n)
  }
}
