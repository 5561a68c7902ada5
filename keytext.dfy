/**
 * The text `fmt.Sprintf("%v", key)` gives for a record's `Key` field, as the bytes that
 * `[]byte(...)` hands to the base64 encoder. Two kinds of key are modelled: a string, whose
 * `%v` text is the string itself (a Go string is already a byte sequence), and a signed
 * integer, whose `%v` text is its decimal numeral with a leading '-' when negative.
 */
module KeyText {
  import opened Base64

  datatype KeyValue = StrKey(bytes: seq<byte>) | IntKey(n: int)

  const Minus: byte := 45  // '-'
  const Zero: byte := 48   // '0'

  predicate IsDigit(b: byte) {
    Zero <= b < Zero + 10
  }

  /** Decimal numeral of a natural number, most significant digit first, no leading zeros. */
  function Digits(n: nat): (d: seq<byte>)
    ensures |d| >= 1
    ensures forall i :: 0 <= i < |d| ==> IsDigit(d[i])
    ensures |d| > 1 ==> d[0] != Zero
  {
    if n < 10 then [Zero + n] else Digits(n / 10) + [Zero + n % 10]
  }

  /** `%v` of the key. */
  function Format(k: KeyValue): (t: seq<byte>)
    ensures k.StrKey? ==> t == k.bytes
    ensures k.IntKey? ==> |t| >= 1 && (t[0] == Minus <==> k.n < 0)
  {
    match k
    case StrKey(s) => s
    case IntKey(n) => if n < 0 then [Minus] + Digits(-n) else Digits(n)
  }

  /** Reading back a decimal numeral. */
  function ParseDigits(d: seq<byte>): (n: nat)
    requires |d| >= 1 && forall i :: 0 <= i < |d| ==> IsDigit(d[i])
    decreases |d|
  {
    var last := d[|d| - 1];
    assert IsDigit(last);
    if |d| == 1 then last as int - Zero as int
    else ParseDigits(d[..|d| - 1]) * 10 + (last as int - Zero as int)
  }

  /** Reading back the text of an integer key. */
  function ParseInt(t: seq<byte>): (n: int)
    requires |t| >= 1
    requires t[0] == Minus ==> |t| >= 2 && forall i :: 1 <= i < |t| ==> IsDigit(t[i])
    requires t[0] != Minus ==> forall i :: 0 <= i < |t| ==> IsDigit(t[i])
  {
    if t[0] == Minus then -(ParseDigits(t[1..]) as int) else ParseDigits(t)
  }

  lemma {:induction false} ParseDigitsOfDigits(n: nat)
    ensures ParseDigits(Digits(n)) == n
  {
    if n >= 10 {
      var d := Digits(n);
      assert d[..|d| - 1] == Digits(n / 10);
      ParseDigitsOfDigits(n / 10);
    }
  }

  /** The text of an integer key is never empty and reads back as the same integer. */
  lemma IntKeyRoundTrip(n: int)
    ensures var t := Format(IntKey(n));
      |t| >= 1
      && (t[0] == Minus ==> |t| >= 2 && forall i :: 1 <= i < |t| ==> IsDigit(t[i]))
      && (t[0] != Minus ==> forall i :: 0 <= i < |t| ==> IsDigit(t[i]))
      && ParseInt(t) == n
  {
    if n < 0 {
      var t := Format(IntKey(n));
      assert t[1..] == Digits(-n);
      ParseDigitsOfDigits(-n);
    } else {
      ParseDigitsOfDigits(n);
    }
  }

  /** Distinct integer keys have distinct texts, hence distinct cursors. */
  lemma IntKeyTextInjective(m: int, n: int)
    requires m != n
    ensures Format(IntKey(m)) != Format(IntKey(n))
  {
    IntKeyRoundTrip(m);
    IntKeyRoundTrip(n);
  }
}
