/**
 Bytes on the wire and the few text operations the SCP source needs:
 single-byte search (Java's String.indexOf and lastIndexOf on a char) and
 the decimal rendering of a file size (Java's long-to-string).

 Text is modelled as its ASCII byte sequence, so a Java String and the
 bytes String.getBytes() produces for it are the same value here.
 */
module Bytes {

  newtype byte = x: int | 0 <= x < 256

  const NUL: byte := 0
  const NEWLINE: byte := 10   // '\n'
  const SPACE: byte := 32     // ' '
  const SLASH: byte := 47     // '/'
  const DIGIT_ZERO: byte := 48  // '0'
  const COLON: byte := 58     // ':'
  const AT: byte := 64        // '@'
  const UPPER_C: byte := 67   // 'C'

  predicate IsDigit(b: byte) {
    DIGIT_ZERO <= b < DIGIT_ZERO + 10
  }

  predicate IsOctalDigit(b: byte) {
    DIGIT_ZERO <= b < DIGIT_ZERO + 8
  }

  predicate AllDigits(s: seq<byte>) {
    forall i | 0 <= i < |s| :: IsDigit(s[i])
  }

  /** The index of the first occurrence of x in s, or -1 when there is none. */
  function IndexOf(s: seq<byte>, x: byte): (r: int)
    ensures -1 <= r < |s|
    ensures r == -1 <==> x !in s
    ensures 0 <= r ==> s[r] == x && x !in s[..r]
  {
    if s == [] then -1
    else if s[0] == x then 0
    else
      var k := IndexOf(s[1..], x);
      if k < 0 then -1 else k + 1
  }

  /** The index of the last occurrence of x in s, or -1 when there is none. */
  function LastIndexOf(s: seq<byte>, x: byte): (r: int)
    ensures -1 <= r < |s|
    ensures r == -1 <==> x !in s
    ensures 0 <= r ==> s[r] == x && x !in s[r + 1..]
  {
    if s == [] then -1
    else if s[|s| - 1] == x then |s| - 1
    else LastIndexOf(s[..|s| - 1], x)
  }

  /** The first occurrence of x in a + [x] + b is the one after a, when a holds none. */
  lemma IndexOfAfter(a: seq<byte>, x: byte, b: seq<byte>)
    requires x !in a
    ensures IndexOf(a + [x] + b, x) == |a|
  {
    var s := a + [x] + b;
    var r := IndexOf(s, x);
    assert s[..|a|] == a;
    assert s[|a|] == x;
  }

  /** The parts of a + [x] + b on either side of x are a and b. */
  lemma AroundSplit(a: seq<byte>, x: byte, b: seq<byte>)
    ensures (a + [x] + b)[..|a|] == a && (a + [x] + b)[|a| + 1..] == b
  {
  }

  /** Cutting s around index k and gluing the pieces back gives s. */
  lemma SplitAround(s: seq<byte>, k: nat)
    requires k < |s|
    ensures s[..k] + [s[k]] + s[k + 1..] == s
  {
  }

  /** The decimal digits of n, most significant first, as Java prints a non-negative long. */
  function Decimal(n: nat): (r: seq<byte>)
    ensures r != [] && AllDigits(r)
    ensures |r| > 1 ==> r[0] != DIGIT_ZERO
    decreases n
  {
    if n < 10 then [DIGIT_ZERO + n as byte]
    else Decimal(n / 10) + [DIGIT_ZERO + (n % 10) as byte]
  }

  /** The number a string of decimal digits denotes, read most significant first. */
  function ParseDecimal(s: seq<byte>): (n: nat)
    requires AllDigits(s)
  {
    if s == [] then 0
    else ParseDecimal(s[..|s| - 1]) * 10 + (s[|s| - 1] - DIGIT_ZERO) as nat
  }

  /** Reading back the digits Decimal writes gives the number again. */
  lemma {:induction false} ParseDecimalOfDecimal(n: nat)
    ensures ParseDecimal(Decimal(n)) == n
    decreases n
  {
    if n >= 10 {
      var prefix := Decimal(n / 10);
      var s := prefix + [DIGIT_ZERO + (n % 10) as byte];
      assert s[..|s| - 1] == prefix;
      ParseDecimalOfDecimal(n / 10);
    }
  }

  /** A digit string without a superfluous leading zero is exactly what Decimal writes for its value. */
  lemma {:induction false} DecimalOfParseDecimal(s: seq<byte>)
    requires s != [] && AllDigits(s)
    requires |s| > 1 ==> s[0] != DIGIT_ZERO
    ensures Decimal(ParseDecimal(s)) == s
    decreases |s|
  {
    var init := s[..|s| - 1];
    var d := s[|s| - 1] - DIGIT_ZERO;
    if |s| == 1 {
      assert ParseDecimal(init) == 0;
    } else {
      DecimalOfParseDecimal(init);
      ParseDecimalPositive(init);
      var n := ParseDecimal(s);
      assert n == ParseDecimal(init) * 10 + d as nat;
      assert n / 10 == ParseDecimal(init) && n % 10 == d as nat;
      assert s == init + [s[|s| - 1]];
    }
  }

  /** A digit string that starts with a non-zero digit denotes a positive number. */
  lemma {:induction false} ParseDecimalPositive(s: seq<byte>)
    requires s != [] && AllDigits(s) && s[0] != DIGIT_ZERO
    ensures ParseDecimal(s) > 0
    decreases |s|
  {
    if |s| > 1 {
      ParseDecimalPositive(s[..|s| - 1]);
    }
  }
}
