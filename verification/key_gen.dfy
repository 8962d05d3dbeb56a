/**
 Token key generation: `length` characters drawn from the ASCII letters and
 digits, followed by the decimal digits of the current Unix time in whole
 seconds. The random draws and the clock are parameters.
 */
module KeyGen {

  /** `n` consecutive characters starting at `first`. */
  function CharRange(first: char, n: nat): (s: string)
    requires first as int + n <= 0xD800
    ensures |s| == n
    ensures forall i :: 0 <= i < n ==> s[i] as int == first as int + i
  {
    seq(n, (i: int) requires 0 <= i < n => (first as int + i) as char)
  }

  /** The draw alphabet: "abc...zABC...Z" (the ASCII letters) followed by
      "0123456789" (the decimal digits). */
  const AsciiLetters: string := CharRange('a', 26) + CharRange('A', 26)
  const Digits: string := CharRange('0', 10)
  const Characters: string := AsciiLetters + Digits

  /** The key length used when no length is given. */
  const DefaultLength: nat := 32

  /** One draw of the secure random source: a position in `Characters`. */
  type CharIndex = i: int | 0 <= i < 62

  predicate IsDigit(c: char)
  {
    '0' <= c <= '9'
  }

  predicate IsAlnum(c: char)
  {
    'a' <= c <= 'z' || 'A' <= c <= 'Z' || IsDigit(c)
  }

  predicate AllDigits(s: string)
  {
    forall i :: 0 <= i < |s| ==> IsDigit(s[i])
  }

  /** The character at position `i` of the alphabet, computed from its range. */
  function AlphabetChar(i: CharIndex): char
  {
    if i < 26 then ('a' as int + i) as char
    else if i < 52 then ('A' as int + (i - 26)) as char
    else ('0' as int + (i - 52)) as char
  }

  /** The alphabet is exactly the letters and digits, each once. */
  lemma AlphabetShape()
    ensures |Characters| == 62
    ensures forall i: CharIndex :: Characters[i] == AlphabetChar(i)
    ensures forall i: CharIndex :: IsAlnum(Characters[i])
    ensures forall i: CharIndex, j: CharIndex :: Characters[i] == Characters[j] ==> i == j
  {
  }

  function DigitChar(d: int): (c: char)
    requires 0 <= d < 10
    ensures IsDigit(c)
  {
    ('0' as int + d) as char
  }

  function DigitValue(c: char): (d: nat)
    requires IsDigit(c)
    ensures d < 10 && DigitChar(d) == c
  {
    c as int - '0' as int
  }

  /** Decimal numeral of `n`, as Python's `str(n)` for a non-negative integer. */
  function Decimal(n: nat): (s: string)
    ensures |s| >= 1 && AllDigits(s)
    ensures |s| > 1 ==> s[0] != '0'
    ensures s[0] == '0' <==> n == 0
  {
    if n < 10 then [DigitChar(n)] else Decimal(n / 10) + [DigitChar(n % 10)]
  }

  /** The value of a string of decimal digits, as Python's `int(s)`. */
  function ParseDecimal(s: string): nat
    requires AllDigits(s)
  {
    if |s| == 0 then 0 else ParseDecimal(s[..|s| - 1]) * 10 + DigitValue(s[|s| - 1])
  }

  function Pow10(k: nat): (p: nat)
    ensures p >= 1
  {
    if k == 0 then 1 else 10 * Pow10(k - 1)
  }

  /** Parsing the numeral of `n` gives back `n`. */
  lemma {:induction false} DecimalRoundTrip(n: nat)
    ensures ParseDecimal(Decimal(n)) == n
  {
    var s := Decimal(n);
    if n >= 10 {
      DecimalRoundTrip(n / 10);
      assert s[..|s| - 1] == Decimal(n / 10);
    }
  }

  /** A numeral without a superfluous leading zero is the numeral of its value. */
  lemma {:induction false} CanonicalRoundTrip(s: string)
    requires |s| >= 1 && AllDigits(s)
    requires |s| > 1 ==> s[0] != '0'
    ensures Decimal(ParseDecimal(s)) == s
  {
    if |s| > 1 {
      var init := s[..|s| - 1];
      CanonicalRoundTrip(init);
      PositiveIfLeadingNonZero(init);
      var n := ParseDecimal(s);
      assert n / 10 == ParseDecimal(init) && n % 10 == DigitValue(s[|s| - 1]);
      assert s == init + [s[|s| - 1]];
    }
  }

  lemma {:induction false} PositiveIfLeadingNonZero(s: string)
    requires |s| >= 1 && AllDigits(s) && s[0] != '0'
    ensures ParseDecimal(s) >= 1
  {
    if |s| > 1 {
      PositiveIfLeadingNonZero(s[..|s| - 1]);
    }
  }

  /** The numeral of `n` has the number of digits of `n`: `n` lies in
      [10^(d-1), 10^d) for d digits (or is 0 with one digit). */
  lemma {:induction false} DecimalLength(n: nat)
    ensures n < Pow10(|Decimal(n)|)
    ensures n >= 10 ==> Pow10(|Decimal(n)| - 1) <= n
    ensures n < 10 <==> |Decimal(n)| == 1
  {
    if n >= 10 {
      DecimalLength(n / 10);
    }
  }

  /** The key of `generate_token_key(length)`: one alphabet character per
      draw, then the decimal timestamp. */
  function GenerateTokenKey(length: nat, pick: nat -> CharIndex, stamp: nat): (key: string)
    ensures |key| == length + |Decimal(stamp)|
    ensures forall i :: 0 <= i < |key| ==> IsAlnum(key[i])
    ensures AllDigits(key[length..])
  {
    AlphabetShape();
    seq(length, (i: int) requires 0 <= i => Characters[pick(i)]) + Decimal(stamp)
  }

  /** The draws and the timestamp can be read back from a key. */
  lemma KeyDecomposes(length: nat, pick: nat -> CharIndex, stamp: nat)
    ensures var key := GenerateTokenKey(length, pick, stamp);
      && (forall i :: 0 <= i < length ==> key[i] == AlphabetChar(pick(i)))
      && ParseDecimal(key[length..]) == stamp
  {
    AlphabetShape();
    var key := GenerateTokenKey(length, pick, stamp);
    assert key[length..] == Decimal(stamp);
    DecimalRoundTrip(stamp);
  }

  /** Two keys of the same length are equal only when they came from the same
      draws and the same second: regenerating a key in a later second always
      changes it. */
  lemma KeyInjective(length: nat, pick1: nat -> CharIndex, stamp1: nat, pick2: nat -> CharIndex, stamp2: nat)
    requires GenerateTokenKey(length, pick1, stamp1) == GenerateTokenKey(length, pick2, stamp2)
    ensures stamp1 == stamp2
    ensures forall i :: 0 <= i < length ==> pick1(i) == pick2(i)
  {
    AlphabetShape();
    KeyDecomposes(length, pick1, stamp1);
    KeyDecomposes(length, pick2, stamp2);
    var key := GenerateTokenKey(length, pick1, stamp1);
    forall i | 0 <= i < length
      ensures pick1(i) == pick2(i)
    {
      assert Characters[pick1(i)] == key[i] == Characters[pick2(i)];
    }
  }
}
