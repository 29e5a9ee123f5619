/**
  The base-62 code derivation of the URL shortener service.

  `Encode` is the service's `encodeBase62`: 0 becomes the first alphabet
  symbol, a positive number becomes its base-62 digits most significant first,
  and a negative number (the Java loop never runs) becomes the empty string.
  `Decode` is a reference reading of a code as a base-62 numeral; it exists
  to state what `Encode` computes.
*/
module Base62 {

  const DecimalDigits: string := "0123456789"
  const LowerLetters: string := "abcdefghijklmnopqrstuvwxyz"
  const UpperLetters: string := "ABCDEFGHIJKLMNOPQRSTUVWXYZ"

  /** The service's BASE62_CHARS: digit d is written as Alphabet[d]. */
  const Alphabet: string := DecimalDigits + LowerLetters + UpperLetters

  /** The symbols 0-9, a-z and A-Z, described by character ranges. */
  predicate IsBase62Digit(c: char) {
    '0' <= c <= '9' || 'a' <= c <= 'z' || 'A' <= c <= 'Z'
  }

  /** The digit value of a symbol: 0-9, then 10-35, then 36-61. */
  function DigitValue(c: char): (d: nat)
    requires IsBase62Digit(c)
    ensures d < 62
  {
    if '0' <= c <= '9' then c as int - '0' as int
    else if 'a' <= c <= 'z' then c as int - 'a' as int + 10
    else c as int - 'A' as int + 36
  }

  predicate AllDigits(s: string) {
    forall i :: 0 <= i < |s| ==> IsBase62Digit(s[i])
  }

  function Pow62(k: nat): (p: nat)
    ensures p >= 1
  {
    if k == 0 then 1 else 62 * Pow62(k - 1)
  }

  /** The symbol of digit value d, by arithmetic on the three character ranges. */
  function RangeSymbol(d: nat): char
    requires d < 62
  {
    if d < 10 then ('0' as int + d) as char
    else if d < 36 then ('a' as int + d - 10) as char
    else ('A' as int + d - 36) as char
  }

  lemma AlphabetIsRanges(d: nat)
    requires d < 62
    ensures |Alphabet| == 62 && Alphabet[d] == RangeSymbol(d)
  {
    if d < 10 {
      assert Alphabet[d] == DecimalDigits[d];
    } else if d < 36 {
      assert Alphabet[d] == LowerLetters[d - 10];
    } else {
      assert Alphabet[d] == UpperLetters[d - 36];
    }
  }

  /** The alphabet string lists exactly the range symbols, in digit-value order. */
  lemma AlphabetAt(d: nat)
    requires d < 62
    ensures |Alphabet| == 62
    ensures IsBase62Digit(Alphabet[d]) && DigitValue(Alphabet[d]) == d
  {
    AlphabetIsRanges(d);
  }

  /** Every range symbol sits in the alphabet at the index of its digit value. */
  lemma AlphabetIndexOf(c: char)
    requires IsBase62Digit(c)
    ensures Alphabet[DigitValue(c)] == c
  {
    AlphabetIsRanges(DigitValue(c));
  }

  /** Reads a code as a base-62 numeral, most significant symbol first. */
  function Decode(s: string): (n: nat)
    requires AllDigits(s)
    ensures n < Pow62(|s|)
  {
    if |s| == 0 then 0
    else
      var prefix := s[..|s| - 1];
      PrefixAllDigits(s);
      var high := Decode(prefix);
      assert high * 62 <= (Pow62(|prefix|) - 1) * 62;
      high * 62 + DigitValue(s[|s| - 1])
  }

  /** The digits of a positive n, most significant first; empty when n <= 0. */
  function Digits(n: int): (r: string)
    ensures AllDigits(r)
    ensures |r| > 0 <==> n > 0
    ensures n > 0 ==> r[0] != '0'
    decreases if n > 0 then n else 0
  {
    if n <= 0 then []
    else
      AlphabetAt(n % 62);
      AlphabetAt(0);
      Digits(n / 62) + [Alphabet[n % 62]]
  }

  /** Decoding the digits of n gives back n. */
  lemma {:induction false} DecodeDigits(n: int)
    ensures Decode(Digits(n)) == if n > 0 then n else 0
    decreases if n > 0 then n else 0
  {
    if n > 0 {
      var high := Digits(n / 62);
      var s := Digits(n);
      AlphabetAt(n % 62);
      assert s == high + [Alphabet[n % 62]];
      assert s[..|s| - 1] == high;
      DecodeDigits(n / 62);
      assert Decode(s) == (n / 62) * 62 + n % 62;
    }
  }

  /** Bounds on n / 62 scale to bounds on n. */
  lemma ScaleBounds(n: int, lo: int, hi: int)
    requires n >= 0 && lo <= n / 62 < hi
    ensures 62 * lo <= n < 62 * hi
  {
  }

  /** A positive n has exactly as many digits as its base-62 magnitude. */
  lemma {:induction false} DigitsLength(n: int)
    ensures n > 0 ==> Pow62(|Digits(n)| - 1) <= n < Pow62(|Digits(n)|)
    decreases if n > 0 then n else 0
  {
    if n > 0 {
      var q := n / 62;
      DigitsUnfold(n);
      var k := |Digits(q)|;
      assert |Digits(n)| == k + 1;
      if q > 0 {
        DigitsLength(q);
        ScaleBounds(n, Pow62(k - 1), Pow62(k));
      } else {
        assert k == 0;
      }
    }
  }

  /** The service's encodeBase62, for any Java long value. */
  function Encode(n: int): (r: string)
    ensures AllDigits(r)
    ensures |r| > 0 <==> n >= 0
    ensures n >= 0 ==> Decode(r) == n
    ensures r == "0" <==> n == 0
    ensures n > 0 ==> r[0] != '0' && Pow62(|r| - 1) <= n < Pow62(|r|)
    ensures 0 <= n < 62 ==> |r| == 1
  {
    AlphabetAt(0);
    DecodeDigits(n);
    DigitsLength(n);
    if n == 0 then [Alphabet[0]] else Digits(n)
  }

  /** Distinct non-negative ids never share a derived code. */
  lemma EncodeInjective(a: nat, b: nat)
    ensures Encode(a) == Encode(b) ==> a == b
  {
    if Encode(a) == Encode(b) {
      assert Decode(Encode(a)) == a;
    }
  }

  /** A canonical numeral: non-empty, alphabet symbols only, no leading '0' unless it is "0". */
  predicate IsCanonical(s: string) {
    |s| > 0 && AllDigits(s) && (|s| > 1 ==> s[0] != '0')
  }

  lemma PrefixAllDigits(s: string)
    requires |s| > 0 && AllDigits(s)
    ensures AllDigits(s[..|s| - 1])
  {
    var prefix := s[..|s| - 1];
    forall i | 0 <= i < |prefix| ensures IsBase62Digit(prefix[i]) {
      assert prefix[i] == s[i];
    }
  }

  /** Decode of a non-empty numeral: the prefix's value shifted by one digit, plus the last digit. */
  lemma DecodeLast(s: string)
    requires |s| > 0 && AllDigits(s)
    ensures AllDigits(s[..|s| - 1])
    ensures Decode(s) == Decode(s[..|s| - 1]) * 62 + DigitValue(s[|s| - 1])
  {
    PrefixAllDigits(s);
  }

  /** One step of the digit recursion: the last digit of a positive n is n % 62. */
  lemma DigitsUnfold(n: int)
    requires n > 0
    ensures Digits(n) == Digits(n / 62) + [Alphabet[n % 62]]
  {
  }

  /** Appending digit d to the digits of high gives the digits of high * 62 + d. */
  lemma DigitsAppend(high: nat, d: nat)
    requires d < 62 && (high > 0 || d > 0)
    ensures Digits(high * 62 + d) == Digits(high) + [Alphabet[d]]
  {
    var n := high * 62 + d;
    assert n / 62 == high && n % 62 == d;
    assert n > 0;
  }

  /** A non-empty numeral without a leading '0' is the digit string of its (positive) value. */
  lemma {:induction false} DigitsOfDecode(s: string)
    requires |s| > 0 && AllDigits(s) && s[0] != '0'
    ensures Decode(s) > 0 && Digits(Decode(s)) == s
    decreases |s|, 1
  {
    DecodeLast(s);
    var high := Decode(s[..|s| - 1]);
    var d := DigitValue(s[|s| - 1]);
    PrefixOfDecode(s);
    DigitsOfDecodeStep(s, Decode(s), high, d);
  }

  /** The prefix of such a numeral is the digit string of its value, and the numeral is not all zero. */
  lemma {:induction false} PrefixOfDecode(s: string)
    requires |s| > 0 && AllDigits(s) && s[0] != '0'
    ensures AllDigits(s[..|s| - 1])
    ensures Digits(Decode(s[..|s| - 1])) == s[..|s| - 1]
    ensures Alphabet[DigitValue(s[|s| - 1])] == s[|s| - 1]
    ensures Decode(s[..|s| - 1]) > 0 || DigitValue(s[|s| - 1]) > 0
    decreases |s|, 0
  {
    var prefix := s[..|s| - 1];
    var c := s[|s| - 1];
    PrefixAllDigits(s);
    AlphabetIndexOf(c);
    if |prefix| == 0 {
      AlphabetAt(0);
    } else {
      assert prefix[0] == s[0];
      DigitsOfDecode(prefix);
    }
  }

  /** The induction step: if the prefix is the digits of high and the last symbol is digit d, the whole string is the digits of n = high * 62 + d. */
  lemma DigitsOfDecodeStep(s: string, n: int, high: nat, d: nat)
    requires |s| > 0 && d < 62 && (high > 0 || d > 0) && n == high * 62 + d
    requires Alphabet[d] == s[|s| - 1] && Digits(high) == s[..|s| - 1]
    ensures n > 0 && Digits(n) == s
  {
    SplitLast(s);
    DigitsAppend(high, d);
  }

  /** A non-empty string is its prefix followed by its last symbol. */
  lemma SplitLast(s: string)
    requires |s| > 0
    ensures s == s[..|s| - 1] + [s[|s| - 1]]
  {
  }

  /** Every canonical numeral is the code of exactly the number it denotes. */
  lemma EncodeDecode(s: string)
    requires IsCanonical(s)
    ensures Encode(Decode(s)) == s
  {
    if s[0] == '0' {
      AlphabetAt(0);
      assert s == "0";
    } else {
      DigitsOfDecode(s);
    }
  }

  /** Java's StringBuilder.reverse on a sequence of characters. */
  function Reverse(s: string): (r: string)
    ensures |r| == |s|
    ensures forall i :: 0 <= i < |s| ==> r[i] == s[|s| - 1 - i]
  {
    if |s| == 0 then [] else [s[|s| - 1]] + Reverse(s[..|s| - 1])
  }

  /** Appending to the buffer puts the new symbol at the front of its reversal. */
  lemma ReverseAppend(sb: string, c: char)
    ensures Reverse(sb + [c]) == [c] + Reverse(sb)
  {
    assert (sb + [c])[..|sb|] == sb;
  }

  /** One turn of the encodeBase62 loop keeps the digits of number split between num and the buffer. */
  lemma LoopStep(number: int, num: int, sb: string)
    requires num > 0 && Digits(number) == Digits(num) + Reverse(sb)
    ensures Digits(number) == Digits(num / 62) + Reverse(sb + [Alphabet[num % 62]])
  {
    var c := Alphabet[num % 62];
    var high := Digits(num / 62);
    DigitsUnfold(num);
    ReverseAppend(sb, c);
    AppendAssoc(high, [c], Reverse(sb));
  }

  lemma AppendAssoc(a: string, b: string, c: string)
    ensures a + (b + c) == (a + b) + c
  {
  }

  /**
    encodeBase62 as the service writes it: append the least significant
    symbol while the number is positive, then reverse the buffer.
  */
  method EncodeBase62(number: int) returns (code: string)
    ensures code == Encode(number)
  {
    if number == 0 {
      return [Alphabet[0]];
    }
    var sb: string := [];
    var num := number;
    while num > 0
      invariant Digits(number) == Digits(num) + Reverse(sb)
      decreases num
    {
      var remainder := num % 62;
      LoopStep(number, num, sb);
      sb := sb + [Alphabet[remainder]];
      num := num / 62;
    }
    code := Reverse(sb);
  }
}
