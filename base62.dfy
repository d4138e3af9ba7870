/**
  The short-token codec of app.py: `toBase62` writes a record id as a
  positional numeral over the 62 symbols 0-9, a-z, A-Z (most significant
  symbol first) and `toBase10` reads such a numeral back.

  `Numeral` and `ValueOf` are the specifications; the methods `ToBase62` and
  `ToBase10` are the source's loops, proved against them.
*/
module Base62 {
  import opened Wrappers

  /** `digits + ascii_lowercase + ascii_uppercase` */
  const Alphabet: string := "0123456789" + "abcdefghijklmnopqrstuvwxyz" + "ABCDEFGHIJKLMNOPQRSTUVWXYZ"

  /** The symbol for digit `d`, by character arithmetic. */
  function DigitChar(d: int): char
    requires 0 <= d < 62
  {
    if d < 10 then ('0' as int + d) as char
    else if d < 36 then ('a' as int + (d - 10)) as char
    else ('A' as int + (d - 36)) as char
  }

  /** The digit a symbol stands for, or -1 for a character outside the alphabet. */
  function DigitValue(c: char): int
  {
    if '0' <= c <= '9' then c as int - '0' as int
    else if 'a' <= c <= 'z' then c as int - 'a' as int + 10
    else if 'A' <= c <= 'Z' then c as int - 'A' as int + 36
    else -1
  }

  lemma AlphabetIsDigitChars()
    ensures |Alphabet| == 62
    ensures forall d :: 0 <= d < 62 ==> Alphabet[d] == DigitChar(d)
    ensures forall d :: 0 <= d < 62 ==> DigitValue(Alphabet[d]) == d
  {
    assert Alphabet == seq(62, d requires 0 <= d < 62 => DigitChar(d));
  }

  /** Python's `s.find(c)` for a one-character needle: the first index of `c`, or -1. */
  function Find(s: string, c: char): (r: int)
    ensures -1 <= r < |s|
    ensures r == -1 <==> c !in s
    ensures r >= 0 ==> s[r] == c && forall j :: 0 <= j < r ==> s[j] != c
  {
    if s == [] then -1
    else if s[0] == c then 0
    else
      var k := Find(s[1..], c);
      assert forall j :: 1 <= j < |s| ==> s[j] == s[1..][j - 1];
      if k == -1 then -1 else k + 1
  }

  /** Every symbol of the alphabet is the symbol of its own digit value. */
  lemma SymbolOfDigit(c: char)
    requires DigitValue(c) >= 0
    ensures DigitValue(c) < 62 && Alphabet[DigitValue(c)] == c
  {
    AlphabetIsDigitChars();
  }

  /** `base.find(c)` is the digit value of `c`, and -1 outside the alphabet. */
  lemma FindInAlphabet(c: char)
    ensures Find(Alphabet, c) == DigitValue(c)
  {
    AlphabetIsDigitChars();
    var r := Find(Alphabet, c);
    if r >= 0 {
      assert DigitValue(Alphabet[r]) == r;
    } else if DigitValue(c) >= 0 {
      SymbolOfDigit(c);
    }
  }

  /** `b` is a base toBase62 accepts and `n` one it terminates on. */
  predicate Encodable(n: nat, b: int)
  {
    1 <= b <= 62 && (b == 1 ==> n == 0)
  }

  /** The token toBase62(n, b) returns: n's base-b numeral, most significant digit first. */
  function Numeral(n: nat, b: int): (r: string)
    requires Encodable(n, b)
    ensures |r| >= 1
    ensures forall i :: 0 <= i < |r| ==> 0 <= DigitValue(r[i]) < b
    ensures r[0] == '0' <==> n == 0
    ensures |r| == 1 <==> n < b
    decreases n
  {
    AlphabetIsDigitChars();
    if n < b then [Alphabet[n]]
    else
      DivBounds(n, b);
      Numeral(n / b, b) + [Alphabet[n % b]]
  }

  /** The id toBase10(s, b) returns: the positional sum, each symbol worth its
      index in the alphabet, which is its digit value or -1 (`FindInAlphabet`).
      A token made only of alphabet symbols decodes to a non-negative id. */
  function ValueOf(s: string, b: int): (v: int)
    ensures b >= 0 && (forall i :: 0 <= i < |s| ==> DigitValue(s[i]) >= 0) ==> v >= 0
  {
    if s == [] then 0
    else
      var init := s[..|s| - 1];
      assert forall i :: 0 <= i < |init| ==> init[i] == s[i];
      var w := ValueOf(init, b);
      MulSign(b, w);
      b * w + DigitValue(s[|s| - 1])
  }

  /** A numeral toBase62 can produce: non-empty, digits below `b`, no leading zero. */
  predicate IsCanonical(s: string, b: int)
    requires 1 <= b <= 62
  {
    && |s| >= 1
    && (forall i :: 0 <= i < |s| ==> 0 <= DigitValue(s[i]) < b)
    && (s[0] == '0' ==> |s| == 1)
  }

  /** toBase62 (app.py:58-71), with the integer 0 of a rejected base as None. */
  method ToBase62(num: nat, b: int) returns (r: Option<string>)
    requires b == 1 ==> num == 0
    ensures r.None? <==> b <= 0 || b > 62
    ensures r.Some? ==> Encodable(num, b) && r.value == Numeral(num, b)
  {
    if b <= 0 || b > 62 {
      return None;
    }
    AlphabetIsDigitChars();
    var d := num % b;
    var res := [Alphabet[d]];
    var q := num / b;
    DivStep(num, b);
    assert Numeral(num, b) == Leading(q, b) + res;
    while q != 0
      invariant q >= 0 && (b == 1 ==> q == 0)
      invariant Numeral(num, b) == Leading(q, b) + res
      decreases q
    {
      LeadingStep(q, b);
      d := q % b;
      AppendAssoc(Leading(q / b, b), [Alphabet[d]], res);
      q := q / b;
      res := [Alphabet[d]] + res;
    }
    assert Leading(q, b) + res == res;
    return Some(res);
  }

  /** toBase10 (app.py:74-82): no check of the base or of the symbols. */
  method ToBase10(token: string, b: int) returns (res: int)
    ensures res == ValueOf(token, b)
    ensures token == [] ==> res == 0  // the empty token decodes to 0
  {
    res := 0;
    for i := 0 to |token|
      invariant res == ValueOf(token[..i], b)
    {
      assert token[..i + 1][..i] == token[..i];
      FindInAlphabet(token[i]);
      res := b * res + Find(Alphabet, token[i]);
    }
    assert token[..|token|] == token;
  }

  /** Every token issued for `n` decodes back to `n`. */
  lemma {:induction false} DecodeEncode(n: nat, b: int)
    requires Encodable(n, b)
    ensures ValueOf(Numeral(n, b), b) == n
  {
    DivStep(n, b);
    if n < b {
      DigitSnoc([], 0, n, b);
      assert Numeral(n, b) == [] + [Alphabet[n]];
    } else {
      var q, d := n / b, n % b;
      DecodeEncode(q, b);
      DigitSnoc(Numeral(q, b), q, d, b);
      DivModIdentity(n, b);
    }
  }

  /** Reading the symbol of digit `d` after a prefix worth `v` gives `b * v + d`. */
  lemma DigitSnoc(s: string, v: int, d: int, b: int)
    requires ValueOf(s, b) == v && 0 <= d < 62
    ensures ValueOf(s + [Alphabet[d]], b) == b * v + d
  {
    AlphabetIsDigitChars();
    ValueOfSnoc(s, Alphabet[d], b);
  }

  /** The digits still to be produced when the loop's quotient is `q`: none once `q` is 0. */
  ghost function Leading(q: nat, b: int): string
    requires Encodable(q, b)
  {
    if q == 0 then [] else Numeral(q, b)
  }

  /** One turn of the loop moves the lowest remaining digit of `q` to the token. */
  lemma LeadingStep(q: nat, b: int)
    requires Encodable(q, b) && q != 0
    ensures 0 <= q % b < b && 0 <= q / b < q
    ensures Leading(q, b) == Leading(q / b, b) + [Alphabet[q % b]]
  {
    DivStep(q, b);
    if q < b {
      assert Leading(q / b, b) == [];
    }
  }

  lemma AppendAssoc(x: string, y: string, z: string)
    ensures (x + y) + z == x + (y + z)
  {
  }

  /** One step of the division loop: the quotient and the last digit of `n`. */
  lemma DivStep(n: nat, b: int)
    requires Encodable(n, b)
    ensures 0 <= n % b < b
    ensures n < b ==> n / b == 0 && n % b == n && Numeral(n, b) == [Alphabet[n % b]]
    ensures n >= b ==> 1 <= n / b < n && Numeral(n, b) == Numeral(n / b, b) + [Alphabet[n % b]]
  {
    if n < b {
      DivSmall(n, b);
    } else {
      DivBounds(n, b);
    }
  }

  /** Different ids get different tokens. */
  lemma NumeralInjective(m: nat, n: nat, b: int)
    requires Encodable(m, b) && Encodable(n, b) && m != n
    ensures Numeral(m, b) != Numeral(n, b)
  {
    DecodeEncode(m, b);
    DecodeEncode(n, b);
  }

  /** Appending digit `d` to a positive numeral gives a value of two or more digits. */
  lemma AppendDigit(x: int, v: int, d: int, b: int)
    requires v >= 1 && 0 <= d < b && x == b * v + d
    ensures x >= b && x / b == v && x % b == d
  {
    MulBounds(b, v);
    var q, r := x / b, x % b;
    DivModIdentity(x, b);
    var k := q - v;
    assert b * k == d - r by {
      assert b * k == b * q - b * v;
    }
    MulBounds(b, k);
  }

  /** Decoding reads one more symbol as one more low-order digit. */
  lemma ValueOfSnoc(s: string, c: char, b: int)
    ensures ValueOf(s + [c], b) == b * ValueOf(s, b) + DigitValue(c)
  {
    assert (s + [c])[..|s|] == s;
  }

  /** A single symbol below `b` is the numeral of its digit value. */
  lemma SingleSymbol(c: char, b: int)
    requires 2 <= b <= 62 && 0 <= DigitValue(c) < b
    ensures ValueOf([c], b) == DigitValue(c)
    ensures Numeral(DigitValue(c), b) == [c]
  {
    assert ValueOf([c], b) == DigitValue(c) by {
      assert [c] == [] + [c];
      ValueOfSnoc([], c, b);
    }
    assert Numeral(DigitValue(c), b) == [c] by {
      SymbolOfDigit(c);
    }
  }

  /** Appending a symbol below `b` to the numeral of a positive value keeps it the numeral of its value. */
  lemma SymbolSnoc(init: string, c: char, b: int)
    requires 2 <= b <= 62 && 0 <= DigitValue(c) < b
    requires ValueOf(init, b) >= 1 && Numeral(ValueOf(init, b), b) == init
    ensures ValueOf(init + [c], b) >= 0
    ensures Numeral(ValueOf(init + [c], b), b) == init + [c]
  {
    var v, d := ValueOf(init, b), DigitValue(c);
    var x := ValueOf(init + [c], b);
    assert x >= b && x / b == v && x % b == d by {
      ValueOfSnoc(init, c, b);
      AppendDigit(x, v, d, b);
    }
    DivStep(x, b);
    SymbolOfDigit(c);
  }

  /** Every canonical numeral is the token of its own value: the codec is a bijection. */
  lemma {:induction false} EncodeDecode(s: string, b: int)
    requires 2 <= b <= 62 && IsCanonical(s, b)
    ensures ValueOf(s, b) >= 0
    ensures Numeral(ValueOf(s, b), b) == s
  {
    var init, last := s[..|s| - 1], s[|s| - 1];
    assert s == init + [last];
    if |s| == 1 {
      assert s == [last];
      SingleSymbol(last, b);
    } else {
      assert forall i :: 0 <= i < |init| ==> init[i] == s[i];
      EncodeDecode(init, b);
      assert ValueOf(init, b) != 0;
      SymbolSnoc(init, last, b);
    }
  }

  /** One leading '0' does not change the decoded value. */
  lemma {:induction false} LeadingZero(s: string, b: int)
    ensures ValueOf(['0'] + s, b) == ValueOf(s, b)
  {
    if s == [] {
      assert ValueOf(['0'] + s, b) == ValueOf(s, b) by {
        assert ['0'] + s == [] + ['0'];
        ValueOfSnoc([], '0', b);
      }
    } else {
      var init, c := s[..|s| - 1], s[|s| - 1];
      LeadingZero(init, b);
      assert ValueOf(['0'] + s, b) == ValueOf(s, b) by {
        assert s == init + [c];
        assert ['0'] + s == (['0'] + init) + [c];
        ValueOfSnoc(['0'] + init, c, b);
        ValueOfSnoc(init, c, b);
      }
    }
  }

  /** Any run of leading '0' symbols does not change the decoded value. */
  lemma {:induction false} LeadingZeros(z: string, s: string, b: int)
    requires forall i :: 0 <= i < |z| ==> z[i] == '0'
    ensures ValueOf(z + s, b) == ValueOf(s, b)
  {
    if z != [] {
      var rest := z[1..] + s;
      assert z + s == ['0'] + rest;
      LeadingZero(rest, b);
      LeadingZeros(z[1..], s, b);
    } else {
      assert z + s == s;
    }
  }

  /** `k` copies of the symbol '0'. */
  function Zeros(k: nat): string
  {
    seq(k, _ => '0')
  }

  /** A run of '0' symbols decodes to 0 in every base. */
  lemma ZerosDecodeToZero(k: nat, b: int)
    ensures ValueOf(Zeros(k), b) == 0
  {
    LeadingZeros(Zeros(k), [], b);
    assert Zeros(k) + [] == Zeros(k);
  }

  /** `b` to the power `k`. */
  function Power(b: int, k: nat): int
  {
    if k == 0 then 1 else b * Power(b, k - 1)
  }

  /** Appending `k` '0' symbols multiplies the decoded value by `b^k`. */
  lemma {:induction false} TrailingZeros(s: string, k: nat, b: int)
    ensures ValueOf(s + Zeros(k), b) == ValueOf(s, b) * Power(b, k)
  {
    if k == 0 {
      assert s + Zeros(0) == s;
    } else {
      var v, p := ValueOf(s, b), Power(b, k - 1);
      assert s + Zeros(k) == (s + Zeros(k - 1)) + ['0'];
      TrailingZeros(s, k - 1, b);
      ValueOfSnoc(s + Zeros(k - 1), '0', b);
      MulLeftCommute(b, v, p);
    }
  }

  /** A symbol outside the alphabet counts as digit -1: decoding does not fail. */
  lemma ForeignSymbol(s: string, c: char, b: int)
    requires c !in Alphabet
    ensures ValueOf(s + [c], b) == b * ValueOf(s, b) - 1
  {
    FindInAlphabet(c);
    assert (s + [c])[..|s|] == s;
  }

  /** "-" decodes to the negative id -1, and "a-" to 619, the id of the token "9Z". */
  lemma ForeignSymbolExamples()
    ensures ValueOf("-", 62) == -1
    ensures ValueOf("a-", 62) == ValueOf("9Z", 62) == 619
  {
    TwoSymbols('a', '-', 62);
    TwoSymbols('9', 'Z', 62);
    assert "a-" == ['a', '-'] && "9Z" == ['9', 'Z'];
    assert "-" == ['-'];
  }

  /** A two-symbol token is worth `b` times its first symbol plus its second. */
  lemma TwoSymbols(c1: char, c2: char, b: int)
    ensures ValueOf([c2], b) == DigitValue(c2)
    ensures ValueOf([c1, c2], b) == b * DigitValue(c1) + DigitValue(c2)
  {
    ValueOfSnoc([], c1, b);
    ValueOfSnoc([], c2, b);
    ValueOfSnoc([c1], c2, b);
    assert [c1, c2] == [c1] + [c2];
    assert [c1] == [] + [c1] && [c2] == [] + [c2];
  }

  // Integer arithmetic the solver needs spelled out.

  lemma DivModIdentity(n: int, b: int)
    requires b != 0
    ensures b * (n / b) + n % b == n
  {
  }

  lemma MulNonNeg(x: int, y: int)
    requires x >= 0 && y >= 0
    ensures x * y >= 0
  {
  }

  lemma MulSign(x: int, y: int)
    ensures x >= 0 && y >= 0 ==> x * y >= 0
  {
    if x >= 0 && y >= 0 {
      MulNonNeg(x, y);
    }
  }

  lemma MulLeftCommute(x: int, y: int, z: int)
    ensures x * (y * z) == y * (x * z)
  {
  }

  lemma MulBounds(b: int, q: int)
    requires b >= 1
    ensures q >= 1 ==> b * q >= b
    ensures q <= -1 ==> b * q <= -b
    ensures q >= 0 ==> b * q >= q
  {
    if q >= 1 {
      assert b * q == b * (q - 1) + b;
      MulNonNeg(b, q - 1);
      assert b * q == (b - 1) * q + q;
      MulNonNeg(b - 1, q);
    } else if q <= -1 {
      assert b * q == -(b * (-q - 1)) - b;
      MulNonNeg(b, -q - 1);
    }
  }

  lemma DivBounds(n: int, b: int)
    requires 2 <= b <= n
    ensures 1 <= n / b < n
    ensures 0 <= n % b < b
  {
    DivModIdentity(n, b);
    MulBounds(b, n / b);
    MulBounds(b - 1, n / b);
    assert b * (n / b) == (b - 1) * (n / b) + n / b;
  }

  lemma DivSmall(n: int, b: int)
    requires 0 <= n < b
    ensures n / b == 0 && n % b == n
  {
    DivModIdentity(n, b);
    MulBounds(b, n / b);
  }
}
