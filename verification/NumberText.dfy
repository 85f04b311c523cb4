/** The text of a formatted number, and what it means. */
module NumberText {
  import opened Machine

  /** The bits of the `type` argument of `number`. */
  datatype Flags = Flags(zeropad: bool, sign: bool, plus: bool, space: bool, left: bool, special: bool, small: bool)

  function DigitChar(d: nat, small: bool): char
    requires d < 36
  {
    if d < 10 then '0' + d as char else (if small then 'a' else 'A') + (d - 10) as char
  }

  predicate BaseOk(base: int) {
    2 <= base <= 36
  }

  function Max(a: int, b: int): int {
    if a > b then a else b
  }

  function Rep(c: char, n: int): (s: string)
    ensures |s| == Max(n, 0) && forall i :: 0 <= i < |s| ==> s[i] == c
  {
    if n <= 0 then [] else seq(n, i => c)
  }

  lemma MulMonotone(b: nat, p: nat, q: nat)
    ensures p <= q ==> b * p <= b * q
  {
    if p <= q {
      assert b * q == b * p + b * (q - p);
    }
  }

  lemma DivFacts(n: nat, base: nat)
    requires base >= 2
    ensures n == (n / base) * base + n % base && n % base < base
    ensures n >= base ==> 0 < n / base < n
    ensures n < base ==> n / base == 0 && n % base == n
  {
    var q := n / base;
    assert n == base * q + n % base;
    MulMonotone(base, 1, q);
    MulMonotone(q, 2, base);
  }

  /** The digits of n, most significant first, without leading zeros; "0" for 0. */
  function Digits(n: nat, base: nat, small: bool): (s: string)
    requires BaseOk(base)
    ensures |s| > 0
  {
    DivFacts(n, base);
    if n < base then [DigitChar(n, small)]
    else Digits(n / base, base, small) + [DigitChar(n % base, small)]
  }

  // The sign character, if any, and the magnitude printed; the sign bit of a 64-bit word is bit 63.
  function SignText(num: Word, f: Flags): string {
    if f.sign && num >= W64 / 2 then "-" else if f.plus then "+" else if f.space then " " else ""
  }

  function Magnitude(num: Word, f: Flags): Word {
    if f.sign && num >= W64 / 2 then W64 - num else num
  }

  function PrefixText(base: int, f: Flags): string {
    if !f.special then "" else if base == 8 then "0" else if base == 16 then (if f.small then "0x" else "0X") else ""
  }

  function Padding(num: Word, base: int, size: int, precision: int, f: Flags): int
    requires BaseOk(base)
  {
    size - |SignText(num, f)| - |PrefixText(base, f)| - Max(precision, |Digits(Magnitude(num, f), base, f.small)|)
  }

  function Body(num: Word, base: int, precision: int, f: Flags): string
    requires BaseOk(base)
  {
    var ds := Digits(Magnitude(num, f), base, f.small);
    Rep('0', precision - |ds|) + ds
  }

  /** What `number` emits. */
  function Formatted(num: Word, base: int, size: int, precision: int, f: Flags): string
    requires BaseOk(base)
  {
    var head := SignText(num, f) + PrefixText(base, f);
    var body := Body(num, base, precision, f);
    var pad := Padding(num, base, size, precision, f);
    if f.left then head + body + Rep(' ', pad)
    else if f.zeropad then head + Rep('0', pad) + body
    else Rep(' ', pad) + head + body
  }

  // ---- reading back ----

  /** The value of a digit character, in either case; 36 for any other character. */
  function DigitValue(c: char): nat {
    if '0' <= c <= '9' then c as nat - '0' as nat
    else if 'A' <= c <= 'Z' then c as nat - 'A' as nat + 10
    else if 'a' <= c <= 'z' then c as nat - 'a' as nat + 10
    else 36
  }

  function Value(s: string, base: nat): nat {
    if s == [] then 0 else Value(s[..|s| - 1], base) * base + DigitValue(s[|s| - 1])
  }

  ghost predicate AllDigits(s: string, base: nat) {
    forall i :: 0 <= i < |s| ==> DigitValue(s[i]) < base
  }

  lemma DigitReads(d: nat, small: bool)
    requires d < 36
    ensures DigitValue(DigitChar(d, small)) == d
  {
  }

  /** The digits are digits of the base and read back to the number. */
  lemma {:induction false} DigitsReadBack(n: nat, base: nat, small: bool)
    requires BaseOk(base)
    ensures Value(Digits(n, base, small), base) == n && AllDigits(Digits(n, base, small), base)
  {
    DivFacts(n, base);
    if n < base {
      DigitReads(n, small);
      assert [DigitChar(n, small)][..0] == [];
      assert Value([], base) == 0;
    } else {
      DigitReads(n % base, small);
      DigitsReadBack(n / base, base, small);
      ValueSnoc(Digits(n / base, base, small), DigitChar(n % base, small), base);
    }
  }

  lemma ValueSnoc(s: string, c: char, base: nat)
    ensures Value(s + [c], base) == Value(s, base) * base + DigitValue(c)
  {
    assert (s + [c])[..|s|] == s;
  }

  lemma {:induction false} NoLeadingZero(n: nat, base: nat, small: bool)
    requires BaseOk(base) && n > 0
    ensures DigitValue(Digits(n, base, small)[0]) > 0
  {
    if n < base {
      DigitReads(n, small);
    } else {
      DivFacts(n, base);
      NoLeadingZero(n / base, base, small);
    }
  }

  lemma {:induction false} ValueOfZeros(k: int, s: string, base: nat)
    ensures Value(Rep('0', k) + s, base) == Value(s, base)
    decreases Max(k, 0) + |s|
  {
    var t := Rep('0', k) + s;
    if s != [] {
      assert t[..|t| - 1] == Rep('0', k) + s[..|s| - 1];
      ValueOfZeros(k, s[..|s| - 1], base);
    } else if k > 0 {
      assert t[..|t| - 1] == Rep('0', k - 1) + [];
      ValueOfZeros(k - 1, [], base);
    } else {
      assert t == [];
    }
  }

  /** The text is as wide as asked, or as wide as sign, prefix, precision and digits need. */
  lemma TextWidth(num: Word, base: int, size: int, precision: int, f: Flags)
    requires BaseOk(base)
    ensures |Formatted(num, base, size, precision, f)| ==
            Max(size, |SignText(num, f)| + |PrefixText(base, f)|
                      + Max(precision, |Digits(Magnitude(num, f), base, f.small)|))
  {
  }

  // Zeros in front of digits that read back to a magnitude leave them so.
  lemma ZerosAndDigits(k: int, s: string, base: nat, value: nat)
    requires base > 0 && AllDigits(s, base) && Value(s, base) == value
    ensures AllDigits(Rep('0', k) + s, base) && Value(Rep('0', k) + s, base) == value
  {
    ValueOfZeros(k, s, base);
    forall i | 0 <= i < |Rep('0', k) + s| ensures DigitValue((Rep('0', k) + s)[i]) < base {
      if i >= Max(k, 0) {
        assert (Rep('0', k) + s)[i] == s[i - Max(k, 0)];
      }
    }
  }

  lemma BodyReadsBack(num: Word, base: int, precision: int, f: Flags)
    requires BaseOk(base)
    ensures var body := Body(num, base, precision, f);
            AllDigits(body, base) && |body| >= precision && |body| > 0 && Value(body, base) == Magnitude(num, f)
  {
    var digits := Digits(Magnitude(num, f), base, f.small);
    DigitsReadBack(Magnitude(num, f), base, f.small);
    ZerosAndDigits(precision - |digits|, digits, base, Magnitude(num, f));
  }

  lemma TextParts(num: Word, base: int, size: int, precision: int, f: Flags, l: nat, ds: string, r: nat)
    requires BaseOk(base)
    requires var pad, body := Max(0, Padding(num, base, size, precision, f)), Body(num, base, precision, f);
             && l == (if f.left || f.zeropad then 0 else pad) && r == (if f.left then pad else 0)
             && ds == if !f.left && f.zeropad then Rep('0', pad) + body else body
    ensures Formatted(num, base, size, precision, f) ==
            Rep(' ', l) + (SignText(num, f) + PrefixText(base, f)) + ds + Rep(' ', r)
  {
    var head, pad := SignText(num, f) + PrefixText(base, f), Padding(num, base, size, precision, f);
    assert Rep(' ', pad) == Rep(' ', Max(0, pad)) && Rep('0', pad) == Rep('0', Max(0, pad));
    Bare(head, ds, l);
    assert head + Rep('0', pad) + Body(num, base, precision, f)
           == head + (Rep('0', pad) + Body(num, base, precision, f));
  }

  lemma Bare(head: string, ds: string, l: nat)
    ensures Rep(' ', 0) + head == head && head + ds + Rep(' ', 0) == head + ds
    ensures Rep(' ', l) + head + ds + Rep(' ', 0) == Rep(' ', l) + head + ds
  {
  }

  // ---- how many digits ----

  function Pow(b: nat, e: nat): (p: nat)
    ensures b > 0 ==> p > 0
  {
    if e == 0 then 1 else b * Pow(b, e - 1)
  }

  lemma MulAssociative(a: nat, b: nat, c: nat)
    ensures a * (b * c) == (a * b) * c
  {
  }

  lemma {:induction false} PowAdd(b: nat, m: nat, n: nat)
    ensures Pow(b, m + n) == Pow(b, m) * Pow(b, n)
  {
    if m > 0 {
      PowAdd(b, m - 1, n);
      MulAssociative(b, Pow(b, m - 1), Pow(b, n));
    }
  }

  // The powers that bound a 64-bit word.
  lemma PowersOfTwo()
    ensures Pow(2, 64) == W64
  {
    assert Pow(2, 8) == 256;
    PowAdd(2, 8, 8);
    assert Pow(2, 16) == 0x1_0000;
    PowAdd(2, 16, 16);
    assert Pow(2, 32) == 0x1_0000_0000;
    PowAdd(2, 32, 32);
  }

  lemma PowersOfSixteen()
    ensures Pow(16, 16) == W64
  {
    PowAdd(16, 4, 4);
    PowAdd(16, 8, 8);
  }

  lemma PowersOfTen()
    ensures Pow(10, 20) > W64
  {
    PowAdd(10, 5, 5);
    PowAdd(10, 10, 10);
  }

  lemma DivBelow(n: nat, b: nat, p: nat)
    requires b > 0 && n < b * p
    ensures n / b < p
  {
    assert n == b * (n / b) + n % b;
    MulMonotone(b, p, n / b);
  }

  lemma {:induction false} DigitsFew(n: nat, base: nat, small: bool, k: nat)
    requires BaseOk(base) && k > 0 && n < Pow(base, k)
    ensures |Digits(n, base, small)| <= k
    decreases k
  {
    assert Pow(base, k) == base * Pow(base, k - 1);
    DivBelow(n, base, Pow(base, k - 1));
    if n >= base && k > 1 {
      DigitsFew(n / base, base, small, k - 1);
    }
  }

  lemma {:induction false} PowMonotone(a: nat, b: nat, k: nat)
    requires 0 < a <= b
    ensures Pow(a, k) <= Pow(b, k)
  {
    if k > 0 {
      PowMonotone(a, b, k - 1);
      MulMonotone(a, Pow(a, k - 1), Pow(b, k - 1));
      MulMonotone(Pow(b, k - 1), a, b);
    }
  }

  /** A 64-bit number has at most 64 digits in any base, and at most 20 in base ten. */
  lemma ScratchSuffices(n: Word, base: nat, small: bool)
    requires BaseOk(base)
    ensures |Digits(n, base, small)| <= 64
    ensures base == 10 ==> |Digits(n, base, small)| <= 20
  {
    PowersOfTwo();
    PowMonotone(2, base, 64);
    DigitsFew(n, base, small, 64);
    if base == 10 {
      PowersOfTen();
      DigitsFew(n, 10, small, 20);
    }
  }

  // ---- the fixed-width hexadecimal form ----

  function ShiftRight(n: nat, bits: nat): nat {
    if bits == 0 then n else ShiftRight(n / 2, bits - 1)
  }

  /** Digit i of the 16-digit form, by shift and mask. */
  function HexDigit(val: Word, i: nat): char
    requires i < 16
  {
    DigitChar(ShiftRight(val, (15 - i) * 4) % 16, false)
  }

  function Hex16(val: Word): string {
    seq(16, i requires 0 <= i < 16 => HexDigit(val, i))
  }

  // The last w digits, zero-filled.
  function Fixed(n: nat, w: nat): (s: string)
    ensures |s| == w
  {
    if w == 0 then [] else Fixed(n / 16, w - 1) + [DigitChar(n % 16, false)]
  }

  lemma {:induction false} FixedIsPadded(n: nat, w: nat)
    requires w > 0 && n < Pow(16, w)
    ensures |Digits(n, 16, false)| <= w
    ensures Fixed(n, w) == Rep('0', w - |Digits(n, 16, false)|) + Digits(n, 16, false)
    decreases w
  {
    assert Pow(16, w) == 16 * Pow(16, w - 1);
    if n < 16 {
      FixedZero(w - 1);
      assert n / 16 == 0;
    } else if w > 1 {
      FixedIsPadded(n / 16, w - 1);
      var ds, d := Digits(n / 16, 16, false), DigitChar(n % 16, false);
      assert Rep('0', w - 1 - |ds|) + ds + [d] == Rep('0', w - 1 - |ds|) + (ds + [d]);
    }
  }

  lemma {:induction false} FixedZero(w: nat)
    ensures Fixed(0, w) == Rep('0', w)
  {
    if w > 0 {
      FixedZero(w - 1);
    }
  }

  lemma ShiftFour(n: nat, bits: nat)
    ensures ShiftRight(n, bits + 4) == ShiftRight(n / 16, bits)
  {
    assert ShiftRight(n, bits + 4) == ShiftRight(n / 2, bits + 3);
    assert ShiftRight(n / 2, bits + 3) == ShiftRight(n / 2 / 2, bits + 2);
    assert ShiftRight(n / 2 / 2, bits + 2) == ShiftRight(n / 2 / 2 / 2, bits + 1);
    assert n / 2 / 2 / 2 / 2 == n / 16;
  }

  lemma {:induction false} FixedAt(n: nat, w: nat, i: nat)
    requires i < w
    ensures Fixed(n, w)[i] == DigitChar(ShiftRight(n, (w - 1 - i) * 4) % 16, false)
  {
    if i < w - 1 {
      FixedAt(n / 16, w - 1, i);
      ShiftFour(n, (w - 2 - i) * 4);
    }
  }

  /** The zero-padded, 16-wide, upper-case hexadecimal form of `number` is what vga_print_hex64 shows. */
  lemma HexFormsAgree(val: Word)
    ensures Formatted(val, 16, 16, -1, Flags(true, false, false, false, false, false, false)) == Hex16(val)
  {
    PaddedIsFixed(val);
    FixedIsHex(val);
  }

  lemma FixedIsHex(val: Word)
    ensures Hex16(val) == Fixed(val, 16)
  {
    forall i | 0 <= i < 16 ensures Hex16(val)[i] == Fixed(val, 16)[i] {
      FixedAt(val, 16, i);
    }
  }

  lemma PaddedIsFixed(val: Word)
    ensures Formatted(val, 16, 16, -1, Flags(true, false, false, false, false, false, false)) == Fixed(val, 16)
  {
    PowersOfSixteen();
    FixedIsPadded(val, 16);
    PlainHex(val);
    var ds := Digits(val, 16, false);
    assert [] + Rep('0', 16 - |ds|) + ds == Fixed(val, 16);
  }

  // Without sign and prefix, the text is that of the digits.
  lemma PlainHex(val: Word)
    ensures var f := Flags(true, false, false, false, false, false, false);
            && Magnitude(val, f) == val && SignText(val, f) + PrefixText(16, f) == []
            && Body(val, 16, -1, f) == Digits(val, 16, false)
  {
  }
}
