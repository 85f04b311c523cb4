/** Reading a formatted number back, sign, prefix and all. */
module NumberReads {
  import opened Machine
  import opened NumberText

  /** The number that a 64-bit word stands for. */
  function SignedValue(num: Word, signed: bool): int {
    if signed && num >= 0x8000_0000_0000_0000 then num - 0x1_0000_0000_0000_0000 else num
  }

  // ---- a reader of its own ----

  function SkipBlanks(s: string): string {
    if s != "" && s[0] == ' ' then SkipBlanks(s[1..]) else s
  }

  // How many digits of the base the text starts with.
  function DigitsIn(s: string, base: nat): (n: nat)
    ensures n <= |s|
  {
    if s == "" || DigitValue(s[0]) >= base then 0 else 1 + DigitsIn(s[1..], base)
  }

  datatype Reading = Unreadable | Read(value: int)

  function ReadDigits(s: string, base: nat): Reading {
    var n := DigitsIn(s, base);
    if n == 0 || SkipBlanks(s[n..]) != "" then Unreadable else Read(Value(s[..n], base))
  }

  // After the sign: "0x" or "0X" in base 16 and "0" in base 8, if they are asked for.
  function ReadPrefixed(s: string, base: nat, special: bool): Reading {
    if special && base == 16 then
      if |s| >= 2 && s[0] == '0' && (s[1] == 'x' || s[1] == 'X') then ReadDigits(s[2..], base) else Unreadable
    else if special && base == 8 then
      if s != "" && s[0] == '0' then ReadDigits(s[1..], base) else Unreadable
    else ReadDigits(s, base)
  }

  function Negated(r: Reading): Reading {
    match r
    case Unreadable => Unreadable
    case Read(v) => Read(-v)
  }

  /** Blanks, a minus or plus sign, the prefix, digits, blanks. */
  function ReadNumber(s: string, base: nat, special: bool): Reading {
    var t := SkipBlanks(s);
    if t != "" && t[0] == '-' then Negated(ReadPrefixed(t[1..], base, special))
    else if t != "" && t[0] == '+' then ReadPrefixed(t[1..], base, special)
    else ReadPrefixed(t, base, special)
  }

  // ---- the parts of the text ----

  /** A minus for negative numbers only; otherwise what the flags ask for, plus before blank. */
  predicate SignIs(sign: string, value: int, f: Flags) {
    sign == if value < 0 then "-" else if f.plus then "+" else if f.space then " " else ""
  }

  predicate PrefixIs(prefix: string, base: int, f: Flags) {
    prefix == if f.special && base == 16 then (if f.small then "0x" else "0X")
              else if f.special && base == 8 then "0" else ""
  }

  // Letters among the digits are of one case.
  ghost predicate CaseIs(ds: string, small: bool) {
    forall i :: 0 <= i < |ds| ==> ('a' <= ds[i] <= 'z' ==> small) && ('A' <= ds[i] <= 'Z' ==> !small)
  }

  // There is no zero in front that neither the number nor the precision needs.
  predicate NoSpareZero(ds: string, precision: int) {
    |ds| > precision && |ds| > 1 ==> ds[0] != '0'
  }

  lemma {:induction false} DigitsCase(n: nat, base: nat, small: bool)
    requires BaseOk(base)
    ensures CaseIs(Digits(n, base, small), small)
  {
    if n >= base {
      DivFacts(n, base);
      DigitsCase(n / base, base, small);
    }
  }

  lemma BodyParts(num: Word, base: int, precision: int, f: Flags)
    requires BaseOk(base)
    ensures var ds := Body(num, base, precision, f);
            CaseIs(ds, f.small) && NoSpareZero(ds, precision) && |ds| >= 1
  {
    var mag := Magnitude(num, f);
    var ds := Digits(mag, base, f.small);
    DigitsCase(mag, base, f.small);
    if mag > 0 {
      NoLeadingZero(mag, base, f.small);
    } else {
      assert ds == [DigitChar(0, f.small)];
    }
  }

  // Blanks or zeros fill the text up to the width, and only if it is shorter.
  ghost predicate Fills(l: nat, head: nat, ds: string, r: nat, size: int, precision: int, f: Flags) {
    var width := l + head + |ds| + r;
    && width >= size && (l > 0 || r > 0 ==> width == size)
    && (width > size || !f.zeropad || f.left ==> NoSpareZero(ds, precision))
    && (f.left ==> l == 0) && (!f.left ==> r == 0) && (f.zeropad && !f.left ==> l == 0)
  }

  // The digits read back, in letters of one case.
  ghost predicate DigitsAre(ds: string, base: int, precision: int, small: bool, value: nat)
    requires base >= 0
  {
    |ds| > 0 && |ds| >= precision && AllDigits(ds, base) && CaseIs(ds, small) && Value(ds, base) == value
  }

  lemma SignParts(num: Word, base: int, f: Flags)
    ensures SignIs(SignText(num, f), SignedValue(num, f.sign), f) && PrefixIs(PrefixText(base, f), base, f)
    ensures var v: int := Magnitude(num, f);
            SignedValue(num, f.sign) == if SignText(num, f) == "-" then -v else v
  {
  }

  lemma BodyFills(num: Word, base: int, size: int, precision: int, f: Flags) returns (l: nat, ds: string, r: nat)
    requires BaseOk(base)
    ensures Formatted(num, base, size, precision, f) ==
            Rep(' ', l) + (SignText(num, f) + PrefixText(base, f)) + ds + Rep(' ', r)
    ensures Fills(l, |SignText(num, f)| + |PrefixText(base, f)|, ds, r, size, precision, f)
    ensures DigitsAre(ds, base, precision, f.small, Magnitude(num, f))
  {
    var body := Body(num, base, precision, f);
    var pad := Max(0, Padding(num, base, size, precision, f));
    BodyReadsBack(num, base, precision, f);
    BodyParts(num, base, precision, f);
    l, r := if f.left || f.zeropad then 0 else pad, if f.left then pad else 0;
    ds := if f.zeropad && !f.left then Rep('0', pad) + body else body;
    ZerosAndDigits(pad, body, base, Magnitude(num, f));
    ZerosCase(pad, body, f.small);
    assert pad == 0 ==> Rep('0', pad) + body == body;
    TextParts(num, base, size, precision, f, l, ds, r);
  }

  /** The text is blanks, sign, prefix, digits, blanks. Sign and digits make the number that the word stands for, signed
    * if the flags say so; blanks or zeros fill it up to the width, and only if it is shorter; without the flag for
    * zeros, or to the left, no zero is there that neither number nor precision needs. */
  lemma TextReadsBack(num: Word, base: int, size: int, precision: int, f: Flags)
    returns (l: nat, sign: string, prefix: string, ds: string, r: nat)
    requires 2 <= base <= 36
    ensures Formatted(num, base, size, precision, f) == Rep(' ', l) + (sign + prefix) + ds + Rep(' ', r)
    ensures SignIs(sign, SignedValue(num, f.sign), f) && PrefixIs(prefix, base, f)
    ensures var v: int := Value(ds, base);
            SignedValue(num, f.sign) == if sign == "-" then -v else v
    ensures DigitsAre(ds, base, precision, f.small, Value(ds, base))
    ensures Fills(l, |sign| + |prefix|, ds, r, size, precision, f)
  {
    sign, prefix := SignText(num, f), PrefixText(base, f);
    l, ds, r := BodyFills(num, base, size, precision, f);
    SignParts(num, base, f);
  }

  lemma ZerosCase(k: int, s: string, small: bool)
    requires CaseIs(s, small)
    ensures CaseIs(Rep('0', k) + s, small)
  {
  }

  // ---- reading the text ----

  lemma {:induction false} SkipBlanksOf(l: nat, s: string)
    requires s == "" || s[0] != ' '
    ensures SkipBlanks(Rep(' ', l) + s) == s
  {
    if l > 0 {
      assert (Rep(' ', l) + s)[1..] == Rep(' ', l - 1) + s;
      SkipBlanksOf(l - 1, s);
    } else {
      assert Rep(' ', 0) + s == s;
    }
  }

  lemma {:induction false} DigitsInOf(ds: string, rest: string, base: nat)
    requires AllDigits(ds, base) && (rest == "" || DigitValue(rest[0]) >= base)
    ensures DigitsIn(ds + rest, base) == |ds|
    decreases |ds|
  {
    if ds == "" {
      assert ds + rest == rest;
    } else {
      assert (ds + rest)[1..] == ds[1..] + rest;
      DigitsInOf(ds[1..], rest, base);
    }
  }

  lemma DigitsRead(ds: string, r: nat, base: nat)
    requires |ds| > 0 && AllDigits(ds, base) && base <= 36
    ensures ReadDigits(ds + Rep(' ', r), base) == Read(Value(ds, base))
  {
    var s := ds + Rep(' ', r);
    DigitsInOf(ds, Rep(' ', r), base);
    assert s[..|ds|] == ds && s[|ds|..] == Rep(' ', r);
    assert Rep(' ', r) + "" == Rep(' ', r);
    SkipBlanksOf(r, "");
  }

  lemma PrefixRead(prefix: string, s: string, base: int, f: Flags)
    requires 2 <= base <= 36 && PrefixIs(prefix, base, f)
    ensures ReadPrefixed(prefix + s, base, f.special) == ReadDigits(s, base)
  {
    assert (prefix + s)[|prefix|..] == s;
  }

  // What follows sign and blanks starts with a digit.
  lemma SignRead(l: nat, sign: string, s: string, base: nat, f: Flags, value: int)
    requires SignIs(sign, value, f) && s != "" && s[0] != ' ' && s[0] != '-' && s[0] != '+'
    ensures ReadNumber(Rep(' ', l) + (sign + s), base, f.special)
            == if value < 0 then Negated(ReadPrefixed(s, base, f.special)) else ReadPrefixed(s, base, f.special)
  {
    if sign == " " {
      assert Rep(' ', l) + (sign + s) == Rep(' ', l + 1) + s;
      SkipBlanksOf(l + 1, s);
    } else {
      SkipBlanksOf(l, sign + s);
      assert (sign + s)[|sign|..] == s;
    }
  }

  lemma Regroup(a: string, b: string, c: string, d: string, e: string)
    ensures a + (b + c) + d + e == a + (b + (c + (d + e)))
  {
  }

  /** What `number` writes is read back as the number that the word stands for: signed under the flag for signs, in
    * every base, width and precision. */
  lemma ReadsBack(num: Word, base: int, size: int, precision: int, f: Flags)
    requires 2 <= base <= 36
    ensures ReadNumber(Formatted(num, base, size, precision, f), base, f.special) == Read(SignedValue(num, f.sign))
  {
    var l, sign, prefix, ds, r := TextReadsBack(num, base, size, precision, f);
    var s := prefix + (ds + Rep(' ', r));
    Regroup(Rep(' ', l), sign, prefix, ds, Rep(' ', r));
    assert DigitValue(s[0]) < 36;
    SignRead(l, sign, s, base, f, SignedValue(num, f.sign));
    PrefixRead(prefix, ds + Rep(' ', r), base, f);
    DigitsRead(ds, r, base);
  }
}
