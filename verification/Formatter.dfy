/** The number formatter of console.c, its field parser, and the panic screen's hexadecimal printer. */
module FormatterC {
  import opened Machine
  import opened NumberText

  const UPPER: string := "0123456789ABCDEFGHIJKLMNOPQRSTUVWXYZ"
  const LOWER: string := "0123456789abcdefghijklmnopqrstuvwxyz"

  lemma Tables(d: nat)
    requires d < 36
    ensures UPPER[d] == DigitChar(d, false) && LOWER[d] == DigitChar(d, true)
  {
  }

  function Reversed(s: string): (r: string)
    ensures |r| == |s|
  {
    seq(|s|, i requires 0 <= i < |s| => s[|s| - 1 - i])
  }

  /** From `at` on, `out` has been stored and nothing else has changed since `before`. */
  ghost predicate Stored(now: seq<char>, before: seq<char>, at: nat, out: string) {
    && |now| == |before| && at + |out| <= |before|
    && forall j :: 0 <= j < |now| ==> now[j] == if at <= j < at + |out| then out[j - at] else before[j]
  }

  lemma StoredMore(a: seq<char>, b: seq<char>, before: seq<char>, at: nat, out: string, more: string)
    requires Stored(a, before, at, out) && Stored(b, a, at + |out|, more)
    ensures Stored(b, before, at, out + more)
  {
  }

  /** Stores a character as often as the counter says; returns the new position and the counter as the loop leaves
    * it, which is one less than it tested last. */
  method PutRun(str: array<char>, at: nat, n: int, c: char) returns (end: nat, left: int)
    requires at + Max(n, 0) <= str.Length
    modifies str
    ensures end == at + Max(n, 0) && left == (if n > 0 then -1 else n - 1)
    ensures Stored(str[..], old(str[..]), at, Rep(c, n))
  {
    end, left := at, n;
    while left > 0
      invariant at <= end <= str.Length && end - at == Max(n, 0) - Max(left, 0) && (n <= 0 ==> left == n)
      invariant left >= 0 || left == n
      invariant forall i :: 0 <= i < str.Length ==> str[i] == if at <= i < end then c else old(str[i])
    {
      left := left - 1;
      str[end] := c;
      end := end + 1;
    }
    left := left - 1;
  }

  method PutString(str: array<char>, at: nat, s: string) returns (end: nat)
    requires at + |s| <= str.Length
    modifies str
    ensures end == at + |s| && Stored(str[..], old(str[..]), at, s)
  {
    end := at;
    for i := 0 to |s|
      invariant end == at + i
      invariant forall j :: 0 <= j < str.Length ==> str[j] == if at <= j < end then s[j - at] else old(str[j])
    {
      str[end] := s[i];
      end := end + 1;
    }
  }

  // The digits still to come.
  function Rest(num: nat, base: nat, small: bool): string
    requires BaseOk(base)
  {
    if num == 0 then "" else Digits(num, base, small)
  }

  lemma RestSnoc(num: nat, base: nat, small: bool)
    requires BaseOk(base) && num > 0
    ensures num % base < 36 && Rest(num, base, small) == Rest(num / base, base, small) + [DigitChar(num % base, small)]
  {
    DivFacts(num, base);
  }

  lemma RestStep(num: nat, base: nat, small: bool, done: string)
    requires BaseOk(base) && num > 0
    ensures num % base < 36 && |Rest(num, base, small)| > 0
    ensures Rest(num, base, small) + done == Rest(num / base, base, small) + ([DigitChar(num % base, small)] + done)
  {
    RestSnoc(num, base, small);
    Cat3(Rest(num / base, base, small), [DigitChar(num % base, small)], done);
  }

  lemma Cat3(a: string, b: string, c: string)
    ensures a + b + c == a + (b + c)
  {
  }

  /** The digit loop: least significant first, into 64 scratch cells that always suffice. */
  method DigitLoop(mag: Word, base: nat, small: bool, tmp: array<char>) returns (i: nat)
    requires BaseOk(base) && tmp.Length == 64
    modifies tmp
    ensures i == |Digits(mag, base, small)| <= 64
    ensures Reversed(tmp[..i]) == Digits(mag, base, small)
  {
    i := 0;
    if mag == 0 {
      tmp[i] := '0';
      i := i + 1;
      assert Reversed(tmp[..1]) == ['0'];
    } else {
      i := DigitsOf(mag, base, small, tmp);
    }
  }

  method DigitsOf(mag: Word, base: nat, small: bool, tmp: array<char>) returns (i: nat)
    requires BaseOk(base) && tmp.Length == 64 && mag > 0
    modifies tmp
    ensures i <= 64 && Reversed(tmp[..i]) == Digits(mag, base, small)
  {
    i := 0;
    var num: Word := mag;
    ScratchSuffices(mag, base, small);
    assert "" == Reversed(tmp[..0]) && Rest(num, base, small) + "" == Rest(num, base, small);
    while num != 0
      invariant i <= 64 && Rest(num, base, small) + Reversed(tmp[..i]) == Digits(mag, base, small)
      decreases num
    {
      DivFacts(num, base);
      ghost var done := tmp[..i];
      RestStep(num, base, small, Reversed(done));
      assert |Rest(num, base, small)| + i == |Rest(num, base, small) + Reversed(done)|;
      Tables(num % base);
      tmp[i] := if small then LOWER[num % base] else UPPER[num % base];
      ReversedSnoc(done, tmp[i]);
      assert tmp[..i + 1] == done + [tmp[i]];
      i := i + 1;
      num := num / base;
    }
    assert "" + Reversed(tmp[..i]) == Reversed(tmp[..i]);
  }

  lemma ReversedSnoc(s: string, c: char)
    ensures Reversed(s + [c]) == [c] + Reversed(s)
  {
  }

  // The sign is split off, and the field width reduced by sign and prefix.
  method TakeSign(num0: Word, size0: int, base: int, f: Flags) returns (num: Word, size: int, sign: string)
    ensures num == Magnitude(num0, f) && sign == SignText(num0, f)
    ensures size == size0 - |sign| - |PrefixText(base, f)|
  {
    num, size, sign := num0, size0, "";
    if f.sign && num >= W64 / 2 {
      sign := "-";
      num := W64 - num;
      size := size - 1;
    } else if f.plus {
      sign := "+";
      size := size - 1;
    } else if f.space {
      sign := " ";
      size := size - 1;
    }
    if f.special {
      if base == 16 {
        size := size - 2;
      } else if base == 8 {
        size := size - 1;
      }
    }
  }

  /** number: NULL (here -1) for a base it does not know, else the position behind the text it has stored. */
  method Number(str: array<char>, at: nat, num: Word, base: int, size: int, precision: int, flags: Flags)
    returns (end: int)
    requires BaseOk(base) ==> at + |Formatted(num, base, size, precision, flags)| <= str.Length
    modifies str
    ensures !BaseOk(base) ==> end == -1 && str[..] == old(str[..])
    ensures BaseOk(base) ==> end == at + |Formatted(num, base, size, precision, flags)|
    ensures BaseOk(base) ==> Stored(str[..], old(str[..]), at, Formatted(num, base, size, precision, flags))
  {
    var f := flags;
    if f.left {
      f := f.(zeropad := false);
      if BaseOk(base) {
        LeftWins(num, base, size, precision, flags);
      }
    }
    if base < 2 || base > 36 {
      return -1;
    }
    end := NumberIn(str, at, num, base, size, precision, f);
  }

  // `number` past its checks.
  method NumberIn(str: array<char>, at: nat, num0: Word, base: int, size0: int, precision0: int, f: Flags)
    returns (end: nat)
    requires BaseOk(base) && !(f.left && f.zeropad)
    requires at + |Formatted(num0, base, size0, precision0, f)| <= str.Length
    modifies str
    ensures end == at + |Formatted(num0, base, size0, precision0, f)|
    ensures Stored(str[..], old(str[..]), at, Formatted(num0, base, size0, precision0, f))
  {
    PiecesAreFormatted(num0, base, size0, precision0, f);
    ghost var text := Formatted(num0, base, size0, precision0, f);
    ghost var ds := Digits(Magnitude(num0, f), base, f.small);
    var num, size, sign := TakeSign(num0, size0, base, f);
    var precision := precision0;
    var tmp := new char[64];
    var i := DigitLoop(num, base, f.small, tmp);
    if i > precision {
      precision := i;
    }
    assert precision == Max(precision0, |ds|);
    size := size - precision;
    assert size == Padding(num0, base, size0, precision0, f);
    assert Pieces(sign, base, f, size, precision, Reversed(tmp[..i])) == text;
    end := Emit(str, at, sign, base, f, size, precision, tmp, i);
  }

  // What is stored, piece by piece, once the field width has been reduced to the padding.
  function HeadText(sign: string, prefix: string, blank: bool, pad: int): string {
    (if blank then Rep(' ', pad) else "") + sign + prefix
  }

  function TailText(f: Flags, pad: int, precision: int, ds: string): string {
    (if f.zeropad then Rep('0', pad) else "") + (Rep('0', precision - |ds|) + ds)
    + (if f.left then Rep(' ', pad) else "")
  }

  lemma TailSame(f: Flags, pad: int, pad': int, precision: int, ds: string)
    requires f.zeropad || f.left ==> pad == pad'
    ensures TailText(f, pad, precision, ds) == TailText(f, pad', precision, ds)
  {
  }

  function Pieces(sign: string, base: int, f: Flags, pad: int, precision: int, ds: string): string {
    HeadText(sign, PrefixText(base, f), !f.zeropad && !f.left, pad) + TailText(f, pad, precision, ds)
  }

  lemma PiecesAreFormatted(num: Word, base: int, size: int, precision: int, f: Flags)
    requires BaseOk(base) && !(f.left && f.zeropad)
    ensures var ds := Digits(Magnitude(num, f), base, f.small);
            Pieces(SignText(num, f), base, f, Padding(num, base, size, precision, f), Max(precision, |ds|), ds)
            == Formatted(num, base, size, precision, f)
  {
    var ds := Digits(Magnitude(num, f), base, f.small);
    var sign, prefix, pad := SignText(num, f), PrefixText(base, f), Padding(num, base, size, precision, f);
    var zeros := Rep('0', Max(precision, |ds|) - |ds|);
    assert zeros == Rep('0', precision - |ds|);
    CatLeft(sign, prefix, zeros, ds, Rep(' ', pad));
    CatZeros(sign, prefix, Rep('0', pad), zeros, ds);
    CatBlanks(Rep(' ', pad), sign, prefix, zeros, ds);
  }

  lemma CatLeft(sign: string, prefix: string, zeros: string, ds: string, trail: string)
    ensures ("" + sign + prefix) + ("" + (zeros + ds) + trail) == (sign + prefix) + (zeros + ds) + trail
  {
  }

  lemma CatZeros(sign: string, prefix: string, pad: string, zeros: string, ds: string)
    ensures ("" + sign + prefix) + (pad + (zeros + ds) + "") == (sign + prefix) + pad + (zeros + ds)
  {
  }

  lemma CatBlanks(pad: string, sign: string, prefix: string, zeros: string, ds: string)
    ensures (pad + sign + prefix) + ("" + (zeros + ds) + "") == pad + (sign + prefix) + (zeros + ds)
  {
  }

  // LEFT switches ZEROPAD off.
  lemma LeftWins(num: Word, base: int, size: int, precision: int, f: Flags)
    requires BaseOk(base) && f.left
    ensures Formatted(num, base, size, precision, f.(zeropad := false)) == Formatted(num, base, size, precision, f)
  {
    var g := f.(zeropad := false);
    assert SignText(num, g) == SignText(num, f) && Magnitude(num, g) == Magnitude(num, f);
    assert Padding(num, base, size, precision, g) == Padding(num, base, size, precision, f);
    assert Body(num, base, precision, g) == Body(num, base, precision, f);
  }

  /** Stores the scratch cells from the last one to the first. */
  method PutDigits(str: array<char>, at: nat, tmp: array<char>, n: nat) returns (end: nat)
    requires str != tmp && n <= tmp.Length && at + n <= str.Length
    modifies str
    ensures end == at + n && Stored(str[..], old(str[..]), at, Reversed(tmp[..n]))
  {
    end := at;
    var i := n;
    while i > 0
      invariant 0 <= i <= n && end == at + (n - i)
      invariant forall j :: 0 <= j < str.Length ==>
                  str[j] == if at <= j < end then tmp[n - 1 - (j - at)] else old(str[j])
    {
      i := i - 1;
      str[end] := tmp[i];
      end := end + 1;
    }
  }

  /** The stores of `number`, in order: blanks, sign and prefix. */
  method EmitHead(str: array<char>, at: nat, sign: string, prefix: string, blank: bool, pad: int)
    returns (end: nat, size: int)
    requires at + |HeadText(sign, prefix, blank, pad)| <= str.Length
    modifies str
    ensures size == if blank then (if pad > 0 then -1 else pad - 1) else pad
    ensures var out := HeadText(sign, prefix, blank, pad);
            end == at + |out| && Stored(str[..], old(str[..]), at, out)
  {
    ghost var before, out := str[..], "";
    end, size := at, pad;
    if blank {
      end, size := PutRun(str, end, size, ' ');
      out := Rep(' ', pad);
    }
    ghost var a := str[..];
    end := PutString(str, end, sign);
    StoredMore(a, str[..], before, at, out, sign);
    out := out + sign;
    a := str[..];
    end := PutString(str, end, prefix);
    StoredMore(a, str[..], before, at, out, prefix);
  }

  // Then zeros up to the precision, and the digits.
  method EmitBody(str: array<char>, at: nat, precision: int, tmp: array<char>, i: nat) returns (end: nat)
    requires str != tmp && i <= tmp.Length && at + Max(0, precision - i) + i <= str.Length
    modifies str
    ensures var out := Rep('0', precision - i) + Reversed(tmp[..i]);
            end == at + |out| && Stored(str[..], old(str[..]), at, out)
  {
    ghost var before := str[..];
    var rest: int;
    end, rest := PutRun(str, at, precision - i, '0');
    ghost var a := str[..];
    end := PutDigits(str, end, tmp, i);
    StoredMore(a, str[..], before, at, Rep('0', precision - i), Reversed(tmp[..i]));
  }

  // Then padding zeros, where the head has stored no blanks.
  method EmitZeros(str: array<char>, at: nat, f: Flags, pad: int) returns (end: nat, size: int)
    requires !(f.left && f.zeropad) && (!f.left && !f.zeropad ==> pad < 0)
    requires f.zeropad ==> at + Max(pad, 0) <= str.Length
    requires at <= str.Length
    modifies str
    ensures var zeros := if f.zeropad then Rep('0', pad) else "";
            end == at + |zeros| && Stored(str[..], old(str[..]), at, zeros)
    ensures if f.left then size == pad else size < 0
  {
    end, size := at, pad;
    if !f.left {
      end, size := PutRun(str, end, size, if f.zeropad then '0' else ' ');
    }
  }

  // The padding zeros, the body, and trailing blanks.
  method EmitTail(str: array<char>, at: nat, f: Flags, pad: int, precision: int, tmp: array<char>, i: nat,
                  ghost tail: string) returns (end: nat)
    requires str != tmp && i <= tmp.Length && !(f.left && f.zeropad) && (!f.left && !f.zeropad ==> pad < 0)
    requires tail == TailText(f, pad, precision, Reversed(tmp[..i])) && at + |tail| <= str.Length
    modifies str
    ensures end == at + |tail| && Stored(str[..], old(str[..]), at, tail)
  {
    ghost var before := str[..];
    ghost var zeros := if f.zeropad then Rep('0', pad) else "";
    ghost var body := Rep('0', precision - i) + Reversed(tmp[..i]);
    ghost var trail := if f.left then Rep(' ', pad) else "";
    var size;
    end, size := EmitZeros(str, at, f, pad);
    ghost var a := str[..];
    end := EmitBody(str, end, precision, tmp, i);
    ghost var b := str[..];
    StoredMore(a, b, before, at, zeros, body);
    assert trail == Rep(' ', size);
    end, size := PutRun(str, end, size, ' ');
    StoredMore(b, str[..], before, at, zeros + body, trail);
  }

  method Emit(str: array<char>, at: nat, sign: string, base: int, f: Flags, pad: int, precision: int,
              tmp: array<char>, i: nat) returns (end: nat)
    requires str != tmp && i <= tmp.Length && i <= precision && !(f.left && f.zeropad)
    requires at + |Pieces(sign, base, f, pad, precision, Reversed(tmp[..i]))| <= str.Length
    modifies str
    ensures var text := Pieces(sign, base, f, pad, precision, Reversed(tmp[..i]));
            end == at + |text| && Stored(str[..], old(str[..]), at, text)
  {
    ghost var head := HeadText(sign, PrefixText(base, f), !f.zeropad && !f.left, pad);
    ghost var tail := TailText(f, pad, precision, Reversed(tmp[..i]));
    end := EmitBoth(str, at, sign, PrefixText(base, f), f, pad, precision, tmp, i, head, tail);
  }

  method EmitBoth(str: array<char>, at: nat, sign: string, prefix: string, f: Flags, pad: int, precision: int,
                  tmp: array<char>, i: nat, ghost head: string, ghost tail: string) returns (end: nat)
    requires str != tmp && i <= tmp.Length && !(f.left && f.zeropad) && at + |head| + |tail| <= str.Length
    requires head == HeadText(sign, prefix, !f.zeropad && !f.left, pad)
    requires tail == TailText(f, pad, precision, Reversed(tmp[..i]))
    modifies str
    ensures end == at + |head| + |tail| && Stored(str[..], old(str[..]), at, head + tail)
  {
    ghost var before, ds := str[..], Reversed(tmp[..i]);
    var mid, size := EmitHead(str, at, sign, prefix, !f.zeropad && !f.left, pad);
    TailSame(f, size, pad, precision, ds);
    ghost var a := str[..];
    end := EmitTail(str, mid, f, size, precision, tmp, i, tail);
    StoredMore(a, str[..], before, at, head, tail);
  }

  // ---- the field parser ----

  predicate IsDigit(c: char) {
    '0' <= c <= '9'
  }

  // How many digits the text has at `pos`.
  function DigitRun(s: string, pos: nat): (n: nat)
    requires pos <= |s|
    ensures pos + n <= |s| && (forall i :: pos <= i < pos + n ==> IsDigit(s[i]))
    ensures pos + n < |s| ==> !IsDigit(s[pos + n])
    decreases |s| - pos
  {
    if pos < |s| && IsDigit(s[pos]) then 1 + DigitRun(s, pos + 1) else 0
  }

  /** skip_atoi: the value of the digits at `pos`, and the position behind them. */
  method SkipAtoi(s: string, pos: nat) returns (value: nat, end: nat)
    requires pos <= |s|
    ensures end == pos + DigitRun(s, pos) && value == Value(s[pos..end], 10)
  {
    value, end := 0, pos;
    while end < |s| && IsDigit(s[end])
      invariant pos <= end <= |s| && value == Value(s[pos..end], 10)
      invariant DigitRun(s, pos) == end - pos + DigitRun(s, end)
    {
      assert s[pos..end + 1] == s[pos..end] + [s[end]];
      ValueSnoc(s[pos..end], s[end], 10);
      value := value * 10 + (s[end] as nat - '0' as nat);
      end := end + 1;
    }
  }

  /** The parser reads back what the formatter prints: the decimal digits of n, up to the first other character. */
  lemma AtoiReadsDigits(n: nat, rest: string)
    requires rest == [] || !IsDigit(rest[0])
    ensures var s := Digits(n, 10, false) + rest;
            var k := DigitRun(s, 0);
            k == |Digits(n, 10, false)| && Value(s[..k], 10) == n
  {
    var ds := Digits(n, 10, false);
    DigitsReadBack(n, 10, false);
    assert forall i :: 0 <= i < |ds| ==> DigitValue(ds[i]) < 10;
    RunOfDigits(ds, rest);
    assert (ds + rest)[..|ds|] == ds;
  }

  lemma RunOfDigits(ds: string, rest: string)
    requires forall i :: 0 <= i < |ds| ==> DigitValue(ds[i]) < 10
    requires rest == [] || !IsDigit(rest[0])
    ensures DigitRun(ds + rest, 0) == |ds|
  {
    var s := ds + rest;
    assert forall i :: 0 <= i < |ds| ==> s[i] == ds[i] && IsDigit(s[i]);
    assert rest != [] ==> s[|ds|] == rest[0];
  }

  // ---- the panic screen ----

  const VGA_W: nat := 80
  const PANIC_ATTR: nat := 0x4F00

  // ---- the range of 32-bit counters ----

  const INT_MAX: int := 0x7FFF_FFFF
  const INT_MIN: int := -0x8000_0000

  // What the parser reaches at the digit k, before it subtracts the code of '0'.
  function Reached(s: string, pos: nat, k: nat): int
    requires pos <= k < |s|
  {
    Value(s[pos..k], 10) * 10 + s[k] as int
  }

  /** Nothing the parser computes leaves the range of a 32-bit int if and only if there is room for the value and 48
    * more. */
  lemma AtoiInRange(s: string, pos: nat, end: nat)
    requires pos < end <= |s| && forall k :: pos <= k < end ==> IsDigit(s[k])
    ensures (forall k :: pos <= k < end ==> Reached(s, pos, k) <= INT_MAX)
            <==> Value(s[pos..end], 10) + '0' as int <= INT_MAX
  {
    forall k | pos <= k < end ensures Reached(s, pos, k) <= Value(s[pos..end], 10) + '0' as int {
      AtoiStep(s, pos, k);
      AtoiGrows(s, pos, k + 1, end);
    }
    AtoiStep(s, pos, end - 1);
  }

  lemma AtoiStep(s: string, pos: nat, k: nat)
    requires pos <= k < |s| && IsDigit(s[k])
    ensures Value(s[pos..k + 1], 10) == Value(s[pos..k], 10) * 10 + (s[k] as int - '0' as int)
    ensures Reached(s, pos, k) == Value(s[pos..k + 1], 10) + '0' as int
  {
    assert s[pos..k + 1] == s[pos..k] + [s[k]];
    ValueSnoc(s[pos..k], s[k], 10);
  }

  lemma {:induction false} AtoiGrows(s: string, pos: nat, k: nat, end: nat)
    requires pos <= k <= end <= |s| && forall j :: k <= j < end ==> IsDigit(s[j])
    ensures Value(s[pos..k], 10) <= Value(s[pos..end], 10)
    decreases end - k
  {
    if k < end {
      AtoiStep(s, pos, k);
      AtoiGrows(s, pos, k + 1, end);
    }
  }

  // A counter after a loop that tests and decrements it.
  function Spent(n: int): int {
    if n > 0 then -1 else n - 1
  }

  /** The values that the width counter of `number` takes: after sign, prefix and precision, and after each padding
    * loop that is reached. */
  function WidthCounters(num: Word, base: int, size: int, precision: int, f: Flags): seq<int>
    requires BaseOk(base)
  {
    var signed := size - |SignText(num, f)|;
    var pad := Padding(num, base, size, precision, f);
    var blanks := if f.left || f.zeropad then pad else Spent(pad);
    var zeros := if f.left then blanks else Spent(blanks);
    [signed, signed - |PrefixText(base, f)|, pad, blanks, zeros, Spent(zeros)]
  }

  /** None of them leaves the range of a 32-bit int if and only if the last one does not. */
  lemma WidthInRange(num: Word, base: int, size: int, precision: int, f: Flags)
    requires BaseOk(base) && INT_MIN <= size <= INT_MAX && precision <= INT_MAX
    ensures var vs := WidthCounters(num, base, size, precision, f);
            (forall i :: 0 <= i < |vs| ==> INT_MIN <= vs[i] <= INT_MAX) <==> INT_MIN <= vs[|vs| - 1]
  {
    var vs := WidthCounters(num, base, size, precision, f);
    assert vs[2] <= vs[1] <= vs[0] <= size;
    assert vs[5] <= vs[4] || vs[5] == -1;
  }

  /** vga_print_hex64: sixteen cells, white on red. */
  method VgaPrintHex64(vga: array<nat>, row: nat, col: nat, val: Word)
    requires row * VGA_W + col + 16 <= vga.Length
    modifies vga
    ensures var at := row * VGA_W + col;
            forall j :: 0 <= j < vga.Length ==>
              vga[j] == if at <= j < at + 16 then PANIC_ATTR + Hex16(val)[j - at] as nat else old(vga[j])
  {
    var at := row * VGA_W + col;
    for i := 0 to 16
      invariant forall j :: 0 <= j < vga.Length ==>
                  vga[j] == if at <= j < at + i then PANIC_ATTR + Hex16(val)[j - at] as nat else old(vga[j])
    {
      var shift := (15 - i) * 4;
      var d := ShiftRight(val, shift) % 16;
      Tables(d);
      var c := UPPER[d];
      vga[row * VGA_W + (col + i)] := PANIC_ATTR + c as nat;
    }
  }
}
