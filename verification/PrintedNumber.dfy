/** What print_uint64_color leaves on the screen. */
module PrintedNumber {
  import opened Machine
  import opened NumberText
  import opened Screen
  import opened ScreenLaws
  import opened CursorLaws
  import ConsoleC

  // Cells from one index on show these characters in this colour.
  ghost predicate Shows(cells: seq<Cell>, at: nat, text: string, color: Byte) {
    at + |text| <= |cells| &&
    forall i :: 0 <= i < |text| ==> cells[at + i] == color * 256 + text[i] as nat
  }

  /** Where it fits, the number stands from the cursor on as decimal digits without leading zeros, in the colour asked
    * for, and every cell before and behind it is as it was. */
  lemma NumberLands(s: Con, num: Word, fg: Byte, bg: Byte) returns (ds: string)
    requires Agree(s) && GlyphAt(s) + |Digits(num, 10, false)| <= 2000
    ensures var (t, p) := (PrintAll(s, ConsoleC.Bytes(Digits(num, 10, false)), fg, bg), GlyphAt(s));
            && 0 < |ds| <= 20 && Decimal(ds) && Value(ds, 10) == num && (num > 0 ==> ds[0] != '0')
            && Shows(Tbuf(t), p, ds, MakeColor(fg, bg)) && GlyphAt(t) == p + |ds|
            && forall i :: 0 <= i < 2000 && !(p <= i < p + |ds|) ==> Tbuf(t)[i] == Tbuf(s)[i]
  {
    ds := Digits(num, 10, false);
    DecimalText(num);
    DecimalBytes(ds);
    TextLands(s, ConsoleC.Bytes(ds), fg, bg);
    LandedCells(Tbuf(s), GlyphAt(s), ds, ConsoleC.Bytes(ds), MakeColor(fg, bg));
  }

  ghost predicate Decimal(ds: string) {
    forall i :: 0 <= i < |ds| ==> '0' <= ds[i] <= '9'
  }

  lemma DecimalText(num: Word)
    ensures var ds := Digits(num, 10, false);
            0 < |ds| <= 20 && Decimal(ds) && Value(ds, 10) == num && (num > 0 ==> ds[0] != '0')
  {
    DigitsReadBack(num, 10, false);
    ScratchSuffices(num, 10, false);
    if num > 0 {
      NoLeadingZero(num, 10, false);
    }
    DecimalDigits(Digits(num, 10, false));
  }

  lemma DecimalDigits(ds: string)
    requires AllDigits(ds, 10)
    ensures Decimal(ds)
  {
  }

  lemma DecimalBytes(ds: string)
    requires Decimal(ds)
    ensures GlyphText(ConsoleC.Bytes(ds)) && SameText(ds, ConsoleC.Bytes(ds))
  {
  }

  ghost predicate SameText(text: string, gs: seq<Byte>) {
    |gs| == |text| && forall i :: 0 <= i < |text| ==> gs[i] == text[i] as nat
  }

  lemma LandedCells(b: seq<Cell>, p: nat, text: string, gs: seq<Byte>, color: Byte)
    requires |b| == CELLS && p + |gs| <= CELLS && SameText(text, gs)
    ensures var b' := b[..p] + CellsOf(gs, color) + b[p + |gs|..];
            && |b'| == CELLS && Shows(b', p, text, color)
            && forall i :: 0 <= i < CELLS && !(p <= i < p + |gs|) ==> b'[i] == b[i]
  {
    var b' := b[..p] + CellsOf(gs, color) + b[p + |gs|..];
    forall i | 0 <= i < |gs| ensures b'[p + i] == color * 256 + gs[i] {
      assert b'[p + i] == CellsOf(gs, color)[i];
    }
  }
}
