/**
 The text `decompile` writes to standard output.

 Each `Event` of module Decoder stands for one `print!` or `println!` call
 in src/main.rs; `Render` gives its text with Rust's format specifiers
 written out (`{:02x}` is `PadHex(_, 2)`, `{:08x}` is `PadHex(_, 8)`, `{:x}`
 is `HexDigits`), and `Listing` is the whole output: the fragments one after
 another.
 */
module Listing {
  import opened Hex
  import opened Decoder

  function MnemonicName(m: Mnemonic): (s: string)
    ensures |s| == 3 && '\n' !in s
  {
    match m
    case MOV => "MOV"
    case ADD => "ADD"
    case SUB => "SUB"
    case AND => "AND"
    case JMP => "JMP"
    case JLE => "JLE"
  }

  /** The fragments printed with `println!`, which end the current line. */
  predicate EndsLine(e: Event) {
    e.Halt? || e.Regs? || e.Addr? || e.Unknown?
  }

  lemma HexHasNoNewline(s: string)
    requires AllHexDigits(s)
    ensures '\n' !in s
  {
  }

  /** The text a fragment's format string produces, before `println!` adds its line break. */
  function Text(e: Event): (s: string)
    ensures s != [] && '\n' !in s
  {
    match e
    case Halt(off) =>
      HexHasNoNewline(PadHex(off, 2));
      PadHex(off, 2) + ": HALT"
    case Label(off, m) =>
      HexHasNoNewline(PadHex(off, 2));
      PadHex(off, 2) + ": " + MnemonicName(m) + " "
    case MovRegs(hi, lo) =>
      HexHasNoNewline(HexDigits(hi));
      HexHasNoNewline(HexDigits(lo));
      "r" + HexDigits(hi) + " & r" + HexDigits(lo) + " <= "
    case Regs(hi, lo) =>
      HexHasNoNewline(HexDigits(hi));
      HexHasNoNewline(HexDigits(lo));
      "r" + HexDigits(hi) + ", r" + HexDigits(lo)
    case Addr(v) =>
      HexHasNoNewline(PadHex(v, 8));
      PadHex(v, 8)
    case Unknown(op) =>
      HexHasNoNewline(PadHex(op, 2));
      "error: don't know what '" + PadHex(op, 2) + "' is"
  }

  /** What one fragment prints: it holds a line break exactly when it ends a line, and then only as its last character. */
  function Render(e: Event): (s: string)
    ensures s != []
    ensures s[|s| - 1] == '\n' <==> EndsLine(e)
    ensures '\n' !in s[..|s| - 1]
  {
    var t := Text(e);
    if EndsLine(e) then
      assert (t + "\n")[..|t|] == t;
      t + "\n"
    else
      assert t[|t| - 1] in t;
      t
  }

  /** Everything printed for a sequence of fragments. */
  function Listing(es: seq<Event>): (s: string)
    ensures |s| >= |es|
  {
    if es == [] then [] else Render(es[0]) + Listing(es[1..])
  }

  function Newlines(s: string): nat {
    if s == [] then 0 else (if s[0] == '\n' then 1 else 0) + Newlines(s[1..])
  }

  /** The number of fragments in `es` that end a line. */
  function LineEnds(es: seq<Event>): nat {
    if es == [] then 0 else (if EndsLine(es[0]) then 1 else 0) + LineEnds(es[1..])
  }

  lemma {:induction false} NewlinesAppend(a: string, b: string)
    ensures Newlines(a + b) == Newlines(a) + Newlines(b)
    decreases |a|
  {
    if a == [] {
      assert a + b == b;
    } else {
      assert (a + b)[1..] == a[1..] + b;
      NewlinesAppend(a[1..], b);
    }
  }

  lemma {:induction false} NoNewlines(s: string)
    requires '\n' !in s
    ensures Newlines(s) == 0
    decreases |s|
  {
    if s != [] {
      assert '\n' !in s[1..];
      NoNewlines(s[1..]);
    }
  }

  lemma RenderNewlines(e: Event)
    ensures Newlines(Render(e)) == if EndsLine(e) then 1 else 0
  {
    var s := Render(e);
    var n := |s| - 1;
    assert s == s[..n] + [s[n]];
    NewlinesAppend(s[..n], [s[n]]);
    NoNewlines(s[..n]);
    assert [s[n]][1..] == [];
  }

  /** The output has one line break per `println!` fragment and no other. */
  lemma {:induction false} ListingLines(es: seq<Event>)
    ensures Newlines(Listing(es)) == LineEnds(es)
    decreases |es|
  {
    if es != [] {
      NewlinesAppend(Render(es[0]), Listing(es[1..]));
      RenderNewlines(es[0]);
      ListingLines(es[1..]);
    }
  }

  lemma {:induction false} ListingAppend(xs: seq<Event>, ys: seq<Event>)
    ensures Listing(xs + ys) == Listing(xs) + Listing(ys)
    decreases |xs|
  {
    if xs == [] {
      assert xs + ys == ys;
    } else {
      assert (xs + ys)[1..] == xs[1..] + ys;
      ListingAppend(xs[1..], ys);
    }
  }

  lemma LastFragmentEndsLine(es: seq<Event>)
    requires es != [] && EndsLine(es[|es| - 1])
    ensures Listing(es) != [] && Listing(es)[|Listing(es)| - 1] == '\n'
  {
    var n := |es| - 1;
    assert es == es[..n] + [es[n]];
    ListingAppend(es[..n], [es[n]]);
    assert Listing([es[n]]) == Render(es[n]) + Listing([]);
  }

  /**
   Every complete instruction prints exactly one line: the fragments of its
   `Width` bytes hold one line break, and it is the last character.
   */
  lemma OneLinePerInstruction(off: nat, bs: seq<Byte>)
    requires bs != [] && Width(bs[0]) <= |bs|
    ensures var e := Disasm(off, bs[..Width(bs[0])]);
            && Disasm(off, bs) == e + Disasm(off + Width(bs[0]), bs[Width(bs[0])..])
            && Newlines(Listing(e)) == 1
            && Listing(e)[|Listing(e)| - 1] == '\n'
  {
    InstructionEvents(off, bs);
    var e := Disasm(off, bs[..Width(bs[0])]);
    ListingLines(e);
    LastFragmentEndsLine(e);
  }

  /**
   The first `w` bytes of `bs` are one instruction on their own: the listing
   of `bs` is theirs followed by the rest's, and exactly one of their
   fragments ends a line, the last.
   */
  predicate OneLine(off: nat, bs: seq<Byte>, w: nat) {
    w <= |bs|
    && var e := Disasm(off, bs[..w]);
    && Disasm(off, bs) == e + Disasm(off + w, bs[w..])
    && e != [] && LineEnds(e) == 1 && EndsLine(e[|e| - 1])
  }

  lemma InstructionEvents(off: nat, bs: seq<Byte>)
    requires bs != [] && Width(bs[0]) <= |bs|
    ensures var e := Disasm(off, bs[..Width(bs[0])]);
            && Disasm(off, bs) == e + Disasm(off + Width(bs[0]), bs[Width(bs[0])..])
            && e != [] && LineEnds(e) == 1 && EndsLine(e[|e| - 1])
  {
    var op := bs[0];
    if op == 0x00 || !IsKnownOp(op) {
      SingleLine(off, bs, Width(op));
    } else if IsRegOp(op) {
      RegLine(off, bs);
    } else if IsJumpOp(op) {
      JumpLine(off, bs);
    } else {
      MovLine(off, bs);
    }
    assert OneLine(off, bs, Width(op));
  }

  /** HALT and an unknown opcode print a single fragment, which ends the line. */
  lemma SingleLine(off: nat, bs: seq<Byte>, w: nat)
    requires bs != [] && (bs[0] == 0x00 || !IsKnownOp(bs[0])) && w == Width(bs[0]) <= |bs|
    ensures OneLine(off, bs, w)
  {
    var xs := bs[..w];
    assert xs[0] == bs[0] && xs[w..] == [];
    var head := OpcodeEvent(off, bs[0]);
    assert Disasm(off + w, xs[w..]) == [];
    assert Disasm(off, xs) == [head] + [];
    assert [head][1..] == [];
  }

  lemma RegLine(off: nat, bs: seq<Byte>)
    requires |bs| >= 2 && IsRegOp(bs[0])
    ensures OneLine(off, bs, 2)
  {
    var xs := bs[..2];
    assert xs[0] == bs[0] && xs[1] == bs[1] && xs[2..] == [];
    var head := OpcodeEvent(off, bs[0]);
    var r := Regs(bs[1] / 16, bs[1] % 16);
    assert Disasm(off + 2, xs[2..]) == [];
    assert Disasm(off, xs) == [head, r] + [];
    assert [head, r][1..] == [r] && [r][1..] == [];
    assert LineEnds([head, r]) == LineEnds([r]) == 1;
  }

  lemma JumpLine(off: nat, bs: seq<Byte>)
    requires |bs| >= 5 && IsJumpOp(bs[0])
    ensures OneLine(off, bs, 5)
  {
    var xs := bs[..5];
    assert xs[0] == bs[0] && xs[1..5] == bs[1..5] && xs[5..] == [];
    var head := OpcodeEvent(off, bs[0]);
    var a := Addr(BigEndian(bs[1..5]));
    assert Disasm(off + 5, xs[5..]) == [];
    assert Disasm(off, xs) == [head, a] + [];
    assert [head, a][1..] == [a] && [a][1..] == [];
    assert LineEnds([head, a]) == LineEnds([a]) == 1;
  }

  lemma MovLine(off: nat, bs: seq<Byte>)
    requires |bs| >= 6 && bs[0] == 0x30
    ensures OneLine(off, bs, 6)
  {
    var xs := bs[..6];
    assert xs[0] == bs[0] && xs[1] == bs[1] && xs[2..6] == bs[2..6] && xs[6..] == [];
    var head := OpcodeEvent(off, bs[0]);
    var m := MovRegs(bs[1] / 16, bs[1] % 16);
    var a := Addr(BigEndian(bs[2..6]));
    assert Disasm(off + 6, xs[6..]) == [];
    assert Disasm(off, xs) == [head, m, a] + [];
    assert [head, m, a] + [] == [head, m, a];
    assert [head, m, a][1..] == [m, a] && [m, a][1..] == [a] && [a][1..] == [];
    assert LineEnds([head, m, a]) == LineEnds([m, a]) == LineEnds([a]) == 1;
  }

  lemma Pow16Eight()
    ensures Pow16(8) == 0x1_0000_0000
  {
    assert Pow16(2) == 256;
    assert Pow16(4) == 256 * Pow16(2);
  }

  /** `{:08x}`: an address prints as exactly eight hex digits that read back as the address. */
  lemma AddressField(v: U32)
    ensures var s := Render(Addr(v));
            && |s| == 9 && s[8] == '\n'
            && AllHexDigits(s[..8]) && HexValue(s[..8]) == v
  {
    Pow16Eight();
    PadHexLength(v, 8);
    PadHexValue(v, 8);
    var s := Render(Addr(v));
    assert s[..8] == PadHex(v, 8);
  }

  /** `{:02x}`: a label or HALT at an offset below 0x100 starts with two hex digits that read back as the offset, then ": ". */
  lemma OffsetField(e: Event)
    requires (e.Halt? || e.Label?) && e.off < 0x100
    ensures var s := Render(e);
            && |s| >= 4 && AllHexDigits(s[..2]) && HexValue(s[..2]) == e.off
            && s[2..4] == ": "
  {
    assert Pow16(2) == 256;
    PadHexLength(e.off, 2);
    PadHexValue(e.off, 2);
    var s := Render(e);
    assert s[..2] == PadHex(e.off, 2);
  }

  /** `r{:x}`: register numbers taken from a byte's two nibbles print as one hex digit each. */
  lemma RegisterFields(b: Byte)
    ensures var s := Render(Regs(b / 16, b % 16));
            && |s| == 7 && s[0] == 'r' && s[2..5] == ", r" && s[6] == '\n'
            && IsHexDigit(s[1]) && CharToNibble(s[1]) == b / 16
            && IsHexDigit(s[5]) && CharToNibble(s[5]) == b % 16
    ensures var s := Render(MovRegs(b / 16, b % 16));
            && |s| == 11 && s[0] == 'r' && s[2..6] == " & r" && s[7..] == " <= "
            && IsHexDigit(s[1]) && CharToNibble(s[1]) == b / 16
            && IsHexDigit(s[6]) && CharToNibble(s[6]) == b % 16
  {
    NibbleRoundTrip(b / 16);
    NibbleRoundTrip(b % 16);
  }

  /** The error line names the unknown opcode as two hex digits that read back as the opcode. */
  lemma UnknownField(op: Byte)
    ensures var s := Render(Unknown(op));
            && |s| == 31 && s[..24] == "error: don't know what '"
            && AllHexDigits(s[24..26]) && HexValue(s[24..26]) == op
            && s[26..] == "' is\n"
  {
    assert Pow16(2) == 256;
    PadHexLength(op, 2);
    PadHexValue(op, 2);
    var s := Render(Unknown(op));
    assert s[24..26] == PadHex(op, 2);
  }

  lemma TwoDigitsExamples()
    ensures PadHex(0x00, 2) == "00" && PadHex(0x02, 2) == "02" && PadHex(0xff, 2) == "ff"
    ensures PadHex(0x10, 8) == "00000010"
  {
    assert HexDigits(0) == "0" && HexDigits(2) == "2";
    assert HexDigits(15) == "f" && HexDigits(0xff) == HexDigits(15) + "f";
    assert HexDigits(1) == "1" && HexDigits(0x10) == HexDigits(1) + "0";
    assert Zeros(1) == "0";
    assert Zeros(6) == "000000";
  }

  lemma ListingPair(a: Event, b: Event)
    ensures Listing([a, b]) == Render(a) + Render(b)
  {
    var ra := Render(a);
    var rb := Render(b);
    assert [a, b][1..] == [b] && [b][1..] == [];
    assert Listing([b]) == rb + Listing([]);
    assert rb + [] == rb;
    assert Listing([a, b]) == ra + Listing([b]);
  }

  /** A lone HALT byte prints one line. */
  lemma HaltExample()
    ensures Listing(Decode([0x00])) == "00: HALT\n"
  {
    DecodeIsDisasm([0x00]);
    assert [0x00][1..] == [];
    assert Decode([0x00]) == [Halt(0)] + [];
    TwoDigitsExamples();
    assert Text(Halt(0)) == "00: HALT";
    assert Listing([Halt(0)]) == Render(Halt(0)) + [];
  }

  /** ADD with register byte 0x12 prints registers 1 and 2 on one line. */
  lemma AddExample()
    ensures Listing(Decode([0x60, 0x12])) == "00: ADD r1, r2\n"
  {
    AddDecodes();
    ListingPair(Label(0, ADD), Regs(1, 2));
    AddTexts();
    var a, b := Render(Label(0, ADD)), Render(Regs(1, 2));
    assert a == "00: ADD " && b == "r1, r2" + "\n";
    assert a + b == "00: ADD r1, r2\n";
  }

  lemma AddTexts()
    ensures Text(Label(0, ADD)) == "00: ADD " && Text(Regs(1, 2)) == "r1, r2"
  {
    TwoDigitsExamples();
    assert HexDigits(1) == "1" && HexDigits(2) == "2";
  }

  lemma AddDecodes()
    ensures Decode([0x60, 0x12]) == [Label(0, ADD), Regs(1, 2)]
  {
    var bs: seq<Byte> := [0x60, 0x12];
    DecodeIsDisasm(bs);
    assert bs[2..] == [];
    assert Disasm(0, bs) == [Label(0, ADD), Regs(1, 2)] + [];
  }

  /** JMP takes a four-byte big-endian address and prints it as eight digits. */
  lemma JumpExample()
    ensures Listing(Decode([0x70, 0x00, 0x00, 0x00, 0x10])) == "00: JMP 00000010\n"
  {
    var es := [Label(0, JMP), Addr(0x10)];
    JumpDecodes();
    JumpLists();
    assert Listing(es) == "00: JMP 00000010\n";
  }

  lemma JumpLists()
    ensures Listing([Label(0, JMP), Addr(0x10)]) == "00: JMP 00000010\n"
  {
    ListingPair(Label(0, JMP), Addr(0x10));
    JumpTexts();
    var a, b := Render(Label(0, JMP)), Render(Addr(0x10));
    assert a == "00: JMP " && b == "00000010" + "\n";
    assert a + b == "00: JMP 00000010\n";
  }

  lemma JumpTexts()
    ensures Text(Label(0, JMP)) == "00: JMP " && Text(Addr(0x10)) == "00000010"
  {
    TwoDigitsExamples();
  }

  lemma JumpDecodes()
    ensures Decode([0x70, 0x00, 0x00, 0x00, 0x10]) == [Label(0, JMP), Addr(0x10)]
  {
    var bs: seq<Byte> := [0x70, 0x00, 0x00, 0x00, 0x10];
    DecodeIsDisasm(bs);
    assert bs[5..] == [] && bs[1..5] == [0x00, 0x00, 0x00, 0x10];
    AddressExample();
    assert Disasm(0, bs) == [Label(0, JMP), Addr(BigEndian(bs[1..5]))] + Disasm(5, bs[5..]);
  }

  lemma AddressExample()
    ensures BigEndian([0x00, 0x00, 0x00, 0x10]) == 0x10
  {
    BigEndianSnoc([], 0x00);
    assert [] + [0x00] == [0x00];
    BigEndianSnoc([0x00], 0x00);
    assert [0x00] + [0x00] == [0x00, 0x00];
    BigEndianSnoc([0x00, 0x00], 0x00);
    assert [0x00, 0x00] + [0x00] == [0x00, 0x00, 0x00];
    BigEndianSnoc([0x00, 0x00, 0x00], 0x10);
    assert [0x00, 0x00, 0x00] + [0x10] == [0x00, 0x00, 0x00, 0x10];
  }

  /**
   An unknown opcode prints the error line and also takes the byte after it:
   of the two HALT bytes that follow 0xff, only the one at offset 2 is printed.
   */
  lemma UnknownExample()
    ensures Decode([0xff, 0x00, 0x00]) == [Unknown(0xff), Halt(2)]
    ensures Listing(Decode([0xff, 0x00, 0x00])) == "error: don't know what 'ff' is\n02: HALT\n"
  {
    UnknownDecodes();
    ListingPair(Unknown(0xff), Halt(2));
    TwoDigitsExamples();
    assert Text(Unknown(0xff)) == "error: don't know what 'ff' is";
    assert Text(Halt(2)) == "02: HALT";
  }

  lemma UnknownDecodes()
    ensures Decode([0xff, 0x00, 0x00]) == [Unknown(0xff), Halt(2)]
  {
    var bs: seq<Byte> := [0xff, 0x00, 0x00];
    DecodeIsDisasm(bs);
    var rest: seq<Byte> := [0x00];
    assert bs[2..] == rest && rest[1..] == [];
    assert Disasm(2, rest) == [Halt(2)] + [];
    assert Disasm(0, bs) == [Unknown(0xff)] + Disasm(2, rest);
  }
}
