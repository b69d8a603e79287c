/**
 The instruction decoder of the disassembler (`decompile` in src/main.rs).

 The decoder makes one left-to-right pass over the bytes with three mutable
 variables: the current opcode (`instruction`), the operand-byte counter
 (`index`) and a 32-bit big-endian accumulator (`val_c`). For each byte it
 prints a fragment of the listing; here each fragment is an `Event`, and the
 text of each event is given in module Listing.

 `Step` is the per-byte transition, `From` folds it over a byte sequence and
 `Decompile` is the loop itself. `Disasm` is an independent reference that
 decodes instruction by instruction from the widths of the instruction set;
 `DecodeIsDisasm` proves that the state machine and the reference agree on
 every input.
 */
module Decoder {
  import opened Hex

  /** Rust's `u32`. */
  type U32 = x: int | 0 <= x < 0x1_0000_0000

  datatype Mnemonic = MOV | ADD | SUB | AND | JMP | JLE

  /** One printed fragment of the listing. */
  datatype Event =
    | Halt(off: nat)                  // "{off:02x}: HALT" and a line break
    | Label(off: nat, m: Mnemonic)    // "{off:02x}: MOV " and the like, no line break
    | MovRegs(hi: nat, lo: nat)       // "r{hi:x} & r{lo:x} <= ", no line break
    | Regs(hi: nat, lo: nat)          // "r{hi:x}, r{lo:x}" and a line break
    | Addr(v: U32)                    // "{v:08x}" and a line break
    | Unknown(op: Byte)               // "error: don't know what '{op:02x}' is" and a line break

  /** The decoder's three loop variables between two bytes. */
  datatype Cursor = Cursor(instruction: Byte, index: nat, valC: U32)

  const Start := Cursor(0, 0, 0)

  predicate IsRegOp(op: Byte) {
    op == 0x60 || op == 0x61 || op == 0x62
  }

  predicate IsJumpOp(op: Byte) {
    op == 0x70 || op == 0x71
  }

  predicate IsKnownOp(op: Byte) {
    op == 0x00 || op == 0x30 || IsRegOp(op) || IsJumpOp(op)
  }

  /** What the decoder prints for an opcode byte at offset `off`. */
  function OpcodeEvent(off: nat, op: Byte): (e: Event)
    ensures e.Halt? || e.Label? || e.Unknown?
    ensures e.Unknown? <==> !IsKnownOp(op)
    ensures e.Halt? <==> op == 0x00
    ensures e.Label? ==> e.off == off
  {
    match op
    case 0x00 => Halt(off)
    case 0x30 => Label(off, MOV)
    case 0x60 => Label(off, ADD)
    case 0x61 => Label(off, SUB)
    case 0x62 => Label(off, AND)
    case 0x70 => Label(off, JMP)
    case 0x71 => Label(off, JLE)
    case _ => Unknown(op)
  }

  /**
   `instruction & 0x70 == 0x70`, which Rust parses as `(instruction & 0x70) == 0x70`:
   bits 4, 5 and 6 of the opcode are all set. Written arithmetically here;
   `HighBitsAsMask` shows it is the bit mask test.
   */
  predicate HighBits70(op: Byte) {
    (op / 16) % 8 == 7
  }

  lemma {:induction false} HighBitsAsMask(op: Byte)
    ensures HighBits70(op) <==> (op as bv8) & 0x70 == 0x70
  {
    var x := op as bv8;
    assert (x >> 4) as int == op / 16;
    assert (x >> 4) & 7 == ((x >> 4) as int % 8) as bv8;
  }

  /** `(val_c << 8) | b as u32`: the shift drops the top byte of the `u32`, and the freed low byte takes `b`. */
  function ShiftIn(v: U32, b: Byte): (r: U32)
    ensures v < 0x100_0000 ==> r == v * 256 + b
  {
    (v % 0x100_0000) * 256 + b
  }

  /** The decoder's handling of byte `b` at offset `off`: the new loop variables and what is printed. */
  function Step(c: Cursor, off: nat, b: Byte): (r: (Cursor, seq<Event>))
    ensures |r.1| <= 1
  {
    if c.index == 0 then
      // the opcode byte; `index = 0` on an unknown opcode is undone by the `index += 1` that follows
      (Cursor(b, if b != 0x00 then 1 else 0, 0), [OpcodeEvent(off, b)])
    else if c.index == 1 then
      if c.instruction == 0x30 then
        (c.(index := c.index + 1), [MovRegs(b / 16, b % 16)])
      else if IsRegOp(c.instruction) then
        (c.(index := 0), [Regs(b / 16, b % 16)])
      else if IsJumpOp(c.instruction) then
        (Cursor(c.instruction, c.index + 1, b), [])
      else
        (c.(index := 0), [])
    else
      var v := ShiftIn(c.valC, b);
      var k := c.index + 1;
      if (HighBits70(c.instruction) && k == 5) || k == 6 then
        (Cursor(c.instruction, 0, v), [Addr(v)])
      else
        (Cursor(c.instruction, k, v), [])
  }

  /** Feeding `bs` to the decoder from cursor `c`, the first byte being at offset `off`. */
  function From(c: Cursor, off: nat, bs: seq<Byte>): (r: (Cursor, seq<Event>))
    decreases |bs|
  {
    if bs == [] then (c, [])
    else
      var s := Step(c, off, bs[0]);
      var r := From(s.0, off + 1, bs[1..]);
      (r.0, s.1 + r.1)
  }

  /** Everything `decompile` prints for `bs`, as events. */
  function Decode(bs: seq<Byte>): (es: seq<Event>)
    ensures |es| <= |bs|
  {
    FromLength(Start, 0, bs);
    From(Start, 0, bs).1
  }

  /** Every byte prints at most one fragment. */
  lemma {:induction false} FromLength(c: Cursor, off: nat, bs: seq<Byte>)
    ensures |From(c, off, bs).1| <= |bs|
    decreases |bs|
  {
    if bs != [] {
      var s := Step(c, off, bs[0]);
      FromLength(s.0, off + 1, bs[1..]);
    }
  }

  /** Feeding one more byte extends the run by one `Step`. */
  lemma {:induction false} FromSnoc(c: Cursor, off: nat, bs: seq<Byte>, b: Byte)
    ensures var r := From(c, off, bs);
            var s := Step(r.0, off + |bs|, b);
            From(c, off, bs + [b]) == (s.0, r.1 + s.1)
    decreases |bs|
  {
    if bs != [] {
      assert (bs + [b])[1..] == bs[1..] + [b];
      var s := Step(c, off, bs[0]);
      FromSnoc(s.0, off + 1, bs[1..], b);
      var r := From(s.0, off + 1, bs[1..]);
      var t := Step(r.0, off + |bs|, b);
      assert s.1 + (r.1 + t.1) == (s.1 + r.1) + t.1;
    } else {
      assert bs + [b] == [b] && [b][1..] == [];
      var s := Step(c, off, b);
      assert From(s.0, off + 1, []) == (s.0, []);
      assert s.1 + [] == s.1 == [] + s.1;
    }
  }

  /**
   `decompile`: one pass over the bytes, updating `instruction`, `index` and
   `val_c` per byte and emitting each printed fragment as an event. It prints
   exactly what the state machine `Decode` produces, which is the
   instruction-by-instruction listing `Disasm`.
   */
  method Decompile(bytes: array<Byte>) returns (out: seq<Event>)
    ensures out == Decode(bytes[..])
    ensures out == Disasm(0, bytes[..])
  {
    var instruction: Byte := 0;
    var index: nat := 0;
    var valC: U32 := 0;
    out := [];
    for i := 0 to bytes.Length
      invariant From(Start, 0, bytes[..i]) == (Cursor(instruction, index, valC), out)
    {
      var b := bytes[i];
      FromSnoc(Start, 0, bytes[..i], b);
      assert bytes[..i + 1] == bytes[..i] + [b];
      assert out + [] == out;
      if index == 0 {
        instruction := b;
        valC := 0;
        if instruction == 0x00 {
          out := out + [Halt(i)];
        } else if instruction == 0x30 {
          out := out + [Label(i, MOV)];
        } else if instruction == 0x60 {
          out := out + [Label(i, ADD)];
        } else if instruction == 0x61 {
          out := out + [Label(i, SUB)];
        } else if instruction == 0x62 {
          out := out + [Label(i, AND)];
        } else if instruction == 0x70 {
          out := out + [Label(i, JMP)];
        } else if instruction == 0x71 {
          out := out + [Label(i, JLE)];
        } else {
          out := out + [Unknown(instruction)];
          index := 0;
        }
        if instruction != 0x00 {
          index := index + 1;
        }
      } else if index == 1 {
        if instruction == 0x30 {
          out := out + [MovRegs(b / 16, b % 16)];
          index := index + 1;
        } else if instruction == 0x60 || instruction == 0x61 || instruction == 0x62 {
          out := out + [Regs(b / 16, b % 16)];
          index := 0;
        } else if instruction == 0x70 || instruction == 0x71 {
          valC := b;
          index := index + 1;
        } else {
          index := 0;
        }
      } else {
        valC := ShiftIn(valC, b);
        index := index + 1;
        if (HighBits70(instruction) && index == 5) || index == 6 {
          out := out + [Addr(valC)];
          index := 0;
        }
      }
    }
    assert bytes[..bytes.Length] == bytes[..];
    DecodeIsDisasm(bytes[..]);
  }

  // ---------------------------------------------------------------------
  // The reference listing, instruction by instruction

  /** The big-endian value of a byte string. */
  function BigEndian(bs: seq<Byte>): (v: nat)
    ensures |bs| <= 1 ==> v < 0x100
    ensures |bs| <= 2 ==> v < 0x1_0000
    ensures |bs| <= 3 ==> v < 0x100_0000
    ensures |bs| <= 4 ==> v < 0x1_0000_0000
  {
    if bs == [] then 0
    else
      BigEndian(bs[..|bs| - 1]) * 256 + bs[|bs| - 1]
  }

  /**
   The listing of `bs` decoded instruction by instruction, the first at offset
   `off`: HALT is 1 byte, ADD/SUB/AND are 2 (a register pair), JMP/JLE are 5
   (a 4-byte big-endian address), MOV is 6 (a register pair and a 4-byte
   big-endian value). An unknown opcode prints an error and also takes the byte
   after it, which prints nothing. A truncated last instruction prints only the
   fragments whose bytes are present.
   */
  function Disasm(off: nat, bs: seq<Byte>): (es: seq<Event>)
    ensures |es| <= |bs|
    ensures bs != [] ==> es != [] && es[0] == OpcodeEvent(off, bs[0])
    decreases |bs|
  {
    if bs == [] then []
    else
      var op := bs[0];
      var head := OpcodeEvent(off, op);
      if op == 0x00 then
        [head] + Disasm(off + 1, bs[1..])
      else if IsRegOp(op) then
        if |bs| < 2 then [head]
        else [head, Regs(bs[1] / 16, bs[1] % 16)] + Disasm(off + 2, bs[2..])
      else if IsJumpOp(op) then
        if |bs| < 5 then [head]
        else [head, Addr(BigEndian(bs[1..5]))] + Disasm(off + 5, bs[5..])
      else if op == 0x30 then
        if |bs| < 2 then [head]
        else if |bs| < 6 then [head, MovRegs(bs[1] / 16, bs[1] % 16)]
        else [head, MovRegs(bs[1] / 16, bs[1] % 16), Addr(BigEndian(bs[2..6]))] + Disasm(off + 6, bs[6..])
      else
        if |bs| < 2 then [head]
        else [head] + Disasm(off + 2, bs[2..])
  }

  /** The number of bytes an instruction that starts with `op` occupies. */
  function Width(op: Byte): (w: nat)
    ensures 1 <= w <= 6
    ensures w == 1 <==> op == 0x00
  {
    if op == 0x00 then 1
    else if IsJumpOp(op) then 5
    else if op == 0x30 then 6
    else 2
  }

  // ---------------------------------------------------------------------
  // One instruction of the state machine

  /** The decoder's state right after an instruction that started with `op` and left `v` in the accumulator. */
  function Done(op: Byte, v: U32): Cursor {
    Cursor(op, 0, v)
  }

  /** An opcode byte always resets the accumulator and records the opcode; only HALT leaves the counter at 0. */
  lemma {:induction false} OpcodeResets(c: Cursor, off: nat, b: Byte)
    requires c.index == 0
    ensures Step(c, off, b).0.instruction == b && Step(c, off, b).0.valC == 0
    ensures Step(c, off, b).0.index == 0 <==> b == 0x00
    ensures Step(c, off, b).1 == [OpcodeEvent(off, b)]
  {
  }

  /** HALT takes one byte and prints one line; the next byte is decoded as an opcode. */
  lemma {:induction false} HaltInstruction(c: Cursor, off: nat, bs: seq<Byte>)
    requires c.index == 0 && |bs| >= 1 && bs[0] == 0x00
    ensures var r := From(Done(0x00, 0), off + 1, bs[1..]);
            From(c, off, bs) == (r.0, [Halt(off)] + r.1)
  {
    var s := Step(c, off, bs[0]);
    assert s == (Done(0x00, 0), [Halt(off)]);
    var r := From(s.0, off + 1, bs[1..]);
    assert From(c, off, bs) == (r.0, s.1 + r.1);
  }

  /** ADD, SUB and AND take two bytes: the label, then the register pair of the second byte on the same line. */
  lemma {:induction false} RegInstruction(c: Cursor, off: nat, bs: seq<Byte>)
    requires c.index == 0 && |bs| >= 2 && IsRegOp(bs[0])
    ensures var r := From(Done(bs[0], 0), off + 2, bs[2..]);
            From(c, off, bs) == (r.0, [OpcodeEvent(off, bs[0]), Regs(bs[1] / 16, bs[1] % 16)] + r.1)
  {
    var op := bs[0];
    var c1 := Cursor(op, 1, 0);
    assert Step(c, off, op) == (c1, [OpcodeEvent(off, op)]);
    assert Step(c1, off + 1, bs[1]) == (Done(op, 0), [Regs(bs[1] / 16, bs[1] % 16)]);
    assert bs[1..][1..] == bs[2..];
    var r := From(Done(op, 0), off + 2, bs[2..]);
    var e := [Regs(bs[1] / 16, bs[1] % 16)] + r.1;
    assert From(c1, off + 1, bs[1..]) == (r.0, e);
    assert [OpcodeEvent(off, op)] + e == [OpcodeEvent(off, op), Regs(bs[1] / 16, bs[1] % 16)] + r.1;
  }

  /**
   JMP and JLE take five bytes: the label, then the four bytes after the
   opcode printed once, as one big-endian 32-bit address.
   */
  lemma {:induction false} JumpInstruction(c: Cursor, off: nat, bs: seq<Byte>)
    requires c.index == 0 && |bs| >= 5 && IsJumpOp(bs[0])
    ensures var v := BigEndian(bs[1..5]);
            var r := From(Done(bs[0], v), off + 5, bs[5..]);
            From(c, off, bs) == (r.0, [OpcodeEvent(off, bs[0]), Addr(v)] + r.1)
  {
    var op := bs[0];
    assert HighBits70(op);
    JumpPrefix(c, off, bs, 4);
    var v := BigEndian(bs[1..5]);
    BigEndianSnoc(bs[1..4], bs[4]);
    assert bs[1..4] + [bs[4]] == bs[1..5];
    var c4 := Cursor(op, 4, BigEndian(bs[1..4]));
    CompleteStep(c4, off + 4, bs[4]);
    FromSplit(c, off, bs[..4], bs[4..]);
    assert bs[..4] + bs[4..] == bs;
    assert bs[4..][1..] == bs[5..];
    var r := From(Done(op, v), off + 5, bs[5..]);
    assert From(c4, off + 4, bs[4..]) == (r.0, [Addr(v)] + r.1);
    assert [OpcodeEvent(off, op)] + ([Addr(v)] + r.1) == [OpcodeEvent(off, op), Addr(v)] + r.1;
  }

  /**
   MOV takes six bytes: the label, the register pair of the second byte, then
   the last four bytes printed once as one big-endian 32-bit value.
   */
  lemma {:induction false} MovInstruction(c: Cursor, off: nat, bs: seq<Byte>)
    requires c.index == 0 && |bs| >= 6 && bs[0] == 0x30
    ensures var v := BigEndian(bs[2..6]);
            var r := From(Done(0x30, v), off + 6, bs[6..]);
            From(c, off, bs) == (r.0, [Label(off, MOV), MovRegs(bs[1] / 16, bs[1] % 16), Addr(v)] + r.1)
  {
    assert !HighBits70(0x30);
    MovPrefix(c, off, bs, 5);
    var v := BigEndian(bs[2..6]);
    BigEndianSnoc(bs[2..5], bs[5]);
    assert bs[2..5] + [bs[5]] == bs[2..6];
    var c5 := Cursor(0x30, 5, BigEndian(bs[2..5]));
    CompleteStep(c5, off + 5, bs[5]);
    FromSplit(c, off, bs[..5], bs[5..]);
    assert bs[..5] + bs[5..] == bs;
    assert bs[5..][1..] == bs[6..];
    var r := From(Done(0x30, v), off + 6, bs[6..]);
    assert From(c5, off + 5, bs[5..]) == (r.0, [Addr(v)] + r.1);
    var pre := [Label(off, MOV), MovRegs(bs[1] / 16, bs[1] % 16)];
    assert pre + ([Addr(v)] + r.1) == pre + [Addr(v)] + r.1;
    assert pre + [Addr(v)] == [Label(off, MOV), MovRegs(bs[1] / 16, bs[1] % 16), Addr(v)];
  }

  /**
   An opcode outside the instruction set prints an error line, and the byte
   after it is swallowed without output: decoding resumes two bytes later.
   */
  lemma {:induction false} UnknownInstruction(c: Cursor, off: nat, bs: seq<Byte>)
    requires c.index == 0 && |bs| >= 2 && !IsKnownOp(bs[0])
    ensures var r := From(Done(bs[0], 0), off + 2, bs[2..]);
            From(c, off, bs) == (r.0, [Unknown(bs[0])] + r.1)
  {
    var op := bs[0];
    var c1 := Cursor(op, 1, 0);
    assert Step(c, off, op) == (c1, [Unknown(op)]);
    assert Step(c1, off + 1, bs[1]) == (Done(op, 0), []);
    assert bs[1..][1..] == bs[2..];
    var r := From(Done(op, 0), off + 2, bs[2..]);
    assert [] + r.1 == r.1;
    assert From(c1, off + 1, bs[1..]) == r;
  }

  /** Running over `xs + ys` runs over `xs`, then over `ys` from where `xs` left off. */
  lemma {:induction false} FromSplit(c: Cursor, off: nat, xs: seq<Byte>, ys: seq<Byte>)
    ensures var a := From(c, off, xs);
            var b := From(a.0, off + |xs|, ys);
            From(c, off, xs + ys) == (b.0, a.1 + b.1)
    decreases |xs|
  {
    if xs == [] {
      assert xs + ys == ys;
      assert [] + From(c, off, ys).1 == From(c, off, ys).1;
    } else {
      assert (xs + ys)[1..] == xs[1..] + ys;
      var s := Step(c, off, xs[0]);
      FromSplit(s.0, off + 1, xs[1..], ys);
      var a := From(s.0, off + 1, xs[1..]);
      var b := From(a.0, off + |xs|, ys);
      assert From(c, off, xs) == (a.0, s.1 + a.1);
      assert From(s.0, off + 1, xs[1..] + ys) == (b.0, a.1 + b.1);
      assert From(c, off, xs + ys) == (b.0, s.1 + (a.1 + b.1));
      assert s.1 + (a.1 + b.1) == (s.1 + a.1) + b.1;
    }
  }

  lemma {:induction false} BigEndianSnoc(bs: seq<Byte>, b: Byte)
    ensures BigEndian(bs + [b]) == BigEndian(bs) * 256 + b
  {
    assert (bs + [b])[..|bs|] == bs;
  }

  /** The counter value at which the accumulated operand is printed. */
  function Threshold(op: Byte): nat {
    if HighBits70(op) then 5 else 6
  }

  /** An operand byte past the first one that does not complete the instruction is shifted into the accumulator. */
  lemma {:induction false} AccumulateStep(c: Cursor, off: nat, b: Byte)
    requires 2 <= c.index && c.index + 1 < Threshold(c.instruction) && c.valC < 0x100_0000
    ensures Step(c, off, b) == (Cursor(c.instruction, c.index + 1, c.valC * 256 + b), [])
  {
  }

  /** The operand byte that reaches the threshold completes the instruction and prints the accumulated value. */
  lemma {:induction false} CompleteStep(c: Cursor, off: nat, b: Byte)
    requires 2 <= c.index && c.index + 1 == Threshold(c.instruction) && c.valC < 0x100_0000
    ensures Step(c, off, b) == (Done(c.instruction, c.valC * 256 + b), [Addr(c.valC * 256 + b)])
  {
  }

  /** `AccumulateStep` with the accumulator holding the big-endian value of the operand bytes read so far. */
  lemma {:induction false} AccumulateOperand(op: Byte, k: nat, xs: seq<Byte>, off: nat, b: Byte)
    requires 2 <= k && k + 1 < Threshold(op) && |xs| <= 2
    ensures Step(Cursor(op, k, BigEndian(xs)), off, b) == (Cursor(op, k + 1, BigEndian(xs + [b])), [])
  {
    var v := BigEndian(xs);
    assert v < 0x1_0000;
    AccumulateStep(Cursor(op, k, v), off, b);
    BigEndianSnoc(xs, b);
    assert BigEndian(xs + [b]) == v * 256 + b;
  }

  /**
   The first `k` bytes of a JMP or JLE (1 <= k <= 4): only the label is
   printed, the decoder is mid-instruction with `k` bytes counted, and the
   accumulator holds the address bytes read so far.
   */
  lemma {:induction false} JumpPrefix(c: Cursor, off: nat, bs: seq<Byte>, k: nat)
    requires c.index == 0 && 1 <= k <= 4 && k <= |bs| && IsJumpOp(bs[0])
    ensures From(c, off, bs[..k]) == (Cursor(bs[0], k, BigEndian(bs[1..k])), [OpcodeEvent(off, bs[0])])
    decreases k
  {
    if k == 1 {
      OpcodeOnly(c, off, bs);
      assert bs[1..1] == [];
    } else if k == 2 {
      JumpPrefix(c, off, bs, 1);
      JumpAddressStart(c, off, bs);
    } else {
      JumpPrefix(c, off, bs, k - 1);
      JumpAddressMore(c, off, bs, k);
    }
  }

  /** The second byte of a JMP or JLE starts the address and prints nothing. */
  lemma {:induction false} JumpAddressStart(c: Cursor, off: nat, bs: seq<Byte>)
    requires c.index == 0 && 2 <= |bs| && IsJumpOp(bs[0])
    requires From(c, off, bs[..1]) == (Cursor(bs[0], 1, BigEndian(bs[1..1])), [OpcodeEvent(off, bs[0])])
    ensures From(c, off, bs[..2]) == (Cursor(bs[0], 2, BigEndian(bs[1..2])), [OpcodeEvent(off, bs[0])])
  {
    var op := bs[0];
    var prev := Cursor(op, 1, BigEndian(bs[1..1]));
    var next := Cursor(op, 2, BigEndian(bs[1..2]));
    assert bs[1..1] == [] && bs[1..2] == [] + [bs[1]];
    BigEndianSnoc([], bs[1]);
    assert bs[..2] == bs[..1] + [bs[1]];
    QuietSnoc(c, off, bs[..1], bs[1], prev, [OpcodeEvent(off, op)], next);
  }

  /** The third and fourth bytes of a JMP or JLE are shifted into the address and print nothing. */
  lemma {:induction false} JumpAddressMore(c: Cursor, off: nat, bs: seq<Byte>, k: nat)
    requires c.index == 0 && 3 <= k <= 4 && k <= |bs| && IsJumpOp(bs[0])
    requires From(c, off, bs[..k - 1]) == (Cursor(bs[0], k - 1, BigEndian(bs[1..k - 1])), [OpcodeEvent(off, bs[0])])
    ensures From(c, off, bs[..k]) == (Cursor(bs[0], k, BigEndian(bs[1..k])), [OpcodeEvent(off, bs[0])])
  {
    var op := bs[0];
    var prev := Cursor(op, k - 1, BigEndian(bs[1..k - 1]));
    var next := Cursor(op, k, BigEndian(bs[1..k]));
    assert bs[1..k - 1] + [bs[k - 1]] == bs[1..k];
    assert HighBits70(op);
    AccumulateOperand(op, k - 1, bs[1..k - 1], off + k - 1, bs[k - 1]);
    assert bs[..k] == bs[..k - 1] + [bs[k - 1]];
    QuietSnoc(c, off, bs[..k - 1], bs[k - 1], prev, [OpcodeEvent(off, op)], next);
  }

  /**
   The first `k` bytes of a MOV (1 <= k <= 5): the label, then from the second
   byte on the register pair; the decoder is mid-instruction with `k` bytes
   counted, and the accumulator holds the value bytes read so far.
   */
  lemma {:induction false} MovPrefix(c: Cursor, off: nat, bs: seq<Byte>, k: nat)
    requires c.index == 0 && 1 <= k <= 5 && k <= |bs| && bs[0] == 0x30
    ensures From(c, off, bs[..k]) ==
            if k == 1 then (Cursor(0x30, 1, 0), [Label(off, MOV)])
            else (Cursor(0x30, k, BigEndian(bs[2..k])), [Label(off, MOV), MovRegs(bs[1] / 16, bs[1] % 16)])
  {
    if k == 1 {
      OpcodeOnly(c, off, bs);
    } else if k == 2 {
      MovRegisters(c, off, bs);
    } else {
      MovPrefix(c, off, bs, k - 1);
      MovOperandMore(c, off, bs, k);
    }
  }

  /** The second byte of a MOV names its two registers; the operand is still empty. */
  lemma {:induction false} MovRegisters(c: Cursor, off: nat, bs: seq<Byte>)
    requires c.index == 0 && 2 <= |bs| && bs[0] == 0x30
    ensures From(c, off, bs[..2]) == (Cursor(0x30, 2, BigEndian(bs[2..2])), [Label(off, MOV), MovRegs(bs[1] / 16, bs[1] % 16)])
  {
    OpcodeOnly(c, off, bs);
    var prev := Cursor(0x30, 1, 0);
    var next := Cursor(0x30, 2, 0);
    assert bs[2..2] == [];
    assert Step(prev, off + 1, bs[1]) == (next, [MovRegs(bs[1] / 16, bs[1] % 16)]);
    FromSnoc(c, off, bs[..1], bs[1]);
    assert bs[..2] == bs[..1] + [bs[1]];
    assert [Label(off, MOV)] + [MovRegs(bs[1] / 16, bs[1] % 16)] == [Label(off, MOV), MovRegs(bs[1] / 16, bs[1] % 16)];
    assert BigEndian(bs[2..2]) == 0;
  }

  /** Bytes three to five of a MOV are shifted into the operand and print nothing. */
  lemma {:induction false} MovOperandMore(c: Cursor, off: nat, bs: seq<Byte>, k: nat)
    requires c.index == 0 && 3 <= k <= 5 && k <= |bs| && bs[0] == 0x30
    requires From(c, off, bs[..k - 1]) ==
             (Cursor(0x30, k - 1, BigEndian(bs[2..k - 1])), [Label(off, MOV), MovRegs(bs[1] / 16, bs[1] % 16)])
    ensures From(c, off, bs[..k]) ==
            (Cursor(0x30, k, BigEndian(bs[2..k])), [Label(off, MOV), MovRegs(bs[1] / 16, bs[1] % 16)])
  {
    var prev := Cursor(0x30, k - 1, BigEndian(bs[2..k - 1]));
    var next := Cursor(0x30, k, BigEndian(bs[2..k]));
    assert bs[2..k - 1] + [bs[k - 1]] == bs[2..k];
    assert !HighBits70(0x30);
    AccumulateOperand(0x30, k - 1, bs[2..k - 1], off + k - 1, bs[k - 1]);
    assert bs[..k] == bs[..k - 1] + [bs[k - 1]];
    QuietSnoc(c, off, bs[..k - 1], bs[k - 1], prev, [Label(off, MOV), MovRegs(bs[1] / 16, bs[1] % 16)], next);
  }

  /** The opcode byte alone: its label or error line, and the counter at 1 (0 for HALT). */
  lemma {:induction false} OpcodeOnly(c: Cursor, off: nat, bs: seq<Byte>)
    requires c.index == 0 && |bs| >= 1
    ensures From(c, off, bs[..1]) == (Cursor(bs[0], if bs[0] == 0x00 then 0 else 1, 0), [OpcodeEvent(off, bs[0])])
  {
    var s := Step(c, off, bs[0]);
    assert bs[..1] == [bs[0]] && bs[..1][1..] == [];
    assert From(s.0, off + 1, []) == (s.0, []);
    assert s.1 + [] == s.1;
  }

  /** A byte that prints nothing only moves the decoder to its next state. */
  lemma {:induction false} QuietSnoc(c: Cursor, off: nat, xs: seq<Byte>, b: Byte, p: Cursor, e: seq<Event>, q: Cursor)
    requires From(c, off, xs) == (p, e) && Step(p, off + |xs|, b) == (q, [])
    ensures From(c, off, xs + [b]) == (q, e)
  {
    FromSnoc(c, off, xs, b);
    assert e + [] == e;
  }

  // ---------------------------------------------------------------------
  // The state machine agrees with the reference

  /**
   From any instruction boundary (counter 0, whatever opcode and accumulator
   the previous instruction left), the decoder prints exactly the reference
   listing of the remaining bytes.
   */
  lemma {:induction false} BoundaryMatchesDisasm(c: Cursor, off: nat, bs: seq<Byte>)
    requires c.index == 0
    ensures From(c, off, bs).1 == Disasm(off, bs)
    decreases |bs|
  {
    if bs != [] {
      var op := bs[0];
      if |bs| < Width(op) {
        Truncated(c, off, bs);
      } else if op == 0x00 {
        HaltInstruction(c, off, bs);
        BoundaryMatchesDisasm(Done(op, 0), off + 1, bs[1..]);
      } else if IsRegOp(op) {
        RegInstruction(c, off, bs);
        BoundaryMatchesDisasm(Done(op, 0), off + 2, bs[2..]);
      } else if IsJumpOp(op) {
        JumpInstruction(c, off, bs);
        BoundaryMatchesDisasm(Done(op, BigEndian(bs[1..5])), off + 5, bs[5..]);
      } else if op == 0x30 {
        MovInstruction(c, off, bs);
        BoundaryMatchesDisasm(Done(op, BigEndian(bs[2..6])), off + 6, bs[6..]);
      } else {
        UnknownInstruction(c, off, bs);
        BoundaryMatchesDisasm(Done(op, 0), off + 2, bs[2..]);
      }
    }
  }

  /**
   A stream that ends inside an instruction: the decoder is left
   mid-instruction (counter not 0), its label (or error line) and, for MOV, its
   register pair are printed, and no completion fragment and no error follow.
   */
  lemma {:induction false} Truncated(c: Cursor, off: nat, bs: seq<Byte>)
    requires c.index == 0 && 1 <= |bs| < Width(bs[0])
    ensures From(c, off, bs).0.index == |bs|
    ensures From(c, off, bs).1 == Disasm(off, bs)
    ensures From(c, off, bs).1 ==
            if bs[0] == 0x30 && |bs| >= 2 then [Label(off, MOV), MovRegs(bs[1] / 16, bs[1] % 16)]
            else [OpcodeEvent(off, bs[0])]
  {
    var op := bs[0];
    assert bs[..|bs|] == bs;
    if IsJumpOp(op) {
      JumpPrefix(c, off, bs, |bs|);
    } else if op == 0x30 {
      MovPrefix(c, off, bs, |bs|);
    } else {
      assert |bs| == 1;
    }
  }

  /** `decompile` prints, for every byte stream, exactly the instruction-by-instruction listing. */
  lemma {:induction false} DecodeIsDisasm(bs: seq<Byte>)
    ensures Decode(bs) == Disasm(0, bs)
  {
    BoundaryMatchesDisasm(Start, 0, bs);
  }

  /**
   Every instruction occupies exactly `Width` bytes: feeding its first `k`
   bytes leaves the counter at 0 when `k` is the width and never before.
   */
  lemma {:induction false} InstructionWidth(c: Cursor, off: nat, bs: seq<Byte>, k: nat)
    requires c.index == 0 && 1 <= k <= |bs| && k <= Width(bs[0])
    ensures From(c, off, bs[..k]).0.index == 0 <==> k == Width(bs[0])
  {
    var op := bs[0];
    var w := Width(op);
    if k < w {
      Truncated(c, off, bs[..k]);
    } else {
      var xs := bs[..k];
      assert xs[k..] == [];
      if op == 0x00 {
        HaltInstruction(c, off, xs);
      } else if IsRegOp(op) {
        RegInstruction(c, off, xs);
      } else if IsJumpOp(op) {
        JumpInstruction(c, off, xs);
      } else if op == 0x30 {
        MovInstruction(c, off, xs);
      } else {
        UnknownInstruction(c, off, xs);
      }
    }
  }

  // ---------------------------------------------------------------------
  // The loop variables between two bytes

  /**
   The counter stays in 0..5; only MOV, JMP and JLE get past operand byte 1,
   and JMP and JLE never past 4.
   */
  predicate Inv(c: Cursor) {
    c.index <= 5
    && (c.index >= 2 ==> c.instruction == 0x30 || IsJumpOp(c.instruction))
    && (c.index >= 2 && IsJumpOp(c.instruction) ==> c.index <= 4)
  }

  lemma {:induction false} StepKeepsInv(c: Cursor, off: nat, b: Byte)
    requires Inv(c)
    ensures Inv(Step(c, off, b).0)
  {
    if c.index >= 2 && IsJumpOp(c.instruction) {
      assert HighBits70(c.instruction);
    }
    if c.index >= 2 && c.instruction == 0x30 {
      assert !HighBits70(c.instruction);
    }
  }

  lemma {:induction false} FromKeepsInv(c: Cursor, off: nat, bs: seq<Byte>)
    requires Inv(c)
    ensures Inv(From(c, off, bs).0)
    decreases |bs|
  {
    if bs != [] {
      StepKeepsInv(c, off, bs[0]);
      FromKeepsInv(Step(c, off, bs[0]).0, off + 1, bs[1..]);
    }
  }

  /** After any prefix of any stream, the counter is in 0..5. */
  lemma {:induction false} CounterBounded(bs: seq<Byte>)
    ensures From(Start, 0, bs).0.index <= 5
  {
    FromKeepsInv(Start, 0, bs);
  }
}
