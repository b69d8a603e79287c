# cpsc121-decomp in Dafny

A model of the disassembler in `src/main.rs`, for a toy instruction set of six
opcodes. The program reads a text file of whitespace-separated hexadecimal
byte tokens. It converts them to bytes and walks the bytes once with a small
state machine, printing one listing line per instruction:

| opcode | mnemonic | width | printed |
|---|---|---|---|
| `00` | HALT | 1 | `oo: HALT` |
| `30` | MOV | 6 | `oo: MOV rA & rB <= vvvvvvvv` |
| `60` `61` `62` | ADD SUB AND | 2 | `oo: ADD rA, rB` |
| `70` `71` | JMP JLE | 5 | `oo: JMP vvvvvvvv` |
| other | — | 2 | `error: don't know what 'xx' is` |

Here `oo` is the byte offset and `vvvvvvvv` a 32-bit big-endian operand.

The project has three modules:

- `Hex` (`hex.dfy`) models the input side and the hexadecimal renderings:
  - `c_to_hex` is `CharToNibble`.
  - `to_hex` is the method `ToHex`. Its loop, including the UTF-8 byte length that seeds its counter, is proved against the positional value `HexValue`.
  - `get_bytes` is `GetBytes`, over a model of `split_whitespace`.
  - Rust's `{:x}`, `{:02x}` and `{:08x}` are `HexDigits` and `PadHex`.
- `Decoder` (`decoder.dfy`) models `decompile`:
  - `Step` is the pure per-byte transition over the three loop variables (`Cursor`), and `From` folds it over a byte sequence.
  - `Decompile` is the loop itself over an array, proved to print exactly `Decode(bytes)`.
  - `Disasm` is an independent reference listing that works instruction by instruction from the widths in the table above.
  - `DecodeIsDisasm` proves that the state machine and the reference agree on every byte stream.
- `Listing` (`listing.dfy`) gives the text of every printed fragment. It proves:
  - the output's line structure: one line per complete instruction;
  - each field reads back as the value it prints;
  - the worked examples.

## Model

| member | source | states |
|---|---|---|
| Hex.CharToNibble | src/main.rs:14-20 | the result is below 16; a character in `0`-`9` or `a`-`f` maps to the nibble whose digit it is; every other character maps to 0 |
| Hex.NibbleRoundTrip | src/main.rs:14-20 | `c_to_hex` inverts the lower-case digit of every nibble |
| Hex.ToHexExamples | src/main.rs:9-28 | the documented values: `'a'` is 10, `'1'` is 1, `'%'` is 0, `"10"` is 16, `"ff"` is 255 |
| Hex.HexValue | src/main.rs:30-40 | the positional value of a digit string is below 16 to the power of its length |
| Hex.CharUtf8Len | src/main.rs:31 | a character takes one to four bytes in UTF-8, and exactly one when it is ASCII |
| Hex.Utf8Len | src/main.rs:31 | `str::len` counts UTF-8 bytes: at least the number of characters, and equal to it exactly when every character is ASCII |
| Hex.ShortNonAsciiIsZero | src/main.rs:31-37 | a token of at most two bytes that has fewer characters than bytes is worth 0 |
| Hex.WeightedDigit | src/main.rs:35-36 | one loop round: the weight `16^i` and the term `16^i * c_to_hex(c)` fit in a `u8`, and adding the term extends the running value by one digit |
| Hex.FinalWeight | src/main.rs:33-39 | when the loop ends, any weight left over from a multi-byte character leaves the value unchanged, since such a character is worth 0 |
| Hex.ToHex | src/main.rs:30-40 | the loop panics (`None`) exactly when the token is longer than two UTF-8 bytes; otherwise it returns the token's positional hexadecimal value, with no `u8` overflow on the way |
| Hex.ByteToken | src/main.rs:42-51 | renders a byte in the input file format that `get_bytes` reads (used by `GetBytesRoundTrip`): every byte has a two-character token of hexadecimal digits |
| Hex.TokenRoundTrip | src/main.rs:30-40 | `to_hex` reads a byte's two-digit token back as that byte |
| Hex.TokenRoundTripBack | src/main.rs:30-40 | every two-digit token is the token of the byte `to_hex` gives it |
| Hex.TokenLen | src/main.rs:50 | the length of the longest whitespace-free prefix: everything before it is not whitespace, and the character at it is |
| Hex.Split | src/main.rs:50 | `split_whitespace` yields only non-empty, whitespace-free tokens; `SplitSeparated` and `GapsSplit` pin down which ones |
| Hex.IsWhitespace | src/main.rs:50 | the separators of `split_whitespace`: space, tab, line feed and carriage return are among them, and no hexadecimal digit is |
| Hex.SplitSkipsWhitespace | src/main.rs:50 | leading whitespace of any length is skipped |
| Hex.SplitToken | src/main.rs:50 | a token followed by whitespace or the end of the text is split off as the first token |
| Hex.SplitSeparated | src/main.rs:50 | for any non-empty, whitespace-free tokens and any whitespace runs between them (non-empty inside, possibly empty at the ends), splitting the interleaved text gives exactly the tokens |
| Hex.GapsSplit | src/main.rs:50 | every text is its tokens interleaved with its whitespace runs, so `Split` loses only whitespace |
| Hex.WidenFirstGap | src/main.rs:50 | one more leading whitespace character keeps a text's decomposition into tokens and runs, widening the first run |
| Hex.PrependToken | src/main.rs:50 | a token in front of a decomposed text becomes its first token, with an empty leading run |
| Hex.SplitExample | src/main.rs:49-51 | line breaks, tabs and runs of spaces separate `"10\n\n ff\t"` into `"10"` and `"ff"` |
| Hex.SplitJoin | src/main.rs:50 | splitting the space-separated join of non-empty whitespace-free tokens gives the tokens back |
| Hex.HexTokens | src/main.rs:50 | mapping `to_hex` over tokens succeeds exactly when every token is at most two bytes; then each byte is the value of the token at the same position |
| Hex.GetBytes | src/main.rs:49-51 | one byte per whitespace-separated token, in order, each the token's value; a panic exactly when some token is longer than two bytes |
| Hex.Tokens | src/main.rs:42-51 | renders a byte sequence in the input file format that `get_bytes` reads (used by `GetBytesRoundTrip`): one two-digit token per byte, in order |
| Hex.GetBytesRoundTrip | src/main.rs:42-51 | writing any byte sequence as space-separated two-digit tokens and reading it with `get_bytes` gives the same bytes |
| Hex.GetBytesExample | src/main.rs:46-47 | `get_bytes("10 ff")` is `[16, 255]` |
| Hex.GetBytesLinesExample | src/main.rs:49-51 | `get_bytes` of the same tokens split over lines, tabs and several spaces is also `[16, 255]` |
| Hex.HexTokensExample | src/main.rs:46-50 | mapping `to_hex` over `"10"` and `"ff"` gives `[16, 255]` |
| Hex.GetBytesOverflowExample | src/main.rs:36 | a three-digit token makes `get_bytes` panic |
| Hex.HexDigits | src/main.rs:108 | `{:x}` prints a non-empty string of lower-case hexadecimal digits |
| Hex.HexDigitsValue | src/main.rs:108 | `{:x}` of `n` reads back as `n` |
| Hex.PadHex | src/main.rs:83 | `{:0w$x}` prints hexadecimal digits only, `w` of them or the unpadded length if that is longer |
| Hex.PadHexValue | src/main.rs:132 | a zero-padded rendering reads back as the number it renders |
| Hex.PadHexLength | src/main.rs:132 | a number below `16^w` pads to exactly `w` digits |
| Decoder.OpcodeEvent | src/main.rs:82-96 | an opcode byte prints a HALT line, a mnemonic label or an error line; the error exactly for bytes other than the six opcodes, HALT exactly for `00`, and the label carries the offset |
| Decoder.HighBitsAsMask | src/main.rs:131 | the arithmetic test `HighBits70` is `(instruction & 0x70) == 0x70` on the byte |
| Decoder.ShiftIn | src/main.rs:128 | shifting `val_c` left by 8 bits within a `u32` and or-ing in `b`: while the accumulator holds at most three bytes it is `val_c * 256 + b` |
| Decoder.Step | src/main.rs:77-135 | one iteration of the loop body prints at most one fragment; `OpcodeResets`, `AccumulateStep`, `CompleteStep` and `StepKeepsInv` state what it does per counter value |
| Decoder.From | src/main.rs:76-136 | the whole loop over a byte sequence; `FromSnoc`, `FromSplit` and `FromKeepsInv` state how it composes and what it keeps |
| Decoder.FromLength | src/main.rs:76-136 | every byte prints at most one fragment, so a run prints no more fragments than it reads bytes |
| Decoder.Decode | src/main.rs:72-137 | what `decompile` prints for a stream, as fragments: at most one per byte, and by `DecodeIsDisasm` exactly the instruction-by-instruction listing |
| Decoder.Disasm | src/main.rs:72-137 | the instruction-by-instruction reading of a stream: a non-empty stream starts with its first opcode's fragment, and there is at most one fragment per byte |
| Decoder.FromSnoc | src/main.rs:76-136 | one more byte extends the run by exactly one step of the loop body |
| Decoder.Decompile | src/main.rs:72-137 | the loop prints exactly the state machine's events, which are exactly the instruction-by-instruction listing |
| Decoder.BigEndian | src/main.rs:120-128 | the big-endian value of at most 1, 2, 3 or 4 bytes is below 2^8, 2^16, 2^24 or 2^32 |
| Decoder.Width | src/main.rs:77-134 | every instruction takes 1 to 6 bytes, and only HALT takes one |
| Decoder.OpcodeResets | src/main.rs:77-100 | an opcode byte prints its opcode fragment, records the opcode and clears the accumulator; the counter stays 0 only for HALT, including after an unknown opcode |
| Decoder.OpcodeOnly | src/main.rs:77-100 | an opcode byte alone prints its label or error line and leaves the counter at 1, or at 0 for HALT |
| Decoder.HaltInstruction | src/main.rs:83 | HALT takes one byte, prints one HALT line with its offset, and the next byte is an opcode |
| Decoder.RegInstruction | src/main.rs:112-118 | ADD/SUB/AND take two bytes and print the label and the register pair from the second byte's nibbles; the next byte is an opcode |
| Decoder.JumpInstruction | src/main.rs:119-134 | JMP/JLE take five bytes and print the label and the big-endian value of bytes 1 to 4 |
| Decoder.MovInstruction | src/main.rs:105-134 | MOV takes six bytes and prints the label, the register pair from byte 1 and the big-endian value of bytes 2 to 5 |
| Decoder.UnknownInstruction | src/main.rs:92-124 | an unknown opcode prints the error line and also consumes the byte after it, which prints nothing |
| Decoder.FromSplit | src/main.rs:76-136 | running over `xs + ys` is running over `xs` and then over `ys` from where `xs` left off |
| Decoder.AccumulateStep | src/main.rs:126-134 | below the threshold, an operand byte is shifted in silently and the counter advances |
| Decoder.CompleteStep | src/main.rs:126-134 | at the threshold, the shifted-in value is printed and the counter returns to 0 |
| Decoder.AccumulateOperand | src/main.rs:126-134 | shifting one more byte into a short operand gives the big-endian value of the longer operand |
| Decoder.JumpPrefix | src/main.rs:119-129 | after the first `k` (at most 4) bytes of a jump, only the label is printed, and the accumulator holds bytes 1 to `k - 1` big-endian |
| Decoder.JumpAddressStart | src/main.rs:119-123 | the second byte of a jump becomes the accumulator and prints nothing |
| Decoder.JumpAddressMore | src/main.rs:126-130 | bytes 3 and 4 of a jump are shifted in and print nothing |
| Decoder.MovPrefix | src/main.rs:105-129 | after the first `k` (at most 5) bytes of a MOV, the label and the register pair are printed, and the accumulator holds bytes 2 to `k - 1` big-endian |
| Decoder.MovRegisters | src/main.rs:105-111 | the second byte of a MOV prints its register pair and leaves the accumulator empty |
| Decoder.MovOperandMore | src/main.rs:126-130 | bytes 3 to 5 of a MOV are shifted in and print nothing |
| Decoder.BoundaryMatchesDisasm | src/main.rs:72-137 | from any state between two instructions, the loop prints the reference listing of the remaining bytes |
| Decoder.Truncated | src/main.rs:126-134 | a stream that ends inside an instruction prints only the fragments of the bytes present |
| Decoder.DecodeIsDisasm | src/main.rs:72-137 | for every byte stream, `decompile` prints exactly the instruction-by-instruction listing |
| Decoder.InstructionWidth | src/main.rs:77-134 | the counter returns to 0 after exactly `Width(opcode)` bytes of an instruction and never before |
| Decoder.StepKeepsInv | src/main.rs:126-134 | one byte keeps the counter in 0..5, past 1 only for MOV and jumps, and past 4 only for MOV |
| Decoder.FromKeepsInv | src/main.rs:76-136 | the loop keeps that invariant over any byte sequence |
| Decoder.CounterBounded | src/main.rs:73-136 | after any prefix of any stream the counter is at most 5 |
| Listing.MnemonicName | src/main.rs:84-91 | each mnemonic is printed as three letters without a line break |
| Listing.Text | src/main.rs:83-132 | every format string produces a non-empty text without a line break |
| Listing.Render | src/main.rs:83-132 | a fragment ends in a line break exactly when it is printed with `println!`, and holds no other line break |
| Listing.RenderNewlines | src/main.rs:83-132 | a fragment holds one line break if printed with `println!` and none otherwise |
| Listing.Listing | src/main.rs:72-137 | the text printed for the fragments, at least one character per fragment; `ListingLines` and `ListingAppend` state its line structure |
| Listing.ListingLines | src/main.rs:72-137 | the output holds exactly one line break per `println!` fragment |
| Listing.ListingAppend | src/main.rs:72-137 | the text of two runs of fragments is the text of the first followed by the text of the second |
| Listing.OneLinePerInstruction | src/main.rs:77-134 | every complete instruction prints exactly one line, ending with the line break, and the rest of the listing follows it |
| Listing.InstructionEvents | src/main.rs:77-134 | exactly one fragment of a complete instruction ends a line, and it is the last |
| Listing.SingleLine | src/main.rs:83-99 | HALT and an unknown opcode print one line-ending fragment |
| Listing.RegLine | src/main.rs:112-118 | ADD/SUB/AND print the label and one line-ending register pair |
| Listing.JumpLine | src/main.rs:119-134 | JMP/JLE print the label and one line-ending address |
| Listing.MovLine | src/main.rs:105-134 | MOV prints the label, the register pair and one line-ending value |
| Listing.AddressField | src/main.rs:132 | `{:08x}` of any `u32` is exactly eight hexadecimal digits that read back as the value, then a line break |
| Listing.OffsetField | src/main.rs:83-91 | a label or HALT below offset 0x100 starts with two hexadecimal digits that read back as the offset, then `": "` |
| Listing.RegisterFields | src/main.rs:106-115 | each register number is one hexadecimal digit that reads back as its nibble, in both the MOV and the ADD/SUB/AND format |
| Listing.UnknownField | src/main.rs:93 | the error line names the opcode as two hexadecimal digits that read back as the opcode |
| Listing.TwoDigitsExamples | src/main.rs:83 | `{:02x}` of 0, 2 and 255 is `00`, `02` and `ff`; `{:08x}` of 16 is `00000010` |
| Listing.HaltExample | src/main.rs:83 | the stream `00` prints `00: HALT` |
| Listing.AddExample | src/main.rs:112-115 | the stream `60 12` prints `00: ADD r1, r2` |
| Listing.JumpExample | src/main.rs:119-132 | the stream `70 00 00 00 10` prints `00: JMP 00000010` |
| Listing.JumpLists | src/main.rs:119-132 | the JMP label and the address `10` print as `00: JMP 00000010` and a line break |
| Listing.UnknownExample | src/main.rs:92-124 | the stream `ff 00 00` prints the error line and then `02: HALT`: the HALT at offset 1 is consumed by the unknown opcode |

## Left out

- `get_lines` and `main` are not modelled. They read the file named on the command line and panic on a missing argument or an I/O error. `GetBytes` starts from the file's text.
- Standard output is modelled as the sequence of printed fragments (`Event`) and their text (`Listing`). Buffering and interleaving with other output are not modelled.
- `to_hex`'s overflow is modelled as the panic of a debug build (`None`). A release build would wrap `16u8.pow(i)` to 0 instead; that behaviour is not modelled.
- Hex.ToHex: the model's loop visits characters as `seq<char>` elements, while `s.len()` is modelled separately by `Utf8Len`. There is no model of UTF-8 encoding beyond the byte length of each character.
- Hex.IsWhitespace: this is the Unicode White_Space list that `char::is_whitespace` uses, written out by code point.
- Offsets are unbounded naturals (`usize` in the source). An offset of 0x100 or more prints with more than two digits, as `{:02x}` does, and `Listing.OffsetField` covers offsets below 0x100 only.
- An unknown opcode also takes the byte after it. The code sets `index = 0` (src/main.rs:94), then increments it because the opcode is not `00` (src/main.rs:98-100), so the next byte reaches the catch-all arm `_ => index = 0` (src/main.rs:124) and prints nothing. `Decoder.UnknownInstruction` and `Listing.UnknownExample` state this.
- The doc comment on `c_to_hex` says `[0-9a-z]`, but the code maps only `a`-`f`. The model follows the code: `g`-`z` and upper-case letters are worth 0.
