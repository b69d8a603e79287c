/**
 The textual input format of the disassembler: whitespace-separated tokens of
 lower-case hexadecimal digits, one token per byte. This module models the
 character and token conversions (`c_to_hex`, `to_hex`, `get_bytes` in
 src/main.rs) and the hexadecimal rendering that the listing uses.
 */
module Hex {

  /** An unsigned 8-bit value, Rust's `u8`. */
  type Byte = x: int | 0 <= x < 256

  /** `None` stands for a panic: the program stops with an arithmetic overflow. */
  datatype Option<T> = None | Some(value: T)

  predicate IsHexDigit(c: char) {
    '0' <= c <= '9' || 'a' <= c <= 'f'
  }

  predicate AllHexDigits(s: string) {
    forall k :: 0 <= k < |s| ==> IsHexDigit(s[k])
  }

  /** The lower-case hexadecimal digit of a nibble. */
  function NibbleChar(n: nat): (c: char)
    requires n < 16
    ensures IsHexDigit(c)
  {
    if n < 10 then ('0' as int + n) as char else ('a' as int + n - 10) as char
  }

  /**
   `c_to_hex`: the value of one hexadecimal digit. Any character that is not
   `0`-`9` or `a`-`f` (upper-case letters included) silently becomes 0.
   */
  function CharToNibble(c: char): (r: nat)
    ensures r < 16
    ensures IsHexDigit(c) ==> NibbleChar(r) == c
    ensures !IsHexDigit(c) <==> r == 0 && c != '0'
  {
    if 'a' <= c <= 'f' then c as int - 'a' as int + 10
    else if '0' <= c <= '9' then c as int - '0' as int
    else 0
  }

  lemma NibbleRoundTrip(n: nat)
    requires n < 16
    ensures CharToNibble(NibbleChar(n)) == n
  {
  }

  function Pow16(i: nat): (r: nat)
    ensures r >= 1
  {
    if i == 0 then 1 else 16 * Pow16(i - 1)
  }

  lemma {:induction false} Pow16Monotone(i: nat, j: nat)
    requires i <= j
    ensures Pow16(i) <= Pow16(j)
    decreases j
  {
    if i < j {
      Pow16Monotone(i, j - 1);
    }
  }

  /**
   Positional value of a string of digits, most significant first (Horner's
   rule over `CharToNibble`). This is the reference meaning of `to_hex`.
   */
  function HexValue(s: string): (r: nat)
    ensures r < Pow16(|s|)
  {
    if s == [] then 0 else HexValue(s[..|s| - 1]) * 16 + CharToNibble(s[|s| - 1])
  }

  /** Number of bytes the UTF-8 encoding of a character takes. */
  function CharUtf8Len(c: char): (n: nat)
    ensures 1 <= n <= 4
    ensures n == 1 <==> c as int < 0x80
  {
    if c as int < 0x80 then 1
    else if c as int < 0x800 then 2
    else if c as int < 0x1_0000 then 3
    else 4
  }

  /** Rust's `str::len`: the length of a string in UTF-8 bytes, never less than its number of characters. */
  function Utf8Len(s: string): (n: nat)
    ensures n >= |s|
    ensures n == |s| <==> forall k :: 0 <= k < |s| ==> s[k] as int < 0x80
  {
    if s == [] then 0 else Utf8Len(s[..|s| - 1]) + CharUtf8Len(s[|s| - 1])
  }

  /**
   A string of at most two UTF-8 bytes that has fewer characters than bytes
   is one non-ASCII character, whose digit value is 0.
   */
  lemma ShortNonAsciiIsZero(s: string)
    requires Utf8Len(s) <= 2 && Utf8Len(s) > |s|
    ensures HexValue(s) == 0
  {
    assert |s| == 1;
    assert s == [s[0]] && s[..0] == [];
    assert !IsHexDigit(s[0]);
  }

  /**
   One round of `to_hex`: the character at `j` gets weight 16^i, where
   `j + 1 + i` is the token's byte length, at most 2. The weight, the term
   and the new running value all fit in a `u8`.
   */
  lemma WeightedDigit(s: string, j: nat, i: nat)
    requires j < |s| && j + 1 + i <= 2
    ensures Pow16(i) <= 16 && Pow16(i) * CharToNibble(s[j]) < 256
    ensures HexValue(s[..j]) * Pow16(i + 1) + Pow16(i) * CharToNibble(s[j]) == HexValue(s[..j + 1]) * Pow16(i)
    ensures HexValue(s[..j + 1]) * Pow16(i) < 256
  {
    assert s[..j + 1][..j] == s[..j];
    var h, n := HexValue(s[..j]), CharToNibble(s[j]);
    assert HexValue(s[..j + 1]) == h * 16 + n;
    if i == 0 {
      assert Pow16(1) == 16;
      Pow16Monotone(j + 1, 2);
      assert Pow16(2) == 256;
    } else {
      assert i == 1 && j == 0 && s[..0] == [];
      assert Pow16(1) == 16 && Pow16(2) == 256;
    }
  }

  /** After the loop: any weight left over belongs to a non-ASCII character, whose value is 0. */
  lemma FinalWeight(s: string, i: nat, acc: nat)
    requires Utf8Len(s) <= 2 && i == Utf8Len(s) - |s|
    requires acc == HexValue(s) * Pow16(i)
    ensures acc == HexValue(s)
  {
    if i == 0 {
      assert Pow16(0) == 1;
    } else {
      ShortNonAsciiIsZero(s);
      assert acc == 0 * Pow16(i);
    }
  }

  /**
   `to_hex`: folds a token into a `u8`, weighting the k-th character by
   16 to the power (byte length - 1 - k). `16u8.pow(i)` overflows, which
   panics, exactly when the token is longer than two UTF-8 bytes: the first
   weight is then at least 16^2. Otherwise the product and the sum never leave
   `u8` (each intermediate is stored in a `Byte`, so an overflow there would
   fail to verify).
   */
  method ToHex(s: string) returns (ret: Option<Byte>)
    ensures ret.None? <==> Utf8Len(s) > 2
    ensures ret.Some? ==> ret.value == HexValue(s)
  {
    var l := Utf8Len(s);
    var acc: Byte := 0;
    var i: nat := l;
    assert s[..0] == [] && HexValue([]) == 0;
    for j := 0 to |s|
      invariant i == l - j
      invariant j > 0 ==> l <= 2
      invariant acc == HexValue(s[..j]) * Pow16(i)
    {
      i := i - 1;
      if i >= 2 {
        // 16u8.pow(i) overflows
        return None;
      }
      WeightedDigit(s, j, i);
      var weight: Byte := Pow16(i);
      var nib := CharToNibble(s[j]);
      var term: Byte := weight * nib;
      acc := acc + term;
    }
    assert s[..|s|] == s;
    FinalWeight(s, i, acc);
    ret := Some(acc);
  }

  /** The two-digit lower-case token of a byte, as the input files write it. */
  function ByteToken(v: Byte): (t: string)
    ensures |t| == 2 && AllHexDigits(t)
  {
    [NibbleChar(v / 16), NibbleChar(v % 16)]
  }

  /** Every byte survives rendering as a token and `to_hex` ("10" is 16, "ff" is 255). */
  lemma TokenRoundTrip(v: Byte)
    ensures HexValue(ByteToken(v)) == v
  {
    var t := ByteToken(v);
    assert t[..1] == [t[0]] && t[..1][..0] == [];
    NibbleRoundTrip(v / 16);
    NibbleRoundTrip(v % 16);
  }

  /** Conversely every two-digit token is the rendering of the byte `to_hex` gives it. */
  lemma TokenRoundTripBack(t: string)
    requires |t| == 2 && AllHexDigits(t)
    ensures HexValue(t) < 256 && ByteToken(HexValue(t)) == t
  {
    assert t[..1] == [t[0]] && t[..1][..0] == [];
    var hi, lo := CharToNibble(t[0]), CharToNibble(t[1]);
    assert HexValue(t) == hi * 16 + lo;
    assert (hi * 16 + lo) / 16 == hi && (hi * 16 + lo) % 16 == lo;
  }

  lemma ToHexExamples()
    ensures HexValue("10") == 16 && HexValue("ff") == 255
    ensures CharToNibble('a') == 10 && CharToNibble('1') == 1 && CharToNibble('%') == 0
  {
  }

  /** Rust's `char::is_whitespace`: the Unicode White_Space property. */
  predicate IsWhitespace(c: char): (b: bool)
    ensures c == ' ' || c == '\t' || c == '\n' || c == '\r' ==> b
    ensures b ==> !IsHexDigit(c)
  {
    var n := c as int;
    (0x09 <= n <= 0x0D) || n == 0x20 || n == 0x85 || n == 0xA0 || n == 0x1680
    || (0x2000 <= n <= 0x200A) || n == 0x2028 || n == 0x2029 || n == 0x202F
    || n == 0x205F || n == 0x3000
  }

  predicate NoWhitespace(s: string) {
    forall k :: 0 <= k < |s| ==> !IsWhitespace(s[k])
  }

  /** The length of the longest whitespace-free prefix of `s`. */
  function TokenLen(s: string): (n: nat)
    ensures n <= |s| && NoWhitespace(s[..n])
    ensures n < |s| ==> IsWhitespace(s[n])
  {
    if s == [] || IsWhitespace(s[0]) then 0
    else
      var m := TokenLen(s[1..]);
      assert s[..1 + m] == [s[0]] + s[1..][..m];
      1 + m
  }

  /** `str::split_whitespace`: the maximal non-empty whitespace-free pieces of `s`, in order. */
  function Split(s: string): (r: seq<string>)
    ensures forall k :: 0 <= k < |r| ==> r[k] != [] && NoWhitespace(r[k])
    decreases |s|
  {
    if s == [] then []
    else if IsWhitespace(s[0]) then Split(s[1..])
    else
      var n := TokenLen(s);
      [s[..n]] + Split(s[n..])
  }

  /** Tokens separated by single spaces. */
  function Join(ts: seq<string>): string {
    if ts == [] then []
    else if |ts| == 1 then ts[0]
    else ts[0] + " " + Join(ts[1..])
  }

  lemma TokenLenWhole(t: string, rest: string)
    requires t != [] && NoWhitespace(t)
    requires rest == [] || IsWhitespace(rest[0])
    ensures TokenLen(t + rest) == |t|
  {
    var s := t + rest;
    var n := TokenLen(s);
    assert forall k :: 0 <= k < |t| ==> s[k] == t[k];
    assert |t| < |s| ==> s[|t|] == rest[0];
    assert forall k :: 0 <= k < n ==> s[..n][k] == s[k];
  }

  /** Splitting undoes joining, for tokens that are non-empty and free of whitespace. */
  lemma {:induction false} SplitJoin(ts: seq<string>)
    requires forall k :: 0 <= k < |ts| ==> ts[k] != [] && NoWhitespace(ts[k])
    ensures Split(Join(ts)) == ts
    decreases |ts|
  {
    if ts == [] {
    } else if |ts| == 1 {
      var t := ts[0];
      TokenLenWhole(t, []);
      assert t + [] == t;
      assert t[|t|..] == [];
    } else {
      var t, rest := ts[0], " " + Join(ts[1..]);
      var s := Join(ts);
      assert s == t + rest;
      TokenLenWhole(t, rest);
      assert s[..|t|] == t && s[|t|..] == rest;
      assert rest[1..] == Join(ts[1..]);
      SplitJoin(ts[1..]);
      assert Split(s) == [t] + Split(rest);
      assert Split(rest) == Split(Join(ts[1..]));
    }
  }

  predicate AllWhitespace(w: string) {
    forall k :: 0 <= k < |w| ==> IsWhitespace(w[k])
  }

  /**
   `ws` are the whitespace runs around the tokens `ts`: one more run than
   tokens, every run whitespace only, the runs between two tokens non-empty,
   and every token non-empty and free of whitespace.
   */
  predicate Separated(ws: seq<string>, ts: seq<string>) {
    && |ws| == |ts| + 1
    && (forall i :: 0 <= i < |ws| ==> AllWhitespace(ws[i]))
    && (forall i :: 0 < i < |ts| ==> ws[i] != [])
    && (forall k :: 0 <= k < |ts| ==> ts[k] != [] && NoWhitespace(ts[k]))
  }

  /** `ws[0] + ts[0] + ws[1] + ... + ts[n - 1] + ws[n]`. */
  function Interleave(ws: seq<string>, ts: seq<string>): string
    requires |ws| == |ts| + 1
    decreases |ts|
  {
    if ts == [] then ws[0] else ws[0] + ts[0] + Interleave(ws[1..], ts[1..])
  }

  /** Leading whitespace produces no token. */
  lemma {:induction false} SplitSkipsWhitespace(w: string, s: string)
    requires AllWhitespace(w)
    ensures Split(w + s) == Split(s)
    decreases |w|
  {
    if w == [] {
      assert w + s == s;
    } else {
      assert (w + s)[0] == w[0] && (w + s)[1..] == w[1..] + s;
      SplitSkipsWhitespace(w[1..], s);
    }
  }

  /** A token followed by the end of the string or by whitespace is split off whole. */
  lemma SplitToken(t: string, r: string)
    requires t != [] && NoWhitespace(t)
    requires r == [] || IsWhitespace(r[0])
    ensures Split(t + r) == [t] + Split(r)
  {
    TokenLenWhole(t, r);
    var s := t + r;
    assert s[0] == t[0];
    assert s[..|t|] == t && s[|t|..] == r;
  }

  /** Whatever the whitespace around and between them, `split_whitespace` gives exactly the tokens. */
  lemma {:induction false} SplitSeparated(ws: seq<string>, ts: seq<string>)
    requires Separated(ws, ts)
    ensures Split(Interleave(ws, ts)) == ts
    decreases |ts|
  {
    if ts == [] {
      SplitSkipsWhitespace(ws[0], []);
      assert ws[0] + [] == ws[0];
    } else {
      var r := Interleave(ws[1..], ts[1..]);
      assert Separated(ws[1..], ts[1..]);
      SplitSeparated(ws[1..], ts[1..]);
      if ts[1..] == [] {
        assert r == ws[1];
      } else {
        assert r == ws[1] + ts[1] + Interleave(ws[2..], ts[2..]);
        assert r[0] == ws[1][0];
      }
      SplitToken(ts[0], r);
      assert ws[0] + ts[0] + r == ws[0] + (ts[0] + r);
      SplitSkipsWhitespace(ws[0], ts[0] + r);
    }
  }

  /** The whitespace runs of `s`, in the same recursion as `Split`. */
  function Gaps(s: string): (g: seq<string>)
    ensures |g| >= 1
    decreases |s|
  {
    if s == [] then [[]]
    else if IsWhitespace(s[0]) then
      var g := Gaps(s[1..]);
      [[s[0]] + g[0]] + g[1..]
    else
      [[]] + Gaps(s[TokenLen(s)..])
  }

  /** Every string is its tokens interleaved with its whitespace runs, so `SplitSeparated` determines `Split` on every input. */
  lemma {:induction false} GapsSplit(s: string)
    ensures Separated(Gaps(s), Split(s)) && Interleave(Gaps(s), Split(s)) == s
    decreases |s|
  {
    if s == [] {
    } else if IsWhitespace(s[0]) {
      GapsSplit(s[1..]);
      GapsSplitSpace(s);
    } else {
      GapsSplit(s[TokenLen(s)..]);
      GapsSplitToken(s);
    }
  }

  lemma GapsSplitSpace(s: string)
    requires s != [] && IsWhitespace(s[0])
    requires Separated(Gaps(s[1..]), Split(s[1..])) && Interleave(Gaps(s[1..]), Split(s[1..])) == s[1..]
    ensures Separated(Gaps(s), Split(s)) && Interleave(Gaps(s), Split(s)) == s
  {
    var g, ts := Gaps(s[1..]), Split(s[1..]);
    assert Gaps(s) == [[s[0]] + g[0]] + g[1..];
    assert Split(s) == ts;
    WidenFirstGap(s[0], g, ts);
    assert [s[0]] + s[1..] == s;
  }

  /** One more whitespace character at the front joins the first run. */
  lemma WidenFirstGap(c: char, g: seq<string>, ts: seq<string>)
    requires IsWhitespace(c) && Separated(g, ts)
    ensures Separated([[c] + g[0]] + g[1..], ts)
    ensures Interleave([[c] + g[0]] + g[1..], ts) == [c] + Interleave(g, ts)
  {
    var g' := [[c] + g[0]] + g[1..];
    assert g'[1..] == g[1..];
    assert forall i :: 0 < i < |g'| ==> g'[i] == g[i];
    if ts != [] {
      assert ([c] + g[0]) + ts[0] + Interleave(g[1..], ts[1..]) == [c] + (g[0] + ts[0] + Interleave(g[1..], ts[1..]));
    }
  }

  lemma GapsSplitToken(s: string)
    requires s != [] && !IsWhitespace(s[0])
    requires var r := s[TokenLen(s)..];
             Separated(Gaps(r), Split(r)) && Interleave(Gaps(r), Split(r)) == r
    ensures Separated(Gaps(s), Split(s)) && Interleave(Gaps(s), Split(s)) == s
  {
    var n := TokenLen(s);
    var t, r := s[..n], s[n..];
    var g, ts := Gaps(r), Split(r);
    assert Gaps(s) == [[]] + g;
    assert Split(s) == [t] + ts;
    if ts != [] {
      assert r != [] && IsWhitespace(r[0]);
      assert g[0] == [r[0]] + Gaps(r[1..])[0];
    }
    PrependToken(t, g, ts);
    assert t + r == s;
  }

  /** A token in front of the runs and tokens, after an empty run. */
  lemma PrependToken(t: string, g: seq<string>, ts: seq<string>)
    requires t != [] && NoWhitespace(t) && Separated(g, ts)
    requires ts != [] ==> g[0] != []
    ensures Separated([[]] + g, [t] + ts)
    ensures Interleave([[]] + g, [t] + ts) == t + Interleave(g, ts)
  {
    var g', ts' := [[]] + g, [t] + ts;
    assert g'[1..] == g && ts'[1..] == ts;
    assert forall i :: 0 < i < |g'| ==> g'[i] == g[i - 1];
    assert forall k :: 0 < k < |ts'| ==> ts'[k] == ts[k - 1];
    assert [] + t == t;
  }

  /** Tokens spread over several lines with mixed whitespace read as the tokens alone. */
  lemma SplitExample()
    ensures Split("10\n\n ff\t") == ["10", "ff"]
  {
    var ws, ts := ["", "\n\n ", "\t"], ["10", "ff"];
    assert Separated(ws, ts);
    assert Interleave(ws[2..], ts[2..]) == "\t";
    assert Interleave(ws[1..], ts[1..]) == "\n\n " + "ff" + "\t";
    assert Interleave(ws, ts) == "" + "10" + ("\n\n " + "ff" + "\t");
    assert "" + "10" + ("\n\n " + "ff" + "\t") == "10\n\n ff\t";
    SplitSeparated(ws, ts);
  }

  /** The tokens `to_hex` takes without overflow: at most two UTF-8 bytes each. */
  predicate ShortTokens(ts: seq<string>) {
    forall k :: 0 <= k < |ts| ==> Utf8Len(ts[k]) <= 2
  }

  /** `to_hex` applied to each token in turn; the first overflowing token panics. */
  function HexTokens(ts: seq<string>): (r: Option<seq<Byte>>)
    ensures r.Some? <==> ShortTokens(ts)
    ensures r.Some? ==> |r.value| == |ts| && forall k :: 0 <= k < |ts| ==> r.value[k] == HexValue(ts[k])
  {
    if ts == [] then Some([])
    else
      var t := ts[0];
      if Utf8Len(t) > 2 then None
      else
        assert Pow16(2) == 16 * Pow16(1) == 256;
        Pow16Monotone(|t|, 2);
        match HexTokens(ts[1..])
        case None => None
        case Some(rest) => Some([HexValue(t) as Byte] + rest)
  }

  /**
   `get_bytes`: one byte per whitespace-separated token, in order, each the
   value `to_hex` gives that token; it panics when some token is longer than
   two UTF-8 bytes.
   */
  function GetBytes(s: string): (r: Option<seq<Byte>>)
    ensures r.Some? <==> ShortTokens(Split(s))
    ensures r.Some? ==> |r.value| == |Split(s)|
    ensures r.Some? ==> forall k :: 0 <= k < |r.value| ==> r.value[k] == HexValue(Split(s)[k])
  {
    HexTokens(Split(s))
  }

  /** The tokens of a byte sequence, one `ByteToken` per byte. */
  function Tokens(bs: seq<Byte>): (ts: seq<string>)
    ensures |ts| == |bs|
    ensures forall k :: 0 <= k < |bs| ==> ts[k] == ByteToken(bs[k])
  {
    if bs == [] then [] else [ByteToken(bs[0])] + Tokens(bs[1..])
  }

  /** Writing bytes as space-separated two-digit tokens and reading them back with `get_bytes` is the identity. */
  lemma GetBytesRoundTrip(bs: seq<Byte>)
    ensures GetBytes(Join(Tokens(bs))) == Some(bs)
  {
    var ts := Tokens(bs);
    TokensAreShort(bs);
    SplitJoin(ts);
    var r := HexTokens(ts);
    assert r.Some?;
    forall k | 0 <= k < |bs|
      ensures r.value[k] == bs[k]
    {
      TokenRoundTrip(bs[k]);
    }
    assert r.value == bs;
  }

  lemma TokensAreShort(bs: seq<Byte>)
    ensures var ts := Tokens(bs);
            && (forall k :: 0 <= k < |ts| ==> ts[k] != [] && NoWhitespace(ts[k]))
            && ShortTokens(ts)
  {
    var ts := Tokens(bs);
    forall k | 0 <= k < |ts|
      ensures ts[k] != [] && NoWhitespace(ts[k]) && Utf8Len(ts[k]) <= 2
    {
      var t := ts[k];
      assert t[..1] == [t[0]] && t[..1][..0] == [];
    }
  }

  lemma GetBytesExample()
    ensures GetBytes("10 ff") == Some([16, 255])
  {
    assert Tokens([16, 255]) == ["10", "ff"];
    assert Join(["10", "ff"]) == "10 ff";
    GetBytesRoundTrip([16, 255]);
  }

  /** Line breaks, tabs and runs of spaces separate tokens just as a single space does. */
  lemma GetBytesLinesExample()
    ensures GetBytes("10\n\n ff\t") == Some([16, 255])
  {
    SplitExample();
    HexTokensExample();
  }

  lemma HexTokensExample()
    ensures HexTokens(["10", "ff"]) == Some([16, 255])
  {
    TokenRoundTrip(16);
    TokenRoundTrip(255);
    assert ByteToken(16) == "10" && ByteToken(255) == "ff";
    var t, u := "10", "ff";
    assert t[..1][..0] == [] && u[..1][..0] == [];
    assert Utf8Len(t) == 2 && Utf8Len(u) == 2;
    assert ShortTokens([t, u]);
    var r := HexTokens([t, u]);
    assert r.value[0] == 16 && r.value[1] == 255;
    assert r.value == [16, 255];
  }

  /** A three-digit token overflows `to_hex`, so the whole conversion panics. */
  lemma GetBytesOverflowExample()
    ensures GetBytes("ff 100") == None
  {
    var ts := ["ff", "100"];
    assert Join(ts) == "ff 100";
    SplitJoin(ts);
    var t := "100";
    assert t[..2] == "10" && t[..2][..1] == "1" && t[..2][..1][..0] == [];
    assert Utf8Len(t) == 3;
    assert !ShortTokens(ts);
  }

  /** The shortest lower-case hexadecimal rendering of `n` (Rust's `{:x}`). */
  function HexDigits(n: nat): (s: string)
    ensures s != [] && AllHexDigits(s)
  {
    if n < 16 then [NibbleChar(n)] else HexDigits(n / 16) + [NibbleChar(n % 16)]
  }

  lemma {:induction false} HexDigitsValue(n: nat)
    ensures HexValue(HexDigits(n)) == n
  {
    NibbleRoundTrip(n % 16);
    if n < 16 {
      assert HexDigits(n)[..0] == [];
    } else {
      HexDigitsValue(n / 16);
      var s := HexDigits(n);
      assert s[..|s| - 1] == HexDigits(n / 16);
    }
  }

  lemma {:induction false} HexDigitsLength(n: nat, w: nat)
    requires w >= 1 && n < Pow16(w)
    ensures |HexDigits(n)| <= w
  {
    if n >= 16 {
      HexDigitsLength(n / 16, w - 1);
    }
  }

  function Zeros(k: nat): (s: string)
    ensures |s| == k && forall i :: 0 <= i < k ==> s[i] == '0'
  {
    if k == 0 then [] else Zeros(k - 1) + ['0']
  }

  /** Rust's `{:0w$x}`: the hexadecimal digits of `n`, left-padded with zeros to at least `w` characters. */
  function PadHex(n: nat, w: nat): (s: string)
    ensures |s| == if |HexDigits(n)| < w then w else |HexDigits(n)|
    ensures AllHexDigits(s)
  {
    var d := HexDigits(n);
    if |d| < w then Zeros(w - |d|) + d else d
  }

  lemma {:induction false} LeadingZerosValue(k: nat, s: string)
    ensures HexValue(Zeros(k) + s) == HexValue(s)
    decreases |s|
  {
    if s == [] {
      ZerosValue(k);
      assert Zeros(k) + s == Zeros(k);
    } else {
      var z := Zeros(k) + s;
      assert z[..|z| - 1] == Zeros(k) + s[..|s| - 1];
      LeadingZerosValue(k, s[..|s| - 1]);
    }
  }

  lemma {:induction false} ZerosValue(k: nat)
    ensures HexValue(Zeros(k)) == 0
  {
    if k > 0 {
      ZerosValue(k - 1);
      assert Zeros(k)[..k - 1] == Zeros(k - 1);
    }
  }

  /** A padded rendering reads back as the number it renders. */
  lemma {:induction false} PadHexValue(n: nat, w: nat)
    ensures HexValue(PadHex(n, w)) == n
  {
    HexDigitsValue(n);
    var d := HexDigits(n);
    if |d| < w {
      assert PadHex(n, w) == Zeros(w - |d|) + d;
      LeadingZerosValue(w - |d|, d);
    } else {
      assert PadHex(n, w) == d;
    }
  }

  /** A padded rendering of a number that fits in `w` digits has exactly `w` digits. */
  lemma PadHexLength(n: nat, w: nat)
    requires w >= 1 && n < Pow16(w)
    ensures |PadHex(n, w)| == w
  {
    HexDigitsLength(n, w);
  }
}
