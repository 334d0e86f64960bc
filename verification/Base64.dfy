/** Base64 as encode/base64.c does it (section 4 of RFC 4648). Characters are their byte values. */
module Base64 {
  type Byte = bv8
  /** A character of a C string. */
  type Char = c: nat | c < 256

  const PAD: Char := 0x3D

  /** ls_cBase64: A-Z, a-z, 0-9, + and / */
  function CharOf(v: nat): Char
    requires v < 64
  {
    if v < 26 then 0x41 + v else if v < 52 then 0x61 + (v - 26) else if v < 62 then 0x30 + (v - 52) else if v == 62 then 0x2B else 0x2F
  }

  const SKIP: Char := 0x24

  /** ls_cDecode, for the characters from + to z: a printable code of the value, or $ */
  function DecodeTable(i: nat): Char
    requires i < 80
  {
    if i == 0 then 0x7C else if i == 4 then 0x7D
    else if 5 <= i < 15 then 0x72 + (i - 5)
    else if 22 <= i < 48 then 0x3E + (i - 22)
    else if 54 <= i then 0x58 + (i - 54)
    else SKIP
  }

  /** One more than the value of an alphabet character, 0 for every other character. */
  function CodeOf(c: Char): (r: nat)
    ensures r <= 64
  {
    if c < 0x2B || c > 0x7A then 0
    else if DecodeTable(c - 0x2B) == SKIP then 0
    else DecodeTable(c - 0x2B) - 0x3D
  }

  /** The two tables are inverse, and only alphabet characters have a value. */
  lemma TablesInverse(v: nat, c: Char)
    requires v < 64
    ensures CodeOf(CharOf(v)) == v + 1
    ensures CodeOf(c) > 0 ==> CharOf(CodeOf(c) - 1) == c
    ensures CodeOf(PAD) == 0 && CodeOf(0) == 0
  {
  }

  // ----- encoding

  function Value(s: Byte): (v: nat)
    requires s < 64
    ensures v < 64
  {
    s as nat
  }

  /** The 6-bit values of one to three bytes. */
  function BlockSextets(x: seq<Byte>): (r: seq<Byte>)
    requires 1 <= |x| <= 3
    ensures |r| == |x| + 1 && forall i :: 0 <= i < |r| ==> r[i] < 64
  {
    if |x| == 1 then [x[0] >> 2, (x[0] & 0x03) << 4]
    else if |x| == 2 then [x[0] >> 2, ((x[0] & 0x03) << 4) | ((x[1] & 0xF0) >> 4), (x[1] & 0x0F) << 2]
    else [x[0] >> 2, ((x[0] & 0x03) << 4) | ((x[1] & 0xF0) >> 4), ((x[1] & 0x0F) << 2) | ((x[2] & 0xC0) >> 6), x[2] & 0x3F]
  }

  /** _decodeBlock */
  function DecodeBlock(a: Byte, b: Byte, c: Byte, d: Byte): (Byte, Byte, Byte) {
    ((a << 2) | (b >> 4), (b << 4) | (c >> 2), ((c << 6) & 0xC0) | d)
  }

  lemma FirstByte(a: Byte, b: Byte)
    ensures ((a >> 2) << 2) | (((a & 0x03) << 4) >> 4) == a
    ensures ((a >> 2) << 2) | ((((a & 0x03) << 4) | ((b & 0xF0) >> 4)) >> 4) == a
  {
  }

  lemma SecondByte(a: Byte, b: Byte, c: Byte)
    ensures ((((a & 0x03) << 4) | ((b & 0xF0) >> 4)) << 4) | (((b & 0x0F) << 2) >> 2) == b
    ensures ((((a & 0x03) << 4) | ((b & 0xF0) >> 4)) << 4) | ((((b & 0x0F) << 2) | ((c & 0xC0) >> 6)) >> 2) == b
  {
  }

  lemma ThirdByte(b: Byte, c: Byte)
    ensures (((((b & 0x0F) << 2) | ((c & 0xC0) >> 6)) << 6) & 0xC0) | (c & 0x3F) == c
  {
  }

  /** Decoding the values of a block gives the block back; values that are missing may be anything. */
  lemma BlockRoundTrip(x: seq<Byte>, c: Byte, d: Byte)
    requires 1 <= |x| <= 3
    ensures var s := BlockSextets(x);
            && (|x| == 1 ==> DecodeBlock(s[0], s[1], c, d).0 == x[0])
            && (|x| == 2 ==> DecodeBlock(s[0], s[1], s[2], d).0 == x[0] && DecodeBlock(s[0], s[1], s[2], d).1 == x[1])
            && (|x| == 3 ==> DecodeBlock(s[0], s[1], s[2], s[3]) == (x[0], x[1], x[2]))
  {
    if |x| == 1 {
      FirstByte(x[0], 0);
    } else if |x| == 2 {
      FirstByte(x[0], x[1]);
      SecondByte(x[0], x[1], 0);
    } else {
      FirstByte(x[0], x[1]);
      SecondByte(x[0], x[1], x[2]);
      ThirdByte(x[1], x[2]);
    }
  }

  function Chars(s: seq<Byte>): (r: seq<Char>)
    requires forall i :: 0 <= i < |s| ==> s[i] < 64
    ensures |r| == |s|
  {
    if s == [] then [] else [CharOf(Value(s[0]))] + Chars(s[1..])
  }

  /** _encodeBlock: four characters, filled up with = */
  function EncodeBlock(x: seq<Byte>): (r: seq<Char>)
    requires 1 <= |x| <= 3
    ensures |r| == 4
  {
    Chars(BlockSextets(x)) + if |x| == 1 then [PAD, PAD] else if |x| == 2 then [PAD] else []
  }

  function Encode(x: seq<Byte>): seq<Char> {
    if x == [] then [] else if |x| <= 3 then EncodeBlock(x) else EncodeBlock(x[..3]) + Encode(x[3..])
  }

  // ----- decoding

  /** The value of an alphabet character; any other character has none. */
  function CodeAt(c: Char): (r: seq<Byte>)
    ensures |r| <= 1
  {
    if CodeOf(c) > 0 then [(CodeOf(c) - 1) as Byte] else []
  }

  /** The values of the alphabet characters of a text; every other character is passed over. */
  function Codes(text: seq<Char>): (r: seq<Byte>)
    ensures |r| <= |text|
  {
    if text == [] then [] else CodeAt(text[0]) + Codes(text[1..])
  }

  /** Groups of four values give three bytes each; two or three values at the end give one or two bytes. */
  function FromCodes(s: seq<Byte>): seq<Byte>
    decreases |s|
  {
    if |s| < 2 then []
    else if |s| == 2 then [DecodeBlock(s[0], s[1], 0, 0).0]
    else if |s| == 3 then [DecodeBlock(s[0], s[1], s[2], 0).0, DecodeBlock(s[0], s[1], s[2], 0).1]
    else
      var b := DecodeBlock(s[0], s[1], s[2], s[3]);
      [b.0, b.1, b.2] + FromCodes(s[4..])
  }

  function Decode(text: seq<Char>): seq<Byte> {
    FromCodes(Codes(text))
  }

  lemma CodesStep(text: seq<Char>)
    requires text != []
    ensures Codes(text) == CodeAt(text[0]) + Codes(text[1..])
  {
    hide CodeAt;
  }

  lemma {:induction false} CodesJoin(a: seq<Char>, b: seq<Char>)
    ensures Codes(a + b) == Codes(a) + Codes(b)
  {
    hide CodeAt, Codes;
    if a == [] {
      assert a + b == b;
      NoCodes();
    } else {
      CodesJoin(a[1..], b);
      CodesStep(a);
      CodesStep(a + b);
      assert (a + b)[1..] == a[1..] + b;
    }
  }

  lemma {:induction false} CodesOfChars(s: seq<Byte>)
    requires forall i :: 0 <= i < |s| ==> s[i] < 64
    ensures Codes(Chars(s)) == s
  {
    hide CodeAt, CharOf, Codes;
    if s == [] {
      NoCodes();
    } else {
      CodeOfValue(s[0]);
      CodesOfChars(s[1..]);
      CodesStep(Chars(s));
      assert Chars(s)[1..] == Chars(s[1..]);
      assert s == [s[0]] + s[1..];
    }
  }

  lemma CodeOfValue(b: Byte)
    requires b < 64
    ensures CodeAt(CharOf(Value(b))) == [b]
  {
    hide CodeOf, CharOf;
    TablesInverse(Value(b), 0);
  }

  lemma CodesOfBlock(x: seq<Byte>)
    requires 1 <= |x| <= 3
    ensures Codes(EncodeBlock(x)) == BlockSextets(x)
  {
    hide CodeOf, Chars, BlockSextets;
    CodesOfChars(BlockSextets(x));
    var pad: seq<Char> := if |x| == 1 then [PAD, PAD] else if |x| == 2 then [PAD] else [];
    CodesJoin(Chars(BlockSextets(x)), pad);
    TablesInverse(0, 0);
    assert Codes(pad) == [];
  }

  /** Decoding the encoding of any bytes gives them back. */
  lemma {:induction false} RoundTrip(x: seq<Byte>)
    ensures Decode(Encode(x)) == x
  {
    hide Codes, BlockSextets, DecodeBlock, EncodeBlock;
    if x == [] {
      NoCodes();
    } else if |x| <= 3 {
      CodesOfBlock(x);
      LastBlock(x);
    } else {
      var a, b := x[..3], x[3..];
      CodesOfBlock(a);
      CodesJoin(EncodeBlock(a), Encode(b));
      BlockRoundTrip(a, 0, 0);
      RoundTrip(b);
      var s := BlockSextets(a);
      assert (s + Codes(Encode(b)))[4..] == Codes(Encode(b));
      assert x == [a[0], a[1], a[2]] + b;
    }
  }

  /** Characters outside the alphabet, padding among them, make no difference wherever they stand. */
  lemma NoiseIgnored(a: seq<Char>, noise: seq<Char>, b: seq<Char>)
    requires forall i :: 0 <= i < |noise| ==> CodeOf(noise[i]) == 0
    ensures Decode(a + noise + b) == Decode(a + b)
  {
    hide Codes, CodeOf, FromCodes;
    CodesJoin(a + noise, b);
    CodesJoin(a, noise);
    CodesJoin(a, b);
    NoiseHasNoCodes(noise);
    assert Codes(a) + [] == Codes(a);
  }

  lemma {:induction false} NoiseHasNoCodes(noise: seq<Char>)
    requires forall i :: 0 <= i < |noise| ==> CodeOf(noise[i]) == 0
    ensures Codes(noise) == []
  {
    hide CodeOf;
    if noise != [] { NoiseHasNoCodes(noise[1..]); }
  }

  lemma LastBlock(x: seq<Byte>)
    requires 1 <= |x| <= 3
    ensures FromCodes(BlockSextets(x)) == x
  {
    hide DecodeBlock, BlockSextets;
    BlockRoundTrip(x, 0, 0);
    var s := BlockSextets(x);
    if |x| == 3 {
      assert s[4..] == [];
      assert FromCodes(s[4..]) == [];
    }
  }

  lemma NoCodes()
    ensures Codes([]) == []
  {
  }

  // ----- the loops, into buffers of the sizes that are allocated

  /** Four characters into the output, from o on. */
  method PutBlock(x: seq<Byte>, out: array<Char>, o: nat)
    requires 1 <= |x| <= 3 && o + 4 <= out.Length
    modifies out
    ensures out[..o + 4] == old(out[..o]) + EncodeBlock(x)
  {
    hide EncodeBlock;
    var b := EncodeBlock(x);
    out[o], out[o + 1], out[o + 2], out[o + 3] := b[0], b[1], b[2], b[3];
    assert out[..o + 4] == out[..o] + [b[0], b[1], b[2], b[3]];
    assert out[..o] == old(out[..o]);
  }

  /** jf_encode_encodeBase64: the text and its terminating NUL fit the buffer. */
  method EncodeBase64(input: seq<Byte>) returns (out: array<Char>, n: nat)
    requires input != []
    ensures out.Length == |input| * 4 / 3 + 6 && n < out.Length && out[..n] == Encode(input) && out[n] == 0
  {
    hide EncodeBlock, Encode, EncodeFrom;
    out := new Char[|input| * 4 / 3 + 6](_ => 0);
    var i: nat := 0;
    n := 0;
    EncodeEnds(input);
    while i < |input|
      invariant 3 * n == 4 * i && i < |input| + 3
      invariant out[..n] + EncodeFrom(input, i) == Encode(input)
    {
      var rest := input[i..];
      EncodeStep(input, i);
      var block := if |rest| > 3 then rest[..3] else rest;
      ghost var done, after := out[..n], EncodeFrom(input, i + 3);
      PutBlock(block, out, n);
      assert done + (EncodeBlock(block) + after) == (done + EncodeBlock(block)) + after;
      i := i + 3;
      n := n + 4;
    }
    out[n] := 0;
  }

  /** The encoding of the input from i on. */
  ghost function EncodeFrom(input: seq<Byte>, i: nat): seq<Char> {
    if i < |input| then Encode(input[i..]) else []
  }

  lemma EncodeEnds(input: seq<Byte>)
    ensures EncodeFrom(input, 0) == Encode(input) && forall i: nat :: i >= |input| ==> EncodeFrom(input, i) == []
  {
    assert input[0..] == input;
  }

  lemma EncodeStep(input: seq<Byte>, i: nat)
    requires i < |input|
    ensures var rest := input[i..];
            EncodeFrom(input, i) == EncodeBlock(if |rest| > 3 then rest[..3] else rest) + EncodeFrom(input, i + 3)
  {
    hide EncodeBlock;
    var rest := input[i..];
    if |rest| > 3 { assert rest[3..] == input[i + 3..]; }
  }

  /** The values still to come from position pos on; the position behind the terminating NUL is |text| + 1. */
  ghost function CodesFrom(text: seq<Char>, pos: nat): seq<Byte> {
    if pos <= |text| then Codes(text[pos..]) else []
  }

  lemma CodesFromStep(text: seq<Char>, pos: nat)
    requires pos <= |text|
    ensures CodesFrom(text, pos) == if pos == |text| then [] else CodeAt(text[pos]) + CodesFrom(text, pos + 1)
  {
    hide CodeAt, Codes;
    if pos < |text| {
      CodesStep(text[pos..]);
      assert text[pos..][1..] == text[pos + 1..];
    } else {
      NoCodes();
      assert text[pos..] == [];
    }
  }

  /** The innermost loop of jf_encode_decodeBase64: reads up to the next alphabet character, or over the terminating NUL. */
  method NextCode(text: seq<Char>, from: nat) returns (code: Option<Byte>, pos: nat)
    requires from <= |text|
    ensures from < pos <= |text| + 1 && (code.None? <==> CodesFrom(text, from) == []) && (code.None? <==> pos == |text| + 1)
    ensures code.Some? ==> CodesFrom(text, from) == [code.value] + CodesFrom(text, pos)
  {
    hide Codes, CodesFrom;
    code, pos := None, from;
    while pos <= |text| && code.None?
      invariant from <= pos <= |text| + 1 && (from == pos ==> code.None?)
      invariant code.None? && pos <= |text| ==> CodesFrom(text, from) == CodesFrom(text, pos)
      invariant code.None? && pos > |text| ==> CodesFrom(text, from) == []
      invariant code.Some? ==> pos <= |text| && CodesFrom(text, from) == [code.value] + CodesFrom(text, pos)
      decreases |text| + 1 - pos
    {
      CodesFromStep(text, pos);
      if pos < |text| && CodeOf(text[pos]) > 0 {
        code := Some((CodeOf(text[pos]) - 1) as Byte);
      }
      pos := pos + 1;
    }
  }

  /** The next four values, or as many as there are. */
  method ReadBlock(text: seq<Char>, from: nat, block: array<Byte>) returns (len: nat, pos: nat)
    requires from <= |text| && block.Length == 4
    modifies block
    ensures from < pos <= |text| + 1 && len + from <= pos && (len < 4 ==> pos == |text| + 1)
    ensures len <= 4 && block[..len] + CodesFrom(text, pos) == CodesFrom(text, from)
    ensures len < 4 ==> CodesFrom(text, pos) == []
  {
    hide CodesFrom;
    len, pos := 0, from;
    var i := 0;
    CodesEnd(text);
    while i < 4 && pos <= |text|
      invariant 0 <= i <= 4 && from <= pos <= |text| + 1 && len + from <= pos && (i > 0 ==> from < pos)
      invariant pos <= |text| ==> len == i
      invariant pos > |text| ==> len < i && len < 4
      invariant len <= 4 && block[..len] + CodesFrom(text, pos) == CodesFrom(text, from)
    {
      ghost var done, was := block[..len], CodesFrom(text, pos);
      var code;
      code, pos := NextCode(text, pos);
      if pos <= |text| {
        block[i] := code.value;
        len := len + 1;
        assert block[..len] == done + [code.value];
      } else {
        block[i] := 0;
        assert block[..len] == done;
      }
      i := i + 1;
    }
  }

  lemma CodesEnd(text: seq<Char>)
    ensures CodesFrom(text, |text| + 1) == []
  {
  }

  /** What a block of len values adds to the output. */
  lemma BlockAdds(block: seq<Byte>, len: nat, rest: seq<Byte>)
    requires |block| == 4 && len <= 4 && (len < 4 ==> rest == [])
    ensures var b := DecodeBlock(block[0], block[1], block[2], block[3]);
            FromCodes(block[..len] + rest) == [b.0, b.1, b.2][..if len == 0 then 0 else len - 1] + FromCodes(rest)
  {
    hide DecodeBlock;
    var s := block[..len] + rest;
    EarlierValuesDecide(block[0], block[1], block[2], block[3]);
    if len == 4 {
      assert s[4..] == rest;
    } else {
      assert s == block[..len] && FromCodes([]) == [];
    }
  }

  /** A byte does not depend on the values after the two it is made of. */
  lemma EarlierValuesDecide(a: Byte, b: Byte, c: Byte, d: Byte)
    ensures DecodeBlock(a, b, c, d).0 == DecodeBlock(a, b, 0, 0).0 == DecodeBlock(a, b, c, 0).0
    ensures DecodeBlock(a, b, c, d).1 == DecodeBlock(a, b, c, 0).1
  {
  }

  /** jf_encode_decodeBase64: every write is inside the buffer, and what counts is the decoding of the text. */
  method DecodeBase64(text: seq<Char>) returns (out: array<Byte>, n: nat)
    requires text != []
    ensures out.Length == |text| * 3 / 4 + 6 && n < out.Length && out[..n] == Decode(text) && out[n] == 0
  {
    hide Codes, CodesFrom, FromCodes, DecodeBlock, Decode;
    out := new Byte[|text| * 3 / 4 + 6](_ => 0);
    n := 0;
    var pos := 0;
    var block := new Byte[4](_ => 0);
    AllCodes(text);
    while pos <= |text|
      invariant 0 <= pos <= |text| + 1 && 4 * n <= 3 * pos
      invariant out[..n] + FromCodes(CodesFrom(text, pos)) == Decode(text)
      decreases |text| + 1 - pos
    {
      pos, n := DecodeStep(text, pos, block, out, n);
    }
    out[n] := 0;
  }

  /** One round of that loop. */
  method DecodeStep(text: seq<Char>, from: nat, block: array<Byte>, out: array<Byte>, at: nat) returns (pos: nat, n: nat)
    requires from <= |text| && block.Length == 4 && block != out && at + 3 <= out.Length
    modifies block, out
    ensures from < pos <= |text| + 1 && at <= n && 4 * (n - at) <= 3 * (pos - from) && n <= at + 3
    ensures out[..n] + FromCodes(CodesFrom(text, pos)) == old(out[..at]) + FromCodes(CodesFrom(text, from))
  {
    hide Codes, CodesFrom, FromCodes, DecodeBlock;
    var len;
    ghost var done := out[..at];
    len, pos := ReadBlock(text, from, block);
    ghost var rest := CodesFrom(text, pos);
    BlockAdds(block[..], len, rest);
    assert block[..][..len] == block[..len];
    n := at;
    if len > 0 {
      var b := DecodeBlock(block[0], block[1], block[2], block[3]);
      ghost var bytes := [b.0, b.1, b.2][..len - 1];
      PutBytes(out, at, b, len - 1);
      assert done + (bytes + FromCodes(rest)) == (done + bytes) + FromCodes(rest);
      n := at + len - 1;
    }
  }

  lemma AllCodes(text: seq<Char>)
    ensures FromCodes(CodesFrom(text, 0)) == Decode(text) && FromCodes(CodesFrom(text, |text| + 1)) == []
  {
    assert text[0..] == text;
  }

  /** Three bytes into the output, of which k are kept. */
  method PutBytes(out: array<Byte>, n: nat, b: (Byte, Byte, Byte), k: nat)
    requires n + 3 <= out.Length && k <= 3
    modifies out
    ensures out[..n + k] == old(out[..n]) + [b.0, b.1, b.2][..k]
  {
    out[n], out[n + 1], out[n + 2] := b.0, b.1, b.2;
    assert out[..n] == old(out[..n]);
    ghost var r := old(out[..n]) + [b.0, b.1, b.2][..k];
    forall i | 0 <= i < n + k ensures out[i] == r[i] {
      if i < n { assert out[i] == old(out[..n])[i]; }
    }
  }

  datatype Option<+T> = None | Some(value: T)
}
