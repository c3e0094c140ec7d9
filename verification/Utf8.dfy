/** Strict UTF-8 as Python's text files decode it: table 3-7 of the Unicode standard, section 4 of RFC 3629. */
module Utf8 {
  newtype Byte = x: int | 0 <= x < 256

  type Bytes = seq<Byte>

  const NEWLINE: Byte := 10

  predicate IsContinuation(b: Byte) { 0x80 <= b < 0xC0 }

  /** Between two bytes the decoder is between characters, waits for `more` continuation bytes of which the
      next lies from `low` to `high`, or has failed. */
  datatype Decoder = Between | Inside(more: nat, low: Byte, high: Byte) | Broken

  function Lead(b: Byte): Decoder {
    if b < 0x80 then Between
    else if 0xC2 <= b <= 0xDF then Inside(1, 0x80, 0xBF)
    else if b == 0xE0 then Inside(2, 0xA0, 0xBF)
    else if b == 0xED then Inside(2, 0x80, 0x9F)
    else if 0xE1 <= b <= 0xEF then Inside(2, 0x80, 0xBF)
    else if b == 0xF0 then Inside(3, 0x90, 0xBF)
    else if 0xF1 <= b <= 0xF3 then Inside(3, 0x80, 0xBF)
    else if b == 0xF4 then Inside(3, 0x80, 0x8F)
    else Broken
  }

  function Feed(d: Decoder, b: Byte): Decoder {
    match d
    case Between => Lead(b)
    case Inside(more, low, high) =>
      if !(IsContinuation(b) && low <= b <= high) then Broken
      else if more <= 1 then Between
      else Inside(more - 1, 0x80, 0xBF)
    case Broken => Broken
  }

  function Scan(d: Decoder, data: Bytes): Decoder
    decreases |data|
  {
    if data == [] then d else Scan(Feed(d, data[0]), data[1..])
  }

  /** The bytes are the encoding of some text. */
  predicate Decodes(data: Bytes) { Scan(Between, data) == Between }

  lemma {:induction false} ScanAppend(d: Decoder, a: Bytes, b: Bytes)
    ensures Scan(d, a + b) == Scan(Scan(d, a), b)
    decreases |a|
  {
    if a == [] {
      assert a + b == b;
    } else {
      assert (a + b)[1..] == a[1..] + b;
      ScanAppend(Feed(d, a[0]), a[1..], b);
    }
  }

  lemma {:induction false} BrokenStays(data: Bytes)
    ensures Scan(Broken, data) == Broken
  {
    if data != [] { BrokenStays(data[1..]); }
  }

  /** Text put before other bytes never changes whether they decode. */
  lemma DecodesAfterText(a: Bytes, b: Bytes)
    requires Decodes(a)
    ensures Decodes(a + b) <==> Decodes(b)
  {
    ScanAppend(Between, a, b);
  }

  /** Bytes that do not decode stay so unless continuation bytes follow them directly. */
  lemma UndecodableStays(a: Bytes, b: Bytes)
    requires !Decodes(a) && (b == [] || !IsContinuation(b[0]))
    ensures !Decodes(a + b)
  {
    ScanAppend(Between, a, b);
    if b != [] {
      var d := Scan(Between, a);
      assert Feed(d, b[0]) == Broken;
      BrokenStays(b[1..]);
    }
  }

  /** A cut through a text leaves text exactly when it does not fall inside a character. */
  lemma CutDecodesExactlyBetweenCharacters(text: Bytes, cut: nat)
    requires Decodes(text) && cut <= |text|
    ensures Decodes(text[..cut]) <==> cut == |text| || !IsContinuation(text[cut])
  {
    var a, b := text[..cut], text[cut..];
    assert a + b == text;
    ScanAppend(Between, a, b);
    if cut < |text| {
      BrokenStays(b[1..]);
    }
  }

  lemma {:induction false} AsciiDecodes(data: Bytes)
    requires forall i :: 0 <= i < |data| ==> data[i] < 0x80
    ensures Decodes(data)
  {
    if data != [] { AsciiDecodes(data[1..]); }
  }

  /** Continuation bytes belong to their character, so any other byte splits bytes into parts that decode alone. */
  lemma DecodesInParts(a: Bytes, b: Bytes)
    requires b == [] || !IsContinuation(b[0])
    ensures Decodes(a + b) <==> Decodes(a) && Decodes(b)
  {
    if Decodes(a) { DecodesAfterText(a, b); } else { UndecodableStays(a, b); }
  }

  // ---------------------------------------------------------------- against the definition by code points

  /** A Unicode scalar value: any code point but the surrogates. */
  predicate Scalar(c: int) { 0 <= c < 0xD800 || 0xE000 <= c < 0x11_0000 }

  function Encode(c: int): Bytes
    requires Scalar(c)
  {
    if c < 0x80 then [c as Byte]
    else if c < 0x800 then [(0xC0 + c / 64) as Byte, (0x80 + c % 64) as Byte]
    else if c < 0x1_0000 then [(0xE0 + c / 4096) as Byte, (0x80 + c / 64 % 64) as Byte, (0x80 + c % 64) as Byte]
    else [(0xF0 + c / 262144) as Byte, (0x80 + c / 4096 % 64) as Byte, (0x80 + c / 64 % 64) as Byte, (0x80 + c % 64) as Byte]
  }

  predicate AllScalar(text: seq<int>) { forall i :: 0 <= i < |text| ==> Scalar(text[i]) }

  function EncodeAll(text: seq<int>): Bytes
    requires AllScalar(text)
  {
    if text == [] then [] else Encode(text[0]) + EncodeAll(text[1..])
  }

  lemma ScanOne(d: Decoder, a: Byte)
    ensures Scan(d, [a]) == Feed(d, a)
  {
    assert [a][1..] == [];
  }

  lemma ScanTwo(d: Decoder, a: Byte, b: Byte)
    ensures Scan(d, [a, b]) == Feed(Feed(d, a), b)
  {
    assert [a, b][1..] == [b];
    ScanOne(Feed(d, a), b);
  }

  lemma ScanThree(d: Decoder, a: Byte, b: Byte, c: Byte)
    ensures Scan(d, [a, b, c]) == Feed(Feed(Feed(d, a), b), c)
  {
    assert [a, b, c][1..] == [b, c];
    ScanTwo(Feed(d, a), b, c);
  }

  lemma ScanFour(d: Decoder, a: Byte, b: Byte, c: Byte, e: Byte)
    ensures Scan(d, [a, b, c, e]) == Feed(Feed(Feed(Feed(d, a), b), c), e)
  {
    assert [a, b, c, e][1..] == [b, c, e];
    ScanThree(Feed(d, a), b, c, e);
  }

  lemma ThreeBytesDecode(a: Byte, b: Byte, c: Byte)
    requires Lead(a).Inside? && Lead(a).more == 2 && Lead(a).low <= b <= Lead(a).high && IsContinuation(c)
    ensures Decodes([a, b, c])
  {
    ScanThree(Between, a, b, c);
    assert Feed(Lead(a), b) == Inside(1, 0x80, 0xBF);
  }

  lemma FourBytesDecode(a: Byte, b: Byte, c: Byte, e: Byte)
    requires Lead(a).Inside? && Lead(a).more == 3 && Lead(a).low <= b <= Lead(a).high
    requires IsContinuation(c) && IsContinuation(e)
    ensures Decodes([a, b, c, e])
  {
    ScanFour(Between, a, b, c, e);
    assert Feed(Lead(a), b) == Inside(2, 0x80, 0xBF);
    assert Feed(Feed(Lead(a), b), c) == Inside(1, 0x80, 0xBF);
  }

  lemma ThreeDecode(x: int, y: int, z: int)
    requires 0 <= x < 16 && 0 <= y < 64 && 0 <= z < 64 && (x == 0 ==> 32 <= y) && (x == 13 ==> y < 32)
    ensures Decodes([(0xE0 + x) as Byte, (0x80 + y) as Byte, (0x80 + z) as Byte])
  {
    ThreeBytesDecode((0xE0 + x) as Byte, (0x80 + y) as Byte, (0x80 + z) as Byte);
  }

  lemma FourDecode(w: int, x: int, y: int, z: int)
    requires 0 <= w <= 4 && 0 <= x < 64 && 0 <= y < 64 && 0 <= z < 64 && (w == 0 ==> 16 <= x) && (w == 4 ==> x < 16)
    ensures Decodes([(0xF0 + w) as Byte, (0x80 + x) as Byte, (0x80 + y) as Byte, (0x80 + z) as Byte])
  {
    FourBytesDecode((0xF0 + w) as Byte, (0x80 + x) as Byte, (0x80 + y) as Byte, (0x80 + z) as Byte);
  }

  lemma EncodedDecodes(c: int)
    requires Scalar(c)
    ensures Decodes(Encode(c))
  {
    var e := Encode(c);
    if c < 0x80 {
      ScanOne(Between, e[0]);
    } else if c < 0x800 {
      ScanTwo(Between, e[0], e[1]);
    } else if c < 0x1_0000 {
      ThreeDecode(c / 4096, c / 64 % 64, c % 64);
    } else {
      FourDecode(c / 262144, c / 4096 % 64, c / 64 % 64, c % 64);
    }
  }

  lemma {:induction false} TextsDecode(text: seq<int>)
    requires AllScalar(text)
    ensures Decodes(EncodeAll(text))
  {
    if text != [] {
      EncodedDecodes(text[0]);
      TextsDecode(text[1..]);
      DecodesAfterText(Encode(text[0]), EncodeAll(text[1..]));
    }
  }

  /** Inside a character there is a next byte, and it continues the character. */
  lemma NextByte(d: Decoder, data: Bytes)
    requires d.Inside? && Scan(d, data) == Between
    ensures data != [] && IsContinuation(data[0]) && d.low <= data[0] <= d.high
    ensures Scan(Feed(d, data[0]), data[1..]) == Between
  {
    if Feed(d, data[0]) == Broken { BrokenStays(data[1..]); }
  }

  /** Bytes that decode start with the encoding of a scalar value, and the rest decodes. */
  lemma FirstCharacter(data: Bytes) returns (c: int, n: nat)
    requires data != [] && Decodes(data)
    ensures Scalar(c) && n <= |data| && data[..n] == Encode(c) && 0 < n && Decodes(data[n..])
  {
    var d := Lead(data[0]);
    var a := data[0] as int;
    if d == Broken { BrokenStays(data[1..]); }
    if d == Between {
      c, n := a, 1;
    } else if d.more == 1 {
      NextByte(d, data[1..]);
      assert data[1..][1..] == data[2..];
      c, n := (a - 0xC0) * 64 + (data[1] as int - 0x80), 2;
      assert data[..2] == [data[0], data[1]];
    } else if d.more == 2 {
      c, n := ThreeBytes(data);
    } else {
      c, n := FourBytes(data);
    }
  }

  /** Three digits to the base 64 are the digits of the number they make. */
  lemma Digits(x: int, y: int, z: int)
    requires 0 <= x && 0 <= y < 64 && 0 <= z < 64
    ensures var c := x * 4096 + y * 64 + z; c / 4096 == x && c / 64 % 64 == y && c % 64 == z
  {
    var c := x * 4096 + y * 64 + z;
    assert c / 64 == x * 64 + y;
  }

  lemma ThreeEncoded(x: int, y: int, z: int)
    requires 0 <= x < 16 && 0 <= y < 64 && 0 <= z < 64 && (x == 0 ==> 32 <= y) && (x == 13 ==> y < 32)
    ensures var c := x * 4096 + y * 64 + z;
      Scalar(c) && Encode(c) == [(0xE0 + x) as Byte, (0x80 + y) as Byte, (0x80 + z) as Byte]
  {
    Digits(x, y, z);
  }

  lemma FourEncoded(w: int, x: int, y: int, z: int)
    requires 0 <= w <= 4 && 0 <= x < 64 && 0 <= y < 64 && 0 <= z < 64 && (w == 0 ==> 16 <= x) && (w == 4 ==> x < 16)
    ensures var c := w * 262144 + x * 4096 + y * 64 + z;
      Scalar(c) && Encode(c) == [(0xF0 + w) as Byte, (0x80 + x) as Byte, (0x80 + y) as Byte, (0x80 + z) as Byte]
  {
    var c, v := w * 262144 + x * 4096 + y * 64 + z, w * 64 + x;
    Digits(v, y, z);
    assert c == v * 4096 + y * 64 + z;
    assert v / 64 == w && v % 64 == x;
    assert c / 262144 == w;
  }

  /** The two bytes that a decoder waits for are there, and what follows them decodes. */
  lemma TwoMore(d: Decoder, data: Bytes)
    requires d.Inside? && d.more == 2 && 0x80 <= d.low && d.high < 0xC0 && Scan(d, data) == Between
    ensures 2 <= |data| && d.low <= data[0] <= d.high && IsContinuation(data[1]) && Decodes(data[2..])
  {
    NextByte(d, data);
    NextByte(Inside(1, 0x80, 0xBF), data[1..]);
    assert data[1..][1..] == data[2..];
  }

  lemma ThreeMore(d: Decoder, data: Bytes)
    requires d.Inside? && d.more == 3 && 0x80 <= d.low && d.high < 0xC0 && Scan(d, data) == Between
    ensures 3 <= |data| && d.low <= data[0] <= d.high && IsContinuation(data[1]) && IsContinuation(data[2])
    ensures Decodes(data[3..])
  {
    NextByte(d, data);
    TwoMore(Inside(2, 0x80, 0xBF), data[1..]);
    assert data[1..][2..] == data[3..];
  }

  lemma ThreeBytes(data: Bytes) returns (c: int, n: nat)
    requires data != [] && Decodes(data) && Lead(data[0]).Inside? && Lead(data[0]).more == 2
    ensures Scalar(c) && n <= |data| && data[..n] == Encode(c) && 0 < n && Decodes(data[n..])
  {
    TwoMore(Lead(data[0]), data[1..]);
    assert data[1..][2..] == data[3..];
    var x, y, z := data[0] as int - 0xE0, data[1] as int - 0x80, data[2] as int - 0x80;
    ThreeEncoded(x, y, z);
    c, n := x * 4096 + y * 64 + z, 3;
    assert data[..3] == [data[0], data[1], data[2]];
  }

  lemma FourBytes(data: Bytes) returns (c: int, n: nat)
    requires data != [] && Decodes(data) && Lead(data[0]).Inside? && Lead(data[0]).more == 3
    ensures Scalar(c) && n <= |data| && data[..n] == Encode(c) && 0 < n && Decodes(data[n..])
  {
    ThreeMore(Lead(data[0]), data[1..]);
    assert data[1..][3..] == data[4..];
    var w, x, y, z := data[0] as int - 0xF0, data[1] as int - 0x80, data[2] as int - 0x80, data[3] as int - 0x80;
    FourEncoded(w, x, y, z);
    c, n := w * 262144 + x * 4096 + y * 64 + z, 4;
    assert data[..4] == [data[0], data[1], data[2], data[3]];
  }

  lemma {:induction false} DecodedIsText(data: Bytes) returns (text: seq<int>)
    requires Decodes(data)
    ensures AllScalar(text) && EncodeAll(text) == data
    decreases |data|
  {
    if data == [] {
      text := [];
    } else {
      var c, n := FirstCharacter(data);
      var more := DecodedIsText(data[n..]);
      text := [c] + more;
      assert text[1..] == more;
      assert data == data[..n] + data[n..];
    }
  }

  /** The decoder accepts exactly the encodings of sequences of scalar values: no overlong form, no surrogate,
      nothing above the last code point, nothing cut off. */
  lemma DecodesExactlyTexts(data: Bytes)
    ensures Decodes(data) <==> exists text :: AllScalar(text) && EncodeAll(text) == data
  {
    if Decodes(data) {
      var text := DecodedIsText(data);
    }
    if text :| AllScalar(text) && EncodeAll(text) == data {
      TextsDecode(text);
    }
  }
}
