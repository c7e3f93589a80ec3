/** `Request::url_decode`: percent-decoding of a C string in the buffer it is read from. */
module UrlDecode {
  import opened FieldLists

  type Byte = b: int | 0 <= b < 256

  const PLUS: Byte := 0x2B
  const PERCENT: Byte := 0x25
  const SPACE: Byte := 0x20
  const UNDERSCORE: Byte := 0x5F

  /** `b | 0x20` */
  function SetBit5(b: Byte): Byte { if b / 32 % 2 == 1 then b else b + 32 }

  /** `hex2int`, with the wrap-around of `unsigned char`. */
  function Hex2Int(c: Byte): Byte {
    var h := (c - 0x30) % 256;
    var h := if h > 9 then (SetBit5((h + 0x30 - 1) % 256) - 0x61 + 11) % 256 else h;
    if h > 15 then 0xFF else h
  }

  /** The value of a hexadecimal digit of either case, 0xFF for any other byte. */
  function DigitValue(c: Byte): Byte {
    if 0x30 <= c <= 0x39 then c - 0x30
    else if 0x41 <= c <= 0x46 then c - 55
    else if 0x61 <= c <= 0x66 then c - 87
    else 0xFF
  }

  lemma SetBit5Is(b: Byte)
    ensures SetBit5(b) == if 32 <= b < 64 || 96 <= b < 128 || 160 <= b < 192 || 224 <= b then b else b + 32
  {
  }

  lemma Hex2IntReadsDigits(c: Byte)
    ensures Hex2Int(c) == DigitValue(c)
  {
    var h := (c - 0x30) % 256;
    assert h == if c >= 0x30 then c - 0x30 else c + 208;
    if h > 9 {
      var d := (h + 0x30 - 1) % 256;
      assert d == if c >= 1 then c - 1 else 255;
      LetterValue(d);
    }
  }

  /** What the source computes of a byte that is no decimal digit, from the byte before it. */
  lemma LetterValue(d: Byte)
    ensures var h := (SetBit5(d) - 0x61 + 11) % 256;
      && (0x40 <= d < 0x46 ==> h == d - 0x36)
      && (0x60 <= d < 0x66 ==> h == d - 0x56)
      && (!(0x40 <= d < 0x46) && !(0x60 <= d < 0x66) ==> h > 15)
  {
    SetBit5Is(d);
  }

  /** `( high << 4 ) | low` for two digits. */
  function Combine(high: Byte, low: Byte): Byte { (16 * high + low) % 256 }

  predicate IsHex(c: Byte) { DigitValue(c) != 0xFF }

  predicate IsControl(b: Byte) { b < 32 || b == 127 }

  function Mask(b: Byte): Byte { if IsControl(b) then UNDERSCORE else b }

  /** The bytes of a buffer up to its first NUL. */
  function CText(s: seq<Byte>): seq<Byte> { s[..IndexOf(s, 0)] }

  lemma CTextIs(s: seq<Byte>, n: nat)
    requires n < |s| && s[n] == 0 && 0 !in s[..n]
    ensures CText(s) == s[..n]
  {
    IndexOfIs(s, 0, n);
  }

  /** Left-to-right decoding: "%HH" is one byte, '+' a space, a '%' not followed by two digits itself. */
  function Decode(s: seq<Byte>): seq<Byte>
    decreases |s|
  {
    if s == [] then []
    else if s[0] == PLUS then [SPACE] + Decode(s[1..])
    else if s[0] == PERCENT && |s| >= 3 && IsHex(s[1]) && IsHex(s[2]) then
      [Mask(Combine(DigitValue(s[1]), DigitValue(s[2])))] + Decode(s[3..])
    else [s[0]] + Decode(s[1..])
  }

  lemma {:induction false} DecodeHasNoNul(s: seq<Byte>)
    requires 0 !in s
    ensures 0 !in Decode(s)
    decreases |s|
  {
    if s != [] {
      DecodeHasNoNul(s[1..]);
      if |s| >= 3 { DecodeHasNoNul(s[3..]); }
    }
  }

  /** The byte that decoding produces at `p`, and how many bytes it reads. */
  function OneByte(s: seq<Byte>, p: nat): (Byte, nat)
    requires p < |s|
  {
    if s[p] == PLUS then (SPACE, 1)
    else if s[p] == PERCENT && p + 2 < |s| && IsHex(s[p + 1]) && IsHex(s[p + 2]) then
      (Mask(Combine(DigitValue(s[p + 1]), DigitValue(s[p + 2]))), 3)
    else (s[p], 1)
  }

  lemma DecodeStep(s: seq<Byte>, p: nat)
    requires p < |s|
    ensures p + OneByte(s, p).1 <= |s|
    ensures Decode(s[p..]) == [OneByte(s, p).0] + Decode(s[p + OneByte(s, p).1..])
  {
    var r := s[p..];
    assert r[1..] == s[p + 1..];
    if |r| >= 3 { assert r[3..] == s[p + 3..]; }
  }

  /** `s` is the text of a buffer that holds `b`. */
  ghost predicate TextOf(s: seq<Byte>, b: seq<Byte>) {
    && |s| < |b| && b[|s|] == 0
    && forall k :: 0 <= k < |s| ==> s[k] == b[k] && s[k] != 0
  }

  lemma TextOfIsCText(s: seq<Byte>, b: seq<Byte>)
    requires TextOf(s, b)
    ensures 0 in b && CText(b) == s
  {
    assert b[..|s|] == s;
    CTextIs(b, |s|);
  }

  /** One turn of the loop: no read passes the terminator. */
  method ReadOne(buf: array<Byte>, src: nat, ghost text: seq<Byte>) returns (b: Byte, width: nat)
    requires src < |text| < buf.Length && buf[|text|] == 0
    requires forall k :: src <= k < |text| ==> buf[k] == text[k]
    ensures (b, width) == OneByte(text, src)
  {
    b, width := buf[src], 1;
    if buf[src] == PLUS {
      b := SPACE;
    } else if buf[src] == PERCENT {
      var high := Hex2Int(buf[src + 1]);
      Hex2IntReadsDigits(buf[src + 1]);
      if high != 0xFF {
        assert DigitValue(0) == 0xFF;
        var low := Hex2Int(buf[src + 2]);
        Hex2IntReadsDigits(buf[src + 2]);
        if low != 0xFF {
          high := Combine(high, low);
          if high < 32 || high == 127 { high := UNDERSCORE; }
          b, width := high, 3;
        }
      }
    }
  }

  /** What has been decoded and what is left, before and after one turn. */
  lemma Turn(done: seq<Byte>, text: seq<Byte>, src: nat)
    requires src < |text| && done + Decode(text[src..]) == Decode(text)
    ensures var (b, width) := OneByte(text, src);
      src + width <= |text| && (done + [b]) + Decode(text[src + width..]) == Decode(text)
  {
    DecodeStep(text, src);
    var (b, width) := OneByte(text, src);
    MoveOver(done, b, Decode(text[src + width..]));
  }

  /** The decoding loop; `dst` never passes `src`. */
  method DecodeLoop(buf: array<Byte>, ghost text: seq<Byte>) returns (dst: nat)
    requires TextOf(text, buf[..])
    modifies buf
    ensures dst == |Decode(text)| <= |text| && buf[..dst] == Decode(text)
    ensures forall k :: |text| <= k < buf.Length ==> buf[k] == old(buf[k])
  {
    ghost var done := [];
    var src := 0;
    dst := 0;
    assert text[0..] == text;
    while buf[src] != 0
      invariant 0 <= dst <= src <= |text| < buf.Length && buf[|text|] == 0
      invariant forall k :: |text| <= k < buf.Length ==> buf[k] == old(buf[k])
      invariant forall k :: src <= k < |text| ==> buf[k] == text[k] && text[k] != 0
      invariant |done| == dst && forall k :: 0 <= k < dst ==> buf[k] == done[k]
      invariant done + Decode(text[src..]) == Decode(text)
      decreases |text| - src
    {
      var b, width := ReadOne(buf, src, text);
      Turn(done, text, src);
      buf[dst] := b;
      done := done + [b];
      dst, src := dst + 1, src + width;
    }
    assert text[src..] == [];
    assert done == Decode(text);
  }

  /** Decoding in place. The buffer only has to hold a NUL; nothing behind that NUL is touched. */
  method DecodeInPlace(buf: array<Byte>)
    requires 0 in buf[..]
    modifies buf
    ensures 0 in buf[..] && CText(buf[..]) == Decode(CText(old(buf[..])))
    ensures forall k :: |CText(old(buf[..]))| < k < buf.Length ==> buf[k] == old(buf[k])
  {
    ghost var text := CText(buf[..]);
    var dst := DecodeLoop(buf, text);
    ghost var done := buf[..dst];
    buf[dst] := 0;
    DecodeHasNoNul(text);
    TextOfIsCText(done, buf[..]);
  }

  // ----- Round trip -----

  /** One element of an encoded query. */
  datatype Item = Literal(b: Byte) | Plus | Escape(b: Byte, upperHigh: bool, upperLow: bool)

  function Digit(v: int, upper: bool): Byte
    requires 0 <= v < 16
  {
    if v < 10 then v + 0x30 else if upper then v - 10 + 0x41 else v - 10 + 0x61
  }

  predicate IsDigit(c: Byte) { 0x30 <= c <= 0x39 || 0x41 <= c <= 0x46 || 0x61 <= c <= 0x66 }

  function PrintItem(i: Item): seq<Byte> {
    match i
    case Literal(b) => [b]
    case Plus => [0x2B]
    case Escape(b, h, l) => [0x25, Digit(b / 16, h), Digit(b % 16, l)]
  }

  function Print(items: seq<Item>): seq<Byte> {
    if items == [] then [] else PrintItem(items[0]) + Print(items[1..])
  }

  /** A literal is neither NUL nor '+', nor a '%' with two hexadecimal digits behind it. */
  predicate Readable(items: seq<Item>) {
    items != [] ==>
      && Readable(items[1..])
      && (items[0].Literal? ==>
            && items[0].b != 0 && items[0].b != 0x2B
            && (items[0].b == 0x25 ==>
                  var rest := Print(items[1..]); !(|rest| >= 2 && IsDigit(rest[0]) && IsDigit(rest[1]))))
  }

  function Sent(items: seq<Item>): seq<Byte> {
    seq(|items|, i requires 0 <= i < |items| => if items[i].Plus? then 0x20 else items[i].b)
  }

  /** As sent, but an underscore for each control character that was escaped. */
  predicate Received(items: seq<Item>, r: seq<Byte>) {
    && |r| == |items|
    && forall i :: 0 <= i < |items| ==>
         r[i] == if items[i].Escape? && (items[i].b < 32 || items[i].b == 127) then 0x5F else Sent(items)[i]
  }

  lemma DigitReadsBack(v: int, upper: bool)
    requires 0 <= v < 16
    ensures DigitValue(Digit(v, upper)) == v
  {
  }

  lemma EscapeReadsBack(b: Byte, upperHigh: bool, upperLow: bool)
    ensures IsHex(Digit(b / 16, upperHigh)) && IsHex(Digit(b % 16, upperLow))
    ensures Combine(DigitValue(Digit(b / 16, upperHigh)), DigitValue(Digit(b % 16, upperLow))) == b
  {
    DigitReadsBack(b / 16, upperHigh);
    DigitReadsBack(b % 16, upperLow);
  }

  /** Whatever way a text was encoded, this is what decoding makes of it. */
  lemma {:induction false} DecodePrint(items: seq<Item>)
    requires Readable(items)
    ensures Received(items, Decode(Print(items)))
  {
    if items != [] {
      var i, rest := items[0], Print(items[1..]);
      var s := Print(items);
      DecodePrint(items[1..]);
      if i.Escape? {
        EscapeReadsBack(i.b, i.upperHigh, i.upperLow);
        assert s[3..] == rest;
      } else {
        assert s[1..] == rest;
        assert |rest| >= 2 ==> s[1] == rest[0] && s[2] == rest[1];
      }
      assert Decode(s)[1..] == Decode(rest);
      forall k | 0 < k < |items|
        ensures Decode(s)[k] == Decode(rest)[k - 1] && items[k] == items[1..][k - 1]
      {
      }
    }
  }

  /** Every text is an encoded one, so decoding is settled for all of them. */
  lemma {:induction false} EveryTextIsEncoded(s: seq<Byte>) returns (items: seq<Item>)
    requires 0 !in s
    ensures Readable(items) && Print(items) == s
    decreases |s|
  {
    if s == [] {
      items := [];
    } else {
      var i := FirstItem(s);
      var n := |PrintItem(i)|;
      items := EveryTextIsEncoded(s[n..]);
      assert s == PrintItem(i) + s[n..];
      assert ([i] + items)[1..] == items;
      items := [i] + items;
    }
  }

  lemma FirstItem(s: seq<Byte>) returns (i: Item)
    requires s != [] && 0 !in s
    ensures PrintItem(i) <= s
    ensures i.Literal? ==> i.b != 0 && i.b != 0x2B
    ensures i == Literal(0x25) ==> !(|s| >= 3 && IsDigit(s[1]) && IsDigit(s[2]))
  {
    if s[0] == 0x2B {
      i := Plus;
    } else if s[0] == 0x25 && |s| >= 3 && IsDigit(s[1]) && IsDigit(s[2]) {
      var high, low := DigitValue(s[1]), DigitValue(s[2]);
      i := Escape(16 * high + low, s[1] <= 0x46, s[2] <= 0x46);
      assert i.b / 16 == high && i.b % 16 == low;
    } else {
      i := Literal(s[0]);
    }
  }

  /** An encoded text comes back as sent exactly when no control character was escaped in it. */
  lemma DecodeInvertsEncoding(items: seq<Item>)
    requires Readable(items)
    ensures Decode(Print(items)) == Sent(items)
       <==> forall i :: 0 <= i < |items| && items[i].Escape? ==> !(items[i].b < 32 || items[i].b == 127)
  {
    DecodePrint(items);
    if Decode(Print(items)) == Sent(items) {
      forall i | 0 <= i < |items| && items[i].Escape?
        ensures !(items[i].b < 32 || items[i].b == 127)
      {
        assert Decode(Print(items))[i] == Sent(items)[i];
      }
    }
  }
}
