/** Byte strings and the small vocabulary shared by every other module. */
module Bytes {

  datatype Option<+T> = None | Some(value: T)

  type Byte = x: int | 0 <= x < 0x100
  type Word = x: int | 0 <= x < 0x1_0000
  type Word32 = x: int | 0 <= x < 0x1_0000_0000

  /** The largest integer of the machine. */
  const MAX_INT := 0x7fff_ffff_ffff_ffff

  /** A string of the program: bytes, whatever they encode. */
  type Text = seq<Byte>

  const COLON: Byte := 0x3a

  /** The bytes of an ASCII literal. */
  function Ascii(s: string): (b: seq<Byte>)
    ensures |b| == |s|
  {
    seq(|s|, i requires 0 <= i < |s| => s[i] as int % 0x100)
  }

  /** One decimal digit or more. */
  predicate IsDecimal(text: Text) {
    text != [] && AllDigits(text)
  }

  predicate AllDigits(text: Text) {
    forall i :: 0 <= i < |text| ==> 0x30 <= text[i] <= 0x39
  }

  /** The number that a decimal numeral denotes. */
  function DecimalValue(text: Text): nat
    requires AllDigits(text)
  {
    if text == [] then 0
    else
      var digit: int := text[|text| - 1];
      10 * DecimalValue(text[..|text| - 1]) + (digit - 0x30)
  }

  /** The numeral of a number. */
  function Decimal(n: nat): (text: Text)
    ensures IsDecimal(text)
  {
    if n < 10 then [0x30 + n] else Decimal(n / 10) + [0x30 + n % 10]
  }

  lemma {:induction false} DecimalRoundTrip(n: nat)
    ensures DecimalValue(Decimal(n)) == n
  {
    var text := Decimal(n);
    if n >= 10 {
      DecimalRoundTrip(n / 10);
      assert text[..|text| - 1] == Decimal(n / 10);
    } else {
      assert text[..0] == [];
    }
  }

  function IndexByte(text: Text, c: Byte, i: nat): Option<nat>
    ensures IndexByte(text, c, i).Some? ==> i <= IndexByte(text, c, i).value < |text|
    decreases |text| - i
  {
    if i >= |text| then None else if text[i] == c then Some(i) else IndexByte(text, c, i + 1)
  }

  lemma {:induction false} IndexByteSkips(text: Text, c: Byte, more: Text, i: nat)
    requires i <= |text| && forall k :: 0 <= k < |text| ==> text[k] != c
    ensures IndexByte(text + [c] + more, c, i) == Some(|text|)
    decreases |text| - i
  {
    if i < |text| {
      IndexByteSkips(text, c, more, i + 1);
    }
  }

  lemma {:induction false} IndexByteAbsent(text: Text, c: Byte, i: nat)
    requires i <= |text| && c !in text
    ensures IndexByte(text, c, i) == None
    decreases |text| - i
  {
    if i < |text| {
      IndexByteAbsent(text, c, i + 1);
    }
  }

  /** Decimal digits, and nothing else. */
  lemma DecimalDigits(text: Text)
    ensures IsDecimal(text) <==> text != [] && forall c :: c in text ==> c in Ascii("0123456789")
  {
    var digits := Ascii("0123456789");
    assert forall k :: 0 <= k < 10 ==> digits[k] == 0x30 + k;
    forall c: Byte ensures c in digits <==> 0x30 <= c <= 0x39 {
      if 0x30 <= c <= 0x39 {
        assert digits[c - 0x30] == c;
      }
    }
    hide Ascii;
    if forall c :: c in text ==> c in digits {
      assert forall i :: 0 <= i < |text| ==> text[i] in digits;
    }
  }

  function ReadUint16BE(b: seq<Byte>, offset: nat): Word
    requires offset + 2 <= |b|
  {
    var high: int, low: int := b[offset], b[offset + 1];
    0x100 * high + low
  }

  function Uint16BE(w: Word): (b: seq<Byte>)
    ensures |b| == 2 && ReadUint16BE(b, 0) == w
  {
    [w / 0x100, w % 0x100]
  }

  lemma Uint16BEOfRead(b: seq<Byte>, offset: nat)
    requires offset + 2 <= |b|
    ensures Uint16BE(ReadUint16BE(b, offset)) == b[offset..offset + 2]
  {
    var high: int, low: int := b[offset], b[offset + 1];
    assert (0x100 * high + low) / 0x100 == high && (0x100 * high + low) % 0x100 == low;
  }

  /** What is appended does not show in a slice of what was there before. */
  lemma SliceBefore(b: seq<Byte>, x: seq<Byte>, i: nat, j: nat)
    requires i <= j <= |b|
    ensures (b + x)[i..j] == b[i..j]
  {
    assert |(b + x)[i..j]| == |b[i..j]|;
    forall k | 0 <= k < j - i ensures (b + x)[i..j][k] == b[i..j][k] {
      assert (b + x)[i + k] == b[i + k];
    }
  }

  lemma SliceAfter(b: seq<Byte>, x: seq<Byte>, i: nat)
    requires i <= |b|
    ensures (b + x)[i..] == b[i..] + x
  {
  }

  /** The byte stream that a series of reads delivers. */
  function Flatten(chunks: seq<seq<Byte>>): seq<Byte> {
    if chunks == [] then [] else chunks[0] + Flatten(chunks[1..])
  }

  lemma Reassociate<T>(a: seq<T>, b: seq<T>, c: seq<T>)
    ensures a + b + c == a + (b + c)
  {
  }

  /** Some element of a non-empty set. */
  ghost function Member<T>(s: set<T>): (x: T)
    requires s != {}
    ensures x in s
  {
    var x :| x in s;
    x
  }
}
