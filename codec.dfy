/**
 * The Bitmessage wire encodings the envelope is built from: var_int,
 * int32, fixed-length byte fields, var_bytes and var_string. Encoders give
 * bytes; decoders read from the front of a byte sequence and report the
 * value together with the number of bytes consumed, or None when the input
 * ends too early.
 */
module Codec {
  import opened Wrappers
  import opened Bytes

  /** Values a var_int can carry: unsigned 64-bit. */
  const UInt64Bound: nat := 0x1_0000_0000_0000_0000

  type UInt64 = x: nat | x < UInt64Bound

  type Int32 = x: int | -0x8000_0000 <= x < 0x8000_0000

  /** The 64 bits of a var_int read as a Java long, in two's complement. */
  function AsLong(v: UInt64): (r: int)
    ensures -0x8000_0000_0000_0000 <= r < 0x8000_0000_0000_0000
    ensures (r - v) % UInt64Bound == 0
  {
    if v < 0x8000_0000_0000_0000 then v else v - UInt64Bound
  }

  /** A decoded value and how many bytes it took. */
  datatype Decoded<+T> = Decoded(value: T, length: nat)

  lemma Pow256Widths()
    ensures Pow256(2) == 0x1_0000
    ensures Pow256(4) == 0x1_0000_0000
    ensures Pow256(8) == UInt64Bound
  {
    assert Pow256(1) == 256;
    assert Pow256(2) == 0x1_0000;
    assert Pow256(3) == 0x100_0000;
    assert Pow256(4) == 0x1_0000_0000;
    assert Pow256(5) == 0x100_0000_0000;
    assert Pow256(6) == 0x1_0000_0000_0000;
    assert Pow256(7) == 0x100_0000_0000_0000;
  }

  /** A number below 256^n reads back unchanged from its n-byte encoding. */
  lemma FitsRoundTrip(v: nat, n: nat)
    requires v < Pow256(n)
    ensures ToNat(FromNat(v, n)) == v
  {
    ToNatFromNat(v, n);
    DivModUnique(v, Pow256(n), 0, v);
  }

  // ---------------------------------------------------------------------
  // var_int
  // ---------------------------------------------------------------------

  /** How many value bytes follow a var_int's first byte: 2, 4 or 8 after 0xfd, 0xfe, 0xff, else none. */
  function VarIntWidth(first: Byte): (w: nat)
    ensures w <= 8
  {
    if first == 0xfd then 2 else if first == 0xfe then 4 else if first == 0xff then 8 else 0
  }

  /** The first byte of the shortest var_int for v. */
  function VarIntMarker(v: UInt64): Byte
  {
    if v < 0xfd then v else if v <= 0xffff then 0xfd else if v <= 0xffff_ffff then 0xfe else 0xff
  }

  /** A big-endian number of at most 8 bytes. */
  function UInt64Of(b: seq<Byte>): (r: UInt64)
    requires |b| <= 8
    ensures r == ToNat(b)
  {
    Pow256Widths();
    Pow256Mono(|b|, 8);
    ToNat(b)
  }

  /** var_int: one byte below 0xfd, else a 0xfd/0xfe/0xff marker and 2/4/8 big-endian bytes. */
  function EncodeVarInt(v: UInt64): (r: seq<Byte>)
    ensures 1 <= |r| <= 9
  {
    [VarIntMarker(v)] + FromNat(v, VarIntWidth(VarIntMarker(v)))
  }

  function DecodeVarInt(s: seq<Byte>): (r: Option<Decoded<UInt64>>)
    ensures r.Some? ==> 1 <= r.value.length <= |s|
  {
    if |s| == 0 then None
    else
      var w := VarIntWidth(s[0]);
      if w == 0 then Some(Decoded(s[0], 1))
      else if |s| < 1 + w then None
      else Some(Decoded(UInt64Of(s[1..1 + w]), 1 + w))
  }

  lemma {:induction false} VarIntRoundTrip(v: UInt64, rest: seq<Byte>)
    ensures DecodeVarInt(EncodeVarInt(v) + rest) == Some(Decoded(v, |EncodeVarInt(v)|))
  {
    Pow256Widths();
    var w := VarIntWidth(VarIntMarker(v));
    var e := EncodeVarInt(v) + rest;
    if w != 0 {
      var f := FromNat(v, w);
      ConcatAssoc([VarIntMarker(v)], f, rest);
      DropPrefix([VarIntMarker(v)], f + rest);
      TakePrefix(f, rest);
      TakeDrop(e, 1, w);
      FitsRoundTrip(v, w);
    }
  }

  // ---------------------------------------------------------------------
  // int32
  // ---------------------------------------------------------------------

  /** int32: four big-endian bytes of the two's complement value. */
  function EncodeInt32(x: Int32): (r: seq<Byte>)
    ensures |r| == 4
  {
    FromNat(x % 0x1_0000_0000, 4)
  }

  function DecodeInt32(s: seq<Byte>): (r: Option<Decoded<Int32>>)
    ensures r.Some? ==> r.value.length == 4 <= |s|
  {
    if |s| < 4 then None
    else
      Pow256Widths();
      var u := ToNat(s[..4]);
      Some(Decoded(if u >= 0x8000_0000 then u - 0x1_0000_0000 else u, 4))
  }

  lemma {:induction false} Int32RoundTrip(x: Int32, rest: seq<Byte>)
    ensures DecodeInt32(EncodeInt32(x) + rest) == Some(Decoded(x, 4))
  {
    Pow256Widths();
    TakePrefix(EncodeInt32(x), rest);
    FitsRoundTrip(x % 0x1_0000_0000, 4);
  }

  // ---------------------------------------------------------------------
  // Fixed-length fields, var_bytes, var_string
  // ---------------------------------------------------------------------

  /** Reads exactly n bytes. */
  function DecodeBytes(s: seq<Byte>, n: nat): (r: Option<Decoded<seq<Byte>>>)
    ensures r.Some? ==> r.value.length == n <= |s| && r.value.value == s[..n]
    ensures r.None? <==> |s| < n
  {
    if |s| < n then None else Some(Decoded(s[..n], n))
  }

  /** var_bytes: the length as var_int, then the bytes. */
  function EncodeVarBytes(b: seq<Byte>): seq<Byte>
    requires |b| < UInt64Bound
  {
    EncodeVarInt(|b|) + b
  }

  function DecodeVarBytes(s: seq<Byte>): (r: Option<Decoded<seq<Byte>>>)
    ensures r.Some? ==> r.value.length <= |s| && |r.value.value| < UInt64Bound
  {
    match DecodeVarInt(s)
    case None => None
    case Some(len) =>
      if |s| - len.length < len.value then None
      else Some(Decoded(s[len.length..len.length + len.value], len.length + len.value))
  }

  lemma {:induction false} VarBytesRoundTrip(b: seq<Byte>, rest: seq<Byte>)
    requires |b| < UInt64Bound
    ensures DecodeVarBytes(EncodeVarBytes(b) + rest) == Some(Decoded(b, |EncodeVarBytes(b)|))
  {
    var h := EncodeVarInt(|b|);
    ConcatAssoc(h, b, rest);
    VarIntRoundTrip(|b|, b + rest);
    DropPrefix(h, b + rest);
    TakePrefix(b, rest);
    TakeDrop(h + (b + rest), |h|, |b|);
  }

  /** The characters of an ASCII string as bytes. */
  function AsciiBytes(str: string): (r: seq<Byte>)
    requires forall i :: 0 <= i < |str| ==> str[i] < 128 as char
    ensures |r| == |str|
  {
    seq(|str|, i requires 0 <= i < |str| => str[i] as int)
  }

  function BytesAsChars(b: seq<Byte>): (r: string)
    ensures |r| == |b|
  {
    seq(|b|, i requires 0 <= i < |b| => b[i] as char)
  }

  /** var_string: the string's bytes as var_bytes. */
  function EncodeVarString(str: string): seq<Byte>
    requires forall i :: 0 <= i < |str| ==> str[i] < 128 as char
    requires |str| < UInt64Bound
  {
    EncodeVarBytes(AsciiBytes(str))
  }

  function DecodeVarString(s: seq<Byte>): (r: Option<Decoded<string>>)
    ensures r.Some? ==> r.value.length <= |s|
  {
    match DecodeVarBytes(s)
    case None => None
    case Some(b) => Some(Decoded(BytesAsChars(b.value), b.length))
  }

  lemma VarStringRoundTrip(str: string, rest: seq<Byte>)
    requires forall i :: 0 <= i < |str| ==> str[i] < 128 as char
    requires |str| < UInt64Bound
    ensures DecodeVarString(EncodeVarString(str) + rest) == Some(Decoded(str, |EncodeVarString(str)|))
  {
    VarBytesRoundTrip(AsciiBytes(str), rest);
    assert BytesAsChars(AsciiBytes(str)) == str;
  }

  // ---------------------------------------------------------------------
  // Field layouts: a fixed sequence of fields read one after the other
  // ---------------------------------------------------------------------

  datatype FieldKind = VarIntField | Int32Field | BytesField(size: nat)

  datatype Field = VarIntValue(n: UInt64) | Int32Value(i: Int32) | BytesValue(b: seq<Byte>)

  function KindOf(f: Field): FieldKind
  {
    match f
    case VarIntValue(_) => VarIntField
    case Int32Value(_) => Int32Field
    case BytesValue(b) => BytesField(|b|)
  }

  function KindsOf(fs: seq<Field>): (r: seq<FieldKind>)
    ensures |r| == |fs|
  {
    seq(|fs|, i requires 0 <= i < |fs| => KindOf(fs[i]))
  }

  function EncodeField(f: Field): seq<Byte>
  {
    match f
    case VarIntValue(n) => EncodeVarInt(n)
    case Int32Value(i) => EncodeInt32(i)
    case BytesValue(b) => b
  }

  /** Reads one field of kind k from the front of s. */
  function DecodeField(k: FieldKind, s: seq<Byte>): (r: Option<Decoded<Field>>)
    ensures r.Some? ==> r.value.length <= |s| && KindOf(r.value.value) == k
  {
    match k
    case VarIntField =>
      (match DecodeVarInt(s)
       case None => None
       case Some(d) => Some(Decoded(VarIntValue(d.value), d.length)))
    case Int32Field =>
      (match DecodeInt32(s)
       case None => None
       case Some(d) => Some(Decoded(Int32Value(d.value), d.length)))
    case BytesField(n) =>
      (match DecodeBytes(s, n)
       case None => None
       case Some(d) => Some(Decoded(BytesValue(d.value), d.length)))
  }

  lemma {:induction false} FieldRoundTrip(f: Field, rest: seq<Byte>)
    ensures DecodeField(KindOf(f), EncodeField(f) + rest) == Some(Decoded(f, |EncodeField(f)|))
  {
    match f
    case VarIntValue(n) => VarIntRoundTrip(n, rest);
    case Int32Value(i) => Int32RoundTrip(i, rest);
    case BytesValue(b) => TakePrefix(b, rest);
  }

  /** The fields one after the other. */
  function EncodeFields(fs: seq<Field>): seq<Byte>
  {
    if |fs| == 0 then [] else EncodeField(fs[0]) + EncodeFields(fs[1..])
  }

  lemma EncodeFieldsCons(f: Field, fs: seq<Field>)
    ensures EncodeFields([f] + fs) == EncodeField(f) + EncodeFields(fs)
  {
    assert ([f] + fs)[0] == f && ([f] + fs)[1..] == fs;
  }

  /** Four leading fields followed by more, written out. */
  lemma EncodeFourFields(f0: Field, f1: Field, f2: Field, f3: Field, fs: seq<Field>)
    ensures EncodeFields([f0, f1, f2, f3] + fs)
      == EncodeField(f0) + EncodeField(f1) + EncodeField(f2) + EncodeField(f3) + EncodeFields(fs)
  {
    var e0, e1, e2, e3, rest := EncodeField(f0), EncodeField(f1), EncodeField(f2), EncodeField(f3), EncodeFields(fs);
    assert [f0, f1, f2, f3] + fs == [f0] + ([f1] + ([f2] + ([f3] + fs)));
    EncodeFieldsCons(f3, fs);
    EncodeFieldsCons(f2, [f3] + fs);
    EncodeFieldsCons(f1, [f2] + ([f3] + fs));
    EncodeFieldsCons(f0, [f1] + ([f2] + ([f3] + fs)));
    ConcatAssoc(e0 + e1 + e2, e3, rest);
    ConcatAssoc(e0 + e1, e2, e3 + rest);
    ConcatAssoc(e0, e1, e2 + (e3 + rest));
  }

  lemma EncodeTwoFields(f0: Field, f1: Field)
    ensures EncodeFields([f0, f1]) == EncodeField(f0) + EncodeField(f1)
  {
    EncodeFieldsCons(f1, []);
    assert [f0, f1] == [f0] + [f1];
    EncodeFieldsCons(f0, [f1]);
    AppendEmpty(EncodeField(f1));
  }

  /** Reads the fields of the given kinds in order; None as soon as one of them runs past the end. */
  function DecodeFields(kinds: seq<FieldKind>, s: seq<Byte>): (r: Option<Decoded<seq<Field>>>)
    ensures r.Some? ==> r.value.length <= |s| && |r.value.value| == |kinds|
  {
    if |kinds| == 0 then Some(Decoded([], 0))
    else
      match DecodeField(kinds[0], s)
      case None => None
      case Some(first) =>
        match DecodeFields(kinds[1..], s[first.length..])
        case None => None
        case Some(others) =>
          Some(Decoded([first.value] + others.value, first.length + others.length))
  }

  /** DecodeFields when the first field and then the others decode. */
  lemma DecodeFieldsCons(kinds: seq<FieldKind>, s: seq<Byte>, first: Decoded<Field>, others: Decoded<seq<Field>>)
    requires |kinds| != 0 && DecodeField(kinds[0], s).Some? && DecodeField(kinds[0], s).value == first
    requires DecodeFields(kinds[1..], s[first.length..]).Some?
    requires DecodeFields(kinds[1..], s[first.length..]).value == others
    ensures DecodeFields(kinds, s).Some?
    ensures DecodeFields(kinds, s).value == Decoded([first.value] + others.value, first.length + others.length)
  {
  }

  /** Reading a layout back from its encoding gives the fields that were written, whatever follows. */
  lemma {:induction false} FieldsRoundTrip(fs: seq<Field>, rest: seq<Byte>)
    ensures DecodeFields(KindsOf(fs), EncodeFields(fs) + rest).Some?
    ensures DecodeFields(KindsOf(fs), EncodeFields(fs) + rest).value == Decoded(fs, |EncodeFields(fs)|)
    decreases |fs|
  {
    if |fs| != 0 {
      var head, tail := EncodeField(fs[0]), EncodeFields(fs[1..]);
      var kinds := KindsOf(fs);
      ConcatAssoc(head, tail, rest);
      FieldRoundTrip(fs[0], tail + rest);
      DropPrefix(head, tail + rest);
      assert kinds[1..] == KindsOf(fs[1..]);
      FieldsRoundTrip(fs[1..], rest);
      DecodeFieldsCons(kinds, head + (tail + rest), Decoded(fs[0], |head|), Decoded(fs[1..], |tail|));
      assert [fs[0]] + fs[1..] == fs;
    }
  }
}
