/**
 * The fixed-layout record decoder of libs/stpack/src/lib.rs.
 *
 * The `unpacker!` macro turns a struct of unsigned integer fields into a
 * `SIZE` constant and two decoders, `unpack_le` and `unpack_be`.  Here a
 * record layout is the list of its field widths in bytes, in declaration
 * order, and a decoded record is the list of its field values.
 */
module Stpack {
  import opened Wrappers

  /** An unsigned byte (`u8`). */
  type byte = b: int | 0 <= b < 0x100

  /** `size_of` of the field types the macro accepts: u8, u16, u32, u64. */
  predicate IsFieldWidth(w: nat) {
    w == 1 || w == 2 || w == 4 || w == 8
  }

  /** The widths of a record's fields, in declaration order. */
  type Layout = seq<nat>

  predicate ValidLayout(l: Layout) {
    forall k :: 0 <= k < |l| ==> IsFieldWidth(l[k])
  }

  /** 256 to the power n: one more than the largest integer of n bytes. */
  function Pow256(n: nat): (r: nat)
    ensures r > 0
  {
    if n == 0 then 1 else 0x100 * Pow256(n - 1)
  }

  // ---------------------------------------------------------------------
  // Integers from bytes (`from_le_bytes`, `from_be_bytes`)
  // ---------------------------------------------------------------------

  /** `uN::from_le_bytes`: the first byte is the least significant. */
  function FromLeBytes(b: seq<byte>): (n: nat)
    ensures n < Pow256(|b|)
  {
    if |b| == 0 then 0
    else
      var rest := FromLeBytes(b[1..]);
      assert rest <= Pow256(|b| - 1) - 1;
      b[0] + 0x100 * rest
  }

  /** `uN::from_be_bytes`: the first byte is the most significant. */
  function FromBeBytes(b: seq<byte>): (n: nat)
    ensures n < Pow256(|b|)
  {
    if |b| == 0 then 0
    else
      var high := FromBeBytes(b[..|b| - 1]);
      assert high <= Pow256(|b| - 1) - 1;
      high * 0x100 + b[|b| - 1]
  }

  /** `@constructor_from`: the endianness picks the conversion. */
  function FromBytes(b: seq<byte>, le: bool): (n: nat)
    ensures n < Pow256(|b|)
  {
    if le then FromLeBytes(b) else FromBeBytes(b)
  }

  function Reversed(b: seq<byte>): (r: seq<byte>)
    ensures |r| == |b|
  {
    if |b| == 0 then [] else [b[|b| - 1]] + Reversed(b[..|b| - 1])
  }

  /** Big-endian decoding is little-endian decoding of the reversed bytes. */
  lemma {:induction false} FromBeIsReversedLe(b: seq<byte>)
    ensures FromBeBytes(b) == FromLeBytes(Reversed(b))
  {
    if |b| > 0 {
      var r := Reversed(b);
      assert r[1..] == Reversed(b[..|b| - 1]);
      FromBeIsReversedLe(b[..|b| - 1]);
    }
  }

  // ---------------------------------------------------------------------
  // Sizes and offsets (`@allsize`)
  // ---------------------------------------------------------------------

  /** `@allsize`: the width of the first field plus the size of the rest. */
  function Size(l: Layout): (s: nat)
    ensures |l| > 0 ==> l[0] <= s
  {
    if |l| == 0 then 0 else l[0] + Size(l[1..])
  }

  /** A layout of n fields of 1 to 8 bytes each has a SIZE between n and 8n. */
  lemma {:induction false} SizeBounds(l: Layout)
    requires ValidLayout(l)
    ensures |l| <= Size(l) <= 8 * |l|
  {
    if |l| > 0 {
      assert IsFieldWidth(l[0]) && ValidLayout(l[1..]);
      SizeBounds(l[1..]);
    }
  }

  /** The size of two layouts one after the other is the sum of their sizes: no padding. */
  lemma {:induction false} SizeAppend(a: Layout, b: Layout)
    ensures Size(a + b) == Size(a) + Size(b)
  {
    if |a| == 0 {
      assert a + b == b;
    } else {
      assert (a + b)[1..] == a[1..] + b;
      SizeAppend(a[1..], b);
    }
  }

  /** `@constructor_one`: field k starts at the size of the fields declared before it. */
  function Offset(l: Layout, k: nat): (off: nat)
    requires k <= |l|
    ensures off <= Size(l)
    ensures k < |l| ==> off + l[k] <= Size(l)
  {
    assert l == l[..k] + l[k..];
    SizeAppend(l[..k], l[k..]);
    Size(l[..k])
  }

  /** Field k occupies [Offset(k), Offset(k) + width); the next field starts where it ends. */
  lemma FieldWindow(l: Layout, k: nat)
    requires k < |l|
    ensures Offset(l, 0) == 0
    ensures Offset(l, k) + l[k] == Offset(l, k + 1)
    ensures Offset(l, |l|) == Size(l)
  {
    assert l[..k + 1] == l[..k] + [l[k]];
    SizeAppend(l[..k], [l[k]]);
    assert [l[k]][1..] == [];
    assert l[..|l|] == l;
  }

  /** Fields never overlap: a field declared earlier ends before a later one starts. */
  lemma {:induction false} FieldsDisjoint(l: Layout, j: nat, k: nat)
    requires j < k < |l|
    ensures Offset(l, j) + l[j] <= Offset(l, k)
    decreases k - j
  {
    FieldWindow(l, j);
    if j + 1 < k {
      FieldsDisjoint(l, j + 1, k);
      FieldWindow(l, j + 1);
    }
  }

  /** Offsets of a layout, seen from its second field onwards. */
  lemma OffsetTail(l: Layout, k: nat)
    requires 0 < k <= |l|
    ensures Offset(l, k) == l[0] + Offset(l[1..], k - 1)
  {
    assert l[..k][1..] == l[1..][..k - 1];
  }

  // ---------------------------------------------------------------------
  // Decoding (`@constructor`, `unpack_le`, `unpack_be`)
  // ---------------------------------------------------------------------

  /** The bytes of field k. */
  function Window(l: Layout, data: seq<byte>, k: nat): (w: seq<byte>)
    requires k < |l| && Size(l) <= |data|
    ensures |w| == l[k]
  {
    data[Offset(l, k)..Offset(l, k) + l[k]]
  }

  /** One field per declared field, each converted from its own window of `data`. */
  function DecodeFields(l: Layout, data: seq<byte>, le: bool): (fs: seq<nat>)
    requires Size(l) <= |data|
    ensures |fs| == |l|
  {
    seq(|l|, k requires 0 <= k < |l| => FromBytes(Window(l, data, k), le))
  }

  /**
   * A reference decoder that reads the fields strictly in declaration
   * order, each from the bytes the previous one left.
   */
  function ReadInOrder(l: Layout, data: seq<byte>, le: bool): (fs: seq<nat>)
    requires Size(l) <= |data|
    decreases |l|
  {
    if |l| == 0 then []
    else [FromBytes(data[..l[0]], le)] + ReadInOrder(l[1..], data[l[0]..], le)
  }

  /** Reading each field from its offset is the same as reading the fields one after another. */
  lemma {:induction false} DecodeFieldsInOrder(l: Layout, data: seq<byte>, le: bool)
    requires Size(l) <= |data|
    ensures DecodeFields(l, data, le) == ReadInOrder(l, data, le)
    decreases |l|
  {
    if |l| > 0 {
      var fs := DecodeFields(l, data, le);
      var tail := DecodeFields(l[1..], data[l[0]..], le);
      DecodeFieldsInOrder(l[1..], data[l[0]..], le);
      FieldWindow(l, 0);
      assert fs[0] == FromBytes(data[..l[0]], le);
      forall k | 1 <= k < |l|
        ensures fs[k] == tail[k - 1]
      {
        OffsetTail(l, k);
        assert Window(l, data, k) == Window(l[1..], data[l[0]..], k - 1);
      }
      assert fs == [fs[0]] + tail;
    }
  }

  /** Field values only depend on the first Size(l) bytes. */
  lemma DecodeFieldsPrefix(l: Layout, data: seq<byte>, le: bool)
    requires Size(l) <= |data|
    ensures DecodeFields(l, data[..Size(l)], le) == DecodeFields(l, data, le)
  {
    var a := DecodeFields(l, data[..Size(l)], le);
    var b := DecodeFields(l, data, le);
    forall k | 0 <= k < |l| ensures a[k] == b[k] {
      assert Window(l, data[..Size(l)], k) == Window(l, data, k);
    }
  }

  /** `unpack_le`: too short is `Err(())`; otherwise the record and the bytes after it. */
  function UnpackLe(l: Layout, data: seq<byte>): (r: Result<(seq<nat>, seq<byte>), ()>)
    ensures r.Err? <==> |data| < Size(l)
    ensures r.Ok? ==> r.value.1 == data[Size(l)..]
    ensures r.Ok? ==> r.value.0 == ReadInOrder(l, data, true)
  {
    if |data| < Size(l) then Err(())
    else
      var (head, right) := (data[..Size(l)], data[Size(l)..]);
      DecodeFieldsPrefix(l, data, true);
      DecodeFieldsInOrder(l, data, true);
      Ok((DecodeFields(l, head, true), right))
  }

  /** `unpack_be`: as `unpack_le`, with each field read most significant byte first. */
  function UnpackBe(l: Layout, data: seq<byte>): (r: Result<(seq<nat>, seq<byte>), ()>)
    ensures r.Err? <==> |data| < Size(l)
    ensures r.Ok? ==> r.value.1 == data[Size(l)..]
    ensures r.Ok? ==> r.value.0 == ReadInOrder(l, data, false)
  {
    if |data| < Size(l) then Err(())
    else
      var (head, right) := (data[..Size(l)], data[Size(l)..]);
      DecodeFieldsPrefix(l, data, false);
      DecodeFieldsInOrder(l, data, false);
      Ok((DecodeFields(l, head, false), right))
  }

  /** The `Unpacker::unpack(data, le)` dispatch the symbol-table reader calls. */
  function Unpack(l: Layout, data: seq<byte>, le: bool): (r: Result<(seq<nat>, seq<byte>), ()>)
    ensures r.Err? <==> |data| < Size(l)
    ensures r.Ok? ==> r.value == (ReadInOrder(l, data, le), data[Size(l)..])
  {
    if le then UnpackLe(l, data) else UnpackBe(l, data)
  }

  /** Field k of a successful decode is its window of the input, read in the given byte order. */
  lemma UnpackFieldWindow(l: Layout, data: seq<byte>, le: bool, k: nat)
    requires k < |l| && Size(l) <= |data|
    ensures Unpack(l, data, le).Ok?
    ensures |Unpack(l, data, le).value.0| == |l|
    ensures Unpack(l, data, le).value.0[k] == FromBytes(data[Offset(l, k)..Offset(l, k) + l[k]], le)
    ensures Unpack(l, data, le).value.0[k] < Pow256(l[k])
  {
    DecodeFieldsInOrder(l, data, le);
  }

  /** Bytes past Size(l) cannot influence any field. */
  lemma UnpackIgnoresTail(l: Layout, a: seq<byte>, b: seq<byte>, le: bool)
    requires Size(l) <= |a| && Size(l) <= |b| && a[..Size(l)] == b[..Size(l)]
    ensures Unpack(l, a, le).Ok? && Unpack(l, b, le).Ok?
    ensures Unpack(l, a, le).value.0 == Unpack(l, b, le).value.0
  {
    DecodeFieldsInOrder(l, a, le);
    DecodeFieldsInOrder(l, b, le);
    DecodeFieldsPrefix(l, a, le);
    DecodeFieldsPrefix(l, b, le);
  }

  // ---------------------------------------------------------------------
  // The encoder the decoder inverts
  // ---------------------------------------------------------------------

  /** `uN::to_le_bytes` for an integer that fits in w bytes. */
  function ToLeBytes(n: nat, w: nat): (b: seq<byte>)
    requires n < Pow256(w)
    ensures |b| == w && FromLeBytes(b) == n
  {
    if w == 0 then []
    else
      var b := [n % 0x100] + ToLeBytes(n / 0x100, w - 1);
      assert b[1..] == ToLeBytes(n / 0x100, w - 1);
      b
  }

  /** `uN::to_be_bytes` for an integer that fits in w bytes. */
  function ToBeBytes(n: nat, w: nat): (b: seq<byte>)
    requires n < Pow256(w)
    ensures |b| == w && FromBeBytes(b) == n
  {
    if w == 0 then []
    else
      var b := ToBeBytes(n / 0x100, w - 1) + [n % 0x100];
      assert b[..w - 1] == ToBeBytes(n / 0x100, w - 1);
      b
  }

  function ToBytes(n: nat, w: nat, le: bool): (b: seq<byte>)
    requires n < Pow256(w)
    ensures |b| == w && FromBytes(b, le) == n
  {
    if le then ToLeBytes(n, w) else ToBeBytes(n, w)
  }

  /** Every field value fits its declared width. */
  predicate Fits(l: Layout, fs: seq<nat>) {
    |fs| == |l| && forall k :: 0 <= k < |l| ==> fs[k] < Pow256(l[k])
  }

  /** The bytes of a record: its fields one after another, in the given byte order. */
  function Encode(l: Layout, fs: seq<nat>, le: bool): (b: seq<byte>)
    requires Fits(l, fs)
    ensures |b| == Size(l)
    decreases |l|
  {
    if |l| == 0 then []
    else ToBytes(fs[0], l[0], le) + Encode(l[1..], fs[1..], le)
  }

  lemma {:induction false} ReadEncoded(l: Layout, fs: seq<nat>, le: bool, rest: seq<byte>)
    requires Fits(l, fs)
    ensures ReadInOrder(l, Encode(l, fs, le) + rest, le) == fs
    decreases |l|
  {
    if |l| > 0 {
      var head := ToBytes(fs[0], l[0], le);
      var tail := Encode(l[1..], fs[1..], le);
      var data := Encode(l, fs, le) + rest;
      assert data == head + (tail + rest);
      assert data[..l[0]] == head;
      assert data[l[0]..] == tail + rest;
      ReadEncoded(l[1..], fs[1..], le, rest);
    }
  }

  /** Decoding the encoding of a record gives back its fields and the bytes after it. */
  lemma UnpackEncodeRoundTrip(l: Layout, fs: seq<nat>, le: bool, rest: seq<byte>)
    requires Fits(l, fs)
    ensures Unpack(l, Encode(l, fs, le) + rest, le) == Ok((fs, rest))
  {
    ReadEncoded(l, fs, le, rest);
    var data := Encode(l, fs, le) + rest;
    assert data[Size(l)..] == rest;
  }

  lemma {:induction false} LeBytesOfDecode(b: seq<byte>)
    ensures ToLeBytes(FromLeBytes(b), |b|) == b
  {
    if |b| > 0 {
      var rest := FromLeBytes(b[1..]);
      assert FromLeBytes(b) == b[0] + 0x100 * rest;
      assert FromLeBytes(b) % 0x100 == b[0] && FromLeBytes(b) / 0x100 == rest;
      LeBytesOfDecode(b[1..]);
      assert b == [b[0]] + b[1..];
    }
  }

  lemma {:induction false} BeBytesOfDecode(b: seq<byte>)
    ensures ToBeBytes(FromBeBytes(b), |b|) == b
  {
    if |b| > 0 {
      BeBytesOfDecode(b[..|b| - 1]);
      assert b == b[..|b| - 1] + [b[|b| - 1]];
    }
  }

  lemma {:induction false} EncodeReadInOrder(l: Layout, data: seq<byte>, le: bool)
    requires Size(l) <= |data|
    ensures Fits(l, ReadInOrder(l, data, le))
    ensures Encode(l, ReadInOrder(l, data, le), le) == data[..Size(l)]
    decreases |l|
  {
    if |l| > 0 {
      var head, tail := data[..l[0]], data[l[0]..];
      var fs := ReadInOrder(l, data, le);
      EncodeReadInOrder(l[1..], tail, le);
      BytesOfDecode(head, le);
      assert fs[0] == FromBytes(head, le) && fs[1..] == ReadInOrder(l[1..], tail, le);
      FitsCons(l, fs);
      assert data[..Size(l)] == head + tail[..Size(l[1..])];
    }
  }

  /** Encoding the value of some bytes in either byte order gives them back. */
  lemma BytesOfDecode(b: seq<byte>, le: bool)
    ensures ToBytes(FromBytes(b, le), |b|, le) == b
  {
    if le { LeBytesOfDecode(b); } else { BeBytesOfDecode(b); }
  }

  /** A record fits its layout when its first field fits and the rest fit the rest. */
  lemma FitsCons(l: Layout, fs: seq<nat>)
    requires |l| > 0 && |fs| == |l| && fs[0] < Pow256(l[0]) && Fits(l[1..], fs[1..])
    ensures Fits(l, fs)
  {
    forall k | 1 <= k < |l| ensures fs[k] < Pow256(l[k]) {
      assert fs[k] == fs[1..][k - 1] && l[k] == l[1..][k - 1];
    }
  }

  /** Decoding loses nothing: encoding the decoded fields gives back the Size(l) bytes consumed. */
  lemma EncodeUnpackRoundTrip(l: Layout, data: seq<byte>, le: bool)
    requires Size(l) <= |data|
    ensures Unpack(l, data, le).Ok?
    ensures Fits(l, Unpack(l, data, le).value.0)
    ensures Encode(l, Unpack(l, data, le).value.0, le) == data[..Size(l)]
  {
    EncodeReadInOrder(l, data, le);
  }
}
