/** The `Foo { foo: u8, bar: u16, baz: u32 }` record of the decoder's own tests. */
module StpackTests {
  import opened Wrappers
  import opened Stpack

  const FooLayout: Layout := [1, 2, 4]

  /** The bytes 0, 1, ..., 9. */
  const ZeroToNine: seq<byte> := [0, 1, 2, 3, 4, 5, 6, 7, 8, 9]

  lemma FooSize()
    ensures ValidLayout(FooLayout)
    ensures Size(FooLayout) == 7
  {
  }

  /** ReadInOrder over Foo, one field at a time. */
  lemma FooReadInOrder(le: bool)
    ensures ReadInOrder(FooLayout, ZeroToNine, le)
         == [FromBytes([0], le), FromBytes([1, 2], le), FromBytes([3, 4, 5, 6], le)]
  {
    var d := ZeroToNine;
    assert FooLayout[1..] == [2, 4] && FooLayout[1..][1..] == [4] && FooLayout[1..][1..][1..] == [];
    assert d[..1] == [0] && d[1..][..2] == [1, 2] && d[1..][2..][..4] == [3, 4, 5, 6];
    assert ReadInOrder([4], d[1..][2..], le) == [FromBytes([3, 4, 5, 6], le)];
    assert ReadInOrder([2, 4], d[1..], le) == [FromBytes([1, 2], le), FromBytes([3, 4, 5, 6], le)];
  }

  lemma FooUnpackLe()
    ensures UnpackLe(FooLayout, ZeroToNine) == Ok(([0x00, 0x0201, 0x06050403], [7, 8, 9]))
  {
    FooReadInOrder(true);
    assert [3, 4, 5, 6][1..] == [4, 5, 6] && [4, 5, 6][1..] == [5, 6] && [5, 6][1..] == [6];
    assert FromLeBytes([0]) == 0 && FromLeBytes([1, 2]) == 0x0201;
    assert FromLeBytes([3, 4, 5, 6]) == 0x06050403;
    assert ZeroToNine[7..] == [7, 8, 9];
  }

  lemma FooUnpackBe()
    ensures UnpackBe(FooLayout, ZeroToNine) == Ok(([0x00, 0x0102, 0x03040506], [7, 8, 9]))
  {
    FooReadInOrder(false);
    assert [3, 4, 5, 6][..3] == [3, 4, 5] && [3, 4, 5][..2] == [3, 4] && [3, 4][..1] == [3];
    assert FromBeBytes([0]) == 0 && FromBeBytes([1, 2]) == 0x0102;
    assert FromBeBytes([3, 4, 5, 6]) == 0x03040506;
    assert ZeroToNine[7..] == [7, 8, 9];
  }
}
