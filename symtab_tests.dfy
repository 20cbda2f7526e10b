/**
 * The unit tests of symtab.rs as proved scenarios: each builds the
 * iterator over the test's sections and states what its calls return.
 * The string-table lookup stays a parameter, so a name "test" at offset 1
 * appears as `lookup(StrtabContent, 1)`.
 */
module SymtabTests {
  import opened Wrappers
  import opened Stpack
  import opened Symtab
  import opened SymtabProps

  /** "\0test\0": the string table every test links to. */
  const StrtabContent: seq<byte> := [0, 0x74, 0x65, 0x73, 0x74, 0]

  /** A 32-bit big-endian entry: name 1, value 0x11223344, all else 0. */
  const Elf32BeEntry: seq<byte> := [0, 0, 0, 1, 0x11, 0x22, 0x33, 0x44, 0, 0, 0, 0, 0, 0, 0, 0]

  /** A 64-bit little-endian entry: name 1, value 0x8899aabbccddeeff, all else 0. */
  const Elf64LeEntry: seq<byte> :=
    [1, 0, 0, 0, 0, 0, 0, 0, 0xff, 0xee, 0xdd, 0xcc, 0xbb, 0xaa, 0x99, 0x88,
     0, 0, 0, 0, 0, 0, 0, 0]

  const Strtab: Section := Section(SHT_STRTAB, 0, 0, StrtabContent)

  /** The last byte of a 32-bit entry cut off: 15 bytes. */
  const Elf32BeShortEntry: seq<byte> := Elf32BeEntry[..15]

  /** The last byte of a 64-bit entry cut off: 23 bytes. */
  const Elf64LeShortEntry: seq<byte> := Elf64LeEntry[..23]

  /** Zero bytes read as 0 in either byte order. */
  lemma {:induction false} ZeroBytes(b: seq<byte>, le: bool)
    requires forall k :: 0 <= k < |b| ==> b[k] == 0
    ensures FromBytes(b, le) == 0
    decreases |b|
  {
    if |b| > 0 {
      ZeroBytes(b[1..], true);
      ZeroBytes(b[..|b| - 1], false);
    }
  }

  /** The fields of the 32-bit entry, read big-endian. */
  lemma Elf32BeEntryFields()
    ensures FromBytes(Elf32BeEntry[0..4], false) == 1
    ensures FromBytes(Elf32BeEntry[4..8], false) == 0x11223344
    ensures FromBytes(Elf32BeEntry[8..12], false) == 0
    ensures Elf32BeEntry[12] == 0 && Elf32BeEntry[13] == 0
    ensures FromBytes(Elf32BeEntry[14..16], false) == 0
  {
    assert Elf32BeEntry[0..4] == [0, 0, 0, 1];
    assert [0, 0, 0, 1][..3] == [0, 0, 0] && [0, 0, 0][..2] == [0, 0] && [0, 0][..1] == [0];
    assert FromBeBytes([0, 0, 0, 1]) == 1;
    ZeroBytes(Elf32BeEntry[8..12], false);
    ZeroBytes(Elf32BeEntry[14..16], false);
    assert Elf32BeEntry[4..8] == [0x11, 0x22, 0x33, 0x44];
    assert [0x11, 0x22, 0x33, 0x44][..3] == [0x11, 0x22, 0x33];
    assert [0x11, 0x22, 0x33][..2] == [0x11, 0x22] && [0x11, 0x22][..1] == [0x11];
    assert FromBeBytes([0x11, 0x22, 0x33, 0x44]) == 0x11223344;
  }

  /** The value bytes of the 64-bit entry, least significant first. */
  lemma Elf64LeValue()
    ensures FromLeBytes([0xff, 0xee, 0xdd, 0xcc, 0xbb, 0xaa, 0x99, 0x88]) == 0x8899aabb_ccddeeff
  {
    assert [0xff, 0xee, 0xdd, 0xcc, 0xbb, 0xaa, 0x99, 0x88][1..] == [0xee, 0xdd, 0xcc, 0xbb, 0xaa, 0x99, 0x88];
    assert [0xee, 0xdd, 0xcc, 0xbb, 0xaa, 0x99, 0x88][1..] == [0xdd, 0xcc, 0xbb, 0xaa, 0x99, 0x88];
    assert [0xdd, 0xcc, 0xbb, 0xaa, 0x99, 0x88][1..] == [0xcc, 0xbb, 0xaa, 0x99, 0x88];
    assert [0xcc, 0xbb, 0xaa, 0x99, 0x88][1..] == [0xbb, 0xaa, 0x99, 0x88];
    assert [0xbb, 0xaa, 0x99, 0x88][1..] == [0xaa, 0x99, 0x88];
    assert [0xaa, 0x99, 0x88][1..] == [0x99, 0x88] && [0x99, 0x88][1..] == [0x88];
    assert FromLeBytes([0xbb, 0xaa, 0x99, 0x88]) == 0x8899aabb;
  }

  /** The fields of the 64-bit entry, read little-endian. */
  lemma Elf64LeEntryFields()
    ensures FromBytes(Elf64LeEntry[0..4], true) == 1
    ensures Elf64LeEntry[4] == 0 && Elf64LeEntry[5] == 0
    ensures FromBytes(Elf64LeEntry[6..8], true) == 0
    ensures FromBytes(Elf64LeEntry[8..16], true) == 0x8899aabb_ccddeeff
    ensures FromBytes(Elf64LeEntry[16..24], true) == 0
  {
    var e := Elf64LeEntry;
    assert e[4] == 0 && e[5] == 0;
    assert e[0..4] == [1, 0, 0, 0];
    assert [1, 0, 0, 0][1..] == [0, 0, 0] && [0, 0, 0][1..] == [0, 0] && [0, 0][1..] == [0];
    assert FromLeBytes([1, 0, 0, 0]) == 1;
    ZeroBytes(Elf64LeEntry[6..8], true);
    ZeroBytes(Elf64LeEntry[16..24], true);
    assert Elf64LeEntry[8..16] == [0xff, 0xee, 0xdd, 0xcc, 0xbb, 0xaa, 0x99, 0x88];
    Elf64LeValue();
  }

  // ---------------------------------------------------------------------
  // elf32be_first_section_is_zero_length_symtab
  // ---------------------------------------------------------------------

  const ZeroLengthFirst: seq<Section> :=
    [Section(SHT_SYMTAB, 2, 16, []), Section(SHT_SYMTAB, 2, 16, Elf32BeEntry), Strtab]

  /** The first call steps over the empty symbol table and returns the entry of the second. */
  lemma ZeroLengthFirstSymbol(lookup: Lookup)
    ensures Step(Elf32, false, ZeroLengthFirst, lookup, 0, 0)
         == Outcome(Some(Ok(Symbol(lookup(StrtabContent, 1), 0x11223344, 0, 0, 0, 0))), 1, 1)
  {
    var secs := ZeroLengthFirst;
    assert Skipped(secs, 0, 0, 0);
    StepSkipsSection(Elf32, false, secs, lookup, 0, 0);
    Elf32Symbol(false, secs, lookup, 1, 0);
    assert secs[1].content[secs[1].entsize * 0..] == Elf32BeEntry;
    Elf32BeEntryFields();
  }

  /** The second call finds nothing left. */
  lemma ZeroLengthFirstEnd(lookup: Lookup)
    ensures Step(Elf32, false, ZeroLengthFirst, lookup, 1, 1).item == None
  {
    var secs := ZeroLengthFirst;
    assert Skipped(secs, 1, 1, 1) && Skipped(secs, 1, 1, 2);
    StepNoneIff(Elf32, false, secs, lookup, 1, 1);
  }

  /** Collecting the iterator: one symbol, from the second section, then the end. */
  method Elf32BeFirstSectionIsZeroLengthSymtab(lookup: Lookup) returns (items: seq<Option<Result<Symbol, ElfError>>>)
    ensures items == [Some(Ok(Symbol(lookup(StrtabContent, 1), 0x11223344, 0, 0, 0, 0))), None]
  {
    ZeroLengthFirstSymbol(lookup);
    ZeroLengthFirstEnd(lookup);
    var it := new SymtabIterator(Elf32, ElfBE, ZeroLengthFirst, lookup);
    var first := it.Next();
    var second := it.Next();
    items := [first, second];
  }

  // ---------------------------------------------------------------------
  // elf32be_invalid_symtab_entsize
  // ---------------------------------------------------------------------

  const ZeroEntsizeSections: seq<Section> := [Section(SHT_SYMTAB, 1, 0, Elf32BeEntry), Strtab]

  /** An entsize of 0 is an error, and the cursor stays at (0, 0). */
  method Elf32BeInvalidSymtabEntsize(lookup: Lookup) returns (item: Option<Result<Symbol, ElfError>>, secidx: nat, symidx: nat)
    ensures item == Some(Err(InvalidEntrySize))
    ensures secidx == 0 && symidx == 0
  {
    StepZeroEntsize(Elf32, false, ZeroEntsizeSections, lookup, 0, 0, 0);
    var it := new SymtabIterator(Elf32, ElfBE, ZeroEntsizeSections, lookup);
    item := it.Next();
    secidx, symidx := it.currSecIdx, it.currSymIdx;
  }

  // ---------------------------------------------------------------------
  // elf32be_incomplete_symtab
  // ---------------------------------------------------------------------

  const Incomplete32: seq<Section> := [Section(SHT_SYMTAB, 1, 15, Elf32BeShortEntry), Strtab]

  /** One 15-byte entry cannot hold a 16-byte record: the decode fails. */
  method Elf32BeIncompleteSymtab(lookup: Lookup) returns (item: Option<Result<Symbol, ElfError>>)
    ensures item == Some(Err(MalformedEntry))
  {
    StepAtEntry(Elf32, false, Incomplete32, lookup, 0, 0);
    var it := new SymtabIterator(Elf32, ElfBE, Incomplete32, lookup);
    item := it.Next();
  }

  // ---------------------------------------------------------------------
  // elf32be_symtab_link_out_of_range
  // ---------------------------------------------------------------------

  const LinkOutOfRange: seq<Section> := [Section(SHT_SYMTAB, 2, 16, Elf32BeEntry), Strtab]

  /** Link 2 in a list of two sections names no section. */
  method Elf32BeSymtabLinkOutOfRange(lookup: Lookup) returns (item: Option<Result<Symbol, ElfError>>)
    ensures item == Some(Err(InvalidLinkIndex))
  {
    StepAtEntry(Elf32, false, LinkOutOfRange, lookup, 0, 0);
    var it := new SymtabIterator(Elf32, ElfBE, LinkOutOfRange, lookup);
    item := it.Next();
  }

  // ---------------------------------------------------------------------
  // elf32be_shstrtab_invalid_type
  // ---------------------------------------------------------------------

  const LinkNotStrtab: seq<Section> :=
    [Section(SHT_SYMTAB, 1, 16, Elf32BeEntry), Section(SHT_SYMTAB, 0, 0, StrtabContent)]

  /** The linked section is itself a symbol table, not a string table. */
  method Elf32BeShstrtabInvalidType(lookup: Lookup) returns (item: Option<Result<Symbol, ElfError>>)
    ensures item == Some(Err(LinkNotStringTable))
  {
    StepAtEntry(Elf32, false, LinkNotStrtab, lookup, 0, 0);
    var it := new SymtabIterator(Elf32, ElfBE, LinkNotStrtab, lookup);
    item := it.Next();
  }

  // ---------------------------------------------------------------------
  // elf64le
  // ---------------------------------------------------------------------

  const Elf64Sections: seq<Section> := [Section(SHT_SYMTAB, 1, 24, Elf64LeEntry), Strtab]

  /** The first call returns the one entry, its value read least significant byte first. */
  lemma Elf64LeSymbol(lookup: Lookup)
    ensures Step(Elf64, true, Elf64Sections, lookup, 0, 0)
         == Outcome(Some(Ok(Symbol(lookup(StrtabContent, 1), 0x8899aabb_ccddeeff, 0, 0, 0, 0))), 0, 1)
  {
    var secs := Elf64Sections;
    Elf64Symbol(true, secs, lookup, 0, 0);
    assert secs[0].content[secs[0].entsize * 0..] == Elf64LeEntry;
    Elf64LeEntryFields();
  }

  /** The second call finds nothing left. */
  lemma Elf64LeEnd(lookup: Lookup)
    ensures Step(Elf64, true, Elf64Sections, lookup, 0, 1).item == None
  {
    var secs := Elf64Sections;
    assert Skipped(secs, 0, 1, 0) && Skipped(secs, 0, 1, 1);
    StepNoneIff(Elf64, true, secs, lookup, 0, 1);
  }

  /** Collecting the iterator: the 64-bit symbol, then the end. */
  method Elf64Le(lookup: Lookup) returns (items: seq<Option<Result<Symbol, ElfError>>>)
    ensures items == [Some(Ok(Symbol(lookup(StrtabContent, 1), 0x8899aabb_ccddeeff, 0, 0, 0, 0))), None]
  {
    Elf64LeSymbol(lookup);
    Elf64LeEnd(lookup);
    var it := new SymtabIterator(Elf64, ElfLE, Elf64Sections, lookup);
    var first := it.Next();
    var second := it.Next();
    items := [first, second];
  }

  // ---------------------------------------------------------------------
  // elf64le_incomplete_symtab
  // ---------------------------------------------------------------------

  const Incomplete64: seq<Section> := [Section(SHT_SYMTAB, 1, 23, Elf64LeShortEntry), Strtab]

  /** One 23-byte entry cannot hold a 24-byte record: the decode fails. */
  method Elf64LeIncompleteSymtab(lookup: Lookup) returns (item: Option<Result<Symbol, ElfError>>)
    ensures item == Some(Err(MalformedEntry))
  {
    StepAtEntry(Elf64, true, Incomplete64, lookup, 0, 0);
    var it := new SymtabIterator(Elf64, ElfLE, Incomplete64, lookup);
    item := it.Next();
  }

  // ---------------------------------------------------------------------
  // An entsize below the record size: entries overlap
  // ---------------------------------------------------------------------

  /** Thirty-two zero bytes read as 8-byte Elf32 entries. */
  const Overlapping: seq<Section> := [Section(SHT_SYMTAB, 1, 8, seq(32, _ => 0)), Strtab]

  /**
   * With entsize 8 below the 16-byte record, entry 1 is the record at
   * bytes 8..24, overlapping its neighbours, and decodes; entry 3 has
   * only 8 bytes left and is `MalformedEntry`.
   */
  lemma OverlappingEntries(lookup: Lookup)
    ensures var o := Step(Elf32, false, Overlapping, lookup, 0, 1);
      o.item.Some? && o.item.value.Ok? && o.secidx == 0 && o.symidx == 2
    ensures Step(Elf32, false, Overlapping, lookup, 0, 3).item == Some(Err(MalformedEntry))
  {
    StepAtEntry(Elf32, false, Overlapping, lookup, 0, 1);
    StepAtEntry(Elf32, false, Overlapping, lookup, 0, 3);
  }
}
