/**
 * The ELF symbol-table reader of libs/elf_parser/src/symtab.rs: the two
 * entry layouts of the System V ABI (generic ABI, chapter 4, "Symbol
 * Table") and the iterator that walks a section list and yields one
 * resolved symbol, or one error, per call.
 */
module Symtab {
  import opened Wrappers
  import opened Stpack

  type u8 = byte
  type u16 = x: nat | x < 0x1_0000
  type u32 = x: nat | x < 0x1_0000_0000
  type u64 = x: nat | x < 0x1_0000_0000_0000_0000

  /** Section types, generic ABI chapter 4, "Sections". */
  const SHT_SYMTAB: u32 := 2
  const SHT_STRTAB: u32 := 3

  datatype ElfClass = Elf32 | Elf64
  datatype ElfEndian = ElfLE | ElfBE

  /** The fields of a section header that the reader uses, and the section's bytes. */
  datatype Section = Section(typ: u32, link: u32, entsize: u64, content: seq<byte>)

  /** The four ways a symbol table can be broken (all reported as EINVAL by the source). */
  datatype ElfError = InvalidEntrySize | MalformedEntry | InvalidLinkIndex | LinkNotStringTable

  /** A resolved symbol; `value` and `size` are 64 bits wide whatever the class. */
  datatype Symbol = Symbol(name: string, value: u64, size: u64, info: u8, other: u8, shndx: u16)

  /**
   * `string_table::read_str_from_offset`: the name at an offset of a
   * string table's bytes.  It is not part of this model, so every result
   * below holds for whatever lookup the iterator is given.
   */
  type Lookup = (seq<byte>, nat) -> string

  // ---------------------------------------------------------------------
  // Entry layouts
  // ---------------------------------------------------------------------

  /** `Elf32_Sym`: name, value, size (u32 each), info, other (u8), shndx (u16). */
  const Elf32Layout: Layout := [4, 4, 4, 1, 1, 2]

  /** `Elf64_Sym`: name (u32), info, other (u8), shndx (u16), value, size (u64). */
  const Elf64Layout: Layout := [4, 1, 1, 2, 8, 8]

  datatype Elf32SymtabEntry =
    Elf32SymtabEntry(name: u32, value: u32, size: u32, info: u8, other: u8, shndx: u16)

  datatype Elf64SymtabEntry =
    Elf64SymtabEntry(name: u32, info: u8, other: u8, shndx: u16, value: u64, size: u64)

  lemma Pow256Widths()
    ensures Pow256(1) == 0x100 && Pow256(2) == 0x1_0000
    ensures Pow256(4) == 0x1_0000_0000 && Pow256(8) == 0x1_0000_0000_0000_0000
  {
  }

  /** Field offsets of the Elf32 layout: name@0, value@4, size@8, info@12, other@13, shndx@14; 16 bytes. */
  lemma Elf32Offsets()
    ensures ValidLayout(Elf32Layout) && Size(Elf32Layout) == 16
    ensures Offset(Elf32Layout, 0) == 0 && Offset(Elf32Layout, 1) == 4
    ensures Offset(Elf32Layout, 2) == 8 && Offset(Elf32Layout, 3) == 12
    ensures Offset(Elf32Layout, 4) == 13 && Offset(Elf32Layout, 5) == 14
  {
    assert Elf32Layout[..1] == [4] && Elf32Layout[..2] == [4, 4] && Elf32Layout[..3] == [4, 4, 4];
    assert Elf32Layout[..4] == [4, 4, 4, 1] && Elf32Layout[..5] == [4, 4, 4, 1, 1];
  }

  /** Field offsets of the Elf64 layout: name@0, info@4, other@5, shndx@6, value@8, size@16; 24 bytes. */
  lemma Elf64Offsets()
    ensures ValidLayout(Elf64Layout) && Size(Elf64Layout) == 24
    ensures Offset(Elf64Layout, 0) == 0 && Offset(Elf64Layout, 1) == 4
    ensures Offset(Elf64Layout, 2) == 5 && Offset(Elf64Layout, 3) == 6
    ensures Offset(Elf64Layout, 4) == 8 && Offset(Elf64Layout, 5) == 16
  {
    assert Elf64Layout[..1] == [4] && Elf64Layout[..2] == [4, 1] && Elf64Layout[..3] == [4, 1, 1];
    assert Elf64Layout[..4] == [4, 1, 1, 2] && Elf64Layout[..5] == [4, 1, 1, 2, 8];
  }

  /** A single byte reads as itself in either byte order. */
  lemma OneByte(b: seq<byte>, le: bool)
    requires |b| == 1
    ensures FromBytes(b, le) == b[0]
  {
    assert b[1..] == [] && b[..0] == [];
  }

  /** The six fields of an Elf32 entry, each from its window of the first 16 bytes. */
  lemma Elf32Fields(data: seq<byte>, le: bool)
    requires 16 <= |data|
    ensures Unpack(Elf32Layout, data, le).Ok?
    ensures var fs := Unpack(Elf32Layout, data, le).value.0;
      && |fs| == 6
      && fs[0] == FromBytes(data[0..4], le)
      && fs[1] == FromBytes(data[4..8], le)
      && fs[2] == FromBytes(data[8..12], le)
      && fs[3] == FromBytes(data[12..13], le)
      && fs[4] == FromBytes(data[13..14], le)
      && fs[5] == FromBytes(data[14..16], le)
    ensures var fs := Unpack(Elf32Layout, data, le).value.0;
      fs[0] < 0x1_0000_0000 && fs[1] < 0x1_0000_0000 && fs[2] < 0x1_0000_0000 && fs[5] < 0x1_0000
    ensures var fs := Unpack(Elf32Layout, data, le).value.0;
      fs[3] == data[12] && fs[4] == data[13]
  {
    Pow256Widths();
    Elf32Offsets();
    var fs := Unpack(Elf32Layout, data, le).value.0;
    assert fs[0] == FromBytes(data[0..4], le) by { UnpackFieldWindow(Elf32Layout, data, le, 0); }
    assert fs[1] == FromBytes(data[4..8], le) by { UnpackFieldWindow(Elf32Layout, data, le, 1); }
    assert fs[2] == FromBytes(data[8..12], le) by { UnpackFieldWindow(Elf32Layout, data, le, 2); }
    assert fs[3] == FromBytes(data[12..13], le) by { UnpackFieldWindow(Elf32Layout, data, le, 3); }
    assert fs[4] == FromBytes(data[13..14], le) by { UnpackFieldWindow(Elf32Layout, data, le, 4); }
    assert fs[5] == FromBytes(data[14..16], le) by { UnpackFieldWindow(Elf32Layout, data, le, 5); }
    OneByte(data[12..13], le);
    OneByte(data[13..14], le);
  }

  /** The six fields of an Elf64 entry, each from its window of the first 24 bytes. */
  lemma Elf64Fields(data: seq<byte>, le: bool)
    requires 24 <= |data|
    ensures Unpack(Elf64Layout, data, le).Ok?
    ensures var fs := Unpack(Elf64Layout, data, le).value.0;
      && |fs| == 6
      && fs[0] == FromBytes(data[0..4], le)
      && fs[1] == FromBytes(data[4..5], le)
      && fs[2] == FromBytes(data[5..6], le)
      && fs[3] == FromBytes(data[6..8], le)
      && fs[4] == FromBytes(data[8..16], le)
      && fs[5] == FromBytes(data[16..24], le)
    ensures var fs := Unpack(Elf64Layout, data, le).value.0;
      && fs[0] < 0x1_0000_0000 && fs[3] < 0x1_0000
      && fs[4] < 0x1_0000_0000_0000_0000 && fs[5] < 0x1_0000_0000_0000_0000
    ensures var fs := Unpack(Elf64Layout, data, le).value.0;
      fs[1] == data[4] && fs[2] == data[5]
  {
    Pow256Widths();
    Elf64Offsets();
    var fs := Unpack(Elf64Layout, data, le).value.0;
    assert fs[0] == FromBytes(data[0..4], le) by { UnpackFieldWindow(Elf64Layout, data, le, 0); }
    assert fs[1] == FromBytes(data[4..5], le) by { UnpackFieldWindow(Elf64Layout, data, le, 1); }
    assert fs[2] == FromBytes(data[5..6], le) by { UnpackFieldWindow(Elf64Layout, data, le, 2); }
    assert fs[3] == FromBytes(data[6..8], le) by { UnpackFieldWindow(Elf64Layout, data, le, 3); }
    assert fs[4] == FromBytes(data[8..16], le) by { UnpackFieldWindow(Elf64Layout, data, le, 4); }
    assert fs[5] == FromBytes(data[16..24], le) by { UnpackFieldWindow(Elf64Layout, data, le, 5); }
    OneByte(data[4..5], le);
    OneByte(data[5..6], le);
  }

  /** `Elf32SymtabEntry::unpack(data, le)`. */
  function Elf32Unpack(data: seq<byte>, le: bool): (r: Result<(Elf32SymtabEntry, seq<byte>), ()>)
    ensures r.Err? <==> |data| < 16
    ensures r.Ok? ==> r.value.1 == data[16..]
    ensures r.Ok? ==> var e := r.value.0;
      && e.name == FromBytes(data[0..4], le)
      && e.value == FromBytes(data[4..8], le)
      && e.size == FromBytes(data[8..12], le)
      && e.info == data[12]
      && e.other == data[13]
      && e.shndx == FromBytes(data[14..16], le)
  {
    Elf32Offsets();
    if |data| < 16 then Err(())
    else
      Elf32Fields(data, le);
      var (fs, right) := Unpack(Elf32Layout, data, le).value;
      Ok((Elf32SymtabEntry(fs[0], fs[1], fs[2], fs[3], fs[4], fs[5]), right))
  }

  /** `Elf64SymtabEntry::unpack(data, le)`. */
  function Elf64Unpack(data: seq<byte>, le: bool): (r: Result<(Elf64SymtabEntry, seq<byte>), ()>)
    ensures r.Err? <==> |data| < 24
    ensures r.Ok? ==> r.value.1 == data[24..]
    ensures r.Ok? ==> var e := r.value.0;
      && e.name == FromBytes(data[0..4], le)
      && e.info == data[4]
      && e.other == data[5]
      && e.shndx == FromBytes(data[6..8], le)
      && e.value == FromBytes(data[8..16], le)
      && e.size == FromBytes(data[16..24], le)
  {
    Elf64Offsets();
    if |data| < 24 then Err(())
    else
      Elf64Fields(data, le);
      var (fs, right) := Unpack(Elf64Layout, data, le).value;
      Ok((Elf64SymtabEntry(fs[0], fs[1], fs[2], fs[3], fs[4], fs[5]), right))
  }

  /** `SIZE` of the entry layout of a class. */
  function EntrySize(cls: ElfClass): nat {
    match cls
    case Elf32 => 16
    case Elf64 => 24
  }

  /** The entry size of a class is `SIZE` of its layout. */
  lemma EntrySizeIsLayoutSize()
    ensures EntrySize(Elf32) == Size(Elf32Layout)
    ensures EntrySize(Elf64) == Size(Elf64Layout)
  {
    Elf32Offsets();
    Elf64Offsets();
  }

  /** The tuple the reader builds from either entry kind, `value` and `size` widened to u64. */
  datatype DecodedEntry = DecodedEntry(nameoff: nat, value: u64, size: u64, info: u8, other: u8, shndx: u16)

  /** Decode one entry for the active class and byte order; a short slice is `MalformedEntry`. */
  function DecodeEntry(cls: ElfClass, le: bool, data: seq<byte>): (r: Result<DecodedEntry, ElfError>)
    ensures r.Err? <==> |data| < EntrySize(cls)
    ensures r.Err? ==> r.error == MalformedEntry
    ensures r.Ok? && cls == Elf32 ==> r.value.value < 0x1_0000_0000 && r.value.size < 0x1_0000_0000
  {
    match cls
    case Elf32 =>
      (match Elf32Unpack(data, le)
       case Ok((ent, _)) => Ok(DecodedEntry(ent.name, ent.value, ent.size, ent.info, ent.other, ent.shndx))
       case Err(_) => Err(MalformedEntry))
    case Elf64 =>
      (match Elf64Unpack(data, le)
       case Ok((ent, _)) => Ok(DecodedEntry(ent.name, ent.value, ent.size, ent.info, ent.other, ent.shndx))
       case Err(_) => Err(MalformedEntry))
  }

  // ---------------------------------------------------------------------
  // The section scan
  // ---------------------------------------------------------------------

  /** The number of whole entries of `entsize` bytes in `contentLen` bytes; trailing bytes do not count. */
  function EntryCount(contentLen: nat, entsize: nat): (n: nat)
    requires entsize > 0
    ensures n * entsize <= contentLen < n * entsize + entsize
  {
    contentLen / entsize
  }

  /** The entry index a scan that started at (i, j) uses in section k: j in its first section, 0 after. */
  function StartIndex(i: nat, j: nat, k: nat): nat {
    if k == i then j else 0
  }

  /** A scan that started at (i, j) steps over section k: not a symbol table, or no whole entry left. */
  predicate Skipped(secs: seq<Section>, i: nat, j: nat, k: nat)
    requires k < |secs|
    ensures secs[k].typ == SHT_SYMTAB && secs[k].entsize == 0 ==> !Skipped(secs, i, j, k)
    ensures secs[k].typ == SHT_SYMTAB && secs[k].entsize > 0 ==>
      (Skipped(secs, i, j, k) <==> |secs[k].content| < secs[k].entsize * StartIndex(i, j, k) + secs[k].entsize)
  {
    if secs[k].entsize == 0 then secs[k].typ != SHT_SYMTAB
    else
      EntryLeft(|secs[k].content|, secs[k].entsize, StartIndex(i, j, k));
      secs[k].typ != SHT_SYMTAB || StartIndex(i, j, k) >= EntryCount(|secs[k].content|, secs[k].entsize)
  }

  /** Entry j is past the last whole entry exactly when fewer than `e` bytes start at `e * j`. */
  lemma EntryLeft(n: nat, e: nat, j: nat)
    requires e > 0
    ensures j >= EntryCount(n, e) <==> n < e * j + e
  {
    if j < n / e {
      EntryFits(n, e, j);
    } else {
      var q := n / e;
      assert n < e * q + e;
      assert e * q <= e * j;
    }
  }

  /** Where the scan loop of `next()` stops. */
  datatype ScanStop =
    | ZeroEntsize(secidx: nat)         // a symbol table whose entsize is 0
    | Found(secidx: nat, symidx: nat)  // a whole entry at this cursor
    | Exhausted(secidx: nat, symidx: nat)  // no section left

  /**
   * The loop of `next()`: from (i, j), step over sections, resetting the
   * entry index to 0, up to the first symbol table whose entsize is 0 or
   * that still has a whole entry.
   */
  function Scan(secs: seq<Section>, i: nat, j: nat): (r: ScanStop)
    ensures r.Exhausted? ==> r.secidx >= |secs|
    ensures r.Found? ==>
      && r.secidx < |secs|
      && secs[r.secidx].typ == SHT_SYMTAB
      && secs[r.secidx].entsize > 0
      && secs[r.secidx].entsize * r.symidx + secs[r.secidx].entsize <= |secs[r.secidx].content|
    decreases |secs| - i
  {
    if i >= |secs| then Exhausted(i, j)
    else if secs[i].typ == SHT_SYMTAB && secs[i].entsize == 0 then ZeroEntsize(i)
    else if secs[i].typ == SHT_SYMTAB && j < |secs[i].content| / secs[i].entsize then
      EntryFits(|secs[i].content|, secs[i].entsize, j);
      Found(i, j)
    else Scan(secs, i + 1, 0)
  }

  /**
   * Where the scan stops: at the first section from i on that it does not
   * step over (a symbol table with entsize 0, or with a whole entry left at
   * its start index), or past the end of the list.
   */
  lemma {:induction false} ScanSpec(secs: seq<Section>, i: nat, j: nat)
    ensures var r := Scan(secs, i, j);
      && i <= r.secidx
      && (r.Exhausted? <==> r.secidx >= |secs|)
      && (r.Exhausted? ==> r.secidx == (if i < |secs| then |secs| else i))
      && (r.Exhausted? ==> r.symidx == (if i < |secs| then 0 else j))
      && (!r.Exhausted? ==> secs[r.secidx].typ == SHT_SYMTAB && !Skipped(secs, i, j, r.secidx))
      && (r.ZeroEntsize? ==> secs[r.secidx].entsize == 0)
      && (r.Found? ==> r.symidx == StartIndex(i, j, r.secidx)
                       && r.symidx < EntryCount(|secs[r.secidx].content|, secs[r.secidx].entsize))
    ensures var r := Scan(secs, i, j);
      forall k :: i <= k < r.secidx && k < |secs| ==> Skipped(secs, i, j, k)
    decreases |secs| - i
  {
    if i < |secs| && !(secs[i].typ == SHT_SYMTAB && secs[i].entsize == 0)
       && !(secs[i].typ == SHT_SYMTAB && j < |secs[i].content| / secs[i].entsize) {
      ScanSpec(secs, i + 1, 0);
      var r := Scan(secs, i + 1, 0);
      assert forall k :: i < k < |secs| ==> (Skipped(secs, i + 1, 0, k) <==> Skipped(secs, i, j, k));
    }
  }

  /** Entry j of a section lies wholly inside it when j is below the entry count. */
  lemma EntryFits(n: nat, e: nat, j: nat)
    requires e > 0 && j < n / e
    ensures e * j + e <= n
  {
    var q := n / e;
    assert e * q <= n;
    assert j + 1 <= q;
    assert e * (j + 1) <= e * q;
  }

  // ---------------------------------------------------------------------
  // One call of `next()`
  // ---------------------------------------------------------------------

  /** What one call of `next()` returns, and the cursor it leaves. */
  datatype Outcome = Outcome(item: Option<Result<Symbol, ElfError>>, secidx: nat, symidx: nat)

  /** The symbol an entry resolves to, its name read from the linked string table. */

  /**
   * The specification of `next()` on the cursor (secidx, symidx): the
   * result of the call and the cursor it stores.
   */
  function Step(cls: ElfClass, le: bool, secs: seq<Section>, lookup: Lookup, secidx: nat, symidx: nat): (o: Outcome)
    ensures o.item.None? ==> o.secidx >= |secs|
    ensures o.item == Some(Err(InvalidEntrySize)) ==> o.secidx == secidx && o.symidx == symidx
    ensures o.item.Some? && o.item.value.Ok? ==>
      && o.secidx < |secs| && secs[o.secidx].typ == SHT_SYMTAB && secs[o.secidx].entsize > 0
      && 0 < o.symidx <= EntryCount(|secs[o.secidx].content|, secs[o.secidx].entsize)
  {
    match Scan(secs, secidx, symidx)
    case ZeroEntsize(_) => Outcome(Some(Err(InvalidEntrySize)), secidx, symidx)
    case Exhausted(i, j) => Outcome(None, i, j)
    case Found(i, j) =>
      EntryLeft(|secs[i].content|, secs[i].entsize, j);
      StepAt(cls, le, secs, lookup, i, j)
  }

  /** The part of `next()` after the scan stopped at entry j of section i. */
  function StepAt(cls: ElfClass, le: bool, secs: seq<Section>, lookup: Lookup, i: nat, j: nat): (o: Outcome)
    requires i < |secs| && secs[i].entsize * j <= |secs[i].content|
    ensures o.item.Some? && o.secidx == i
    ensures o.symidx == if o.item.value.Ok? then j + 1 else j
  {
    var sec := secs[i];
    match DecodeEntry(cls, le, sec.content[sec.entsize * j..])
    case Err(e) => Outcome(Some(Err(e)), i, j)
    case Ok(ent) =>
      if sec.link >= |secs| then Outcome(Some(Err(InvalidLinkIndex)), i, j)
      else if secs[sec.link].typ != SHT_STRTAB then Outcome(Some(Err(LinkNotStringTable)), i, j)
      else
        Outcome(Some(Ok(Symbol(lookup(secs[sec.link].content, ent.nameoff), ent.value, ent.size,
                               ent.info, ent.other, ent.shndx))), i, j + 1)
  }

  // ---------------------------------------------------------------------
  // The iterator
  // ---------------------------------------------------------------------

  /** `SymtabIterator`: a cursor over a section list that yields one symbol or error per call. */
  class SymtabIterator {
    const elfClass: ElfClass
    const le: bool
    const sections: seq<Section>
    const lookup: Lookup
    var currSecIdx: nat
    var currSymIdx: nat

    /** `SymtabIterator::new`: the cursor starts at the first entry of the first section. */
    constructor (elfClass: ElfClass, endian: ElfEndian, sections: seq<Section>, lookup: Lookup)
      ensures this.elfClass == elfClass && le == (endian == ElfLE)
      ensures this.sections == sections && this.lookup == lookup
      ensures currSecIdx == 0 && currSymIdx == 0
    {
      this.elfClass := elfClass;
      le := endian == ElfLE;
      this.sections := sections;
      this.lookup := lookup;
      currSecIdx := 0;
      currSymIdx := 0;
    }

    /** `Iterator::next`. */
    method Next() returns (item: Option<Result<Symbol, ElfError>>)
      modifies this
      ensures Outcome(item, currSecIdx, currSymIdx)
           == Step(elfClass, le, sections, lookup, old(currSecIdx), old(currSymIdx))
    {
      var secidx: nat := currSecIdx;
      var symidx: nat := currSymIdx;
      var seccnt := |sections|;

      while true
        invariant Scan(sections, secidx, symidx) == Scan(sections, currSecIdx, currSymIdx)
        invariant secidx < seccnt ==> old(currSecIdx) < seccnt
        invariant currSecIdx == old(currSecIdx) && currSymIdx == old(currSymIdx)
        decreases seccnt - secidx
      {
        if secidx >= seccnt {
          break;
        }
        var sec := sections[secidx];
        if sec.typ == SHT_SYMTAB {
          if sec.entsize == 0 {
            return Some(Err(InvalidEntrySize));
          }
          if symidx < |sec.content| / sec.entsize {
            EntryFits(|sec.content|, sec.entsize, symidx);
            break;
          }
        }
        secidx := secidx + 1;
        symidx := 0;
      }

      currSecIdx := secidx;
      currSymIdx := symidx;

      if secidx >= seccnt {
        return None;
      }

      var sec := sections[secidx];
      var data := sec.content[sec.entsize * symidx..];
      var entry := DecodeEntry(elfClass, le, data);
      if entry.Err? {
        return Some(Err(entry.error));
      }

      if sec.link >= |sections| {
        return Some(Err(InvalidLinkIndex));
      }
      var strtab := sections[sec.link];
      if strtab.typ != SHT_STRTAB {
        return Some(Err(LinkNotStringTable));
      }

      var name := lookup(strtab.content, entry.value.nameoff);
      currSymIdx := symidx + 1;
      item := Some(Ok(Symbol(name, entry.value.value, entry.value.size,
                             entry.value.info, entry.value.other, entry.value.shndx)));
    }
  }
}
