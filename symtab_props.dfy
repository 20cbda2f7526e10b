/**
 * What one call, and a run of calls, of the symbol-table iterator's
 * `next()` does, stated on its specification `Step`.
 */
module SymtabProps {
  import opened Wrappers
  import opened Stpack
  import opened Symtab

  // ---------------------------------------------------------------------
  // The scan
  // ---------------------------------------------------------------------

  /** The scan stops at the first section it does not step over, and nowhere else. */
  lemma ScanStopsAtFirst(secs: seq<Section>, i: nat, j: nat, k: nat)
    requires i <= k < |secs|
    requires forall m :: i <= m < k ==> Skipped(secs, i, j, m)
    requires !Skipped(secs, i, j, k)
    ensures Scan(secs, i, j) == if secs[k].entsize == 0 then ZeroEntsize(k) else Found(k, StartIndex(i, j, k))
  {
    ScanSpec(secs, i, j);
  }

  /** The scan runs off the end exactly when it steps over every remaining section. */
  lemma ScanExhaustedIff(secs: seq<Section>, i: nat, j: nat)
    ensures Scan(secs, i, j).Exhausted? <==> forall k :: i <= k < |secs| ==> Skipped(secs, i, j, k)
  {
    ScanSpec(secs, i, j);
  }

  /** The entry a scan lands on starts strictly inside its section, and lies wholly inside it. */
  lemma EntrySliceInBounds(sec: Section, j: nat)
    requires sec.entsize > 0 && j < EntryCount(|sec.content|, sec.entsize)
    ensures sec.entsize * j < |sec.content|
    ensures sec.entsize * j + sec.entsize <= |sec.content|
  {
    EntryFits(|sec.content|, sec.entsize, j);
  }

  // ---------------------------------------------------------------------
  // One call
  // ---------------------------------------------------------------------

  /**
   * A section the scan steps over makes no difference: the call goes on at
   * entry 0 of the next section (only an entsize-0 error keeps the cursor
   * the call started with).
   */
  lemma StepSkipsSection(cls: ElfClass, le: bool, secs: seq<Section>, lookup: Lookup, i: nat, j: nat)
    requires i < |secs| && Skipped(secs, i, j, i)
    ensures Step(cls, le, secs, lookup, i, j).item == Step(cls, le, secs, lookup, i + 1, 0).item
    ensures Step(cls, le, secs, lookup, i + 1, 0).item != Some(Err(InvalidEntrySize))
        ==> Step(cls, le, secs, lookup, i, j) == Step(cls, le, secs, lookup, i + 1, 0)
  {
    assert Scan(secs, i, j) == Scan(secs, i + 1, 0);
  }

  /** A symbol table with entsize 0 is an error before anything is decoded; the cursor stays. */
  lemma StepZeroEntsize(cls: ElfClass, le: bool, secs: seq<Section>, lookup: Lookup, i: nat, j: nat, k: nat)
    requires i <= k < |secs|
    requires forall m :: i <= m < k ==> Skipped(secs, i, j, m)
    requires secs[k].typ == SHT_SYMTAB && secs[k].entsize == 0
    ensures Step(cls, le, secs, lookup, i, j) == Outcome(Some(Err(InvalidEntrySize)), i, j)
  {
    ScanStopsAtFirst(secs, i, j, k);
  }

  /** `None` exactly when no section from the cursor on is a symbol table with something left. */
  lemma StepNoneIff(cls: ElfClass, le: bool, secs: seq<Section>, lookup: Lookup, i: nat, j: nat)
    ensures var o := Step(cls, le, secs, lookup, i, j);
      o.item.None? <==> forall k :: i <= k < |secs| ==> Skipped(secs, i, j, k)
    ensures var o := Step(cls, le, secs, lookup, i, j);
      o.item.None? ==> o.secidx >= |secs|
  {
    ScanExhaustedIff(secs, i, j);
    ScanSpec(secs, i, j);
  }

  /** Once `next()` has returned `None`, the next call returns `None` and leaves the cursor. */
  lemma NoneIsFinal(cls: ElfClass, le: bool, secs: seq<Section>, lookup: Lookup, i: nat, j: nat)
    requires Step(cls, le, secs, lookup, i, j).item.None?
    ensures var o := Step(cls, le, secs, lookup, i, j);
      Step(cls, le, secs, lookup, o.secidx, o.symidx) == o
  {
    ScanSpec(secs, i, j);
  }

  /** An error leaves the cursor on the failing entry, so the next call reports it again. */
  lemma ErrorRepeats(cls: ElfClass, le: bool, secs: seq<Section>, lookup: Lookup, i: nat, j: nat)
    requires var o := Step(cls, le, secs, lookup, i, j); o.item.Some? && o.item.value.Err?
    ensures var o := Step(cls, le, secs, lookup, i, j);
      Step(cls, le, secs, lookup, o.secidx, o.symidx) == o
  {
    ScanSpec(secs, i, j);
    var r := Scan(secs, i, j);
    if r.Found? {
      ScanStopsAtFirst(secs, r.secidx, r.symidx, r.secidx);
    }
  }

  /** The cursor never moves backwards; a symbol moves it forwards. */
  lemma CursorAdvances(cls: ElfClass, le: bool, secs: seq<Section>, lookup: Lookup, i: nat, j: nat)
    ensures var o := Step(cls, le, secs, lookup, i, j);
      i < o.secidx || (i == o.secidx && j <= o.symidx)
    ensures var o := Step(cls, le, secs, lookup, i, j);
      o.item.Some? && o.item.value.Ok? ==> i < o.secidx || (i == o.secidx && j < o.symidx)
  {
    ScanSpec(secs, i, j);
  }

  /** On a symbol table with a whole entry at index j, the scan stops right there. */
  lemma StepIsStepAt(cls: ElfClass, le: bool, secs: seq<Section>, lookup: Lookup, i: nat, j: nat)
    requires i < |secs| && secs[i].typ == SHT_SYMTAB && secs[i].entsize > 0
    requires j < EntryCount(|secs[i].content|, secs[i].entsize)
    ensures secs[i].entsize * j + secs[i].entsize <= |secs[i].content|
    ensures Step(cls, le, secs, lookup, i, j) == StepAt(cls, le, secs, lookup, i, j)
  {
    ScanStopsAtFirst(secs, i, j, i);
    EntrySliceInBounds(secs[i], j);
  }

  /** The checks after the scan, in their order: decode, link index, link type. */
  lemma StepAtOrder(cls: ElfClass, le: bool, secs: seq<Section>, lookup: Lookup, i: nat, j: nat)
    requires i < |secs| && secs[i].entsize * j <= |secs[i].content|
    ensures var o := StepAt(cls, le, secs, lookup, i, j);
      var sec := secs[i];
      var left := |sec.content| - sec.entsize * j;
      && (o.item == Some(Err(MalformedEntry)) <==> left < EntrySize(cls))
      && (left >= EntrySize(cls) && sec.link >= |secs| ==> o.item == Some(Err(InvalidLinkIndex)))
      && ((left >= EntrySize(cls) && sec.link < |secs| && secs[sec.link].typ != SHT_STRTAB)
          ==> o.item == Some(Err(LinkNotStringTable)))
      && (o.item.value.Ok? <==>
            left >= EntrySize(cls) && sec.link < |secs| && secs[sec.link].typ == SHT_STRTAB)
  {
    var sec := secs[i];
    var data := sec.content[sec.entsize * j..];
    assert |data| == |sec.content| - sec.entsize * j;
  }

  /**
   * On a symbol table with a whole entry at index j: the entry is decoded
   * first, so a short entry is `MalformedEntry` whatever the link says;
   * then the link must name a section, and that section must be a string
   * table.  Only a symbol moves the cursor, to the next entry; an error
   * leaves it on the failing entry.
   */
  lemma StepAtEntry(cls: ElfClass, le: bool, secs: seq<Section>, lookup: Lookup, i: nat, j: nat)
    requires i < |secs| && secs[i].typ == SHT_SYMTAB && secs[i].entsize > 0
    requires j < EntryCount(|secs[i].content|, secs[i].entsize)
    ensures var o := Step(cls, le, secs, lookup, i, j);
      var sec := secs[i];
      var left := |sec.content| - sec.entsize * j;
      && (o.item == Some(Err(MalformedEntry)) <==> left < EntrySize(cls))
      && (left >= EntrySize(cls) && sec.link >= |secs| ==> o.item == Some(Err(InvalidLinkIndex)))
      && ((left >= EntrySize(cls) && sec.link < |secs| && secs[sec.link].typ != SHT_STRTAB)
          ==> o.item == Some(Err(LinkNotStringTable)))
      && (o.item.Some? && o.item.value.Ok? <==>
            left >= EntrySize(cls) && sec.link < |secs| && secs[sec.link].typ == SHT_STRTAB)
      && o.secidx == i
      && o.symidx == if o.item.value.Ok? then j + 1 else j
  {
    StepIsStepAt(cls, le, secs, lookup, i, j);
    StepAtOrder(cls, le, secs, lookup, i, j);
  }

  /** An entsize of at least the layout's SIZE never gives `MalformedEntry`. */
  lemma NoMalformedWhenEntsizeFits(cls: ElfClass, le: bool, secs: seq<Section>, lookup: Lookup, i: nat, j: nat)
    requires i < |secs| && secs[i].typ == SHT_SYMTAB && secs[i].entsize >= EntrySize(cls)
    requires j < EntryCount(|secs[i].content|, secs[i].entsize)
    ensures Step(cls, le, secs, lookup, i, j).item != Some(Err(MalformedEntry))
  {
    StepAtEntry(cls, le, secs, lookup, i, j);
    EntrySliceInBounds(secs[i], j);
  }

  /** The section list the reader can read in full: the link of section i names a string table. */
  predicate WellLinked(secs: seq<Section>, i: nat)
    requires i < |secs|
  {
    secs[i].link < |secs| && secs[secs[i].link].typ == SHT_STRTAB
  }

  /** The 32-bit decoded entry: each field from its offset, `value` and `size` widened to 64 bits. */
  lemma DecodeEntry32(le: bool, b: seq<byte>)
    requires |b| >= 16
    ensures var d := DecodeEntry(Elf32, le, b);
      && d.Ok?
      && d.value.nameoff == FromBytes(b[0..4], le)
      && d.value.value == FromBytes(b[4..8], le)
      && d.value.size == FromBytes(b[8..12], le)
      && d.value.info == b[12] && d.value.other == b[13]
      && d.value.shndx == FromBytes(b[14..16], le)
  {
    var ent := Elf32Unpack(b, le).value.0;
    assert DecodeEntry(Elf32, le, b)
        == Ok(DecodedEntry(ent.name, ent.value, ent.size, ent.info, ent.other, ent.shndx));
  }

  /** The 64-bit decoded entry: each field from its offset. */
  lemma DecodeEntry64(le: bool, b: seq<byte>)
    requires |b| >= 24
    ensures var d := DecodeEntry(Elf64, le, b);
      && d.Ok?
      && d.value.nameoff == FromBytes(b[0..4], le)
      && d.value.info == b[4] && d.value.other == b[5]
      && d.value.shndx == FromBytes(b[6..8], le)
      && d.value.value == FromBytes(b[8..16], le)
      && d.value.size == FromBytes(b[16..24], le)
  {
    var ent := Elf64Unpack(b, le).value.0;
    assert DecodeEntry(Elf64, le, b)
        == Ok(DecodedEntry(ent.name, ent.value, ent.size, ent.info, ent.other, ent.shndx));
  }

  /** A whole decodable entry of a well-linked section gives the symbol its decoded fields name. */
  lemma StepAtSymbol(cls: ElfClass, le: bool, secs: seq<Section>, lookup: Lookup, i: nat, j: nat)
    requires i < |secs| && secs[i].entsize * j + EntrySize(cls) <= |secs[i].content|
    requires WellLinked(secs, i)
    ensures var sec := secs[i];
      var d := DecodeEntry(cls, le, sec.content[sec.entsize * j..]);
      && d.Ok?
      && StepAt(cls, le, secs, lookup, i, j)
         == Outcome(Some(Ok(Symbol(lookup(secs[sec.link].content, d.value.nameoff), d.value.value, d.value.size,
                                   d.value.info, d.value.other, d.value.shndx))), i, j + 1)
  {
  }

  /** Elf32Symbol on the checks after the scan. */
  lemma Elf32SymbolAt(le: bool, secs: seq<Section>, lookup: Lookup, i: nat, j: nat)
    requires i < |secs| && secs[i].entsize * j + 16 <= |secs[i].content|
    requires WellLinked(secs, i)
    ensures var sec := secs[i];
      var b := sec.content[sec.entsize * j..];
      var o := StepAt(Elf32, le, secs, lookup, i, j);
      && o.secidx == i && o.symidx == j + 1
      && o.item.Some? && o.item.value.Ok?
      && var sym := o.item.value.value;
      && sym.name == lookup(secs[sec.link].content, FromBytes(b[0..4], le))
      && sym.value == FromBytes(b[4..8], le) && sym.value < 0x1_0000_0000
      && sym.size == FromBytes(b[8..12], le) && sym.size < 0x1_0000_0000
      && sym.info == b[12] && sym.other == b[13]
      && sym.shndx == FromBytes(b[14..16], le)
  {
    var b := secs[i].content[secs[i].entsize * j..];
    StepAtSymbol(Elf32, le, secs, lookup, i, j);
    DecodeEntry32(le, b);
    var d := DecodeEntry(Elf32, le, b).value;
    var o := StepAt(Elf32, le, secs, lookup, i, j);
    assert o.item.value.value == Symbol(lookup(secs[secs[i].link].content, d.nameoff), d.value, d.size, d.info, d.other, d.shndx);
  }

  /**
   * A 32-bit symbol: with 16 bytes left at entry j and the link naming a
   * string table, the call returns the symbol whose fields are read from
   * their offsets in the file's byte order, `value` and `size`
   * zero-extended from 32 bits, and whose name is looked up at `name` in
   * the linked string table.
   */
  lemma Elf32Symbol(le: bool, secs: seq<Section>, lookup: Lookup, i: nat, j: nat)
    requires i < |secs| && secs[i].typ == SHT_SYMTAB && secs[i].entsize > 0
    requires j < EntryCount(|secs[i].content|, secs[i].entsize)
    requires secs[i].entsize * j + 16 <= |secs[i].content|
    requires WellLinked(secs, i)
    ensures var sec := secs[i];
      var b := sec.content[sec.entsize * j..];
      var o := Step(Elf32, le, secs, lookup, i, j);
      && o.secidx == i && o.symidx == j + 1
      && o.item.Some? && o.item.value.Ok?
      && var sym := o.item.value.value;
      && sym.name == lookup(secs[sec.link].content, FromBytes(b[0..4], le))
      && sym.value == FromBytes(b[4..8], le) && sym.value < 0x1_0000_0000
      && sym.size == FromBytes(b[8..12], le) && sym.size < 0x1_0000_0000
      && sym.info == b[12] && sym.other == b[13]
      && sym.shndx == FromBytes(b[14..16], le)
  {
    StepIsStepAt(Elf32, le, secs, lookup, i, j);
    Elf32SymbolAt(le, secs, lookup, i, j);
  }

  /** Elf64Symbol on the checks after the scan. */
  lemma Elf64SymbolAt(le: bool, secs: seq<Section>, lookup: Lookup, i: nat, j: nat)
    requires i < |secs| && secs[i].entsize * j + 24 <= |secs[i].content|
    requires WellLinked(secs, i)
    ensures var sec := secs[i];
      var b := sec.content[sec.entsize * j..];
      var o := StepAt(Elf64, le, secs, lookup, i, j);
      && o.secidx == i && o.symidx == j + 1
      && o.item.Some? && o.item.value.Ok?
      && var sym := o.item.value.value;
      && sym.name == lookup(secs[sec.link].content, FromBytes(b[0..4], le))
      && sym.info == b[4] && sym.other == b[5]
      && sym.shndx == FromBytes(b[6..8], le)
      && sym.value == FromBytes(b[8..16], le)
      && sym.size == FromBytes(b[16..24], le)
  {
    var b := secs[i].content[secs[i].entsize * j..];
    StepAtSymbol(Elf64, le, secs, lookup, i, j);
    DecodeEntry64(le, b);
    var d := DecodeEntry(Elf64, le, b).value;
    var o := StepAt(Elf64, le, secs, lookup, i, j);
    assert o.item.value.value == Symbol(lookup(secs[secs[i].link].content, d.nameoff), d.value, d.size, d.info, d.other, d.shndx);
  }

  /** A 64-bit symbol: with 24 bytes left at entry j and a string-table link, each field from its offset. */
  lemma Elf64Symbol(le: bool, secs: seq<Section>, lookup: Lookup, i: nat, j: nat)
    requires i < |secs| && secs[i].typ == SHT_SYMTAB && secs[i].entsize > 0
    requires j < EntryCount(|secs[i].content|, secs[i].entsize)
    requires secs[i].entsize * j + 24 <= |secs[i].content|
    requires WellLinked(secs, i)
    ensures var sec := secs[i];
      var b := sec.content[sec.entsize * j..];
      var o := Step(Elf64, le, secs, lookup, i, j);
      && o.secidx == i && o.symidx == j + 1
      && o.item.Some? && o.item.value.Ok?
      && var sym := o.item.value.value;
      && sym.name == lookup(secs[sec.link].content, FromBytes(b[0..4], le))
      && sym.info == b[4] && sym.other == b[5]
      && sym.shndx == FromBytes(b[6..8], le)
      && sym.value == FromBytes(b[8..16], le)
      && sym.size == FromBytes(b[16..24], le)
  {
    StepIsStepAt(Elf64, le, secs, lookup, i, j);
    Elf64SymbolAt(le, secs, lookup, i, j);
  }

  // ---------------------------------------------------------------------
  // Runs of calls
  // ---------------------------------------------------------------------

  /** The items of n successive calls from a cursor, and the cursor they leave. */
  datatype Trace = Trace(items: seq<Option<Result<Symbol, ElfError>>>, secidx: nat, symidx: nat)

  /** One call of `next()` as a function of the cursor. */
  type Stepper = (nat, nat) -> Outcome

  /** `f` is `next()` of the iterator over `secs` for the given class, endianness and lookup. */
  ghost predicate IsStepOf(f: Stepper, cls: ElfClass, le: bool, secs: seq<Section>, lookup: Lookup)
  {
    forall a: nat, b: nat {:trigger Step(cls, le, secs, lookup, a, b)} ::
      f(a, b) == Step(cls, le, secs, lookup, a, b)
  }

  /** n successive calls of `f`, each from the cursor the previous one left. */
  function RunOf(f: Stepper, i: nat, j: nat, n: nat): (t: Trace)
    ensures |t.items| == n
    ensures n > 0 ==> t.items[0] == f(i, j).item
    decreases n
  {
    if n == 0 then Trace([], i, j)
    else
      var o := f(i, j);
      var t := RunOf(f, o.secidx, o.symidx, n - 1);
      Trace([o.item] + t.items, t.secidx, t.symidx)
  }

  /** A cursor that `f` keeps and answers with the same item repeats that item on every call. */
  lemma {:induction false} FixedPointRepeats(f: Stepper, i: nat, j: nat, n: nat)
    requires f(i, j).secidx == i && f(i, j).symidx == j
    ensures var t := RunOf(f, i, j, n);
      t.secidx == i && t.symidx == j && forall m :: 0 <= m < n ==> t.items[m] == f(i, j).item
    decreases n
  {
    if n > 0 {
      FixedPointRepeats(f, i, j, n - 1);
    }
  }

  /** After `None`, every later call returns `None` and the cursor stays where it is. */
  lemma NoneForever(f: Stepper, cls: ElfClass, le: bool, secs: seq<Section>, lookup: Lookup, i: nat, j: nat, n: nat)
    requires IsStepOf(f, cls, le, secs, lookup)
    requires Step(cls, le, secs, lookup, i, j).item.None?
    ensures var o := Step(cls, le, secs, lookup, i, j);
      var t := RunOf(f, o.secidx, o.symidx, n);
      t.secidx == o.secidx && t.symidx == o.symidx && forall m :: 0 <= m < n ==> t.items[m].None?
  {
    var o := Step(cls, le, secs, lookup, i, j);
    NoneIsFinal(cls, le, secs, lookup, i, j);
    assert f(o.secidx, o.symidx) == Step(cls, le, secs, lookup, o.secidx, o.symidx);
    FixedPointRepeats(f, o.secidx, o.symidx, n);
  }

  /** Any error, `InvalidEntrySize` included, is returned again on every later call. */
  lemma ErrorForever(f: Stepper, cls: ElfClass, le: bool, secs: seq<Section>, lookup: Lookup, i: nat, j: nat, n: nat)
    requires IsStepOf(f, cls, le, secs, lookup)
    requires var o := Step(cls, le, secs, lookup, i, j);
      o.item.Some? && o.item.value.Err?
    ensures var o := Step(cls, le, secs, lookup, i, j);
      var t := RunOf(f, o.secidx, o.symidx, n);
      forall m :: 0 <= m < n ==> t.items[m] == o.item
  {
    var o := Step(cls, le, secs, lookup, i, j);
    ErrorRepeats(cls, le, secs, lookup, i, j);
    assert f(o.secidx, o.symidx) == Step(cls, le, secs, lookup, o.secidx, o.symidx);
    FixedPointRepeats(f, o.secidx, o.symidx, n);
  }

  /** On a well-linked symbol table whose entsize fits the layout, every whole entry is a symbol. */
  lemma StepYieldsEntry(cls: ElfClass, le: bool, secs: seq<Section>, lookup: Lookup, i: nat, j: nat)
    requires i < |secs| && secs[i].typ == SHT_SYMTAB && secs[i].entsize >= EntrySize(cls)
    requires WellLinked(secs, i)
    requires j < EntryCount(|secs[i].content|, secs[i].entsize)
    ensures var o := Step(cls, le, secs, lookup, i, j);
      o.item.Some? && o.item.value.Ok? && o.secidx == i && o.symidx == j + 1
  {
    StepAtEntry(cls, le, secs, lookup, i, j);
    NoMalformedWhenEntsizeFits(cls, le, secs, lookup, i, j);
  }

  /** Calls of `f` that each yield a symbol and move to the next entry, from entry j up to entry n. */
  lemma {:induction false} RunOfEntries(f: Stepper, i: nat, j: nat, n: nat)
    requires j <= n
    requires forall k :: j <= k < n ==>
      f(i, k).item.Some? && f(i, k).item.value.Ok? && f(i, k).secidx == i && f(i, k).symidx == k + 1
    ensures var t := RunOf(f, i, j, n - j);
      && t.secidx == i && t.symidx == n
      && forall m :: 0 <= m < n - j ==> t.items[m] == f(i, j + m).item && t.items[m].value.Ok?
    decreases n - j
  {
    if j < n {
      RunOfEntries(f, i, j + 1, n);
    }
  }

  /** StepYieldsEntry for every remaining entry, stated on the stepper. */
  lemma EntriesYield(f: Stepper, cls: ElfClass, le: bool, secs: seq<Section>, lookup: Lookup, i: nat, j: nat)
    requires IsStepOf(f, cls, le, secs, lookup)
    requires i < |secs| && secs[i].typ == SHT_SYMTAB && secs[i].entsize >= EntrySize(cls)
    requires WellLinked(secs, i)
    ensures forall k :: j <= k < EntryCount(|secs[i].content|, secs[i].entsize) ==>
        f(i, k).item.Some? && f(i, k).item.value.Ok? && f(i, k).secidx == i && f(i, k).symidx == k + 1
  {
    forall k | j <= k < EntryCount(|secs[i].content|, secs[i].entsize)
      ensures f(i, k).item.Some? && f(i, k).item.value.Ok? && f(i, k).secidx == i && f(i, k).symidx == k + 1
    {
      StepYieldsEntry(cls, le, secs, lookup, i, k);
    }
  }

  /**
   * A well-linked symbol table whose entsize is at least the layout's SIZE
   * yields one symbol per whole entry, in entry order, from any entry
   * index up to the entry count; then the cursor stands after the last one.
   */
  lemma SectionYieldsEveryEntry(f: Stepper, cls: ElfClass, le: bool, secs: seq<Section>, lookup: Lookup, i: nat, j: nat)
    requires IsStepOf(f, cls, le, secs, lookup)
    requires i < |secs| && secs[i].typ == SHT_SYMTAB && secs[i].entsize >= EntrySize(cls)
    requires WellLinked(secs, i)
    requires j <= EntryCount(|secs[i].content|, secs[i].entsize)
    ensures var n := EntryCount(|secs[i].content|, secs[i].entsize);
      var t := RunOf(f, i, j, n - j);
      && t.secidx == i && t.symidx == n
      && forall m :: 0 <= m < n - j ==>
           t.items[m] == f(i, j + m).item && t.items[m].Some? && t.items[m].value.Ok?
  {
    var n := EntryCount(|secs[i].content|, secs[i].entsize);
    EntriesYield(f, cls, le, secs, lookup, i, j);
    RunOfEntries(f, i, j, n);
  }

  /** After its last entry, the scan leaves a symbol table for the next section, entry 0. */
  lemma StepAfterLastEntry(cls: ElfClass, le: bool, secs: seq<Section>, lookup: Lookup, i: nat)
    requires i < |secs| && secs[i].typ == SHT_SYMTAB && secs[i].entsize > 0
    ensures var n := EntryCount(|secs[i].content|, secs[i].entsize);
      && Step(cls, le, secs, lookup, i, n).item == Step(cls, le, secs, lookup, i + 1, 0).item
      && (Step(cls, le, secs, lookup, i + 1, 0).item != Some(Err(InvalidEntrySize))
          ==> Step(cls, le, secs, lookup, i, n) == Step(cls, le, secs, lookup, i + 1, 0))
  {
    StepSkipsSection(cls, le, secs, lookup, i, EntryCount(|secs[i].content|, secs[i].entsize));
  }
}
