# ELF symbol tables over a fixed-layout record decoder

This project models two cooperating parts of the repository:

- **`stpack`'s `unpacker!` macro** (`libs/stpack/src/lib.rs`). A record is
  an ordered list of unsigned integer fields of 1, 2, 4 or 8 bytes. `SIZE`
  is the sum of the field widths, with no padding. `unpack_le` and
  `unpack_be` fail on an input shorter than `SIZE`. Otherwise they cut the
  input at `SIZE` and read each field from its own byte window, in little-
  or big-endian order, and they return the bytes after the record. Here a
  layout is its list of field widths (`Stpack.Layout`), a decoded record is
  the list of its field values, and the macro's meaning is one generic
  decoder.
- **The ELF symbol-table reader** (`libs/elf_parser/src/symtab.rs`). It
  defines the `Elf32_Sym` (16 bytes) and `Elf64_Sym` (24 bytes) layouts of
  the System V ABI, generic ABI chapter 4, "Symbol Table", and the section
  types `SHT_SYMTAB` = 2 and `SHT_STRTAB` = 3 from the same chapter,
  "Sections". `SymtabIterator` is a cursor `(curr_secidx, curr_symidx)` over
  a list of sections. Each call of `next()` does the following:
  1. It scans forward to a symbol table with a whole entry left; an
     `entsize` of 0 is an error.
  2. It decodes the entry at `entsize * symidx` for the file's class and
     byte order.
  3. It checks the `link` of the section: the index must exist, and the
     section it names must be a string table.
  4. It looks the name up and returns the symbol, then moves the cursor to
     the next entry.

The iterator is the class `Symtab.SymtabIterator`. Its fields are the
source's fields (class, byte order, the sections, and the two `nat`
cursor fields) plus a `lookup` field, which the source does not have: it
holds the string-table lookup described below. Its `Next` method runs the source's scan loop over local
copies of the cursor. `Next` is proved equal to the function `Symtab.Step`
of the old cursor: the item it returns and the cursor it stores.
Everything about `next()` is then proved about `Step`, in
`symtab_props.dfy`. A run of calls is `SymtabProps.RunOf` over any
function `f` that `SymtabProps.IsStepOf` ties to `Step`.

The files:

- `wrappers.dfy` has `Option` and `Result`.
- `stpack.dfy` has the decoder, an encoder it inverts, and the round trips.
- `symtab.dfy` has the layouts, the scan, `Step` and the iterator class.
- `symtab_props.dfy` has the properties of one call and of runs of calls.
- `stpack_tests.dfy` and `symtab_tests.dfy` are the source's unit tests, stated as lemmas and methods, plus one scenario with overlapping entries.
- `usize32.dfy` has the finding below.

The string-table lookup `string_table::read_str_from_offset` is not part of
this model. It is a parameter `lookup: (seq<byte>, nat) -> string` of the
iterator, and every result holds for any lookup. The source's tests expect
the name "test" at offset 1; here that name is `lookup(StrtabContent, 1)`.

`Unpacker::unpack(data, le)` is not defined in `libs/stpack/src/lib.rs`;
it is modelled (`Stpack.Unpack`) as `unpack_le` when `le` holds
and `unpack_be` otherwise.

**A failing entry is not skipped.**
A decode error or a link error returns before `curr_symidx = symidx + 1`.
So the cursor stays on the failing entry, and every later call returns the
same error again (`SymtabProps.ErrorRepeats`, `SymtabProps.ErrorForever`).
It does not resume at the following entry. An `entsize` of 0 returns
even before the cursor is stored, so that error also repeats.

**Entries may overlap.** Only an `entsize` of 0 is refused. An `entsize`
below the record size decodes overlapping records without error as long
as a whole record remains after `entsize * symidx`
(`SymtabProps.StepAtEntry`, `SymtabTests.OverlappingEntries`).

## Model

| member | source | states |
|---|---|---|
| Stpack.FromLeBytes | libs/stpack/src/lib.rs:3-5 | `from_le_bytes` of n bytes is a value below 256^n; `ToBytes` and `LeBytesOfDecode` make it a bijection |
| Stpack.FromBeBytes | libs/stpack/src/lib.rs:7-9 | `from_be_bytes` of n bytes is a value below 256^n; `ToBytes` and `BeBytesOfDecode` make it a bijection |
| Stpack.FromBytes | libs/stpack/src/lib.rs:3-9 | `from_le_bytes`/`from_be_bytes` of n bytes give a value below 256^n |
| Stpack.FromBeIsReversedLe | libs/stpack/src/lib.rs:3-9 | big-endian reading is little-endian reading of the reversed bytes |
| Stpack.Size | libs/stpack/src/lib.rs:48-58 | `@allsize`: the first field fits in SIZE (with `SizeAppend`, SIZE is the sum of all widths) |
| Stpack.SizeBounds | libs/stpack/src/lib.rs:48-58 | n fields of 1, 2, 4 or 8 bytes have a SIZE between n and 8n |
| Stpack.SizeAppend | libs/stpack/src/lib.rs:48-58 | `@allsize` of two field lists one after the other is the sum of their sizes: no padding |
| Stpack.Offset | libs/stpack/src/lib.rs:11-16 | field k starts at the sum of the earlier widths and ends within SIZE |
| Stpack.FieldWindow | libs/stpack/src/lib.rs:43-44 | the first field starts at 0, each field ends where the next starts, the last ends at SIZE |
| Stpack.FieldsDisjoint | libs/stpack/src/lib.rs:11-16 | an earlier field ends before a later one starts: fields never overlap |
| Stpack.DecodeFields | libs/stpack/src/lib.rs:11-46 | `@constructor`: one value per field, each read from its own window (equal to sequential reading by `DecodeFieldsInOrder`) |
| Stpack.DecodeFieldsInOrder | libs/stpack/src/lib.rs:35-46 | reading every field from its offset equals reading the fields one after another in declaration order |
| Stpack.DecodeFieldsPrefix | libs/stpack/src/lib.rs:74-76 | the fields depend only on the first SIZE bytes |
| Stpack.UnpackLe | libs/stpack/src/lib.rs:70-80 | `Err` exactly when the input is shorter than SIZE; otherwise the fields read little-endian in order and the remainder `data[SIZE..]` |
| Stpack.UnpackBe | libs/stpack/src/lib.rs:82-92 | the same with each field read big-endian |
| Stpack.Unpack | libs/elf_parser/src/symtab.rs:102 | the `le` dispatch: `Err` exactly when too short, else the fields in the chosen order and `data[SIZE..]` |
| Stpack.UnpackFieldWindow | libs/stpack/src/lib.rs:11-16 | field k of a decode is its window `[offset_k, offset_k + width_k)` in the chosen byte order, and fits its width |
| Stpack.UnpackIgnoresTail | libs/stpack/src/lib.rs:74-76 | two inputs that agree on their first SIZE bytes decode to the same fields |
| Stpack.ToBytes | libs/stpack/src/lib.rs:3-9 | the encoding of a value that fits n bytes is n bytes long and reads back as the value |
| Stpack.Encode | libs/stpack/src/lib.rs:68 | a record's encoding is SIZE bytes long |
| Stpack.ReadEncoded | libs/stpack/src/lib.rs:74-76 | reading the encoded fields in order gives them back, whatever follows |
| Stpack.UnpackEncodeRoundTrip | libs/stpack/src/lib.rs:70-92 | decoding an encoded record followed by any bytes gives the record and exactly those bytes |
| Stpack.LeBytesOfDecode | libs/stpack/src/lib.rs:3-5 | encoding the little-endian value of some bytes gives them back |
| Stpack.BeBytesOfDecode | libs/stpack/src/lib.rs:7-9 | encoding the big-endian value of some bytes gives them back |
| Stpack.EncodeReadInOrder | libs/stpack/src/lib.rs:74-76 | fields read from an input fit their widths and re-encode to its first SIZE bytes |
| Stpack.EncodeUnpackRoundTrip | libs/stpack/src/lib.rs:70-92 | a decode loses nothing: re-encoding its fields gives back the SIZE bytes it consumed |
| StpackTests.FooSize | libs/stpack/src/lib.rs:109-111 | `Foo {u8, u16, u32}` has SIZE 7 |
| StpackTests.FooReadInOrder | libs/stpack/src/lib.rs:115-117 | the fields of `Foo` over bytes 0..9 are the values of bytes [0], [1,2] and [3..7) |
| StpackTests.FooUnpackLe | libs/stpack/src/lib.rs:114-127 | `unpack_le` of bytes 0..9 is `foo=0x00, bar=0x0201, baz=0x06050403` and remainder [7,8,9] |
| StpackTests.FooUnpackBe | libs/stpack/src/lib.rs:130-143 | `unpack_be` of bytes 0..9 is `bar=0x0102, baz=0x03040506` and remainder [7,8,9] |
| Symtab.Pow256Widths | libs/elf_parser/src/symtab.rs:16-36 | the value ranges of u8, u16, u32 and u64 |
| Symtab.Elf32Offsets | libs/elf_parser/src/symtab.rs:16-25 | `Elf32_Sym` is name@0, value@4, size@8, info@12, other@13, shndx@14, 16 bytes |
| Symtab.Elf64Offsets | libs/elf_parser/src/symtab.rs:27-36 | `Elf64_Sym` is name@0, info@4, other@5, shndx@6, value@8, size@16, 24 bytes |
| Symtab.OneByte | libs/stpack/src/lib.rs:3-9 | a one-byte field reads as the byte in either order |
| Symtab.Elf32Fields | libs/elf_parser/src/symtab.rs:16-25 | each Elf32 field comes from its window of the first 16 bytes, within its width |
| Symtab.Elf64Fields | libs/elf_parser/src/symtab.rs:27-36 | each Elf64 field comes from its window of the first 24 bytes, within its width |
| Symtab.Elf32Unpack | libs/elf_parser/src/symtab.rs:102 | `Elf32SymtabEntry::unpack` fails exactly below 16 bytes; else each field from its ABI offset and remainder `data[16..]` |
| Symtab.Elf64Unpack | libs/elf_parser/src/symtab.rs:115 | `Elf64SymtabEntry::unpack` fails exactly below 24 bytes; else each field from its ABI offset and remainder `data[24..]` |
| Symtab.EntrySizeIsLayoutSize | libs/elf_parser/src/symtab.rs:16-36 | the entry size used for each class is `SIZE` of that class's layout: 16 and 24 |
| Symtab.DecodeEntry | libs/elf_parser/src/symtab.rs:100-127 | decode fails, as `MalformedEntry`, exactly when fewer than the class's SIZE bytes remain; Elf32 value and size stay below 2^32 |
| Symtab.EntryCount | libs/elf_parser/src/symtab.rs:81 | `len / entsize` whole entries fit and the trailing bytes are fewer than one entry |
| Symtab.Skipped | libs/elf_parser/src/symtab.rs:75-87 | a symbol table with entsize 0 is never stepped over; one with entsize > 0 is stepped over exactly when fewer than `entsize` bytes start at `entsize * symidx` |
| Symtab.EntryLeft | libs/elf_parser/src/symtab.rs:81 | an index reaches `len / entsize` exactly when no whole entry starts at `entsize * index` |
| Symtab.Scan | libs/elf_parser/src/symtab.rs:65-88 | a stop at an entry is inside a symbol table with nonzero entsize, and the whole entry lies inside its content |
| Symtab.ScanSpec | libs/elf_parser/src/symtab.rs:65-88 | the scan stops at the first symbol table that has entsize 0 or an entry left, skipping every section before it, or past the end of the list at (len, 0) |
| Symtab.EntryFits | libs/elf_parser/src/symtab.rs:81 | an entry index below `len / entsize` leaves a whole entry inside the content |
| Symtab.Step | libs/elf_parser/src/symtab.rs:64-157 | `None` only past the last section; `InvalidEntrySize` keeps the cursor; a symbol comes from a symbol table with entsize > 0 and leaves the cursor at most one past its last whole entry |
| Symtab.StepAt | libs/elf_parser/src/symtab.rs:97-157 | after the scan a call always returns an item on the same section, and only a symbol advances the entry index |
| Symtab.SymtabIterator.constructor | libs/elf_parser/src/symtab.rs:47-58 | `new` keeps class and sections, sets `le` to endian == LE, and the cursor to (0, 0) |
| Symtab.SymtabIterator.Next | libs/elf_parser/src/symtab.rs:64-157 | the returned item and the stored cursor are `Step` of the cursor before the call |
| SymtabProps.ScanStopsAtFirst | libs/elf_parser/src/symtab.rs:69-88 | after sections it steps over, the scan stops at the first one it does not, with entsize-0 error or found entry |
| SymtabProps.ScanExhaustedIff | libs/elf_parser/src/symtab.rs:69-72 | the scan runs off the end exactly when it steps over every remaining section |
| SymtabProps.EntrySliceInBounds | libs/elf_parser/src/symtab.rs:98 | the slice start `entsize * symidx` is strictly inside the content, and the whole entry fits |
| SymtabProps.StepSkipsSection | libs/elf_parser/src/symtab.rs:86-87 | a skipped section (not a symbol table, or no whole entry left) gives what entry 0 of the next section gives |
| SymtabProps.StepZeroEntsize | libs/elf_parser/src/symtab.rs:75-79 | reaching a symbol table with entsize 0 is `InvalidEntrySize` and leaves the cursor unchanged |
| SymtabProps.StepNoneIff | libs/elf_parser/src/symtab.rs:90-95 | `None` exactly when no section from the cursor on has an entry left, and then the cursor is past the last section |
| SymtabProps.NoneIsFinal | libs/elf_parser/src/symtab.rs:90-95 | the call after a `None` returns `None` and leaves the cursor |
| SymtabProps.ErrorRepeats | libs/elf_parser/src/symtab.rs:90-91 | after an error the next call returns the same error with the same cursor |
| SymtabProps.CursorAdvances | libs/elf_parser/src/symtab.rs:147 | the cursor never moves backwards, and a symbol moves it forwards |
| SymtabProps.StepIsStepAt | libs/elf_parser/src/symtab.rs:81-82 | a symbol table with a whole entry at the cursor stops the scan right there |
| SymtabProps.StepAtOrder | libs/elf_parser/src/symtab.rs:100-145 | decode first, then link index, then link type; `Ok` exactly when all three pass |
| SymtabProps.StepAtEntry | libs/elf_parser/src/symtab.rs:97-157 | at a whole entry: `MalformedEntry` iff fewer than SIZE bytes remain, then `InvalidLinkIndex`, then `LinkNotStringTable`, otherwise a symbol and cursor (i, j+1); errors keep (i, j) |
| SymtabProps.NoMalformedWhenEntsizeFits | libs/elf_parser/src/symtab.rs:100-127 | an entsize of at least SIZE never gives `MalformedEntry` |
| SymtabProps.DecodeEntry32 | libs/elf_parser/src/symtab.rs:103-110 | an Elf32 entry of 16 bytes decodes with every field from its offset, value and size zero-extended |
| SymtabProps.DecodeEntry64 | libs/elf_parser/src/symtab.rs:116-123 | an Elf64 entry of 24 bytes decodes with every field from its offset |
| SymtabProps.StepAtSymbol | libs/elf_parser/src/symtab.rs:129-157 | a decodable entry of a section linked to a string table gives the symbol named by `lookup` at the entry's `nameoff` in the linked section's bytes, with the entry's value, size, info, other and shndx, and cursor (i, j+1) |
| SymtabProps.Elf32SymbolAt | libs/elf_parser/src/symtab.rs:103-157 | StepAt gives the Elf32 symbol read from its offsets |
| SymtabProps.Elf32Symbol | libs/elf_parser/src/symtab.rs:103-157 | an Elf32 call returns the symbol named by `lookup` at `name` in the linked string table, fields from their offsets, value and size below 2^32, and cursor (i, j+1) |
| SymtabProps.Elf64SymbolAt | libs/elf_parser/src/symtab.rs:116-157 | StepAt gives the Elf64 symbol read from its offsets |
| SymtabProps.Elf64Symbol | libs/elf_parser/src/symtab.rs:116-157 | an Elf64 call returns the symbol whose name, info, other, shndx, value and size come from their offsets, and cursor (i, j+1) |
| SymtabProps.RunOf | libs/elf_parser/src/symtab.rs:64-157 | n calls give n items, the first the result of the first call |
| SymtabProps.FixedPointRepeats | libs/elf_parser/src/symtab.rs:90-91 | a call that keeps the cursor repeats its item on every later call |
| SymtabProps.NoneForever | libs/elf_parser/src/symtab.rs:90-95 | after `None` every later call returns `None` and the cursor stays |
| SymtabProps.ErrorForever | libs/elf_parser/src/symtab.rs:75-91 | after any error, `InvalidEntrySize` included, every later call returns that error |
| SymtabProps.StepYieldsEntry | libs/elf_parser/src/symtab.rs:97-157 | a well-linked table with entsize at least SIZE turns each whole entry into a symbol and moves to the next |
| SymtabProps.RunOfEntries | libs/elf_parser/src/symtab.rs:147 | calls that each yield a symbol and advance by one visit entries j..n in order and stop at (i, n) |
| SymtabProps.EntriesYield | libs/elf_parser/src/symtab.rs:97-157 | every remaining entry of a well-linked table with entsize at least SIZE yields a symbol |
| SymtabProps.SectionYieldsEveryEntry | libs/elf_parser/src/symtab.rs:64-157 | such a table yields one symbol per whole entry, in entry order, trailing bytes ignored, ending at cursor (i, len / entsize) |
| SymtabProps.StepAfterLastEntry | libs/elf_parser/src/symtab.rs:81-87 | after its last entry a table hands over to entry 0 of the next section |
| SymtabTests.ZeroBytes | libs/stpack/src/lib.rs:3-9 | zero bytes read as 0 in either order |
| SymtabTests.Elf32BeEntryFields | libs/elf_parser/src/symtab.rs:204-211 | the test's big-endian entry holds name 1 and value 0x11223344 |
| SymtabTests.Elf64LeValue | libs/elf_parser/src/symtab.rs:412-413 | the bytes ff ee dd cc bb aa 99 88 read little-endian as 0x8899aabbccddeeff |
| SymtabTests.Elf64LeEntryFields | libs/elf_parser/src/symtab.rs:407-416 | the test's little-endian entry holds name 1 and value 0x8899aabbccddeeff |
| SymtabTests.ZeroLengthFirstSymbol | libs/elf_parser/src/symtab.rs:180-247 | the empty first symbol table is stepped over and the symbol of the second is returned |
| SymtabTests.ZeroLengthFirstEnd | libs/elf_parser/src/symtab.rs:231-247 | after it nothing is left |
| SymtabTests.Elf32BeFirstSectionIsZeroLengthSymtab | libs/elf_parser/src/symtab.rs:179-248 | collecting the iterator gives `Symbol{"test", 0x11223344, 0, 0, 0, 0}` and then the end |
| SymtabTests.Elf32BeInvalidSymtabEntsize | libs/elf_parser/src/symtab.rs:250-296 | entsize 0 is `InvalidEntrySize` and the cursor stays at (0, 0) |
| SymtabTests.Elf32BeIncompleteSymtab | libs/elf_parser/src/symtab.rs:298-344 | a 15-byte entry is `MalformedEntry` |
| SymtabTests.Elf32BeSymtabLinkOutOfRange | libs/elf_parser/src/symtab.rs:346-392 | link 2 among two sections is `InvalidLinkIndex` |
| SymtabTests.Elf32BeShstrtabInvalidType | libs/elf_parser/src/symtab.rs:505-551 | a link to a section that is not a string table is `LinkNotStringTable` |
| SymtabTests.Elf64LeSymbol | libs/elf_parser/src/symtab.rs:394-453 | the 64-bit entry becomes the symbol with value 0x8899aabbccddeeff |
| SymtabTests.Elf64LeEnd | libs/elf_parser/src/symtab.rs:436-452 | after it nothing is left |
| SymtabTests.Elf64Le | libs/elf_parser/src/symtab.rs:394-453 | collecting the iterator gives `Symbol{"test", 0x8899aabbccddeeff, 0, 0, 0, 0}` and then the end |
| SymtabTests.OverlappingEntries | libs/elf_parser/src/symtab.rs:75-127 | entsize 8 over 32 bytes: entry 1 decodes from the overlapping bytes 8..24, and entry 3, with 8 bytes left, is `MalformedEntry` |
| SymtabTests.Elf64LeIncompleteSymtab | libs/elf_parser/src/symtab.rs:455-503 | a 23-byte entry is `MalformedEntry` |
| Usize32.AsUsize | libs/elf_parser/src/symtab.rs:81 | `as usize` on a 32-bit target keeps the low 32 bits: the result is below 2^32 and differs from the input by a multiple of 2^32, so it is the input below 2^32 |
| Usize32.EntryCountAsWritten | libs/elf_parser/src/symtab.rs:75-81 | as written on 32 bits: entsize 0 is refused, but a nonzero entsize with zero low 32 bits divides by zero |
| Usize32.TruncatedEntsizeDividesByZero | libs/elf_parser/src/symtab.rs:75-81 | entsize 2^32 passes the zero test and divides by zero |
| Usize32.EntryCountCorrected | libs/elf_parser/src/symtab.rs:75-81 | testing the truncated divisor never divides by zero and bounds the count by the content |
| Usize32.CorrectedAgreesAsWritten | libs/elf_parser/src/symtab.rs:75-81 | where the written code does not divide by zero, the corrected count is the same |
| Usize32.EntryOffsetFits | libs/elf_parser/src/symtab.rs:81-98 | on 32 bits, the slice start `entsize as usize * symidx` plus one entry stays below 2^32 whenever the index passed the count test |
| Usize32.CorrectedMatchesModel | libs/elf_parser/src/symtab.rs:81 | for entsize below 2^32 the corrected count is `Symtab.EntryCount` |

## Left out

- `src/kallsyms.rs` is left out. It wraps the external `kallsyms` crate and a linker-provided address, and has no logic of its own.
- `string_table::read_str_from_offset` is not part of this model. It is the uninterpreted `lookup` parameter, with no claim about NUL termination or out-of-range offsets.
- Error values are left out as text. `ElfParserError`, `Errno` and the message strings are the four `ElfError` kinds.
- Lifetimes and borrowing are left out. A symbol's name is a `string` value, not a borrowed slice.
- The `macro_rules!` token-tree recursion is left out. Only its meaning is modelled, as a field-width list.
- ELF header parsing and section-header enumeration are left out. They live outside these files, and the section list is an input.
- Unused section fields are left out: `name`, `flags`, `addr`, `info` and `addralign`.
- `usize` is taken as 64 bits wide in `Symtab`, so `entsize as usize` loses nothing there. A 32-bit target's truncation of `entsize as usize` is treated only in `Usize32` (see Findings). So `Step` differs from a 32-bit build for every `entsize` of 2^32 or more, not only where the division by zero happens: for example, `entsize = 2^32 + 16` over 16 bytes gives a 32-bit count of 1 and a 16-byte stride, so that build decodes an entry, while `Step` steps over the section.
- The product `entsize as usize * symidx` at symtab.rs:98 is not modelled as a `usize` operation, because it cannot overflow: it is reached only after symtab.rs:81 has checked `symidx < len / (entsize as usize)`, so the product plus one entry is at most the content length, itself a `usize` (`Usize32.EntryOffsetFits`).
- A panic is not modelled as an outcome. Every slice and index in `Next` is proved in bounds instead.
- `Iterator::map` and `collect` in the tests are modelled as two explicit calls of `Next`, whose results are gathered into a sequence.

## Findings

| source | as written | input that shows it | evidently intended | confidence | as-written member | corrected member |
|---|---|---|---|---|---|---|
| libs/elf_parser/src/symtab.rs:75-81 | the zero test is on the 64-bit `entsize`, but the divisor is `entsize as usize` | on a 32-bit target, a symbol table with `entsize = 0x1_0000_0000`: the test passes and the divisor is 0, a division-by-zero panic instead of the "entry size is 0" error | test the value actually used as divisor, so a malformed file is reported as an error | low: needs a 32-bit target; not executed | Usize32.EntryCountAsWritten | Usize32.EntryCountCorrected |
