/**
 * The entry count of a symbol table on a target whose `usize` is 32 bits
 * wide.  `next()` tests the 64-bit `entsize` against 0 and only then
 * converts it with `as usize`, which keeps the low 32 bits; a non-zero
 * `entsize` whose low 32 bits are 0 passes the test and is then a zero
 * divisor.  The rest of the model takes `usize` to be 64 bits wide, where
 * the conversion loses nothing.
 */
module Usize32 {
  import opened Wrappers
  import opened Symtab

  const USIZE_MODULUS: nat := 0x1_0000_0000

  /** `x as usize` on a 32-bit target: the low 32 bits. */
  function AsUsize(x: nat): (r: nat)
    ensures r < USIZE_MODULUS
    ensures (x - r) % USIZE_MODULUS == 0
    ensures x < USIZE_MODULUS ==> r == x
  {
    x % USIZE_MODULUS
  }

  /** How the entry count of a section can fail. */
  datatype CountFault = ZeroEntrySize | DivisionByZero

  /**
   * The count as written: the zero test on the 64-bit value, then the
   * division by the truncated one.  `DivisionByZero` stands for the panic.
   */
  function EntryCountAsWritten(contentLen: nat, entsize: u64): (r: Result<nat, CountFault>)
    ensures r == Err(ZeroEntrySize) <==> entsize == 0
    ensures r == Err(DivisionByZero) <==> entsize != 0 && AsUsize(entsize) == 0
    ensures r.Ok? ==> r.value == contentLen / AsUsize(entsize)
  {
    if entsize == 0 then Err(ZeroEntrySize)
    else if AsUsize(entsize) == 0 then Err(DivisionByZero)
    else Ok(contentLen / AsUsize(entsize))
  }

  /** An entsize of 2^32 passes the zero test and then divides by zero. */
  lemma TruncatedEntsizeDividesByZero()
    ensures EntryCountAsWritten(16, 0x1_0000_0000) == Err(DivisionByZero)
  {
  }

  /**
   * The count with the zero test on the value actually used as divisor:
   * it never divides by zero, and it agrees with the 64-bit count whenever
   * entsize fits in 32 bits.
   */
  function EntryCountCorrected(contentLen: nat, entsize: u64): (r: Result<nat, CountFault>)
    ensures r != Err(DivisionByZero)
    ensures r.Err? <==> AsUsize(entsize) == 0
    ensures r.Ok? ==> r.value * AsUsize(entsize) <= contentLen < r.value * AsUsize(entsize) + AsUsize(entsize)
  {
    var divisor := AsUsize(entsize);
    if divisor == 0 then Err(ZeroEntrySize)
    else Ok(EntryCount(contentLen, divisor))
  }

  /** Wherever the written code does not panic, the corrected count is the same. */
  lemma CorrectedAgreesAsWritten(contentLen: nat, entsize: u64)
    requires EntryCountAsWritten(contentLen, entsize) != Err(DivisionByZero)
    ensures EntryCountCorrected(contentLen, entsize) == EntryCountAsWritten(contentLen, entsize)
  {
  }

  /**
   * The slice start `entsize as usize * symidx` cannot overflow a 32-bit
   * `usize`: it is computed only for an index below the count, so the
   * whole entry lies inside a content whose length is itself a `usize`.
   */
  lemma EntryOffsetFits(contentLen: nat, entsize: u64, symidx: nat)
    requires contentLen < USIZE_MODULUS
    requires EntryCountAsWritten(contentLen, entsize).Ok?
    requires symidx < EntryCountAsWritten(contentLen, entsize).value
    ensures AsUsize(entsize) * symidx + AsUsize(entsize) < USIZE_MODULUS
  {
    EntryFits(contentLen, AsUsize(entsize), symidx);
  }

  /** Below 2^32 the corrected count is the one the rest of the model uses. */
  lemma CorrectedMatchesModel(contentLen: nat, entsize: u64)
    requires 0 < entsize < USIZE_MODULUS
    ensures EntryCountCorrected(contentLen, entsize) == Ok(EntryCount(contentLen, entsize))
  {
  }
}
