/**
 The bit layout of a Device Feature List: what the walker reads out of each 64-bit
 word, and the words an image builder would write.  Masks and shifts are written
 as division and remainder by powers of two.
 */
module DflFormat {

  const POW3: nat := 8
  const POW15: nat := 0x8000
  const POW16: nat := 0x1_0000
  const POW23: nat := 0x80_0000
  const POW29: nat := 0x2000_0000
  const POW31: nat := 0x8000_0000
  const POW32: nat := 0x1_0000_0000
  const POW35: nat := 0x8_0000_0000
  const POW40: nat := 0x100_0000_0000
  const POW64: nat := 0x1_0000_0000_0000_0000

  const BRANCH_ID: nat := 0xC
  const HEADER_BYTES: nat := 8
  const FIRST_PARAM: nat := 0x28

  type Word = x: int | 0 <= x < POW64
  type Address = x: int | 0 <= x < POW32

  /** The 64-bit word at every byte address; the walker never writes it. */
  type Memory = Address -> Word

  /** A pointer is 32 bits wide: address arithmetic wraps. */
  function Ptr(x: int): Address {
    x % POW32
  }

  function Read64(mem: Memory, a: Address, offset: nat): Word {
    mem(Ptr(a + offset))
  }

  predicate IsEol(start: Word) {
    start / POW40 % 2 == 1
  }

  function NextDfhOffset(start: Word): nat {
    start / POW16 % POW23
  }

  predicate HasParams(group: Word) {
    group / POW31 % 2 == 1
  }

  function InstanceId(group: Word): nat {
    group % POW16
  }

  function GroupId(group: Word): nat {
    group / POW16 % POW15
  }

  predicate IsLastParam(header: Word) {
    header / POW32 % 2 == 1
  }

  function NextParamOffset(header: Word): nat {
    header / POW35 * POW3
  }

  function ParamVersion(header: Word): nat {
    header / POW16 % POW16
  }

  function ParamId(header: Word): nat {
    header % POW16
  }

  /** The null block that ends a list: marked last, no data. */
  predicate IsNullParam(header: Word) {
    IsLastParam(header) && NextParamOffset(header) == 0
  }

  /** A CSR address is absolute when its lowest bit is set, else relative to the header. */
  function BaseAddress(csr: Word, dfh: Address): Address {
    if csr % 2 == 1 then Ptr(csr - 1) else Ptr(dfh + csr)
  }

  /** So is the address of a sub-list, with its three lowest bits dropped. */
  function BranchTarget(word: Word, dfh: Address): Address {
    var target := word - word % 8;
    if word % 2 == 1 then Ptr(target) else Ptr(dfh + target)
  }

  /** How many bytes of data the block holds: the last block's size counts no header. */
  function DataWords(header: Word): nat
    requires !IsNullParam(header)
    requires IsLastParam(header) || NextParamOffset(header) > 0
  {
    (if IsLastParam(header) then NextParamOffset(header) else NextParamOffset(header) - HEADER_BYTES) / 8
  }

  // ---------- the words of an image ----------

  // The places of the fields are written out here, apart from the masks above; `low`,
  // `spare` and `high` are the bits the walker must ignore.

  function StartWord(eol: bool, next: nat, low: nat, spare: nat, high: nat): nat {
    high * 0x200_0000_0000 + (if eol then 0x100_0000_0000 else 0) + spare * 0x80_0000_0000 + next * 0x1_0000 + low
  }

  function GroupWord(params: bool, instance: nat, group: nat, high: nat): nat {
    high * 0x1_0000_0000 + (if params then 0x8000_0000 else 0) + group * 0x1_0000 + instance
  }

  /** A block header; `words` is the offset field, in 64-bit words. */
  function HeaderWord(version: nat, id: nat, last: bool, words: nat, spare: nat): nat {
    words * 0x8_0000_0000 + spare * 0x2_0000_0000 + (if last then 0x1_0000_0000 else 0) + version * 0x1_0000 + id
  }

  lemma StartDecodes(eol: bool, next: nat, low: nat, spare: nat, high: nat)
    requires next < 0x80_0000 && low < 0x1_0000 && spare < 2 && high < 0x80_0000
    ensures var w := StartWord(eol, next, low, spare, high);
      w < POW64 && IsEol(w) == eol && NextDfhOffset(w) == next
  {
    var flag := if eol then 1 else 0;
    var w := StartWord(eol, next, low, spare, high);
    Above16(((high * 2 + flag) * 2 + spare) * POW23 + next, low);
    Below23((high * 2 + flag) * 2 + spare, next);
    Above40(high * 2 + flag, spare * 0x80_0000_0000 + next * POW16 + low);
    Lowest(high, flag);
    assert w == (((high * 2 + flag) * 2 + spare) * POW23 + next) * POW16 + low;
    assert w == (high * 2 + flag) * POW40 + (spare * 0x80_0000_0000 + next * POW16 + low);
  }

  lemma GroupDecodes(params: bool, instance: nat, group: nat, high: nat)
    requires instance < 0x1_0000 && group < 0x8000 && high < 0x1_0000_0000
    ensures var w := GroupWord(params, instance, group, high);
      w < POW64 && HasParams(w) == params && InstanceId(w) == instance && GroupId(w) == group
  {
    var flag := if params then 1 else 0;
    var w := GroupWord(params, instance, group, high);
    Above16((high * 2 + flag) * POW15 + group, instance);
    Below15(high * 2 + flag, group);
    Above31(high * 2 + flag, group * POW16 + instance);
    Lowest(high, flag);
    assert w == ((high * 2 + flag) * POW15 + group) * POW16 + instance;
    assert w == (high * 2 + flag) * POW31 + (group * POW16 + instance);
  }

  lemma HeaderDecodes(version: nat, id: nat, last: bool, words: nat, spare: nat)
    requires version < 0x1_0000 && id < 0x1_0000 && words < 0x2000_0000 && spare < 4
    ensures var w := HeaderWord(version, id, last, words, spare);
      && w < POW64 && ParamVersion(w) == version && ParamId(w) == id
      && IsLastParam(w) == last && NextParamOffset(w) == 8 * words
  {
    var flag := if last then 1 else 0;
    var w, upper := HeaderWord(version, id, last, words, spare), (words * 4 + spare) * 2 + flag;
    Above16(upper * POW16 + version, id);
    Below16(upper, version);
    Above32(upper, version * POW16 + id);
    Lowest(words * 4 + spare, flag);
    Above35(words, (spare * 2 + flag) * POW32 + version * POW16 + id);
    assert w == (upper * POW16 + version) * POW16 + id;
    assert w == upper * POW32 + (version * POW16 + id);
    assert w == words * POW35 + ((spare * 2 + flag) * POW32 + version * POW16 + id);
  }

  /** A CSR address: where it is, in units of two bytes, after its DFH (modulo the address space) or from 0. */
  datatype Csr = Csr(absolute: bool, units: Units)

  type Units = x: int | 0 <= x < 0x8000_0000_0000_0000

  /** The word that says so; every word is one of these. */
  function CsrWord(c: Csr): Word {
    2 * c.units + if c.absolute then 1 else 0
  }

  function CsrAddress(c: Csr, dfh: Address): Address {
    Ptr((if c.absolute then 0 else dfh) + 2 * c.units)
  }

  /** The walker finds the interface where the CSR word says it is. */
  lemma CsrDecodes(c: Csr, dfh: Address)
    ensures BaseAddress(CsrWord(c), dfh) == CsrAddress(c, dfh)
  {
    Lowest(c.units, if c.absolute then 1 else 0);
  }

  lemma CsrOf(w: Word) returns (c: Csr)
    ensures CsrWord(c) == w
  {
    c := Csr(w % 2 == 1, w / 2);
  }

  lemma Lowest(high: nat, flag: nat)
    requires flag <= 1
    ensures (high * 2 + flag) % 2 == flag
  {
  }

  lemma Above16(high: nat, low: nat)
    requires low < POW16
    ensures (high * POW16 + low) / POW16 == high && (high * POW16 + low) % POW16 == low
  {
  }

  lemma Above31(high: nat, low: nat)
    requires low < POW31
    ensures (high * POW31 + low) / POW31 == high
  {
  }

  lemma Above32(high: nat, low: nat)
    requires low < POW32
    ensures (high * POW32 + low) / POW32 == high
  {
  }

  lemma Above35(high: nat, low: nat)
    requires low < POW35
    ensures (high * POW35 + low) / POW35 == high
  {
  }

  lemma Above40(high: nat, low: nat)
    requires low < POW40
    ensures (high * POW40 + low) / POW40 == high
  {
  }

  lemma Below15(high: nat, low: nat)
    requires low < POW15
    ensures (high * POW15 + low) % POW15 == low
  {
  }

  lemma Below16(high: nat, low: nat)
    requires low < POW16
    ensures (high * POW16 + low) % POW16 == low
  {
  }

  lemma Below23(high: nat, low: nat)
    requires low < POW23
    ensures (high * POW23 + low) % POW23 == low
  {
  }
}
