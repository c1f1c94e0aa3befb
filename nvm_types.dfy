/** Types shared by the NVM dispatcher and the EEPROM-emulation layer: the status
    code, the memory-driver record and the region record of `nvm.h`, with the
    uint32 arithmetic and the byte-buffer copy both layers rely on. */
module NvmTypes {

  const TWO_32: int := 0x1_0000_0000

  /** A C `uint32_t`. */
  newtype U32 = x: int | 0 <= x < 0x1_0000_0000

  /** `a + b` computed in `uint32_t`: it wraps around modulo 2^32. */
  function Add32(a: U32, b: U32): (r: U32)
    ensures a as int + b as int < TWO_32 ==> r as int == a as int + b as int
    ensures a as int + b as int >= TWO_32 ==> r as int == a as int + b as int - TWO_32
  {
    ((a as int + b as int) % TWO_32) as U32
  }

  /** `a - b` computed in `uint32_t`: it wraps around below zero. */
  function Sub32(a: U32, b: U32): (r: U32)
    ensures b <= a ==> r as int == a as int - b as int
    ensures a < b ==> r as int == a as int - b as int + TWO_32
  {
    ((a as int - b as int) % TWO_32) as U32
  }

  /** `nvm_status_t`. The C enum is an int-sized bit mask: no bit set is `eNVM_OK`. */
  type Status = bv32

  const OK: Status := 0
  const ERROR: Status := 0x01

  /** The two enumerators `nvm.h` declares. */
  predicate IsStatusCode(s: Status) {
    s == OK || s == ERROR
  }

  /** OR-combining two statuses (`status |= ...`) is OK exactly when both are,
      and combining two declared codes gives a declared code again. */
  lemma OrCombine(a: Status, b: Status)
    ensures (a | b == OK) <==> (a == OK && b == OK)
    ensures IsStatusCode(a) && IsStatusCode(b) ==> IsStatusCode(a | b)
    ensures IsStatusCode(a) && IsStatusCode(b) ==> (a | b == ERROR <==> a == ERROR || b == ERROR)
  {
  }

  /** `nvm_mem_driver_t`. The write, read and erase primitives act on the simulated
      memory device number `device`; `hasInit` is false when `pf_nvm_init` is NULL;
      `eeEnabled` is the driver's `ee.en` flag that the emulation layer reads. */
  datatype MemDriver = MemDriver(device: nat, hasInit: bool, eeEnabled: bool)

  /** `nvm_region_t`. Every field is `const` in C, so a region never changes. */
  datatype Region = Region(name: string, startAddr: U32, size: U32, driver: MemDriver)

  datatype Option<T> = None | Some(value: T)

  /** `memcpy(&s[off], b, |b|)` seen on the contents of the destination buffer. */
  function Splice<T>(s: seq<T>, off: nat, b: seq<T>): (r: seq<T>)
    requires off + |b| <= |s|
    ensures |r| == |s|
  {
    s[..off] + b + s[off + |b|..]
  }

  /** The copied bytes land at `off` and nothing else in the buffer changes. */
  lemma SpliceContents<T>(s: seq<T>, off: nat, b: seq<T>)
    requires off + |b| <= |s|
    ensures Splice(s, off, b)[off..off + |b|] == b
    ensures forall i :: 0 <= i < |s| && !(off <= i < off + |b|) ==> Splice(s, off, b)[i] == s[i]
  {
  }

  /** A buffer that holds `b` at `off` and `s` everywhere else is `s` after the copy. */
  lemma SpliceFrom<T>(s: seq<T>, off: nat, b: seq<T>, r: seq<T>)
    requires off + |b| <= |s| && |r| == |s|
    requires forall i :: off <= i < off + |b| ==> r[i] == b[i - off]
    requires forall i :: 0 <= i < |s| && !(off <= i < off + |b|) ==> r[i] == s[i]
    ensures r == Splice(s, off, b)
  {
    var t := Splice(s, off, b);
    assert forall i :: 0 <= i < |s| ==> r[i] == t[i];
  }

  /** A range the copy does not reach keeps its contents. */
  lemma SpliceElsewhere<T>(s: seq<T>, off: nat, b: seq<T>, lo: nat, hi: nat)
    requires off + |b| <= |s| && lo <= hi <= |s|
    requires hi <= off || off + |b| <= lo
    ensures Splice(s, off, b)[lo..hi] == s[lo..hi]
  {
    assert forall i :: lo <= i < hi ==> Splice(s, off, b)[i] == s[i];
  }
}
