# NVM dispatcher and EEPROM emulation — a Dafny model

This project models the core of the `nvm` embedded C library. The library
gives an application one API over several non-volatile memories. The
configuration declares named *regions*, each a `start_addr`/`size` range on one
low-level *memory driver* (with its `init`, `write`, `read` and `erase`
primitives).

- **Dispatcher** (`src/nvm.c`, module `Nvm`). `nvm_init` walks the region table
  for entries 0 .. `eNVM_MEM_DRV_NUM_OF`-1, calls the init of each such entry's
  driver when its init pointer is set (a driver shared by several of those
  entries is initialised once per entry, and a driver used only by later entries
  not at all), then initialises the platform interface, OR-ing all the statuses. `nvm_write`, `nvm_read` and
  `nvm_erase` check their arguments in `uint32_t` arithmetic, take the platform
  mutex, call the region's driver at the absolute address `start_addr + addr`,
  and then release the mutex. `nvm_get_status_str` decodes a status for debug
  output.
- **EEPROM emulation** (`src/nvm_ee.c`, module `NvmEe`). Every region whose
  driver has emulation enabled gets a slice of one heap buffer, the *mirror*.
  The slices follow table order, each as long as its region. `nvm_ee_init`
  sizes the mirror, allocates it and loads it from flash. A read is served from
  the mirror. A write copies into the mirror, erases flash and re-flushes the
  whole mirror. An erase erases flash and reloads the whole mirror.
- **Types** (`src/nvm.h`, module `NvmTypes`): `nvm_status_t` (a bit mask, `OK = 0`,
  `ERROR = 1`), the driver record and the region record. Also here: `uint32_t`
  addition and subtraction that wrap, and `Splice`, which is what `memcpy` does
  to the destination buffer.
- **Platform** (module `Platform`): the collaborators the core calls but does
  not contain. These are the drivers, `nvm_if_init`, the mutex and `malloc`.
  One `Platform` object simulates them all:
  - a byte store per device (`flash`);
  - an oracle `verdict` that decides the status of the k-th external call
    (counter `tick`), so every failure pattern is covered;
  - a ghost `trace` of the calls made, in order.
  A successful write programs bytes, a successful erase sets them to `0xFF`, and
  a failed call changes nothing.

The two modules with state are classes: `Nvm.Nvm` holds `gb_is_init` and
`gp_nvm_regions`; `NvmEe.NvmEe` holds `gb_is_init`, `gp_nvm_regions` and the
mirror `gp_ram_mem` as an `array`. Their methods keep the loops of the C code.
Each method is proved against functions that say, for the whole region table,
which calls the code makes (`InitCalls`, `LoadCalls`, `FlushCalls`) and what the
mirror then holds (`LoadRam`, `Image`). Lemmas then prove the properties the
library relies on:
- the mirror is exactly the emulated regions' space, and slices do not overlap;
- loading with no failed read gives the flash image;
- flushing with no failed write puts the mirror in flash;
- flushing and loading again gives back the mirror;
- a write followed by a read of the same range returns the data: through the
  dispatcher when both calls return OK, and through the emulation layer always;
- every driver data call in a dispatcher trace is made while holding the
  mutex, and the mutex is free again afterwards;
- the argument check accepts and refuses exactly what it does.

### Behaviour worth knowing

- The argument check is `addr + start < start + size` and
  `addr + start + len < addr + start + size`, all in `uint32_t`. It is **not**
  "`addr + len` within the region":
  - away from wrap-around it is `addr < size && len < size`, so a request of
    the full region size is always refused;
  - a request running past the end of the region is accepted;
  - a huge `addr` that wraps below the region's start can be accepted.
  See `AcceptsWithoutWrap`, `FullRegionRejected`, `OverrunAccepted` and
  `WrapAcceptsBelowRegion`.
- The argument check happens before the mutex is taken, so a refused request
  never touches the mutex.
- `nvm_write`, `nvm_read` and `nvm_erase` always call the driver directly. They
  do not route emulated regions to the mirror.
- `nvm_init` does not validate the configuration. Its driver loop indexes the
  *region* table with the *driver* counter.
- There is no `deinit` and no `sync`.
- The emulation write is write-through. It copies into the mirror, erases
  `size` bytes from the region's start, and rewrites every emulated region from
  the mirror. It is not RAM-only.
- The emulation erase is a physical erase at the raw `addr`, followed by a
  reload of the whole mirror from flash. It does not fill the mirror with
  `0xFF`.
  - Its status is the reload's alone: a failed erase is overwritten and not
    reported.
- The mirror offset of an emulation read or write is `addr - start_addr` of
  the region alone, not `SliceStart + addr - start_addr`. For an emulated
  region whose slice does not start at 0, an offset below the slice start
  lands in an earlier emulated region's slice (`WriteAtRegionStart`), and any
  other offset lands at the wrong place in the region's own slice. The first
  emulated region is served correctly wherever it sits in the table.
- A second `nvm_ee_init` returns OK, whereas a second `nvm_init` returns
  ERROR.

## Model

| member | source | states |
|---|---|---|
| NvmTypes.OrCombine | src/nvm.h:44-49 | OR-ing two statuses is OK exactly when both are OK; OR-ing two declared codes gives a declared code, ERROR when either is ERROR |
| NvmTypes.Add32 | src/nvm.c:152-153 | `uint32_t` addition: the exact sum below 2^32, the sum minus 2^32 otherwise |
| NvmTypes.Sub32 | src/nvm_ee.c:196 | `uint32_t` subtraction: the exact difference when it is not negative, the difference plus 2^32 otherwise |
| Platform.AggregateOk | src/nvm.c:86-93 | the fold that OR-assigns each call's status into `status` over a sequence of calls is OK exactly when every call returned OK |
| Platform.AggregateTwoValued | src/nvm.c:86-93 | when every call returns a declared status code, the fold is a declared code too |
| Platform.Outcome | src/nvm_ee.c:79-82 | the "set ERROR when a call does not return OK" status is a declared code, and is OK exactly when every call succeeded |
| Platform.OutcomeSnoc | src/nvm_ee.c:106-109 | one more call keeps the status when it succeeded and makes it ERROR when it failed |
| Platform.OutcomeConcat | src/nvm_ee.c:202-208 | OR-ing the status of the erase with the status of the flush gives the status of the two call sequences together |
| Nvm.Accepts | src/nvm.c:151-153 | the argument check as written: region < table size, addr + start < start + size, and addr + start + len < addr + start + size, all in `uint32_t` |
| Nvm.AcceptsWithoutWrap | src/nvm.c:151-153 | without wrap-around the argument check accepts exactly when `addr < size` and `len < size` of the region |
| Nvm.FullRegionRejected | src/nvm.c:153 | a request whose length equals the region size is refused for every address |
| Nvm.UnknownRegionRejected | src/nvm.c:151 | a region id outside the table is refused |
| Nvm.OverrunAccepted | src/nvm.c:152-153 | concrete input: 10 bytes at offset 10 of a 16-byte region pass the check although they overrun it |
| Nvm.WrapAcceptsBelowRegion | src/nvm.c:152-160 | concrete input: an `addr` outside the region passes the check, and the driver address `start_addr + addr` wraps below the region's start |
| Nvm.LockAfterConcat | src/nvm.c:155-174 | the mutex state after two call sequences is the state after the second, started from the state after the first |
| Nvm.SerializedAppend | src/nvm.c:155-174 | appending a serialized call sequence to a serialized trace keeps it serialized |
| Nvm.CriticalSectionSerialized | src/nvm.c:155-167 | acquire, one driver data call, release is serialized |
| Nvm.FailedAcquireSerialized | src/nvm.c:169-173 | a failed acquire leaves the mutex free and makes no driver call |
| Nvm.NeutralCalls | src/nvm.c:82-93 | driver inits and `nvm_if_init` leave the mutex state unchanged |
| Nvm.DriverInitsOnly | src/nvm.c:82-90 | the init loop calls nothing but driver inits |
| Nvm.InitIndicesExact | src/nvm.c:82-86 | the counter values at which the init loop calls an init are exactly the table entries below the driver count whose init pointer is set, each once, in increasing order |
| Nvm.DriverInitsCalled | src/nvm.c:82-90 | the init loop makes as many inits as there are such entries, and its j-th init goes to the driver of the j-th such entry |
| Nvm.InitStatus | src/nvm.c:92-99 | OR-ing in the `nvm_if_init` status gives the fold of all init calls, OK exactly when every one succeeded |
| Nvm.GetStatusStr | src/nvm.c:340-362 | "OK" for status 0, "ERROR" when bit 0 is set, "N/A" for a non-zero status with none of bits 0-7 set |
| Nvm.Nvm.constructor | src/nvm.c:38-43 | the module starts uninitialised with no region table |
| Nvm.Nvm.Init | src/nvm.c:70-107 | a second init returns ERROR and changes nothing. A first init takes the table, makes exactly the driver init calls and then `nvm_if_init`, and returns their OR. It becomes initialised exactly when that is OK, that is, when every call succeeded. Flash is untouched and the trace stays serialized. |
| Nvm.Nvm.InitDrivers | src/nvm.c:82-90 | the driver-init loop makes the calls `DriverInits` lists and returns the OR of their statuses |
| Nvm.Nvm.IsInit | src/nvm.c:116-119 | returns the initialisation flag |
| Nvm.Nvm.Write | src/nvm.c:135-189 | Not initialised or refused by the check: ERROR, no call, flash unchanged. Failed acquire: ERROR, only the acquire, flash unchanged. Otherwise: acquire, one driver write of the caller's data at `start_addr + addr` (wrapping), release; flash is that write's effect; OK exactly when the write succeeded. The status is always a declared code and the trace stays serialized. |
| Nvm.Nvm.Read | src/nvm.c:205-259 | the same three cases. A served read fills the first `size` bytes of the caller's buffer with the flash at `start_addr + addr` when the driver read succeeds and leaves the buffer as it was otherwise. Flash never changes. |
| Nvm.Nvm.Erase | src/nvm.c:274-328 | the same three cases. A served erase makes one driver erase at `start_addr + addr` for `size` bytes, and flash is its effect. |
| Nvm.DirectWriteThenRead | src/nvm.c:135-259 | a dispatcher write followed by a read of the same range, both returning OK, gives back the bytes written, since both reach the region's driver at `start_addr + addr` |
| NvmEe.RamSpaceIsEmulatedSize | src/nvm_ee.c:153-161 | the mirror size is the total size of the emulated regions; regions without emulation take no room |
| NvmEe.SliceStartMonotone | src/nvm_ee.c:84-85 | slice offsets never decrease along the table |
| NvmEe.SliceWithinRam | src/nvm_ee.c:79-85 | every emulated region's slice lies inside the mirror |
| NvmEe.SlicesDisjoint | src/nvm_ee.c:73-87 | the slices of two different emulated regions do not overlap |
| NvmEe.LoadNext | src/nvm_ee.c:103-113 | one emulated region: one whole-range read is added to the calls, and when it succeeds it fills that region's slice |
| NvmEe.LoadAllOk | src/nvm_ee.c:94-117 | when every read succeeds, the loaded part of the mirror is the image of the emulated regions' flash and the rest is untouched |
| NvmEe.LoadRamSlice | src/nvm_ee.c:103-113 | after the load, an emulated region's slice holds its flash when its read succeeded, and its old contents when the read failed |
| NvmEe.LoadRamUntil | src/nvm_ee.c:100-114 | the reads for the first k regions never touch the mirror beyond those regions' slices |
| NvmEe.ErasedRegionReloadsErased | src/nvm_ee.c:250-257 | when an emulated region's whole flash range was erased and its reload read succeeds, its slice of the mirror holds only erased bytes (`0xFF`) |
| NvmEe.FlushNext | src/nvm_ee.c:76-86 | one emulated region: one whole-range write of exactly its slice is added to the calls |
| NvmEe.FlushedSlice | src/nvm_ee.c:73-87 | after a flush with no failed write, each emulated region's flash holds its slice, provided emulated regions do not overlap in flash |
| NvmEe.FlushedImagePrefix | src/nvm_ee.c:73-87 | after such a flush, the flash image of the first k regions is the first part of the mirror |
| NvmEe.FlushedImage | src/nvm_ee.c:67-90 | after such a flush, the flash image of all emulated regions is the mirror |
| NvmEe.MirrorRoundTrip | src/nvm_ee.c:67-117 | flushing the mirror and loading it again, with no failed call, gives back the mirror |
| NvmEe.SumRamSpace | src/nvm_ee.c:153-161 | `ram_space` is the emulated regions' total size modulo 2^32, and equal to the mirror size when that is below 2^32 |
| NvmEe.NvmEe.constructor | src/nvm_ee.c:41-52 | the module starts uninitialised with no table and no mirror |
| NvmEe.NvmEe.CopyFlashToRam | src/nvm_ee.c:94-117 | makes exactly the `LoadCalls` reads; the mirror becomes `LoadRam`; flash is untouched; ERROR exactly when a read failed |
| NvmEe.NvmEe.CopyRamToFlash | src/nvm_ee.c:67-90 | makes exactly the `FlushCalls` writes of the mirror's slices; flash is their effect; the mirror is not modified; ERROR exactly when a write failed |
| NvmEe.NvmEe.Init | src/nvm_ee.c:141-184 | A second init returns OK and changes nothing. A first init takes the table and makes one `malloc` of the mirror size. When that succeeds, it loads the mirror. It becomes initialised exactly when the allocation and every read succeeded, and the mirror then holds the flash image. |
| NvmEe.NvmEe.Write | src/nvm_ee.c:187-216 | Not initialised: ERROR and nothing changes. Initialised: the data is copied into the mirror at `addr - start_addr`, one erase of `size` bytes is made at the region's start, then the whole mirror is flushed. The status is ERROR exactly when the erase or a flush write failed. When every flush write succeeds and emulated regions do not overlap, flash holds the mirror. |
| NvmEe.NvmEe.Read | src/nvm_ee.c:219-239 | Not initialised: ERROR, buffer unchanged. Initialised: OK and the buffer's first `size` bytes are the mirror's bytes at `addr - start_addr`; no driver is called. |
| NvmEe.NvmEe.Erase | src/nvm_ee.c:242-265 | Not initialised: ERROR and nothing changes. Initialised: one erase at the raw `addr`, then the whole mirror is reloaded. The status is the reload's alone. When every reload read succeeds the mirror is the flash image. |
| NvmEe.WriteAtRegionStart | src/nvm_ee.c:196-199 | an emulation write at an emulated region's own start address puts the bytes at the front of the mirror, and when they end before that region's slice, the slice keeps its old contents |
| NvmEe.WriteThenRead | src/nvm_ee.c:187-239 | an emulation write followed by a read of the same range returns OK and the bytes written, whatever the flash calls returned |

## Left out

- Drivers, `nvm_if_init`, the mutex and `malloc`: `Platform` simulates them. Their statuses come from an oracle, and their effects are stated as programming, erasing to `0xFF` and reading bytes. A failed driver call changes nothing.
- `nvm_cfg_get_regions`, `nvm_cfg_get_drivers` and `eNVM_MEM_DRV_NUM_OF`: the tables and the driver count are parameters of the init methods. `gp_nvm_drivers` is assigned but never read, so it is not modelled.
- `NVM_ASSERT` and `NVM_DBG_PRINT`: debug traps and prints change nothing the model tracks, so they are left out.
- Build switches: the model is the build with `NVM_CFG_MUTEX_EN == 1`. `nvm_get_status_str` is always present, not only when `NVM_CFG_DEBUG_EN` is set.
- Concurrency: the module is modelled single-threaded. The mutex is a trace discipline (`Serialized`), not a lock shared between threads.
- Nvm.Nvm.Init: requires `drvCount <= |cfg|`, because C reads the region table with the driver counter and would read past its end. It also requires `drvCount <= 255`, because the `uint8_t` loop counter never reaches a larger count and the loop would not end.
- Nvm.Nvm.InitDrivers: the driver loop of `nvm_init` is a separate method; C has it inline.
- Nvm.GetStatusStr: requires a status whose bit 0 is set or whose bits 0-7 are clear. For any other status C reads past the end of the two-entry name table.
- NvmEe.NvmEe.Init: requires the emulated sizes to total less than 2^32. A wrapping `ram_space` would allocate a mirror smaller than the slices the copy loops write. `SumRamSpace` models the wrap itself.
- NvmEe.NvmEe.Write and NvmEe.NvmEe.Read: require the region id to be valid and the `memcpy` to stay inside the mirror (and, for a read, not to overlap the caller's buffer). C does not check these, and a violation is undefined behaviour.
- NvmEe.NvmEe.Erase: requires a valid region id, because C indexes the table with it unchecked.
- Mirror contents after `malloc`: C leaves them indeterminate. The model starts from whatever array `Malloc` returns.
- `FlashApart`: the round-trip lemmas assume that emulated regions on one device do not overlap. The library assumes this of its configuration but never checks it.
