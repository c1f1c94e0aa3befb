/** The EEPROM emulation of `nvm_ee.c`: every region whose driver has emulation
    enabled is mirrored, whole, in one heap buffer. The slices of the buffer follow
    the region table order, each as long as its region. Reads come from RAM; writes
    go to RAM and are then flushed to flash, all regions at once. */
module NvmEe {
  import opened NvmTypes
  import opened Platform

  // ---------------------------------------------------------------------------
  // Layout of the RAM mirror
  // ---------------------------------------------------------------------------

  /** Whether `r`'s driver asks for EEPROM emulation (`p_driver->ee.en`). */
  predicate Emulated(r: Region) {
    r.driver.eeEnabled
  }

  /** Offset of region k's slice in the mirror: the total size of the emulated
      regions before it. This is the running `ram_offset` of both copy loops. */
  function SliceStart(regions: seq<Region>, k: nat): nat
    requires k <= |regions|
  {
    if k == 0 then 0
    else SliceStart(regions, k - 1) + if Emulated(regions[k - 1]) then regions[k - 1].size as nat else 0
  }

  /** `ram_space`: the size of the mirror. */
  function RamSpace(regions: seq<Region>): nat {
    SliceStart(regions, |regions|)
  }

  /** The emulated regions, in table order. */
  function EmulatedRegions(regions: seq<Region>): seq<Region> {
    if regions == [] then []
    else
      var prev := EmulatedRegions(regions[..|regions| - 1]);
      if Emulated(regions[|regions| - 1]) then prev + [regions[|regions| - 1]] else prev
  }

  /** Total size of a list of regions. */
  function TotalSize(rs: seq<Region>): nat {
    if rs == [] then 0 else TotalSize(rs[..|rs| - 1]) + rs[|rs| - 1].size as nat
  }

  lemma TotalSizeSnoc(rs: seq<Region>, r: Region)
    ensures TotalSize(rs + [r]) == TotalSize(rs) + r.size as nat
  {
    assert (rs + [r])[..|rs|] == rs;
  }

  /** The mirror is exactly as large as the emulated regions together, and a region
      without emulation takes no room in it. */
  lemma {:induction false} RamSpaceIsEmulatedSize(regions: seq<Region>)
    ensures RamSpace(regions) == TotalSize(EmulatedRegions(regions))
  {
    if regions != [] {
      var init := regions[..|regions| - 1];
      var last := regions[|regions| - 1];
      RamSpaceIsEmulatedSize(init);
      SliceStartPrefix(regions, init, |init|);
      if Emulated(last) {
        TotalSizeSnoc(EmulatedRegions(init), last);
      }
    }
  }

  /** Slice offsets depend only on the regions before them. */
  lemma {:induction false} SliceStartPrefix(regions: seq<Region>, prefix: seq<Region>, k: nat)
    requires k <= |prefix| <= |regions| && prefix == regions[..|prefix|]
    ensures SliceStart(regions, k) == SliceStart(prefix, k)
  {
    if k > 0 {
      SliceStartPrefix(regions, prefix, k - 1);
      assert regions[k - 1] == prefix[k - 1];
    }
  }

  /** Slice offsets never decrease along the table. */
  lemma {:induction false} SliceStartMonotone(regions: seq<Region>, j: nat, k: nat)
    requires j <= k <= |regions|
    ensures SliceStart(regions, j) <= SliceStart(regions, k)
    decreases k
  {
    if j < k {
      SliceStartMonotone(regions, j, k - 1);
    }
  }

  /** Every emulated region's slice lies inside the mirror. */
  lemma SliceWithinRam(regions: seq<Region>, k: nat)
    requires k < |regions| && Emulated(regions[k])
    ensures SliceStart(regions, k) + regions[k].size as nat <= RamSpace(regions)
  {
    SliceStartMonotone(regions, k + 1, |regions|);
  }

  /** The slices of two different emulated regions do not overlap. */
  lemma SlicesDisjoint(regions: seq<Region>, i: nat, j: nat)
    requires i < j < |regions| && Emulated(regions[i])
    ensures SliceStart(regions, i) + regions[i].size as nat <= SliceStart(regions, j)
  {
    SliceStartMonotone(regions, i + 1, j);
  }

  /** The flash contents the mirror of regions 0 .. k-1 should hold: each emulated
      region's whole range, in table order. */
  function Image(regions: seq<Region>, f: Flash, k: nat): (img: seq<bv8>)
    requires k <= |regions|
    ensures |img| == SliceStart(regions, k)
  {
    if k == 0 then []
    else
      var prev := Image(regions, f, k - 1);
      var r := regions[k - 1];
      if Emulated(r) then prev + Bytes(f, r.driver.device, r.startAddr as nat, r.size as nat) else prev
  }

  /** Two different emulated regions on the same device do not share an address. */
  predicate FlashApart(regions: seq<Region>) {
    forall i, j :: (0 <= i < j < |regions| && Emulated(regions[i]) && Emulated(regions[j]) &&
                    regions[i].driver.device == regions[j].driver.device) ==>
        regions[i].startAddr as nat + regions[i].size as nat <= regions[j].startAddr as nat ||
        regions[j].startAddr as nat + regions[j].size as nat <= regions[i].startAddr as nat
  }

  // ---------------------------------------------------------------------------
  // nvm_ee_copy_flash_to_ram
  // ---------------------------------------------------------------------------

  /** The reads `nvm_ee_copy_flash_to_ram` makes for regions 0 .. k-1, the first at
      tick `t0`: one read of the whole range of each emulated region. */
  function LoadCalls(regions: seq<Region>, verdict: nat -> Status, t0: nat, k: nat): seq<Event>
    requires k <= |regions|
  {
    if k == 0 then []
    else
      var prev := LoadCalls(regions, verdict, t0, k - 1);
      var r := regions[k - 1];
      if Emulated(r) then prev + [ReadCall(r.driver.device, r.startAddr, r.size, verdict(t0 + |prev|))] else prev
  }

  /** The mirror after those reads, from contents `ram0`: a read that succeeds fills
      its region's slice, a read that fails leaves it as it was. */
  function LoadRam(regions: seq<Region>, f: Flash, verdict: nat -> Status, t0: nat, ram0: seq<bv8>, k: nat): (ram: seq<bv8>)
    requires k <= |regions| && SliceStart(regions, k) <= |ram0|
    ensures |ram| == |ram0|
  {
    if k == 0 then ram0
    else
      SliceStartMonotone(regions, k - 1, k);
      var prev := LoadRam(regions, f, verdict, t0, ram0, k - 1);
      var r := regions[k - 1];
      if Emulated(r) && verdict(t0 + |LoadCalls(regions, verdict, t0, k - 1)|) == OK
      then Splice(prev, SliceStart(regions, k - 1), Bytes(f, r.driver.device, r.startAddr as nat, r.size as nat))
      else prev
  }

  /** One more region of `nvm_ee_copy_flash_to_ram`: the read of an emulated region
      extends the calls by one and, when it succeeds, fills that region's slice. */
  lemma LoadNext(regions: seq<Region>, f: Flash, verdict: nat -> Status, t0: nat, ram0: seq<bv8>, k: nat,
                 before: seq<bv8>, after: seq<bv8>, s: Status)
    requires k < |regions| && SliceStart(regions, k + 1) <= |ram0|
    requires before == LoadRam(regions, f, verdict, t0, ram0, k)
    requires Emulated(regions[k]) && s == verdict(t0 + |LoadCalls(regions, verdict, t0, k)|)
    requires after == if s == OK
                      then Splice(before, SliceStart(regions, k),
                                  Bytes(f, regions[k].driver.device, regions[k].startAddr as nat, regions[k].size as nat))
                      else before
    ensures after == LoadRam(regions, f, verdict, t0, ram0, k + 1)
    ensures LoadCalls(regions, verdict, t0, k + 1) ==
            LoadCalls(regions, verdict, t0, k) + [ReadCall(regions[k].driver.device, regions[k].startAddr, regions[k].size, s)]
  {
  }

  /** The prefix of a sequence of calls that all succeeded succeeded too. */
  lemma AllSucceededPrefix(evs: seq<Event>, e: Event)
    requires AllSucceeded(evs + [e])
    ensures AllSucceeded(evs) && Result(e) == OK
  {
    assert forall i :: 0 <= i < |evs| ==> (evs + [e])[i] == evs[i];
    assert (evs + [e])[|evs|] == e;
  }

  /** Copying `b` over the start of the part after `head`. */
  lemma SpliceAfter(head: seq<bv8>, rest: seq<bv8>, b: seq<bv8>, tail: seq<bv8>)
    requires |b| <= |rest| && tail == rest[|b|..]
    ensures Splice(head + rest, |head|, b) == (head + b) + tail
  {
    assert (head + rest)[..|head|] == head;
    assert (head + rest)[|head| + |b|..] == tail;
  }

  /** One successful read of an emulated region extends the loaded image by that
      region's flash. */
  lemma LoadOkStep(regions: seq<Region>, f: Flash, verdict: nat -> Status, t0: nat, ram0: seq<bv8>, k: nat)
    requires 0 < k <= |regions| && SliceStart(regions, k) <= |ram0|
    requires Emulated(regions[k - 1]) && verdict(t0 + |LoadCalls(regions, verdict, t0, k - 1)|) == OK
    requires LoadRam(regions, f, verdict, t0, ram0, k - 1) == Image(regions, f, k - 1) + ram0[SliceStart(regions, k - 1)..]
    ensures LoadRam(regions, f, verdict, t0, ram0, k) == Image(regions, f, k) + ram0[SliceStart(regions, k)..]
  {
    var r := regions[k - 1];
    var lo := SliceStart(regions, k - 1);
    var b := Bytes(f, r.driver.device, r.startAddr as nat, r.size as nat);
    var img := Image(regions, f, k - 1);
    var prev := LoadRam(regions, f, verdict, t0, ram0, k - 1);
    var cur := LoadRam(regions, f, verdict, t0, ram0, k);
    assert cur == Splice(prev, lo, b);
    SpliceAfter(img, ram0[lo..], b, ram0[SliceStart(regions, k)..]);
    assert cur == (img + b) + ram0[SliceStart(regions, k)..];
  }

  /** When every read succeeds, the loaded part of the mirror is the image of the
      emulated regions' flash and the rest is untouched. */
  lemma {:induction false} LoadAllOk(regions: seq<Region>, f: Flash, verdict: nat -> Status, t0: nat, ram0: seq<bv8>, k: nat)
    requires k <= |regions| && SliceStart(regions, k) <= |ram0|
    requires AllSucceeded(LoadCalls(regions, verdict, t0, k))
    ensures LoadRam(regions, f, verdict, t0, ram0, k) == Image(regions, f, k) + ram0[SliceStart(regions, k)..]
  {
    if k > 0 {
      SliceStartMonotone(regions, k - 1, k);
      var prev := LoadCalls(regions, verdict, t0, k - 1);
      var r := regions[k - 1];
      if Emulated(r) {
        AllSucceededPrefix(prev, ReadCall(r.driver.device, r.startAddr, r.size, verdict(t0 + |prev|)));
        LoadAllOk(regions, f, verdict, t0, ram0, k - 1);
        LoadOkStep(regions, f, verdict, t0, ram0, k);
      } else {
        LoadAllOk(regions, f, verdict, t0, ram0, k - 1);
      }
    }
  }

  /** A region without emulation, or an emulated one whose read failed, leaves its
      slice of the mirror as it was; a successful read puts the region's flash in it. */
  lemma {:induction false} LoadRamSlice(regions: seq<Region>, f: Flash, verdict: nat -> Status, t0: nat, ram0: seq<bv8>, k: nat, i: nat)
    requires k <= |regions| && SliceStart(regions, k) <= |ram0|
    requires i < k && Emulated(regions[i])
    ensures var lo := SliceStart(regions, i);
            var r := regions[i];
            lo + r.size as nat <= |ram0| &&
            LoadRam(regions, f, verdict, t0, ram0, k)[lo..lo + r.size as nat] ==
              if verdict(t0 + |LoadCalls(regions, verdict, t0, i)|) == OK
              then Bytes(f, r.driver.device, r.startAddr as nat, r.size as nat)
              else ram0[lo..lo + r.size as nat]
  {
    SliceStartMonotone(regions, i + 1, k);
    SliceStartMonotone(regions, k - 1, k);
    var lo := SliceStart(regions, i);
    var hi := lo + regions[i].size as nat;
    var r := regions[k - 1];
    var prev := LoadRam(regions, f, verdict, t0, ram0, k - 1);
    var cond := Emulated(r) && verdict(t0 + |LoadCalls(regions, verdict, t0, k - 1)|) == OK;
    var b := Bytes(f, r.driver.device, r.startAddr as nat, r.size as nat);
    var cur := LoadRam(regions, f, verdict, t0, ram0, k);
    assert cur == if cond then Splice(prev, SliceStart(regions, k - 1), b) else prev;
    if cond {
      assert SliceStart(regions, k) == SliceStart(regions, k - 1) + |b|;
    }
    if i == k - 1 {
      LoadRamUntil(regions, f, verdict, t0, ram0, k - 1, lo, hi);
      if cond {
        SpliceContents(prev, lo, b);
      }
    } else {
      LoadRamSlice(regions, f, verdict, t0, ram0, k - 1, i);
      SlicesDisjoint(regions, i, k - 1);
      if cond {
        SpliceElsewhere(prev, SliceStart(regions, k - 1), b, lo, hi);
      }
      assert cur[lo..hi] == prev[lo..hi];
    }
  }

  /** Reads for regions 0 .. k-1 do not touch the mirror from `SliceStart(k)` on. */
  lemma {:induction false} LoadRamUntil(regions: seq<Region>, f: Flash, verdict: nat -> Status, t0: nat, ram0: seq<bv8>, k: nat, lo: nat, hi: nat)
    requires k <= |regions| && SliceStart(regions, k) <= lo <= hi <= |ram0|
    ensures LoadRam(regions, f, verdict, t0, ram0, k)[lo..hi] == ram0[lo..hi]
  {
    if k > 0 {
      SliceStartMonotone(regions, k - 1, k);
      LoadRamUntil(regions, f, verdict, t0, ram0, k - 1, lo, hi);
      var r := regions[k - 1];
      var prev := LoadRam(regions, f, verdict, t0, ram0, k - 1);
      if Emulated(r) && verdict(t0 + |LoadCalls(regions, verdict, t0, k - 1)|) == OK {
        SpliceElsewhere(prev, SliceStart(regions, k - 1), Bytes(f, r.driver.device, r.startAddr as nat, r.size as nat), lo, hi);
      }
    }
  }

  /** An emulated region whose whole flash range was erased, reloaded by a read that
      succeeds, holds erased bytes in its slice of the mirror. */
  lemma ErasedRegionReloadsErased(regions: seq<Region>, f: Flash, verdict: nat -> Status, t0: nat, ram0: seq<bv8>, i: nat)
    requires RamSpace(regions) <= |ram0|
    requires i < |regions| && Emulated(regions[i])
    requires verdict(t0 + |LoadCalls(regions, verdict, t0, i)|) == OK
    ensures var r := regions[i];
            var lo := SliceStart(regions, i);
            var ram := LoadRam(regions, Wipe(f, r.driver.device, r.startAddr as nat, r.size as nat), verdict, t0, ram0, |regions|);
            lo + r.size as nat <= |ram| &&
            forall b :: lo <= b < lo + r.size as nat ==> ram[b] == ERASED
  {
    var r := regions[i];
    var f' := Wipe(f, r.driver.device, r.startAddr as nat, r.size as nat);
    LoadRamSlice(regions, f', verdict, t0, ram0, |regions|, i);
    WipeReadBack(f, r.driver.device, r.startAddr as nat, r.size as nat);
    var lo := SliceStart(regions, i);
    var ram := LoadRam(regions, f', verdict, t0, ram0, |regions|);
    forall b | lo <= b < lo + r.size as nat
      ensures ram[b] == ERASED
    {
      assert ram[b] == ram[lo..lo + r.size as nat][b - lo];
    }
  }

  // ---------------------------------------------------------------------------
  // nvm_ee_copy_ram_to_flash
  // ---------------------------------------------------------------------------

  /** The writes `nvm_ee_copy_ram_to_flash` makes for regions 0 .. k-1 from mirror
      `ram`, the first at tick `t0`: each emulated region's whole range is written
      with its slice. */
  function FlushCalls(regions: seq<Region>, ram: seq<bv8>, verdict: nat -> Status, t0: nat, k: nat): seq<Event>
    requires k <= |regions| && SliceStart(regions, k) <= |ram|
  {
    if k == 0 then []
    else
      SliceStartMonotone(regions, k - 1, k);
      var prev := FlushCalls(regions, ram, verdict, t0, k - 1);
      var r := regions[k - 1];
      if Emulated(r)
      then prev + [WriteCall(r.driver.device, r.startAddr, r.size,
                             ram[SliceStart(regions, k - 1)..SliceStart(regions, k)], verdict(t0 + |prev|))]
      else prev
  }

  /** One more region of `nvm_ee_copy_ram_to_flash`: an emulated region adds the
      write of its slice. */
  lemma FlushNext(regions: seq<Region>, ram: seq<bv8>, verdict: nat -> Status, t0: nat, k: nat, s: Status)
    requires k < |regions| && SliceStart(regions, k + 1) <= |ram| && Emulated(regions[k])
    requires s == verdict(t0 + |FlushCalls(regions, ram, verdict, t0, k)|)
    ensures SliceStart(regions, k) <= SliceStart(regions, k + 1)
    ensures FlushCalls(regions, ram, verdict, t0, k + 1) ==
            FlushCalls(regions, ram, verdict, t0, k) +
            [WriteCall(regions[k].driver.device, regions[k].startAddr, regions[k].size,
                       ram[SliceStart(regions, k)..SliceStart(regions, k + 1)], s)]
  {
  }

  /** After flushing regions 0 .. k-1 without a failure, every one of them that is
      emulated holds its slice of the mirror, provided emulated regions do not overlap. */
  lemma {:induction false} FlushedSlice(regions: seq<Region>, ram: seq<bv8>, verdict: nat -> Status, t0: nat, f: Flash, k: nat, i: nat)
    requires k <= |regions| && SliceStart(regions, k) <= |ram|
    requires FlashApart(regions)
    requires AllSucceeded(FlushCalls(regions, ram, verdict, t0, k))
    requires i < k && Emulated(regions[i])
    ensures var r := regions[i];
            SliceStart(regions, i) <= SliceStart(regions, i + 1) <= |ram| &&
            Bytes(ApplyAll(f, FlushCalls(regions, ram, verdict, t0, k)), r.driver.device, r.startAddr as nat, r.size as nat) ==
              ram[SliceStart(regions, i)..SliceStart(regions, i + 1)]
  {
    SliceStartMonotone(regions, k - 1, k);
    SliceStartMonotone(regions, i + 1, k);
    var prev := FlushCalls(regions, ram, verdict, t0, k - 1);
    var r := regions[k - 1];
    var ri := regions[i];
    if Emulated(r) {
      var data := ram[SliceStart(regions, k - 1)..SliceStart(regions, k)];
      var call := WriteCall(r.driver.device, r.startAddr, r.size, data, verdict(t0 + |prev|));
      AllSucceededPrefix(prev, call);
      ApplyAllSnoc(f, prev, call);
      if i == k - 1 {
        ProgramReadBack(ApplyAll(f, prev), r.driver.device, r.startAddr as nat, data);
      } else {
        FlushedSlice(regions, ram, verdict, t0, f, k - 1, i);
        ProgramElsewhere(ApplyAll(f, prev), r.driver.device, r.startAddr as nat, data,
                         ri.driver.device, ri.startAddr as nat, ri.size as nat);
      }
    } else {
      FlushedSlice(regions, ram, verdict, t0, f, k - 1, i);
    }
  }

  /** Flash image after a flush that did not fail, read back for the first k regions. */
  lemma {:induction false} FlushedImagePrefix(regions: seq<Region>, ram: seq<bv8>, verdict: nat -> Status, t0: nat, f: Flash, k: nat)
    requires k <= |regions| && RamSpace(regions) <= |ram|
    requires FlashApart(regions)
    requires AllSucceeded(FlushCalls(regions, ram, verdict, t0, |regions|))
    ensures SliceStart(regions, k) <= |ram|
    ensures Image(regions, ApplyAll(f, FlushCalls(regions, ram, verdict, t0, |regions|)), k) == ram[..SliceStart(regions, k)]
  {
    SliceStartMonotone(regions, k, |regions|);
    if k > 0 {
      SliceStartMonotone(regions, k - 1, k);
      FlushedImagePrefix(regions, ram, verdict, t0, f, k - 1);
      if Emulated(regions[k - 1]) {
        FlushedSlice(regions, ram, verdict, t0, f, |regions|, k - 1);
        assert ram[..SliceStart(regions, k)] ==
               ram[..SliceStart(regions, k - 1)] + ram[SliceStart(regions, k - 1)..SliceStart(regions, k)];
      }
    }
  }

  /** After a successful flush of a mirror of the right size, flash holds exactly
      what the mirror holds, when emulated regions do not overlap. */
  lemma FlushedImage(regions: seq<Region>, ram: seq<bv8>, verdict: nat -> Status, t0: nat, f: Flash)
    requires |ram| == RamSpace(regions)
    requires FlashApart(regions)
    requires AllSucceeded(FlushCalls(regions, ram, verdict, t0, |regions|))
    ensures Image(regions, ApplyAll(f, FlushCalls(regions, ram, verdict, t0, |regions|)), |regions|) == ram
  {
    FlushedImagePrefix(regions, ram, verdict, t0, f, |regions|);
  }

  /** Flushing the mirror to flash and loading it back, with no failed call, gives
      back the mirror: the RAM/flash round trip of the emulation. */
  lemma MirrorRoundTrip(regions: seq<Region>, ram: seq<bv8>, verdict: nat -> Status, t0: nat, t1: nat, f: Flash, ram0: seq<bv8>)
    requires |ram| == RamSpace(regions) && |ram0| == RamSpace(regions)
    requires FlashApart(regions)
    requires AllSucceeded(FlushCalls(regions, ram, verdict, t0, |regions|))
    requires AllSucceeded(LoadCalls(regions, verdict, t1, |regions|))
    ensures LoadRam(regions, ApplyAll(f, FlushCalls(regions, ram, verdict, t0, |regions|)), verdict, t1, ram0, |regions|) == ram
  {
    var f' := ApplyAll(f, FlushCalls(regions, ram, verdict, t0, |regions|));
    FlushedImage(regions, ram, verdict, t0, f);
    LoadAllOk(regions, f', verdict, t1, ram0, |regions|);
    assert ram0[RamSpace(regions)..] == [];
  }

  // ---------------------------------------------------------------------------
  // The emulation state
  // ---------------------------------------------------------------------------

  /** The counting loop of `nvm_ee_init`: `ram_space` accumulates, in `uint32_t`, the
      sizes of the regions whose driver has emulation enabled, so it is their total
      modulo 2^32. */
  method SumRamSpace(cfg: seq<Region>) returns (ramSpace: U32)
    ensures ramSpace as nat == TotalSize(EmulatedRegions(cfg)) % TWO_32
    ensures RamSpace(cfg) < TWO_32 ==> ramSpace as nat == RamSpace(cfg)
  {
    ramSpace := 0;
    var region := 0;
    while region < |cfg|
      invariant region <= |cfg|
      invariant ramSpace as nat == SliceStart(cfg, region) % TWO_32
    {
      if cfg[region].driver.eeEnabled {
        ramSpace := Add32(ramSpace, cfg[region].size);
      }
      region := region + 1;
    }
    RamSpaceIsEmulatedSize(cfg);
  }

  /** The calls of a first `nvm_ee_init`, starting at tick `t0`: the allocation of
      `ram_space` bytes, then, when it succeeds, the load of every emulated region. */
  function EeInitCalls(cfg: seq<Region>, verdict: nat -> Status, t0: nat): seq<Event>
  {
    if verdict(t0) == OK then [MallocCall(RamSpace(cfg), OK)] + LoadCalls(cfg, verdict, t0 + 1, |cfg|)
    else [MallocCall(RamSpace(cfg), verdict(t0))]
  }

  /** The module state of `nvm_ee.c`: `gb_is_init`, `gp_nvm_regions` and `gp_ram_mem`. */
  class NvmEe {
    var isInit: bool
    var regions: seq<Region>
    var ram: array?<bv8>

    /** Once initialised, the mirror exists and is exactly `ram_space` bytes long. */
    predicate Valid()
      reads this
    {
      isInit ==> ram != null && ram.Length == RamSpace(regions) && RamSpace(regions) < TWO_32
    }

    constructor ()
      ensures Valid() && !isInit && regions == [] && ram == null
    {
      isInit := false;
      regions := [];
      ram := null;
    }

    /** `nvm_ee_copy_flash_to_ram`: every emulated region's whole flash range is read
        into its slice of the mirror, in table order. A failed read does not stop the
        loop; the result is ERROR when any read failed. */
    method CopyFlashToRam(p: Platform) returns (status: Status)
      requires ram != null && RamSpace(regions) <= ram.Length && RamSpace(regions) < TWO_32
      modifies p, ram
      ensures p.flash == old(p.flash)
      ensures p.trace == old(p.trace) + LoadCalls(regions, p.verdict, old(p.tick), |regions|)
      ensures p.tick == old(p.tick) + |LoadCalls(regions, p.verdict, old(p.tick), |regions|)|
      ensures ram[..] == LoadRam(regions, p.flash, p.verdict, old(p.tick), old(ram[..]), |regions|)
      ensures status == Outcome(LoadCalls(regions, p.verdict, old(p.tick), |regions|))
    {
      status := OK;
      var offset: U32 := 0;
      var region := 0;
      ghost var calls: seq<Event> := [];
      ghost var f, t0, ram0 := p.flash, p.tick, ram[..];
      while region < |regions|
        invariant region <= |regions|
        invariant offset as nat == SliceStart(regions, region) <= RamSpace(regions)
        invariant calls == LoadCalls(regions, p.verdict, t0, region)
        invariant p.trace == old(p.trace) + calls && p.tick == t0 + |calls|
        invariant p.flash == f
        invariant ram[..] == LoadRam(regions, f, p.verdict, t0, ram0, region)
        invariant status == Outcome(calls)
      {
        SliceStartMonotone(regions, region + 1, |regions|);
        var r := regions[region];
        if r.driver.eeEnabled {
          SliceWithinRam(regions, region);
          ghost var before := ram[..];
          var s := p.DriverRead(r.driver.device, r.startAddr, r.size, ram, offset as nat);
          LoadNext(regions, f, p.verdict, t0, ram0, region, before, ram[..], s);
          if s != OK {
            status := ERROR;
          }
          OutcomeSnoc(calls, ReadCall(r.driver.device, r.startAddr, r.size, s));
          calls := calls + [ReadCall(r.driver.device, r.startAddr, r.size, s)];
          assert offset as int + r.size as int < TWO_32;
          offset := Add32(offset, r.size);
        }
        region := region + 1;
      }
    }

    /** `nvm_ee_copy_ram_to_flash`: every emulated region's whole flash range is
        written with its slice of the mirror, in table order. A failed write does not
        stop the loop; the result is ERROR when any write failed. The mirror is only
        read. */
    method CopyRamToFlash(p: Platform) returns (status: Status)
      requires ram != null && RamSpace(regions) <= ram.Length && RamSpace(regions) < TWO_32
      modifies p
      ensures p.trace == old(p.trace) + FlushCalls(regions, ram[..], p.verdict, old(p.tick), |regions|)
      ensures p.tick == old(p.tick) + |FlushCalls(regions, ram[..], p.verdict, old(p.tick), |regions|)|
      ensures p.flash == ApplyAll(old(p.flash), FlushCalls(regions, ram[..], p.verdict, old(p.tick), |regions|))
      ensures status == Outcome(FlushCalls(regions, ram[..], p.verdict, old(p.tick), |regions|))
    {
      status := OK;
      var offset: U32 := 0;
      var region := 0;
      ghost var calls: seq<Event> := [];
      ghost var t0, mirror := p.tick, ram[..];
      while region < |regions|
        invariant region <= |regions|
        invariant offset as nat == SliceStart(regions, region) <= RamSpace(regions)
        invariant ram[..] == mirror
        invariant calls == FlushCalls(regions, mirror, p.verdict, t0, region)
        invariant p.trace == old(p.trace) + calls && p.tick == t0 + |calls|
        invariant p.flash == ApplyAll(old(p.flash), calls)
        invariant status == Outcome(calls)
      {
        SliceStartMonotone(regions, region + 1, |regions|);
        var r := regions[region];
        if r.driver.eeEnabled {
          SliceWithinRam(regions, region);
          var data := ram[offset..offset as int + r.size as int];
          assert data == mirror[SliceStart(regions, region)..SliceStart(regions, region + 1)];
          var s := p.DriverWrite(r.driver.device, r.startAddr, r.size, data);
          ghost var call := WriteCall(r.driver.device, r.startAddr, r.size, data, s);
          FlushNext(regions, mirror, p.verdict, t0, region, s);
          if s != OK {
            status := ERROR;
          }
          OutcomeSnoc(calls, call);
          ApplyAllSnoc(old(p.flash), calls, call);
          calls := calls + [call];
          assert offset as int + r.size as int < TWO_32;
          offset := Add32(offset, r.size);
        }
        region := region + 1;
      }
    }

    /** `nvm_ee_init`. The region table is the parameter `cfg`. An initialised module
        answers OK and does nothing; otherwise the table is taken, the mirror of
        `ram_space` bytes is allocated and loaded, and the module becomes initialised
        when allocation and every read succeed. `ram_space` is a `uint32_t` sum, so
        the mirror is only large enough when that sum does not wrap. */
    method Init(p: Platform, cfg: seq<Region>) returns (status: Status)
      requires Valid()
      requires !isInit ==> RamSpace(cfg) < TWO_32
      modifies this, p
      ensures Valid()
      ensures p.flash == old(p.flash)
      ensures old(isInit) ==> status == OK && isInit && regions == old(regions) && ram == old(ram) &&
                              p.trace == old(p.trace) && p.tick == old(p.tick)
      ensures !old(isInit) ==>
                var calls := EeInitCalls(cfg, p.verdict, old(p.tick));
                regions == cfg &&
                p.trace == old(p.trace) + calls && p.tick == old(p.tick) + |calls| &&
                status == Outcome(calls) &&
                (isInit <==> status == OK) &&
                (p.verdict(old(p.tick)) == OK ==> ram != null && fresh(ram) && ram.Length == RamSpace(cfg)) &&
                (p.verdict(old(p.tick)) != OK ==> ram == null)
      ensures !old(isInit) && isInit ==> ram[..] == Image(regions, p.flash, |regions|)
    {
      status := OK;
      if !isInit {
        regions := cfg;
        var ramSpace := SumRamSpace(cfg);
        ghost var t0, trace0 := p.tick, p.trace;
        ram := p.Malloc(ramSpace as nat);
        ghost var malloc := MallocCall(RamSpace(cfg), p.verdict(t0));
        if ram == null {
          status := ERROR;
          assert p.trace == trace0 + [malloc] == trace0 + EeInitCalls(cfg, p.verdict, t0);
          assert Outcome(EeInitCalls(cfg, p.verdict, t0)) == ERROR by {
            assert Result(EeInitCalls(cfg, p.verdict, t0)[0]) != OK;
          }
        } else {
          ghost var ram0 := ram[..];
          status := CopyFlashToRam(p);
          ghost var loads := LoadCalls(cfg, p.verdict, t0 + 1, |cfg|);
          assert p.trace == (trace0 + [malloc]) + loads;
          assert EeInitCalls(cfg, p.verdict, t0) == [malloc] + loads;
          OutcomeConcat([malloc], loads);
          if status == OK {
            LoadAllOk(cfg, p.flash, p.verdict, t0 + 1, ram0, |cfg|);
            assert ram0[RamSpace(cfg)..] == [];
            assert ram[..] == Image(cfg, p.flash, |cfg|);
          }
        }
        if status == OK {
          isInit := true;
        }
      }
    }

    /** `nvm_ee_write`: the caller's bytes are copied into the mirror at offset
        `addr - start_addr` (in `uint32_t`) of the region, flash is erased from the
        region's start for `size` bytes, and then the whole mirror is flushed. The
        result is ERROR when the erase or any flush write failed. */
    method Write(p: Platform, region: nat, addr: U32, size: U32, data: seq<bv8>) returns (status: Status)
      requires Valid()
      requires |data| == size as int
      requires isInit ==> region < |regions| &&
                          Sub32(addr, regions[region].startAddr) as int + size as int <= ram.Length
      modifies p, ram
      ensures IsStatusCode(status)
      ensures !isInit ==> status == ERROR && p.trace == old(p.trace) && p.tick == old(p.tick) &&
                          p.flash == old(p.flash) && (ram != null ==> ram[..] == old(ram[..]))
      ensures isInit ==>
                var r := regions[region];
                var erase := EraseCall(r.driver.device, r.startAddr, size, p.verdict(old(p.tick)));
                var flush := FlushCalls(regions, ram[..], p.verdict, old(p.tick) + 1, |regions|);
                ram[..] == Splice(old(ram[..]), Sub32(addr, r.startAddr) as nat, data) &&
                p.trace == old(p.trace) + [erase] + flush && p.tick == old(p.tick) + 1 + |flush| &&
                p.flash == ApplyAll(Apply(old(p.flash), erase), flush) &&
                status == Outcome([erase] + flush)
      ensures isInit && FlashApart(regions) &&
              AllSucceeded(FlushCalls(regions, ram[..], p.verdict, old(p.tick) + 1, |regions|)) ==>
                Image(regions, p.flash, |regions|) == ram[..]
    {
      status := OK;
      if isInit {
        var r := regions[region];
        var offset := Sub32(addr, r.startAddr);
        forall i | offset as int <= i < offset as int + size as int {
          ram[i] := data[i - offset as int];
        }
        SpliceFrom(old(ram[..]), offset as nat, data, ram[..]);
        ghost var mirror := ram[..];
        ghost var t0 := p.tick;
        var e := p.DriverErase(r.driver.device, r.startAddr, size);
        ghost var erase := EraseCall(r.driver.device, r.startAddr, size, e);
        if e != OK {
          status := ERROR;
        }
        assert [erase][0] == erase;
        assert status == Outcome([erase]);
        ghost var f1 := p.flash;
        var flushed := CopyRamToFlash(p);
        ghost var flush := FlushCalls(regions, mirror, p.verdict, t0 + 1, |regions|);
        assert ram[..] == mirror;
        assert flushed == Outcome(flush);
        assert p.trace == old(p.trace) + [erase] + flush;
        OutcomeConcat([erase], flush);
        status := status | flushed;
        if FlashApart(regions) && AllSucceeded(flush) {
          FlushedImage(regions, mirror, p.verdict, t0 + 1, f1);
        }
      } else {
        status := ERROR;
      }
    }

    /** `nvm_ee_read`: `size` bytes of the mirror from offset `addr - start_addr` (in
        `uint32_t`) are copied to the caller's buffer; no driver is called. */
    method Read(region: nat, addr: U32, size: U32, out: array<bv8>) returns (status: Status)
      requires Valid()
      requires isInit ==> region < |regions| && out != ram && size as int <= out.Length &&
                          Sub32(addr, regions[region].startAddr) as int + size as int <= ram.Length
      modifies out
      ensures !isInit ==> status == ERROR && out[..] == old(out[..])
      ensures isInit ==>
                var offset := Sub32(addr, regions[region].startAddr) as int;
                status == OK &&
                out[..] == Splice(old(out[..]), 0, ram[offset..offset + size as int])
    {
      status := OK;
      if isInit {
        var offset := Sub32(addr, regions[region].startAddr);
        forall i | 0 <= i < size as int {
          out[i] := ram[offset as int + i];
        }
        SpliceFrom(old(out[..]), 0, ram[offset..offset as int + size as int], out[..]);
      } else {
        status := ERROR;
      }
    }

    /** `nvm_ee_erase`: flash is erased at the raw `addr` for `size` bytes, then the
        whole mirror is reloaded. The result is the reload's alone: a failed erase is
        not reported. */
    method Erase(p: Platform, region: nat, addr: U32, size: U32) returns (status: Status)
      requires Valid()
      requires isInit ==> region < |regions|
      modifies p, ram
      ensures IsStatusCode(status)
      ensures !isInit ==> status == ERROR && p.trace == old(p.trace) && p.tick == old(p.tick) &&
                          p.flash == old(p.flash) && (ram != null ==> ram[..] == old(ram[..]))
      ensures isInit ==>
                var erase := EraseCall(regions[region].driver.device, addr, size, p.verdict(old(p.tick)));
                var load := LoadCalls(regions, p.verdict, old(p.tick) + 1, |regions|);
                p.trace == old(p.trace) + [erase] + load && p.tick == old(p.tick) + 1 + |load| &&
                p.flash == Apply(old(p.flash), erase) &&
                ram[..] == LoadRam(regions, p.flash, p.verdict, old(p.tick) + 1, old(ram[..]), |regions|) &&
                status == Outcome(load)
      ensures isInit && AllSucceeded(LoadCalls(regions, p.verdict, old(p.tick) + 1, |regions|)) ==>
                ram[..] == Image(regions, p.flash, |regions|)
    {
      status := OK;
      if isInit {
        var e := p.DriverErase(regions[region].driver.device, addr, size);
        if e != OK {
          status := ERROR;
        }
        ghost var t1 := p.tick;
        ghost var ram0 := ram[..];
        status := CopyFlashToRam(p);
        if AllSucceeded(LoadCalls(regions, p.verdict, t1, |regions|)) {
          LoadAllOk(regions, p.flash, p.verdict, t1, ram0, |regions|);
        }
      } else {
        status := ERROR;
      }
    }
  }

  /** A caller's write followed by a read of the same range: the read returns the
      bytes just written, from the mirror, whatever the flash calls returned. */
  method WriteThenRead(ee: NvmEe, p: Platform, region: nat, addr: U32, data: seq<bv8>, out: array<bv8>)
      returns (ws: Status, rs: Status)
    requires ee.Valid() && ee.isInit && |data| < TWO_32
    requires region < |ee.regions| && out != ee.ram && |data| <= out.Length
    requires Sub32(addr, ee.regions[region].startAddr) as int + |data| <= ee.ram.Length
    modifies p, ee.ram, out
    ensures rs == OK && out[..|data|] == data
  {
    ws := ee.Write(p, region, addr, |data| as U32, data);
    rs := ee.Read(region, addr, |data| as U32, out);
    var offset := Sub32(addr, ee.regions[region].startAddr) as nat;
    SpliceContents(old(ee.ram[..]), offset, data);
    SpliceContents(old(out[..]), 0, ee.ram[offset..offset + |data|]);
  }

  /** A write at the very start of an emulated region: the offset `addr - start_addr`
      is 0, so the bytes land at the front of the mirror whatever the region's slice
      offset is, and when they end before that slice it keeps its old contents. */
  method WriteAtRegionStart(ee: NvmEe, p: Platform, region: nat, data: seq<bv8>) returns (ws: Status)
    requires ee.Valid() && ee.isInit && region < |ee.regions| && |data| < TWO_32 && |data| <= ee.ram.Length
    requires Emulated(ee.regions[region])
    modifies p, ee.ram
    ensures SliceStart(ee.regions, region) + ee.regions[region].size as nat <= ee.ram.Length
    ensures ee.ram[..|data|] == data
    ensures var lo := SliceStart(ee.regions, region);
            |data| <= lo ==>
              ee.ram[lo..lo + ee.regions[region].size as nat] == old(ee.ram[lo..lo + ee.regions[region].size as nat])
  {
    SliceWithinRam(ee.regions, region);
    ws := ee.Write(p, region, ee.regions[region].startAddr, |data| as U32, data);
    var lo := SliceStart(ee.regions, region);
    SpliceContents(old(ee.ram[..]), 0, data);
    if |data| <= lo {
      SpliceElsewhere(old(ee.ram[..]), 0, data, lo, lo + ee.regions[region].size as nat);
    }
  }
}
