/** The NVM dispatcher of `nvm.c`: module initialisation and the range-checked,
    mutex-guarded write, read and erase that call a region's driver directly at the
    absolute address `start_addr + addr`, plus the debug status decoder. */
module Nvm {
  import opened NvmTypes
  import opened Platform

  // ---------------------------------------------------------------------------
  // Argument check
  // ---------------------------------------------------------------------------

  /** The input check of `nvm_write`, `nvm_read` and `nvm_erase`, exactly as written,
      in uint32 arithmetic:
        region < eNVM_REGION_NUM_OF
        && (addr + start) < (start + region size)
        && (addr + start + size) < (addr + start + region size) */
  predicate Accepts(regions: seq<Region>, region: nat, addr: U32, size: U32)
  {
    region < |regions| &&
    var r := regions[region];
    Add32(addr, r.startAddr) < Add32(r.startAddr, r.size) &&
    Add32(Add32(addr, r.startAddr), size) < Add32(Add32(addr, r.startAddr), r.size)
  }

  /** Away from the 2^32 boundary the check accepts exactly when both `addr` and
      `size` are below the region size; it is not `addr + size <= region size`. */
  lemma AcceptsWithoutWrap(regions: seq<Region>, region: nat, addr: U32, size: U32)
    requires region < |regions|
    requires addr as int + regions[region].startAddr as int + size as int < TWO_32
    requires addr as int + regions[region].startAddr as int + regions[region].size as int < TWO_32
    ensures Accepts(regions, region, addr, size) <==>
            addr < regions[region].size && size < regions[region].size
  {
  }

  /** A request whose size equals the region size (a whole-region access) is always
      refused, whatever the addresses and however they wrap. */
  lemma FullRegionRejected(regions: seq<Region>, region: nat, addr: U32)
    requires region < |regions|
    ensures !Accepts(regions, region, addr, regions[region].size)
  {
  }

  /** A region id outside the table is always refused. */
  lemma UnknownRegionRejected(regions: seq<Region>, region: nat, addr: U32, size: U32)
    requires |regions| <= region
    ensures !Accepts(regions, region, addr, size)
  {
  }

  /** The check lets through a request that runs past the end of its region:
      10 bytes at offset 10 of a 16-byte region. */
  lemma OverrunAccepted(d: MemDriver)
    ensures var regions := [Region("R", 0, 16, d)];
            Accepts(regions, 0, 10, 10) && 10 + 10 > regions[0].size as int
  {
  }

  /** With wrap-around the check accepts an `addr` far outside the region whose
      absolute address `start_addr + addr` lies below the region's start. */
  lemma WrapAcceptsBelowRegion(d: MemDriver)
    ensures var regions := [Region("R", 100, 8, d)];
            Accepts(regions, 0, 0xFFFF_FF9C, 4) &&
            0xFFFF_FF9C >= regions[0].size && Add32(100, 0xFFFF_FF9C) < regions[0].startAddr
  {
  }

  // ---------------------------------------------------------------------------
  // Mutex discipline over the platform trace
  // ---------------------------------------------------------------------------

  /** Whether a driver data primitive (write, read, erase) was called. */
  predicate IsDataCall(e: Event) {
    e.WriteCall? || e.ReadCall? || e.EraseCall?
  }

  /** Mutex state after one call, from state `held`; None when the call breaks the
      discipline: taking a held mutex, releasing a free one, or calling a driver data
      primitive without holding it. */
  function LockStep(held: bool, e: Event): Option<bool>
  {
    if e.AcquireCall? then
      if e.res != OK then Some(held) else if held then None else Some(true)
    else if e.ReleaseCall? then
      if held then Some(false) else None
    else if IsDataCall(e) then
      if held then Some(held) else None
    else Some(held)
  }

  /** Mutex state after the calls of `evs`, from state `held`. */
  function LockAfter(held: bool, evs: seq<Event>): Option<bool>
    decreases |evs|
  {
    if evs == [] then Some(held)
    else match LockStep(held, evs[0])
      case None => None
      case Some(h) => LockAfter(h, evs[1..])
  }

  /** A trace in which no two critical sections overlap, every driver data call is
      made inside one, and the mutex is free at the end. */
  predicate Serialized(trace: seq<Event>) {
    LockAfter(false, trace) == Some(false)
  }

  /** Running two traces one after the other. */
  lemma {:induction false} LockAfterConcat(held: bool, a: seq<Event>, b: seq<Event>)
    ensures LockAfter(held, a + b) ==
            match LockAfter(held, a)
            case None => None
            case Some(h) => LockAfter(h, b)
    decreases |a|
  {
    if a == [] {
      assert a + b == b;
    } else {
      assert (a + b)[0] == a[0];
      assert (a + b)[1..] == a[1..] + b;
      match LockStep(held, a[0])
      case None =>
      case Some(h) => LockAfterConcat(h, a[1..], b);
    }
  }

  /** Appending a serialized trace to a serialized trace keeps it serialized. */
  lemma SerializedAppend(t: seq<Event>, u: seq<Event>)
    requires Serialized(t) && Serialized(u)
    ensures Serialized(t + u)
  {
    LockAfterConcat(false, t, u);
  }

  /** A data operation that has passed the init and argument checks and taken the
      mutex: acquire, the driver call, release. */
  lemma {:induction false} CriticalSectionSerialized(call: Event)
    requires IsDataCall(call)
    ensures Serialized([AcquireCall(OK), call, ReleaseCall])
  {
    var s := [AcquireCall(OK), call, ReleaseCall];
    assert s[1..] == [call, ReleaseCall] && s[1..][1..] == [ReleaseCall] && s[1..][1..][1..] == [];
    assert LockAfter(false, s) == LockAfter(true, [call, ReleaseCall]);
    assert LockAfter(true, [call, ReleaseCall]) == LockAfter(true, [ReleaseCall]);
    assert LockAfter(true, [ReleaseCall]) == LockAfter(false, []);
  }

  /** A failed acquire leaves the mutex free. */
  lemma FailedAcquireSerialized(acquired: Status)
    requires acquired != OK
    ensures Serialized([AcquireCall(acquired)])
  {
    assert LockAfter(false, [AcquireCall(acquired)]) == LockAfter(false, []);
  }

  /** Calls that involve neither the mutex nor a driver data primitive leave the
      mutex state as it was. */
  lemma {:induction false} NeutralCalls(held: bool, evs: seq<Event>)
    requires forall i :: 0 <= i < |evs| ==> evs[i].InitCall? || evs[i].IfInitCall?
    ensures LockAfter(held, evs) == Some(held)
  {
    if evs != [] {
      NeutralCalls(held, evs[1..]);
    }
  }

  // ---------------------------------------------------------------------------
  // nvm_init
  // ---------------------------------------------------------------------------

  /** The driver inits `nvm_init` makes for loop counters 0 .. k-1: the init of the
      driver of REGION number i, when that pointer is not NULL, in order. */
  function DriverInits(cfg: seq<Region>, verdict: nat -> Status, t0: nat, k: nat): seq<Event>
    requires k <= |cfg|
  {
    if k == 0 then []
    else
      var prev := DriverInits(cfg, verdict, t0, k - 1);
      var d := cfg[k - 1].driver;
      if d.hasInit then prev + [InitCall(d.device, verdict(t0 + |prev|))] else prev
  }

  /** `nvm_init`'s loop calls nothing but driver inits. */
  lemma {:induction false} DriverInitsOnly(cfg: seq<Region>, verdict: nat -> Status, t0: nat, k: nat)
    requires k <= |cfg|
    ensures forall i :: 0 <= i < |DriverInits(cfg, verdict, t0, k)| ==> DriverInits(cfg, verdict, t0, k)[i].InitCall?
  {
    if k > 0 {
      DriverInitsOnly(cfg, verdict, t0, k - 1);
    }
  }

  /** Every call `nvm_init` makes on a first initialisation: the driver inits, then
      `nvm_if_init`. */
  function InitCalls(cfg: seq<Region>, drvCount: nat, verdict: nat -> Status, t0: nat): seq<Event>
    requires drvCount <= |cfg|
  {
    var inits := DriverInits(cfg, verdict, t0, drvCount);
    inits + [IfInitCall(verdict(t0 + |inits|))]
  }

  /** Folding the status of `nvm_if_init` into the status of the driver inits. */
  lemma InitStatus(inits: seq<Event>, before: Status, s: Status)
    requires before == Aggregate(inits)
    ensures before | s == Aggregate(inits + [IfInitCall(s)])
    ensures before | s == OK <==> AllSucceeded(inits + [IfInitCall(s)])
  {
    AggregateSnoc(inits, IfInitCall(s));
    AggregateOk(inits + [IfInitCall(s)]);
  }

  /** The table indices below k whose region's driver has an init pointer, in
      increasing order: the counter values at which `nvm_init` calls an init. */
  function InitIndices(cfg: seq<Region>, k: nat): (idx: seq<nat>)
    requires k <= |cfg|
  {
    if k == 0 then []
    else if cfg[k - 1].driver.hasInit then InitIndices(cfg, k - 1) + [k - 1]
    else InitIndices(cfg, k - 1)
  }

  /** The indices are exactly the entries below k with an init pointer, each once,
      in increasing order. */
  lemma {:induction false} InitIndicesExact(cfg: seq<Region>, k: nat)
    requires k <= |cfg|
    ensures var idx := InitIndices(cfg, k);
            (forall j :: 0 <= j < |idx| ==> idx[j] < k && cfg[idx[j]].driver.hasInit) &&
            (forall j, j' :: 0 <= j < j' < |idx| ==> idx[j] < idx[j']) &&
            (forall i :: 0 <= i < k && cfg[i].driver.hasInit ==> i in idx)
  {
    if k > 0 {
      InitIndicesExact(cfg, k - 1);
      var prev := InitIndices(cfg, k - 1);
      if cfg[k - 1].driver.hasInit {
        var idx := prev + [k - 1];
        assert forall j :: 0 <= j < |prev| ==> idx[j] == prev[j];
        forall i | 0 <= i < k - 1 && cfg[i].driver.hasInit
          ensures i in idx
        {
          var j :| 0 <= j < |prev| && prev[j] == i;
          assert idx[j] == i;
        }
        assert idx[|prev|] == k - 1;
      }
    }
  }

  /** The j-th driver init goes to the driver of the j-th of those entries. */
  lemma {:induction false} DriverInitsCalled(cfg: seq<Region>, verdict: nat -> Status, t0: nat, k: nat)
    requires k <= |cfg|
    ensures var inits, idx := DriverInits(cfg, verdict, t0, k), InitIndices(cfg, k);
            |inits| == |idx| &&
            (forall j :: 0 <= j < |idx| ==> idx[j] < |cfg| && inits[j].InitCall? && inits[j].device == cfg[idx[j]].driver.device)
  {
    if k > 0 {
      DriverInitsCalled(cfg, verdict, t0, k - 1);
      var prev := DriverInits(cfg, verdict, t0, k - 1);
      var pidx := InitIndices(cfg, k - 1);
      if cfg[k - 1].driver.hasInit {
        var inits := DriverInits(cfg, verdict, t0, k);
        var idx := InitIndices(cfg, k);
        var e := InitCall(cfg[k - 1].driver.device, verdict(t0 + |prev|));
        assert inits == prev + [e];
        assert idx == pidx + [k - 1];
        forall j | 0 <= j < |idx|
          ensures idx[j] < |cfg| && inits[j].InitCall? && inits[j].device == cfg[idx[j]].driver.device
        {
          if j < |pidx| {
            assert inits[j] == prev[j] && idx[j] == pidx[j];
          } else {
            assert inits[j] == e && idx[j] == k - 1;
          }
        }
      } else {
        assert DriverInits(cfg, verdict, t0, k) == prev;
        assert InitIndices(cfg, k) == pidx;
      }
    }
  }

  // ---------------------------------------------------------------------------
  // nvm_get_status_str
  // ---------------------------------------------------------------------------

  /** `gs_status`. */
  const StatusNames: seq<string> := ["OK", "ERROR"]

  /** `nvm_get_status_str`: "OK" for no bit set, otherwise the name of the lowest set
      bit among bits 0-7, "N/A" when none of them is set. The table has two entries,
      so a status whose lowest set bit is bit 1 .. 7 would read past its end. */
  method GetStatusStr(status: Status) returns (str: string)
    requires status & 0xFF == 0 || status & 1 == 1
    ensures status == OK ==> str == "OK"
    ensures status & 1 == 1 ==> str == "ERROR"
    ensures status != OK && status & 0xFF == 0 ==> str == "N/A"
  {
    str := "N/A";
    if status == OK {
      str := StatusNames[0];
    } else {
      var i: bv8 := 0;
      while i < 8
        invariant i <= 8
        invariant status & ((1 << i) - 1) == 0   // bits below i are clear
        invariant str == "N/A"
      {
        if status & (1 << i) != 0 {
          str := StatusNames[i as int + 1];
          break;
        }
        i := i + 1;
      }
    }
  }

  // ---------------------------------------------------------------------------
  // The dispatcher state
  // ---------------------------------------------------------------------------

  /** The module state of `nvm.c`: `gb_is_init` and `gp_nvm_regions`. */
  class Nvm {
    var isInit: bool
    var regions: seq<Region>

    constructor ()
      ensures !isInit && regions == []
    {
      isInit := false;
      regions := [];
    }

    /** `nvm_init`. The configuration tables are parameters: `cfg` is the region table
        and `drvCount` is `eNVM_MEM_DRV_NUM_OF`. The loop runs the driver counter over
        the region table, so it needs at least `drvCount` regions; its counter is a
        `uint8_t`, so it only terminates for `drvCount <= 255`. */
    method Init(p: Platform, cfg: seq<Region>, drvCount: nat) returns (status: Status)
      requires !isInit ==> drvCount <= |cfg| && drvCount <= 255
      modifies this, p
      ensures p.flash == old(p.flash)
      ensures old(isInit) ==> status == ERROR && isInit && regions == old(regions) &&
                              p.trace == old(p.trace) && p.tick == old(p.tick)
      ensures !old(isInit) ==>
                var calls := InitCalls(cfg, drvCount, p.verdict, old(p.tick));
                regions == cfg &&
                p.trace == old(p.trace) + calls && p.tick == old(p.tick) + |calls| &&
                status == Aggregate(calls) &&
                (isInit <==> status == OK) &&
                (isInit <==> AllSucceeded(calls))
      ensures Serialized(old(p.trace)) ==> Serialized(p.trace)
    {
      status := OK;
      if !isInit {
        regions := cfg;
        ghost var t0 := p.tick;
        ghost var trace0 := p.trace;
        status := InitDrivers(p, cfg, drvCount);
        ghost var inits := DriverInits(cfg, p.verdict, t0, drvCount);
        var s := p.IfInit();
        InitStatus(inits, status, s);
        status := status | s;
        if status == OK {
          isInit := true;
        }
        ghost var calls := inits + [IfInitCall(s)];
        assert calls == InitCalls(cfg, drvCount, p.verdict, t0);
        assert p.trace == trace0 + calls && p.tick == t0 + |calls|;
        DriverInitsOnly(cfg, p.verdict, t0, drvCount);
        NeutralCalls(false, calls);
        if Serialized(trace0) {
          SerializedAppend(trace0, calls);
        }
      } else {
        status := ERROR;
      }
    }

    /** The driver-init loop of `nvm_init`: for every counter value below
        `drvCount`, the init of the driver of that region when it is not NULL,
        OR-ing the returned statuses. */
    method InitDrivers(p: Platform, cfg: seq<Region>, drvCount: nat) returns (status: Status)
      requires drvCount <= |cfg|
      modifies p
      ensures p.flash == old(p.flash)
      ensures p.trace == old(p.trace) + DriverInits(cfg, p.verdict, old(p.tick), drvCount)
      ensures p.tick == old(p.tick) + |DriverInits(cfg, p.verdict, old(p.tick), drvCount)|
      ensures status == Aggregate(DriverInits(cfg, p.verdict, old(p.tick), drvCount))
    {
      status := OK;
      var k := 0;
      ghost var t0, trace0, flash0 := p.tick, p.trace, p.flash;
      ghost var inits: seq<Event> := [];
      while k < drvCount
        invariant k <= drvCount
        invariant p.flash == flash0
        invariant inits == DriverInits(cfg, p.verdict, t0, k)
        invariant p.trace == trace0 + inits && p.tick == t0 + |inits|
        invariant status == Aggregate(inits)
      {
        var d := cfg[k].driver;
        if d.hasInit {
          var s := p.DriverInit(d.device);
          AggregateSnoc(inits, InitCall(d.device, s));
          inits := inits + [InitCall(d.device, s)];
          status := status | s;
        }
        k := k + 1;
      }
    }

    /** `nvm_is_init`. */
    method IsInit() returns (b: bool)
      ensures b <==> isInit
    {
      b := isInit;
    }

    /** `nvm_write`. `data` is the caller's buffer of `size` bytes. */
    method Write(p: Platform, region: nat, addr: U32, size: U32, data: seq<bv8>) returns (status: Status)
      requires |data| == size as int
      modifies p
      ensures IsStatusCode(status)
      ensures !(isInit && Accepts(regions, region, addr, size)) ==>
                status == ERROR && p.trace == old(p.trace) && p.tick == old(p.tick) && p.flash == old(p.flash)
      ensures isInit && Accepts(regions, region, addr, size) && p.verdict(old(p.tick)) != OK ==>
                status == ERROR && p.flash == old(p.flash) &&
                p.trace == old(p.trace) + [AcquireCall(p.verdict(old(p.tick)))] && p.tick == old(p.tick) + 1
      ensures isInit && Accepts(regions, region, addr, size) && p.verdict(old(p.tick)) == OK ==>
                var r := regions[region];
                var call := WriteCall(r.driver.device, Add32(r.startAddr, addr), size, data, p.verdict(old(p.tick) + 1));
                p.trace == old(p.trace) + [AcquireCall(OK), call, ReleaseCall] && p.tick == old(p.tick) + 2 &&
                p.flash == Apply(old(p.flash), call) &&
                (status == OK <==> call.res == OK)
      ensures Serialized(old(p.trace)) ==> Serialized(p.trace)
    {
      status := OK;
      ghost var trace0 := p.trace;
      if isInit {
        if Accepts(regions, region, addr, size) {
          var m := p.AcquireMutex();
          ghost var calls := [AcquireCall(m)];
          if m == OK {
            var r := regions[region];
            var s := p.DriverWrite(r.driver.device, Add32(r.startAddr, addr), size, data);
            if s != OK {
              status := ERROR;
            }
            p.ReleaseMutex();
            calls := [AcquireCall(m), WriteCall(r.driver.device, Add32(r.startAddr, addr), size, data, s), ReleaseCall];
            CriticalSectionSerialized(calls[1]);
          } else {
            status := ERROR;
            FailedAcquireSerialized(m);
          }
          assert p.trace == trace0 + calls;
          if Serialized(trace0) {
            SerializedAppend(trace0, calls);
          }
        } else {
          status := ERROR;
        }
      } else {
        status := ERROR;
      }
    }

    /** `nvm_read`. `out` is the caller's buffer; the driver fills its first `size`
        bytes, and only when the read succeeds. */
    method Read(p: Platform, region: nat, addr: U32, size: U32, out: array<bv8>) returns (status: Status)
      requires isInit && Accepts(regions, region, addr, size) ==> size as int <= out.Length
      modifies p, out
      ensures IsStatusCode(status)
      ensures p.flash == old(p.flash)
      ensures !(isInit && Accepts(regions, region, addr, size)) ==>
                status == ERROR && p.trace == old(p.trace) && p.tick == old(p.tick) && out[..] == old(out[..])
      ensures isInit && Accepts(regions, region, addr, size) && p.verdict(old(p.tick)) != OK ==>
                status == ERROR && out[..] == old(out[..]) &&
                p.trace == old(p.trace) + [AcquireCall(p.verdict(old(p.tick)))] && p.tick == old(p.tick) + 1
      ensures isInit && Accepts(regions, region, addr, size) && p.verdict(old(p.tick)) == OK ==>
                var r := regions[region];
                var call := ReadCall(r.driver.device, Add32(r.startAddr, addr), size, p.verdict(old(p.tick) + 1));
                p.trace == old(p.trace) + [AcquireCall(OK), call, ReleaseCall] && p.tick == old(p.tick) + 2 &&
                (status == OK <==> call.res == OK) &&
                out[..] == if call.res == OK
                           then Splice(old(out[..]), 0, Bytes(p.flash, r.driver.device, call.addr as nat, size as nat))
                           else old(out[..])
      ensures Serialized(old(p.trace)) ==> Serialized(p.trace)
    {
      status := OK;
      ghost var trace0 := p.trace;
      if isInit {
        if Accepts(regions, region, addr, size) {
          var m := p.AcquireMutex();
          ghost var calls := [AcquireCall(m)];
          if m == OK {
            var r := regions[region];
            var s := p.DriverRead(r.driver.device, Add32(r.startAddr, addr), size, out, 0);
            if s != OK {
              status := ERROR;
            }
            p.ReleaseMutex();
            calls := [AcquireCall(m), ReadCall(r.driver.device, Add32(r.startAddr, addr), size, s), ReleaseCall];
            CriticalSectionSerialized(calls[1]);
          } else {
            status := ERROR;
            FailedAcquireSerialized(m);
          }
          assert p.trace == trace0 + calls;
          if Serialized(trace0) {
            SerializedAppend(trace0, calls);
          }
        } else {
          status := ERROR;
        }
      } else {
        status := ERROR;
      }
    }

    /** `nvm_erase`. */
    method Erase(p: Platform, region: nat, addr: U32, size: U32) returns (status: Status)
      modifies p
      ensures IsStatusCode(status)
      ensures !(isInit && Accepts(regions, region, addr, size)) ==>
                status == ERROR && p.trace == old(p.trace) && p.tick == old(p.tick) && p.flash == old(p.flash)
      ensures isInit && Accepts(regions, region, addr, size) && p.verdict(old(p.tick)) != OK ==>
                status == ERROR && p.flash == old(p.flash) &&
                p.trace == old(p.trace) + [AcquireCall(p.verdict(old(p.tick)))] && p.tick == old(p.tick) + 1
      ensures isInit && Accepts(regions, region, addr, size) && p.verdict(old(p.tick)) == OK ==>
                var r := regions[region];
                var call := EraseCall(r.driver.device, Add32(r.startAddr, addr), size, p.verdict(old(p.tick) + 1));
                p.trace == old(p.trace) + [AcquireCall(OK), call, ReleaseCall] && p.tick == old(p.tick) + 2 &&
                p.flash == Apply(old(p.flash), call) &&
                (status == OK <==> call.res == OK)
      ensures Serialized(old(p.trace)) ==> Serialized(p.trace)
    {
      status := OK;
      ghost var trace0 := p.trace;
      if isInit {
        if Accepts(regions, region, addr, size) {
          var m := p.AcquireMutex();
          ghost var calls := [AcquireCall(m)];
          if m == OK {
            var r := regions[region];
            var s := p.DriverErase(r.driver.device, Add32(r.startAddr, addr), size);
            if s != OK {
              status := ERROR;
            }
            p.ReleaseMutex();
            calls := [AcquireCall(m), EraseCall(r.driver.device, Add32(r.startAddr, addr), size, s), ReleaseCall];
            CriticalSectionSerialized(calls[1]);
          } else {
            status := ERROR;
            FailedAcquireSerialized(m);
          }
          assert p.trace == trace0 + calls;
          if Serialized(trace0) {
            SerializedAppend(trace0, calls);
          }
        } else {
          status := ERROR;
        }
      } else {
        status := ERROR;
      }
    }
  }

  /** A caller's direct write followed by a read of the same range: when both
      return OK, the read gives back the bytes just written, since both call the
      region's driver at the same address `start_addr + addr`. */
  method DirectWriteThenRead(n: Nvm, p: Platform, region: nat, addr: U32, data: seq<bv8>, out: array<bv8>)
      returns (ws: Status, rs: Status)
    requires |data| < TWO_32 && |data| <= out.Length
    modifies p, out
    ensures ws == OK && rs == OK ==> out[..|data|] == data
  {
    ws := n.Write(p, region, addr, |data| as U32, data);
    rs := n.Read(p, region, addr, |data| as U32, out);
    if ws == OK && rs == OK {
      var r := n.regions[region];
      var a := Add32(r.startAddr, addr);
      ProgramReadBack(old(p.flash), r.driver.device, a as nat, data);
      SpliceContents(old(out[..]), 0, Bytes(p.flash, r.driver.device, a as nat, |data|));
    }
  }
}
