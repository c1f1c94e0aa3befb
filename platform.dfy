/** The collaborators the NVM core calls but does not contain: the low-level memory
    drivers, `nvm_if_init`, the platform mutex and `malloc`. They are simulated by one
    object: a byte store per memory device, an oracle that decides the status of every
    external call, and a ghost trace of the calls made, in order. */
module Platform {
  import opened NvmTypes

  /** Value of an erased flash byte. */
  const ERASED: bv8 := 0xFF

  /** Contents of every simulated device: device number and address to byte. */
  type Flash = (nat, nat) -> bv8

  /** The `n` bytes of device `dev` starting at address `addr`. */
  function Bytes(f: Flash, dev: nat, addr: nat, n: nat): (r: seq<bv8>)
    ensures |r| == n
    ensures forall i :: 0 <= i < n ==> r[i] == f(dev, addr + i)
  {
    seq(n, (i: int) requires 0 <= i < n => f(dev, addr + i))
  }

  /** Device `dev` after `data` is programmed at `addr`. */
  function Program(f: Flash, dev: nat, addr: nat, data: seq<bv8>): Flash
  {
    (d: nat, a: nat) => if d == dev && addr <= a < addr + |data| then data[a - addr] else f(d, a)
  }

  /** Device `dev` after `n` bytes from `addr` are erased. */
  function Wipe(f: Flash, dev: nat, addr: nat, n: nat): Flash
  {
    (d: nat, a: nat) => if d == dev && addr <= a < addr + n then ERASED else f(d, a)
  }

  /** One call into a collaborator, with the status it returned. */
  datatype Event =
    | InitCall(device: nat, res: Status)                                  // pf_nvm_init()
    | IfInitCall(res: Status)                                             // nvm_if_init()
    | WriteCall(device: nat, addr: U32, size: U32, data: seq<bv8>, res: Status)  // pf_nvm_write
    | ReadCall(device: nat, addr: U32, size: U32, res: Status)            // pf_nvm_read
    | EraseCall(device: nat, addr: U32, size: U32, res: Status)           // pf_nvm_erase
    | AcquireCall(res: Status)                                            // nvm_if_aquire_mutex()
    | ReleaseCall                                                         // nvm_if_release_mutex()
    | MallocCall(bytes: nat, res: Status)                                 // malloc(); OK when not NULL

  /** Status a call returned (release returns nothing the core looks at). */
  function Result(e: Event): Status {
    if e.ReleaseCall? then OK else e.res
  }

  /** Every call in `evs` returned OK. */
  predicate AllSucceeded(evs: seq<Event>) {
    forall i :: 0 <= i < |evs| ==> Result(evs[i]) == OK
  }

  /** `status |= call()` over the calls of `evs`, starting from OK. */
  function Aggregate(evs: seq<Event>): Status
  {
    if evs == [] then OK else Aggregate(evs[..|evs| - 1]) | Result(evs[|evs| - 1])
  }

  lemma AggregateSnoc(evs: seq<Event>, e: Event)
    ensures Aggregate(evs + [e]) == Aggregate(evs) | Result(e)
  {
    assert (evs + [e])[..|evs|] == evs;
  }

  /** The OR of the returned statuses is OK exactly when every call succeeded. */
  lemma {:induction false} AggregateOk(evs: seq<Event>)
    ensures Aggregate(evs) == OK <==> AllSucceeded(evs)
  {
    if evs != [] {
      var init := evs[..|evs| - 1];
      AggregateOk(init);
      OrCombine(Aggregate(init), Result(evs[|evs| - 1]));
      assert forall i :: 0 <= i < |init| ==> init[i] == evs[i];
    }
  }

  /** When every call returned one of the declared codes, so does their OR. */
  lemma {:induction false} AggregateTwoValued(evs: seq<Event>)
    requires forall i :: 0 <= i < |evs| ==> IsStatusCode(Result(evs[i]))
    ensures IsStatusCode(Aggregate(evs))
  {
    if evs != [] {
      var init := evs[..|evs| - 1];
      assert forall i :: 0 <= i < |init| ==> init[i] == evs[i];
      AggregateTwoValued(init);
      OrCombine(Aggregate(init), Result(evs[|evs| - 1]));
    }
  }

  /** The status of a sequence that sets `status = eNVM_ERROR` whenever a call does
      not return OK, starting from OK. */
  function Outcome(evs: seq<Event>): (s: Status)
    ensures IsStatusCode(s)
    ensures s == OK <==> AllSucceeded(evs)
  {
    if AllSucceeded(evs) then OK else ERROR
  }

  /** Adding one call to such a sequence. */
  lemma OutcomeSnoc(evs: seq<Event>, e: Event)
    ensures Outcome(evs + [e]) == if Result(e) == OK then Outcome(evs) else ERROR
  {
    assert forall i :: 0 <= i < |evs| ==> (evs + [e])[i] == evs[i];
    assert (evs + [e])[|evs|] == e;
  }

  /** OR-ing the statuses of two such sequences gives the status of both together. */
  lemma OutcomeConcat(a: seq<Event>, b: seq<Event>)
    ensures Outcome(a) | Outcome(b) == Outcome(a + b)
  {
    OrCombine(Outcome(a), Outcome(b));
    assert forall i :: 0 <= i < |a| ==> (a + b)[i] == a[i];
    assert forall i :: 0 <= i < |b| ==> (a + b)[|a| + i] == b[i];
    if !AllSucceeded(b) {
      var j :| 0 <= j < |b| && Result(b[j]) != OK;
      assert Result((a + b)[|a| + j]) != OK;
    }
  }

  /** What a call does to the devices: a successful write programs, a successful
      erase wipes; a failed call and every other call change nothing. */
  function Apply(f: Flash, e: Event): Flash
  {
    match e
    case WriteCall(dev, addr, _, data, res) => if res == OK then Program(f, dev, addr as nat, data) else f
    case EraseCall(dev, addr, size, res) => if res == OK then Wipe(f, dev, addr as nat, size as nat) else f
    case _ => f
  }

  /** The devices after the calls of `evs`, in order. */
  function ApplyAll(f: Flash, evs: seq<Event>): Flash
  {
    if evs == [] then f else Apply(ApplyAll(f, evs[..|evs| - 1]), evs[|evs| - 1])
  }

  lemma ApplyAllSnoc(f: Flash, evs: seq<Event>, e: Event)
    ensures ApplyAll(f, evs + [e]) == Apply(ApplyAll(f, evs), e)
  {
    assert (evs + [e])[..|evs|] == evs;
  }

  /** Programmed bytes read back as written. */
  lemma ProgramReadBack(f: Flash, dev: nat, addr: nat, data: seq<bv8>)
    ensures Bytes(Program(f, dev, addr, data), dev, addr, |data|) == data
  {
  }

  /** Erased bytes read back as `ERASED`. */
  lemma WipeReadBack(f: Flash, dev: nat, addr: nat, n: nat)
    ensures forall i :: 0 <= i < n ==> Bytes(Wipe(f, dev, addr, n), dev, addr, n)[i] == ERASED
  {
  }

  /** Programming one range leaves every range of another device, or a range it
      does not overlap, as it was. */
  lemma ProgramElsewhere(f: Flash, dev: nat, addr: nat, data: seq<bv8>, dev': nat, addr': nat, n: nat)
    requires dev != dev' || addr + |data| <= addr' || addr' + n <= addr
    ensures Bytes(Program(f, dev, addr, data), dev', addr', n) == Bytes(f, dev', addr', n)
  {
  }

  /** The simulated platform. Every external call except the mutex release takes the
      next verdict of the oracle, `verdict(tick)`, as the status it returns. */
  class Platform {
    const verdict: nat -> Status
    var tick: nat
    var flash: Flash
    ghost var trace: seq<Event>

    constructor (verdict: nat -> Status, flash: Flash)
      ensures this.verdict == verdict && this.flash == flash
      ensures tick == 0 && trace == []
    {
      this.verdict := verdict;
      this.flash := flash;
      tick := 0;
      trace := [];
    }

    /** A memory driver's `pf_nvm_init`. */
    method DriverInit(dev: nat) returns (s: Status)
      modifies this
      ensures s == verdict(old(tick)) && tick == old(tick) + 1
      ensures flash == old(flash) && trace == old(trace) + [InitCall(dev, s)]
    {
      s := verdict(tick);
      tick := tick + 1;
      trace := trace + [InitCall(dev, s)];
    }

    /** `nvm_if_init`. */
    method IfInit() returns (s: Status)
      modifies this
      ensures s == verdict(old(tick)) && tick == old(tick) + 1
      ensures flash == old(flash) && trace == old(trace) + [IfInitCall(s)]
    {
      s := verdict(tick);
      tick := tick + 1;
      trace := trace + [IfInitCall(s)];
    }

    /** `nvm_if_aquire_mutex`: returns at once, OK when the mutex was taken. */
    method AcquireMutex() returns (s: Status)
      modifies this
      ensures s == verdict(old(tick)) && tick == old(tick) + 1
      ensures flash == old(flash) && trace == old(trace) + [AcquireCall(s)]
    {
      s := verdict(tick);
      tick := tick + 1;
      trace := trace + [AcquireCall(s)];
    }

    /** `nvm_if_release_mutex`. */
    method ReleaseMutex()
      modifies this
      ensures tick == old(tick) && flash == old(flash) && trace == old(trace) + [ReleaseCall]
    {
      trace := trace + [ReleaseCall];
    }

    /** A driver's `pf_nvm_write(addr, size, data)`. */
    method DriverWrite(dev: nat, addr: U32, size: U32, data: seq<bv8>) returns (s: Status)
      requires |data| == size as int
      modifies this
      ensures s == verdict(old(tick)) && tick == old(tick) + 1
      ensures trace == old(trace) + [WriteCall(dev, addr, size, data, s)]
      ensures flash == Apply(old(flash), WriteCall(dev, addr, size, data, s))
    {
      s := verdict(tick);
      tick := tick + 1;
      trace := trace + [WriteCall(dev, addr, size, data, s)];
      flash := Apply(flash, WriteCall(dev, addr, size, data, s));
    }

    /** A driver's `pf_nvm_read(addr, size, &buf[off])`. */
    method DriverRead(dev: nat, addr: U32, size: U32, buf: array<bv8>, off: nat) returns (s: Status)
      requires off + size as int <= buf.Length
      modifies this, buf
      ensures s == verdict(old(tick)) && tick == old(tick) + 1
      ensures flash == old(flash) && trace == old(trace) + [ReadCall(dev, addr, size, s)]
      ensures buf[..] == if s == OK then Splice(old(buf[..]), off, Bytes(flash, dev, addr as nat, size as nat))
                         else old(buf[..])
    {
      s := verdict(tick);
      tick := tick + 1;
      trace := trace + [ReadCall(dev, addr, size, s)];
      if s == OK {
        ghost var bytes := Bytes(flash, dev, addr as nat, size as nat);
        forall i | off <= i < off + size as int {
          buf[i] := flash(dev, addr as nat + (i - off));
        }
        SpliceFrom(old(buf[..]), off, bytes, buf[..]);
      }
    }

    /** A driver's `pf_nvm_erase(addr, size)`. */
    method DriverErase(dev: nat, addr: U32, size: U32) returns (s: Status)
      modifies this
      ensures s == verdict(old(tick)) && tick == old(tick) + 1
      ensures trace == old(trace) + [EraseCall(dev, addr, size, s)]
      ensures flash == Apply(old(flash), EraseCall(dev, addr, size, s))
    {
      s := verdict(tick);
      tick := tick + 1;
      trace := trace + [EraseCall(dev, addr, size, s)];
      flash := Apply(flash, EraseCall(dev, addr, size, s));
    }

    /** `malloc(n)`: a fresh buffer of `n` bytes, or NULL when the oracle says so. */
    method Malloc(n: nat) returns (a: array?<bv8>)
      modifies this
      ensures tick == old(tick) + 1 && flash == old(flash)
      ensures trace == old(trace) + [MallocCall(n, verdict(old(tick)))]
      ensures verdict(old(tick)) == OK ==> a != null && fresh(a) && a.Length == n
      ensures verdict(old(tick)) != OK ==> a == null
    {
      var s := verdict(tick);
      tick := tick + 1;
      trace := trace + [MallocCall(n, s)];
      if s == OK {
        a := new bv8[n];
      } else {
        a := null;
      }
    }
  }
}
