/** The QSPI flash driver: erase, page-by-page write and read over a NOR flash. */
module Qspi {
  import opened Bus
  import opened CInt
  import opened Geometry
  import opened Paging
  import opened PagedJob
  import opened NorFlash
  import opened FlashJob

  const FLASH_SIZE := 0x100_0000
  const SUBSECTOR_SIZE := 0x1000
  const PAGE_SIZE := 0x100

  datatype Status = QspiOk | QspiError

  datatype Request = Write(addr: nat, data: seq<Byte>) | EraseBlock(addr: nat)

  class Driver {
    const page: nat
    const block: nat
    var dev: Flash

    /** The latch stays set for as long as the operation it allowed is in progress. */
    ghost predicate Valid()
      reads this
    {
      && 0 < page < FLASH_SIZE && 0 < block && |dev.mem| % page == 0 && |dev.mem| <= FLASH_SIZE
      && (dev.wip ==> dev.wel)
    }

    /** No operation is in progress. */
    ghost predicate Ready()
      reads this
    {
      Valid() && !dev.wip
    }

    /** The board's flash, idle, with any contents and any future of the bus. */
    constructor (mem: seq<Byte>, faults: nat -> Fault)
      requires |mem| == FLASH_SIZE
      ensures Ready() && page == PAGE_SIZE && block == SUBSECTOR_SIZE
      ensures dev.mem == mem && dev.faults == faults && dev.ignored == 0
    {
      page, block := PAGE_SIZE, SUBSECTOR_SIZE;
      dev := Flash(mem, false, false, [], 0, faults, 0);
    }

    /** Waits until the masked status bits match, or gives up. */
    method AutoPolling(mask: bv8, wanted: bv8) returns (ok: bool)
      modifies this`dev
      ensures ok ==> NorFlash.Status(dev) & mask == wanted && old(dev.faults(dev.clock)) == Good
      ensures dev == old(dev).(clock := old(dev.clock) + 1) || dev == Settle(old(dev)).(clock := old(dev.clock) + 1)
      ensures NorFlash.Status(old(dev)) & mask == wanted || old(dev.faults(dev.clock)) == Lost ==>
        dev == old(dev).(clock := old(dev.clock) + 1)
      ensures NorFlash.Status(old(dev)) & mask == wanted ==> ok == (old(dev.faults(dev.clock)) == Good)
      ensures NorFlash.Status(Settle(old(dev))) & mask == wanted && old(dev.faults(dev.clock)) == Good ==> ok
    {
      var fault := dev.faults(dev.clock);
      dev := dev.(clock := dev.clock + 1);
      if NorFlash.Status(dev) & mask != wanted && fault != Lost {
        dev := Settle(dev);
      }
      ok := fault == Good && NorFlash.Status(dev) & mask == wanted;
    }

    /** QSPI_WriteEnable: set the latch and wait until it is seen. */
    method EnableWrites() returns (status: Status)
      requires Valid()
      modifies this`dev
      ensures Valid()
      ensures status == QspiOk <==> AllGood(old(dev), 2)
      ensures status == QspiOk ==> dev.wel && dev == WriteEnable(old(dev)).(clock := old(dev.clock) + 2)
      ensures dev.faults == old(dev.faults) && dev.wip == old(dev.wip)
      ensures dev.mem == old(dev.mem) && dev.sent == old(dev.sent) && dev.ignored == old(dev.ignored)
    {
      var fault := dev.faults(dev.clock);
      dev := dev.(clock := dev.clock + 1);
      if fault != Lost {
        dev := WriteEnable(dev);
      }
      if fault != Good {
        return QspiError;
      }
      StatusBits(dev);
      var seen := AutoPolling(SR_WREN, SR_WREN);
      status := if seen then QspiOk else QspiError;
    }

    /** QSPI_AutoPollingMemReady: wait until no operation is in progress. */
    method AwaitReady() returns (status: Status)
      requires Valid()
      modifies this`dev
      ensures Valid() && dev.faults == old(dev.faults)
      ensures dev.mem == old(dev.mem) && dev.sent == old(dev.sent) && dev.ignored == old(dev.ignored)
      ensures status == QspiOk <==> AllGood(old(dev), 1)
      ensures status == QspiOk ==> !dev.wip && dev == Settle(old(dev)).(clock := old(dev.clock) + 1)
      ensures old(dev.faults(dev.clock)) == Lost ==> dev == old(dev).(clock := old(dev.clock) + 1)
    {
      StatusBits(dev);
      StatusBits(Settle(dev));
      var ready := AutoPolling(SR_WIP, 0);
      StatusBits(dev);
      status := if ready then QspiOk else QspiError;
    }

    /** Command and data phases of a page program: either phase may fail, before or after the
        device has acted on the data. */
    method SendProgram(addr: nat, data: seq<Byte>) returns (ok: bool)
      requires Valid() && (data != [] ==> addr < |dev.mem|)
      modifies this`dev
      ensures Valid() && dev.faults == old(dev.faults)
      ensures ok <==> AllGood(old(dev), 2)
      ensures ok ==> dev == Program(old(dev), page, addr, data).(clock := old(dev.clock) + 2)
      ensures dev.(clock := 0) == old(dev).(clock := 0)
        || dev.(clock := 0) == Program(old(dev), page, addr, data).(clock := 0)
    {
      var command := dev.faults(dev.clock);
      dev := dev.(clock := dev.clock + 1);
      if command != Good {
        return false;
      }
      var transmit := dev.faults(dev.clock);
      dev := dev.(clock := dev.clock + 1);
      if transmit != Lost {
        dev := Program(dev, page, addr, data);
      }
      ok := transmit == Good;
    }

    /** One pass of the page loop: when all five steps go well it is exactly a PageWrite; when
        only the last wait is lost, the operation is left in progress. */
    method WriteChunk(addr: nat, chunk: seq<Byte>) returns (status: Status)
      requires Valid() && chunk != [] && addr < |dev.mem|
      modifies this`dev
      ensures Valid() && dev.faults == old(dev.faults)
      ensures status == QspiOk <==> AllGood(old(dev), STEPS_PER_PAGE)
      ensures status == QspiOk ==>
        dev == PageWrite(old(dev), page, addr, chunk).(clock := old(dev.clock) + STEPS_PER_PAGE)
      ensures Broken(page, old(dev), dev, addr, chunk)
      ensures AllGood(old(dev), 4) && old(dev.faults(dev.clock + 4)) == Lost ==>
        dev == Program(WriteEnable(old(dev)), page, addr, chunk).(clock := old(dev.clock) + STEPS_PER_PAGE)
    {
      status := EnableWrites();
      if status == QspiOk {
        var ok := SendProgram(addr, chunk);
        status := QspiError;
        if ok {
          status := AwaitReady();
        }
      }
    }

    /** The first page end after addr, found by counting up in pages. */
    method RoomInPage(addr: nat) returns (room: nat)
      requires Valid() && addr < FLASH_SIZE
      ensures room == page - addr % page
    {
      var current := 0;
      while current <= addr
        invariant 0 <= current <= addr + page && current % page == 0
        invariant current <= 2 * FLASH_SIZE
        decreases addr + page - current
      {
        NextBoundary(page, current);
        current := ToUint32(current + page);
      }
      EndOfPage(page, addr, current);
      room := ToUint32(current - addr);
    }

    /** BSP_QSPI_Write.  It succeeds exactly when every step goes well.  Then every bit to clear
        has been cleared, the program commands sent are exactly the plan and the device is ready;
        but if the device was still busy at the start, the first page was ignored.  On failure a
        page-bounded prefix has been programmed; if only the very last wait was lost, all pages
        have been, and the device is left busy. */
    method Write(data: seq<Byte>, writeAddr: nat) returns (status: Status)
      requires Valid() && data != [] && writeAddr + |data| <= |dev.mem|
      modifies this`dev
      ensures Valid() && |dev.mem| == old(|dev.mem|) && dev.faults == old(dev.faults)
      ensures status == QspiOk <==> AllGood(old(dev), Steps(page, data, writeAddr))
      ensures status == QspiOk ==> Ready() && Sent(page, old(dev), dev, data, writeAddr)
      ensures status == QspiError ==> Abandoned(page, old(dev), dev, data, writeAddr)
      ensures LastLost(old(dev), Steps(page, data, writeAddr)) ==> dev.wip && Sent(page, old(dev), dev, data, writeAddr)
    {
      hide Sending, Sent, Abandoned, Broken;
      ghost var start := dev;
      SendingStarts(page, start, data, writeAddr);
      var size := |data|;
      var currentSize := RoomInPage(writeAddr);
      if currentSize > size {
        currentSize := size;
      }
      var currentAddr, endAddr, pData := writeAddr, ToUint32(writeAddr + size), 0;
      var again := true;
      while again
        invariant 0 <= pData <= size && currentAddr == writeAddr + pData && again == (pData < size)
        invariant 0 <= currentSize
        invariant again ==> 0 < currentSize == NextLen(page, data, writeAddr, pData)
        invariant Valid() && |dev.mem| == |start.mem| && dev.faults == start.faults
        invariant Sending(page, start, dev, data, writeAddr, pData)
        decreases size - pData
      {
        ghost var d := dev;
        status := WriteChunk(currentAddr, data[pData..pData + currentSize]);
        if status != QspiOk {
          ChunkFailed(page, start, d, dev, data, writeAddr, pData, currentSize);
          return;
        }
        SendingStep(page, start, d, data, writeAddr, pData, currentSize);
        PageOf(page, currentAddr, currentSize);
        currentAddr := ToUint32(currentAddr + currentSize);
        pData := pData + currentSize;
        currentSize := if ToUint32(currentAddr + page) > endAddr then ToUint32(endAddr - currentAddr) else page;
        again := currentAddr < endAddr;
        SendingFits(page, start, dev, data, writeAddr, pData);
      }
      SendingDone(page, start, dev, data, writeAddr);
      status := QspiOk;
    }

    /** BSP_QSPI_Erase_Block.  On a busy device the command is ignored, and the call can succeed
        all the same. */
    method EraseOne(addr: nat) returns (status: Status)
      requires Valid() && addr < |dev.mem|
      modifies this`dev
      ensures Valid() && dev.faults == old(dev.faults) && dev.sent == old(dev.sent)
      ensures status == QspiOk <==> AllGood(old(dev), 4)
      ensures status == QspiOk ==>
        Ready() && dev.clock == old(dev.clock) + 4 && ErasedUnlessBusy(block, old(dev), dev, addr)
      ensures status == QspiError ==>
        || (dev.mem == old(dev.mem) && dev.ignored == old(dev.ignored))
        || ErasedUnlessBusy(block, old(dev), dev, addr)
    {
      status := EnableWrites();
      if status != QspiOk {
        return;
      }
      var fault := dev.faults(dev.clock);
      dev := dev.(clock := dev.clock + 1);
      if fault != Lost {
        dev := Erase(dev, block, addr);
      }
      if fault != Good {
        return QspiError;
      }
      status := AwaitReady();
    }

    /** BSP_QSPI_Read.  A busy device does not answer: what is received then is whatever the
        idle lines carry. */
    method Read(readAddr: nat, size: nat, lines: seq<Byte>) returns (status: Status, bytes: seq<Byte>)
      requires Valid() && readAddr + size <= |dev.mem| && |lines| == size
      modifies this`dev
      ensures dev == old(dev).(clock := old(dev.clock) + 2)
      ensures status == QspiOk <==> AllGood(old(dev), 2)
      ensures status == QspiOk ==> bytes == if dev.wip then lines else dev.mem[readAddr..readAddr + size]
    {
      var command, receive := dev.faults(dev.clock), dev.faults(dev.clock + 1);
      dev := dev.(clock := dev.clock + 2);
      if command != Good || receive != Good {
        return QspiError, [];
      }
      return QspiOk, if dev.wip then lines else dev.mem[readAddr..readAddr + size];
    }

    /** Any run of writes and erases, whether or not calls fail on the way.  states are the
        device before each call and at the end. */
    method Run(rs: seq<Request>) returns (statuses: seq<Status>, ghost states: seq<Flash>)
      requires Valid() && forall r :: r in rs ==> Inside(|dev.mem|, r)
      modifies this`dev
      ensures Valid() && |dev.mem| == old(|dev.mem|)
      ensures IsRun(page, block, rs, statuses, states) && states[0] == old(dev) && states[|rs|] == dev
    {
      hide Served;
      statuses, states := [], [dev];
      ghost var size := |dev.mem|;
      while |statuses| < |rs|
        invariant |statuses| <= |rs| && |states| == |statuses| + 1
        invariant Valid() && |dev.mem| == size && states[0] == old(dev) && states[|statuses|] == dev
        invariant forall i :: 0 <= i < |statuses| ==> Served(page, block, rs[i], states[i], statuses[i], states[i + 1])
      {
        var r := rs[|statuses|];
        assert r in rs && Inside(size, r);
        ghost var before := dev;
        var status;
        match r {
          case Write(a, d) => status := Write(d, a);
          case EraseBlock(a) => status := EraseOne(a);
        }
        assert Served(page, block, r, before, status, dev) by { ServedBy(page, block, r, before, status, dev); }
        statuses := statuses + [status];
        states := states + [dev];
      }
    }
  }

  predicate Inside(size: nat, r: Request) {
    match r
    case Write(a, d) => d != [] && a + |d| <= size
    case EraseBlock(a) => a < size
  }

  /** Of the next n steps all go well but the last one, a wait that gives up. */
  ghost predicate LastLost(d: Flash, n: int) {
    n > 0 && AllGood(d, n - 1) && d.faults(d.clock + n - 1) == Lost
  }

  ghost predicate ErasedUnlessBusy(block: nat, d: Flash, e: Flash, addr: nat)
    requires block > 0
  {
    && e.mem == (if d.wip then d.mem else Erased(d.mem, block, addr))
    && e.ignored == d.ignored + Dropped(d)
  }

  lemma ChunkFailed(page: nat, start: Flash, d: Flash, e: Flash, data: seq<Byte>, addr: nat, done: nat, len: nat)
    requires Sending(page, start, d, data, addr, done) && done < |data| && len == NextLen(page, data, addr, done)
    requires addr + done < |d.mem| && |d.mem| % page == 0 && (d.wip ==> d.wel)
    requires !AllGood(d, STEPS_PER_PAGE) && Broken(page, d, e, addr + done, data[done..done + len])
    requires AllGood(d, 4) && d.faults(d.clock + 4) == Lost ==>
      e == Program(WriteEnable(d), page, addr + done, data[done..done + len]).(clock := d.clock + STEPS_PER_PAGE)
    ensures |e.mem| == |start.mem|
    ensures Abandoned(page, start, e, data, addr) && !AllGood(start, Steps(page, data, addr))
    ensures LastLost(start, Steps(page, data, addr)) ==> e.wip && Sent(page, start, e, data, addr)
  {
    hide Carried, Sent, Abandoned, Steps, Burst, Progress;
    SendingFits(page, start, d, data, addr, done);
    SendingBreaks(page, start, d, e, data, addr, done, len);
    StepsLeft(page, start, d, data, addr, done, len);
    var all := Steps(page, data, addr);
    if LastLost(start, all) && done + len == |data| {
      LastWait(page, start, d, data, addr, done, len);
    }
  }

  /** What one call of a run did, by its result and by whether the device was busy. */
  ghost predicate Served(page: nat, block: nat, r: Request, d: Flash, status: Status, e: Flash) {
    && 0 < page && 0 < block && |d.mem| == |e.mem| && |d.mem| % page == 0 && Inside(|d.mem|, r)
    && (status == QspiOk ==> !e.wip)
    && match r
       case Write(a, data) =>
         if status == QspiOk then Sent(page, d, e, data, a) else Abandoned(page, d, e, data, a)
       case EraseBlock(a) =>
         || ErasedUnlessBusy(block, d, e, a)
         || (status == QspiError && e.mem == d.mem && e.ignored == d.ignored)
  }

  lemma ServedBy(page: nat, block: nat, r: Request, d: Flash, status: Status, e: Flash)
    requires 0 < page && 0 < block && |d.mem| == |e.mem| && |d.mem| % page == 0 && Inside(|d.mem|, r)
    requires status == QspiOk ==> !e.wip
    requires r.Write? ==>
      if status == QspiOk then Sent(page, d, e, r.data, r.addr) else Abandoned(page, d, e, r.data, r.addr)
    requires r.EraseBlock? ==>
      || ErasedUnlessBusy(block, d, e, r.addr)
      || (status == QspiError && e.mem == d.mem && e.ignored == d.ignored)
    ensures Served(page, block, r, d, status, e)
  {
  }

  ghost predicate IsRun(page: nat, block: nat, rs: seq<Request>, statuses: seq<Status>, states: seq<Flash>) {
    && |statuses| == |rs| && |states| == |rs| + 1
    && forall i :: 0 <= i < |rs| ==> Served(page, block, rs[i], states[i], statuses[i], states[i + 1])
  }

  lemma OneServed(page: nat, block: nat, r: Request, d: Flash, status: Status, e: Flash)
    requires Served(page, block, r, d, status, e)
    ensures e.ignored == d.ignored || (d.wip && e.ignored == d.ignored + 1)
    ensures status == QspiOk ==> !e.wip && e.ignored == d.ignored + Dropped(d)
    ensures status == QspiOk && !d.wip ==> e.mem == Meaning(d.mem, block, r)
  {
    hide Progress, Stopped;
    if status == QspiOk && !d.wip && r.Write? {
      assert r.data[0..] == r.data;
    }
  }

  /** Over any run, a program or erase command is ignored only in a call that comes right after
      a failed one (or first, on a device that was busy to begin with), and at most one in each
      such call. */
  lemma IgnoredOnlyAfterFailure(page: nat, block: nat, rs: seq<Request>, statuses: seq<Status>, states: seq<Flash>,
                                i: nat)
    requires IsRun(page, block, rs, statuses, states) && i < |rs| && !states[0].wip
    ensures states[i + 1].ignored != states[i].ignored ==>
      i > 0 && statuses[i - 1] == QspiError && states[i].wip && states[i + 1].ignored == states[i].ignored + 1
  {
    OneServed(page, block, rs[i], states[i], statuses[i], states[i + 1]);
    if i > 0 {
      OneServed(page, block, rs[i - 1], states[i - 1], statuses[i - 1], states[i]);
    }
  }

  /** Up to and including the first failing call of a run from a ready device no command is
      ignored, and the calls before it have the effect of their requests, in order. */
  lemma {:induction false} RunUntilFailure(page: nat, block: nat, rs: seq<Request>, statuses: seq<Status>,
                                           states: seq<Flash>, n: nat)
    requires IsRun(page, block, rs, statuses, states) && n <= |rs| && !states[0].wip && block > 0
    requires forall i :: 0 <= i < n ==> statuses[i] == QspiOk
    ensures !states[n].wip && states[n].ignored == states[0].ignored
    ensures n < |rs| ==> states[n + 1].ignored == states[0].ignored
    ensures states[n].mem == Effect(states[0].mem, block, rs[..n])
  {
    if n > 0 {
      RunUntilFailure(page, block, rs, statuses, states, n - 1);
      OneServed(page, block, rs[n - 1], states[n - 1], statuses[n - 1], states[n]);
      assert rs[..n][..n - 1] == rs[..n - 1];
    }
    if n < |rs| {
      OneServed(page, block, rs[n], states[n], statuses[n], states[n + 1]);
    }
  }

  /** What one request means for the stored bytes. */
  ghost function Meaning(m: seq<Byte>, block: nat, r: Request): (m': seq<Byte>)
    requires block > 0
    ensures |m'| == |m|
  {
    match r
    case Write(a, d) => if a + |d| <= |m| then Flat(m, a, d, CLEAR_BITS) else m
    case EraseBlock(a) => Erased(m, block, a)
  }

  ghost function Effect(m: seq<Byte>, block: nat, rs: seq<Request>): (m': seq<Byte>)
    requires block > 0
    ensures |m'| == |m|
    decreases |rs|
  {
    if rs == [] then m else Meaning(Effect(m, block, rs[..|rs| - 1]), block, rs[|rs| - 1])
  }

  lemma EndOfPage(page: nat, addr: nat, end: nat)
    requires page > 0 && end % page == 0 && addr < end <= addr + page
    ensures end - addr == page - addr % page
  {
    var e := end / page;
    assert end == e * page && (e - 1) * page == e * page - page;
    var r := addr - (end - page);
    QuotientIsUnique(addr, page, e - 1, r);
    assert addr == (e - 1) * page + addr % page;
  }
}
