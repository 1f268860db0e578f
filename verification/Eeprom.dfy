/** The I2C EEPROM driver over a device that wraps a write at the end of its page. */
module Eeprom {
  import opened Bus
  import opened CInt
  import opened Geometry
  import opened Paging
  import opened PagedJob

  const EEPROM_OK := 0
  const EEPROM_FAIL := 1
  const EEPROM_TIMEOUT := 2
  const EEPROM_MAX_SIZE := 0x2000
  const EEPROM_PAGESIZE := 4

  /** The device: its cells, the page writes it was sent and the future of the bus. */
  datatype Device = Device(mem: seq<Byte>, log: seq<Chunk>, faults: nat -> Fault, clock: nat)

  const OVERWRITE: Cell := (o, n) => n

  function Splice(m: seq<Byte>, addr: nat, data: seq<Byte>): seq<Byte>
    requires addr + |data| <= |m|
  {
    m[..addr] + data + m[addr + |data|..]
  }

  lemma FlatIsSplice(m: seq<Byte>, addr: nat, data: seq<Byte>)
    requires addr + |data| <= |m|
    ensures Flat(m, addr, data, OVERWRITE) == Splice(m, addr, data)
  {
  }

  /** Reading back a spliced range gives the data; everything else is as before. */
  lemma SpliceReadsBack(m: seq<Byte>, addr: nat, data: seq<Byte>)
    requires addr + |data| <= |m|
    ensures Splice(m, addr, data)[addr..addr + |data|] == data
    ensures forall i :: 0 <= i < |m| && !(addr <= i < addr + |data|) ==> Splice(m, addr, data)[i] == m[i]
  {
  }

  /** The next n transfers and waits go well. */
  ghost predicate AllGood(d: Device, n: int) {
    GoodFrom(d.faults, d.clock, n)
  }

  /** Since start the device has been sent page writes only, two steps each. */
  ghost predicate Since(start: Device, d: Device) {
    && d.faults == start.faults && |start.log| <= |d.log|
    && d.clock == start.clock + 2 * (|d.log| - |start.log|)
  }

  /** And all of those steps went well, or some step did not. */
  ghost predicate Smooth(start: Device, d: Device) {
    Since(start, d) && AllGood(start, 2 * (|d.log| - |start.log|))
  }

  ghost predicate Rough(start: Device, d: Device) {
    Since(start, d) && !AllGood(start, 2 * (|d.log| - |start.log|))
  }

  lemma OnePageOn(start: Device, d: Device, e: Device)
    requires Smooth(start, d) && e.faults == d.faults && e.clock == d.clock + 2 && |e.log| == |d.log| + 1
    ensures if AllGood(d, 2) then Smooth(start, e) else Rough(start, e)
  {
    if !AllGood(d, 2) {
      var k :| d.clock <= k < d.clock + 2 && d.faults(k) != Good;
      assert start.faults(k) != Good;
    }
  }

  lemma TooRough(start: Device, d: Device, n: nat)
    requires Rough(start, d) && |d.log| - |start.log| <= n
    ensures !AllGood(start, 2 * n)
  {
    var k :| start.clock <= k < d.clock && start.faults(k) != Good;
    assert k < start.clock + 2 * n;
  }

  class Driver {
    const page: nat
    var dev: Device
    var dataWrite: int
    var dataRead: int
    var timeouts: nat

    ghost predicate Valid()
      reads this
    {
      0 < page < 0x100 && |dev.mem| % page == 0 && |dev.mem| <= EEPROM_MAX_SIZE
    }

    /** The board's EEPROM, with any contents and any future of the bus. */
    constructor (mem: seq<Byte>, faults: nat -> Fault)
      requires |mem| == EEPROM_MAX_SIZE
      ensures Valid() && page == EEPROM_PAGESIZE && dev == Device(mem, [], faults, 0)
    {
      page := EEPROM_PAGESIZE;
      dev := Device(mem, [], faults, 0);
      dataWrite, dataRead, timeouts := 0, 0, 0;
    }

    method IoWriteData(addr: nat, data: seq<Byte>) returns (ok: bool)
      requires Valid() && (data != [] ==> addr < |dev.mem|)
      modifies this`dev
      ensures Valid() && dev.log == old(dev.log) + [Chunk(addr, |data|)]
      ensures dev.faults == old(dev.faults) && dev.clock == old(dev.clock) + 1
      ensures ok <==> AllGood(old(dev), 1)
      ensures ok ==> dev.mem == Burst(old(dev.mem), page, addr, data, OVERWRITE)
      ensures dev.mem == old(dev.mem) || dev.mem == Burst(old(dev.mem), page, addr, data, OVERWRITE)
    {
      var fault := dev.faults(dev.clock);
      var mem := if fault == Lost then dev.mem else Burst(dev.mem, page, addr, data, OVERWRITE);
      dev := Device(mem, dev.log + [Chunk(addr, |data|)], dev.faults, dev.clock + 1);
      ok := fault == Good;
    }

    method IoIsDeviceReady() returns (ok: bool)
      modifies this`dev
      ensures dev == old(dev).(clock := old(dev.clock) + 1)
      ensures ok <==> AllGood(old(dev), 1)
    {
      ok := dev.faults(dev.clock) == Good;
      dev := dev.(clock := dev.clock + 1);
    }

    method WaitEepromStandbyState() returns (status: int)
      modifies this`dev, this`timeouts
      ensures dev == old(dev).(clock := old(dev.clock) + 1)
      ensures status == if AllGood(old(dev), 1) then EEPROM_OK else EEPROM_TIMEOUT
      ensures timeouts == old(timeouts) + if AllGood(old(dev), 1) then 0 else 1
    {
      var ready := IoIsDeviceReady();
      if !ready {
        timeouts := timeouts + 1;
        return EEPROM_TIMEOUT;
      }
      return EEPROM_OK;
    }

    /** Writes inside one page.  Nothing here checks that the bytes stay inside it.  It succeeds
        exactly when both the transfer and the wait after it go well, and reports each of the two
        that does not. */
    method WritePage(buffer: seq<Byte>, writeAddr: nat) returns (status: int)
      requires Valid() && |buffer| < 0x100 && (buffer != [] ==> writeAddr < |dev.mem|)
      modifies this`dev, this`dataWrite, this`timeouts
      ensures Valid() && dataWrite == |buffer|
      ensures status == if AllGood(old(dev), 2) then EEPROM_OK else EEPROM_FAIL
      ensures timeouts == old(timeouts) + (if old(dev.faults(dev.clock)) == Good then 0 else 1)
                                        + (if old(dev.faults(dev.clock + 1)) == Good then 0 else 1)
      ensures dev.faults == old(dev.faults) && dev.clock == old(dev.clock) + 2
      ensures dev.log == old(dev.log) + [Chunk(writeAddr, |buffer|)]
      ensures status == EEPROM_OK ==> dev.mem == Burst(old(dev.mem), page, writeAddr, buffer, OVERWRITE)
      ensures dev.mem == old(dev.mem) || dev.mem == Burst(old(dev.mem), page, writeAddr, buffer, OVERWRITE)
    {
      status := EEPROM_OK;
      dataWrite := |buffer|;
      var written := IoWriteData(writeAddr, buffer);
      if !written {
        timeouts := timeouts + 1;
        status := EEPROM_FAIL;
      }
      var standby := WaitEepromStandbyState();
      if standby != EEPROM_OK {
        return EEPROM_FAIL;
      }
    }

    /** One page write of WriteBuffer: the next chunk of the plan. */
    method WriteChunk(ghost before: Device, ghost j: Job, data: seq<Byte>, pBuffer: nat, writeAddr: nat, len: int)
      returns (status: int)
      requires Valid() && j.cell == OVERWRITE && Smooth(before, dev)
      requires Progress(page, dev.mem, dev.log, j, pBuffer) && data == j.data && writeAddr == j.addr + pBuffer
      requires pBuffer < |data| && 0 < len == Min(|data| - pBuffer, page - writeAddr % page)
      modifies this`dev, this`dataWrite, this`timeouts
      ensures Valid() && (status == EEPROM_OK || status == EEPROM_FAIL)
      ensures if status == EEPROM_OK then Smooth(before, dev) else Rough(before, dev)
      ensures status == EEPROM_OK ==> Progress(page, dev.mem, dev.log, j, pBuffer + len)
      ensures status != EEPROM_OK ==> Stopped(page, dev.mem, dev.log, j)
    {
      hide Progress, Stopped, Smooth, Rough;
      JobFits(page, dev.mem, dev.log, j, pBuffer);
      status := WritePage(data[pBuffer..pBuffer + len], writeAddr);
      ChunkWritten(page, old(dev.mem), old(dev.log), dev.mem, dev.log, j, pBuffer, len);
      OnePageOn(before, old(dev), dev);
    }

    /** Whole pages, then what is left over: the part both branches of WriteBuffer share. */
    method WritePages(ghost before: Device, ghost j: Job, data: seq<Byte>, start: nat, firstAddr: nat, pages: nat,
                      single: nat)
      returns (status: int)
      requires Valid() && j.cell == OVERWRITE && Smooth(before, dev)
      requires Progress(page, dev.mem, dev.log, j, start) && data == j.data
      requires firstAddr == j.addr + start && firstAddr % page == 0
      requires |data| - start == PagesAndRest(page, pages, single) && single < page && pages < 0x1_0000
      requires firstAddr + |data| - start <= EEPROM_MAX_SIZE
      modifies this`dev, this`dataWrite, this`timeouts
      ensures Valid() && (status == EEPROM_OK || status == EEPROM_FAIL)
      ensures if status == EEPROM_OK then Smooth(before, dev) else Rough(before, dev)
      ensures status == EEPROM_OK ==> Progress(page, dev.mem, dev.log, j, |data|)
      ensures status != EEPROM_OK ==> Stopped(page, dev.mem, dev.log, j)
    {
      hide Progress, Stopped, Smooth, Rough;
      var writeAddr, pBuffer, numofpage := firstAddr, start, pages;
      status := EEPROM_OK;
      while numofpage > 0
        invariant 0 <= numofpage <= pages && status == EEPROM_OK
        invariant 0 <= pBuffer <= |data| && |data| - pBuffer == PagesAndRest(page, numofpage, single)
        invariant writeAddr == j.addr + pBuffer && writeAddr % page == 0
        invariant Valid() && Smooth(before, dev) && Progress(page, dev.mem, dev.log, j, pBuffer)
      {
        NextBoundary(page, writeAddr);
        status := WriteChunk(before, j, data, pBuffer, writeAddr, ToUint8(page));
        if status != EEPROM_OK {
          return;
        }
        writeAddr := ToUint16(writeAddr + page);
        pBuffer := pBuffer + page;
        numofpage := ToUint16(numofpage - 1);
      }
      assert pBuffer + single == |data|;
      if single != 0 {
        status := WriteChunk(before, j, data, pBuffer, writeAddr, ToUint8(single));
      }
    }

    /** Writes a buffer of any size at any address.  It succeeds exactly when every step of every
        page write of the plan goes well.
        On success the memory is the old one with the data spliced in, and the page writes
        sent are exactly the plan (one empty page write when there is nothing to write).
        On failure a page-bounded prefix of the data is in the memory. */
    method WriteBuffer(data: seq<Byte>, writeAddr: nat) returns (status: int)
      requires Valid() && writeAddr + |data| <= |dev.mem|
      modifies this`dev, this`dataWrite, this`timeouts
      ensures status == EEPROM_OK || status == EEPROM_FAIL
      ensures data != [] ==> (status == EEPROM_OK <==> AllGood(old(dev), 2 * |Plan(page, writeAddr, |data|)|))
      ensures data == [] ==> (status == EEPROM_OK <==> AllGood(old(dev), 2))
      ensures Valid() && |dev.mem| == old(|dev.mem|) && Since(old(dev), dev)
      ensures data != [] && status == EEPROM_OK ==>
        && Valid() && dev.mem == Splice(old(dev.mem), writeAddr, data)
        && dev.log == old(dev.log) + Plan(page, writeAddr, |data|)
      ensures data != [] && status != EEPROM_OK ==>
        Stopped(page, dev.mem, dev.log, Job(old(dev.mem), old(dev.log), writeAddr, data, OVERWRITE))
      ensures data == [] ==>
        Valid() && dev.mem == old(dev.mem) && dev.log == old(dev.log) + [Chunk(writeAddr, 0)]
    {
      hide Progress, Stopped;
      if data == [] {
        status := WritePage([], writeAddr);
      } else {
        ghost var before, j := dev, Job(dev.mem, dev.log, writeAddr, data, OVERWRITE);
        JobStarts(page, j);
        status := WriteSome(before, j, data, writeAddr);
        if status == EEPROM_OK {
          JobDone(page, dev.mem, dev.log, j);
          FlatIsSplice(j.mem, writeAddr, data);
        } else {
          var done := StoppedInChunks(page, dev.mem, dev.log, j);
          TooRough(before, dev, |Plan(page, writeAddr, |data|)|);
        }
      }
    }

    /** WriteBuffer for at least one byte.  (With no bytes both of its short branches come
        down to one empty page write.) */
    method WriteSome(ghost before: Device, ghost j: Job, data: seq<Byte>, writeAddr: nat) returns (status: int)
      requires Valid() && j.cell == OVERWRITE && Smooth(before, dev)
      requires Progress(page, dev.mem, dev.log, j, 0) && data == j.data && writeAddr == j.addr
      requires 0 < |data| && writeAddr + |data| <= EEPROM_MAX_SIZE
      modifies this`dev, this`dataWrite, this`timeouts
      ensures Valid() && (status == EEPROM_OK || status == EEPROM_FAIL)
      ensures if status == EEPROM_OK then Smooth(before, dev) else Rough(before, dev)
      ensures status == EEPROM_OK ==> Progress(page, dev.mem, dev.log, j, |data|)
      ensures status != EEPROM_OK ==> Stopped(page, dev.mem, dev.log, j)
    {
      hide Progress, Stopped, Smooth, Rough;
      var n := ToUint16(|data|);
      var addr := writeAddr % page;
      var count := page - addr;
      var numofpage, numofsingle := n / page, n % page;
      DivideByPage(page, n);
      if addr == 0 {
        if numofpage == 0 {
          status := WriteChunk(before, j, data, 0, writeAddr, ToUint8(numofsingle));
        } else {
          status := WritePages(before, j, data, 0, writeAddr, numofpage, numofsingle);
        }
      } else if numofpage == 0 {
        status := WriteUnaligned(before, j, data, writeAddr, n, count, numofsingle);
      } else {
        status := WriteAcross(before, j, data, writeAddr, n, count);
      }
    }

    /** The branch of WriteBuffer for less than a page at an unaligned address. */
    method WriteUnaligned(ghost before: Device, ghost j: Job, data: seq<Byte>, writeAddr: nat, n: nat, count: nat,
                          numofsingle: nat)
      returns (status: int)
      requires Valid() && j.cell == OVERWRITE && Smooth(before, dev)
      requires Progress(page, dev.mem, dev.log, j, 0) && data == j.data && writeAddr == j.addr
      requires n == |data| && 0 < n < page && count == page - writeAddr % page && numofsingle == n
      modifies this`dev, this`dataWrite, this`timeouts
      ensures Valid() && (status == EEPROM_OK || status == EEPROM_FAIL)
      ensures if status == EEPROM_OK then Smooth(before, dev) else Rough(before, dev)
      ensures status == EEPROM_OK ==> Progress(page, dev.mem, dev.log, j, |data|)
      ensures status != EEPROM_OK ==> Stopped(page, dev.mem, dev.log, j)
    {
      hide Progress, Stopped, Smooth, Rough;
      if n > count {
        status := WriteChunk(before, j, data, 0, writeAddr, ToUint8(count));
        if status != EEPROM_OK {
          return;
        }
        PageOf(page, writeAddr, count);
        status := WriteChunk(before, j, data, count, writeAddr + count, ToUint8(n - count));
      } else {
        status := WriteChunk(before, j, data, 0, writeAddr, ToUint8(numofsingle));
      }
    }

    /** The branch of WriteBuffer for a page or more at an unaligned address. */
    method WriteAcross(ghost before: Device, ghost j: Job, data: seq<Byte>, writeAddr: nat, size: nat, count: nat)
      returns (status: int)
      requires Valid() && j.cell == OVERWRITE && Smooth(before, dev)
      requires Progress(page, dev.mem, dev.log, j, 0) && data == j.data && writeAddr == j.addr
      requires size == |data| && page <= size && count == page - writeAddr % page && 0 < page < 0x100
      requires writeAddr + size <= EEPROM_MAX_SIZE
      modifies this`dev, this`dataWrite, this`timeouts
      ensures Valid() && (status == EEPROM_OK || status == EEPROM_FAIL)
      ensures if status == EEPROM_OK then Smooth(before, dev) else Rough(before, dev)
      ensures status == EEPROM_OK ==> Progress(page, dev.mem, dev.log, j, |data|)
      ensures status != EEPROM_OK ==> Stopped(page, dev.mem, dev.log, j)
    {
      hide Progress, Stopped, Smooth, Rough;
      var n := ToUint16(size - count);
      var numofpage, numofsingle := n / page, n % page;
      status := WriteChunk(before, j, data, 0, writeAddr, ToUint8(count));
      if status != EEPROM_OK {
        return;
      }
      PageOf(page, writeAddr, count);
      DivideByPage(page, n);
      status := WritePages(before, j, data, count, ToUint16(writeAddr + count), numofpage, numofsingle);
    }

    /** Reads a buffer; on a failed transfer nothing is promised about the bytes. */
    method ReadBuffer(readAddr: nat, n: nat) returns (status: int, bytes: seq<Byte>)
      requires Valid() && readAddr + n <= |dev.mem|
      modifies this`dev, this`dataRead, this`timeouts
      ensures dataRead == n && dev == old(dev).(clock := old(dev.clock) + 1)
      ensures status == if AllGood(old(dev), 1) then EEPROM_OK else EEPROM_FAIL
      ensures timeouts == old(timeouts) + if AllGood(old(dev), 1) then 0 else 1
      ensures status == EEPROM_OK ==> bytes == dev.mem[readAddr..readAddr + n]
    {
      dataRead := n;
      var ok := dev.faults(dev.clock) == Good;
      dev := dev.(clock := dev.clock + 1);
      if !ok {
        timeouts := timeouts + 1;
        return EEPROM_FAIL, [];
      }
      return EEPROM_OK, dev.mem[readAddr..readAddr + n];
    }
  }
}
