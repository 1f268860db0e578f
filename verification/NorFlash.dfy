/** A serial NOR flash.  Programming can only clear bits and wraps inside a page; program and
    erase are ignored unless the write-enable latch is set and no operation is in progress;
    the latch drops when the operation completes. */
module NorFlash {
  import opened Geometry
  import opened Paging
  import opened Bus

  const SR_WIP: bv8 := 1
  const SR_WREN: bv8 := 2
  const ERASED: Byte := 0xFF

  const CLEAR_BITS: Cell := (o, n) => o & n

  /** sent counts program commands by chunk; ignored counts program and erase commands that
      arrived while the device would not take them. */
  datatype Flash = Flash(
    mem: seq<Byte>, wel: bool, wip: bool,
    sent: seq<Chunk>, ignored: nat, faults: nat -> Fault, clock: nat)

  function Status(d: Flash): bv8 {
    (if d.wip then SR_WIP else 0) | (if d.wel then SR_WREN else 0)
  }

  function WriteEnable(d: Flash): Flash {
    if d.wip then d else d.(wel := true)
  }

  function Program(d: Flash, page: nat, addr: nat, data: seq<Byte>): Flash
    requires page > 0 && |d.mem| % page == 0 && (data != [] ==> addr < |d.mem|)
  {
    var e := d.(sent := d.sent + [Chunk(addr, |data|)]);
    if d.wel && !d.wip then e.(mem := Burst(d.mem, page, addr, data, CLEAR_BITS), wip := true)
    else e.(ignored := d.ignored + 1)
  }

  /** All cells of the block that contains addr set to ones. */
  function Erased(m: seq<Byte>, block: nat, addr: nat): (r: seq<Byte>)
    requires block > 0
    ensures |r| == |m|
  {
    seq(|m|, i requires 0 <= i < |m| => if i / block == addr / block then ERASED else m[i])
  }

  /** The block of an address is the aligned stretch of cells around it: all of it is set to ones,
      and nothing else changes. */
  lemma ErasedBlock(m: seq<Byte>, block: nat, first: nat, addr: nat, i: nat)
    requires block > 0 && first % block == 0 && first <= addr < first + block && i < |m|
    ensures Erased(m, block, addr)[i] == if first <= i < first + block then 0xFF else m[i]
  {
    var k := first / block;
    assert first == k * block;
    QuotientIsUnique(addr, block, k, addr - first);
    var q := i / block;
    assert i == q * block + i % block;
    if first <= i < first + block {
      QuotientIsUnique(i, block, k, i - first);
    }
  }

  function Erase(d: Flash, block: nat, addr: nat): Flash
    requires block > 0
  {
    if d.wel && !d.wip then d.(mem := Erased(d.mem, block, addr), wip := true)
    else d.(ignored := d.ignored + 1)
  }

  /** Time passes until the operation in progress is complete. */
  function Settle(d: Flash): Flash {
    if d.wip then d.(wip := false, wel := false) else d
  }

  lemma StatusBits(d: Flash)
    ensures (Status(d) & SR_WREN == SR_WREN) == d.wel
    ensures (Status(d) & SR_WIP == 0) == !d.wip
  {
  }

  // ---- what programming means for the stored bytes ----

  lemma ClearBitsFacts(a: Byte, b: Byte)
    ensures ERASED & b == b
    ensures a & b == b & a
    ensures a & a == a
  {
  }

  /** Programming stores the data faithfully exactly where no bit has to be set: every data
      byte must be covered by the byte already there. */
  lemma ProgramReadsBack(m: seq<Byte>, addr: nat, data: seq<Byte>)
    requires addr + |data| <= |m|
    ensures Flat(m, addr, data, CLEAR_BITS)[addr..addr + |data|] == data
      <==> forall i :: 0 <= i < |data| ==> m[addr + i] & data[i] == data[i]
  {
    var r := Flat(m, addr, data, CLEAR_BITS)[addr..addr + |data|];
    forall i | 0 <= i < |data|
      ensures r[i] == m[addr + i] & data[i]
    {
      ClearedByte(m, addr, data, i);
    }
    hide Flat;
    if forall i :: 0 <= i < |data| ==> m[addr + i] & data[i] == data[i] {
      assert r == data;
    }
    if r == data {
      assert forall i :: 0 <= i < |data| ==> data[i] == m[addr + i] & data[i];
    }
  }

  lemma ClearedByte(m: seq<Byte>, addr: nat, data: seq<Byte>, i: nat)
    requires addr + |data| <= |m| && i < |data|
    ensures Flat(m, addr, data, CLEAR_BITS)[addr..addr + |data|][i] == m[addr + i] & data[i]
  {
  }

  /** Erasing a list of blocks one after the other. */
  function EraseAll(m: seq<Byte>, block: nat, addrs: seq<nat>): (r: seq<Byte>)
    requires block > 0
    ensures |r| == |m|
    decreases |addrs|
  {
    if addrs == [] then m else Erased(EraseAll(m, block, addrs[..|addrs| - 1]), block, addrs[|addrs| - 1])
  }

  predicate BlockListed(block: nat, addrs: seq<nat>, i: nat)
    requires block > 0
  {
    exists k :: 0 <= k < |addrs| && addrs[k] / block == i / block
  }

  lemma {:induction false} EraseAllCells(m: seq<Byte>, block: nat, addrs: seq<nat>, i: nat)
    requires block > 0 && i < |m|
    ensures EraseAll(m, block, addrs)[i] == if BlockListed(block, addrs, i) then ERASED else m[i]
    decreases |addrs|
  {
    if addrs != [] {
      var n := |addrs| - 1;
      EraseAllCells(m, block, addrs[..n], i);
      if k :| 0 <= k < |addrs| && addrs[k] / block == i / block {
        assert k < n ==> addrs[..n][k] / block == i / block;
      }
      if k :| 0 <= k < n && addrs[..n][k] / block == i / block {
        assert addrs[k] / block == i / block;
      }
    }
  }

  /** Erase every block a range touches, program the range, read it: the data comes back,
      and no byte outside the erased blocks has changed. */
  lemma EraseProgramRead(m: seq<Byte>, block: nat, addrs: seq<nat>, addr: nat, data: seq<Byte>)
    requires block > 0 && addr + |data| <= |m|
    requires forall i :: addr <= i < addr + |data| ==> BlockListed(block, addrs, i)
    ensures var r := Flat(EraseAll(m, block, addrs), addr, data, CLEAR_BITS);
      && r[addr..addr + |data|] == data
      && forall i :: 0 <= i < |m| && !BlockListed(block, addrs, i) ==> r[i] == m[i]
  {
    var e := EraseAll(m, block, addrs);
    forall i | 0 <= i < |data|
      ensures e[addr + i] & data[i] == data[i]
    {
      EraseAllCells(m, block, addrs, addr + i);
      ClearBitsFacts(e[addr + i], data[i]);
    }
    ProgramReadsBack(e, addr, data);
    forall i | 0 <= i < |m| && !BlockListed(block, addrs, i)
      ensures Flat(e, addr, data, CLEAR_BITS)[i] == m[i]
    {
      EraseAllCells(m, block, addrs, i);
    }
  }

  // ---- why the device has to be ready ----

  /** The next n transfers and waits go well. */
  ghost predicate AllGood(d: Flash, n: int) {
    GoodFrom(d.faults, d.clock, n)
  }

  /** The device after the four steps of one page of a write, all of them going well: enable,
      wait for the latch, program, wait for the end. */
  function PageWrite(d: Flash, page: nat, addr: nat, data: seq<Byte>): Flash
    requires page > 0 && |d.mem| % page == 0 && (data != [] ==> addr < |d.mem|)
  {
    Settle(Program(WriteEnable(d), page, addr, data))
  }

  /** The command is taken if and only if no operation was in progress at the start.  A device
      still busy with its latch set answers the wait for the latch at once, then drops the
      page, and nothing in the four steps reports it. */
  lemma PageTakenIffReady(d: Flash, page: nat, addr: nat, data: seq<Byte>)
    requires page > 0 && |d.mem| % page == 0 && (data != [] ==> addr < |d.mem|)
    ensures var e := PageWrite(d, page, addr, data);
      && !e.wip
      && (e.ignored == d.ignored <==> !d.wip)
      && (!d.wip ==> e.mem == Burst(d.mem, page, addr, data, CLEAR_BITS))
      && (d.wip ==> e.mem == d.mem && e.ignored == d.ignored + 1)
      && (d.wip && d.wel ==> Status(WriteEnable(d)) & SR_WREN == SR_WREN)
  {
    StatusBits(WriteEnable(d));
  }
}
