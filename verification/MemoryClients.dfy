/** The two memory drivers seen from outside: store and read back, and the fact that their
    very different loops send the same page writes. */
module MemoryClients {
  import opened Geometry
  import opened Paging
  import opened PagedJob
  import Eeprom
  import Qspi
  import NorFlash
  import Bus
  import FlashJob

  /** Data stored in the EEPROM is read back, and nothing else changes, exactly when every step of
      every page write and of the read goes well. */
  method StoreInEeprom(e: Eeprom.Driver, data: seq<Byte>, addr: nat) returns (ok: bool, bytes: seq<Byte>)
    requires e.Valid() && addr + |data| <= |e.dev.mem|
    modifies e
    ensures var d, n := old(e.dev), 2 * |Plan(e.page, addr, |data|)| + 1;
      data != [] ==> (ok <==> forall k :: d.clock <= k < d.clock + n ==> d.faults(k) == Bus.Good)
    ensures ok ==> bytes == data
    ensures |e.dev.mem| == old(|e.dev.mem|)
    ensures ok ==> forall i :: 0 <= i < |e.dev.mem| && !(addr <= i < addr + |data|) ==>
      e.dev.mem[i] == old(e.dev.mem)[i]
  {
    Eeprom.SpliceReadsBack(e.dev.mem, addr, data);
    var status := e.WriteBuffer(data, addr);
    if status != Eeprom.EEPROM_OK {
      return false, [];
    }
    status, bytes := e.ReadBuffer(addr, |data|);
    ok := status == Eeprom.EEPROM_OK;
  }

  /** Erase a list of blocks, write, read: exactly when every step goes well does this succeed, and
      then the data comes back whenever the blocks cover the range, and every byte outside them is
      untouched. */
  method StoreInFlash(q: Qspi.Driver, blocks: seq<nat>, data: seq<Byte>, addr: nat) returns (ok: bool, bytes: seq<Byte>)
    requires q.Ready() && data != [] && addr + |data| <= |q.dev.mem|
    requires forall k :: 0 <= k < |blocks| ==> blocks[k] < |q.dev.mem|
    requires forall i :: addr <= i < addr + |data| ==> NorFlash.BlockListed(q.block, blocks, i)
    modifies q
    ensures var d, n := old(q.dev), 4 * |blocks| + 5 * |Plan(q.page, addr, |data|)| + 2;
      ok <==> forall k :: d.clock <= k < d.clock + n ==> d.faults(k) == Bus.Good
    ensures q.dev.ignored == old(q.dev.ignored)
    ensures ok ==> q.Ready() && bytes == data
    ensures |q.dev.mem| == old(|q.dev.mem|)
    ensures ok ==> forall i :: 0 <= i < |q.dev.mem| && !NorFlash.BlockListed(q.block, blocks, i) ==>
      q.dev.mem[i] == old(q.dev.mem)[i]
  {
    ok, bytes := false, [];
    ghost var m := q.dev.mem;
    NorFlash.EraseProgramRead(m, q.block, blocks, addr, data);
    var k := 0;
    while k < |blocks|
      invariant 0 <= k <= |blocks| && q.Ready() && q.dev.ignored == old(q.dev.ignored)
      invariant q.dev.faults == old(q.dev).faults && q.dev.clock == old(q.dev).clock + 4 * k
      invariant Bus.GoodFrom(q.dev.faults, old(q.dev).clock, 4 * k)
      invariant |q.dev.mem| == |m| && q.dev.mem == NorFlash.EraseAll(m, q.block, blocks[..k])
    {
      var status := q.EraseOne(blocks[k]);
      if status != Qspi.QspiOk {
        return;
      }
      assert blocks[..k + 1][..k] == blocks[..k];
      k := k + 1;
    }
    assert blocks[..k] == blocks;
    assert data[0..] == data;
    var status := q.Write(data, addr);
    if status != Qspi.QspiOk {
      return;
    }
    status, bytes := q.Read(addr, |data|, seq(|data|, _ => 0));
    ok := status == Qspi.QspiOk;
  }

  /** A page can be lost without any report.  When the wait after the last page of a write is
      lost the write fails, the device is left busy, and the next write succeeds although its
      first page is not stored. */
  method LoseAPage(q: Qspi.Driver, first: seq<Byte>, a: nat, second: seq<Byte>, b: nat)
    returns (firstStatus: Qspi.Status, secondStatus: Qspi.Status)
    requires q.Ready() && first != [] && a + |first| <= |q.dev.mem| && second != [] && b + |second| <= |q.dev.mem|
    requires var n, m := FlashJob.Steps(q.page, first, a), FlashJob.Steps(q.page, second, b);
      && Qspi.LastLost(q.dev, n)
      && forall k :: q.dev.clock + n <= k < q.dev.clock + n + m ==> q.dev.faults(k) == Bus.Good
    modifies q
    ensures firstStatus == Qspi.QspiError && secondStatus == Qspi.QspiOk
    ensures var stored, lost := Flat(old(q.dev.mem), a, first, NorFlash.CLEAR_BITS), Min(|second|, q.page - b % q.page);
      q.dev.mem == Flat(stored, b + lost, second[lost..], NorFlash.CLEAR_BITS)
    ensures q.Ready() && q.dev.ignored == old(q.dev.ignored) + 1
  {
    hide Flat, Plan, FlashJob.Abandoned;
    assert first[0..] == first;
    firstStatus := q.Write(first, a);
    secondStatus := q.Write(second, b);
  }

  /** With the same page size both drivers cut any non-empty range into the same page writes,
      one for each page touched, and no way of cutting it needs fewer. */
  method SameChunks(e: Eeprom.Driver, q: Qspi.Driver, data: seq<Byte>, addr: nat)
    returns (both: bool, ghost sent: seq<Chunk>)
    requires e.Valid() && q.Ready() && e.page == q.page && data != []
    requires addr + |data| <= |e.dev.mem| && addr + |data| <= |q.dev.mem|
    modifies e, q
    ensures var d, f := old(e.dev), old(q.dev);
      both <==> (forall k :: d.clock <= k < d.clock + 2 * |sent| ==> d.faults(k) == Bus.Good)
                && (forall k :: f.clock <= k < f.clock + 5 * |sent| ==> f.faults(k) == Bus.Good)
    ensures both ==> e.dev.log == old(e.dev.log) + sent && q.dev.sent == old(q.dev.sent) + sent
    ensures Splits(e.page, sent, addr, |data|) && |sent| == PagesTouched(e.page, addr, |data|)
    ensures forall cs :: Splits(e.page, cs, addr, |data|) ==> |cs| >= |sent| && (|cs| == |sent| ==> cs == sent)
  {
    sent := Plan(e.page, addr, |data|);
    PlanSplits(e.page, addr, |data|);
    PlanCount(e.page, addr, |data|);
    forall cs | Splits(e.page, cs, addr, |data|)
      ensures |cs| >= |sent| && (|cs| == |sent| ==> cs == sent)
    {
      PlanIsTheMinimum(e.page, cs, addr, |data|);
    }
    var a := e.WriteBuffer(data, addr);
    var b := q.Write(data, addr);
    both := a == Eeprom.EEPROM_OK && b == Qspi.QspiOk;
  }
}
