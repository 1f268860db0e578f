/** A write to the flash in progress: what is true between two pages, when the device was ready
    at the start and when it was still busy with an earlier operation. */
module FlashJob {
  import opened Bus
  import opened Geometry
  import opened Paging
  import opened PagedJob
  import opened NorFlash

  const STEPS_PER_PAGE := 5

  /** The bytes of a write that a device still busy at the start does not take: the first page. */
  function Missed(page: nat, d: Flash, data: seq<Byte>, addr: nat): (n: nat)
    requires page > 0
    ensures n <= |data|
  {
    if d.wip then Min(|data|, page - addr % page) else 0
  }

  /** The part of a write that is carried out, as a job of its own. */
  function Taken(page: nat, d: Flash, data: seq<Byte>, addr: nat): Job
    requires page > 0
  {
    var n := Missed(page, d, data, addr);
    Job(d.mem, d.sent + (if d.wip then [Chunk(addr, n)] else []), addr + n, data[n..], CLEAR_BITS)
  }

  /** The program commands that were ignored: at most one. */
  function Dropped(d: Flash): nat { if d.wip then 1 else 0 }

  ghost predicate Fits(page: nat, d: Flash, data: seq<Byte>, addr: nat) {
    page > 0 && |d.mem| % page == 0 && data != [] && addr + |data| <= |d.mem|
  }

  /** The steps taken so far went well and sent the first chunks of the plan. */
  ghost predicate OnSchedule(page: nat, start: Flash, d: Flash, data: seq<Byte>, addr: nat, done: nat)
    requires page > 0 && done <= |data|
  {
    && d.faults == start.faults && start.sent <= d.sent
    && d.sent + Plan(page, addr + done, |data| - done) == start.sent + Plan(page, addr, |data|)
    && d.clock == start.clock + STEPS_PER_PAGE * (|d.sent| - |start.sent|)
    && AllGood(start, d.clock - start.clock)
  }

  /** The memory holds the first done bytes, but for those the device missed. */
  ghost predicate Carried(page: nat, start: Flash, d: Flash, data: seq<Byte>, addr: nat, done: nat)
    requires page > 0 && done <= |data|
  {
    var n := Missed(page, start, data, addr);
    && n <= done && !d.wip && d.ignored == start.ignored + Dropped(start)
    && Progress(page, d.mem, d.sent, Taken(page, start, data, addr), done - n)
  }

  /** The device d has gone through the pages of the first done bytes, from start. */
  ghost predicate Sending(page: nat, start: Flash, d: Flash, data: seq<Byte>, addr: nat, done: nat) {
    && Fits(page, start, data, addr) && done <= |data|
    && OnSchedule(page, start, d, data, addr, done)
    && (if done == 0 && start.wip then d == start else Carried(page, start, d, data, addr, done))
  }

  /** The write was given up: nothing at all has reached the device, or a page-bounded prefix
      of the part that is carried out. */
  ghost predicate Abandoned(page: nat, start: Flash, d: Flash, data: seq<Byte>, addr: nat) {
    && page > 0
    && ((d.mem == start.mem && d.sent == start.sent && d.ignored == start.ignored)
        || (d.ignored == start.ignored + Dropped(start)
            && Stopped(page, d.mem, d.sent, Taken(page, start, data, addr))))
  }

  lemma SendingStarts(page: nat, start: Flash, data: seq<Byte>, addr: nat)
    requires Fits(page, start, data, addr)
    ensures Sending(page, start, start, data, addr, 0)
  {
    if !start.wip {
      assert data[0..] == data;
      JobStarts(page, Taken(page, start, data, addr));
    }
  }

  /** What the parts of a program command can leave behind when a step fails. */
  ghost predicate Broken(page: nat, d: Flash, d': Flash, addr: nat, chunk: seq<Byte>)
    requires page > 0 && |d.mem| % page == 0 && (chunk != [] ==> addr < |d.mem|)
  {
    var e := Program(WriteEnable(d), page, addr, chunk);
    || (d'.mem == d.mem && d'.sent == d.sent && d'.ignored == d.ignored)
    || (d'.mem == e.mem && d'.sent == e.sent && d'.ignored == e.ignored)
  }

  /** The size of the next page write. */
  function NextLen(page: nat, data: seq<Byte>, addr: nat, done: nat): int
    requires page > 0
  {
    Min(|data| - done, page - (addr + done) % page)
  }

  lemma SendingFits(page: nat, start: Flash, d: Flash, data: seq<Byte>, addr: nat, done: nat)
    requires Sending(page, start, d, data, addr, done)
    ensures |d.mem| == |start.mem|
    ensures done < |data| ==> addr + done < |d.mem| && 0 < NextLen(page, data, addr, done) <= |data| - done
  {
    hide Progress, OnSchedule;
    if done > 0 || !start.wip {
      JobFits(page, d.mem, d.sent, Taken(page, start, data, addr), done - Missed(page, start, data, addr));
    }
  }

  lemma ScheduleStep(page: nat, start: Flash, d: Flash, e: Flash, data: seq<Byte>, addr: nat, done: nat, len: nat)
    requires page > 0 && done < |data| && len == NextLen(page, data, addr, done)
    requires OnSchedule(page, start, d, data, addr, done) && AllGood(d, STEPS_PER_PAGE)
    requires e.faults == d.faults && e.clock == d.clock + STEPS_PER_PAGE && e.sent == d.sent + [Chunk(addr + done, len)]
    ensures OnSchedule(page, start, e, data, addr, done + len)
  {
    PlanHead(page, addr + done, |data| - done);
    hide Plan;
    LogGrows(d.sent, Chunk(addr + done, len), Plan(page, addr + done + len, |data| - done - len));
  }

  /** The first page of a write to a busy device: the command is sent and ignored. */
  lemma MissedPage(page: nat, start: Flash, e: Flash, data: seq<Byte>, addr: nat)
    requires Fits(page, start, data, addr) && start.wip
    requires var n := Missed(page, start, data, addr);
      e.mem == start.mem && !e.wip && e.ignored == start.ignored + 1 && e.sent == start.sent + [Chunk(addr, n)]
    ensures Carried(page, start, e, data, addr, Missed(page, start, data, addr))
  {
    hide Progress;
    JobStarts(page, Taken(page, start, data, addr));
  }

  lemma TakenPart(page: nat, start: Flash, data: seq<Byte>, addr: nat, done: nat, len: nat)
    requires page > 0 && Missed(page, start, data, addr) <= done && done + len <= |data|
    ensures var n, j := Missed(page, start, data, addr), Taken(page, start, data, addr);
      && j.addr == addr + n && |j.data| == |data| - n && j.cell == CLEAR_BITS
      && j.data[done - n..done - n + len] == data[done..done + len]
  {
    var n := Missed(page, start, data, addr);
    PartOfRest(data, n, done, len);
  }

  lemma PartOfRest(data: seq<Byte>, n: nat, from: nat, len: nat)
    requires n <= from && from + len <= |data|
    ensures data[n..][from - n..from - n + len] == data[from..from + len]
  {
  }

  lemma CarriedStep(page: nat, start: Flash, d: Flash, e: Flash, data: seq<Byte>, addr: nat, done: nat, len: nat)
    requires page > 0 && done < |data| && len == NextLen(page, data, addr, done)
    requires Carried(page, start, d, data, addr, done)
    requires addr + done < |d.mem| && |d.mem| % page == 0 && len > 0
    requires e.mem == Burst(d.mem, page, addr + done, data[done..done + len], CLEAR_BITS)
    requires !e.wip && e.ignored == d.ignored && e.sent == d.sent + [Chunk(addr + done, len)]
    ensures Carried(page, start, e, data, addr, done + len)
  {
    hide Progress, Stopped, Burst;
    var n, j := Missed(page, start, data, addr), Taken(page, start, data, addr);
    TakenPart(page, start, data, addr, done, len);
    hide Taken, Missed;
    ChunkWritten(page, d.mem, d.sent, e.mem, e.sent, j, done - n, len);
  }

  /** One more page, when all goes well. */
  lemma SendingStep(page: nat, start: Flash, d: Flash, data: seq<Byte>, addr: nat, done: nat, len: nat)
    requires Sending(page, start, d, data, addr, done) && done < |data| && len == NextLen(page, data, addr, done)
    requires AllGood(d, STEPS_PER_PAGE)
    requires addr + done < |d.mem| && |d.mem| % page == 0
    ensures var e := PageWrite(d, page, addr + done, data[done..done + len]).(clock := d.clock + STEPS_PER_PAGE);
      Sending(page, start, e, data, addr, done + len)
  {
    hide OnSchedule, Carried, Burst;
    var chunk := data[done..done + len];
    SendingFits(page, start, d, data, addr, done);
    var e := PageWrite(d, page, addr + done, chunk).(clock := d.clock + STEPS_PER_PAGE);
    PageTakenIffReady(d, page, addr + done, chunk);
    ScheduleStep(page, start, d, e, data, addr, done, len);
    if done == 0 && start.wip {
      MissedPage(page, start, e, data, addr);
    } else {
      assert !d.wip by { CarriedIdle(page, start, d, data, addr, done); }
      CarriedStep(page, start, d, e, data, addr, done, len);
    }
  }

  lemma CarriedIdle(page: nat, start: Flash, d: Flash, data: seq<Byte>, addr: nat, done: nat)
    requires page > 0 && done <= |data| && Carried(page, start, d, data, addr, done)
    ensures !d.wip
  {
  }

  /** What a write that has been through every page has done. */
  ghost predicate Sent(page: nat, start: Flash, d: Flash, data: seq<Byte>, addr: nat)
    requires Fits(page, start, data, addr)
  {
    var n := Missed(page, start, data, addr);
    && d.faults == start.faults && d.clock == start.clock + Steps(page, data, addr)
    && d.mem == Flat(start.mem, addr + n, data[n..], CLEAR_BITS)
    && d.sent == start.sent + Plan(page, addr, |data|)
    && d.ignored == start.ignored + Dropped(start)
  }

  /** The transfers and waits of a write. */
  function Steps(page: nat, data: seq<Byte>, addr: nat): int
    requires page > 0
  {
    STEPS_PER_PAGE * |Plan(page, addr, |data|)|
  }

  lemma TakenWhole(page: nat, start: Flash, d: Flash, data: seq<Byte>, addr: nat)
    requires Fits(page, start, data, addr) && Carried(page, start, d, data, addr, |data|)
    ensures var n := Missed(page, start, data, addr);
      d.mem == Flat(start.mem, addr + n, data[n..], CLEAR_BITS)
  {
    hide Progress;
    JobDone(page, d.mem, d.sent, Taken(page, start, data, addr));
  }

  lemma SendingDone(page: nat, start: Flash, d: Flash, data: seq<Byte>, addr: nat)
    requires Sending(page, start, d, data, addr, |data|)
    ensures Sent(page, start, d, data, addr) && !d.wip && AllGood(start, Steps(page, data, addr))
  {
    TakenWhole(page, start, d, data, addr);
    hide Progress, AllGood;
    var rest := |data| - |data|;
    assert Plan(page, addr + |data|, rest) == [];
    assert d.sent == start.sent + Plan(page, addr, |data|);
  }

  /** When some step of a page fails, some step of the whole write does; and if that is only the
      very last wait, the page is the last one. */
  lemma StepsLeft(page: nat, start: Flash, d: Flash, data: seq<Byte>, addr: nat, done: nat, len: nat)
    requires page > 0 && done < |data| && len == NextLen(page, data, addr, done)
    requires OnSchedule(page, start, d, data, addr, done)
    ensures var here, all := d.clock - start.clock, Steps(page, data, addr);
      && 0 <= here <= all - STEPS_PER_PAGE
      && (done + len < |data| ==> here + STEPS_PER_PAGE < all)
      && (done + len == |data| ==> here + STEPS_PER_PAGE == all)
  {
    hide AllGood;
    PlanHead(page, addr + done, |data| - done);
    var rest := Plan(page, addr + done + len, |data| - done - len);
    assert |d.sent| + 1 + |rest| == |start.sent| + |Plan(page, addr, |data|)|;
    if done + len < |data| {
      PlanHead(page, addr + done + len, |data| - done - len);
    }
  }

  lemma StoppedAtStart(page: nat, j: Job)
    requires Progress(page, j.mem, j.log, j, 0)
    ensures Stopped(page, j.mem, j.log, j)
  {
    assert StoppedAt(page, j.mem, j.log, j, 0);
  }

  lemma MissedBreaks(page: nat, d: Flash, d': Flash, data: seq<Byte>, addr: nat, len: nat)
    requires Fits(page, d, data, addr) && d.wip && len == Missed(page, d, data, addr) && len > 0
    requires Broken(page, d, d', addr, data[0..len])
    ensures Abandoned(page, d, d', data, addr)
  {
    hide Progress, Stopped, Burst;
    var j := Taken(page, d, data, addr);
    JobStarts(page, j);
    StoppedAtStart(page, j);
  }

  lemma CarriedBreaks(page: nat, start: Flash, d: Flash, d': Flash, data: seq<Byte>, addr: nat, done: nat, len: nat)
    requires page > 0 && done < |data| && len == NextLen(page, data, addr, done) && len > 0
    requires Carried(page, start, d, data, addr, done) && addr + done < |d.mem| && |d.mem| % page == 0
    requires Broken(page, d, d', addr + done, data[done..done + len])
    ensures Abandoned(page, start, d', data, addr)
  {
    hide Progress, Stopped, Burst;
    var n, j := Missed(page, start, data, addr), Taken(page, start, data, addr);
    TakenPart(page, start, data, addr, done, len);
    hide Taken, Missed;
    ChunkWritten(page, d.mem, d.sent, d'.mem, d'.sent, j, done - n, len);
  }

  lemma SendingBreaks(page: nat, start: Flash, d: Flash, d': Flash, data: seq<Byte>, addr: nat, done: nat, len: nat)
    requires Sending(page, start, d, data, addr, done) && done < |data| && len == NextLen(page, data, addr, done)
    requires addr + done < |d.mem| && |d.mem| % page == 0
    requires Broken(page, d, d', addr + done, data[done..done + len])
    ensures Abandoned(page, start, d', data, addr)
  {
    SendingFits(page, start, d, data, addr, done);
    hide OnSchedule, Carried, Abandoned, Broken;
    if done == 0 && start.wip {
      MissedBreaks(page, d, d', data, addr, len);
    } else {
      CarriedBreaks(page, start, d, d', data, addr, done, len);
    }
  }

  /** When only the wait after the last page fails, everything has been done that would have
      been done, but the device is still busy. */
  lemma LastWait(page: nat, start: Flash, d: Flash, data: seq<Byte>, addr: nat, done: nat, len: nat)
    requires Sending(page, start, d, data, addr, done) && len == NextLen(page, data, addr, done)
    requires done < |data| == done + len && addr + done < |d.mem| && |d.mem| % page == 0
    requires d.wip ==> d.wel
    ensures var chunk := data[done..done + len];
      var e := Program(WriteEnable(d), page, addr + done, chunk).(clock := d.clock + STEPS_PER_PAGE);
      Sent(page, start, e, data, addr) && e.wip
  {
    hide Carried, Burst, Progress, AllGood, Plan, Flat;
    var chunk := data[done..done + len];
    SendingFits(page, start, d, data, addr, done);
    StepsLeft(page, start, d, data, addr, done, len);
    var e := PageWrite(d, page, addr + done, chunk).(clock := d.clock + STEPS_PER_PAGE);
    PageTakenIffReady(d, page, addr + done, chunk);
    if done == 0 && start.wip {
      MissedPage(page, start, e, data, addr);
    } else {
      CarriedIdle(page, start, d, data, addr, done);
      CarriedStep(page, start, d, e, data, addr, done, len);
    }
    TakenWhole(page, start, e, data, addr);
    PlanHead(page, addr + done, |data| - done);
    EmptyPlan(page, addr + done + len);
    assert e.sent == start.sent + Plan(page, addr, |data|);
    DroppedSoFar(page, start, e, data, addr);
  }

  lemma EmptyPlan(page: nat, addr: nat)
    requires page > 0
    ensures Plan(page, addr, 0) == []
  {
  }

  lemma DroppedSoFar(page: nat, start: Flash, d: Flash, data: seq<Byte>, addr: nat)
    requires page > 0 && Carried(page, start, d, data, addr, |data|)
    ensures d.ignored == start.ignored + Dropped(start)
  {
  }
}
