/** A range of bytes being written page by page: what is true between two page writes, and
    what is left behind when one of them fails.  Both memory drivers are proved with it. */
module PagedJob {
  import opened Geometry
  import opened Paging

  /** The memory and the log of page writes a job started from, and what to write where. */
  datatype Job = Job(mem: seq<Byte>, log: seq<Chunk>, addr: nat, data: seq<Byte>, cell: Cell)

  ghost predicate Sound(page: nat, mem: seq<Byte>, j: Job) {
    0 < page && |mem| % page == 0 && |mem| == |j.mem| && j.addr + |j.data| <= |j.mem|
  }

  /** The memory holds the first done bytes of the job, and done stops at a page boundary or
      covers the whole job. */
  ghost predicate WrittenUpTo(page: nat, mem: seq<Byte>, j: Job, done: nat)
    requires Sound(page, mem, j)
  {
    && done <= |j.data|
    && mem == Flat(j.mem, j.addr, j.data[..done], j.cell)
    && (done == 0 || done == |j.data| || (j.addr + done) % page == 0)
  }

  /** done bytes of the job are in the memory, and the page writes still to come complete
      the plan. */
  ghost predicate Progress(page: nat, mem: seq<Byte>, log: seq<Chunk>, j: Job, done: nat) {
    && Sound(page, mem, j) && WrittenUpTo(page, mem, j, done) && j.log <= log
    && log + Plan(page, j.addr + done, |j.data| - done) == j.log + Plan(page, j.addr, |j.data|)
  }

  /** The job was given up with done bytes in the memory: either every page write sent has been
      stored, or every one but the last. */
  ghost predicate StoppedAt(page: nat, mem: seq<Byte>, log: seq<Chunk>, j: Job, done: nat) {
    || Progress(page, mem, log, j, done)
    || (page > 0 && done < |j.data| && log != [] && Progress(page, mem, log[..|log| - 1], j, done)
        && log[|log| - 1] == Chunk(j.addr + done, Min(|j.data| - done, page - (j.addr + done) % page)))
  }

  ghost predicate Stopped(page: nat, mem: seq<Byte>, log: seq<Chunk>, j: Job) {
    exists done: nat :: StoppedAt(page, mem, log, j, done)
  }

  lemma JobFits(page: nat, mem: seq<Byte>, log: seq<Chunk>, j: Job, done: nat)
    requires Progress(page, mem, log, j, done)
    ensures Sound(page, mem, j) && done <= |j.data|
  {
  }

  lemma StopsStored(page: nat, mem: seq<Byte>, log: seq<Chunk>, j: Job, done: nat)
    requires Progress(page, mem, log, j, done)
    ensures Stopped(page, mem, log, j)
  {
    assert StoppedAt(page, mem, log, j, done);
  }

  lemma StopsUnstored(page: nat, mem: seq<Byte>, log: seq<Chunk>, j: Job, done: nat, len: nat)
    requires Progress(page, mem, log, j, done)
    requires 0 < len == Min(|j.data| - done, page - (j.addr + done) % page)
    ensures Stopped(page, mem, log + [Chunk(j.addr + done, len)], j)
  {
    var sent := log + [Chunk(j.addr + done, len)];
    assert sent[..|sent| - 1] == log;
    assert StoppedAt(page, mem, sent, j, done);
  }

  lemma ChunkStored(page: nat, mem: seq<Byte>, log: seq<Chunk>, j: Job, done: nat, len: nat)
    requires Progress(page, mem, log, j, done)
    requires 0 < len == Min(|j.data| - done, page - (j.addr + done) % page)
    ensures Progress(page, Burst(mem, page, j.addr + done, j.data[done..done + len], j.cell),
                     log + [Chunk(j.addr + done, len)], j, done + len)
  {
    hide Plan, Burst, WrittenUpTo;
    ChunkInMemory(page, mem, j, done, len);
    ChunkInLog(page, log, j, done, len);
  }

  /** One page write takes the job from one chunk boundary to the next, or stops it at either. */
  lemma ChunkWritten(page: nat, mem: seq<Byte>, log: seq<Chunk>, mem': seq<Byte>, log': seq<Chunk>,
                     j: Job, done: nat, len: nat)
    requires Progress(page, mem, log, j, done)
    requires 0 < len == Min(|j.data| - done, page - (j.addr + done) % page)
    ensures var sent := log + [Chunk(j.addr + done, len)];
      var burst := Burst(mem, page, j.addr + done, j.data[done..done + len], j.cell);
      && (mem' == burst && log' == sent ==> Progress(page, mem', log', j, done + len))
      && ((mem' == burst && log' == sent) || (mem' == mem && (log' == sent || log' == log)) ==>
            Stopped(page, mem', log', j))
  {
    hide Stopped, Burst, Plan, WrittenUpTo, Flat;
    ChunkEnds(page, mem, log, j, done, len);
  }

  lemma ChunkEnds(page: nat, mem: seq<Byte>, log: seq<Chunk>, j: Job, done: nat, len: nat)
    requires Progress(page, mem, log, j, done)
    requires 0 < len == Min(|j.data| - done, page - (j.addr + done) % page)
    ensures var sent := log + [Chunk(j.addr + done, len)];
      var burst := Burst(mem, page, j.addr + done, j.data[done..done + len], j.cell);
      && Progress(page, burst, sent, j, done + len) && Stopped(page, burst, sent, j)
      && Stopped(page, mem, sent, j) && Stopped(page, mem, log, j)
  {
    hide Stopped, Burst, Plan, WrittenUpTo, Flat;
    ChunkStored(page, mem, log, j, done, len);
    StopsStored(page, mem, log, j, done);
    StopsUnstored(page, mem, log, j, done, len);
    var sent := log + [Chunk(j.addr + done, len)];
    var burst := Burst(mem, page, j.addr + done, j.data[done..done + len], j.cell);
    StopsStored(page, burst, sent, j, done + len);
  }

  lemma ChunkInLog(page: nat, log: seq<Chunk>, j: Job, done: nat, len: nat)
    requires page > 0 && done <= |j.data| && j.log <= log
    requires log + Plan(page, j.addr + done, |j.data| - done) == j.log + Plan(page, j.addr, |j.data|)
    requires 0 < len == Min(|j.data| - done, page - (j.addr + done) % page)
    ensures var sent := log + [Chunk(j.addr + done, len)];
      && sent + Plan(page, j.addr + (done + len), |j.data| - (done + len)) == j.log + Plan(page, j.addr, |j.data|)
      && j.log <= sent <= j.log + Plan(page, j.addr, |j.data|)
  {
    var at := j.addr + done;
    PlanHead(page, at, |j.data| - done);
    LogGrows(log, Chunk(at, len), Plan(page, at + len, |j.data| - done - len));
  }

  lemma ChunkInMemory(page: nat, mem: seq<Byte>, j: Job, done: nat, len: nat)
    requires Sound(page, mem, j) && WrittenUpTo(page, mem, j, done)
    requires 0 < len == Min(|j.data| - done, page - (j.addr + done) % page)
    ensures WrittenUpTo(page, Burst(mem, page, j.addr + done, j.data[done..done + len], j.cell), j, done + len)
  {
    hide Flat, Burst;
    var at, bytes := j.addr + done, j.data[done..done + len];
    BurstInPageIsFlat(mem, page, at, bytes, j.cell);
    FlatThen(j.mem, j.addr, j.data[..done], bytes, j.cell);
    assert j.data[..done] + bytes == j.data[..done + len];
    PageOf(page, at, len);
  }

  lemma LogGrows(log: seq<Chunk>, c: Chunk, rest: seq<Chunk>)
    ensures log + ([c] + rest) == (log + [c]) + rest
  {
  }

  lemma JobStarts(page: nat, j: Job)
    requires Sound(page, j.mem, j)
    ensures Progress(page, j.mem, j.log, j, 0)
  {
    assert j.data[..0] == [];
    assert Flat(j.mem, j.addr, [], j.cell) == j.mem;
  }

  lemma JobDone(page: nat, mem: seq<Byte>, log: seq<Chunk>, j: Job)
    requires Progress(page, mem, log, j, |j.data|)
    ensures mem == Flat(j.mem, j.addr, j.data, j.cell) && log == j.log + Plan(page, j.addr, |j.data|)
  {
    assert j.data[..|j.data|] == j.data;
  }

  // ---- what a given-up job has left behind, in chunks ----

  function BytesIn(cs: seq<Chunk>): nat {
    if cs == [] then 0 else cs[0].len + BytesIn(cs[1..])
  }

  lemma {:induction false} BytesInParts(a: seq<Chunk>, b: seq<Chunk>)
    ensures BytesIn(a + b) == BytesIn(a) + BytesIn(b)
  {
    if a == [] {
      assert a + b == b;
    } else {
      BytesInParts(a[1..], b);
      assert (a + b)[1..] == a[1..] + b;
    }
  }

  lemma {:induction false} BytesInPlan(page: nat, addr: nat, n: nat)
    requires page > 0
    ensures BytesIn(Plan(page, addr, n)) == n
    decreases n
  {
    if n > 0 {
      hide Plan;
      PlanHead(page, addr, n);
      var len := Min(n, page - addr % page);
      BytesInPlan(page, addr + len, n - len);
      assert Plan(page, addr, n)[1..] == Plan(page, addr + len, n - len);
    }
  }

  lemma PartsOfPlan(start: seq<Chunk>, plan: seq<Chunk>, log: seq<Chunk>, rest: seq<Chunk>)
    requires start <= log && log + rest == start + plan
    ensures var k := |log| - |start|;
      k <= |plan| && log == start + plan[..k] && plan == plan[..k] + rest
  {
    assert (start + plan)[|log|..] == rest && (start + plan)[..|log|] == log;
  }

  lemma ProgressInChunks(page: nat, mem: seq<Byte>, log: seq<Chunk>, j: Job, done: nat)
    requires Progress(page, mem, log, j, done)
    ensures var plan, k := Plan(page, j.addr, |j.data|), |log| - |j.log|;
      && 0 <= k <= |plan| && log == j.log + plan[..k] && done == BytesIn(plan[..k])
      && mem == Flat(j.mem, j.addr, j.data[..done], j.cell)
  {
    var plan, k := Plan(page, j.addr, |j.data|), |log| - |j.log|;
    var rest := Plan(page, j.addr + done, |j.data| - done);
    PartsOfPlan(j.log, plan, log, rest);
    hide Plan, Flat;
    BytesInParts(plan[..k], rest);
    BytesInPlan(page, j.addr, |j.data|);
    BytesInPlan(page, j.addr + done, |j.data| - done);
  }

  /** With k page writes sent, they are the first k of the plan, and the memory holds the data of
      the first k of them or of the first k - 1. */
  lemma StoppedInChunks(page: nat, mem: seq<Byte>, log: seq<Chunk>, j: Job) returns (done: nat)
    requires page > 0 && Stopped(page, mem, log, j)
    ensures j.log <= log <= j.log + Plan(page, j.addr, |j.data|)
    ensures var plan, k := Plan(page, j.addr, |j.data|), |log| - |j.log|;
      done == BytesIn(plan[..k]) || (k > 0 && done == BytesIn(plan[..k - 1]))
    ensures done <= |j.data| && j.addr + |j.data| <= |j.mem|
    ensures mem == Flat(j.mem, j.addr, j.data[..done], j.cell)
  {
    done :| StoppedAt(page, mem, log, j, done);
    if Progress(page, mem, log, j, done) {
      ProgressInChunks(page, mem, log, j, done);
    } else {
      LastUnstored(page, mem, log, j, done);
    }
  }

  lemma LastUnstored(page: nat, mem: seq<Byte>, log: seq<Chunk>, j: Job, done: nat)
    requires page > 0 && StoppedAt(page, mem, log, j, done) && !Progress(page, mem, log, j, done)
    ensures done <= |j.data| && j.addr + |j.data| <= |j.mem|
    ensures j.log <= log <= j.log + Plan(page, j.addr, |j.data|)
    ensures |log| > |j.log| && done == BytesIn(Plan(page, j.addr, |j.data|)[..|log| - |j.log| - 1])
    ensures mem == Flat(j.mem, j.addr, j.data[..done], j.cell)
  {
    var before, len := log[..|log| - 1], Min(|j.data| - done, page - (j.addr + done) % page);
    assert log == before + [Chunk(j.addr + done, len)];
    ProgressInChunks(page, mem, before, j, done);
    ChunkStored(page, mem, before, j, done, len);
    hide Flat, Plan, BytesIn, Burst, WrittenUpTo;
  }
}
