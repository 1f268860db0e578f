/** Waiting on sockets: two registration lists, the two descriptor sets handed to select(),
    and one cursor into each list that the get functions move. */
module SocketSelect {

  const CLOSED := -1

  class Socket {
    var handle: int

    constructor (h: int)
      ensures handle == h
    {
      handle := h;
    }
  }

  datatype Mode = Read | Write | ReadWrite

  predicate Distinct(l: seq<Socket>) {
    forall i, j :: 0 <= i < j < |l| ==> l[i] != l[j]
  }

  /** l without s, in the order of l. */
  ghost function Without(l: seq<Socket>, s: Socket): seq<Socket> {
    if l == [] then [] else (if l[0] == s then [] else [l[0]]) + Without(l[1..], s)
  }

  ghost predicate IsReady(s: Socket, fds: set<int>)
    reads s
  {
    s.handle != CLOSED && s.handle in fds
  }

  /** The open sockets of l whose descriptor is in fds, in the order of l. */
  ghost function Ready(l: seq<Socket>, fds: set<int>): seq<Socket>
    reads l
  {
    if l == [] then [] else (if IsReady(l[0], fds) then [l[0]] else []) + Ready(l[1..], fds)
  }

  lemma {:induction false} WithoutMembers(l: seq<Socket>, s: Socket)
    ensures forall t :: t in Without(l, s) <==> t in l && t != s
    ensures s !in l ==> Without(l, s) == l
  {
    if l != [] {
      WithoutMembers(l[1..], s);
      assert l == [l[0]] + l[1..];
    }
  }

  /** Cutting the one occurrence out of a list without duplicates removes the socket. */
  lemma {:induction false} WithoutCuts(l: seq<Socket>, k: nat)
    requires Distinct(l) && k < |l|
    ensures Without(l, l[k]) == l[..k] + l[k + 1..]
    ensures Distinct(l[..k] + l[k + 1..])
  {
    if k == 0 {
      WithoutMembers(l[1..], l[0]);
    } else {
      WithoutCuts(l[1..], k - 1);
      assert l[1..][..k - 1] == l[1..k] && l[1..][k..] == l[k + 1..];
      assert l[..k] + l[k + 1..] == [l[0]] + (l[1..k] + l[k + 1..]);
    }
  }

  /** The list of ready sockets: exactly the ready members, none of them twice. */
  lemma {:induction false} ReadyMembers(l: seq<Socket>, fds: set<int>)
    ensures forall s :: s in Ready(l, fds) <==> s in l && s.handle != -1 && s.handle in fds
    ensures Distinct(l) ==> Distinct(Ready(l, fds))
  {
    if l != [] {
      ReadyMembers(l[1..], fds);
      assert forall s :: s in l <==> s == l[0] || s in l[1..];
    }
  }

  lemma {:induction false} ReadyIsListed(l: seq<Socket>, fds: set<int>)
    ensures forall i :: 0 <= i < |Ready(l, fds)| ==> Ready(l, fds)[i] in l
  {
    if l != [] {
      ReadyIsListed(l[1..], fds);
    }
  }

  /** The elements of sub stand in l in the order they have in sub. */
  ghost predicate InOrder(sub: seq<Socket>, l: seq<Socket>) {
    forall i, j, a, b ::
      0 <= i < j < |sub| && 0 <= a < |l| && 0 <= b < |l| && l[a] == sub[i] && l[b] == sub[j] ==> a < b
  }

  lemma {:induction false} ReadyInOrder(l: seq<Socket>, fds: set<int>)
    requires Distinct(l)
    ensures InOrder(Ready(l, fds), l)
  {
    if l != [] {
      ReadyInOrder(l[1..], fds);
      ReadyIsListed(l[1..], fds);
      OrderShifts(Ready(l[1..], fds), l);
      OrderExtends(Ready(l[1..], fds), l);
    }
  }

  lemma FurtherDown(sub: seq<Socket>, l: seq<Socket>, i: nat, a: nat)
    requires l != [] && Distinct(l) && i < |sub| && a < |l| && sub[i] in l[1..] && l[a] == sub[i]
    ensures a > 0 && l[1..][a - 1] == sub[i]
  {
  }

  lemma OrderShifts(sub: seq<Socket>, l: seq<Socket>)
    requires l != [] && Distinct(l) && InOrder(sub, l[1..]) && forall i :: 0 <= i < |sub| ==> sub[i] in l[1..]
    ensures InOrder(sub, l)
  {
    forall i, j, a, b | 0 <= i < j < |sub| && 0 <= a < |l| && 0 <= b < |l| && l[a] == sub[i] && l[b] == sub[j]
      ensures a < b
    {
      FurtherDown(sub, l, i, a);
      FurtherDown(sub, l, j, b);
    }
  }

  lemma OrderExtends(sub: seq<Socket>, l: seq<Socket>)
    requires l != [] && Distinct(l) && InOrder(sub, l) && forall i :: 0 <= i < |sub| ==> sub[i] in l[1..]
    ensures InOrder([l[0]] + sub, l)
  {
    var all := [l[0]] + sub;
    forall i, j, a, b | 0 <= i < j < |all| && 0 <= a < |l| && 0 <= b < |l| && l[a] == all[i] && l[b] == all[j]
      ensures a < b
    {
      assert all[j] == sub[j - 1];
      FurtherDown(sub, l, j - 1, b);
      if i > 0 {
        assert all[i] == sub[i - 1];
      }
    }
  }

  lemma {:induction false} ReadyDependsOnListed(l: seq<Socket>, a: set<int>, b: set<int>)
    requires forall s :: s in l && s.handle != CLOSED ==> (s.handle in a <==> s.handle in b)
    ensures Ready(l, a) == Ready(l, b)
  {
    if l != [] {
      ReadyDependsOnListed(l[1..], a, b);
    }
  }

  lemma ReadyAt(l: seq<Socket>, k: nat, fds: set<int>)
    requires k <= |l|
    ensures Ready(l[k..], fds)
      == if k == |l| then [] else (if IsReady(l[k], fds) then [l[k]] else []) + Ready(l[k + 1..], fds)
  {
    if k < |l| {
      assert l[k..][1..] == l[k + 1..];
    }
  }

  class Select {
    var readList: seq<Socket>
    var writeList: seq<Socket>
    var readIterator: nat
    var writeIterator: nat
    var readSet: set<int>
    var writeSet: set<int>
    /** The iterators point into the lists as they are now: set by Wait, lost when a list
        changes. */
    ghost var readCurrent: bool
    ghost var writeCurrent: bool

    ghost predicate Valid()
      reads this
    {
      && Distinct(readList) && Distinct(writeList)
      && (readCurrent ==> readIterator <= |readList|)
      && (writeCurrent ==> writeIterator <= |writeList|)
    }

    /** What getReadable still has to return. */
    ghost function PendingReads(): seq<Socket>
      requires Valid() && readCurrent
      reads this, readList
    {
      Ready(readList[readIterator..], readSet)
    }

    ghost function PendingWrites(): seq<Socket>
      requires Valid() && writeCurrent
      reads this, writeList
    {
      Ready(writeList[writeIterator..], writeSet)
    }

    constructor ()
      ensures Valid() && readList == [] && writeList == []
    {
      readList, writeList, readIterator, writeIterator, readSet, writeSet := [], [], 0, 0, {}, {};
      readCurrent, writeCurrent := false, false;
    }

    /** The position of a socket in the read list, or its length: the search loop. */
    method InReadList(s: Socket) returns (entry: nat)
      ensures entry <= |readList|
      ensures entry < |readList| ==> readList[entry] == s
      ensures entry == |readList| <==> s !in readList
    {
      entry := 0;
      while entry < |readList|
        invariant entry <= |readList| && s !in readList[..entry]
      {
        if readList[entry] == s {
          return;
        }
        entry := entry + 1;
      }
    }

    method InWriteList(s: Socket) returns (entry: nat)
      ensures entry <= |writeList|
      ensures entry < |writeList| ==> writeList[entry] == s
      ensures entry == |writeList| <==> s !in writeList
    {
      entry := 0;
      while entry < |writeList|
        invariant entry <= |writeList| && s !in writeList[..entry]
      {
        if writeList[entry] == s {
          return;
        }
        entry := entry + 1;
      }
    }

    method Set(s: Socket, mode: Mode)
      requires Valid()
      modifies this
      ensures Valid()
      ensures readList == if mode == Write || s in old(readList) then old(readList) else old(readList) + [s]
      ensures writeList == if mode == Read || s in old(writeList) then old(writeList) else old(writeList) + [s]
      ensures readCurrent == (old(readCurrent) && readList == old(readList))
      ensures writeCurrent == (old(writeCurrent) && writeList == old(writeList))
      ensures readIterator == old(readIterator) && writeIterator == old(writeIterator)
      ensures readSet == old(readSet) && writeSet == old(writeSet)
      decreases mode == ReadWrite
    {
      match mode {
        case Read =>
          var entry := InReadList(s);
          if entry == |readList| {
            readList := readList + [s];
            readCurrent := false;
          }
        case Write =>
          var entry := InWriteList(s);
          if entry == |writeList| {
            writeList := writeList + [s];
            writeCurrent := false;
          }
        case ReadWrite =>
          Set(s, Read);
          Set(s, Write);
      }
    }

    method Unset(s: Socket, mode: Mode)
      requires Valid()
      modifies this
      ensures Valid()
      ensures readList == if mode == Write then old(readList) else Without(old(readList), s)
      ensures writeList == if mode == Read then old(writeList) else Without(old(writeList), s)
      ensures readCurrent == (old(readCurrent) && (mode == Write || s !in old(readList)))
      ensures writeCurrent == (old(writeCurrent) && (mode == Read || s !in old(writeList)))
      ensures readIterator == old(readIterator) && writeIterator == old(writeIterator)
      ensures readSet == old(readSet) && writeSet == old(writeSet)
      decreases mode == ReadWrite
    {
      match mode {
        case Read =>
          WithoutMembers(readList, s);
          var entry := InReadList(s);
          if entry != |readList| {
            WithoutCuts(readList, entry);
            readList := readList[..entry] + readList[entry + 1..];
            readCurrent := false;
          }
        case Write =>
          WithoutMembers(writeList, s);
          var entry := InWriteList(s);
          if entry != |writeList| {
            WithoutCuts(writeList, entry);
            writeList := writeList[..entry] + writeList[entry + 1..];
            writeCurrent := false;
          }
        case ReadWrite =>
          Unset(s, Read);
          Unset(s, Write);
      }
    }

    method Clear()
      modifies this
      ensures Valid() && readList == [] && writeList == [] && !readCurrent && !writeCurrent
    {
      readList, writeList := [], [];
      readCurrent, writeCurrent := false, false;
    }

    /** The loop Wait runs over either list: collects the descriptors of the open sockets. */
    static method FillSet(l: seq<Socket>, floor: int) returns (fds: set<int>, maxFd: int)
      ensures floor <= maxFd
      ensures maxFd == floor || exists k :: 0 <= k < |l| && l[k].handle == maxFd
      ensures forall s :: s in l && s.handle != CLOSED ==> s.handle in fds && s.handle <= maxFd
    {
      fds, maxFd := {}, floor;
      var entry := 0;
      while entry < |l|
        invariant 0 <= entry <= |l| && floor <= maxFd
        invariant maxFd == floor || exists k :: 0 <= k < entry && l[k].handle == maxFd
        invariant forall s :: s in l[..entry] && s.handle != CLOSED ==> s.handle in fds && s.handle <= maxFd
      {
        var socket := l[entry].handle;
        if socket != CLOSED {
          fds := fds + {socket};
          maxFd := if maxFd > socket then maxFd else socket;
        }
        entry := entry + 1;
      }
    }

    /** Fills both descriptor sets, rewinds both iterators and calls select().  The sets the
        network stack reports as ready, and the value it returns, are parameters.  nfds is
        the first argument of the select() call. */
    method Wait(readyToRead: set<int>, readyToWrite: set<int>, outcome: int) returns (nfds: int, result: int)
      requires Valid()
      modifies this
      ensures Valid() && readCurrent && writeCurrent
      ensures readList == old(readList) && writeList == old(writeList)
      ensures readIterator == 0 && writeIterator == 0
      ensures forall s :: s in readList && s.handle != -1 ==> (s.handle in readSet <==> s.handle in readyToRead)
      ensures forall s :: s in writeList && s.handle != -1 ==> (s.handle in writeSet <==> s.handle in readyToWrite)
      ensures PendingReads() == old(Ready(readList, readyToRead))
      ensures PendingWrites() == old(Ready(writeList, readyToWrite))
      ensures forall s :: s in readList + writeList && s.handle != CLOSED ==> s.handle < nfds
      ensures
        || nfds == 1 || (exists k :: 0 <= k < |readList| && readList[k].handle == nfds - 1)
        || (exists k :: 0 <= k < |writeList| && writeList[k].handle == nfds - 1)
      ensures result == outcome
    {
      hide Distinct, Ready, IsReady;
      var toWrite, toRead, maxFd;
      toWrite, maxFd := FillSet(writeList, 0);
      toRead, maxFd := FillSet(readList, maxFd);
      ReadyDependsOnListed(readList, toRead * readyToRead, readyToRead);
      ReadyDependsOnListed(writeList, toWrite * readyToWrite, readyToWrite);
      assert readList[0..] == readList && writeList[0..] == writeList;
      writeIterator, readIterator := 0, 0;
      readCurrent, writeCurrent := true, true;
      nfds, result := maxFd + 1, outcome;
      readSet, writeSet := toRead * readyToRead, toWrite * readyToWrite;
    }

    /** The first open, ready socket at or after the cursor, which moves past it; null when there is
        none. */
    method GetReadable() returns (s: Socket?)
      requires Valid() && readCurrent
      modifies this`readIterator
      ensures Valid() && readCurrent
      ensures s != null ==> old(readIterator) < readIterator <= |readList| && s == readList[readIterator - 1]
      ensures s != null ==> s.handle != -1 && s.handle in readSet
      ensures s == null ==> readIterator == |readList|
      ensures forall k :: old(readIterator) <= k < (if s == null then |readList| else readIterator - 1) ==>
        !(readList[k].handle != -1 && readList[k].handle in readSet)
      ensures old(PendingReads()) == [] ==> s == null && PendingReads() == []
      ensures old(PendingReads()) != [] ==> s == old(PendingReads())[0] && PendingReads() == old(PendingReads())[1..]
      ensures writeCurrent ==> PendingWrites() == old(PendingWrites())
    {
      hide Distinct, Ready, InOrder;
      if readIterator == |readList| {
        ReadyAt(readList, readIterator, readSet);
        return null;
      }
      while readIterator < |readList|
        invariant readIterator <= |readList|
        invariant PendingReads() == old(PendingReads())
        invariant old(readIterator) <= readIterator
        invariant forall k :: old(readIterator) <= k < readIterator ==>
          !(readList[k].handle != -1 && readList[k].handle in readSet)
      {
        ReadyAt(readList, readIterator, readSet);
        var socket := readList[readIterator].handle;
        if socket != CLOSED && socket in readSet {
          s := readList[readIterator];
          readIterator := readIterator + 1;
          return;
        }
        readIterator := readIterator + 1;
      }
      ReadyAt(readList, readIterator, readSet);
      return null;
    }

    /** The first open, ready socket at or after the cursor, which moves past it; null when there is
        none. */
    method GetWritable() returns (s: Socket?)
      requires Valid() && writeCurrent
      modifies this`writeIterator
      ensures Valid() && writeCurrent
      ensures s != null ==> old(writeIterator) < writeIterator <= |writeList| && s == writeList[writeIterator - 1]
      ensures s != null ==> s.handle != -1 && s.handle in writeSet
      ensures s == null ==> writeIterator == |writeList|
      ensures forall k :: old(writeIterator) <= k < (if s == null then |writeList| else writeIterator - 1) ==>
        !(writeList[k].handle != -1 && writeList[k].handle in writeSet)
      ensures old(PendingWrites()) == [] ==> s == null && PendingWrites() == []
      ensures old(PendingWrites()) != [] ==>
        s == old(PendingWrites())[0] && PendingWrites() == old(PendingWrites())[1..]
    {
      hide Distinct, Ready, InOrder;
      if writeIterator == |writeList| {
        ReadyAt(writeList, writeIterator, writeSet);
        return null;
      }
      while writeIterator < |writeList|
        invariant writeIterator <= |writeList|
        invariant PendingWrites() == old(PendingWrites())
        invariant old(writeIterator) <= writeIterator
        invariant forall k :: old(writeIterator) <= k < writeIterator ==>
          !(writeList[k].handle != -1 && writeList[k].handle in writeSet)
      {
        ReadyAt(writeList, writeIterator, writeSet);
        var socket := writeList[writeIterator].handle;
        if socket != CLOSED && socket in writeSet {
          s := writeList[writeIterator];
          writeIterator := writeIterator + 1;
          return;
        }
        writeIterator := writeIterator + 1;
      }
      ReadyAt(writeList, writeIterator, writeSet);
      return null;
    }

    /** Calling GetReadable until it returns null: every pending socket, in order, and null
        from then on. */
    method DrainReads() returns (got: seq<Socket>)
      requires Valid() && readCurrent
      modifies this`readIterator
      ensures Valid() && readCurrent && PendingReads() == []
      ensures got == old(PendingReads())
      ensures writeCurrent ==> PendingWrites() == old(PendingWrites())
    {
      hide *;
      got := [];
      ghost var all := PendingReads();
      while true
        invariant Valid() && readCurrent
        invariant |got| <= |all| && got == all[..|got|]
        invariant PendingReads() == all[|got|..]
        invariant writeCurrent ==> PendingWrites() == old(PendingWrites())
        decreases |all| - |got|
      {
        var s := GetReadable();
        if s == null {
          return;
        }
        var socket: Socket := s;
        got := got + [socket];
      }
    }

    method DrainWrites() returns (got: seq<Socket>)
      requires Valid() && writeCurrent
      modifies this`writeIterator
      ensures Valid() && writeCurrent && PendingWrites() == []
      ensures got == old(PendingWrites())
    {
      hide *;
      got := [];
      ghost var all := PendingWrites();
      while true
        invariant Valid() && writeCurrent
        invariant |got| <= |all| && got == all[..|got|]
        invariant PendingWrites() == all[|got|..]
        decreases |all| - |got|
      {
        var s := GetWritable();
        if s == null {
          return;
        }
        var socket: Socket := s;
        got := got + [socket];
      }
    }

    /** A wait followed by draining both sides: each side yields exactly the open sockets of
        its list that are ready, in registration order, each once. */
    method Serve(readyToRead: set<int>, readyToWrite: set<int>, outcome: int)
      returns (readable: seq<Socket>, writable: seq<Socket>)
      requires Valid()
      modifies this
      ensures Valid() && readList == old(readList) && writeList == old(writeList)
      ensures forall s :: s in readable <==> s in readList && s.handle != -1 && s.handle in readyToRead
      ensures forall s :: s in writable <==> s in writeList && s.handle != -1 && s.handle in readyToWrite
      ensures Distinct(readable) && InOrder(readable, readList)
      ensures Distinct(writable) && InOrder(writable, writeList)
    {
      hide Ready, InOrder;
      ReadyInOrder(readList, readyToRead);
      ReadyInOrder(writeList, readyToWrite);
      var nfds, result := Wait(readyToRead, readyToWrite, outcome);
      readable := DrainReads();
      writable := DrainWrites();
      ReadyMembers(readList, readyToRead);
      ReadyMembers(writeList, readyToWrite);
    }
  }
}
