/** The two linked lists ThreadPool threads through its ConnectionThread objects
    (server/thread_pool.cpp): idle_threads, a stack, and all_threads, from the
    newest thread to the oldest. */
module ThreadLists {
  import opened Lists

  class ConnectionThread {
    var nb: nat
    var clientSock: int
    var nbConnections: nat
    var info: seq<int>
    var next: ConnectionThread?
    var nextAll: ConnectionThread?

    constructor (clientSock: int)
      ensures this.clientSock == clientSock && nbConnections == 1 && info == [0, 0, 0]
    {
      this.clientSock := clientSock;
      nbConnections := 1;
      info := [0, 0, 0];
      nb, next, nextAll := 0, null, null;
    }
  }

  /** What the administration interface is told about a thread. */
  datatype ThreadStat = ThreadStat(nbConnections: nat, info: seq<int>, active: bool)

  /** The size of a ThreadStat: four 4-byte ints and a char, padded. */
  const STAT_SIZE := 20

  function LoadFrom(t: ConnectionThread): ThreadStat
    reads t
  {
    ThreadStat(t.nbConnections, t.info, t.clientSock >= 0)
  }

  /** Null outside the list. */
  function At(list: seq<ConnectionThread>, k: int): ConnectionThread? {
    if 0 <= k < |list| then list[k] else null
  }

  lemma AtGrown(list: seq<ConnectionThread>, t: ConnectionThread, k: int)
    requires k < |list|
    ensures At(list + [t], k) == At(list, k) && At(list + [t], |list|) == t
  {
  }

  lemma PushedFront(t: ConnectionThread, list: seq<ConnectionThread>, pushed: seq<ConnectionThread>)
    requires NoDuplicates(list) && t !in list && pushed == [t] + list
    ensures NoDuplicates(pushed) && At(pushed, 1) == At(list, 0)
    ensures forall k :: 0 < k < |pushed| ==> pushed[k] == list[k - 1] && At(pushed, k + 1) == At(list, k)
  {
  }

  lemma PoppedFront(list: seq<ConnectionThread>)
    requires NoDuplicates(list) && list != []
    ensures NoDuplicates(list[1..]) && list[0] !in list[1..] && At(list[1..], 0) == At(list, 1)
    ensures forall k :: 0 <= k < |list| - 1 ==> list[1..][k] == list[k + 1] && At(list[1..], k + 1) == At(list, k + 2)
    ensures forall t :: t in list[1..] ==> t in list
  {
    forall k | 0 <= k < |list| - 1
      ensures list[1..][k] == list[k + 1] && At(list[1..], k + 1) == At(list, k + 2)
    {
      hide NoDuplicates;
    }
  }

  class ThreadPool {
    var idleThreads: ConnectionThread?
    var allThreads: ConnectionThread?
    var threadNb: nat

    // Every thread, oldest first, and the idle ones, next to be reused first.
    ghost var threads: seq<ConnectionThread>
    ghost var idle: seq<ConnectionThread>

    /** Thread number k is the k-th created, and nextAll leads to the one before it. */
    ghost predicate AllThreadsValid()
      reads `threadNb, `allThreads, `threads, threads`nb, threads`nextAll
    {
      && threadNb == |threads|
      && allThreads == At(threads, |threads| - 1)
      && (forall k :: 0 <= k < |threads| ==> threads[k].nb == k)
      && (forall k :: 0 <= k < |threads| ==> threads[k].nextAll == At(threads, k - 1))
    }

    ghost predicate IdleValid()
      reads `idleThreads, `idle, idle`next, idle`clientSock
    {
      && idleThreads == At(idle, 0)
      && NoDuplicates(idle)
      && (forall k :: 0 <= k < |idle| ==> idle[k].next == At(idle, k + 1))
      && (forall k :: 0 <= k < |idle| ==> idle[k].clientSock == -1)
    }

    ghost predicate Valid()
      reads this, threads, idle
    {
      AllThreadsValid() && IdleValid() && forall t :: t in idle ==> t in threads
    }

    lemma NewestThread()
      requires AllThreadsValid()
      ensures threadNb == |threads| && allThreads == At(threads, threadNb - 1)
    {
    }

    lemma OlderThread(k: nat)
      requires AllThreadsValid() && k < |threads|
      ensures threads[k].nextAll == At(threads, k - 1)
    {
    }

    constructor ()
      ensures Valid() && threads == [] && idle == []
    {
      threadNb, idleThreads, allThreads := 0, null, null;
      threads, idle := [], [];
    }

    method NewThread(clientSock: int) returns (t: ConnectionThread)
      requires Valid()
      modifies this
      ensures Valid() && fresh(t) && t.clientSock == clientSock && t.nbConnections == 1
      ensures t.next == old(allThreads) && t.info == [0, 0, 0]
      ensures threads == old(threads) + [t] && idle == old(idle) && t !in idle
    {
      hide IdleValid, At;
      t := new ConnectionThread(clientSock);
      t.nb := threadNb;
      threadNb := threadNb + 1;
      t.next := allThreads;
      t.nextAll := allThreads;
      allThreads := t;
      threads := threads + [t];
      AtGrown(old(threads), t, -1);
      forall k | 0 <= k < |threads|
        ensures threads[k].nb == k && threads[k].nextAll == At(threads, k - 1)
      {
        AtGrown(old(threads), t, k - 1);
        if k < |old(threads)| {
          assert threads[k] == old(threads)[k] && unchanged(threads[k]);
        }
      }
    }

    method ReleaseThread(t: ConnectionThread)
      requires Valid() && t in threads && t !in idle
      modifies this, t`clientSock, t`next
      ensures Valid() && t.clientSock == -1
      ensures threads == old(threads) && idle == [t] + old(idle)
    {
      hide AllThreadsValid;
      t.clientSock := -1;
      t.next := idleThreads;
      idleThreads := t;
      idle := [t] + idle;
      PushedFront(t, old(idle), idle);
      forall k | 0 <= k < |idle|
        ensures idle[k].next == At(idle, k + 1) && idle[k].clientSock == -1
      {
        if k > 0 {
          assert idle[k] == old(idle)[k - 1] && unchanged(idle[k]);
        }
      }
    }

    method ReuseThread(clientSock: int) returns (t: ConnectionThread?)
      requires Valid() && clientSock >= 0
      modifies `idleThreads, `idle, idle`clientSock, idle`nbConnections
      ensures Valid() && threads == old(threads)
      ensures old(idle) == [] ==> t == null && idle == []
      ensures old(idle) != [] ==>
        && t == old(idle)[0] && idle == old(idle)[1..]
        && t.clientSock == clientSock && t.nbConnections == old(idle[0].nbConnections) + 1
        && forall u :: u in idle ==> unchanged(u)
    {
      hide AllThreadsValid, NoDuplicates;
      t := null;
      if idleThreads == null {
        return;
      }
      t := idleThreads;
      PoppedFront(idle);
      idleThreads := t.next;
      idle := idle[1..];
      t.clientSock := clientSock;
      t.nbConnections := t.nbConnections + 1;
      hide At;
      forall k | 0 <= k < |idle|
        ensures idle[k].next == At(idle, k + 1) && idle[k].clientSock == -1
      {
        assert idle[k] == old(idle)[k + 1] && idle[k] != t;
      }
    }

    method HandleNewConnection(clientSock: int)
      requires Valid() && clientSock >= 0
      modifies this, idle`clientSock, idle`nbConnections
      ensures Valid() && forall u :: u in old(idle) && u in idle ==> unchanged(u)
      ensures old(idle) != [] ==>
        && threads == old(threads) && idle == old(idle)[1..]
        && old(idle)[0].clientSock == clientSock
        && old(idle)[0].nbConnections == old(idle[0].nbConnections) + 1
      ensures old(idle) == [] ==>
        && idle == [] && |threads| == |old(threads)| + 1 && threads[..|old(threads)|] == old(threads)
        && fresh(threads[|old(threads)|])
        && threads[|old(threads)|].clientSock == clientSock && threads[|old(threads)|].nbConnections == 1
    {
      var t := ReuseThread(clientSock);
      if t == null {
        t := NewThread(clientSock);
      }
    }

    /** Walks the threads from the newest to the oldest, filling the buffer from
        its end: slot k is the k-th thread created. */
    method SerializeThreadStats(buffer: array<ThreadStat>)
      requires Valid() && threadNb <= buffer.Length
      modifies buffer
      ensures forall k :: 0 <= k < |threads| ==> buffer[k] == LoadFrom(threads[k])
      ensures buffer[|threads|..] == old(buffer[|threads|..])
    {
      hide AllThreadsValid, IdleValid;
      NewestThread();
      var slot := threadNb - 1;
      var t := allThreads;
      while t != null
        invariant -1 <= slot < |threads|
        invariant t == At(threads, slot)
        invariant forall k :: slot < k < |threads| ==> buffer[k] == LoadFrom(threads[k])
        invariant buffer[|threads|..] == old(buffer[|threads|..])
        invariant AllThreadsValid()
        decreases slot
      {
        OlderThread(slot);
        buffer[slot] := LoadFrom(t);
        slot := slot - 1;
        t := t.nextAll;
      }
    }

    method GetThreadStatistics() returns (size: nat, stats: array<ThreadStat>)
      requires Valid()
      ensures size == |threads| * 20 && stats.Length == |threads|
      ensures forall k :: 0 <= k < |threads| ==>
        && stats[k].nbConnections == threads[k].nbConnections && stats[k].info == threads[k].info
        && (stats[k].active <==> threads[k].clientSock >= 0)
    {
      stats := new ThreadStat[threadNb](_ => ThreadStat(0, [0, 0, 0], false));
      size := threadNb * STAT_SIZE;
      SerializeThreadStats(stats);
    }
  }
}
