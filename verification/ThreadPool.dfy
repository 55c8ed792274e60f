/** The classes of the thread pool, whose methods are the steps of the hand-off. */
module ThreadPool {
  import opened Bytes
  import opened HandOff

  class Xthread {
    const m_nId: int
    var m_listconnect: seq<Connection>
    /** Bytes written to the pipe and not read yet. */
    var pipe: nat
    /** Connections given to `HandlerConnect`. */
    var handled: seq<Connection>

    /** The worker between two calls of `Notify`. */
    function Value(): Worker
      reads this
    {
      Worker(m_listconnect, pipe, Waiting, handled)
    }

    constructor (nThreadId: int)
      ensures m_nId == nThreadId && Value() == NEW_WORKER
    {
      m_nId := nThreadId;
      m_listconnect, pipe, handled := [], 0, [];
    }

    method AddConnect(pNode: Option<Connection>)
      modifies this`m_listconnect
      ensures Value() == match pNode case None => old(Value()) case Some(c) => Added(old(Value()), c)
    {
      if pNode.None? {
        return;
      }
      m_listconnect := m_listconnect + [pNode.value];
    }

    /** A failed write is only logged. */
    method Active(written: bool)
      modifies this`pipe
      ensures Value() == if written then Activated(old(Value())) else old(Value())
    {
      if written {
        pipe := pipe + 1;
      }
    }

    /** One wake-up: a byte is read, the oldest connection is taken from the list and handled. Without a
        byte, or with an empty list, nothing is handled. */
    method Notify()
      modifies this
      ensures old(pipe) == 0 ==> Value() == old(Value())
      ensures old(pipe) > 0 && old(m_listconnect) == [] ==> Value() == AfterPop(AfterRead(old(Value())))
      ensures old(pipe) > 0 && old(m_listconnect) != [] ==>
                && Value() == AfterHandle(AfterPop(AfterRead(old(Value()))))
                && handled == old(handled) + [old(m_listconnect)[0]]
    {
      if pipe == 0 {
        return;
      }
      pipe := pipe - 1;
      if m_listconnect == [] {
        return;
      }
      var pConnect := m_listconnect[0];
      m_listconnect := m_listconnect[1..];
      handled := handled + [pConnect];
    }
  }

  class XThreadPool {
    var m_nThreadCount: int
    var m_indexLastUseThread: int
    var m_vecThread: seq<Xthread>

    ghost predicate Valid()
      reads this
    {
      && 0 < m_nThreadCount == |m_vecThread| && -1 <= m_indexLastUseThread
      && forall i, j :: 0 <= i < j < |m_vecThread| ==> m_vecThread[i] != m_vecThread[j]
    }

    /** The state of the hand-off between two calls. */
    ghost function Value(): Pool
      reads this, m_vecThread
    {
      Pool(seq(|m_vecThread|, i requires 0 <= i < |m_vecThread| reads this, m_vecThread => m_vecThread[i].Value()),
           m_indexLastUseThread, Idle, [])
    }

    constructor ()
      ensures m_vecThread == [] && m_nThreadCount == 0
    {
      m_nThreadCount, m_indexLastUseThread, m_vecThread := 0, -1, [];
    }

    method Init(nThreadCount: int)
      requires m_vecThread == []
      modifies this
      ensures m_nThreadCount == nThreadCount && m_indexLastUseThread == -1
      ensures nThreadCount > 0 ==> Valid() && HandOff.Init(Value())
      ensures nThreadCount <= 0 ==> m_vecThread == []
      ensures forall i :: 0 <= i < |m_vecThread| ==> fresh(m_vecThread[i]) && m_vecThread[i].m_nId == i + 1
    {
      m_nThreadCount := nThreadCount;
      m_indexLastUseThread := -1;
      var i := 0;
      while i < m_nThreadCount
        invariant 0 <= i && (i <= nThreadCount || i == 0) && m_nThreadCount == nThreadCount
          && m_indexLastUseThread == -1 && |m_vecThread| == i
        invariant forall j :: 0 <= j < i ==>
                    fresh(m_vecThread[j]) && m_vecThread[j].m_nId == j + 1 && m_vecThread[j].Value() == NEW_WORKER
        invariant forall j, k :: 0 <= j < k < i ==> m_vecThread[j] != m_vecThread[k]
      {
        var pXthread := new Xthread(i + 1);
        m_vecThread := m_vecThread + [pXthread];
        i := i + 1;
      }
    }

    /** Dispatching with nobody else running is the three steps of the hand-off: one worker, the next in
        turn, gets the connection and a byte; the others are untouched. */
    method DispatchThread(pNode: Option<Connection>)
      requires Valid() && m_indexLastUseThread < MAX_INDEX
      modifies this`m_indexLastUseThread, m_vecThread
      ensures Valid()
      ensures pNode.None? ==> Value() == old(Value())
      ensures pNode.Some? ==>
                var p := DispatchStep(old(Value()), pNode);
                && Enabled(p, AddConnect) && Enabled(Next(p, AddConnect), Active)
                && Value() == Next(Next(p, AddConnect), Active).(dispatched := [])
    {
      if pNode.None? {
        return;
      }
      m_indexLastUseThread := m_indexLastUseThread + 1;
      var index := m_indexLastUseThread % m_nThreadCount;
      var pthread := m_vecThread[index];
      pthread.AddConnect(pNode);
      pthread.Active(true);
      ghost var was := old(Value());
      ghost var w := Activated(Added(was.workers[index], pNode.value));
      assert Value().workers == was.workers[index := w];
    }
  }
}
