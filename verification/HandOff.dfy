/** Connections handed from the dispatching thread to worker threads: each worker has a locked list of
    connections and a pipe whose bytes wake it up. Each locked section, pipe write and pipe read is one
    step. */
module HandOff {
  import opened Bytes

  type Connection = nat

  const MAX_INDEX: nat := 0x7FFF_FFFF

  /** Where a worker stands in `Notify`. */
  datatype WorkerState = Waiting | ByteRead | Holding(c: Connection)

  /** `handled` is the history of connections given to `HandlerConnect`. */
  datatype Worker = Worker(list: seq<Connection>, pipe: nat, state: WorkerState, handled: seq<Connection>)

  /** Where the dispatching thread stands in `DispatchThread`. */
  datatype Dispatcher = Idle | Adding(w: nat, c: Connection) | Activating(w: nat)

  /** `lastIndex` is `m_indexLastUseThread`; `dispatched` is the history of its calls. */
  datatype Pool = Pool(workers: seq<Worker>, lastIndex: int, dispatcher: Dispatcher, dispatched: seq<Connection>)

  datatype Step =
    | Dispatch(pNode: Option<Connection>)
    | AddConnect
    | Active
    | Read(w: nat)
    | Pop(w: nat)
    | Handle(w: nat)

  const NEW_WORKER: Worker := Worker([], 0, Waiting, [])

  function Added(w: Worker, c: Connection): Worker {
    w.(list := w.list + [c])
  }

  function Activated(w: Worker): Worker {
    w.(pipe := w.pipe + 1)
  }

  function AfterRead(w: Worker): Worker
    requires w.pipe > 0
  {
    w.(pipe := w.pipe - 1, state := ByteRead)
  }

  function AfterPop(w: Worker): Worker {
    if w.list == [] then w.(state := Waiting) else w.(list := w.list[1..], state := Holding(w.list[0]))
  }

  function AfterHandle(w: Worker): Worker
    requires w.state.Holding?
  {
    w.(handled := w.handled + [w.state.c], state := Waiting)
  }

  function SetWorker(p: Pool, w: nat, worker: Worker): Pool
    requires w < |p.workers|
  {
    p.(workers := p.workers[w := worker])
  }

  /** Round robin, starting with worker 0; a null connection is ignored. */
  function DispatchStep(p: Pool, pNode: Option<Connection>): Pool
    requires |p.workers| > 0 && p.lastIndex >= -1
  {
    match pNode
    case None => p
    case Some(c) =>
      var index := p.lastIndex + 1;
      p.(lastIndex := index, dispatcher := Adding(index % |p.workers|, c), dispatched := p.dispatched + [c])
  }

  predicate Enabled(p: Pool, step: Step) {
    match step
    case Dispatch(_) => p.dispatcher.Idle? && |p.workers| > 0 && -1 <= p.lastIndex < MAX_INDEX
    case AddConnect => p.dispatcher.Adding? && p.dispatcher.w < |p.workers|
    case Active => p.dispatcher.Activating? && p.dispatcher.w < |p.workers|
    case Read(w) => w < |p.workers| && p.workers[w].state.Waiting? && p.workers[w].pipe > 0
    case Pop(w) => w < |p.workers| && p.workers[w].state.ByteRead?
    case Handle(w) => w < |p.workers| && p.workers[w].state.Holding?
  }

  function Next(p: Pool, step: Step): Pool
    requires Enabled(p, step)
  {
    match step
    case Dispatch(pNode) => DispatchStep(p, pNode)
    case AddConnect =>
      var w := p.dispatcher.w;
      SetWorker(p, w, Added(p.workers[w], p.dispatcher.c)).(dispatcher := Activating(w))
    case Active =>
      var w := p.dispatcher.w;
      SetWorker(p, w, Activated(p.workers[w])).(dispatcher := Idle)
    case Read(w) => SetWorker(p, w, AfterRead(p.workers[w]))
    case Pop(w) => SetWorker(p, w, AfterPop(p.workers[w]))
    case Handle(w) => SetWorker(p, w, AfterHandle(p.workers[w]))
  }

  ghost predicate Init(p: Pool) {
    && |p.workers| > 0 && p.lastIndex == -1 && p.dispatcher.Idle? && p.dispatched == []
    && forall w :: 0 <= w < |p.workers| ==> p.workers[w] == NEW_WORKER
  }

  ghost predicate Run(ps: seq<Pool>, steps: seq<Step>) {
    && |ps| == |steps| + 1 && Init(ps[0])
    && forall k :: 0 <= k < |steps| ==> Enabled(ps[k], steps[k]) && ps[k + 1] == Next(ps[k], steps[k])
  }

  // ---- Invariants ----

  /** The steps between a connection and the byte that announces it. */
  function Owed(p: Pool, w: nat): nat
    requires w < |p.workers|
  {
    (if p.workers[w].state.ByteRead? then 1 else 0)
    + (if p.dispatcher.Activating? && p.dispatcher.w == w then 1 else 0)
  }

  /** List and pipe in step: as many connections as bytes and announcements under way. */
  ghost predicate InStep(p: Pool) {
    forall w :: 0 <= w < |p.workers| ==> |p.workers[w].list| == p.workers[w].pipe + Owed(p, w)
  }

  function InHand(s: WorkerState): seq<Connection> {
    if s.Holding? then [s.c] else []
  }

  function OnTheWay(d: Dispatcher, w: nat): seq<Connection> {
    if d.Adding? && d.w == w then [d.c] else []
  }

  /** Everything ever given to worker `w`, oldest first: handled, in hand, listed, about to be listed. */
  function Given(p: Pool, w: nat): seq<Connection>
    requires w < |p.workers|
  {
    p.workers[w].handled + InHand(p.workers[w].state) + p.workers[w].list + OnTheWay(p.dispatcher, w)
  }

  /** The `j`-th connection given to worker `w` of `n` is dispatch number `j * n + w`, and worker `w` has
      been given every dispatch with its remainder. */
  ghost predicate Share(given: seq<Connection>, dispatched: seq<Connection>, w: nat, n: nat) {
    && (forall j :: 0 <= j < |given| ==> Index(j, w, n) < |dispatched| && given[j] == dispatched[Index(j, w, n)])
    && Index(|given|, w, n) >= |dispatched|
  }

  function Index(j: nat, w: nat, n: nat): nat {
    j * n + w
  }

  ghost predicate RoundRobin(p: Pool) {
    && |p.workers| > 0 && p.lastIndex == |p.dispatched| - 1
    && (p.dispatcher.Idle? || p.dispatcher.w < |p.workers|)
    && forall w :: 0 <= w < |p.workers| ==> Share(Given(p, w), p.dispatched, w, |p.workers|)
  }

  lemma Distribute(a: int, b: int, n: int)
    ensures (a - b) * n == a * n - b * n
  {
  }

  lemma AtLeastOnce(a: int, n: nat)
    requires a >= 1
    ensures a * n >= n
  {
    Distribute(a, 1, n);
    assert (a - 1) * n >= 0;
  }

  lemma IndexGrows(i: nat, j: nat, w: nat, n: nat)
    requires i < j && n > 0
    ensures Index(i, w, n) < Index(j, w, n)
  {
    Distribute(j, i, n);
    AtLeastOnce(j - i, n);
  }

  lemma IndexOf(k: nat, n: nat)
    requires n > 0
    ensures Index(k / n, k % n, n) == k
  {
  }

  lemma IndexInjective(i: nat, v: nat, j: nat, w: nat, n: nat)
    requires v < n && w < n && Index(i, v, n) == Index(j, w, n)
    ensures i == j && v == w
  {
    Distribute(i, j, n);
    Distribute(j, i, n);
    if i > j {
      AtLeastOnce(i - j, n);
    } else if j > i {
      AtLeastOnce(j - i, n);
    }
  }

  lemma IndexParts(j: nat, w: nat, n: nat)
    requires w < n
    ensures Index(j, w, n) % n == w && Index(j, w, n) / n == j
  {
    hide Index;
    var k := Index(j, w, n);
    IndexOf(k, n);
    IndexInjective(k / n, k % n, j, w, n);
  }

  /** The worker whose turn it is takes exactly the next dispatch. */
  lemma ShareExtends(given: seq<Connection>, dispatched: seq<Connection>, w: nat, n: nat, c: Connection)
    requires n > 0 && w == |dispatched| % n && Share(given, dispatched, w, n)
    ensures Share(given + [c], dispatched + [c], w, n)
  {
    hide Index;
    var q := |dispatched| / n;
    IndexOf(|dispatched|, n);
    TurnIs(given, dispatched, w, n, q);
    IndexGrows(q, q + 1, w, n);
  }

  /** It has been given one connection for each full round so far. */
  lemma TurnIs(given: seq<Connection>, dispatched: seq<Connection>, w: nat, n: nat, q: nat)
    requires n > 0 && Share(given, dispatched, w, n) && Index(q, w, n) == |dispatched|
    ensures |given| == q
  {
    hide Index;
    if |given| < q {
      IndexGrows(|given|, q, w, n);
    }
    assert q < |given| ==> Index(q, w, n) < |dispatched|;
  }

  /** Another worker's dispatch is not in this worker's share. */
  lemma ShareStays(given: seq<Connection>, dispatched: seq<Connection>, w: nat, n: nat, c: Connection)
    requires w < n && w != |dispatched| % n && Share(given, dispatched, w, n)
    ensures Share(given, dispatched + [c], w, n)
  {
    IndexParts(|given|, w, n);
  }

  lemma DispatchRoundRobin(p: Pool, c: Connection)
    requires RoundRobin(p) && p.dispatcher.Idle?
    ensures RoundRobin(DispatchStep(p, Some(c)))
  {
    hide Share;
    var p' := DispatchStep(p, Some(c));
    var n := |p.workers|;
    forall w | 0 <= w < n
      ensures Share(Given(p', w), p'.dispatched, w, n)
    {
      if w == |p.dispatched| % n {
        assert Given(p', w) == Given(p, w) + [c];
        ShareExtends(Given(p, w), p.dispatched, w, n, c);
      } else {
        assert Given(p', w) == Given(p, w);
        ShareStays(Given(p, w), p.dispatched, w, n, c);
      }
    }
  }

  /** No step but a dispatch changes what a worker has been given. */
  lemma GivenStays(p: Pool, step: Step, w: nat)
    requires Enabled(p, step) && !step.Dispatch? && w < |p.workers|
      && (p.dispatcher.Idle? || p.dispatcher.w < |p.workers|)
    ensures var p' := Next(p, step);
            && |p'.workers| == |p.workers| && p'.dispatched == p.dispatched && p'.lastIndex == p.lastIndex
            && (p'.dispatcher.Idle? || p'.dispatcher.w < |p'.workers|)
            && Given(p', w) == Given(p, w)
  {
  }

  lemma RoundRobinStep(p: Pool, step: Step)
    requires RoundRobin(p) && Enabled(p, step)
    ensures RoundRobin(Next(p, step))
  {
    if step.Dispatch? {
      if step.pNode.Some? {
        DispatchRoundRobin(p, step.pNode.value);
      }
    } else {
      hide Share, Given;
      GivenStays(p, step, 0);
      forall w | 0 <= w < |p.workers|
        ensures Given(Next(p, step), w) == Given(p, w)
      {
        GivenStays(p, step, w);
      }
    }
  }

  lemma InStepStep(p: Pool, step: Step)
    requires InStep(p) && RoundRobin(p) && Enabled(p, step)
    ensures InStep(Next(p, step))
  {
    hide Share, Given;
  }

  lemma {:induction false} RunInvariant(ps: seq<Pool>, steps: seq<Step>, k: nat)
    requires Run(ps, steps) && k < |ps|
    ensures InStep(ps[k]) && RoundRobin(ps[k])
  {
    hide Next, Enabled;
    if k == 0 {
      InitInvariant(ps[0]);
    } else {
      hide InStep, RoundRobin, Init;
      RunInvariant(ps, steps, k - 1);
      InStepStep(ps[k - 1], steps[k - 1]);
      RoundRobinStep(ps[k - 1], steps[k - 1]);
    }
  }

  lemma InitInvariant(p: Pool)
    requires Init(p)
    ensures InStep(p) && RoundRobin(p)
  {
    forall w | 0 <= w < |p.workers|
      ensures Share(Given(p, w), p.dispatched, w, |p.workers|)
    {
      assert Given(p, w) == [];
    }
  }

  // ---- What the invariants mean ----

  /** Nobody has anything left to do. */
  ghost predicate Quiet(p: Pool) {
    && p.dispatcher.Idle?
    && forall w :: 0 <= w < |p.workers| ==> p.workers[w].pipe == 0 && p.workers[w].state.Waiting?
  }

  /** In every state of every run, the connections a worker has handled are, in order and each once, the
      dispatches whose number has the worker's remainder. */
  lemma HandledInOrder(ps: seq<Pool>, steps: seq<Step>, k: nat, w: nat, j: nat)
    requires Run(ps, steps) && k < |ps| && w < |ps[k].workers| && j < |ps[k].workers[w].handled|
    ensures var p := ps[k];
            Index(j, w, |p.workers|) < |p.dispatched|
              && p.workers[w].handled[j] == p.dispatched[Index(j, w, |p.workers|)]
  {
    hide Run, Index;
    RunInvariant(ps, steps, k);
    assert Given(ps[k], w)[j] == ps[k].workers[w].handled[j];
  }

  /** A worker that has read a byte finds a connection in its list, whatever happens in between. */
  lemma NeverEmpty(ps: seq<Pool>, steps: seq<Step>, k: nat, w: nat)
    requires Run(ps, steps) && k < |ps| && w < |ps[k].workers| && ps[k].workers[w].state.ByteRead?
    ensures ps[k].workers[w].list != []
  {
    hide Run, RoundRobin;
    RunInvariant(ps, steps, k);
  }

  /** Once everything is quiet, every dispatch has been handled exactly once: number `d` by worker
      `d % n`, as its `d / n`-th. */
  lemma ExactlyOnce(ps: seq<Pool>, steps: seq<Step>, k: nat, d: nat)
    requires Run(ps, steps) && k < |ps| && Quiet(ps[k]) && d < |ps[k].dispatched|
    ensures var p := ps[k];
            var n := |p.workers|;
            && n > 0 && d / n < |p.workers[d % n].handled| && p.workers[d % n].handled[d / n] == p.dispatched[d]
            && forall w, j ::
                 0 <= w < n && 0 <= j < |p.workers[w].handled| && Index(j, w, n) == d ==> w == d % n && j == d / n
  {
    hide Run, Index;
    RunInvariant(ps, steps, k);
    var p := ps[k];
    var n := |p.workers|;
    var w, j := d % n, d / n;
    IndexOf(d, n);
    assert p.workers[w].list == [];
    assert Given(p, w) == p.workers[w].handled;
    if j > |p.workers[w].handled| {
      IndexGrows(|p.workers[w].handled|, j, w, n);
    }
    forall w', j' | 0 <= w' < n && 0 <= j' < |p.workers[w'].handled| && Index(j', w', n) == d
      ensures w' == d % n && j' == d / n
    {
      IndexParts(j', w', n);
    }
  }

  /** Until then, something can always move: no connection is stranded. */
  lemma NothingStranded(ps: seq<Pool>, steps: seq<Step>, k: nat)
    requires Run(ps, steps) && k < |ps| && !Quiet(ps[k])
    ensures exists step :: Enabled(ps[k], step) && !step.Dispatch?
  {
    hide Run, InStep;
    RunInvariant(ps, steps, k);
    var p := ps[k];
    if p.dispatcher.Adding? {
      assert Enabled(p, AddConnect);
    } else if p.dispatcher.Activating? {
      assert Enabled(p, Active);
    } else {
      var w :| 0 <= w < |p.workers| && !(p.workers[w].pipe == 0 && p.workers[w].state.Waiting?);
      match p.workers[w].state {
        case Waiting => assert Enabled(p, Read(w));
        case ByteRead => assert Enabled(p, Pop(w));
        case Holding(_) => assert Enabled(p, Handle(w));
      }
    }
  }

  // ---- How long it takes ----

  function WorkerWork(w: Worker): nat {
    3 * w.pipe + if w.state.ByteRead? then 2 else if w.state.Holding? then 1 else 0
  }

  function WorkersWork(ws: seq<Worker>): nat {
    if ws == [] then 0 else WorkersWork(ws[..|ws| - 1]) + WorkerWork(ws[|ws| - 1])
  }

  function DispatcherWork(d: Dispatcher): nat {
    match d
    case Idle => 0
    case Adding(_, _) => 5
    case Activating(_) => 4
  }

  /** The steps still to be taken for the connections dispatched so far. */
  function Work(p: Pool): nat {
    DispatcherWork(p.dispatcher) + WorkersWork(p.workers)
  }

  lemma {:induction false} WorkOfOne(ws: seq<Worker>, w: nat, x: Worker)
    requires w < |ws|
    ensures WorkersWork(ws[w := x]) == WorkersWork(ws) - WorkerWork(ws[w]) + WorkerWork(x)
    decreases |ws|
  {
    hide WorkerWork;
    var n := |ws| - 1;
    if w < n {
      WorkOfOne(ws[..n], w, x);
      assert ws[w := x][..n] == ws[..n][w := x];
    } else {
      assert ws[w := x][..n] == ws[..n];
    }
  }

  /** Every step but a dispatch takes one from the work; a dispatched connection adds five. */
  lemma WorkStep(p: Pool, step: Step)
    requires InStep(p) && Enabled(p, step)
    ensures Work(Next(p, step))
            == if step.Dispatch? then Work(p) + (if step.pNode.Some? then 5 else 0) else Work(p) - 1
  {
    hide WorkersWork;
    var p' := Next(p, step);
    if !step.Dispatch? {
      var w := if step.AddConnect? || step.Active? then p.dispatcher.w else step.w;
      WorkOfOne(p.workers, w, p'.workers[w]);
    }
  }

  lemma {:induction false} NoWork(ws: seq<Worker>)
    ensures WorkersWork(ws) == 0 <==> forall w :: 0 <= w < |ws| ==> ws[w].pipe == 0 && ws[w].state.Waiting?
    decreases |ws|
  {
    if ws != [] {
      NoWork(ws[..|ws| - 1]);
    }
  }

  lemma NoWorkIsQuiet(p: Pool)
    ensures Work(p) == 0 <==> Quiet(p)
  {
    hide WorkersWork;
    NoWork(p.workers);
  }

  /** The steps among the first `k` that are no dispatch. */
  function Moves(steps: seq<Step>, k: nat): nat
    requires k <= |steps|
  {
    if k == 0 then 0 else Moves(steps, k - 1) + if steps[k - 1].Dispatch? then 0 else 1
  }

  lemma RunStep(ps: seq<Pool>, steps: seq<Step>, k: nat)
    requires Run(ps, steps) && k < |steps|
    ensures Enabled(ps[k], steps[k]) && ps[k + 1] == Next(ps[k], steps[k]) && InStep(ps[k])
    ensures |ps[k + 1].dispatched|
            == |ps[k].dispatched| + if steps[k].Dispatch? && steps[k].pNode.Some? then 1 else 0
  {
    hide InStep, RoundRobin;
    RunInvariant(ps, steps, k);
  }

  /** Each connection costs exactly five steps besides its dispatch, in any interleaving: those taken and
      those still to be taken add up. */
  lemma {:induction false} WorkIsConserved(ps: seq<Pool>, steps: seq<Step>, k: nat)
    requires Run(ps, steps) && k < |ps|
    ensures Moves(steps, k) + Work(ps[k]) == 5 * |ps[k].dispatched|
  {
    hide Work, Next, Enabled, InStep;
    if k == 0 {
      NoWorkIsQuiet(ps[0]);
    } else {
      WorkIsConserved(ps, steps, k - 1);
      RunStep(ps, steps, k - 1);
      hide Run;
      WorkStep(ps[k - 1], steps[k - 1]);
    }
  }

  /** Without new dispatches a pool is quiet after as many steps as it has work, no sooner and no later,
      and then no step is left. */
  lemma {:induction false} BecomesQuiet(ps: seq<Pool>, steps: seq<Step>, k: nat, j: nat)
    requires Run(ps, steps) && k <= j < |ps|
    requires forall i :: k <= i < j ==> !steps[i].Dispatch?
    ensures Work(ps[j]) == Work(ps[k]) - (j - k)
    ensures Quiet(ps[j]) <==> j - k == Work(ps[k])
    decreases j
  {
    hide Work, Next, Enabled, InStep, Quiet;
    NoWorkIsQuiet(ps[j]);
    if k < j {
      BecomesQuiet(ps, steps, k, j - 1);
      RunStep(ps, steps, j - 1);
      hide Run;
      WorkStep(ps[j - 1], steps[j - 1]);
    }
  }
}
