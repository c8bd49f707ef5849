/** The master server's registry: a dispatcher that prunes stale servers before it hands a
    datagram to a worker, interleaved with workers that register, refresh and list servers. */
module Registry {

  type Address = string

  /** Milliseconds a server is kept without contact: 10 minutes. */
  const TIME_KEEPSERVERS: nat := 1000 * 60 * 10

  /** The part of a server that matters here: when it last talked to us. */
  datatype Server = Server(lastMessage: nat)

  datatype Kind = Register | Heartbeat | List | Unknown | Unreadable

  /** A queued datagram, with the start of the pruning pass run for it (a history variable). */
  datatype Message = Message(kind: Kind, pass: nat)

  datatype Fetched = Nothing | Entry(address: Address, server: Server)

  /** A worker thread: reading its queue, sending the list, or finished. */
  datatype Phase = Reading | Listing(pass: nat, next: Fetched, tour: Tour) | Finished

  /** The tour of a worker through the table: what it still has to visit, what was there when
      it began, what was removed since, and how much had been sent to anyone before (the last
      three are history variables). */
  datatype Tour = Tour(todo: set<Address>, began: set<Address>, gone: set<Address>, from: nat)

  datatype Worker = Worker(client: Address, queue: seq<Message>, phase: Phase)

  /** The dispatcher between datagrams, or pruning on receipt of one: entries still to be
      looked at, and the entry found stale and about to be removed. */
  datatype Dispatcher =
    | Waiting
    | Pruning(client: Address, kind: Kind, since: nat, todo: set<Address>, doomed: set<Address>)

  /** A server that was sent to a client, as it was when it was read from the table. */
  datatype Sent = Sent(to: Address, address: Address, server: Server, pass: nat)

  /** A registration or heartbeat. */
  datatype Contact = Contact(address: Address, time: nat)

  datatype System = System(
    clock: nat,
    servers: map<Address, Server>,
    connections: map<Address, nat>,
    workers: map<nat, Worker>,
    dispatcher: Dispatcher,
    sent: seq<Sent>,
    contacts: set<Contact>)

  function Boot(): System {
    System(0, map[], map[], map[], Waiting, [], {})
  }

  datatype Step =
    | Tick(elapsed: nat)
    | Receive(client: Address, kind: Kind)
    | Examine(address: Address)
    | Remove(address: Address)
    | Dispatch(id: nat)
    | Take(worker: nat)
    | Fetch(worker: nat, address: Address)
    | SendServer(worker: nat)
    | FinishList(worker: nat)
    | FailList(worker: nat)

  predicate IsListing(s: System, w: nat) {
    w in s.workers && s.workers[w].phase.Listing?
  }

  predicate Enabled(s: System, step: Step) {
    match step
    case Tick(_) => true
    case Receive(_, _) => s.dispatcher.Waiting?
    case Examine(a) => s.dispatcher.Pruning? && s.dispatcher.doomed == {} && a in s.servers
    case Remove(a) => s.dispatcher.Pruning? && a in s.dispatcher.doomed
    case Dispatch(id) =>
      s.dispatcher.Pruning? && s.dispatcher.todo == {} && s.dispatcher.doomed == {} && id !in s.workers
    case Take(w) => w in s.workers && s.workers[w].phase.Reading? && s.workers[w].queue != []
    case Fetch(w, a) => IsListing(s, w) && s.workers[w].phase.next.Nothing? && a in s.servers
    case SendServer(w) => IsListing(s, w) && s.workers[w].phase.next.Entry?
    case FinishList(w) => IsListing(s, w) && s.workers[w].phase.next.Nothing? && s.workers[w].phase.tour.todo == {}
    case FailList(w) => IsListing(s, w)
  }

  /** Connections whose worker is still running. */
  function Live(s: System): map<Address, nat> {
    map c | c in s.connections && s.connections[c] in s.workers && !s.workers[s.connections[c]].phase.Finished?
      :: s.connections[c]
  }

  function Enqueue(w: Worker, m: Message): Worker {
    w.(queue := w.queue + [m])
  }

  function Touch(s: System, a: Address): System {
    s.(servers := s.servers[a := Server(s.clock)], contacts := s.contacts + {Contact(a, s.clock)})
  }

  function SetWorker(s: System, w: nat, worker: Worker): System {
    s.(workers := s.workers[w := worker])
  }

  /** A tour does not visit what is removed before it gets there. */
  function Forgetting(w: Worker, a: Address): Worker {
    if w.phase.Listing? then
      var tour := w.phase.tour;
      w.(phase := w.phase.(tour := tour.(todo := tour.todo - {a}, gone := tour.gone + {a})))
    else w
  }

  /** One message handled by a worker. Anything it can read ends it; anything else leaves it reading. */
  function Handled(s: System, w: nat): System
    requires Enabled(s, Take(w))
  {
    var worker := s.workers[w];
    var m := worker.queue[0];
    var rest := worker.(queue := worker.queue[1..]);
    var done := SetWorker(s, w, rest.(phase := Finished));
    match m.kind
    case Register => Touch(done, worker.client)
    case Heartbeat => if worker.client in s.servers then Touch(done, worker.client) else done
    case List =>
      var tour := Tour(s.servers.Keys, s.servers.Keys, {}, |s.sent|);
      SetWorker(s, w, rest.(phase := Listing(m.pass, Nothing, tour)))
    case Unknown => done
    case Unreadable => SetWorker(s, w, rest)
  }

  function Next(s: System, step: Step): System
    requires Enabled(s, step)
  {
    match step
    case Tick(elapsed) => s.(clock := s.clock + elapsed)
    case Receive(c, kind) => s.(dispatcher := Pruning(c, kind, s.clock, s.servers.Keys, {}))
    case Examine(a) =>
      if s.clock - s.servers[a].lastMessage > TIME_KEEPSERVERS then s.(dispatcher := s.dispatcher.(doomed := {a}))
      else s.(dispatcher := s.dispatcher.(todo := s.dispatcher.todo - {a}))
    case Remove(a) =>
      s.(servers := s.servers - {a},
         workers := map w | w in s.workers :: Forgetting(s.workers[w], a),
         dispatcher := s.dispatcher.(todo := s.dispatcher.todo - {a}, doomed := s.dispatcher.doomed - {a}))
    case Dispatch(id) =>
      var d := s.dispatcher;
      var live := Live(s);
      var m := Message(d.kind, d.since);
      if d.client in live then
        SetWorker(s, live[d.client], Enqueue(s.workers[live[d.client]], m)).(connections := live, dispatcher := Waiting)
      else
        SetWorker(s, id, Worker(d.client, [m], Reading)).(connections := live[d.client := id], dispatcher := Waiting)
    case Take(w) => Handled(s, w)
    case Fetch(w, a) =>
      var worker := s.workers[w];
      var tour := worker.phase.tour.(todo := worker.phase.tour.todo - {a});
      SetWorker(s, w, worker.(phase := worker.phase.(next := Entry(a, s.servers[a]), tour := tour)))
    case SendServer(w) =>
      var worker := s.workers[w];
      var e := worker.phase.next;
      SetWorker(s, w, worker.(phase := worker.phase.(next := Nothing)))
        .(sent := s.sent + [Sent(worker.client, e.address, e.server, worker.phase.pass)])
    case FinishList(w) => SetWorker(s, w, s.workers[w].(phase := Finished))
    case FailList(w) => SetWorker(s, w, s.workers[w].(phase := Reading))
  }

  predicate CanRun(s: System, steps: seq<Step>)
    decreases |steps|
  {
    steps == [] || (Enabled(s, steps[0]) && CanRun(Next(s, steps[0]), steps[1..]))
  }

  function Run(s: System, steps: seq<Step>): System
    requires CanRun(s, steps)
    decreases |steps|
  {
    if steps == [] then s else Run(Next(s, steps[0]), steps[1..])
  }

  // ---- Freshness ----------------------------------------------------------

  /** The server made contact at its recorded time, no earlier than 10 minutes before `pass`. */
  predicate Fresh(s: System, a: Address, server: Server, pass: nat) {
    && Contact(a, server.lastMessage) in s.contacts
    && server.lastMessage + TIME_KEEPSERVERS >= pass
  }

  /** Every completed pruning pass started at `floor` or before; what is in the table is fresh
      for all of them, and entries already looked at are fresh for the one under way. */
  predicate TableFresh(s: System, floor: nat) {
    && floor <= s.clock
    && (forall a | a in s.servers :: Fresh(s, a, s.servers[a], floor) && s.servers[a].lastMessage <= s.clock)
    && (s.dispatcher.Pruning? ==>
          && floor <= s.dispatcher.since <= s.clock
          && forall a | a in s.servers && a !in s.dispatcher.todo && a !in s.dispatcher.doomed ::
               s.servers[a].lastMessage + TIME_KEEPSERVERS >= s.dispatcher.since)
  }

  predicate WorkerFresh(s: System, worker: Worker, floor: nat) {
    && (forall i | 0 <= i < |worker.queue| :: worker.queue[i].pass <= floor)
    && (worker.phase.Listing? ==>
          && worker.phase.pass <= floor
          && (worker.phase.next.Entry? ==>
                Fresh(s, worker.phase.next.address, worker.phase.next.server, worker.phase.pass)))
  }

  predicate WorkersFresh(s: System, floor: nat) {
    forall w | w in s.workers :: WorkerFresh(s, s.workers[w], floor)
  }

  /** An entry about to be removed is in the table, and stale or touched since the pass began. */
  predicate DoomedStale(s: System) {
    s.dispatcher.Pruning? ==>
      && s.dispatcher.since <= s.clock
      && forall a | a in s.dispatcher.doomed ::
           && a in s.servers
           && (s.clock - s.servers[a].lastMessage > TIME_KEEPSERVERS || s.servers[a].lastMessage >= s.dispatcher.since)
  }

  predicate SentFresh(s: System) {
    forall i | 0 <= i < |s.sent| :: Fresh(s, s.sent[i].address, s.sent[i].server, s.sent[i].pass)
  }

  predicate Inv(s: System, floor: nat) {
    TableFresh(s, floor) && WorkersFresh(s, floor) && SentFresh(s) && DoomedStale(s)
  }

  /** The start of the last completed pass, after a step. */
  function Floor(s: System, step: Step, floor: nat): nat
    requires Enabled(s, step)
  {
    if step.Dispatch? then s.dispatcher.since else floor
  }

  predicate ByWorker(step: Step) {
    step.Take? || step.Fetch? || step.SendServer? || step.FinishList? || step.FailList?
  }

  /** A registration or heartbeat is fresh for every pass so far. */
  lemma TableKeptByTouch(s: System, a: Address, floor: nat)
    requires TableFresh(s, floor)
    ensures TableFresh(Touch(s, a), floor)
  {
  }

  lemma SameTable(s: System, s': System, floor: nat)
    requires TableFresh(s, floor)
    requires s'.clock == s.clock && s'.contacts == s.contacts
    requires s'.servers == s.servers && s'.dispatcher == s.dispatcher
    ensures TableFresh(s', floor)
  {
  }

  lemma TableKeptByWorker(s: System, step: Step, floor: nat)
    requires TableFresh(s, floor) && Enabled(s, step) && ByWorker(step)
    ensures TableFresh(Next(s, step), floor)
  {
    hide TableFresh;
    if step.Take? {
      var worker := s.workers[step.worker];
      var done := SetWorker(s, step.worker, worker.(queue := worker.queue[1..], phase := Finished));
      SameTable(s, done, floor);
      TableKeptByTouch(done, worker.client, floor);
      if Next(s, step) != Touch(done, worker.client) {
        SameTable(s, Next(s, step), floor);
      }
    } else {
      SameTable(s, Next(s, step), floor);
    }
  }

  lemma TableKept(s: System, step: Step, floor: nat)
    requires TableFresh(s, floor) && Enabled(s, step)
    ensures TableFresh(Next(s, step), Floor(s, step, floor))
  {
    if ByWorker(step) {
      TableKeptByWorker(s, step, floor);
    }
  }

  lemma WorkerKeptByDispatch(s: System, step: Step, floor: nat, w: nat)
    requires TableFresh(s, floor) && WorkersFresh(s, floor) && Enabled(s, step) && step.Dispatch?
    requires w in Next(s, step).workers
    ensures WorkerFresh(Next(s, step), Next(s, step).workers[w], Floor(s, step, floor))
  {
    assert w in s.workers ==> WorkerFresh(s, s.workers[w], floor);
  }

  /** What was fresh stays fresh: contacts are only added. */
  lemma StaysFresh(s: System, s': System, worker: Worker, floor: nat)
    requires s.contacts <= s'.contacts && WorkerFresh(s, worker, floor)
    ensures WorkerFresh(s', worker, floor)
  {
  }

  lemma WorkerKeptByTake(s: System, v: nat, floor: nat, w: nat)
    requires Enabled(s, Take(v)) && w in s.workers && WorkerFresh(s, s.workers[w], floor)
    ensures WorkerFresh(Handled(s, v), Handled(s, v).workers[w], floor)
  {
    StaysFresh(s, Handled(s, v), s.workers[w], floor);
    if w == v {
      var worker, worker' := s.workers[v], Handled(s, v).workers[v];
      assert worker'.queue == worker.queue[1..];
      assert worker.queue[0].pass <= floor;
    }
  }

  lemma WorkerKeptByFetch(s: System, v: nat, a: Address, floor: nat, w: nat)
    requires TableFresh(s, floor) && Enabled(s, Fetch(v, a))
    requires w in s.workers && WorkerFresh(s, s.workers[w], floor)
    ensures WorkerFresh(Next(s, Fetch(v, a)), Next(s, Fetch(v, a)).workers[w], floor)
  {
    assert Fresh(s, a, s.servers[a], floor);
  }

  /** Sending an entry, and ending a list. */
  lemma WorkerKeptByListing(s: System, step: Step, floor: nat, w: nat)
    requires Enabled(s, step) && (step.SendServer? || step.FinishList? || step.FailList?)
    requires w in s.workers && WorkerFresh(s, s.workers[w], floor)
    ensures WorkerFresh(Next(s, step), Next(s, step).workers[w], floor)
  {
  }

  lemma WorkerKeptByRemove(s: System, a: Address, floor: nat, w: nat)
    requires Enabled(s, Remove(a)) && w in s.workers && WorkerFresh(s, s.workers[w], floor)
    ensures WorkerFresh(Next(s, Remove(a)), Next(s, Remove(a)).workers[w], floor)
  {
    StaysFresh(s, Next(s, Remove(a)), s.workers[w], floor);
  }

  /** The clock, and the dispatcher before it hands the datagram over. */
  lemma WorkerKeptByOthers(s: System, step: Step, floor: nat, w: nat)
    requires Enabled(s, step) && (step.Tick? || step.Receive? || step.Examine?)
    requires w in s.workers && WorkerFresh(s, s.workers[w], floor)
    ensures Next(s, step).workers == s.workers && WorkerFresh(Next(s, step), s.workers[w], floor)
  {
  }

  lemma WorkerKept(s: System, step: Step, floor: nat, w: nat)
    requires TableFresh(s, floor) && Enabled(s, step) && !step.Dispatch?
    requires w in s.workers && WorkerFresh(s, s.workers[w], floor)
    ensures WorkerFresh(Next(s, step), Next(s, step).workers[w], floor)
  {
    if step.Take? {
      WorkerKeptByTake(s, step.worker, floor, w);
    } else if step.Fetch? {
      WorkerKeptByFetch(s, step.worker, step.address, floor, w);
    } else if step.SendServer? || step.FinishList? || step.FailList? {
      WorkerKeptByListing(s, step, floor, w);
    } else if step.Remove? {
      WorkerKeptByRemove(s, step.address, floor, w);
    } else {
      WorkerKeptByOthers(s, step, floor, w);
    }
  }

  lemma SameWorkers(s: System, step: Step)
    requires Enabled(s, step) && !step.Dispatch?
    ensures Next(s, step).workers.Keys == s.workers.Keys
  {
  }

  lemma WorkersKept(s: System, step: Step, floor: nat)
    requires TableFresh(s, floor) && WorkersFresh(s, floor) && Enabled(s, step)
    ensures WorkersFresh(Next(s, step), Floor(s, step, floor))
  {
    forall w | w in Next(s, step).workers
      ensures WorkerFresh(Next(s, step), Next(s, step).workers[w], Floor(s, step, floor))
    {
      if step.Dispatch? {
        WorkerKeptByDispatch(s, step, floor, w);
      } else {
        SameWorkers(s, step);
        WorkerKept(s, step, floor, w);
      }
    }
  }

  lemma SentKept(s: System, step: Step, floor: nat)
    requires WorkersFresh(s, floor) && SentFresh(s) && Enabled(s, step)
    ensures SentFresh(Next(s, step))
  {
  }

  lemma DoomedKept(s: System, step: Step)
    requires DoomedStale(s) && Enabled(s, step)
    ensures DoomedStale(Next(s, step))
  {
  }

  /** The start of the last pruning pass a run completed, `floor` if it completed none. */
  function LastPass(s: System, steps: seq<Step>, floor: nat): nat
    requires CanRun(s, steps)
    decreases |steps|
  {
    if steps == [] then floor else LastPass(Next(s, steps[0]), steps[1..], Floor(s, steps[0], floor))
  }

  lemma {:induction false} RunKeeps(s: System, steps: seq<Step>, floor: nat)
    requires Inv(s, floor) && CanRun(s, steps)
    ensures Inv(Run(s, steps), LastPass(s, steps, floor))
    decreases |steps|
  {
    if steps != [] {
      TableKept(s, steps[0], floor);
      WorkersKept(s, steps[0], floor);
      SentKept(s, steps[0], floor);
      DoomedKept(s, steps[0]);
      RunKeeps(Next(s, steps[0]), steps[1..], Floor(s, steps[0], floor));
    }
  }

  /** In every run, every server a worker sends in answer to a LIST datagram had registered,
      or sent a heartbeat, no earlier than 10 minutes before the pruning pass run for that datagram. */
  lemma ListedServersAreFresh(steps: seq<Step>, i: nat)
    requires CanRun(Boot(), steps) && i < |Run(Boot(), steps).sent|
    ensures var s := Run(Boot(), steps);
            var r := s.sent[i];
            && Contact(r.address, r.server.lastMessage) in s.contacts
            && r.server.lastMessage + 600000 >= r.pass
  {
    RunKeeps(Boot(), steps, 0);
  }

  // ---- The race is real ---------------------------------------------------

  ghost predicate Reached(s: System) {
    exists steps :: CanRun(Boot(), steps) && Run(Boot(), steps) == s
  }

  lemma RunStarts(s: System, first: Step, rest: seq<Step>)
    requires Enabled(s, first) && CanRun(Next(s, first), rest)
    ensures CanRun(s, [first] + rest) && Run(s, [first] + rest) == Run(Next(s, first), rest)
  {
    hide Enabled, Next;
    assert ([first] + rest)[1..] == rest;
  }

  lemma {:induction false} RunExtends(s: System, steps: seq<Step>, step: Step)
    requires CanRun(s, steps) && Enabled(Run(s, steps), step)
    ensures CanRun(s, steps + [step]) && Run(s, steps + [step]) == Next(Run(s, steps), step)
    decreases |steps|
  {
    hide Enabled, Next;
    if steps == [] {
      assert CanRun(Next(s, step), []);
      RunStarts(s, step, []);
      assert [] + [step] == [step] + [];
    } else {
      RunExtends(Next(s, steps[0]), steps[1..], step);
      RunStarts(s, steps[0], steps[1..] + [step]);
      assert steps + [step] == [steps[0]] + (steps[1..] + [step]);
    }
  }

  lemma ReachedNext(s: System, step: Step)
    requires Reached(s) && Enabled(s, step)
    ensures Reached(Next(s, step))
  {
    hide Enabled, Next;
    var steps :| CanRun(Boot(), steps) && Run(Boot(), steps) == s;
    RunExtends(Boot(), steps, step);
  }

  const SERVER_A: Address := "a"
  const CLIENT_B: Address := "b"

  /** A server registers, and its worker ends. */
  lemma Registers() returns (s: System)
    ensures Reached(s) && s.clock == 0 && s.dispatcher.Waiting?
    ensures s.servers == map[SERVER_A := Server(0)] && s.connections == map[SERVER_A := 0]
    ensures s.workers == map[0 := Worker(SERVER_A, [], Finished)]
  {
    assert CanRun(Boot(), []) && Run(Boot(), []) == Boot();
    ReachedNext(Boot(), Receive(SERVER_A, Register));
    s := Next(Boot(), Receive(SERVER_A, Register));
    ReachedNext(s, Dispatch(0));
    s := Next(s, Dispatch(0));
    assert s.workers == map[0 := Worker(SERVER_A, [Message(Register, 0)], Reading)];
    ReachedNext(s, Take(0));
    s := Next(s, Take(0));
    assert [Message(Register, 0)][1..] == [];
  }

  /** Exactly 10 minutes later it registers again: the pass finds it fresh, and its datagram is queued. */
  lemma RegistersAgain() returns (s: System)
    ensures Reached(s) && s.clock == TIME_KEEPSERVERS && s.dispatcher.Waiting?
    ensures s.servers == map[SERVER_A := Server(0)]
    ensures 1 in s.workers && s.workers[1] == Worker(SERVER_A, [Message(Register, TIME_KEEPSERVERS)], Reading)
  {
    s := Registers();
    ReachedNext(s, Tick(TIME_KEEPSERVERS));
    s := Next(s, Tick(TIME_KEEPSERVERS));
    ReachedNext(s, Receive(SERVER_A, Register));
    s := Next(s, Receive(SERVER_A, Register));
    ReachedNext(s, Examine(SERVER_A));
    s := Next(s, Examine(SERVER_A));
    assert s.dispatcher.todo == {};
    ReachedNext(s, Dispatch(1));
    s := Next(s, Dispatch(1));
  }

  /** A server that has just registered again may be removed: another client's datagram starts
      a pass that finds it stale, and its worker refreshes it before the removal. */
  lemma RefreshedServerMayBeRemoved() returns (s: System)
    ensures Reached(s) && Enabled(s, Remove(SERVER_A))
    ensures SERVER_A in s.servers && s.servers[SERVER_A].lastMessage == s.clock
    ensures SERVER_A !in Next(s, Remove(SERVER_A)).servers
  {
    s := RegistersAgain();
    ReachedNext(s, Tick(1));
    s := Next(s, Tick(1));
    ReachedNext(s, Receive(CLIENT_B, List));
    s := Next(s, Receive(CLIENT_B, List));
    ReachedNext(s, Examine(SERVER_A));
    s := Next(s, Examine(SERVER_A));
    ReachedNext(s, Take(1));
    s := Next(s, Take(1));
  }
}
