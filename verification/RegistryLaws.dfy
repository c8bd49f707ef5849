/** What a step of the master server changes, and what follows for every run: who leaves the
    table, which datagrams reach which worker, and what a list contains. */
module RegistryLaws {
  import opened Registry

  // ---- The table ----------------------------------------------------------

  /** The step is a worker taking this client's REGISTER, or its HEARTBEAT while it is listed. */
  predicate MakesContact(s: System, step: Step, a: Address)
    requires Enabled(s, step)
  {
    && step.Take? && s.workers[step.worker].client == a
    && var kind := s.workers[step.worker].queue[0].kind;
       kind.Register? || (kind.Heartbeat? && a in s.servers)
  }

  /** One step, one entry: making contact lists it as of now, removing it takes it out, and
      nothing else touches it; contacts are recorded exactly when made. */
  lemma EntryAfterStep(s: System, step: Step, a: Address)
    requires Enabled(s, step)
    ensures var s' := Next(s, step);
            && (MakesContact(s, step, a) ==> a in s'.servers && s'.servers[a].lastMessage == s.clock)
            && (!MakesContact(s, step, a) ==>
                  && (a in s'.servers <==> a in s.servers && step != Remove(a))
                  && (a in s'.servers ==> s'.servers[a] == s.servers[a]))
            && forall t: nat :: Contact(a, t) in s'.contacts <==>
                 Contact(a, t) in s.contacts || (MakesContact(s, step, a) && t == s.clock)
  {
  }

  /** A listed server was last in contact when its entry says, and no contact is in the future. */
  predicate EntriesAreLatest(s: System) {
    && (forall c | c in s.contacts :: c.time <= s.clock)
    && (forall a | a in s.servers :: Contact(a, s.servers[a].lastMessage) in s.contacts)
    && (forall c | c in s.contacts && c.address in s.servers :: c.time <= s.servers[c.address].lastMessage)
  }

  lemma EntriesKept(s: System, step: Step)
    requires EntriesAreLatest(s) && Enabled(s, step)
    ensures EntriesAreLatest(Next(s, step))
  {
    var s' := Next(s, step);
    assert s.clock <= s'.clock;
    forall a | a in s'.servers ensures Contact(a, s'.servers[a].lastMessage) in s'.contacts {
      EntryAfterStep(s, step, a);
    }
    forall c | c in s'.contacts
      ensures c.time <= s'.clock && (c.address in s'.servers ==> c.time <= s'.servers[c.address].lastMessage)
    {
      EntryAfterStep(s, step, c.address);
      assert c == Contact(c.address, c.time);
    }
  }

  lemma {:induction false} RunKeepsEntries(s: System, steps: seq<Step>)
    requires EntriesAreLatest(s) && CanRun(s, steps)
    ensures EntriesAreLatest(Run(s, steps))
    decreases |steps|
  {
    if steps != [] {
      EntriesKept(s, steps[0]);
      RunKeepsEntries(Next(s, steps[0]), steps[1..]);
    }
  }

  /** No contact within the last 10 minutes. */
  predicate Silent(s: System, a: Address) {
    forall c | c in s.contacts && c.address == a :: s.clock - c.time > 600000
  }

  predicate ContactSince(s: System, a: Address, time: nat) {
    exists c :: c in s.contacts && c.address == a && c.time >= time
  }

  /** In every run, whatever step takes a server out of the table is its own removal, and that
      server has been silent for more than 10 minutes, unless it made contact after the pass
      that found it stale had begun. */
  lemma RemovalIsStaleOrRaced(steps: seq<Step>, step: Step, b: Address)
    requires CanRun(Boot(), steps) && Enabled(Run(Boot(), steps), step)
    requires b in Run(Boot(), steps).servers && b !in Next(Run(Boot(), steps), step).servers
    ensures var s := Run(Boot(), steps);
            step == Remove(b) && (Silent(s, b) || ContactSince(s, b, s.dispatcher.since))
  {
    var s := Run(Boot(), steps);
    RunKeeps(Boot(), steps, 0);
    RunKeepsEntries(Boot(), steps);
    EntryAfterStep(s, step, b);
    assert Contact(b, s.servers[b].lastMessage) in s.contacts;
  }

  // ---- Datagrams and workers ----------------------------------------------

  predicate Alive(s: System, w: nat) {
    w in s.workers && !s.workers[w].phase.Finished?
  }

  /** Connections lead to workers of their client, and a running worker is its client's connection. */
  ghost predicate Connected(s: System) {
    && (forall c | c in s.connections :: s.connections[c] in s.workers && s.workers[s.connections[c]].client == c)
    && (forall w | Alive(s, w) :: s.workers[w].client in s.connections && s.connections[s.workers[w].client] == w)
  }

  /** The worker a datagram goes to: the client's running one, or a new one. */
  function Addressee(s: System, id: nat): nat
    requires Enabled(s, Dispatch(id))
  {
    if s.dispatcher.client in Live(s) then Live(s)[s.dispatcher.client] else id
  }

  /** A worker after a step: the datagram dispatched to it is added to its queue, and the one
      it takes is taken off; it runs on unless that was one it could read, other than LIST, or
      its list is done. Its client never changes. */
  lemma WorkerAfterStep(s: System, step: Step, w: nat)
    requires Enabled(s, step) && w in s.workers
    ensures var worker := s.workers[w];
            && w in Next(s, step).workers
            && var worker' := Next(s, step).workers[w];
               && worker'.client == worker.client
               && worker'.queue ==
                  (if step == Take(w) then worker.queue[1..]
                   else if step.Dispatch? && w == Addressee(s, step.id) then
                     worker.queue + [Message(s.dispatcher.kind, s.dispatcher.since)]
                   else worker.queue)
               && (worker'.phase.Finished? <==>
                     || worker.phase.Finished?
                     || step == FinishList(w)
                     || (step == Take(w) && !worker.queue[0].kind.List? && !worker.queue[0].kind.Unreadable?))
               && (worker'.phase.Listing? && !worker.phase.Listing? ==> step == Take(w) && worker.queue[0].kind.List?)
  {
  }

  /** New workers are made by the dispatcher only, for a client that has none running. */
  lemma NewWorker(s: System, step: Step, w: nat)
    requires Enabled(s, step) && w !in s.workers && w in Next(s, step).workers
    ensures step == Dispatch(w) && s.dispatcher.client !in Live(s) && Addressee(s, w) == w
    ensures Next(s, step).workers[w] ==
            Worker(s.dispatcher.client, [Message(s.dispatcher.kind, s.dispatcher.since)], Reading)
  {
  }

  lemma ConnectionsAfterStep(s: System, step: Step, c: Address)
    requires Enabled(s, step)
    ensures !step.Dispatch? ==> Next(s, step).connections == s.connections
    ensures step.Dispatch? ==>
              (c in Next(s, step).connections <==> c in Live(s) || c == s.dispatcher.client)
    ensures step.Dispatch? && c in Next(s, step).connections ==>
              Next(s, step).connections[c] == if c in Live(s) then Live(s)[c] else step.id
  {
  }

  lemma ConnectedKept(s: System, step: Step)
    requires Connected(s) && Enabled(s, step)
    ensures Connected(Next(s, step))
  {
    var s' := Next(s, step);
    forall c | c in s'.connections
      ensures s'.connections[c] in s'.workers && s'.workers[s'.connections[c]].client == c
    {
      ConnectionsAfterStep(s, step, c);
      if s'.connections[c] in s.workers {
        WorkerAfterStep(s, step, s'.connections[c]);
      }
    }
    forall w | Alive(s', w)
      ensures s'.workers[w].client in s'.connections && s'.connections[s'.workers[w].client] == w
    {
      ConnectionsAfterStep(s, step, s'.workers[w].client);
      if w in s.workers {
        WorkerAfterStep(s, step, w);
        assert Alive(s, w);
      } else {
        NewWorker(s, step, w);
      }
    }
  }

  lemma {:induction false} RunKeepsConnected(s: System, steps: seq<Step>)
    requires Connected(s) && CanRun(s, steps)
    ensures Connected(Run(s, steps))
    decreases |steps|
  {
    if steps != [] {
      ConnectedKept(s, steps[0]);
      RunKeepsConnected(Next(s, steps[0]), steps[1..]);
    }
  }

  /** In every run no client has two running workers. */
  lemma OneWorkerEach(steps: seq<Step>, v: nat, w: nat)
    requires CanRun(Boot(), steps) && Alive(Run(Boot(), steps), v) && Alive(Run(Boot(), steps), w)
    requires Run(Boot(), steps).workers[v].client == Run(Boot(), steps).workers[w].client
    ensures v == w
  {
    RunKeepsConnected(Boot(), steps);
  }

  /** In every run, each datagram is queued, behind those before it, to a running worker of the
      client it came from, and to no other. */
  lemma DatagramIsQueued(steps: seq<Step>, id: nat) returns (w: nat)
    requires CanRun(Boot(), steps) && Enabled(Run(Boot(), steps), Dispatch(id))
    ensures var s := Run(Boot(), steps);
            var s', d := Next(s, Dispatch(id)), s.dispatcher;
            && Alive(s', w) && s'.workers[w].client == d.client
            && s'.workers[w].queue ==
               (if w in s.workers then s.workers[w].queue else []) + [Message(d.kind, d.since)]
            && forall v | v in s'.workers && v != w :: v in s.workers && s'.workers[v].queue == s.workers[v].queue
  {
    var s := Run(Boot(), steps);
    RunKeepsConnected(Boot(), steps);
    w := Addressee(s, id);
    if w in s.workers {
      WorkerAfterStep(s, Dispatch(id), w);
    }
    var s' := Next(s, Dispatch(id));
    forall v | v in s'.workers && v != w ensures v in s.workers && s'.workers[v].queue == s.workers[v].queue {
      if v in s.workers {
        WorkerAfterStep(s, Dispatch(id), v);
      } else {
        NewWorker(s, Dispatch(id), v);
      }
    }
  }

  /** A datagram starts a pass over the whole table as of its receipt. */
  lemma ReceiptStartsPass(s: System, c: Address, kind: Kind)
    requires Enabled(s, Receive(c, kind))
    ensures var s' := Next(s, Receive(c, kind));
            && s'.dispatcher.Pruning? && s'.dispatcher.client == c && s'.dispatcher.kind == kind
            && s'.dispatcher.since == s'.clock == s.clock
            && forall a :: a in s.servers <==> a in s'.dispatcher.todo
  {
  }

  // ---- Lists --------------------------------------------------------------

  /** What a worker owes its client: of the servers listed when it began, each is still to
      come, about to be sent, was removed since, or has been sent. */
  predicate Owes(s: System, worker: Worker) {
    worker.phase.Listing? ==>
      var tour := worker.phase.tour;
      && tour.from <= |s.sent|
      && forall a | a in tour.began ::
           || a in tour.todo || a in tour.gone
           || (worker.phase.next.Entry? && worker.phase.next.address == a)
           || WasSent(s, tour.from, worker.client, a)
  }

  predicate WasSent(s: System, from: nat, to: Address, a: Address) {
    exists i :: from <= i < |s.sent| && s.sent[i].to == to && s.sent[i].address == a
  }

  /** What is sent is what was fetched, to the worker's own client. */
  lemma SentAfterStep(s: System, step: Step)
    requires Enabled(s, step)
    ensures !step.SendServer? ==> Next(s, step).sent == s.sent
    ensures step.SendServer? ==>
              var worker := s.workers[step.worker];
              Next(s, step).sent ==
              s.sent + [Sent(worker.client, worker.phase.next.address, worker.phase.next.server, worker.phase.pass)]
    ensures step.Fetch? ==>
              Next(s, step).workers[step.worker].phase.next == Entry(step.address, s.servers[step.address])
  {
  }

  lemma SentStays(s: System, s': System, from: nat, to: Address, a: Address)
    requires s.sent <= s'.sent && WasSent(s, from, to, a)
    ensures WasSent(s', from, to, a)
  {
    var i :| from <= i < |s.sent| && s.sent[i].to == to && s.sent[i].address == a;
    assert s'.sent[i] == s.sent[i];
  }

  /** A tour after a step, while it lasts: it loses from its list what it visits or what is
      removed, and remembers the latter. */
  lemma TourAfterStep(s: System, step: Step, w: nat)
    requires Enabled(s, step) && IsListing(s, w) && IsListing(Next(s, step), w)
    ensures var phase, phase' := s.workers[w].phase, Next(s, step).workers[w].phase;
            && phase'.tour.began == phase.tour.began && phase'.tour.from == phase.tour.from && phase'.pass == phase.pass
            && phase'.tour.todo ==
               (if step.Remove? then phase.tour.todo - {step.address}
                else if step.Fetch? && step.worker == w then phase.tour.todo - {step.address}
                else phase.tour.todo)
            && phase'.tour.gone == (if step.Remove? then phase.tour.gone + {step.address} else phase.tour.gone)
            && phase'.next ==
               (if step.Fetch? && step.worker == w then Entry(step.address, s.servers[step.address])
                else if step == SendServer(w) then Nothing
                else phase.next)
  {
  }

  lemma TourBegins(s: System, step: Step, w: nat)
    requires Enabled(s, step) && !IsListing(s, w) && IsListing(Next(s, step), w)
    ensures step == Take(w) && s.workers[w].queue[0].kind.List?
    ensures Next(s, step).workers[w].phase ==
            Listing(s.workers[w].queue[0].pass, Nothing, Tour(s.servers.Keys, s.servers.Keys, {}, |s.sent|))
  {
  }

  lemma OwesKept(s: System, step: Step, w: nat)
    requires Enabled(s, step) && w in Next(s, step).workers && (w in s.workers ==> Owes(s, s.workers[w]))
    ensures Owes(Next(s, step), Next(s, step).workers[w])
  {
    var s' := Next(s, step);
    SentAfterStep(s, step);
    if IsListing(s', w) {
      if IsListing(s, w) {
        TourAfterStep(s, step, w);
        WorkerAfterStep(s, step, w);
        OwedKept(s, s', step, w);
      } else {
        TourBegins(s, step, w);
      }
    }
  }

  lemma OwedKept(s: System, s': System, step: Step, w: nat)
    requires Enabled(s, step) && s' == Next(s, step) && IsListing(s, w) && IsListing(s', w) && Owes(s, s.workers[w])
    ensures Owes(s', s'.workers[w])
  {
    var client, tour, tour' := s.workers[w].client, s.workers[w].phase.tour, s'.workers[w].phase.tour;
    SentAfterStep(s, step);
    TourAfterStep(s, step, w);
    WorkerAfterStep(s, step, w);
    forall a | a in tour.began
      ensures || a in tour'.todo || a in tour'.gone
              || (s'.workers[w].phase.next.Entry? && s'.workers[w].phase.next.address == a)
              || WasSent(s', tour.from, client, a)
    {
      if WasSent(s, tour.from, client, a) {
        SentStays(s, s', tour.from, client, a);
      } else if step == SendServer(w) && s.workers[w].phase.next.address == a {
        assert s'.sent[|s.sent|].address == a;
      }
    }
  }

  lemma {:induction false} RunKeepsOwes(s: System, steps: seq<Step>)
    requires CanRun(s, steps) && forall w | w in s.workers :: Owes(s, s.workers[w])
    ensures forall w | w in Run(s, steps).workers :: Owes(Run(s, steps), Run(s, steps).workers[w])
    decreases |steps|
  {
    if steps != [] {
      forall w | w in Next(s, steps[0]).workers ensures Owes(Next(s, steps[0]), Next(s, steps[0]).workers[w]) {
        OwesKept(s, steps[0], w);
      }
      RunKeepsOwes(Next(s, steps[0]), steps[1..]);
    }
  }

  /** In every run, a worker that finishes a list has sent its client every server that was in
      the table when the list began and was not removed before it ended. */
  lemma ListIsComplete(steps: seq<Step>, w: nat, a: Address)
    requires CanRun(Boot(), steps) && Enabled(Run(Boot(), steps), FinishList(w))
    requires var tour := Run(Boot(), steps).workers[w].phase.tour; a in tour.began && a !in tour.gone
    ensures var s := Run(Boot(), steps);
            WasSent(s, s.workers[w].phase.tour.from, s.workers[w].client, a)
  {
    RunKeepsOwes(Boot(), steps);
  }
}
