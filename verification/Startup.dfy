/** Start and Stop (message_handler.go:69-94) with the service's lock (es/service.go:115-138): every
    interleaving of the connector, the handlers, the health checks and Stop. */
module Startup {
  import opened Strings
  import opened Annotations
  import M = Mapper
  import opened Message
  import opened Redelivery

  /** Where a handler is: its action is chosen, or it holds the lock, or it has returned. */
  datatype Phase = Waiting | Holding | Returned

  /** A handler goroutine; `since` is how many requests were over when its message arrived. */
  datatype Worker = Worker(action: Action, phase: Phase, since: nat)

  /** Where the connector goroutine is: it asks for a client; it has one; it holds the lock in SetClient,
      before and after the store; it has returned from SetClient; it has started the consumer. */
  datatype Connector = Connecting | Dialled | Storing | Stored | Connected | Consuming
  {
    predicate HoldsLock() { Storing? || Stored? }

    predicate PastStore() { Stored? || Connected? || Consuming? }
  }

  /** A lock acquisition, and whether the request made under it took effect. */
  datatype Turn = Turn(worker: nat, took: bool)

  datatype System = System(
    connector: Connector, client: bool, stopped: bool, workers: seq<Worker>, owner: Option<nat>,
    turns: seq<Turn>, initial: Index, index: Index, crashed: bool)

  /** The index the service finds when it starts is arbitrary. */
  function Init(index: Index): System { System(Connecting, false, false, [], None, [], index, index, false) }

  datatype Event =
    | ConnectFails
    | ConnectSucceeds
    | SetClientLocks
    | ClientStored
    | SetClientReturns
    | ConsumerStarts
    | MessageArrives(action: Action)
    | LockTaken(worker: nat)
    | RequestMade(took: bool)
    | HealthRead
    | StopCalled

  predicate LockFree(s: System) { s.owner == None && !s.connector.HoldsLock() }

  /** When an event can happen. Nothing here asks for a client: that it is there is what is proved. */
  predicate Enabled(s: System, e: Event) {
    match e
    case ConnectFails => s.connector == Connecting
    case ConnectSucceeds => s.connector == Connecting
    case SetClientLocks => s.connector == Dialled && LockFree(s)
    case ClientStored => s.connector == Storing
    case SetClientReturns => s.connector == Stored
    case ConsumerStarts => s.connector == Connected
    case MessageArrives(_) => s.connector == Consuming
    case LockTaken(w) => LockFree(s) && w < |s.workers| && s.workers[w].phase == Waiting
    case RequestMade(_) => s.owner.Some? && s.owner.value < |s.workers|
    case HealthRead => true
    case StopCalled => true
  }

  /** A handler with nothing to do returns without the lock. A request without a client crashes. */
  function Next(s: System, e: Event): System
    requires Enabled(s, e)
  {
    match e
    case ConnectFails => s
    case ConnectSucceeds => s.(connector := Dialled)
    case SetClientLocks => s.(connector := Storing)
    case ClientStored => s.(client := true, connector := Stored)
    case SetClientReturns => s.(connector := Connected)
    case ConsumerStarts => s.(connector := Consuming)
    case MessageArrives(a) => s.(workers := s.workers + [Worker(a, if a.Ignore? then Returned else Waiting, |s.turns|)])
    case LockTaken(w) => s.(owner := Some(w), workers := s.workers[w := s.workers[w].(phase := Holding)])
    case RequestMade(took) =>
      var w := s.owner.value;
      var returned := s.(owner := None, workers := s.workers[w := s.workers[w].(phase := Returned)]);
      if !s.client then returned.(crashed := true)
      else
        var index := if took then Apply(s.index, s.workers[w].action) else s.index;
        returned.(turns := s.turns + [Turn(w, took)], index := index)
    case HealthRead => s
    case StopCalled => s.(stopped := true)
  }

  predicate IsRun(s: System, events: seq<Event>)
    decreases |events|
  {
    events == [] || (Enabled(s, events[0]) && IsRun(Next(s, events[0]), events[1..]))
  }

  function After(s: System, events: seq<Event>): System
    requires IsRun(s, events)
    decreases |events|
  {
    if events == [] then s else After(Next(s, events[0]), events[1..])
  }

  // ----- what every step keeps -----

  predicate TurnsFit(workers: seq<Worker>, turns: seq<Turn>) {
    forall i :: 0 <= i < |turns| ==> turns[i].worker < |workers|
  }

  /** The actions whose requests took effect, in the order in which the lock was held. */
  function Effects(workers: seq<Worker>, turns: seq<Turn>): seq<Action>
    requires TurnsFit(workers, turns)
  {
    if turns == [] then []
    else
      var t := turns[|turns| - 1];
      Effects(workers, turns[..|turns| - 1]) + if t.took then [workers[t.worker].action] else []
  }

  /** The client comes before the consumer and the workers, so no request was made without one. */
  predicate ClientFirst(s: System) {
    && !s.crashed
    && (s.connector.PastStore() ==> s.client)
    && (|s.workers| > 0 ==> s.connector.Consuming?)
  }

  /** The lock has one owner, the connector or a handler, and only that handler is holding. */
  predicate OneHolder(s: System) {
    && (s.owner.Some? ==> s.owner.value < |s.workers| && !s.connector.HoldsLock())
    && forall w :: 0 <= w < |s.workers| ==> (s.workers[w].phase == Holding <==> s.owner == Some(w))
  }

  /** A turn is that of a worker that had something to do and has returned, and came no earlier than
      the turns that were over when its message arrived. */
  predicate TurnFits(workers: seq<Worker>, i: nat, t: Turn) {
    && t.worker < |workers|
    && workers[t.worker].phase == Returned && !workers[t.worker].action.Ignore?
    && workers[t.worker].since <= i
  }

  /** A worker that has returned had its turn, or had nothing to do. */
  predicate WorkerFits(turns: seq<Turn>, w: nat, worker: Worker) {
    && (worker.phase == Returned && !worker.action.Ignore? ==> HasTurn(turns, w))
    && (worker.action.Ignore? ==> worker.phase == Returned)
    && worker.since <= |turns|
  }

  /** Turns and workers fit, and no worker has two turns. */
  predicate TurnsAreOnce(s: System) {
    && (forall i :: 0 <= i < |s.turns| ==> TurnFits(s.workers, i, s.turns[i]))
    && (forall i, j :: 0 <= i < j < |s.turns| ==> s.turns[i].worker != s.turns[j].worker)
    && (forall w :: 0 <= w < |s.workers| ==> WorkerFits(s.turns, w, s.workers[w]))
  }

  predicate HasTurn(turns: seq<Turn>, w: nat) { exists i :: 0 <= i < |turns| && turns[i].worker == w }

  /** The index is that of the turns taken so far. */
  predicate IndexOfTurns(s: System) {
    TurnsFit(s.workers, s.turns) && s.index == ApplyAll(s.initial, Effects(s.workers, s.turns))
  }

  predicate Inv(s: System) {
    ClientFirst(s) && OneHolder(s) && TurnsAreOnce(s) && IndexOfTurns(s)
  }

  /** Only the actions of the workers matter. */
  lemma {:induction false} EffectsSame(before: seq<Worker>, after: seq<Worker>, turns: seq<Turn>)
    requires |before| <= |after|
    requires TurnsFit(before, turns)
    requires forall w :: 0 <= w < |before| ==> before[w].action == after[w].action
    ensures Effects(before, turns) == Effects(after, turns)
    decreases |turns|
  {
    if turns != [] { EffectsSame(before, after, turns[..|turns| - 1]); }
  }

  lemma MoreTurnsFit(turns: seq<Turn>, t: Turn, w: nat, worker: Worker)
    requires WorkerFits(turns, w, worker)
    ensures WorkerFits(turns + [t], w, worker)
  {
    if HasTurn(turns, w) {
      var i :| 0 <= i < |turns| && turns[i].worker == w;
      assert (turns + [t])[i].worker == w;
    }
  }

  lemma RequestKeepsTurns(s: System, took: bool)
    requires Inv(s) && Enabled(s, RequestMade(took))
    ensures TurnsAreOnce(Next(s, RequestMade(took)))
  {
    var w, s' := s.owner.value, Next(s, RequestMade(took));
    assert s.workers[w].phase == Holding;
    assert WorkerFits(s.turns, w, s.workers[w]);
    forall i | 0 <= i < |s'.turns| ensures TurnFits(s'.workers, i, s'.turns[i]) {
      assert i < |s.turns| ==> s'.turns[i] == s.turns[i] && TurnFits(s.workers, i, s.turns[i]);
    }
    forall i, j | 0 <= i < j < |s'.turns| ensures s'.turns[i].worker != s'.turns[j].worker {
      assert s'.turns[i] == s.turns[i] && TurnFits(s.workers, i, s.turns[i]);
    }
    forall v | 0 <= v < |s'.workers| ensures WorkerFits(s'.turns, v, s'.workers[v]) {
      MoreTurnsFit(s.turns, Turn(w, took), v, s.workers[v]);
      assert s'.turns[|s.turns|].worker == w;
    }
  }

  lemma EffectsSnoc(workers: seq<Worker>, turns: seq<Turn>, w: nat, took: bool)
    requires TurnsFit(workers, turns) && w < |workers|
    ensures TurnsFit(workers, turns + [Turn(w, took)])
    ensures Effects(workers, turns + [Turn(w, took)]) ==
            Effects(workers, turns) + if took then [workers[w].action] else []
  {
    assert (turns + [Turn(w, took)])[..|turns|] == turns;
  }

  lemma AppliedOnce(initial: Index, effects: seq<Action>, a: Action, took: bool)
    ensures ApplyAll(initial, effects + if took then [a] else []) ==
            if took then Apply(ApplyAll(initial, effects), a) else ApplyAll(initial, effects)
  {
    ApplyAllSnoc(initial, effects, a);
    assert effects + [] == effects;
  }

  lemma RequestKeepsIndex(s: System, took: bool)
    requires Inv(s) && Enabled(s, RequestMade(took))
    ensures IndexOfTurns(Next(s, RequestMade(took)))
  {
    var w, s' := s.owner.value, Next(s, RequestMade(took));
    EffectsSame(s.workers, s'.workers, s.turns);
    EffectsSnoc(s'.workers, s.turns, w, took);
    AppliedOnce(s.initial, Effects(s.workers, s.turns), s.workers[w].action, took);
  }

  lemma WorkersKeepIndex(s: System, e: Event)
    requires Inv(s) && Enabled(s, e) && (e.MessageArrives? || e.LockTaken?)
    ensures IndexOfTurns(Next(s, e))
  {
    EffectsSame(s.workers, Next(s, e).workers, s.turns);
  }

  lemma WorkersKeepTurns(s: System, e: Event)
    requires Inv(s) && Enabled(s, e) && (e.MessageArrives? || e.LockTaken?)
    ensures TurnsAreOnce(Next(s, e)) && OneHolder(Next(s, e))
  {
  }

  /** Inv asks little of the connector, the client and the stop flag. */
  lemma InvElsewhere(s: System, connector: Connector, client: bool, stopped: bool)
    requires Inv(s) && ClientFirst(s.(connector := connector, client := client, stopped := stopped))
    requires s.owner.Some? ==> !connector.HoldsLock()
    ensures Inv(s.(connector := connector, client := client, stopped := stopped))
  {
    var s' := s.(connector := connector, client := client, stopped := stopped);
    assert TurnsAreOnce(s') && IndexOfTurns(s') && OneHolder(s');
  }

  /** Steps of the connector, the health check and Stop leave the workers alone. */
  lemma OthersKeepInv(s: System, e: Event)
    requires Inv(s) && Enabled(s, e) && !e.MessageArrives? && !e.LockTaken? && !e.RequestMade?
    ensures Inv(Next(s, e))
  {
    var s' := Next(s, e);
    if !e.ConnectFails? && !e.HealthRead? {
      InvElsewhere(s, s'.connector, s'.client, s'.stopped);
    }
  }

  lemma WorkersKeepInv(s: System, e: Event)
    requires Inv(s) && Enabled(s, e) && (e.MessageArrives? || e.LockTaken?)
    ensures Inv(Next(s, e))
  {
    WorkersKeepTurns(s, e);
    WorkersKeepIndex(s, e);
  }

  lemma RequestKeepsHolder(s: System, took: bool)
    requires Inv(s) && Enabled(s, RequestMade(took))
    ensures OneHolder(Next(s, RequestMade(took))) && ClientFirst(Next(s, RequestMade(took)))
  {
  }

  lemma StepKeepsInv(s: System, e: Event)
    requires Inv(s) && Enabled(s, e)
    ensures Inv(Next(s, e))
  {
    if e.RequestMade? {
      RequestKeepsHolder(s, e.took);
      RequestKeepsTurns(s, e.took);
      RequestKeepsIndex(s, e.took);
    } else if e.MessageArrives? || e.LockTaken? {
      WorkersKeepInv(s, e);
    } else {
      OthersKeepInv(s, e);
    }
  }

  lemma {:induction false} RunKeepsInv(s: System, events: seq<Event>)
    requires Inv(s) && IsRun(s, events)
    ensures Inv(After(s, events))
    decreases |events|
  {
    if events != [] {
      StepKeepsInv(s, events[0]);
      RunKeepsInv(Next(s, events[0]), events[1..]);
    }
  }

  lemma InitHasInv(index: Index)
    ensures Inv(Init(index))
  {
  }

  // ----- every run from the start -----

  /** No interleaving makes a request, runs the consumer or handles a message without a client, and at no
      time do the connector and a handler, or two handlers, hold the lock. */
  lemma NeverCrashes(index: Index, events: seq<Event>)
    requires IsRun(Init(index), events)
    ensures ClientFirst(After(Init(index), events)) && OneHolder(After(Init(index), events))
  {
    InitHasInv(index);
    RunKeepsInv(Init(index), events);
  }

  /** The client is never taken away again. */
  lemma {:induction false} ClientStays(s: System, events: seq<Event>)
    requires s.client && IsRun(s, events)
    ensures After(s, events).client
    decreases |events|
  {
    if events != [] { ClientStays(Next(s, events[0]), events[1..]); }
  }

  /** The concurrent handlers act like one after the other in the order in which they got the lock: the
      index is that of the sequential run, each handler is in the order at most once, one that has
      finished is in it, and whoever finished before a message came stands before that message. */
  lemma HandlersAreSerial(index: Index, events: seq<Event>)
    requires IsRun(Init(index), events)
    ensures var s := After(Init(index), events); TurnsAreOnce(s) && IndexOfTurns(s)
    ensures After(Init(index), events).initial == index
  {
    InitHasInv(index);
    RunKeepsInv(Init(index), events);
    InitialStays(Init(index), events);
  }

  lemma {:induction false} InitialStays(s: System, events: seq<Event>)
    requires IsRun(s, events)
    ensures After(s, events).initial == s.initial
    decreases |events|
  {
    if events != [] { InitialStays(Next(s, events[0]), events[1..]); }
  }

  /** The deliveries whose requests took effect, in the order in which the lock was held. */
  function InLockOrder(turns: seq<Turn>, ds: seq<Delivery>): seq<Delivery>
    requires forall i :: 0 <= i < |turns| ==> turns[i].worker < |ds|
  {
    if turns == [] then []
    else
      var t := turns[|turns| - 1];
      InLockOrder(turns[..|turns| - 1], ds) + if t.took then [ds[t.worker]] else []
  }

  /** Each worker does what its delivery says, whether it reads the mapper's URL before or after it is secured. */
  ghost predicate ActsOn(s: Settings, url: string, workers: seq<Worker>, ds: seq<Delivery>)
    requires Sorts(s.lib.sorter)
  {
    |ds| == |workers| && forall w :: 0 <= w < |ds| ==>
      exists u :: (u == url || u == M.Secured(url)) &&
        workers[w].action == ActionOf(s, u, ds[w].msg, ds[w].newTid, ds[w].contentType)
  }

  lemma ActsOnFirst(s: Settings, url: string, workers: seq<Worker>, ds: seq<Delivery>, w: nat)
    requires Sorts(s.lib.sorter) && ActsOn(s, url, workers, ds) && w < |ds|
    ensures workers[w].action == ActionOf(s, url, ds[w].msg, ds[w].newTid, ds[w].contentType)
  {
    ActionOfSecured(s, url, ds[w]);
  }

  lemma {:induction false} EffectsAreActions(s: Settings, url: string, workers: seq<Worker>, turns: seq<Turn>,
                                             ds: seq<Delivery>)
    requires Sorts(s.lib.sorter) && ActsOn(s, url, workers, ds) && TurnsFit(workers, turns)
    ensures Effects(workers, turns) == Actions(s, url, InLockOrder(turns, ds))
    decreases |turns|
  {
    if turns != [] {
      var before, t := turns[..|turns| - 1], turns[|turns| - 1];
      EffectsAreActions(s, url, workers, before, ds);
      ActsOnFirst(s, url, workers, ds, t.worker);
      ActionsSnoc(s, url, InLockOrder(before, ds), ds[t.worker]);
    }
  }

  lemma ActionsSnoc(s: Settings, url: string, ds: seq<Delivery>, d: Delivery)
    requires Sorts(s.lib.sorter)
    ensures Actions(s, url, ds + [d]) == Actions(s, url, ds) + [ActionOf(s, url, d.msg, d.newTid, d.contentType)]
    ensures Actions(s, url, ds + []) == Actions(s, url, ds) + []
  {
    assert ds + [] == ds;
  }

  /** Concurrent handlers leave the index of the sequential run over their deliveries, in the order in which
      they held the lock, less those whose requests had no effect. */
  lemma ConcurrentIsSequential(s: Settings, st: State, events: seq<Event>, ds: seq<Delivery>)
    requires Sorts(s.lib.sorter) && IsRun(Init(st.index), events)
    requires ActsOn(s, st.baseAPIURL, After(Init(st.index), events).workers, ds)
    ensures var end := After(Init(st.index), events);
            TurnsFit(end.workers, end.turns) && end.index == Run(s, st, InLockOrder(end.turns, ds)).index
  {
    HandlersAreSerial(st.index, events);
    var end := After(Init(st.index), events);
    EffectsAreActions(s, st.baseAPIURL, end.workers, end.turns, ds);
    RunApplies(s, st, InLockOrder(end.turns, ds));
  }

  /** Once all is quiet the document of a uuid is that of the last turn about it. */
  lemma QuietIndex(index: Index, events: seq<Event>, uuid: string)
    requires IsRun(Init(index), events)
    ensures var s := After(Init(index), events);
            TurnsFit(s.workers, s.turns) &&
            At(s.index, uuid) ==
              match LastEffect(Effects(s.workers, s.turns), uuid) case Some(left) => left case None => At(index, uuid)
  {
    HandlersAreSerial(index, events);
    var s := After(Init(index), events);
    LastActionDecides(index, Effects(s.workers, s.turns), uuid);
  }
}
