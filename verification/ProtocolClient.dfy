/**
  The request/response client of one headless player process.

  Each step below is one uninterrupted turn of the event loop: a call, a line from
  the child, a timer, the settling of a request's own cleanup, the child's exit.
 */
module ProtocolClient {
  import opened Wrappers

  /** How a request's promise settled. */
  datatype Outcome = Replied(ok: bool, data: int) | TimedOut | ProtocolError | ClientExited

  datatype Step =
    | Connect(child: nat)
    | ConnectFailed
    | Request(writable: bool)
    | Reply(id: nat, ok: bool, data: int)
    | Event(kind: string)
    | Fatal
    | Timeout(id: nat)
    | Finish(id: nat)
    | Exit(child: nat)
    | DisconnectStarted
    | DisconnectFinished

  datatype Client = Client(
    child: Option<nat>, connected: bool, expectedExit: bool, sequence: nat,
    pending: set<nat>, outcomes: map<nat, Outcome>, events: seq<string>)

  const FRESH := Client(None, false, false, 0, {}, map[], [])

  function ConnectionStateAfterEvent(current: bool, kind: string): bool {
    if kind == "spawn" then true else if kind == "end" then false else current
  }

  /** A promise takes its first outcome and ignores every later one. */
  function SettleAll(outcomes: map<nat, Outcome>, ids: set<nat>, outcome: Outcome): map<nat, Outcome> {
    outcomes + map id | id in ids && id !in outcomes :: outcome
  }

  lemma SettleNone(outcomes: map<nat, Outcome>, outcome: Outcome)
    ensures SettleAll(outcomes, {}, outcome) == outcomes
  {
  }

  lemma SettleMore(outcomes: map<nat, Outcome>, ids: set<nat>, id: nat, outcome: Outcome)
    ensures SettleAll(SettleAll(outcomes, ids, outcome), {id}, outcome) == SettleAll(outcomes, ids + {id}, outcome)
  {
  }

  function Apply(s: Client, step: Step): Client {
    match step
    case Connect(child) => if s.connected then s else s.(child := Some(child), expectedExit := false)
    case ConnectFailed => s.(expectedExit := true)
    case Request(writable) =>
      if s.child.None? || !writable then s
      else s.(sequence := s.sequence + 1, pending := s.pending + {s.sequence + 1})
    case Reply(id, ok, data) =>
      if id !in s.pending then s else s.(outcomes := SettleAll(s.outcomes, {id}, Replied(ok, data)))
    case Event(kind) =>
      if kind == "" then s
      else s.(events := s.events + [kind], connected := ConnectionStateAfterEvent(s.connected, kind))
    case Fatal => s.(outcomes := SettleAll(s.outcomes, s.pending, ProtocolError))
    case Timeout(id) =>
      if id !in s.pending then s else s.(outcomes := SettleAll(s.outcomes, {id}, TimedOut))
    case Finish(id) => if id in s.outcomes then s.(pending := s.pending - {id}) else s
    case Exit(child) =>
      s.(child := if s.child == Some(child) then None else s.child, connected := false,
         outcomes := SettleAll(s.outcomes, s.pending, ClientExited), pending := {},
         events := if s.expectedExit then s.events else s.events + ["end"])
    case DisconnectStarted =>
      if s.child.None? then s else s.(expectedExit := true, events := s.events + ["disconnect_requested"])
    case DisconnectFinished => s.(connected := false)
  }

  function Run(steps: seq<Step>): Client {
    if steps == [] then FRESH else Apply(Run(steps[..|steps| - 1]), steps[|steps| - 1])
  }

  // ----- The object -----

  class Connection {
    var child: Option<nat>
    var isConnected: bool
    var expectedExit: bool
    var requestSequence: nat
    var pending: set<nat>
    var outcomes: map<nat, Outcome>
    var events: seq<string>

    ghost function State(): Client
      reads this
    {
      Client(child, isConnected, expectedExit, requestSequence, pending, outcomes, events)
    }

    constructor ()
      ensures State() == FRESH
    {
      child, isConnected, expectedExit, requestSequence := None, false, false, 0;
      pending, outcomes, events := {}, map[], [];
    }

    method Settle(id: nat, outcome: Outcome)
      modifies this`outcomes
      ensures outcomes == SettleAll(old(outcomes), {id}, outcome)
    {
      if id !in outcomes { outcomes := outcomes[id := outcome]; }
      assert outcomes == SettleAll(old(outcomes), {id}, outcome);
    }

    /** The loop that rejects every pending request with one error. */
    method RejectAll(outcome: Outcome)
      modifies this`outcomes
      ensures outcomes == SettleAll(old(outcomes), pending, outcome)
    {
      var left := pending;
      hide SettleAll;
      SettleNone(outcomes, outcome);
      assert pending - left == {};
      while left != {}
        invariant left <= pending
        invariant outcomes == SettleAll(old(outcomes), pending - left, outcome)
        decreases left
      {
        var id :| id in left;
        SettleMore(old(outcomes), pending - left, id, outcome);
        Settle(id, outcome);
        assert pending - left + {id} == pending - (left - {id});
        left := left - {id};
      }
      assert pending - left == pending;
    }

    method Spawn(newChild: nat)
      modifies this
      ensures State() == Apply(old(State()), Connect(newChild))
    {
      if isConnected { return; }
      expectedExit := false;
      child := Some(newChild);
    }

    /** The cleanup after an attempt to connect that failed. */
    method GiveUp()
      modifies this
      ensures State() == Apply(old(State()), ConnectFailed)
    {
      expectedExit := true;
    }

    /** Some id, or None when there is no writable child. */
    method SendRequest(writable: bool) returns (id: Option<nat>)
      modifies this
      ensures State() == Apply(old(State()), Request(writable))
      ensures id == if old(child).Some? && writable then Some(requestSequence) else None
    {
      if child.None? || !writable { return None; }
      requestSequence := requestSequence + 1;
      pending := pending + {requestSequence};
      return Some(requestSequence);
    }

    method HandleResponse(id: nat, ok: bool, data: int)
      modifies this
      ensures State() == Apply(old(State()), Reply(id, ok, data))
    {
      if id !in pending { return; }
      Settle(id, Replied(ok, data));
    }

    method HandleEvent(kind: string)
      modifies this
      ensures State() == Apply(old(State()), Event(kind))
    {
      if kind == "" { return; }
      events := events + [kind];
      isConnected := ConnectionStateAfterEvent(isConnected, kind);
    }

    method HandleFatal()
      modifies this
      ensures State() == Apply(old(State()), Fatal)
    {
      RejectAll(ProtocolError);
    }

    method TimerFired(id: nat)
      modifies this
      ensures State() == Apply(old(State()), Timeout(id))
    {
      if id in pending { Settle(id, TimedOut); }
    }

    method RequestFinished(id: nat)
      modifies this
      ensures State() == Apply(old(State()), Finish(id))
    {
      if id in outcomes { pending := pending - {id}; }
    }

    method ChildExited(exited: nat)
      modifies this
      ensures State() == Apply(old(State()), Exit(exited))
    {
      isConnected := false;
      if child == Some(exited) { child := None; }
      RejectAll(ClientExited);
      pending := {};
      if !expectedExit { events := events + ["end"]; }
    }

    method StartDisconnect()
      modifies this
      ensures State() == Apply(old(State()), DisconnectStarted)
    {
      if child.None? { return; }
      expectedExit := true;
      events := events + ["disconnect_requested"];
    }

    method FinishDisconnect()
      modifies this
      ensures State() == Apply(old(State()), DisconnectFinished)
    {
      isConnected := false;
    }
  }

  // ----- Over every interleaving -----

  /** Every id handed out is at most the sequence number, and is pending until it settles. */
  predicate Tracks(s: Client) {
    && (forall id :: id in s.pending ==> 1 <= id <= s.sequence)
    && (forall id :: id in s.outcomes ==> 1 <= id <= s.sequence)
    && (forall id :: 1 <= id <= s.sequence ==> id in s.pending || id in s.outcomes)
  }

  function Settled(s: Client, id: nat): Option<Outcome> {
    if id in s.outcomes then Some(s.outcomes[id]) else None
  }

  /** What a step decides for a pending request. */
  function Decides(step: Step, id: nat): Option<Outcome> {
    match step
    case Reply(i, ok, data) => if i == id then Some(Replied(ok, data)) else None
    case Timeout(i) => if i == id then Some(TimedOut) else None
    case Fatal => Some(ProtocolError)
    case Exit(_) => Some(ClientExited)
    case _ => None
  }

  /** One step, one request. */
  lemma StepSettles(s: Client, step: Step, id: nat)
    ensures Settled(Apply(s, step), id)
         == if id in s.outcomes then Some(s.outcomes[id]) else if id in s.pending then Decides(step, id) else None
  {
  }

  /** One step, the ids: a request leaves the pending set only when it has settled. */
  lemma StepPends(s: Client, step: Step, id: nat)
    ensures id in s.pending ==> id in Apply(s, step).pending || id in Apply(s, step).outcomes
    ensures id in Apply(s, step).pending ==> id in s.pending || id == Apply(s, step).sequence == s.sequence + 1
    ensures s.sequence <= Apply(s, step).sequence <= s.sequence + 1
    ensures s.sequence < Apply(s, step).sequence ==> Apply(s, step).sequence in Apply(s, step).pending
  {
  }

  lemma {:induction false} RunTracks(steps: seq<Step>)
    ensures Tracks(Run(steps))
  {
    if steps != [] {
      var s, step := Run(steps[..|steps| - 1]), steps[|steps| - 1];
      RunTracks(steps[..|steps| - 1]);
      hide Apply, Decides;
      forall id: nat
        ensures id in Apply(s, step).pending || id in Apply(s, step).outcomes <==> 1 <= id <= Apply(s, step).sequence
      {
        StepSettles(s, step, id);
        StepPends(s, step, id);
      }
    }
  }

  /** Once settled, a request keeps its outcome for ever; ids only grow. */
  lemma {:induction false} SettledForGood(steps: seq<Step>, n: nat, id: nat)
    requires n <= |steps|
    ensures Run(steps[..n]).sequence <= Run(steps).sequence
    ensures id in Run(steps[..n]).outcomes ==>
              id in Run(steps).outcomes && Run(steps).outcomes[id] == Run(steps[..n]).outcomes[id]
  {
    hide Apply;
    if n == |steps| {
      assert steps[..n] == steps;
    } else {
      var init, last := steps[..|steps| - 1], steps[|steps| - 1];
      assert init[..n] == steps[..n];
      SettledForGood(init, n, id);
      StepSettles(Run(init), last, id);
      StepPends(Run(init), last, id);
    }
  }

  /** The step that hands out this id. */
  predicate Sends(steps: seq<Step>, k: nat, id: nat)
    requires k < |steps|
  {
    Run(steps[..k]).sequence + 1 == id == Run(steps[..k + 1]).sequence
  }

  /** No id is ever handed out twice, reconnects included. */
  lemma IdsAreNeverReused(steps: seq<Step>, j: nat, k: nat, id: nat)
    requires j < k < |steps| && Sends(steps, j, id)
    ensures !Sends(steps, k, id)
  {
    assert steps[..k][..j + 1] == steps[..j + 1];
    SettledForGood(steps[..k], j + 1, id);
  }

  /** The first decision at or after position k. */
  function FirstDecision(steps: seq<Step>, k: nat, id: nat): Option<Outcome>
    requires k <= |steps|
    decreases |steps| - k
  {
    if k == |steps| then None
    else if Decides(steps[k], id).Some? then Decides(steps[k], id)
    else FirstDecision(steps, k + 1, id)
  }

  lemma {:induction false} FirstDecisionOfMore(steps: seq<Step>, last: Step, k: nat, id: nat)
    requires k <= |steps|
    ensures FirstDecision(steps + [last], k, id)
         == if FirstDecision(steps, k, id).Some? then FirstDecision(steps, k, id) else Decides(last, id)
    decreases |steps| - k
  {
    var more := steps + [last];
    if k < |steps| {
      assert more[k] == steps[k];
      if Decides(steps[k], id).None? { FirstDecisionOfMore(steps, last, k + 1, id); }
    } else {
      assert more[k] == last && FirstDecision(more, k + 1, id) == None;
    }
  }

  /** A request settles exactly as the first thing that happens to it after it was
      sent: a reply carrying its own id, its timeout, a fatal message or an exit. */
  lemma {:induction false} SettledByFirstDecision(steps: seq<Step>, k: nat, id: nat)
    requires k < |steps| && Sends(steps, k, id)
    ensures Settled(Run(steps), id) == FirstDecision(steps, k + 1, id)
    decreases |steps|
  {
    hide Apply, Decides;
    var n := |steps| - 1;
    var init, last := steps[..n], steps[n];
    assert init + [last] == steps;
    RunTracks(init);
    StepSettles(Run(init), last, id);
    StepPends(Run(init), last, id);
    if k == n {
      assert steps[..k] == init && steps[..k + 1] == steps;
    } else {
      assert init[..k] == steps[..k] && init[..k + 1] == steps[..k + 1];
      SettledByFirstDecision(init, k, id);
      FirstDecisionOfMore(init, last, k + 1, id);
      SettledForGood(init, k + 1, id);
    }
  }

  /** A reply acts if and only if its request is still open. */
  lemma LateRepliesChangeNothing(steps: seq<Step>, id: nat, ok: bool, data: int)
    ensures var s := Run(steps);
      Apply(s, Reply(id, ok, data)) == s <==> !(1 <= id <= s.sequence && id !in s.outcomes)
  {
    RunTracks(steps);
    var s := Run(steps);
    if id in s.pending && id !in s.outcomes {
      assert id in Apply(s, Reply(id, ok, data)).outcomes;
    } else {
      assert SettleAll(s.outcomes, {id}, Replied(ok, data)) == s.outcomes || id !in s.pending;
    }
  }

  /** After an exit nothing is pending and every request ever sent has settled. */
  lemma NothingPendingAfterExit(steps: seq<Step>, child: nat)
    ensures var s := Run(steps + [Exit(child)]);
      s.pending == {} && !s.connected && forall id :: 1 <= id <= s.sequence ==> id in s.outcomes
  {
    assert (steps + [Exit(child)])[..|steps|] == steps;
    RunTracks(steps);
  }

  predicate Disconnects(step: Step) {
    step == Event("end") || step.Exit? || step.DisconnectFinished?
  }

  predicate SpawnedLast(steps: seq<Step>) {
    exists k :: 0 <= k < |steps| && steps[k] == Event("spawn")
      && forall j :: k < j < |steps| ==> !Disconnects(steps[j])
  }

  lemma StepConnects(s: Client, step: Step)
    ensures Apply(s, step).connected
         == if step == Event("spawn") then true else if Disconnects(step) then false else s.connected
  {
    assert |"end"| != |"spawn"|;
  }

  /** Connected means: spawned, and no end, exit or finished disconnect since. */
  lemma {:induction false} ConnectedMeansSpawned(steps: seq<Step>)
    ensures Run(steps).connected <==> SpawnedLast(steps)
  {
    if steps != [] {
      var n := |steps| - 1;
      var init, last := steps[..n], steps[n];
      hide Apply;
      ConnectedMeansSpawned(init);
      StepConnects(Run(init), last);
      if last == Event("spawn") {
        assert SpawnedLast(steps);
      } else if Disconnects(last) {
        assert !SpawnedLast(steps);
      } else {
        if SpawnedLast(init) {
          var k :| 0 <= k < n && init[k] == Event("spawn") && forall j :: k < j < n ==> !Disconnects(init[j]);
          assert steps[k] == Event("spawn") && forall j :: k < j < |steps| ==> !Disconnects(steps[j]);
        }
        if SpawnedLast(steps) {
          var k :| 0 <= k < |steps| && steps[k] == Event("spawn")
              && forall j :: k < j < |steps| ==> !Disconnects(steps[j]);
          assert init[k] == Event("spawn") && forall j :: k < j < n ==> !Disconnects(init[j]);
        }
      }
    }
  }

  // ----- What is recorded, from the history alone -----

  /** The call that starts a child: any connect while not connected. */
  ghost predicate Starts(steps: seq<Step>, k: nat)
    requires k < |steps|
  {
    steps[k].Connect? && !SpawnedLast(steps[..k])
  }

  /** Position k started this child, nothing started another since, and it has not exited. */
  ghost predicate Lives(steps: seq<Step>, k: nat, child: nat) {
    && k < |steps| && Starts(steps, k) && steps[k].child == child
    && forall j :: k < j < |steps| ==> !Starts(steps, j) && steps[j] != Exit(child)
  }

  /** The child's exit was asked for, by a disconnect or after a failed attempt to connect. */
  ghost predicate Asks(steps: seq<Step>, k: nat)
    requires k < |steps|
  {
    || steps[k].ConnectFailed?
    || (steps[k].DisconnectStarted? && exists i, child :: Lives(steps[..k], i, child))
  }

  ghost predicate AskedLast(steps: seq<Step>, k: nat) {
    k < |steps| && Asks(steps, k) && forall j :: k < j < |steps| ==> !Starts(steps, j)
  }

  /** An exit is expected when it was asked for since the last start of a child. */
  ghost predicate ExpectsExit(steps: seq<Step>) { exists k :: AskedLast(steps, k) }

  lemma PrefixPositions(steps: seq<Step>, k: nat)
    requires k < |steps| - 1
    ensures var init := steps[..|steps| - 1];
      && steps[k] == init[k] && steps[..k] == init[..k]
      && (Starts(steps, k) <==> Starts(init, k)) && (Asks(steps, k) <==> Asks(init, k))
  {
    hide SpawnedLast, Lives;
    assert steps[..|steps| - 1][..k] == steps[..k];
  }

  lemma LivesNext(steps: seq<Step>, k: nat, child: nat)
    requires steps != []
    ensures var n := |steps| - 1;
      Lives(steps, k, child) <==>
        if k == n then Starts(steps, n) && steps[n].child == child
        else Lives(steps[..n], k, child) && !Starts(steps, n) && steps[n] != Exit(child)
  {
    hide SpawnedLast, Starts, Asks;
    var n := |steps| - 1;
    var init := steps[..n];
    forall j: nat | j < n ensures steps[j] == init[j] && (Starts(steps, j) <==> Starts(init, j)) {
      PrefixPositions(steps, j);
    }
    if k < n && Lives(init, k, child) && !Starts(steps, n) && steps[n] != Exit(child) {
      forall j | k < j < |steps| ensures !Starts(steps, j) && steps[j] != Exit(child) {
        if j < n { assert !Starts(init, j) && init[j] != Exit(child); }
      }
    }
    if k < n && Lives(steps, k, child) {
      forall j | k < j < n ensures !Starts(init, j) && init[j] != Exit(child) {
        assert !Starts(steps, j) && steps[j] != Exit(child);
      }
    }
  }

  /** The child the client holds is the one that lives. */
  lemma {:induction false} ChildLives(steps: seq<Step>, child: nat)
    ensures Run(steps).child == Some(child) <==> exists k :: Lives(steps, k, child)
  {
    hide Lives, SpawnedLast;
    if steps == [] {
      NothingLives(child);
    } else {
      var n := |steps| - 1;
      ChildLives(steps[..n], child);
      ConnectedMeansSpawned(steps[..n]);
      forall k ensures Lives(steps, k, child) <==>
                         if k == n then Starts(steps, n) && steps[n].child == child
                         else Lives(steps[..n], k, child) && !Starts(steps, n) && steps[n] != Exit(child)
      {
        LivesNext(steps, k, child);
      }
      LivesBefore(steps[..n], child);
      if Starts(steps, n) {
        assert Lives(steps, n, child) <==> steps[n].child == child;
      }
      if k: nat :| Lives(steps[..n], k, child) {
        assert Lives(steps, k, child) <==> !Starts(steps, n) && steps[n] != Exit(child);
      }
    }
  }

  lemma LivesBefore(steps: seq<Step>, child: nat)
    ensures forall k: nat :: Lives(steps, k, child) ==> k < |steps|
  {
  }

  lemma NothingLives(child: nat)
    ensures forall k :: !Lives([], k, child)
  {
  }

  lemma AskedNext(steps: seq<Step>, k: nat)
    requires steps != []
    ensures var n := |steps| - 1;
      AskedLast(steps, k) <==>
        if k == n then Asks(steps, n) else AskedLast(steps[..n], k) && !Starts(steps, n)
  {
    hide SpawnedLast, Starts, Asks;
    var n := |steps| - 1;
    var init := steps[..n];
    forall j: nat | j < n ensures (Starts(steps, j) <==> Starts(init, j)) && (Asks(steps, j) <==> Asks(init, j)) {
      PrefixPositions(steps, j);
    }
    if k < n && AskedLast(init, k) && !Starts(steps, n) {
      forall j | k < j < |steps| ensures !Starts(steps, j) {
        if j < n { assert !Starts(init, j); }
      }
    }
    if k < n && AskedLast(steps, k) {
      forall j | k < j < n ensures !Starts(init, j) { assert !Starts(steps, j); }
    }
  }

  lemma {:induction false} ExpectsWhenAsked(steps: seq<Step>)
    ensures Run(steps).expectedExit <==> ExpectsExit(steps)
  {
    hide Lives, SpawnedLast, AskedLast;
    if steps == [] {
      NothingAsked();
    } else {
      var n := |steps| - 1;
      ExpectsWhenAsked(steps[..n]);
      ConnectedMeansSpawned(steps[..n]);
      HasChild(steps[..n]);
      forall k ensures AskedLast(steps, k) <==>
                         if k == n then Asks(steps, n) else AskedLast(steps[..n], k) && !Starts(steps, n)
      {
        AskedNext(steps, k);
      }
      AskedBefore(steps[..n]);
      assert AskedLast(steps, n) <==> Asks(steps, n);
      if k: nat :| AskedLast(steps[..n], k) {
        assert AskedLast(steps, k) <==> !Starts(steps, n);
      }
    }
  }

  lemma AskedBefore(steps: seq<Step>)
    ensures forall k: nat :: AskedLast(steps, k) ==> k < |steps|
  {
  }

  /** The client holds a child exactly when one lives. */
  lemma HasChild(steps: seq<Step>)
    ensures Run(steps).child.Some? <==> exists k, child :: Lives(steps, k, child)
  {
    hide Lives, Run;
    if Run(steps).child.Some? { ChildLives(steps, Run(steps).child.value); }
    if k: nat, child: nat :| Lives(steps, k, child) { ChildLives(steps, child); }
  }

  lemma NothingAsked()
    ensures forall k :: !AskedLast([], k)
  {
  }

  /** What the step at k records: an event under its own name, a disconnect of a living child,
      and the end of a child whose exit was not asked for. */
  ghost function Records(steps: seq<Step>, k: nat): Option<string>
    requires k < |steps|
  {
    match steps[k]
    case Event(kind) => if kind == "" then None else Some(kind)
    case DisconnectStarted =>
      if exists i, child :: Lives(steps[..k], i, child) then Some("disconnect_requested") else None
    case Exit(_) => if ExpectsExit(steps[..k]) then None else Some("end")
    case _ => None
  }

  /** The recorded events are those of the recording steps, in order. */
  lemma {:induction false} RecordedEvents(steps: seq<Step>) returns (places: seq<nat>)
    ensures |places| == |Run(steps).events|
    ensures forall i :: 0 <= i < |places| ==>
              places[i] < |steps| && Records(steps, places[i]) == Some(Run(steps).events[i])
    ensures forall i, j :: 0 <= i < j < |places| ==> places[i] < places[j]
    ensures forall k: nat :: k < |steps| && Records(steps, k).Some? ==> k in places
  {
    hide Lives, SpawnedLast, ExpectsExit;
    if steps == [] {
      places := [];
    } else {
      var n := |steps| - 1;
      var init := steps[..n];
      places := RecordedEvents(init);
      forall k: nat | k < n ensures Records(steps, k) == Records(init, k) { PrefixPositions(steps, k); }
      StepRecords(steps);
      hide Apply, Records;
      if Records(steps, n).Some? { places := places + [n]; }
    }
  }

  lemma StepRecords(steps: seq<Step>)
    requires steps != []
    ensures var n := |steps| - 1;
      Run(steps).events == Run(steps[..n]).events +
        match Records(steps, n) case Some(kind) => [kind] case None => []
  {
    var n := |steps| - 1;
    ExpectsWhenAsked(steps[..n]);
    HasChild(steps[..n]);
    hide Lives, SpawnedLast, ExpectsExit;
    StepEvents(Run(steps[..n]), steps[n]);
    hide Apply;
  }

  lemma StepEvents(s: Client, step: Step)
    ensures Apply(s, step).events == s.events +
      match step
      case Event(kind) => if kind == "" then [] else [kind]
      case DisconnectStarted => if s.child.Some? then ["disconnect_requested"] else []
      case Exit(_) => if s.expectedExit then [] else ["end"]
      case _ => []
  {
    assert s.events + [] == s.events;
  }
}
