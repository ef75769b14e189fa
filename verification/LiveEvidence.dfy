/**
  Live events of the conflict feed, kept as a sliding window under three caps.

  Every access to the window happens under one lock, so an execution of any
  number of threads is a sequence of the steps below.
 */
module LiveEvidence {
  import opened Wrappers
  import opened PeerJson
  import opened ConflictContract

  const MAX_LIVE_EVENTS: nat := 2_048
  const MAX_LIVE_ERRORS: nat := 64
  const MAX_SERIALIZED_EVENT_CHARACTERS: nat := 131_072
  const MAX_EVIDENCE_NODES: nat := 262_144
  const MAX_EVIDENCE_CHARACTERS: nat := 8 * 1_024 * 1_024

  datatype LiveEvent = LiveEvent(value: Json, characters: nat, nodes: nat)

  /** Why a capture was recorded as an error instead. */
  datatype LiveError =
    | InvalidEvent
    | TooLarge
    | CloseFailed

  // ----- The window, as a function of the accepted events -----

  function TotalCharacters(events: seq<LiveEvent>): nat {
    if events == [] then 0 else events[0].characters + TotalCharacters(events[1..])
  }

  function TotalNodes(events: seq<LiveEvent>): nat {
    if events == [] then 0 else events[0].nodes + TotalNodes(events[1..])
  }

  predicate WithinCaps(events: seq<LiveEvent>) {
    && |events| <= MAX_LIVE_EVENTS
    && TotalCharacters(events) <= MAX_EVIDENCE_CHARACTERS
    && TotalNodes(events) <= MAX_EVIDENCE_NODES
  }

  predicate Small(e: LiveEvent) {
    e.characters <= MAX_SERIALIZED_EVENT_CHARACTERS && e.nodes <= MAX_JSON_NODES
  }

  /** The longest suffix within all three caps. */
  function Window(events: seq<LiveEvent>): seq<LiveEvent> {
    if WithinCaps(events) then events
    else if events == [] then [] else Window(events[1..])
  }

  lemma {:induction false} WindowIsLongestSuffix(events: seq<LiveEvent>) returns (cut: nat)
    ensures cut <= |events| && Window(events) == events[cut..] && WithinCaps(events[cut..])
    ensures forall i :: 0 <= i <= |events| ==> (WithinCaps(events[i..]) <==> cut <= i)
  {
    if WithinCaps(events) {
      cut := 0;
      forall i | 0 <= i <= |events| ensures WithinCaps(events[i..]) {
        SuffixWithinCaps(events, i);
      }
    } else {
      var rest := WindowIsLongestSuffix(events[1..]);
      cut := rest + 1;
      assert forall i :: 1 <= i <= |events| ==> events[i..] == events[1..][i - 1..];
      assert events[0..] == events;
      forall i | 0 <= i <= |events| ensures WithinCaps(events[i..]) <==> cut <= i {
        if i > 0 { assert WithinCaps(events[1..][i - 1..]) <==> rest <= i - 1; }
      }
    }
  }

  lemma {:induction false} SuffixWithinCaps(events: seq<LiveEvent>, i: nat)
    requires WithinCaps(events) && i <= |events|
    ensures WithinCaps(events[i..])
  {
    if i > 0 {
      SuffixWithinCaps(events[1..], i - 1);
      assert events[1..][i - 1..] == events[i..];
    }
  }

  lemma {:induction false} TotalsOfAppend(events: seq<LiveEvent>, e: LiveEvent)
    ensures TotalCharacters(events + [e]) == TotalCharacters(events) + e.characters
    ensures TotalNodes(events + [e]) == TotalNodes(events) + e.nodes
  {
    if events != [] {
      TotalsOfAppend(events[1..], e);
      assert (events + [e])[1..] == events[1..] + [e];
    }
  }

  /** What the window forgot never matters again: sliding it event by event gives
      the same as cutting the whole history once. */
  lemma {:induction false} WindowSlides(history: seq<LiveEvent>, e: LiveEvent)
    ensures Window(history + [e]) == Window(Window(history) + [e])
  {
    if !WithinCaps(history) {
      WindowSlides(history[1..], e);
      assert (history + [e])[1..] == history[1..] + [e];
      TotalsOfAppend(history, e);
    }
  }

  // ----- The state machine -----

  datatype Step =
    | Captured(event: LiveEvent)
    | Rejected(error: LiveError)
    | Cleared
    | Closed

  datatype Evidence = Evidence(events: seq<LiveEvent>, errors: seq<LiveError>, truncated: nat, characters: int,
      nodes: int)

  const EMPTY := Evidence([], [], 0, 0, 0)

  function LastErrors(errors: seq<LiveError>): (last: seq<LiveError>)
    ensures |last| == (if |errors| < 64 then |errors| else 64) && last == errors[|errors| - |last|..]
  {
    if |errors| <= MAX_LIVE_ERRORS then errors else errors[|errors| - MAX_LIVE_ERRORS..]
  }

  predicate Consistent(s: Evidence) {
    && WithinCaps(s.events) && |s.errors| <= MAX_LIVE_ERRORS
    && s.characters == TotalCharacters(s.events) && s.nodes == TotalNodes(s.events)
  }

  function Apply(s: Evidence, step: Step): (r: Evidence)
    requires step.Captured? ==> Small(step.event)
  {
    match step
    case Captured(event) =>
      var events := Window(s.events + [event]);
      WindowShorter(s.events + [event]);
      Evidence(events, s.errors, s.truncated + |s.events| + 1 - |events|, TotalCharacters(events), TotalNodes(events))
    case Rejected(error) => s.(errors := LastErrors(s.errors + [error]))
    case Cleared => EMPTY
    case Closed => EMPTY.(truncated := s.truncated)
  }

  lemma {:induction false} WindowShorter(events: seq<LiveEvent>)
    ensures |Window(events)| <= |events|
  {
    if !WithinCaps(events) && events != [] { WindowShorter(events[1..]); }
  }

  predicate AllSmall(steps: seq<Step>) {
    forall step :: step in steps ==> step.Captured? ==> Small(step.event)
  }

  function Run(steps: seq<Step>): Evidence
    requires AllSmall(steps)
  {
    if steps == [] then EMPTY else Apply(Run(steps[..|steps| - 1]), steps[|steps| - 1])
  }

  /** Events captured since the last clear or close. */
  function Accepted(steps: seq<Step>): seq<LiveEvent> {
    if steps == [] then []
    else
      var last, before := steps[|steps| - 1], Accepted(steps[..|steps| - 1]);
      if last.Captured? then before + [last.event] else if last.Rejected? then before else []
  }

  function Errors(steps: seq<Step>): seq<LiveError> {
    if steps == [] then []
    else
      var last, before := steps[|steps| - 1], Errors(steps[..|steps| - 1]);
      if last.Rejected? then before + [last.error] else if last.Captured? then before else []
  }

  /** Events captured since the last clear, closes notwithstanding. */
  function CapturedSinceClear(steps: seq<Step>): nat {
    if steps == [] then 0
    else
      var last, before := steps[|steps| - 1], CapturedSinceClear(steps[..|steps| - 1]);
      if last.Captured? then before + 1 else if last.Cleared? then 0 else before
  }

  /** Retained events that closes threw away since the last clear. */
  function DroppedByClose(steps: seq<Step>): nat
    requires AllSmall(steps)
  {
    if steps == [] then 0
    else
      var init := steps[..|steps| - 1];
      var last, before := steps[|steps| - 1], DroppedByClose(init);
      if last.Closed? then before + |Run(init).events| else if last.Cleared? then 0 else before
  }

  // ----- Over every run -----

  lemma LastErrorsSlide(errors: seq<LiveError>, e: LiveError)
    ensures LastErrors(errors + [e]) == LastErrors(LastErrors(errors) + [e])
  {
  }

  /** At any moment of any execution: the window is the longest admissible suffix
      of what was accepted since the last reset, the running totals are its totals,
      and no event is lost without being counted. */
  lemma {:induction false} EvidenceOfRun(steps: seq<Step>)
    requires AllSmall(steps)
    ensures var s := Run(steps);
      && Consistent(s)
      && s.events == Window(Accepted(steps))
      && s.errors == LastErrors(Errors(steps))
      && |s.events| + s.truncated + DroppedByClose(steps) == CapturedSinceClear(steps)
  {
    if steps != [] {
      var init, last := steps[..|steps| - 1], steps[|steps| - 1];
      EvidenceOfRun(init);
      match last {
        case Captured(e) =>
          WindowSlides(Accepted(init), e);
          var cut := WindowIsLongestSuffix(Window(Accepted(init)) + [e]);
        case Rejected(error) => LastErrorsSlide(Errors(init), error);
        case Cleared =>
        case Closed =>
      }
    }
  }

  /** Truncations counted before the last reset, if that reset kept the count. */
  function Stale(steps: seq<Step>): nat
    requires AllSmall(steps)
  {
    if steps == [] then 0
    else
      var init := steps[..|steps| - 1];
      match steps[|steps| - 1]
      case Closed => Run(init).truncated
      case Cleared => 0
      case _ => Stale(init)
  }

  /** After every run, retained + truncated is what was accepted plus what is stale: it is
      what was accepted if and only if nothing is. */
  lemma {:induction false} ConservationExact(steps: seq<Step>)
    requires AllSmall(steps)
    ensures |Run(steps).events| + Run(steps).truncated == |Accepted(steps)| + Stale(steps)
    ensures (|Run(steps).events| + Run(steps).truncated == |Accepted(steps)|) <==> Stale(steps) == 0
  {
    hide Apply;
    if steps != [] {
      var init := steps[..|steps| - 1];
      ConservationExact(init);
      StepCounts(Run(init), steps[|steps| - 1]);
    }
  }

  /** Without a close, nothing is stale. */
  lemma ConservationWithoutClose(steps: seq<Step>)
    requires AllSmall(steps) && Closed !in steps
    ensures |Run(steps).events| + Run(steps).truncated == |Accepted(steps)|
  {
    ConservationExact(steps);
    NothingDropped(steps);
  }

  lemma {:induction false} NothingDropped(steps: seq<Step>)
    requires AllSmall(steps) && Closed !in steps
    ensures DroppedByClose(steps) == Stale(steps) == 0 && CapturedSinceClear(steps) == |Accepted(steps)|
  {
    if steps != [] {
      assert steps[|steps| - 1] in steps;
      NothingDropped(steps[..|steps| - 1]);
    }
  }

  /** A close empties the window but keeps the old truncation count, so after it
      retained + truncated equals what was accepted if and only if nothing had been
      truncated before the close. */
  lemma ConservationAfterClose(before: seq<Step>, after: seq<Step>)
    requires AllSmall(before) && AllSmall(after) && Closed !in after && Cleared !in after
    ensures AllSmall(before + [Closed] + after)
    ensures var steps := before + [Closed] + after;
      (|Run(steps).events| + Run(steps).truncated == |Accepted(steps)|) <==> Run(before).truncated == 0
  {
    StaleAfterClose(before, after);
    ConservationExact(before + [Closed] + after);
  }

  lemma {:induction false} StaleAfterClose(before: seq<Step>, after: seq<Step>)
    requires AllSmall(before) && AllSmall(after) && Closed !in after && Cleared !in after
    ensures AllSmall(before + [Closed] + after) && Stale(before + [Closed] + after) == Run(before).truncated
  {
    hide Apply;
    var steps := before + [Closed] + after;
    var n := |after| - 1;
    if after == [] {
      assert steps[..|steps| - 1] == before;
    } else {
      assert after[n] in after;
      StaleAfterClose(before, after[..n]);
      assert steps[..|steps| - 1] == before + [Closed] + after[..n];
    }
  }

  /** What each step adds to retained + truncated. */
  lemma StepCounts(s: Evidence, step: Step)
    requires step.Captured? ==> Small(step.event)
    ensures var r := Apply(s, step);
      var total := |r.events| + r.truncated;
      match step
      case Captured(_) => total == |s.events| + s.truncated + 1
      case Rejected(_) => total == |s.events| + s.truncated
      case Cleared => total == 0
      case Closed => total == s.truncated && r.truncated == s.truncated
  {
  }

  /** The failing family is not empty: one overflow, then a close. */
  lemma StaleCountWitness(e: LiveEvent)
    requires Small(e) && e.characters == MAX_SERIALIZED_EVENT_CHARACTERS
    ensures var steps := seq(65, _ => Captured(e)) + [Closed];
      AllSmall(steps) && Run(steps).events == [] && Accepted(steps) == [] && Run(steps).truncated == 1
  {
    var captures := seq(65, _ => Captured(e));
    Copies(e, 65);
    EvidenceOfRun(captures);
    NothingDropped(captures);
    WindowOfCopies(e);
    var steps := captures + [Closed];
    assert steps[..65] == captures;
  }

  lemma {:induction false} Copies(e: LiveEvent, n: nat)
    requires Small(e)
    ensures Accepted(seq(n, _ => Captured(e))) == seq(n, _ => e)
  {
    if n > 0 {
      Copies(e, n - 1);
      assert seq(n, _ => Captured(e))[..n - 1] == seq(n - 1, _ => Captured(e));
      assert seq(n, _ => e) == seq(n - 1, _ => e) + [e];
    }
  }

  lemma {:induction false} TotalsOfCopies(e: LiveEvent, n: nat)
    ensures TotalCharacters(seq(n, _ => e)) == n * e.characters && TotalNodes(seq(n, _ => e)) == n * e.nodes
  {
    if n > 0 {
      TotalsOfCopies(e, n - 1);
      assert seq(n, _ => e)[1..] == seq(n - 1, _ => e);
    }
  }

  lemma WindowOfCopies(e: LiveEvent)
    requires Small(e) && e.characters == MAX_SERIALIZED_EVENT_CHARACTERS
    ensures |Window(seq(65, _ => e))| == 64
  {
    TotalsOfCopies(e, 65);
    TotalsOfCopies(e, 64);
    assert seq(65, _ => e)[1..] == seq(64, _ => e);
  }

  // ----- The object -----

  /** What one event of the feed amounts to: an error, or an event whose value mirrors it,
      with the length of that value as text and the nodes of the tree. */
  ghost predicate AmountsTo(event: Peer, client: Client, serialized: Json -> nat, step: Step) {
    if !Admissible(event, None, client) then step == Rejected(InvalidEvent)
    else exists copy :: Mirrors(event, copy) &&
           step == if serialized(copy) > MAX_SERIALIZED_EVENT_CHARACTERS then Rejected(TooLarge)
                   else Captured(LiveEvent(copy, serialized(copy), Nodes(event)))
  }

  class LiveBuffer {
    var liveEvents: seq<LiveEvent>
    var liveErrors: seq<LiveError>
    var truncatedLiveEvents: nat
    var liveEventCharacters: int
    var liveEventNodes: int

    ghost function State(): Evidence
      reads this
    {
      Evidence(liveEvents, liveErrors, truncatedLiveEvents, liveEventCharacters, liveEventNodes)
    }

    constructor ()
      ensures State() == EMPTY
    {
      liveEvents, liveErrors, truncatedLiveEvents, liveEventCharacters, liveEventNodes := [], [], 0, 0, 0;
    }

    /** The critical section of a capture. */
    method Append(copy: Json, characters: nat, nodes: nat)
      requires Consistent(State()) && Small(LiveEvent(copy, characters, nodes))
      modifies this
      ensures State() == Apply(old(State()), Captured(LiveEvent(copy, characters, nodes)))
      ensures Consistent(State())
    {
      ghost var event := LiveEvent(copy, characters, nodes);
      ghost var before := State();
      TotalsOfAppend(liveEvents, event);
      while liveEvents != []
            && (|liveEvents| >= MAX_LIVE_EVENTS
                || liveEventCharacters + characters > MAX_EVIDENCE_CHARACTERS
                || liveEventNodes + nodes > MAX_EVIDENCE_NODES)
        invariant Consistent(State()) && liveErrors == before.errors
        invariant Window(liveEvents + [event]) == Window(before.events + [event])
        invariant truncatedLiveEvents == before.truncated + |before.events| - |liveEvents|
        decreases |liveEvents|
      {
        TotalsOfAppend(liveEvents, event);
        SuffixWithinCaps(liveEvents, 1);
        assert (liveEvents + [event])[1..] == liveEvents[1..] + [event];
        var removed := liveEvents[0];
        liveEvents := liveEvents[1..];
        liveEventCharacters := liveEventCharacters - removed.characters;
        liveEventNodes := liveEventNodes - removed.nodes;
        truncatedLiveEvents := truncatedLiveEvents + 1;
      }
      TotalsOfAppend(liveEvents, event);
      liveEvents := liveEvents + [LiveEvent(copy, characters, nodes)];
      liveEventCharacters := liveEventCharacters + characters;
      liveEventNodes := liveEventNodes + nodes;
    }

    method RecordLiveError(error: LiveError)
      requires Consistent(State())
      modifies this
      ensures State() == Apply(old(State()), Rejected(error))
      ensures Consistent(State())
    {
      if |liveErrors| >= MAX_LIVE_ERRORS { liveErrors := liveErrors[1..]; }
      liveErrors := liveErrors + [error];
    }

    method ClearEvents()
      modifies this
      ensures State() == Apply(old(State()), Cleared)
    {
      liveEvents, liveErrors := [], [];
      truncatedLiveEvents := 0;
      liveEventCharacters, liveEventNodes := 0, 0;
    }

    method Close()
      modifies this
      ensures State() == Apply(old(State()), Closed)
    {
      liveEvents, liveErrors := [], [];
      liveEventCharacters, liveEventNodes := 0, 0;
    }

    /** One event from the feed, for any player.  The copy that is kept is a second
        one, under a new budget: it cannot fail, because the contract tried it.  How
        long a copy is as text is a parameter. */
    method Capture(event: Peer, client: Client, serialized: Json -> nat) returns (ghost step: Step)
      requires Consistent(State())
      modifies this
      ensures Consistent(State())
      ensures AmountsTo(event, client, serialized, step) && (step.Captured? ==> Small(step.event))
      ensures State() == Apply(old(State()), step)
    {
      hide EventValid, Fits, Copy, Mirrors, Nodes, Consistent, Apply;
      if !event.Map? { RecordLiveError(InvalidEvent); return Rejected(InvalidEvent); }
      var checked := ValidateEvent(event, None, client);
      if !checked.Valid? { RecordLiveError(InvalidEvent); return Rejected(InvalidEvent); }
      var budget := new JsonBudget(MAX_JSON_NODES, MAX_JSON_CHARACTERS);
      var copy := ToJson(event, 0, budget);
      var characters, nodes := serialized(copy.value), budget.usedNodes;
      if characters > MAX_SERIALIZED_EVENT_CHARACTERS { RecordLiveError(TooLarge); return Rejected(TooLarge); }
      Append(copy.value, characters, nodes);
      return Captured(LiveEvent(copy.value, characters, nodes));
    }
  }
}
