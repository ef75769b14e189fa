/**
  The loop of the headless player process: requests from standard input and events
  from the game connection, in whatever order they become ready.
 */
module PeerLoop {
  import opened Wrappers

  /** What executing a request does: events it writes first, then its result. */
  datatype Execution = Execution(writes: seq<string>, ok: bool, shouldExit: bool)

  datatype Wake =
    | Line(request: Option<nat>, execution: Execution)
    | InputClosed
    | InputFailed
    | EventsClosed
    | Spawned
    | Died
    | Disconnected
    | ConnectionFailed
    | Ticked(window: int, health: Option<int>)
    | Announced(kind: string)
    | IgnoredEvent

  datatype Message =
    | Response(id: nat, ok: bool)
    | ProtocolErrorMessage
    | Fatal
    | Spawn
    | DimensionChange
    | Death
    | End
    | ErrorEvent
    | WindowOpen(window: int)
    | WindowClose(window: int)
    | Health
    | Wire(kind: string)

  /** The loop ends after handling such a wake. */
  predicate Stops(wake: Wake) {
    match wake
    case Line(request, execution) => request.Some? && execution.ok && execution.shouldExit
    case InputClosed => true
    case InputFailed => true
    case EventsClosed => true
    case Disconnected => true
    case ConnectionFailed => true
    case _ => false
  }

  /** Everything up to the first stopping wake, that one included. */
  predicate IsHandled(wakes: seq<Wake>, n: nat) {
    && n <= |wakes|
    && (forall i :: 0 <= i < n - 1 ==> !Stops(wakes[i]))
    && (n == |wakes| || (n > 0 && Stops(wakes[n - 1])))
  }

  // ----- What an observer of the output can tell -----

  /** Parsed requests, in order, with the result each must be answered with. */
  function Answers(wakes: seq<Wake>): seq<Message> {
    if wakes == [] then []
    else
      var last, before := wakes[|wakes| - 1], Answers(wakes[..|wakes| - 1]);
      if last.Line? && last.request.Some? then before + [Response(last.request.value, last.execution.ok)] else before
  }

  function Responses(out: seq<Message>): seq<Message> {
    if out == [] then []
    else
      var last, before := out[|out| - 1], Responses(out[..|out| - 1]);
      if last.Response? then before + [last] else before
  }

  function CountSpawns(wakes: seq<Wake>): nat {
    if wakes == [] then 0 else CountSpawns(wakes[..|wakes| - 1]) + if wakes[|wakes| - 1].Spawned? then 1 else 0
  }

  /** The spawn and dimension-change messages, in order. */
  function Arrivals(out: seq<Message>): seq<Message> {
    if out == [] then []
    else
      var last, before := out[|out| - 1], Arrivals(out[..|out| - 1]);
      if last.Spawn? || last.DimensionChange? then before + [last] else before
  }

  /** The window an observer of the messages believes open; 0 is none. */
  function ObservedWindow(out: seq<Message>): int {
    if out == [] then 0
    else match out[|out| - 1]
      case WindowOpen(id) => id
      case WindowClose(_) => 0
      case _ => ObservedWindow(out[..|out| - 1])
  }

  /** The window of the latest tick. */
  function LatestWindow(wakes: seq<Wake>): int {
    if wakes == [] then 0
    else if wakes[|wakes| - 1].Ticked? then wakes[|wakes| - 1].window
    else LatestWindow(wakes[..|wakes| - 1])
  }

  /** What a wake makes the peer say whatever its state. */
  function Says(wake: Wake): seq<Message> {
    match wake
    case Line(request, execution) =>
      if request.None? then [ProtocolErrorMessage]
      else Wires(execution.writes) + [Response(request.value, execution.ok)]
    case InputFailed => [Fatal]
    case Disconnected => [End]
    case ConnectionFailed => [ErrorEvent]
    case Announced(kind) => [Wire(kind)]
    case _ => []
  }

  function Said(wakes: seq<Wake>): seq<Message> {
    if wakes == [] then [] else Said(wakes[..|wakes| - 1]) + Says(wakes[|wakes| - 1])
  }

  predicate Stateful(m: Message) {
    m.Spawn? || m.DimensionChange? || m.Death? || m.WindowOpen? || m.WindowClose? || m.Health?
  }

  /** The messages that no state of the loop decides, in order. */
  function Stateless(out: seq<Message>): seq<Message> {
    if out == [] then []
    else
      var last, before := out[|out| - 1], Stateless(out[..|out| - 1]);
      if Stateful(last) then before else before + [last]
  }

  function Count(out: seq<Message>, m: Message): nat {
    if out == [] then 0 else Count(out[..|out| - 1], m) + if out[|out| - 1] == m then 1 else 0
  }

  /** Dead, and not spawned since. */
  predicate AwaitsRespawn(wakes: seq<Wake>) {
    wakes != [] &&
    var last := wakes[|wakes| - 1];
    last.Died? || (!last.Spawned? && AwaitsRespawn(wakes[..|wakes| - 1]))
  }

  /** Deaths, each counted once until the next spawn. */
  function Deaths(wakes: seq<Wake>): nat {
    if wakes == [] then 0
    else
      var init := wakes[..|wakes| - 1];
      Deaths(init) + if wakes[|wakes| - 1].Died? && !AwaitsRespawn(init) then 1 else 0
  }

  function LatestHealth(wakes: seq<Wake>): Option<int> {
    if wakes == [] then None
    else if wakes[|wakes| - 1].Ticked? then wakes[|wakes| - 1].health
    else LatestHealth(wakes[..|wakes| - 1])
  }

  /** Ticks whose health differs from a known earlier health. */
  function HealthChanges(wakes: seq<Wake>): nat {
    if wakes == [] then 0
    else
      var init, last := wakes[..|wakes| - 1], wakes[|wakes| - 1];
      HealthChanges(init) +
        if last.Ticked? && LatestHealth(init).Some? && last.health != LatestHealth(init) then 1 else 0
  }

  /** What a wake makes the peer write, given only the wakes before it. */
  function Emits(handled: seq<Wake>, wake: Wake): seq<Message> {
    match wake
    case Spawned => [if CountSpawns(handled) > 0 then DimensionChange else Spawn]
    case Died => if AwaitsRespawn(handled) then [] else [Death]
    case Ticked(window, health) =>
      var open, known := LatestWindow(handled), LatestHealth(handled);
      (if window == open then [] else if window == 0 then [WindowClose(open)] else [WindowOpen(window)])
      + if known.Some? && health != known then [Health] else []
    case _ => Says(wake)
  }

  /** The whole output, message by message. */
  function Output(wakes: seq<Wake>): seq<Message> {
    if wakes == [] then [] else Output(wakes[..|wakes| - 1]) + Emits(wakes[..|wakes| - 1], wakes[|wakes| - 1])
  }

  /** One spawn first, dimension changes after it. */
  predicate FirstIsSpawn(arrivals: seq<Message>, n: nat) {
    |arrivals| == n && forall i :: 0 <= i < n ==> arrivals[i] == if i == 0 then Spawn else DimensionChange
  }

  /** The loop's variables. */
  datatype Locals = Locals(hasSpawned: bool, awaitingRespawn: bool, lastWindow: int, lastHealth: Option<int>)

  /** The variables sum up the wakes so far. */
  predicate Tracks(wakes: seq<Wake>, s: Locals) {
    && s.hasSpawned == (CountSpawns(wakes) > 0) && s.awaitingRespawn == AwaitsRespawn(wakes)
    && s.lastWindow == LatestWindow(wakes) && s.lastHealth == LatestHealth(wakes)
  }

  /** What the output adds up to after these wakes. */
  predicate Accounts(wakes: seq<Wake>, out: seq<Message>) {
    && Stateless(out) == Said(wakes)
    && FirstIsSpawn(Arrivals(out), CountSpawns(wakes))
    && ObservedWindow(out) == LatestWindow(wakes)
    && Count(out, Death) == Deaths(wakes)
    && Count(out, Health) == HealthChanges(wakes)
  }

  /** All that is promised after handling these wakes. */
  predicate Faithful(wakes: seq<Wake>, out: seq<Message>, s: Locals) {
    Tracks(wakes, s) && Accounts(wakes, out)
  }

  lemma Append(out: seq<Message>, m: Message)
    ensures Stateless(out + [m]) == if Stateful(m) then Stateless(out) else Stateless(out) + [m]
    ensures Arrivals(out + [m]) == if m.Spawn? || m.DimensionChange? then Arrivals(out) + [m] else Arrivals(out)
    ensures ObservedWindow(out + [m])
         == if m.WindowOpen? then m.window else if m.WindowClose? then 0 else ObservedWindow(out)
    ensures Count(out + [m], Death) == Count(out, Death) + if m == Death then 1 else 0
    ensures Count(out + [m], Health) == Count(out, Health) + if m == Health then 1 else 0
  {
    assert (out + [m])[..|out|] == out;
  }

  function Wires(kinds: seq<string>): seq<Message> {
    if kinds == [] then [] else Wires(kinds[..|kinds| - 1]) + [Wire(kinds[|kinds| - 1])]
  }

  lemma {:induction false} AppendWires(out: seq<Message>, kinds: seq<string>)
    ensures var more := out + Wires(kinds);
      && Stateless(more) == Stateless(out) + Wires(kinds) && Arrivals(more) == Arrivals(out)
      && ObservedWindow(more) == ObservedWindow(out)
      && Count(more, Death) == Count(out, Death) && Count(more, Health) == Count(out, Health)
  {
    hide Stateless, Arrivals, ObservedWindow, Count;
    if kinds == [] {
      assert out + Wires(kinds) == out;
    } else {
      var init, last := Wires(kinds[..|kinds| - 1]), Wire(kinds[|kinds| - 1]);
      AppendWires(out, kinds[..|kinds| - 1]);
      Append(out + init, last);
      assert out + Wires(kinds) == out + init + [last];
    }
  }

  lemma Next(wakes: seq<Wake>, wake: Wake)
    ensures Said(wakes + [wake]) == Said(wakes) + Says(wake)
    ensures CountSpawns(wakes + [wake]) == CountSpawns(wakes) + if wake.Spawned? then 1 else 0
    ensures LatestWindow(wakes + [wake]) == if wake.Ticked? then wake.window else LatestWindow(wakes)
    ensures AwaitsRespawn(wakes + [wake]) <==> wake.Died? || (!wake.Spawned? && AwaitsRespawn(wakes))
    ensures Deaths(wakes + [wake]) == Deaths(wakes) + if wake.Died? && !AwaitsRespawn(wakes) then 1 else 0
  {
    assert (wakes + [wake])[..|wakes|] == wakes;
  }

  lemma NextHealth(wakes: seq<Wake>, wake: Wake)
    ensures LatestHealth(wakes + [wake]) == if wake.Ticked? then wake.health else LatestHealth(wakes)
    ensures HealthChanges(wakes + [wake]) == HealthChanges(wakes)
      + if wake.Ticked? && LatestHealth(wakes).Some? && wake.health != LatestHealth(wakes) then 1 else 0
  {
    assert (wakes + [wake])[..|wakes|] == wakes;
  }

  lemma {:induction false} ResponsesConcat(a: seq<Message>, b: seq<Message>)
    ensures Responses(a + b) == Responses(a) + Responses(b)
  {
    if b == [] {
      assert a + b == a;
    } else {
      var n := |b| - 1;
      ResponsesConcat(a, b[..n]);
      assert (a + b)[..|a + b| - 1] == a + b[..n];
    }
  }

  lemma {:induction false} NoResponseInWires(kinds: seq<string>)
    ensures Responses(Wires(kinds)) == []
  {
    if kinds != [] {
      var init := Wires(kinds[..|kinds| - 1]);
      NoResponseInWires(kinds[..|kinds| - 1]);
      assert Wires(kinds)[..|init|] == init;
    }
  }

  lemma AnswerOf(wake: Wake)
    ensures Responses(Says(wake)) == if wake.Line? && wake.request.Some?
                                     then [Response(wake.request.value, wake.execution.ok)] else []
  {
    if wake.Line? && wake.request.Some? {
      NoResponseInWires(wake.execution.writes);
      ResponsesConcat(Wires(wake.execution.writes), [Response(wake.request.value, wake.execution.ok)]);
    }
  }

  /** The answers among what is said are the answers to the parsed requests. */
  lemma {:induction false} SaidAnswers(wakes: seq<Wake>)
    ensures Responses(Said(wakes)) == Answers(wakes)
  {
    hide Responses, Says;
    if wakes == [] {
      NoResponseInWires([]);
    } else {
      var n := |wakes| - 1;
      SaidAnswers(wakes[..n]);
      AnswerOf(wakes[n]);
      ResponsesConcat(Said(wakes[..n]), Says(wakes[n]));
    }
  }

  /** What is said without regard to state holds every response. */
  lemma {:induction false} ResponsesAreStateless(out: seq<Message>)
    ensures Responses(Stateless(out)) == Responses(out)
  {
    if out != [] {
      var n := |out| - 1;
      ResponsesAreStateless(out[..n]);
      if !Stateful(out[n]) {
        assert Responses([out[n]]) == if out[n].Response? then [out[n]] else [];
        ResponsesConcat(Stateless(out[..n]), [out[n]]);
      }
    }
  }

  lemma AccountsAnswer(handled: seq<Wake>, out: seq<Message>, wake: Wake)
    requires Accounts(handled, out) && wake.Line? && wake.request.Some?
    ensures Accounts(handled + [wake], out + Emits(handled, wake))
  {
    hide Stateless, Arrivals, ObservedWindow, Count, Said, CountSpawns, LatestWindow, AwaitsRespawn, Deaths,
      LatestHealth, HealthChanges, Wires;
    Next(handled, wake);
    NextHealth(handled, wake);
    var wires, response := Wires(wake.execution.writes), Response(wake.request.value, wake.execution.ok);
    AppendWires(out, wake.execution.writes);
    Append(out + wires, response);
    assert out + Emits(handled, wake) == out + wires + [response];
  }

  /** One more wake keeps the account. */
  lemma AccountsNext(handled: seq<Wake>, out: seq<Message>, wake: Wake)
    requires Accounts(handled, out)
    ensures Accounts(handled + [wake], out + Emits(handled, wake))
  {
    hide Stateless, Arrivals, ObservedWindow, Count, Said, CountSpawns, LatestWindow, AwaitsRespawn, Deaths,
      LatestHealth, HealthChanges, Wires;
    Next(handled, wake);
    NextHealth(handled, wake);
    var emitted := Emits(handled, wake);
    if wake.Line? && wake.request.Some? {
      AccountsAnswer(handled, out, wake);
    } else if |emitted| == 2 {
      Append(out, emitted[0]);
      Append(out + [emitted[0]], emitted[1]);
      assert out + emitted == out + [emitted[0]] + [emitted[1]];
    } else if |emitted| == 1 {
      Append(out, emitted[0]);
      assert emitted == [emitted[0]];
    } else {
      assert out + emitted == out;
    }
  }

  /** One tick: the window first, then the health. */
  method HandleTick(window: int, health: Option<int>, before: Locals, written: seq<Message>, ghost handled: seq<Wake>)
    returns (s: Locals, out: seq<Message>)
    requires Tracks(handled, before)
    ensures out == written + Emits(handled, Ticked(window, health))
    ensures Tracks(handled + [Ticked(window, health)], s)
  {
    hide CountSpawns, LatestWindow, AwaitsRespawn, LatestHealth, Wires;
    Next(handled, Ticked(window, health));
    NextHealth(handled, Ticked(window, health));
    s, out := before, written;
    if window != s.lastWindow {
      out := out + [if window == 0 then WindowClose(s.lastWindow) else WindowOpen(window)];
      s := s.(lastWindow := window);
    }
    if health != s.lastHealth {
      if s.lastHealth.Some? { out := out + [Health]; }
      s := s.(lastHealth := health);
    }
  }

  /** One line of input: a request is executed and answered, anything else is reported. */
  method HandleLine(request: Option<nat>, execution: Execution, written: seq<Message>, ghost handled: seq<Wake>)
    returns (out: seq<Message>, stop: bool)
    ensures out == written + Emits(handled, Line(request, execution))
    ensures stop <==> Stops(Line(request, execution))
  {
    hide Wires;
    if request.None? { return written + [ProtocolErrorMessage], false; }
    out := written + Wires(execution.writes);
    out := out + [Response(request.value, execution.ok)];
    stop := execution.ok && execution.shouldExit;
  }

  /** A spawn or a death. */
  method HandleLife(spawned: bool, before: Locals, written: seq<Message>, ghost handled: seq<Wake>)
    returns (s: Locals, out: seq<Message>)
    requires Tracks(handled, before)
    ensures var wake := if spawned then Spawned else Died;
      out == written + Emits(handled, wake) && Tracks(handled + [wake], s)
  {
    hide CountSpawns, LatestWindow, AwaitsRespawn, LatestHealth, Wires;
    ghost var wake := if spawned then Spawned else Died;
    Next(handled, wake);
    NextHealth(handled, wake);
    s, out := before, written;
    if spawned {
      out := out + [if s.hasSpawned then DimensionChange else Spawn];
      s := s.(hasSpawned := true, awaitingRespawn := false);
    } else if !s.awaitingRespawn {
      s := s.(awaitingRespawn := true);
      out := out + [Death];
    }
  }

  /** One turn of the select: what it writes depends on the wakes so far alone, goes
      behind everything written before, and keeps the account of the whole. */
  method Handle(wake: Wake, before: Locals, written: seq<Message>, ghost handled: seq<Wake>)
    returns (s: Locals, out: seq<Message>, stop: bool)
    requires Faithful(handled, written, before)
    ensures out == written + Emits(handled, wake)
    ensures Faithful(handled + [wake], out, s)
    ensures stop <==> Stops(wake)
  {
    hide Accounts, Tracks, Emits;
    AccountsNext(handled, written, wake);
    Uneventful(handled, wake, before);
    s, out, stop := before, written, false;
    match wake {
      case Line(request, execution) => out, stop := HandleLine(request, execution, written, handled);
      case InputClosed => stop := true;
      case InputFailed => out, stop := out + [Fatal], true;
      case EventsClosed => stop := true;
      case Spawned => s, out := HandleLife(true, before, written, handled);
      case Died => s, out := HandleLife(false, before, written, handled);
      case Disconnected => out, stop := out + [End], true;
      case ConnectionFailed => out, stop := out + [ErrorEvent], true;
      case Ticked(window, health) => s, out := HandleTick(window, health, before, written, handled);
      case Announced(kind) => out := out + [Wire(kind)];
      case IgnoredEvent =>
    }
  }

  /** Other wakes leave the variables alone, and write what they say. */
  lemma Uneventful(handled: seq<Wake>, wake: Wake, s: Locals)
    requires Tracks(handled, s)
    ensures !wake.Spawned? && !wake.Died? && !wake.Ticked? ==>
              Tracks(handled + [wake], s) && Emits(handled, wake) == Says(wake)
  {
    hide CountSpawns, LatestWindow, AwaitsRespawn, LatestHealth, Says;
    Next(handled, wake);
    NextHealth(handled, wake);
  }

  /** What one wake may write, told by the wake alone. */
  predicate Writes(wake: Wake, segment: seq<Message>) {
    match wake
    case Line(request, execution) =>
      if request.None? then segment == [ProtocolErrorMessage]
      else
        var n := |execution.writes|;
        && |segment| == n + 1 && segment[n] == Response(request.value, execution.ok)
        && forall i :: 0 <= i < n ==> segment[i] == Wire(execution.writes[i])
    case InputFailed => segment == [Fatal]
    case Spawned => segment in {[Spawn], [DimensionChange]}
    case Died => segment in {[], [Death]}
    case Disconnected => segment == [End]
    case ConnectionFailed => segment == [ErrorEvent]
    case Ticked(_, _) => forall m :: m in segment ==> m.WindowOpen? || m.WindowClose? || m.Health?
    case Announced(kind) => segment == [Wire(kind)]
    case _ => segment == []
  }

  function Flat(segments: seq<seq<Message>>): seq<Message> {
    if segments == [] then [] else Flat(segments[..|segments| - 1]) + segments[|segments| - 1]
  }

  /** The output in segments, one for each wake. */
  predicate ByWake(wakes: seq<Wake>, segments: seq<seq<Message>>, out: seq<Message>) {
    && |segments| == |wakes| && out == Flat(segments)
    && forall i :: 0 <= i < |wakes| ==> Writes(wakes[i], segments[i])
  }

  lemma {:induction false} WiresInOrder(kinds: seq<string>)
    ensures |Wires(kinds)| == |kinds| && forall i :: 0 <= i < |kinds| ==> Wires(kinds)[i] == Wire(kinds[i])
  {
    if kinds != [] { WiresInOrder(kinds[..|kinds| - 1]); }
  }

  lemma {:induction false} OutputByWake(wakes: seq<Wake>) returns (segments: seq<seq<Message>>)
    ensures ByWake(wakes, segments, Output(wakes))
  {
    hide Emits, Writes;
    if wakes == [] {
      segments := [];
    } else {
      var n := |wakes| - 1;
      var init := OutputByWake(wakes[..n]);
      var emitted := Emits(wakes[..n], wakes[n]);
      segments := init + [emitted];
      assert segments[..n] == init;
      EmitsWhatItMay(wakes[..n], wakes[n]);
    }
  }

  lemma EmitsWhatItMay(handled: seq<Wake>, wake: Wake)
    ensures Writes(wake, Emits(handled, wake))
  {
    hide CountSpawns, LatestWindow, LatestHealth, AwaitsRespawn, Wires;
    if wake.Line? { WiresInOrder(wake.execution.writes); }
  }

  predicate Handles(wakes: seq<Wake>, out: seq<Message>, s: Locals) {
    Faithful(wakes, out, s) && out == Output(wakes)
  }

  method HandleNext(wake: Wake, before: Locals, written: seq<Message>, ghost handled: seq<Wake>)
    returns (s: Locals, out: seq<Message>, stop: bool)
    requires Handles(handled, written, before)
    ensures Handles(handled + [wake], out, s)
    ensures stop <==> Stops(wake)
  {
    hide Faithful, Emits;
    assert (handled + [wake])[..|handled|] == handled;
    s, out, stop := Handle(wake, before, written, handled);
  }

  /** Each parsed request is answered once, in order, under its own id; spawn is
      reported once, a death once until the next spawn; window messages always add up
      to the window of the last tick; and the output is what the wakes prescribe. */
  method Run(wakes: seq<Wake>) returns (out: seq<Message>, n: nat)
    ensures IsHandled(wakes, n) && out == Output(wakes[..n])
    ensures exists segments :: ByWake(wakes[..n], segments, out)
    ensures Responses(out) == Answers(wakes[..n]) && Stateless(out) == Said(wakes[..n])
    ensures FirstIsSpawn(Arrivals(out), CountSpawns(wakes[..n]))
    ensures ObservedWindow(out) == LatestWindow(wakes[..n])
    ensures Count(out, Death) == Deaths(wakes[..n]) && Count(out, Health) == HealthChanges(wakes[..n])
  {
    hide *;
    ghost var s;
    out, n, s := Loop(wakes);
    Handled(wakes[..n], out, s);
    ghost var segments := OutputByWake(wakes[..n]);
  }

  method Loop(wakes: seq<Wake>) returns (out: seq<Message>, n: nat, ghost last: Locals)
    ensures n <= |wakes| && IsHandled(wakes, n) && Handles(wakes[..n], out, last)
  {
    hide Handles, Stops;
    out, n := [], 0;
    var s, stop := Locals(false, false, 0, None), false;
    ghost var handled: seq<Wake> := [];
    Initially();
    while n < |wakes| && !stop
      invariant 0 <= n <= |wakes| && handled == wakes[..n]
      invariant forall i :: 0 <= i < n - 1 ==> !Stops(wakes[i])
      invariant stop <==> n > 0 && Stops(wakes[n - 1])
      invariant Handles(handled, out, s)
    {
      s, out, stop := HandleNext(wakes[n], s, out, handled);
      handled := handled + [wakes[n]];
      n := n + 1;
    }
    last := s;
  }

  lemma Initially()
    ensures Handles([], [], Locals(false, false, 0, None))
  {
  }

  lemma Handled(wakes: seq<Wake>, out: seq<Message>, s: Locals)
    requires Handles(wakes, out, s)
    ensures out == Output(wakes)
    ensures Responses(out) == Answers(wakes) && Stateless(out) == Said(wakes)
    ensures FirstIsSpawn(Arrivals(out), CountSpawns(wakes)) && ObservedWindow(out) == LatestWindow(wakes)
    ensures Count(out, Death) == Deaths(wakes) && Count(out, Health) == HealthChanges(wakes)
  {
    hide Responses, Stateless, Said, Answers, Count, Deaths, HealthChanges, Arrivals;
    ResponsesAreStateless(out);
    SaidAnswers(wakes);
  }

  /** If no id is asked twice, no id is answered twice. */
  lemma {:induction false} DistinctRequestsGetDistinctAnswers(wakes: seq<Wake>, i: nat, j: nat)
    requires forall a, b :: 0 <= a < b < |wakes| && wakes[a].Line? && wakes[b].Line? && wakes[a].request.Some? ==>
               wakes[a].request != wakes[b].request
    requires i < j < |Answers(wakes)|
    ensures Answers(wakes)[i].Response? && Answers(wakes)[j].Response? && Answers(wakes)[i].id != Answers(wakes)[j].id
  {
    var n := |wakes| - 1;
    var last := wakes[n];
    var before := Answers(wakes[..n]);
    if j < |before| {
      DistinctRequestsGetDistinctAnswers(wakes[..n], i, j);
    } else {
      var a := AnswersRequest(wakes[..n], i);
      assert wakes[a].request != wakes[n].request;
    }
  }

  lemma {:induction false} AnswersRequest(wakes: seq<Wake>, i: nat) returns (a: nat)
    requires i < |Answers(wakes)|
    ensures a < |wakes| && wakes[a].Line? && wakes[a].request.Some?
    ensures Answers(wakes)[i] == Response(wakes[a].request.value, wakes[a].execution.ok)
  {
    var n := |wakes| - 1;
    if i < |Answers(wakes[..n])| { a := AnswersRequest(wakes[..n], i); } else { a := n; }
  }
}
