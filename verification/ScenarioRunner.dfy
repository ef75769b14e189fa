/**
  One scenario run: the step loop, the log check, and the cleanup that always
  happens.  Effects on servers, clients and containers may end any way at all.
 */
module ScenarioRunner {
  import opened Wrappers

  datatype Step = Step(id: string, always: bool)
  datatype Status = Passed | Failed | Skipped
  datatype StepResult = StepResult(id: string, status: Status)

  /** Where the reported error came from. */
  datatype Failure =
    | StepFailed(step: nat)
    | LogFailure
    | BadLogPattern
    | StopFailed(detail: string)
    | ServiceCleanupFailed(services: seq<string>)
    | DirectoryNotRemoved

  /** How each effect ends: a step may depend on what ran before it, so its outcome is
      a function of its position in the run. */
  datatype World = World(
    stepPasses: nat -> bool,
    patternsValid: bool,
    unallowedFindings: nat,
    stopFails: Option<string>,
    serviceFails: string -> bool,
    closeLogFails: bool,
    filesFail: bool,
    removalFails: bool,
    reportFails: bool)

  /** Cleanup attempts, in order. */
  datatype Attempt = Disconnect(client: string) | StopServer | CleanService(service: string) | CloseLog

  /** Aborted: the run ends with an exception instead of a report. */
  datatype Outcome =
    | Report(results: seq<StepResult>, failed: bool, error: Option<Failure>, leftServices: set<string>)
    | Aborted

  // ----- What is expected -----

  predicate FailedBefore(results: seq<StepResult>, i: nat)
    requires i <= |results|
  {
    exists j :: 0 <= j < i && results[j].status == Failed
  }

  /** One result per step, in order: a step is skipped exactly when an earlier one
      failed and it is not an always-step; otherwise it ran and is reported as it ended. */
  predicate ResultsFollow(results: seq<StepResult>, steps: seq<Step>, w: World) {
    && |results| <= |steps|
    && forall i :: 0 <= i < |results| ==>
         && results[i].id == steps[i].id
         && results[i].status == if FailedBefore(results, i) && !steps[i].always then Skipped
                                 else if w.stepPasses(i) then Passed else Failed
  }

  /** Position of the first failed step. */
  predicate IsFirstFailure(results: seq<StepResult>, k: nat) {
    k < |results| && results[k].status == Failed && !FailedBefore(results, k)
  }

  function FailingServices(services: seq<string>, w: World): seq<string> {
    if services == [] then []
    else
      var before, last := FailingServices(services[..|services| - 1], w), services[|services| - 1];
      if w.serviceFails(last) then before + [last] else before
  }

  /** Everything that went wrong, in the order in which it is found out. */
  function Failures(firstFailed: Option<nat>, services: seq<string>, keepDirectory: bool, w: World): seq<Failure> {
    (if firstFailed.Some? then [StepFailed(firstFailed.value)] else [])
    + (if w.unallowedFindings > 0 then [LogFailure] else [])
    + (if w.stopFails.Some? then [StopFailed(w.stopFails.value)] else [])
    + (if FailingServices(services, w) != [] then [ServiceCleanupFailed(FailingServices(services, w))] else [])
    + (if !keepDirectory && w.removalFails then [DirectoryNotRemoved] else [])
  }

  function First(failures: seq<Failure>): Option<Failure> {
    if failures == [] then None else Some(failures[0])
  }

  // ----- The run -----

  class ScenarioRun {
    const steps: seq<Step>
    const clients: seq<string>
    var services: seq<string>
    var results: seq<StepResult>
    var originalError: Option<Failure>
    var attempts: seq<Attempt>

    constructor (steps: seq<Step>, clients: seq<string>, services: seq<string>)
      ensures this.steps == steps && this.clients == clients && this.services == services
      ensures results == [] && originalError == None && attempts == []
    {
      this.steps, this.clients, this.services := steps, clients, services;
      results, originalError, attempts := [], None, [];
    }

    /** The first error stays. */
    method Fail(failure: Failure)
      modifies this`originalError
      ensures originalError == if old(originalError).Some? then old(originalError) else Some(failure)
    {
      if originalError.None? { originalError := Some(failure); }
    }

    method RunSteps(w: World) returns (ghost firstFailed: Option<nat>)
      requires results == [] && originalError == None
      modifies this`results, this`originalError
      ensures |results| == |steps| && ResultsFollow(results, steps, w)
      ensures originalError == if firstFailed.Some? then Some(StepFailed(firstFailed.value)) else None
      ensures firstFailed.Some? ==> IsFirstFailure(results, firstFailed.value)
      ensures firstFailed.None? ==> !FailedBefore(results, |results|)
    {
      firstFailed := None;
      var i := 0;
      while i < |steps|
        invariant 0 <= i == |results| <= |steps|
        invariant ResultsFollow(results, steps, w)
        invariant originalError == if firstFailed.Some? then Some(StepFailed(firstFailed.value)) else None
        invariant firstFailed.Some? ==> IsFirstFailure(results, firstFailed.value)
        invariant firstFailed.None? ==> !FailedBefore(results, |results|)
      {
        var step := steps[i];
        ghost var before := results;
        assert firstFailed.Some? <==> FailedBefore(results, i);
        if originalError.Some? && !step.always {
          results := results + [StepResult(step.id, Skipped)];
        } else if w.stepPasses(i) {
          results := results + [StepResult(step.id, Passed)];
        } else {
          results := results + [StepResult(step.id, Failed)];
          if originalError.None? { firstFailed := Some(i); }
          Fail(StepFailed(i));
        }
        SamePrefix(before, results);
        i := i + 1;
      }
    }

    /** Disconnects every client; its own failures are ignored. */
    method DisconnectClients()
      modifies this`attempts
      ensures attempts == old(attempts) + Disconnects(clients)
    {
      var i := 0;
      assert Disconnects(clients[..0]) == [];
      while i < |clients|
        invariant 0 <= i <= |clients|
        invariant attempts == old(attempts) + Disconnects(clients[..i])
      {
        assert clients[..i + 1][..i] == clients[..i];
        attempts := attempts + [Disconnect(clients[i])];
        i := i + 1;
      }
      assert clients[..i] == clients;
    }

    /** Tries every service; the ones that go are forgotten, the others reported together. */
    method CleanupServices(w: World) returns (failures: seq<string>)
      modifies this`attempts, this`services
      ensures attempts == old(attempts) + Cleanings(old(services))
      ensures failures == FailingServices(old(services), w)
      ensures forall s :: s in services <==> s in old(services) && w.serviceFails(s)
    {
      var names := services;
      failures := [];
      var i := 0;
      assert Cleanings(names[..0]) == [];
      while i < |names|
        invariant 0 <= i <= |names|
        invariant attempts == old(attempts) + Cleanings(names[..i])
        invariant failures == FailingServices(names[..i], w)
        invariant forall s :: s in services <==> s in names && (s in names[..i] ==> w.serviceFails(s))
      {
        var name := names[i];
        assert names[..i + 1] == names[..i] + [name] && names[..i + 1][..i] == names[..i];
        attempts := attempts + [CleanService(name)];
        if w.serviceFails(name) {
          failures := failures + [name];
        } else {
          services := Without(services, name);
        }
        i := i + 1;
      }
      assert names[..i] == names;
    }

    /** The check of the log after the step loop. */
    method CheckLog(w: World)
      modifies this`originalError
      ensures originalError == Or(old(originalError),
                if !w.patternsValid then Some(BadLogPattern)
                else if w.unallowedFindings > 0 then Some(LogFailure)
                else None)
    {
      if !w.patternsValid {
        Fail(BadLogPattern);
      } else if w.unallowedFindings > 0 {
        Fail(LogFailure);
      }
    }

    /** The cleanup that follows in any case: every client, the server, every service. */
    method CleanUp(w: World)
      modifies this`originalError, this`attempts, this`services
      ensures attempts == old(attempts) + Disconnects(clients) + [StopServer] + Cleanings(old(services)) + [CloseLog]
      ensures originalError == Or(Or(old(originalError), StopFailure(w)), ServiceFailure(old(services), w))
      ensures forall s :: s in services <==> s in old(services) && w.serviceFails(s)
    {
      hide FailingServices, Disconnects, Cleanings;
      DisconnectClients();
      attempts := attempts + [StopServer];
      if w.stopFails.Some? { Fail(StopFailed(w.stopFails.value)); }
      var failures := CleanupServices(w);
      if failures != [] { Fail(ServiceCleanupFailed(failures)); }
      attempts := attempts + [CloseLog];
    }

    /** The whole run after preparation.  The report's error is the first thing that
        went wrong; the cleanup attempts do not depend on any of it. */
    method Run(w: World, keepDirectory: bool) returns (outcome: Outcome)
      requires results == [] && originalError == None && attempts == []
      modifies this
      ensures attempts == Disconnects(clients) + [StopServer] + Cleanings(old(services)) + [CloseLog]
      ensures outcome.Aborted? <==> w.closeLogFails || w.filesFail || !w.patternsValid || w.reportFails
      ensures outcome.Report? ==>
        && |outcome.results| == |steps| && ResultsFollow(outcome.results, steps, w)
        && (outcome.failed <==> outcome.error.Some?)
        && ErrorIsFirst(outcome.error, outcome.results, old(services), keepDirectory, w)
        && (forall s :: s in outcome.leftServices <==> s in old(services) && w.serviceFails(s))
    {
      hide ResultsFollow, FailedBefore, IsFirstFailure, FailingServices, Failures, First, Disconnects, Cleanings;
      ghost var firstFailed := RunSteps(w);
      ghost var initial := services;
      CheckLog(w);
      CleanUp(w);
      assert attempts == Disconnects(clients) + [StopServer] + Cleanings(old(services)) + [CloseLog];
      if w.closeLogFails { return Aborted; }
      // Client events, log copies and checksums are written outside any handler.
      if w.filesFail { return Aborted; }
      if !keepDirectory && w.removalFails { Fail(DirectoryNotRemoved); }
      // The report filters findings with the same patterns, outside any handler.
      if !w.patternsValid { return Aborted; }
      if w.reportFails { return Aborted; }
      FirstOfFailures(firstFailed, initial, keepDirectory, w);
      outcome := Report(results, originalError.Some?, originalError, set s | s in services);
    }
  }

  function StopFailure(w: World): Option<Failure> {
    if w.stopFails.Some? then Some(StopFailed(w.stopFails.value)) else None
  }

  function ServiceFailure(services: seq<string>, w: World): Option<Failure> {
    var failing := FailingServices(services, w);
    if failing != [] then Some(ServiceCleanupFailed(failing)) else None
  }

  function Or(first: Option<Failure>, second: Option<Failure>): Option<Failure> {
    if first.Some? then first else second
  }

  /** The error is the first failure, in the order of discovery. */
  ghost predicate ErrorIsFirst(error: Option<Failure>, results: seq<StepResult>, services: seq<string>,
      keepDirectory: bool, w: World) {
    exists firstFailed: Option<nat> ::
      && error == First(Failures(firstFailed, services, keepDirectory, w))
      && (if firstFailed.Some? then IsFirstFailure(results, firstFailed.value) else !FailedBefore(results, |results|))
  }

  /** The run fails exactly when a step failed, an unallowed finding was in the log
      after the steps, or some cleanup threw. */
  lemma FailsExactlyWhen(error: Option<Failure>, results: seq<StepResult>, services: seq<string>,
      keepDirectory: bool, w: World)
    requires ErrorIsFirst(error, results, services, keepDirectory, w)
    ensures error.Some? <==>
      || FailedBefore(results, |results|) || w.unallowedFindings > 0 || w.stopFails.Some?
      || (exists s :: s in services && w.serviceFails(s)) || (!keepDirectory && w.removalFails)
  {
    var firstFailed: Option<nat> :|
      && error == First(Failures(firstFailed, services, keepDirectory, w))
      && (if firstFailed.Some? then IsFirstFailure(results, firstFailed.value) else !FailedBefore(results, |results|));
    FirstOfFailures(firstFailed, services, keepDirectory, w);
    FailingServicesExact(services, w);
    if firstFailed.Some? { FailedSomewhere(results, firstFailed.value); }
  }

  lemma FirstOfFailures(firstFailed: Option<nat>, services: seq<string>, keepDirectory: bool, w: World)
    ensures First(Failures(firstFailed, services, keepDirectory, w)) ==
      if firstFailed.Some? then Some(StepFailed(firstFailed.value))
      else if w.unallowedFindings > 0 then Some(LogFailure)
      else if w.stopFails.Some? then Some(StopFailed(w.stopFails.value))
      else if FailingServices(services, w) != [] then Some(ServiceCleanupFailed(FailingServices(services, w)))
      else if !keepDirectory && w.removalFails then Some(DirectoryNotRemoved)
      else None
  {
  }

  lemma FailedSomewhere(results: seq<StepResult>, k: nat)
    requires IsFirstFailure(results, k)
    ensures FailedBefore(results, |results|)
  {
  }

  function Disconnects(clients: seq<string>): seq<Attempt> {
    if clients == [] then [] else Disconnects(clients[..|clients| - 1]) + [Disconnect(clients[|clients| - 1])]
  }

  function Cleanings(services: seq<string>): seq<Attempt> {
    if services == [] then [] else Cleanings(services[..|services| - 1]) + [CleanService(services[|services| - 1])]
  }

  function Without(services: seq<string>, name: string): (r: seq<string>)
    ensures forall s :: s in r <==> s in services && s != name
  {
    if services == [] then []
    else if services[0] == name then Without(services[1..], name)
    else [services[0]] + Without(services[1..], name)
  }

  lemma SamePrefix(before: seq<StepResult>, after: seq<StepResult>)
    requires |after| == |before| + 1 && after[..|before|] == before
    ensures forall i :: 0 <= i <= |before| ==> (FailedBefore(after, i) <==> FailedBefore(before, i))
    ensures FailedBefore(after, |after|) <==> FailedBefore(before, |before|) || after[|before|].status == Failed
  {
  }

  lemma {:induction false} FailingServicesExact(services: seq<string>, w: World)
    ensures FailingServices(services, w) != [] <==> exists s :: s in services && w.serviceFails(s)
  {
    if services != [] {
      var init, last := services[..|services| - 1], services[|services| - 1];
      FailingServicesExact(init, w);
      assert services == init + [last];
      if exists s :: s in init && w.serviceFails(s) {
        var s :| s in init && w.serviceFails(s);
        assert s in services;
      }
      if w.serviceFails(last) { assert last in services; }
    }
  }

  /** After the first failed step exactly the later steps that are not always-steps
      are skipped, and a later failure never takes its place. */
  lemma SkippedAfterFirstFailure(results: seq<StepResult>, steps: seq<Step>, w: World, k: nat)
    requires |results| == |steps| && ResultsFollow(results, steps, w) && IsFirstFailure(results, k)
    ensures forall i :: 0 <= i < |results| ==> (results[i].status == Skipped <==> k < i && !steps[i].always)
    ensures forall i :: 0 <= i < k ==> results[i].status == Passed
    ensures forall m: nat :: IsFirstFailure(results, m) ==> m == k
  {
  }
}
