/**
  The raid-safety matrix: which release claims are backed by runnable scenarios that
  install the very jars production runs.
 */
module RaidSafety {
  import opened Wrappers
  import Mods = ModsDirectory

  /** An empty version, testedVersion or portfolioTarget counts as none. */
  datatype ProductionMod = ProductionMod(mod: Mods.Mod, portfolioTarget: Option<string>, version: Option<string>)
  datatype Target = Target(id: string, testedVersion: Option<string>, scenarios: seq<string>,
      artifacts: map<string, string>)
  datatype Slot = Slot(required: bool, installed: bool)
  datatype Scenario = Scenario(id: string, artifacts: map<string, Slot>)
  datatype Binding = Binding(artifact: string, slot: string)
  datatype Reference = Reference(id: string, bindings: seq<Binding>)
  datatype Entry = Entry(id: string, executable: bool, artifacts: seq<string>, scenarios: seq<Reference>)
  datatype Matrix = Matrix(requiredArtifacts: seq<string>, foundations: seq<Entry>, acceptance: seq<Entry>)

  datatype Catalog = Catalog(scenarios: seq<Scenario>, production: seq<ProductionMod>, portfolio: seq<Target>)

  datatype Code =
    | MissingProductionArtifact | DisabledProductionArtifact | MissingPortfolioTarget | UnknownPortfolioTarget
    | VersionDrift | UnknownScenario | UncataloguedScenario | UnknownScenarioArtifact | NonRequiredScenarioArtifact
    | PortfolioArtifactMissing | LocatorMismatch | UnboundEntryArtifact
  datatype Finding = Finding(code: Code, subject: string)

  predicate IsError(code: Code) {
    code in {UnknownScenario, UncataloguedScenario, UnknownScenarioArtifact, NonRequiredScenarioArtifact,
        UnboundEntryArtifact}
  }

  // ----- Lookups: a later entry of the same key replaces an earlier one -----

  function FindScenario(scenarios: seq<Scenario>, id: string): (r: Option<Scenario>)
    ensures r.Some? ==> r.value in scenarios && r.value.id == id
  {
    if scenarios == [] then None
    else if scenarios[|scenarios| - 1].id == id then Some(scenarios[|scenarios| - 1])
    else FindScenario(scenarios[..|scenarios| - 1], id)
  }

  function FindMod(mods: seq<ProductionMod>, id: string): (r: Option<ProductionMod>)
    ensures r.Some? ==> r.value in mods && r.value.mod.id == id
  {
    if mods == [] then None
    else if mods[|mods| - 1].mod.id == id then Some(mods[|mods| - 1])
    else FindMod(mods[..|mods| - 1], id)
  }

  function FindTarget(targets: seq<Target>, id: string): (r: Option<Target>)
    ensures r.Some? ==> r.value in targets && r.value.id == id
  {
    if targets == [] then None
    else if targets[|targets| - 1].id == id then Some(targets[|targets| - 1])
    else FindTarget(targets[..|targets| - 1], id)
  }

  function TargetOfScenario(targets: seq<Target>, scenario: string): (r: Option<Target>)
    ensures r.Some? ==> r.value in targets && scenario in r.value.scenarios
  {
    if targets == [] then None
    else if scenario in targets[|targets| - 1].scenarios then Some(targets[|targets| - 1])
    else TargetOfScenario(targets[..|targets| - 1], scenario)
  }

  function WithoutTrailingSlashes(path: string): string {
    if path != "" && path[|path| - 1] == '/' then WithoutTrailingSlashes(path[..|path| - 1]) else path
  }

  function AfterLastSlash(path: string): string {
    if path == "" || path[|path| - 1] == '/' then ""
    else AfterLastSlash(path[..|path| - 1]) + [path[|path| - 1]]
  }

  function Basename(path: string): string { AfterLastSlash(WithoutTrailingSlashes(path)) }

  // ----- What the lookups find -----

  /** The last mod, scenario or target of this id, and the last target that lists this scenario. */
  lemma {:induction false} LastModFound(mods: seq<ProductionMod>, id: string, i: nat)
    requires i < |mods| && mods[i].mod.id == id && forall j :: i < j < |mods| ==> mods[j].mod.id != id
    ensures FindMod(mods, id) == Some(mods[i])
  {
    if i < |mods| - 1 { LastModFound(mods[..|mods| - 1], id, i); }
  }

  lemma {:induction false} LastScenarioFound(scenarios: seq<Scenario>, id: string, i: nat)
    requires i < |scenarios| && scenarios[i].id == id && forall j :: i < j < |scenarios| ==> scenarios[j].id != id
    ensures FindScenario(scenarios, id) == Some(scenarios[i])
  {
    if i < |scenarios| - 1 { LastScenarioFound(scenarios[..|scenarios| - 1], id, i); }
  }

  lemma {:induction false} LastTargetFound(targets: seq<Target>, id: string, i: nat)
    requires i < |targets| && targets[i].id == id && forall j :: i < j < |targets| ==> targets[j].id != id
    ensures FindTarget(targets, id) == Some(targets[i])
  {
    if i < |targets| - 1 { LastTargetFound(targets[..|targets| - 1], id, i); }
  }

  lemma {:induction false} LastListingFound(targets: seq<Target>, scenario: string, i: nat)
    requires i < |targets| && scenario in targets[i].scenarios
    requires forall j :: i < j < |targets| ==> scenario !in targets[j].scenarios
    ensures TargetOfScenario(targets, scenario) == Some(targets[i])
  {
    if i < |targets| - 1 { LastListingFound(targets[..|targets| - 1], scenario, i); }
  }

  lemma {:induction false} TrailingSlashes(path: string) returns (slashes: string)
    ensures path == WithoutTrailingSlashes(path) + slashes && forall c :: c in slashes ==> c == '/'
    ensures var kept := WithoutTrailingSlashes(path); kept == "" || kept[|kept| - 1] != '/'
  {
    slashes := "";
    if path != "" && path[|path| - 1] == '/' {
      var init := path[..|path| - 1];
      slashes := TrailingSlashes(init);
      assert path == WithoutTrailingSlashes(init) + (slashes + "/");
      slashes := slashes + "/";
    }
  }

  lemma {:induction false} LastSlash(path: string) returns (directory: string)
    ensures path == directory + AfterLastSlash(path) && '/' !in AfterLastSlash(path)
    ensures directory == "" || directory[|directory| - 1] == '/'
  {
    directory := path;
    if path != "" && path[|path| - 1] != '/' {
      directory := LastSlash(path[..|path| - 1]);
      assert path == path[..|path| - 1] + [path[|path| - 1]];
    }
  }

  /** The base name is the last segment that is not empty; only a path of slashes has none. */
  lemma BasenameIsLastSegment(path: string) returns (directory: string, slashes: string)
    ensures path == directory + Basename(path) + slashes
    ensures '/' !in Basename(path) && forall c :: c in slashes ==> c == '/'
    ensures directory == "" || directory[|directory| - 1] == '/'
    ensures Basename(path) == "" ==> directory == ""
  {
    slashes := TrailingSlashes(path);
    directory := LastSlash(WithoutTrailingSlashes(path));
  }

  predicate MatchesLocator(mod: ProductionMod, path: string) { Mods.Matches(mod.mod, Basename(path)) }

  // ----- What ready means -----

  /** The artifact is enabled in production, at its portfolio target's testedVersion. */
  predicate Deployed(artifact: string, c: Catalog) {
    var mod := FindMod(c.production, artifact);
    && mod.Some? && mod.value.mod.enabled
    && mod.value.portfolioTarget.Some?
    && var target := FindTarget(c.portfolio, mod.value.portfolioTarget.value);
       target.Some? && mod.value.version.Some? && mod.value.version == target.value.testedVersion
  }

  /** The slot is a required, installed jar of the scenario. */
  predicate RequiredSlot(scenario: Scenario, slot: string) {
    slot in scenario.artifacts && scenario.artifacts[slot].required && scenario.artifacts[slot].installed
  }

  /** The target supplies the slot with a jar production would accept. */
  predicate Supplied(target: Target, binding: Binding, c: Catalog) {
    && binding.slot in target.artifacts
    && var mod := FindMod(c.production, binding.artifact);
       mod.None? || MatchesLocator(mod.value, target.artifacts[binding.slot])
  }

  predicate Known(reference: Reference, c: Catalog) { FindScenario(c.scenarios, reference.id).Some? }

  predicate Catalogued(reference: Reference, c: Catalog) { TargetOfScenario(c.portfolio, reference.id).Some? }

  predicate BindingSound(reference: Reference, binding: Binding, c: Catalog)
    requires Known(reference, c)
  {
    RequiredSlot(FindScenario(c.scenarios, reference.id).value, binding.slot)
  }

  /** With nothing but blockers wrong. */
  predicate ReferenceSound(reference: Reference, c: Catalog) {
    && Known(reference, c) && Catalogued(reference, c)
    && forall b :: b in reference.bindings ==> BindingSound(reference, b, c)
  }

  predicate ReferenceReady(reference: Reference, c: Catalog) {
    && ReferenceSound(reference, c)
    && forall b :: b in reference.bindings ==> Supplied(TargetOfScenario(c.portfolio, reference.id).value, b, c)
  }

  /** Some known scenario of the entry binds the artifact. */
  predicate BoundIn(artifact: string, references: seq<Reference>, c: Catalog) {
    exists r, b :: r in references && b in r.bindings && Known(r, c) && b.artifact == artifact
  }

  predicate AllBound(entry: Entry, c: Catalog) {
    forall artifact :: artifact in entry.artifacts ==> BoundIn(artifact, entry.scenarios, c)
  }

  predicate EntrySound(entry: Entry, c: Catalog) {
    entry.executable ==> AllBound(entry, c) && forall r :: r in entry.scenarios ==> ReferenceSound(r, c)
  }

  predicate EntryReady(entry: Entry, c: Catalog) {
    entry.executable ==> AllBound(entry, c) && forall r :: r in entry.scenarios ==> ReferenceReady(r, c)
  }

  predicate Ready(matrix: Matrix, c: Catalog) {
    && (forall a :: a in matrix.requiredArtifacts ==> Deployed(a, c))
    && (forall e :: e in matrix.foundations + matrix.acceptance ==> EntryReady(e, c))
    && (forall e :: e in matrix.acceptance ==> e.executable)
  }

  // ----- What each finding says -----

  /** Something wrong with a required artifact. */
  predicate ArtifactIssue(x: Finding, artifact: string, c: Catalog) {
    var mod := FindMod(c.production, artifact);
    && x.subject == artifact
    && match x.code
       case MissingProductionArtifact => mod.None?
       case DisabledProductionArtifact => mod.Some? && !mod.value.mod.enabled
       case MissingPortfolioTarget => mod.Some? && mod.value.portfolioTarget.None?
       case UnknownPortfolioTarget =>
         && mod.Some? && mod.value.portfolioTarget.Some?
         && FindTarget(c.portfolio, mod.value.portfolioTarget.value).None?
       case VersionDrift =>
         && mod.Some? && mod.value.portfolioTarget.Some?
         && var target := FindTarget(c.portfolio, mod.value.portfolioTarget.value);
            target.Some? && (mod.value.version.None? || mod.value.version != target.value.testedVersion)
       case _ => false
  }

  /** Something wrong with a binding of a known scenario: the slot first, then what is
      supplied for it. */
  predicate BindingIssue(x: Finding, reference: Reference, binding: Binding, c: Catalog)
    requires Known(reference, c)
  {
    var slots := FindScenario(c.scenarios, reference.id).value.artifacts;
    var target := TargetOfScenario(c.portfolio, reference.id);
    && x.subject == binding.artifact
    && match x.code
       case UnknownScenarioArtifact => binding.slot !in slots
       case NonRequiredScenarioArtifact => binding.slot in slots && !BindingSound(reference, binding, c)
       case PortfolioArtifactMissing =>
         BindingSound(reference, binding, c) && target.Some? && binding.slot !in target.value.artifacts
       case LocatorMismatch =>
         && BindingSound(reference, binding, c) && target.Some? && binding.slot in target.value.artifacts
         && !Supplied(target.value, binding, c)
       case _ => false
  }

  predicate ReferenceIssue(x: Finding, reference: Reference, c: Catalog) {
    if !Known(reference, c) then x == Finding(UnknownScenario, reference.id)
    else
      || (x == Finding(UncataloguedScenario, reference.id) && !Catalogued(reference, c))
      || exists b :: b in reference.bindings && BindingIssue(x, reference, b, c)
  }

  predicate EntryIssue(x: Finding, entry: Entry, c: Catalog) {
    && entry.executable
    && (|| (exists r :: r in entry.scenarios && ReferenceIssue(x, r, c))
        || UnboundIssue(x, entry, c))
  }

  predicate UnboundIssue(x: Finding, entry: Entry, c: Catalog) {
    x.code == UnboundEntryArtifact && x.subject in entry.artifacts && !BoundIn(x.subject, entry.scenarios, c)
  }

  predicate Justified(x: Finding, matrix: Matrix, c: Catalog) {
    || (exists a :: a in matrix.requiredArtifacts && ArtifactIssue(x, a, c))
    || (exists e :: e in matrix.foundations + matrix.acceptance && EntryIssue(x, e, c))
  }

  // ----- Nothing to find means everything holds -----

  lemma DeployedIffNoIssue(artifact: string, c: Catalog)
    ensures Deployed(artifact, c) <==> forall x :: !ArtifactIssue(x, artifact, c)
    ensures forall x :: ArtifactIssue(x, artifact, c) ==> !IsError(x.code)
  {
    if !Deployed(artifact, c) {
      var mod := FindMod(c.production, artifact);
      var code :=
        if mod.None? then MissingProductionArtifact
        else if !mod.value.mod.enabled then DisabledProductionArtifact
        else if mod.value.portfolioTarget.None? then MissingPortfolioTarget
        else if FindTarget(c.portfolio, mod.value.portfolioTarget.value).None? then UnknownPortfolioTarget
        else VersionDrift;
      assert ArtifactIssue(Finding(code, artifact), artifact, c);
    }
  }

  lemma BindingIffNoIssue(reference: Reference, binding: Binding, c: Catalog)
    requires Known(reference, c)
    ensures BindingSound(reference, binding, c)
       <==> forall x :: BindingIssue(x, reference, binding, c) ==> !IsError(x.code)
    ensures Catalogued(reference, c) ==>
              (BindingSound(reference, binding, c)
                 && Supplied(TargetOfScenario(c.portfolio, reference.id).value, binding, c)
               <==> forall x :: !BindingIssue(x, reference, binding, c))
  {
    hide Supplied;
    var slots := FindScenario(c.scenarios, reference.id).value.artifacts;
    var target := TargetOfScenario(c.portfolio, reference.id);
    var code := if binding.slot !in slots then UnknownScenarioArtifact else NonRequiredScenarioArtifact;
    var x := Finding(code, binding.artifact);
    assert BindingIssue(x, reference, binding, c) <==> !BindingSound(reference, binding, c);
    if target.Some? {
      SuppliedSlot(target.value, binding, c);
      var more := if binding.slot !in target.value.artifacts then PortfolioArtifactMissing else LocatorMismatch;
      var y := Finding(more, binding.artifact);
      assert BindingIssue(y, reference, binding, c)
        <==> BindingSound(reference, binding, c) && !Supplied(target.value, binding, c);
    }
  }

  lemma SuppliedSlot(target: Target, binding: Binding, c: Catalog)
    ensures Supplied(target, binding, c) ==> binding.slot in target.artifacts
  {
  }

  lemma ReferenceIffNoIssue(reference: Reference, c: Catalog)
    ensures ReferenceReady(reference, c) <==> forall x :: !ReferenceIssue(x, reference, c)
    ensures ReferenceSound(reference, c) <==> forall x :: ReferenceIssue(x, reference, c) ==> !IsError(x.code)
  {
    hide BindingIssue, BindingSound, Supplied, Known;
    if !Known(reference, c) {
      assert ReferenceIssue(Finding(UnknownScenario, reference.id), reference, c);
    } else if !Catalogued(reference, c) {
      assert ReferenceIssue(Finding(UncataloguedScenario, reference.id), reference, c);
    } else {
      forall b | b in reference.bindings
        ensures BindingSound(reference, b, c) <==> forall x :: BindingIssue(x, reference, b, c) ==> !IsError(x.code)
        ensures BindingSound(reference, b, c) && Supplied(TargetOfScenario(c.portfolio, reference.id).value, b, c)
          <==> forall x :: !BindingIssue(x, reference, b, c)
      {
        BindingIffNoIssue(reference, b, c);
      }
      forall x, b | b in reference.bindings && BindingIssue(x, reference, b, c)
        ensures ReferenceIssue(x, reference, c)
      {
      }
    }
  }

  lemma EntryIffNoIssue(entry: Entry, c: Catalog)
    ensures EntryReady(entry, c) <==> forall x :: !EntryIssue(x, entry, c)
    ensures EntrySound(entry, c) <==> forall x :: EntryIssue(x, entry, c) ==> !IsError(x.code)
  {
    hide ReferenceIssue, ReferenceReady, ReferenceSound, BoundIn;
    if entry.executable {
      forall r | r in entry.scenarios
        ensures ReferenceReady(r, c) <==> forall x :: !ReferenceIssue(x, r, c)
        ensures ReferenceSound(r, c) <==> forall x :: ReferenceIssue(x, r, c) ==> !IsError(x.code)
      {
        ReferenceIffNoIssue(r, c);
      }
      forall x, r | r in entry.scenarios && ReferenceIssue(x, r, c) ensures EntryIssue(x, entry, c) {}
      forall artifact | artifact in entry.artifacts
        ensures UnboundIssue(Finding(UnboundEntryArtifact, artifact), entry, c)
           <==> !BoundIn(artifact, entry.scenarios, c)
      {
      }
      forall x | UnboundIssue(x, entry, c) ensures EntryIssue(x, entry, c) && IsError(x.code) {}
    }
  }

  lemma ReadyIffNoIssue(matrix: Matrix, c: Catalog)
    ensures (forall x :: !Justified(x, matrix, c)) <==>
      && (forall a :: a in matrix.requiredArtifacts ==> Deployed(a, c))
      && (forall e :: e in matrix.foundations + matrix.acceptance ==> EntryReady(e, c))
  {
    hide Deployed, EntryReady, EntryIssue, ArtifactIssue;
    var entries := matrix.foundations + matrix.acceptance;
    forall a ensures Deployed(a, c) <==> forall x :: !ArtifactIssue(x, a, c) { DeployedIffNoIssue(a, c); }
    forall e ensures EntryReady(e, c) <==> forall x :: !EntryIssue(x, e, c) { EntryIffNoIssue(e, c); }
    forall x, a | a in matrix.requiredArtifacts && ArtifactIssue(x, a, c) ensures Justified(x, matrix, c) {}
    forall x, e | e in entries && EntryIssue(x, e, c) ensures Justified(x, matrix, c) {}
  }

  lemma SoundIffNoError(matrix: Matrix, c: Catalog)
    ensures (forall x :: Justified(x, matrix, c) ==> !IsError(x.code))
       <==> forall e :: e in matrix.foundations + matrix.acceptance ==> EntrySound(e, c)
  {
    hide Deployed, EntrySound, EntryIssue, ArtifactIssue, IsError;
    var entries := matrix.foundations + matrix.acceptance;
    forall e ensures EntrySound(e, c) <==> forall x :: EntryIssue(x, e, c) ==> !IsError(x.code) {
      EntryIffNoIssue(e, c);
    }
    if forall e :: e in entries ==> EntrySound(e, c) {
      forall x | Justified(x, matrix, c) ensures !IsError(x.code) {
        if a :| a in matrix.requiredArtifacts && ArtifactIssue(x, a, c) {
          DeployedIffNoIssue(a, c);
        } else {
          var e :| e in entries && EntryIssue(x, e, c);
          assert EntrySound(e, c);
        }
      }
    }
    forall x, e | e in entries && EntryIssue(x, e, c) ensures Justified(x, matrix, c) {}
  }

  // ----- The audit -----

  /** The findings so far, with one more if the check failed. */
  method Check(findings: seq<Finding>, ok: bool, code: Code, subject: string) returns (r: seq<Finding>)
    ensures forall x :: x in r <==> x in findings || (!ok && x == Finding(code, subject))
  {
    r := findings;
    if !ok { r := findings + [Finding(code, subject)]; }
  }

  method AuditArtifact(artifact: string, c: Catalog, before: seq<Finding>) returns (findings: seq<Finding>)
    ensures forall x :: x in findings <==> x in before || ArtifactIssue(x, artifact, c)
  {
    var mod := FindMod(c.production, artifact);
    findings := Check(before, mod.Some?, MissingProductionArtifact, artifact);
    if mod.None? { return; }
    findings := Check(findings, mod.value.mod.enabled, DisabledProductionArtifact, artifact);
    findings := Check(findings, mod.value.portfolioTarget.Some?, MissingPortfolioTarget, artifact);
    if mod.value.portfolioTarget.None? { return; }
    var target := FindTarget(c.portfolio, mod.value.portfolioTarget.value);
    if target.None? {
      findings := Check(findings, false, UnknownPortfolioTarget, artifact);
    } else {
      findings := Check(findings,
        mod.value.version.Some? && target.value.testedVersion.Some? && mod.value.version == target.value.testedVersion,
        VersionDrift, artifact);
    }
  }

  method AuditBinding(reference: Reference, binding: Binding, target: Option<Target>, c: Catalog, before: seq<Finding>)
    returns (findings: seq<Finding>)
    requires Known(reference, c) && target == TargetOfScenario(c.portfolio, reference.id)
    ensures forall x :: x in findings <==> x in before || BindingIssue(x, reference, binding, c)
  {
    var scenario := FindScenario(c.scenarios, reference.id).value;
    if binding.slot !in scenario.artifacts {
      findings := Check(before, false, UnknownScenarioArtifact, binding.artifact);
    } else if !scenario.artifacts[binding.slot].required || !scenario.artifacts[binding.slot].installed {
      findings := Check(before, false, NonRequiredScenarioArtifact, binding.artifact);
    } else if target.Some? && binding.slot !in target.value.artifacts {
      findings := Check(before, false, PortfolioArtifactMissing, binding.artifact);
    } else {
      var mod := FindMod(c.production, binding.artifact);
      var mismatch := mod.Some? && target.Some? && !MatchesLocator(mod.value, target.value.artifacts[binding.slot]);
      findings := Check(before, !mismatch, LocatorMismatch, binding.artifact);
    }
  }

  method AuditReference(reference: Reference, c: Catalog, before: seq<Finding>, bound0: set<string>)
    returns (findings: seq<Finding>, bound: set<string>)
    ensures forall x :: x in findings <==> x in before || ReferenceIssue(x, reference, c)
    ensures bound == bound0 + if Known(reference, c) then set b | b in reference.bindings :: b.artifact else {}
  {
    hide BindingIssue;
    findings, bound := before, bound0;
    var scenario := FindScenario(c.scenarios, reference.id);
    findings := Check(findings, scenario.Some?, UnknownScenario, reference.id);
    if scenario.None? { return; }
    var target := TargetOfScenario(c.portfolio, reference.id);
    findings := Check(findings, target.Some?, UncataloguedScenario, reference.id);
    ghost var start := findings;
    var i := 0;
    while i < |reference.bindings|
      invariant 0 <= i <= |reference.bindings|
      invariant forall x :: x in findings <==>
                  x in start || exists b :: b in reference.bindings[..i] && BindingIssue(x, reference, b, c)
      invariant bound == bound0 + set b | b in reference.bindings[..i] :: b.artifact
    {
      var binding := reference.bindings[i];
      assert reference.bindings[..i + 1] == reference.bindings[..i] + [binding];
      bound := bound + {binding.artifact};
      findings := AuditBinding(reference, binding, target, c, findings);
      i := i + 1;
    }
    assert reference.bindings[..i] == reference.bindings;
  }

  method AuditEntry(entry: Entry, c: Catalog, before: seq<Finding>) returns (findings: seq<Finding>)
    ensures forall x :: x in findings <==> x in before || EntryIssue(x, entry, c)
  {
    hide ReferenceIssue, BoundIn, UnboundIssue;
    findings := before;
    if !entry.executable { return; }
    var bound: set<string> := {};
    NothingBound(c);
    var i := 0;
    while i < |entry.scenarios|
      invariant 0 <= i <= |entry.scenarios|
      invariant forall x :: x in findings <==>
                  x in before || exists r :: r in entry.scenarios[..i] && ReferenceIssue(x, r, c)
      invariant forall a :: a in bound <==> BoundIn(a, entry.scenarios[..i], c)
    {
      var reference := entry.scenarios[i];
      assert entry.scenarios[..i + 1] == entry.scenarios[..i] + [reference];
      BoundNext(entry.scenarios[..i], reference, c);
      findings, bound := AuditReference(reference, c, findings, bound);
      i := i + 1;
    }
    assert entry.scenarios[..i] == entry.scenarios;
    findings := AuditBound(entry, c, bound, findings);
  }

  lemma NothingBound(c: Catalog)
    ensures forall a :: !BoundIn(a, [], c)
  {
  }

  lemma BoundNext(references: seq<Reference>, next: Reference, c: Catalog)
    ensures forall a :: BoundIn(a, references + [next], c) <==>
              BoundIn(a, references, c) || (Known(next, c) && exists b :: b in next.bindings && b.artifact == a)
  {
  }

  method AuditBound(entry: Entry, c: Catalog, bound: set<string>, before: seq<Finding>) returns (findings: seq<Finding>)
    requires forall a :: a in bound <==> BoundIn(a, entry.scenarios, c)
    ensures forall x :: x in findings <==> x in before || UnboundIssue(x, entry, c)
  {
    findings := before;
    hide BoundIn;
    var i := 0;
    while i < |entry.artifacts|
      invariant 0 <= i <= |entry.artifacts|
      invariant forall x :: x in findings <==>
                  x in before || (x.code == UnboundEntryArtifact && x.subject in entry.artifacts[..i]
                                    && x.subject !in bound)
    {
      assert entry.artifacts[..i + 1] == entry.artifacts[..i] + [entry.artifacts[i]];
      findings := Check(findings, entry.artifacts[i] in bound, UnboundEntryArtifact, entry.artifacts[i]);
      i := i + 1;
    }
    assert entry.artifacts[..i] == entry.artifacts;
  }

  datatype Audit = Audit(valid: bool, ready: bool, blockedCases: seq<string>, findings: seq<Finding>)

  function BlockedCases(entries: seq<Entry>): seq<string> {
    if entries == [] then []
    else
      var before, last := BlockedCases(entries[..|entries| - 1]), entries[|entries| - 1];
      if last.executable then before else before + [last.id]
  }

  lemma {:induction false} NoBlockedCases(entries: seq<Entry>)
    ensures BlockedCases(entries) == [] <==> forall e :: e in entries ==> e.executable
  {
    if entries != [] {
      NoBlockedCases(entries[..|entries| - 1]);
      assert entries == entries[..|entries| - 1] + [entries[|entries| - 1]];
    }
  }

  /** A finding is reported if and only if it is justified; ready and valid mean exactly
      the declared conditions. */
  method AuditRaidSafetyMatrix(matrix: Matrix, c: Catalog) returns (audit: Audit)
    ensures forall x :: x in audit.findings <==> Justified(x, matrix, c)
    ensures audit.blockedCases == BlockedCases(matrix.acceptance)
    ensures audit.ready <==> Ready(matrix, c)
    ensures audit.valid <==> forall e :: e in matrix.foundations + matrix.acceptance ==> EntrySound(e, c)
  {
    hide Deployed, EntryReady, EntrySound, ArtifactIssue, EntryIssue, IsError;
    var findings: seq<Finding> := [];
    var required := matrix.requiredArtifacts;
    var i := 0;
    while i < |required|
      invariant 0 <= i <= |required|
      invariant forall x :: x in findings <==> exists a :: a in required[..i] && ArtifactIssue(x, a, c)
    {
      assert required[..i + 1] == required[..i] + [required[i]];
      findings := AuditArtifact(required[i], c, findings);
      i := i + 1;
    }
    assert required[..i] == required;
    var entries := matrix.foundations + matrix.acceptance;
    ghost var start := findings;
    i := 0;
    while i < |entries|
      invariant 0 <= i <= |entries|
      invariant forall x :: x in findings <==> x in start || exists e :: e in entries[..i] && EntryIssue(x, e, c)
    {
      assert entries[..i + 1] == entries[..i] + [entries[i]];
      findings := AuditEntry(entries[i], c, findings);
      i := i + 1;
    }
    assert entries[..i] == entries;
    assert forall x :: x in findings <==> Justified(x, matrix, c);
    var blocked := BlockedCases(matrix.acceptance);
    NoBlockedCases(matrix.acceptance);
    ReadyIffNoIssue(matrix, c);
    SoundIffNoError(matrix, c);
    EmptyIff(findings);
    ReadyIsSound(entries, c);
    var valid := forall x :: x in findings ==> !IsError(x.code);
    return Audit(valid, valid && |blocked| == 0 && |findings| == 0, blocked, findings);
  }

  lemma EmptyIff(findings: seq<Finding>)
    ensures findings == [] <==> forall x :: x !in findings
  {
    if findings != [] { assert findings[0] in findings; }
  }

  lemma ReadyIsSound(entries: seq<Entry>, c: Catalog)
    ensures (forall e :: e in entries ==> EntryReady(e, c)) ==> forall e :: e in entries ==> EntrySound(e, c)
  {
  }

  // ----- For validated matrices -----

  /** Bindings name artifacts of their entry, entries name required artifacts, and
      every foundation is executable. */
  predicate Validated(matrix: Matrix) {
    && (forall e :: e in matrix.foundations ==> e.executable)
    && forall e :: e in matrix.foundations + matrix.acceptance ==>
         && (forall a :: a in e.artifacts ==> a in matrix.requiredArtifacts)
         && (forall r :: r in e.scenarios ==> forall b :: b in r.bindings ==> b.artifact in e.artifacts)
  }

  /** Ready, spelled out: every claim, foundation or acceptance, rests for each of its
      artifacts on a known, catalogued scenario whose every binding is a required
      installed slot, supplied by the target with a jar that a deployed production mod
      accepts. */
  lemma ReadyMeans(matrix: Matrix, c: Catalog)
    requires Validated(matrix)
    ensures Ready(matrix, c) <==>
      && (forall a :: a in matrix.requiredArtifacts ==> Deployed(a, c))
      && forall e :: e in matrix.foundations + matrix.acceptance ==>
           && e.executable && AllBound(e, c)
           && forall r :: r in e.scenarios ==>
                && Known(r, c) && Catalogued(r, c)
                && forall b :: b in r.bindings ==> Backed(r, b, c)
  {
  }

  predicate Backed(r: Reference, b: Binding, c: Catalog) {
    var scenario, target, mod := FindScenario(c.scenarios, r.id), TargetOfScenario(c.portfolio, r.id),
        FindMod(c.production, b.artifact);
    && scenario.Some? && RequiredSlot(scenario.value, b.slot)
    && target.Some? && b.slot in target.value.artifacts
    && mod.Some? && MatchesLocator(mod.value, target.value.artifacts[b.slot])
  }
}
