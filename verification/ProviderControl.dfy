/**
  Fault controls over providers published in a shared registry: replace a
  provider's value, remember the original, persist the control, restore, restart.
 */
module ProviderControl {
  import opened Wrappers

  datatype Provider = Structures | Principals | Continuity | Protection
  datatype Mode =
    | Original | Missing | Malformed
    | Resident | Transferred
    | Stale | Throwing
    | RestoreThrowing | AcknowledgeThrowing
    | DenyBreak

  /** A member of a published protocol map.  Native members are opaque objects. */
  datatype Handler =
    | Native(id: nat, callable: bool)
    | Version(number: int)
    | ResidentAt(at: Handler, resident: string)
    | TransferredAt(at: Handler, owner: string)
    | Denying
    | Injected(operation: string)

  datatype Shared = Protocol(members: map<string, Handler>) | NoMap(id: nat)
  type Registry = map<Provider, Shared>

  datatype Failure = UnsupportedControl | PlayerRequired | PlayerOffline | NotPublished | NoAtFunction

  function Lookup<K, V>(m: map<K, V>, k: K): Option<V> {
    if k in m then Some(m[k]) else None
  }

  predicate Callable(h: Handler) {
    match h
    case Native(_, callable) => callable
    case Version(_) => false
    case Denying => false
    case _ => true
  }

  // ----- The replacement of one provider, from its original -----

  function Replacement(provider: Provider, mode: Mode, original: Option<Shared>, player: Option<string>)
    : Result<Option<Shared>, Failure>
  {
    if provider == Protection then Err(UnsupportedControl)
    else match mode
      case Original => Ok(original)
      case Missing => Ok(None)
      case Malformed => Ok(Some(Protocol(map["protocolVersion" := Version(1)])))
      case _ =>
        match provider
        case Structures => StructureReplacement(mode, original, player)
        case Principals => PrincipalReplacement(mode, original)
        case _ => ContinuityReplacement(mode, original)
  }

  function RequiredProtocol(original: Option<Shared>): Result<map<string, Handler>, Failure> {
    if original.Some? && original.value.Protocol? then Ok(original.value.members) else Err(NotPublished)
  }

  function StructureReplacement(mode: Mode, original: Option<Shared>, player: Option<string>)
    : Result<Option<Shared>, Failure>
  {
    if mode != Resident && mode != Transferred then Err(UnsupportedControl)
    else if player.None? then Err(PlayerRequired)
    else
      var protocol :- RequiredProtocol(original);
      if !("at" in protocol && Callable(protocol["at"])) then Err(NoAtFunction)
      else
        var native := protocol["at"];
        var at := if mode == Resident then ResidentAt(native, player.value) else TransferredAt(native, player.value);
        Ok(Some(Protocol(protocol["at" := at])))
  }

  function PrincipalReplacement(mode: Mode, original: Option<Shared>): Result<Option<Shared>, Failure> {
    var protocol :- RequiredProtocol(original);
    match mode
    case Stale => Ok(Some(Protocol(protocol["isMember" := Denying]["canAdminister" := Denying])))
    case Throwing =>
      var denied := Injected("principal authorization");
      var resolving := protocol["resolve" := Injected("principal resolve")];
      Ok(Some(Protocol(resolving["isMember" := denied]["canAdminister" := denied])))
    case _ => Err(UnsupportedControl)
  }

  function ContinuityReplacement(mode: Mode, original: Option<Shared>): Result<Option<Shared>, Failure> {
    var protocol :- RequiredProtocol(original);
    match mode
    case RestoreThrowing => Ok(Some(Protocol(protocol["restore" := Injected("continuity restore")])))
    case AcknowledgeThrowing => Ok(Some(Protocol(protocol["acknowledge" := Injected("continuity acknowledge")])))
    case _ => Err(UnsupportedControl)
  }

  // ----- Commands -----

  datatype PlayerArgument = NoPlayer | Online(id: string) | Offline

  datatype Command = All(mode: Mode) | Control(provider: Provider, mode: Mode, player: PlayerArgument)

  /** The supported controls. */
  predicate Supported(provider: Provider, mode: Mode) {
    (provider, mode) in {
      (Structures, Original), (Principals, Original), (Continuity, Original), (Protection, Original),
      (Structures, Missing), (Principals, Missing), (Continuity, Missing),
      (Structures, Malformed), (Principals, Malformed), (Continuity, Malformed),
      (Structures, Resident), (Structures, Transferred),
      (Principals, Throwing), (Principals, Stale),
      (Continuity, RestoreThrowing), (Continuity, AcknowledgeThrowing),
      (Protection, DenyBreak), (Protection, Throwing)
    }
  }

  /** The modes the adapter lets through for a provider. */
  function ModesOf(provider: Provider): (modes: set<Mode>)
    ensures forall mode :: mode in modes <==> Supported(provider, mode)
  {
    match provider
    case Structures => {Original, Missing, Malformed, Resident, Transferred}
    case Principals => {Original, Missing, Malformed, Throwing, Stale}
    case Continuity => {Original, Missing, Malformed, RestoreThrowing, AcknowledgeThrowing}
    case Protection => {Original, DenyBreak, Throwing}
  }

  /** Whether a provider's fault can be built over its original. */
  predicate Replaceable(provider: Provider, mode: Mode, original: Option<Shared>, player: Option<string>) {
    && provider != Protection && Supported(provider, mode)
    && (mode !in {Original, Missing, Malformed} ==> original.Some? && original.value.Protocol?)
    && (mode in {Resident, Transferred} ==>
          && player.Some? && "at" in original.value.members
          && match original.value.members["at"]
             case Native(_, callable) => callable
             case at => !at.Version? && !at.Denying?)
  }

  lemma ReplaceableIff(provider: Provider, mode: Mode, original: Option<Shared>, player: Option<string>)
    ensures Replacement(provider, mode, original, player).Ok? <==> Replaceable(provider, mode, original, player)
  {
  }

  function PlayerOf(argument: PlayerArgument): Option<string> {
    if argument.Online? then Some(argument.id) else None
  }

  /** What is persisted for a provider. */
  datatype Persisted = Persisted(mode: Mode, player: Option<string>)
  type Controls = map<Provider, Persisted>

  /** Whether a command succeeds, as a function of the originals alone. */
  predicate Feasible(command: Command, originals: Registry) {
    match command
    case All(mode) => mode == Original
    case Control(provider, mode, player) =>
      && Supported(provider, mode)
      && (mode in {Resident, Transferred} ==> player.Online?)
      && player != Offline
      && (provider != Protection && mode != Original ==>
            Replaceable(provider, mode, Lookup(originals, provider), PlayerOf(player)))
  }

  function NextControls(controls: Controls, command: Command, originals: Registry): Controls {
    if !Feasible(command, originals) then controls
    else match command
      case All(_) => map[]
      case Control(provider, mode, player) =>
        With(controls, provider, Persist(mode, PlayerOf(player)))
  }

  // ----- What should be visible, from originals and persisted controls -----

  /** The value the registry should show for a provider: a function of its original
      and its own persisted control, and of nothing else. */
  function Shown(provider: Provider, original: Option<Shared>, control: Option<Persisted>): Option<Shared> {
    if control.None? || provider == Protection then original
    else
      var replaced := Replacement(provider, control.value.mode, original, control.value.player);
      if replaced.Ok? then replaced.value else original
  }

  function Visible(provider: Provider, originals: Registry, controls: Controls): Option<Shared> {
    Shown(provider, Lookup(originals, provider), Lookup(controls, provider))
  }

  /** The break guard that should be registered. */
  function Guard(controls: Controls): Option<Mode> {
    if Protection in controls then Some(controls[Protection].mode) else None
  }

  predicate ApplicableTo(provider: Provider, original: Option<Shared>, control: Option<Persisted>) {
    control.Some? ==>
      if provider == Protection then control.value.mode in {DenyBreak, Throwing}
      else
        && control.value.mode != Original
        && Replaceable(provider, control.value.mode, original, control.value.player)
  }

  /** Persisted controls that can be applied to these originals. */
  ghost predicate Applicable(controls: Controls, originals: Registry) {
    forall p :: ApplicableTo(p, Lookup(originals, p), Lookup(controls, p))
  }

  /** The registry, the guard and the memory agree with the persisted controls.
      In particular no value in the registry was built from another replacement. */
  ghost predicate Agrees(share: Registry, captured: set<Provider>, guard: Option<Mode>, controls: Controls,
      originals: Registry) {
    && Applicable(controls, originals)
    && controls.Keys - {Protection} <= captured
    && (forall p :: Lookup(share, p) == Visible(p, originals, controls))
    && guard == Guard(controls)
  }

  /** Changing one provider's control and what shows for it keeps the agreement. */
  lemma AgreesAfter(share: Registry, share': Registry, captured: set<Provider>, captured': set<Provider>,
      guard: Option<Mode>, controls: Controls, provider: Provider, control: Option<Persisted>, originals: Registry)
    requires Agrees(share, captured, guard, controls, originals)
    requires ApplicableTo(provider, Lookup(originals, provider), control)
    requires captured - {provider} <= captured'
    requires control.Some? && provider != Protection ==> provider in captured'
    requires Lookup(share', provider) == Shown(provider, Lookup(originals, provider), control)
    requires forall p :: p != provider ==> Lookup(share', p) == Lookup(share, p)
    ensures var guard' :=
        if provider != Protection then guard else if control.None? then None else Some(control.value.mode);
      Agrees(share', captured', guard', With(controls, provider, control), originals)
  {
  }

  function With(controls: Controls, provider: Provider, control: Option<Persisted>): Controls {
    if control.None? then controls - {provider} else controls[provider := control.value]
  }

  // ----- What a caller of a published value sees -----

  datatype Field = Text(text: string) | Texts(texts: seq<string>) | OtherField(id: nat)
  type Structure = map<string, Field>

  /** What the native members answer to requests; no entry is a null answer. */
  type Natives = imap<(nat, nat), Structure>

  /** What a structure lookup answers. */
  ghost function At(h: Handler, natives: Natives, request: nat): Option<Structure> {
    match h
    case Native(id, _) => if (id, request) in natives then Some(natives[(id, request)]) else None
    case ResidentAt(at, resident) =>
      var s := At(at, natives, request);
      if s.None? || s.value == map[] then s
      else
        var residents := ResidentsOf(s.value);
        Some(s.value["residents" := Texts(if resident in residents then residents else residents + [resident])])
    case TransferredAt(at, owner) =>
      var s := At(at, natives, request);
      if s.None? || s.value == map[] then s else Some(s.value["owner" := Text("player:" + owner)])
    case _ => None
  }

  function ResidentsOf(s: Structure): seq<string> {
    if "residents" in s && s["residents"].Texts? then s["residents"].texts else []
  }

  /** The player lives there now, besides those who did; nothing else changed. */
  predicate Admits(before: Option<Structure>, after: Option<Structure>, player: string) {
    if before.None? || before.value == map[] then after == before
    else
      && after.Some? && "residents" in after.value && after.value["residents"].Texts?
      && after.value - {"residents"} == before.value - {"residents"}
      && var residents := after.value["residents"].texts;
         if "residents" in before.value && before.value["residents"].Texts? then
           var earlier := before.value["residents"].texts;
           player in residents && residents == if player in earlier then earlier else earlier + [player]
         else residents == [player]
  }

  /** The player owns it now; nothing else changed. */
  predicate HandsOver(before: Option<Structure>, after: Option<Structure>, player: string) {
    if before.None? || before.value == map[] then after == before
    else
      && after.Some? && "owner" in after.value && after.value["owner"] == Text("player:" + player)
      && after.value - {"owner"} == before.value - {"owner"}
  }

  /** Every other member is the original one. */
  predicate KeepsOthers(members: map<string, Handler>, original: map<string, Handler>, named: set<string>) {
    named <= members.Keys && members - named == original - named
  }

  /** What the members of a faulty protocol do, compared with the original ones. */
  ghost predicate Faulty(members: map<string, Handler>, native: map<string, Handler>, control: Persisted) {
    match control.mode
    case Resident =>
      && control.player.Some? && "at" in native && KeepsOthers(members, native, {"at"})
      && forall natives: Natives, request ::
           Admits(At(native["at"], natives, request), At(members["at"], natives, request), control.player.value)
    case Transferred =>
      && control.player.Some? && "at" in native && KeepsOthers(members, native, {"at"})
      && forall natives: Natives, request ::
           HandsOver(At(native["at"], natives, request), At(members["at"], natives, request), control.player.value)
    case Stale =>
      && KeepsOthers(members, native, {"isMember", "canAdminister"})
      && members["isMember"] == members["canAdminister"] == Denying
    case Throwing =>
      && KeepsOthers(members, native, {"resolve", "isMember", "canAdminister"})
      && members["resolve"] == Injected("principal resolve")
      && members["isMember"] == members["canAdminister"] == Injected("principal authorization")
    case RestoreThrowing =>
      KeepsOthers(members, native, {"restore"}) && members["restore"] == Injected("continuity restore")
    case AcknowledgeThrowing =>
      KeepsOthers(members, native, {"acknowledge"}) && members["acknowledge"] == Injected("continuity acknowledge")
    case _ => false
  }

  /** What is published under a control, compared with the original. */
  ghost predicate Observed(shown: Option<Shared>, original: Option<Shared>, control: Persisted) {
    if control.mode == Original then shown == original
    else if control.mode == Missing then shown == None
    else if control.mode == Malformed then
      && shown.Some? && shown.value.Protocol? && shown.value.members.Keys == {"protocolVersion"}
      && shown.value.members["protocolVersion"] == Version(1)
    else
      && shown.Some? && shown.value.Protocol? && original.Some? && original.value.Protocol?
      && Faulty(shown.value.members, original.value.members, control)
  }

  /** Both projections, for every request, and admitting somebody twice. */
  lemma Projections(at: Handler, player: string, natives: Natives, request: nat)
    ensures var s := At(at, natives, request);
      var r, t := At(ResidentAt(at, player), natives, request), At(TransferredAt(at, player), natives, request);
      && Admits(s, r, player) && HandsOver(s, t, player)
      && At(ResidentAt(ResidentAt(at, player), player), natives, request) == r
  {
    var s, r := At(at, natives, request), At(ResidentAt(at, player), natives, request);
    if s.Some? && s.value != map[] {
      assert "residents" in r.value;
      assert r.value - {"residents"} == s.value - {"residents"};
      assert r.value["residents" := Texts(ResidentsOf(r.value))] == r.value;
    }
  }

  lemma ReplacementObserved(provider: Provider, original: Option<Shared>, control: Persisted)
    requires Replaceable(provider, control.mode, original, control.player)
    ensures var r := Replacement(provider, control.mode, original, control.player);
      r.Ok? && Observed(r.value, original, control)
  {
    hide At, Admits, HandsOver;
    if control.mode in {Resident, Transferred} {
      forall natives: Natives, request
        ensures var at := original.value.members["at"];
          && Admits(At(at, natives, request), At(ResidentAt(at, control.player.value), natives, request),
                    control.player.value)
          && HandsOver(At(at, natives, request), At(TransferredAt(at, control.player.value), natives, request),
                       control.player.value)
      {
        Projections(original.value.members["at"], control.player.value, natives, request);
      }
    }
  }

  /** Every provider does what its persisted control says, or what it always did, and the
      break guard is the one that was asked for. */
  ghost predicate Effective(share: Registry, guard: Option<Mode>, controls: Controls, originals: Registry) {
    && (forall p :: p in controls && p != Protection ==> Observed(Lookup(share, p), Lookup(originals, p), controls[p]))
    && (forall p :: p !in controls || p == Protection ==> Lookup(share, p) == Lookup(originals, p))
    && guard == if Protection in controls then Some(controls[Protection].mode) else None
  }

  lemma AgreeingIsEffective(share: Registry, captured: set<Provider>, guard: Option<Mode>, controls: Controls,
      originals: Registry)
    requires Agrees(share, captured, guard, controls, originals)
    ensures Effective(share, guard, controls, originals)
  {
    hide Replacement, Observed, Replaceable;
    forall p | p in controls && p != Protection
      ensures Observed(Lookup(share, p), Lookup(originals, p), controls[p])
    {
      assert ApplicableTo(p, Lookup(originals, p), Lookup(controls, p));
      ReplacementObserved(p, Lookup(originals, p), controls[p]);
      assert Lookup(share, p) == Visible(p, originals, controls);
    }
    forall p | p !in controls || p == Protection ensures Lookup(share, p) == Lookup(originals, p) {
      assert Lookup(share, p) == Visible(p, originals, controls);
    }
  }

  // ----- The adapter -----

  class CofferAdapter {
    var share: Registry
    var capturedProviders: set<Provider>
    var originalProviders: map<Provider, Option<Shared>>
    var controls: Controls
    var breakGuard: Option<Mode>

    /** Every originals entry ever remembered is the real one. */
    predicate Remembers(originals: Registry)
      reads this
    {
      && originalProviders.Keys == capturedProviders && Protection !in capturedProviders
      && (forall p :: p in capturedProviders ==> originalProviders[p] == Lookup(originals, p))
    }

    ghost predicate Faithful(originals: Registry)
      reads this
    {
      Remembers(originals) && Agrees(share, capturedProviders, breakGuard, controls, originals)
    }

    constructor (published: Registry)
      requires Protection !in published
      ensures Faithful(published) && share == published && controls == map[]
    {
      share, capturedProviders, originalProviders, controls, breakGuard := published, {}, map[], map[], None;
    }

    method PublishProvider(provider: Provider, value: Option<Shared>)
      modifies this`share
      ensures Lookup(share, provider) == value
      ensures forall p :: p != provider ==> Lookup(share, p) == Lookup(old(share), p)
    {
      share := if value.None? then share - {provider} else share[provider := value.value];
    }

    /** Captures the original before the replacement is computed, so a failure
        leaves the provider captured but still showing what it showed. */
    method CaptureAndPublish(provider: Provider, mode: Mode, player: Option<string>,
        ghost originals: Registry) returns (ok: bool)
      requires provider != Protection && Remembers(originals)
      requires provider !in capturedProviders ==> Lookup(share, provider) == Lookup(originals, provider)
      modifies this`share, this`capturedProviders, this`originalProviders
      ensures Remembers(originals)
      ensures capturedProviders == old(capturedProviders) + {provider}
      ensures ok <==> Replacement(provider, mode, Lookup(originals, provider), player).Ok?
      ensures ok ==> Lookup(share, provider) == Replacement(provider, mode, Lookup(originals, provider), player).value
      ensures !ok ==> share == old(share)
      ensures forall p :: p != provider ==> Lookup(share, p) == Lookup(old(share), p)
    {
      if provider !in capturedProviders {
        capturedProviders := capturedProviders + {provider};
        originalProviders := originalProviders[provider := Lookup(share, provider)];
      }
      var replacement := Replacement(provider, mode, originalProviders[provider], player);
      if replacement.Err? { return false; }
      PublishProvider(provider, replacement.value);
      return true;
    }

    method RestoreProvider(provider: Provider, ghost originals: Registry)
      requires Remembers(originals)
      modifies this`share, this`capturedProviders, this`originalProviders
      ensures Remembers(originals)
      ensures capturedProviders == old(capturedProviders) - {provider}
      ensures provider in old(capturedProviders) ==> Lookup(share, provider) == Lookup(originals, provider)
      ensures provider !in old(capturedProviders) ==> share == old(share)
      ensures forall p :: p != provider ==> Lookup(share, p) == Lookup(old(share), p)
    {
      if provider !in capturedProviders { return; }
      capturedProviders := capturedProviders - {provider};
      var original := originalProviders[provider];
      originalProviders := originalProviders - {provider};
      PublishProvider(provider, original);
    }

    method RestoreAllProviders(ghost originals: Registry)
      requires Remembers(originals)
      modifies this`share, this`capturedProviders, this`originalProviders, this`breakGuard
      ensures Remembers(originals) && capturedProviders == {} && breakGuard == None
      ensures forall p :: Lookup(share, p) ==
                if p in old(capturedProviders) then Lookup(originals, p) else Lookup(old(share), p)
    {
      var remaining := capturedProviders;
      while remaining != {}
        invariant Remembers(originals) && remaining == capturedProviders <= old(capturedProviders)
        invariant forall p :: Lookup(share, p) ==
                    if p in old(capturedProviders) - remaining then Lookup(originals, p) else Lookup(old(share), p)
        decreases remaining
      {
        var provider :| provider in remaining;
        RestoreProvider(provider, originals);
        remaining := remaining - {provider};
      }
      ApplyBreakProtection(Original);
    }

    method ApplyBreakProtection(mode: Mode)
      requires mode in {Original, DenyBreak, Throwing}
      modifies this`breakGuard
      ensures breakGuard == if mode == Original then None else Some(mode)
    {
      breakGuard := None;
      if mode != Original { breakGuard := Some(mode); }
    }

    /** One control command, including the ones that are refused or fail half-way. */
    method ProviderControl(command: Command, ghost originals: Registry) returns (ok: bool)
      requires Faithful(originals)
      modifies this
      ensures Faithful(originals)
      ensures ok <==> Feasible(command, originals)
      ensures controls == NextControls(old(controls), command, originals)
      ensures Effective(share, breakGuard, controls, originals)
      ensures ok && command.Control? && command.mode != Original ==>
                && command.provider in controls && controls[command.provider].mode == command.mode
                && (command.player.Online? ==> controls[command.provider].player == Some(command.player.id))
    {
      hide Replacement, Replaceable, Agrees, Effective, Supported;
      ok := Obey(command, originals);
      AgreeingIsEffective(share, capturedProviders, breakGuard, controls, originals);
    }

    method Obey(command: Command, ghost originals: Registry) returns (ok: bool)
      requires Faithful(originals)
      modifies this
      ensures Faithful(originals)
      ensures ok <==> Feasible(command, originals)
      ensures controls == NextControls(old(controls), command, originals)
    {
      hide Replacement, Replaceable, Agrees, Supported;
      if command.All? {
        if command.mode != Original { return false; }
        RestoreAllProviders(originals);
        AllRestored(old(share), share, old(capturedProviders), old(breakGuard), controls, originals);
        controls := map[];
        return true;
      }
      var Control(provider, mode, argument) := command;
      if mode !in ModesOf(provider) { return false; }
      if mode in {Resident, Transferred} && argument.NoPlayer? { return false; }
      if argument.Offline? { return false; }
      ok := Switch(provider, mode, PlayerOf(argument), originals);
      if ok {
        controls := With(controls, provider, Persist(mode, PlayerOf(argument)));
      }
    }

    /** What a supported command does to the registry and the guard, before it is persisted. */
    method Switch(provider: Provider, mode: Mode, player: Option<string>, ghost originals: Registry) returns (ok: bool)
      requires Faithful(originals) && Supported(provider, mode)
      modifies this`share, this`capturedProviders, this`originalProviders, this`breakGuard
      ensures Remembers(originals)
      ensures ok <==> provider == Protection || mode == Original
                      || Replaceable(provider, mode, Lookup(originals, provider), player)
      ensures Agrees(share, capturedProviders, breakGuard,
                     if ok then With(controls, provider, Persist(mode, player)) else controls, originals)
    {
      hide Replacement, Replaceable, Supported, Shown, ApplicableTo, Agrees;
      var original, control := Lookup(originals, provider), Persist(mode, player);
      Uncaptured(share, capturedProviders, breakGuard, controls, provider, originals);
      ShownIs(provider, original, control);
      ReplaceableIff(provider, mode, original, player);
      if provider == Protection {
        assert mode in ModesOf(Protection);
        ApplyBreakProtection(mode);
      } else if mode == Original {
        RestoreProvider(provider, originals);
      } else {
        ok := CaptureAndPublish(provider, mode, player, originals);
        if !ok {
          CapturedMore(share, old(capturedProviders), capturedProviders, breakGuard, controls, originals);
          return;
        }
      }
      AgreesAfter(old(share), share, old(capturedProviders), capturedProviders, old(breakGuard), controls, provider,
          control, originals);
      return true;
    }

    /** A new process: the mods publish their providers, then the persisted controls
        are applied in a fixed order, stopping at the first that fails. */
    method Restart(published: Registry) returns (ok: bool)
      requires Protection !in published
      requires forall p :: p in controls ==>
                 controls[p].mode != Original && (p == Protection ==> controls[p].mode in {DenyBreak, Throwing})
      modifies this
      ensures controls == old(controls)
      ensures ok <==> Applicable(controls, published)
      ensures ok ==> Faithful(published) && Effective(share, breakGuard, controls, published)
      ensures !ok ==> forall p :: Lookup(share, p) in {Lookup(published, p), Visible(p, published, controls)}
    {
      hide Shown, Replacement, ApplicableTo, Agrees, Effective;
      share, capturedProviders, originalProviders, breakGuard := published, {}, map[], None;
      ghost var applied: Controls := map[];
      StartsAgreeing(published);
      var order := [Continuity, Principals, Structures];
      var i := 0;
      while i < |order|
        invariant 0 <= i <= |order| && controls == old(controls)
        invariant Remembers(published) && Agrees(share, capturedProviders, breakGuard, applied, published)
        invariant forall p :: Lookup(applied, p) == if p in order[..i] then Lookup(controls, p) else None
      {
        var provider := order[i];
        assert order[..i + 1] == order[..i] + [provider];
        if provider in controls {
          assert Lookup(applied, provider) == None;
          ghost var before := capturedProviders;
          var done := ApplyPersisted(provider, controls[provider], applied, published);
          if !done {
            ShownUnlessLater(share, before, breakGuard, applied, controls, published);
            return false;
          }
          applied := With(applied, provider, Some(controls[provider]));
        }
        i := i + 1;
      }
      if Protection in controls {
        GuardLast(share, capturedProviders, breakGuard, applied, controls[Protection], published);
        applied := With(applied, Protection, Some(controls[Protection]));
        ApplyBreakProtection(controls[Protection].mode);
      }
      SameControls(applied, controls, order);
      AgreeingApplies(share, capturedProviders, breakGuard, controls, published);
      AgreeingIsEffective(share, capturedProviders, breakGuard, controls, published);
      return true;
    }

    method ApplyPersisted(provider: Provider, control: Persisted, ghost applied: Controls, ghost published: Registry)
      returns (ok: bool)
      requires provider != Protection && control.mode != Original && provider !in applied
      requires Remembers(published) && Agrees(share, capturedProviders, breakGuard, applied, published)
      modifies this`share, this`capturedProviders, this`originalProviders
      ensures Remembers(published)
      ensures ok <==> ApplicableTo(provider, Lookup(published, provider), Some(control))
      ensures ok ==> Agrees(share, capturedProviders, breakGuard, With(applied, provider, Some(control)), published)
      ensures !ok ==> share == old(share)
    {
      hide Shown, Replacement, Agrees, ApplicableTo;
      Uncaptured(share, capturedProviders, breakGuard, applied, provider, published);
      ShownIs(provider, Lookup(published, provider), Some(control));
      ok := CaptureAndPublish(provider, control.mode, control.player, published);
      if ok {
        AgreesAfter(old(share), share, old(capturedProviders), capturedProviders, breakGuard, applied, provider,
            Some(control), published);
      }
    }
  }

  function Persist(mode: Mode, player: Option<string>): Option<Persisted> {
    if mode == Original then None else Some(Persisted(mode, player))
  }

  /** A provider without a captured original shows its original. */
  lemma Uncaptured(share: Registry, captured: set<Provider>, guard: Option<Mode>, controls: Controls,
      provider: Provider, originals: Registry)
    requires Agrees(share, captured, guard, controls, originals)
    ensures provider !in captured ==> Lookup(share, provider) == Lookup(originals, provider)
    ensures provider == Protection ==> Lookup(share, provider) == Lookup(originals, provider)
    ensures provider !in controls ==> Lookup(share, provider) == Lookup(originals, provider)
  {
    hide Replacement, Applicable;
    assert Lookup(share, provider) == Visible(provider, originals, controls);
  }

  lemma CapturedMore(share: Registry, captured: set<Provider>, captured': set<Provider>, guard: Option<Mode>,
      controls: Controls, originals: Registry)
    requires Agrees(share, captured, guard, controls, originals) && captured <= captured'
    ensures Agrees(share, captured', guard, controls, originals)
  {
    hide Visible, Applicable;
  }

  lemma AllRestored(share: Registry, share': Registry, captured: set<Provider>, guard: Option<Mode>,
      controls: Controls, originals: Registry)
    requires Agrees(share, captured, guard, controls, originals)
    requires forall p :: Lookup(share', p) == if p in captured then Lookup(originals, p) else Lookup(share, p)
    ensures Agrees(share', {}, None, map[], originals)
  {
  }

  lemma GuardLast(share: Registry, captured: set<Provider>, guard: Option<Mode>, controls: Controls,
      control: Persisted, originals: Registry)
    requires Agrees(share, captured, guard, controls, originals) && control.mode in {DenyBreak, Throwing}
    ensures Agrees(share, captured, Some(control.mode), With(controls, Protection, Some(control)), originals)
  {
  }

  lemma AgreeingApplies(share: Registry, captured: set<Provider>, guard: Option<Mode>, controls: Controls,
      originals: Registry)
    requires Agrees(share, captured, guard, controls, originals)
    ensures Applicable(controls, originals)
  {
  }

  /** With only some of the controls applied, each provider shows its original or
      what all of them would make it show. */
  lemma ShownUnlessLater(share: Registry, captured: set<Provider>, guard: Option<Mode>, applied: Controls,
      controls: Controls, originals: Registry)
    requires Agrees(share, captured, guard, applied, originals)
    requires forall p :: Lookup(applied, p) in {None, Lookup(controls, p)}
    ensures forall p :: Lookup(share, p) in {Lookup(originals, p), Visible(p, originals, controls)}
  {
  }

  lemma StartsAgreeing(published: Registry)
    ensures Agrees(published, {}, None, map[], published)
  {
  }

  lemma ShownIs(provider: Provider, original: Option<Shared>, control: Option<Persisted>)
    ensures provider == Protection || control.None? ==> Shown(provider, original, control) == original
    ensures control.None? ==> ApplicableTo(provider, original, control)
    ensures control.Some? && provider == Protection ==>
              (ApplicableTo(provider, original, control) <==> control.value.mode in {DenyBreak, Throwing})
    ensures control.Some? && provider != Protection && control.value.mode != Original ==>
              var replaced := Replacement(provider, control.value.mode, original, control.value.player);
              && (ApplicableTo(provider, original, control) <==> replaced.Ok?)
              && (replaced.Ok? ==> Shown(provider, original, control) == replaced.value)
  {
    hide Replacement;
    if control.Some? { ReplaceableIff(provider, control.value.mode, original, control.value.player); }
  }

  lemma SameControls(applied: Controls, controls: Controls, order: seq<Provider>)
    requires order == [Continuity, Principals, Structures]
    requires forall p :: Lookup(applied, p) == if p in order || p == Protection then Lookup(controls, p) else None
    ensures applied == controls
  {
    assert order[0] == Continuity && order[1] == Principals && order[2] == Structures;
    forall p: Provider ensures Lookup(applied, p) == Lookup(controls, p) {
      match p { case Continuity => case Principals => case Structures => case Protection => }
    }
    assert forall p :: p in applied <==> Lookup(applied, p).Some?;
    assert forall p :: p in controls <==> Lookup(controls, p).Some?;
    assert forall p :: p in controls ==> Lookup(applied, p).value == controls[p];
  }

  // ----- Over whole histories -----

  datatype Event = Issue(command: Command) | Reboot

  /** The persisted controls after a history that starts from the given ones. */
  function ControlsAfter(controls: Controls, events: seq<Event>, originals: Registry): Controls {
    if events == [] then controls
    else
      var before := ControlsAfter(controls, events[..|events| - 1], originals);
      match events[|events| - 1]
      case Issue(command) => NextControls(before, command, originals)
      case Reboot => before
  }

  /** Runs a history of commands and restarts over mods that keep publishing the
      same originals.  Afterwards everything visible is Visible of the originals and
      of the persisted controls; a restart therefore changes nothing visible. */
  method Execute(adapter: CofferAdapter, events: seq<Event>, originals: Registry)
    requires adapter.Faithful(originals) && Protection !in originals
    modifies adapter
    ensures adapter.Faithful(originals)
    ensures adapter.controls == ControlsAfter(old(adapter.controls), events, originals)
    ensures Effective(adapter.share, adapter.breakGuard, adapter.controls, originals)
  {
    hide Replacement, Replaceable, Shown, NextControls, Effective, Agrees;
    var i := 0;
    while i < |events|
      invariant 0 <= i <= |events| && adapter.Faithful(originals)
      invariant adapter.controls == ControlsAfter(old(adapter.controls), events[..i], originals)
    {
      assert events[..i + 1][..i] == events[..i];
      match events[i] {
        case Issue(command) => var _ := adapter.ProviderControl(command, originals);
        case Reboot =>
          AgreeingApplies(adapter.share, adapter.capturedProviders, adapter.breakGuard, adapter.controls, originals);
          RestartableControls(adapter.controls, originals);
          var ok := adapter.Restart(originals);
      }
      i := i + 1;
    }
    assert events[..i] == events;
    AgreeingIsEffective(adapter.share, adapter.capturedProviders, adapter.breakGuard, adapter.controls, originals);
  }

  lemma RestartableControls(controls: Controls, originals: Registry)
    requires Applicable(controls, originals)
    ensures forall p :: p in controls ==>
              controls[p].mode != Original && (p == Protection ==> controls[p].mode in {DenyBreak, Throwing})
  {
    forall p | p in controls
      ensures controls[p].mode != Original && (p == Protection ==> controls[p].mode in {DenyBreak, Throwing})
    {
      assert ApplicableTo(p, Lookup(originals, p), Lookup(controls, p));
    }
  }

  predicate Touches(event: Event, provider: Provider, originals: Registry) {
    && event.Issue? && Feasible(event.command, originals)
    && (event.command.All? || event.command.provider == provider)
  }

  /** What an effective command leaves persisted for the provider. */
  function Leaves(command: Command): Option<Persisted> {
    if command.All? then None else Persist(command.mode, PlayerOf(command.player))
  }

  /** Only the last effective command for a provider matters, whatever came before
      it and however often the process restarted since. */
  lemma {:induction false} LastCommandWins(controls: Controls, events: seq<Event>, k: nat, provider: Provider,
      originals: Registry)
    requires k < |events| && Touches(events[k], provider, originals)
    requires forall i :: k < i < |events| ==> !Touches(events[i], provider, originals)
    ensures Visible(provider, originals, ControlsAfter(controls, events, originals))
         == Shown(provider, Lookup(originals, provider), Leaves(events[k].command))
    ensures Lookup(ControlsAfter(controls, events, originals), provider) == Leaves(events[k].command)
    decreases |events|
  {
    var n := |events| - 1;
    if k < n {
      LastCommandWins(controls, events[..n], k, provider, originals);
    }
  }

  /** Restoring one provider, or all, brings the original back. */
  lemma RestoreBringsBack(controls: Controls, events: seq<Event>, provider: Provider, argument: PlayerArgument,
      all: bool, originals: Registry)
    requires argument != Offline
    ensures var restore := if all then All(Original) else Control(provider, Original, argument);
      Visible(provider, originals, ControlsAfter(controls, events + [Issue(restore)], originals))
        == Lookup(originals, provider)
  {
  }

  // ----- A fault stays where it was put -----

  /** The members a control replaces. */
  function Faulted(mode: Mode): set<string> {
    match mode
    case Resident => {"at"}
    case Transferred => {"at"}
    case Stale => {"isMember", "canAdminister"}
    case Throwing => {"resolve", "isMember", "canAdminister"}
    case RestoreThrowing => {"restore"}
    case AcknowledgeThrowing => {"acknowledge"}
    case _ => {}
  }

  lemma FaultIsolation(provider: Provider, mode: Mode, original: Option<Shared>, player: Option<string>, member: string)
    requires Replacement(provider, mode, original, player).Ok? && mode !in {Missing, Malformed}
    ensures var r := Replacement(provider, mode, original, player).value;
      && (mode != Original ==> r.Some? && r.value.Protocol? && original.Some? && original.value.Protocol?)
      && (mode != Original && member !in Faulted(mode) ==>
            Lookup(r.value.members, member) == Lookup(original.value.members, member))
      && (mode != Original && member in Faulted(mode) ==>
            member in r.value.members && !r.value.members[member].Native?)
  {
  }
}
