/**
  What the conflict client requires of a status and of an event, field by field,
  and why the copies it takes on the way never change a verdict.
 */
module ConflictContract {
  import opened Wrappers
  import opened PeerJson

  /** Library code: UUID and Instant parsing, BigDecimal's exact and truncating
      conversions to long, String.isBlank, equality of JSON copies. */
  datatype Readers = Readers(
    uuid: string -> Option<nat>, show: nat -> string, instant: string -> Option<int>,
    exact: string -> Option<Int64>, truncated: string -> Int64, blank: string -> bool,
    sameJson: (Json, Json) -> bool)

  datatype Client = Client(protocolVersion: int, eventSchemaVersion: int, combatTags: bool, readers: Readers)

  const STATES := {"clear", "wanted", "cooling"}
  const HEAT_ACTIONS := {"hostile", "hostility_expired"}
  const ACTIONS := HEAT_ACTIONS + {"wanted", "cooling", "cleared", "pardoned", "banishment_changed"}
  const COMBAT_ACTIONS := {"combat_tagged", "combat_tag_cleared", "combat_tag_expired"}
  const PARTICIPANT_ROLES := {"aggressor", "subject", "administrator", "system"}
  const KINDS := {"patrol.heat_changed", "patrol.wanted_changed"}
  const COMBAT_KIND := "patrol.combat_tag_changed"
  const PLAYER := "player:"
  const MAX_UUID: nat := 64
  const MIN_TAG := 5_000
  const MAX_TAG := 600_000

  type Fields = seq<Entry>

  // ----- Reading a map -----

  function Get(f: Fields, name: string): Peer {
    if f == [] then Null
    else if f[0].key == Name(name) then f[0].value
    else Get(f[1..], name)
  }

  lemma {:induction false} GetIsEntry(f: Fields, name: string) returns (i: nat)
    requires Get(f, name) != Null
    ensures i < |f| && f[i] == Entry(Name(name), Get(f, name))
  {
    if f[0].key == Name(name) {
      i := 0;
    } else {
      var rest := GetIsEntry(f[1..], name);
      i := rest + 1;
    }
  }

  predicate Has(f: Fields, name: string) {
    exists i :: 0 <= i < |f| && f[i].key == Name(name)
  }

  predicate DistinctKeys(f: Fields) {
    forall i, j :: 0 <= i < j < |f| ==> f[i].key != f[j].key
  }

  function KeyIndex(f: Fields, key: Key): (i: Option<nat>)
    ensures i.Some? ==> i.value < |f| && f[i.value].key == key
    ensures i.None? ==> forall j :: 0 <= j < |f| ==> f[j].key != key
  {
    if f == [] then None
    else if f[|f| - 1].key == key then Some(|f| - 1)
    else KeyIndex(f[..|f| - 1], key)
  }

  /** LinkedHashMap.put: a repeated key keeps its place and takes the new value. */
  function PutEntry(f: Fields, e: Entry): Fields {
    var i := KeyIndex(f, e.key);
    if i.Some? then f[i.value := e] else f + [e]
  }

  function Merged(entries: seq<Entry>): Fields {
    if entries == [] then [] else PutEntry(Merged(entries[..|entries| - 1]), entries[|entries| - 1])
  }

  /** The peer's value as a plain map, if it is a bounded map with short string keys. */
  function AsFields(raw: Peer): Option<Fields> {
    if raw.Map? && raw.size <= MAX_JSON_COLLECTION && |raw.entries| <= MAX_JSON_COLLECTION
       && forall e :: e in raw.entries ==> KeyFits(e.key)
    then Some(Merged(raw.entries)) else None
  }

  function Plain(f: Fields): Peer { Map(|f|, f) }

  method StringMap(raw: Peer) returns (r: Option<Fields>)
    ensures r == AsFields(raw)
  {
    if !raw.Map? || raw.size > MAX_JSON_COLLECTION { return None; }
    var result: Fields := [];
    var count := 0;
    while count < |raw.entries|
      invariant 0 <= count <= |raw.entries| && count <= MAX_JSON_COLLECTION
      invariant forall e :: e in raw.entries[..count] ==> KeyFits(e.key)
      invariant result == Merged(raw.entries[..count])
    {
      var entry := raw.entries[count];
      assert entry in raw.entries;
      assert raw.entries[..count + 1] == raw.entries[..count] + [entry];
      assert raw.entries[..count + 1][..count] == raw.entries[..count];
      if entry.key.OtherKey? { return None; }
      count := count + 1;
      if count > MAX_JSON_COLLECTION || |entry.key.name| > MAX_JSON_KEY { return None; }
      result := PutEntry(result, entry);
    }
    assert raw.entries[..count] == raw.entries;
    return Some(result);
  }

  // ----- Required fields -----

  function TextField(f: Fields, name: string, r: Readers): Option<string> {
    var raw := Get(f, name);
    if raw.Str? && !r.blank(raw.text) && |raw.text| <= MAX_JSON_STRING then Some(raw.text) else None
  }

  function FlagField(f: Fields, name: string): Option<bool> {
    var raw := Get(f, name);
    if raw.Bool? then Some(raw.flag) else None
  }

  function UuidOf(raw: Peer, r: Readers): Option<nat> {
    if raw.Str? && |raw.text| <= MAX_UUID then r.uuid(raw.text) else None
  }

  function UuidField(f: Fields, name: string, r: Readers): Option<nat> {
    UuidOf(Get(f, name), r)
  }

  function ExactLong(raw: Peer, r: Readers): Option<Int64> {
    if raw.Num? && |raw.digits| <= MAX_JSON_NUMBER then r.exact(raw.digits) else None
  }

  function CountField(f: Fields, name: string, r: Readers): (n: Option<Int64>)
    ensures n.Some? ==> n.value >= 0
  {
    var n := ExactLong(Get(f, name), r);
    if n.Some? && n.value >= 0 then n else None
  }

  predicate FiniteField(f: Fields, name: string) {
    Get(f, name).Num? && Get(f, name).finite
  }

  predicate PositionValid(raw: Peer) {
    var f := AsFields(raw);
    f.Some? && FiniteField(f.value, "x") && FiniteField(f.value, "y") && FiniteField(f.value, "z")
  }

  /** World and position come together. */
  predicate PlaceValid(f: Fields, world: string, position: string, r: Readers) {
    if Get(f, world) == Null then Get(f, position) == Null
    else TextField(f, world, r).Some? && PositionValid(Get(f, position))
  }

  predicate LocationValid(f: Fields, r: Readers) {
    && PlaceValid(f, "world", "position", r)
    && (Get(f, "world") != Null && Has(f, "worldKey") ==> Get(f, "worldKey") == Get(f, "world"))
  }

  predicate PlayerPrincipal(f: Fields, name: string, r: Readers) {
    var principal := TextField(f, name, r);
    && principal.Some? && PLAYER <= principal.value
    && UuidOf(Str(principal.value[|PLAYER|..]), r).Some?
  }

  predicate OptionalText(f: Fields, name: string, r: Readers) {
    Has(f, name) ==> TextField(f, name, r).Some?
  }

  predicate ContextValid(f: Fields, r: Readers) {
    Get(f, "context") != Null ==>
      var context := AsFields(Get(f, "context"));
      && context.Some?
      && PlayerPrincipal(context.value, "aggressor", r) && PlayerPrincipal(context.value, "victim", r)
      && OptionalText(context.value, "owner", r) && OptionalText(context.value, "structureId", r)
      && OptionalText(context.value, "homesteadId", r)
      && FlagField(context.value, "trespass").Some?
      && OptionalText(context.value, "jurisdiction", r) && OptionalText(context.value, "kinshipConflictId", r)
  }

  // ----- Status -----

  predicate StatusIdentity(f: Fields, player: nat, r: Readers) {
    && UuidField(f, "playerId", r) == Some(player)
    && TextField(f, "aggregateId", r) == Some(r.show(player))
    && TextField(f, "principal", r) == Some(PLAYER + r.show(player))
  }

  predicate StatusSnapshot(f: Fields, player: nat, client: Client) {
    var r := client.readers;
    var state, wanted, tier := TextField(f, "state", r), FlagField(f, "wanted"), CountField(f, "tier", r);
    && StatusIdentity(f, player, r)
    && state.Some? && state.value in STATES
    && wanted.Some? && wanted.value == (state.value == "wanted")
    && tier.Some? && (state.value == "clear" ==> tier.value == 0)
    && CountField(f, "lastHostileAt", r).Some? && CountField(f, "revision", r).Some?
    && FlagField(f, "banished").Some?
    && (Has(f, "lastCounterparty") ==> UuidField(f, "lastCounterparty", r).Some?)
    && LocationValid(f, r) && ContextValid(f, r)
    && (client.combatTags ==> CombatStatus(f, r))
  }

  /** Either no participation at all, or a tag window of 5 seconds to 10 minutes with
      a role, a counterparty and its principal. */
  predicate CombatStatus(f: Fields, r: Readers) {
    var since, until := CountField(f, "lastParticipationAt", r), CountField(f, "taggedUntil", r);
    && Has(f, "afk") == Has(f, "afkRevision")
    && (Has(f, "afk") ==> FlagField(f, "afk").Some? && CountField(f, "afkRevision", r).Some?)
    && since.Some? && until.Some?
    && if since.value == 0 || until.value == 0 then
         && since.value == 0 && until.value == 0
         && Get(f, "participationRole") == Null && Get(f, "participationCounterparty") == Null
         && Get(f, "participationCounterpartyPrincipal") == Null
         && Get(f, "participationWorld") == Null && Get(f, "participationPosition") == Null
       else
         // The difference of two non-negative longs cannot overflow.
         var duration: Int64 := until.value - since.value;
         var role := TextField(f, "participationRole", r);
         var counterparty := UuidField(f, "participationCounterparty", r);
         && MIN_TAG <= duration <= MAX_TAG
         && role.Some? && role.value in {"attacker", "victim"}
         && counterparty.Some?
         && TextField(f, "participationCounterpartyPrincipal", r) == Some(PLAYER + r.show(counterparty.value))
         && PlaceValid(f, "participationWorld", "participationPosition", r)
  }

  /** A status map that is accepted: unavailable ones need only identify the player. */
  predicate StatusValid(f: Fields, player: nat, client: Client) {
    var available := FlagField(f, "available");
    && available.Some? && StatusIdentity(f, player, client.readers)
    && (available.value ==> StatusSnapshot(f, player, client))
  }

  // ----- Event -----

  datatype EventIdentity = EventIdentity(eventId: nat, aggregateId: nat, revision: int)

  /** Each action belongs to one type of event. */
  predicate Announces(kind: string, action: string, combatTags: bool) {
    || (kind == "patrol.heat_changed" && action in {"hostile", "hostility_expired"})
    || (kind == "patrol.wanted_changed"
        && action in {"wanted", "cooling", "cleared", "pardoned", "banishment_changed"})
    || (combatTags && kind == "patrol.combat_tag_changed"
        && action in {"combat_tagged", "combat_tag_cleared", "combat_tag_expired"})
  }

  /** What is checked of an event before its data is copied. */
  predicate HeadValid(f: Fields, expected: Option<nat>, client: Client) {
    var r := client.readers;
    var kind, action := TextField(f, "eventType", r), TextField(f, "action", r);
    var aggregate, revision := UuidField(f, "aggregateId", r), CountField(f, "aggregateRevision", r);
    && UuidField(f, "eventId", r).Some?
    && kind.Some? && TextField(f, "type", r) == kind
    && action.Some? && Announces(kind.value, action.value, client.combatTags)
    && TextField(f, "aggregateType", r) == Some("minecraft:player")
    && aggregate.Some? && (expected.Some? ==> aggregate == expected)
    && revision.Some? && revision.value > 0 && CountField(f, "revision", r) == revision
    && ExactLong(Get(f, "schemaVersion"), r) == Some(client.eventSchemaVersion)
    && TimesAgree(f, r)
    && AsFields(Get(f, "data")).Some? && AsFields(Get(f, "payload")).Some?
  }

  predicate TimesAgree(f: Fields, r: Readers) {
    var occurredAt, timestamp := TextField(f, "occurredAt", r), TextField(f, "timestamp", r);
    && occurredAt.Some? && timestamp.Some?
    && r.instant(occurredAt.value).Some? && r.instant(occurredAt.value) == r.instant(timestamp.value)
  }

  /** What is checked of an event after its data was copied. */
  predicate BodyValid(f: Fields, data: Fields, aggregateId: nat, revision: int, client: Client) {
    var r := client.readers;
    var role := TextField(data, "participantRole", r);
    && UuidField(data, "playerId", r) == Some(aggregateId)
    && CountField(data, "revision", r) == Some(revision)
    && StatusSnapshot(data, aggregateId, client)
    && role.Some?
    && (role.value in PARTICIPANT_ROLES || (client.combatTags && role.value == "victim"))
    && CounterpartyValid(data, role.value, r)
    && ActorValid(f, data, role.value, aggregateId, r)
    && LocationValid(f, r)
  }

  predicate CounterpartyValid(data: Fields, role: string, r: Readers) {
    if Get(data, "counterparty") == Null then
      Get(data, "counterpartyPrincipal") == Null && role != "aggressor"
    else
      var counterparty := UuidField(data, "counterparty", r);
      && counterparty.Some?
      && TextField(data, "counterpartyPrincipal", r) == Some(PLAYER + r.show(counterparty.value))
  }

  predicate ActorValid(f: Fields, data: Fields, role: string, aggregateId: nat, r: Readers) {
    if Get(f, "actor") == Null then
      && role == "system"
      && Get(f, "actorPlayerId") == Null && Get(f, "actingPrincipal") == Null && Get(f, "principal") == Null
    else
      var actor := UuidOf(Get(f, "actor"), r);
      && actor.Some? && role != "system"
      && UuidField(f, "actorPlayerId", r) == actor
      && TextField(f, "actingPrincipal", r) == Some(PLAYER + r.show(actor.value))
      && TextField(f, "principal", r) == Some(PLAYER + r.show(actor.value))
      && (role == "aggressor" ==> actor.value == aggregateId)
      && (role == "victim" ==> UuidField(data, "counterparty", r) == actor)
  }

  /** The whole contract of an event, without its copies. */
  predicate EventValid(f: Fields, expected: Option<nat>, client: Client) {
    && HeadValid(f, expected, client)
    && var data, payload := AsFields(Get(f, "data")).value, AsFields(Get(f, "payload")).value;
    && client.readers.sameJson(Copy(Plain(data)), Copy(Plain(payload)))
    && BodyValid(f, data, UuidField(f, "aggregateId", client.readers).value,
                 CountField(f, "aggregateRevision", client.readers).value, client)
  }

  /** Copied whole, under a budget of its own. */
  predicate Copyable(v: Peer) { Affordable(v, 0, MAX_JSON_NODES, MAX_JSON_CHARACTERS) }

  // ----- The copy of the whole pays for the copies of its parts -----

  lemma {:induction false} FitsHigher(v: Peer, depth: nat)
    requires Fits(v, depth + 1)
    ensures Fits(v, depth)
    decreases v
  {
    match v {
      case Map(_, entries) =>
        forall e | e in entries ensures KeyFits(e.key) && Fits(e.value, depth + 1) { FitsHigher(e.value, depth + 1); }
      case Coll(_, items) =>
        forall item | item in items ensures Fits(item, depth + 1) { FitsHigher(item, depth + 1); }
      case _ =>
    }
  }

  lemma {:induction false} UpdateTotals(f: Fields, i: nat, e: Entry)
    requires i < |f|
    ensures EntryNodes(f[i := e]) + NodesOfEntry(f[i]) == EntryNodes(f) + NodesOfEntry(e)
    ensures EntryCharacters(f[i := e]) + CharactersOfEntry(f[i]) == EntryCharacters(f) + CharactersOfEntry(e)
  {
    hide NodesOfEntry, CharactersOfEntry;
    var n := |f| - 1;
    if i < n {
      UpdateTotals(f[..n], i, e);
      assert f[i := e][..n] == f[..n][i := e];
    } else {
      assert f[i := e][..n] == f[..n];
    }
  }

  lemma PutTotals(f: Fields, e: Entry)
    ensures EntryNodes(PutEntry(f, e)) <= EntryNodes(f) + NodesOfEntry(e)
    ensures EntryCharacters(PutEntry(f, e)) <= EntryCharacters(f) + CharactersOfEntry(e)
  {
    hide NodesOfEntry, CharactersOfEntry;
    var i := KeyIndex(f, e.key);
    if i.Some? {
      UpdateTotals(f, i.value, e);
    } else {
      assert (f + [e])[..|f|] == f;
    }
  }

  /** Merging repeated keys makes a map no bigger and invents no entry. */
  lemma {:induction false} MergedShrinks(entries: seq<Entry>)
    ensures EntryNodes(Merged(entries)) <= EntryNodes(entries)
    ensures EntryCharacters(Merged(entries)) <= EntryCharacters(entries)
    ensures |Merged(entries)| <= |entries| && DistinctKeys(Merged(entries))
    ensures forall e :: e in Merged(entries) ==> e in entries
  {
    if entries != [] {
      var n := |entries| - 1;
      MergedShrinks(entries[..n]);
      PutTotals(Merged(entries[..n]), entries[n]);
      hide EntryNodes, EntryCharacters, NodesOfEntry, CharactersOfEntry;
      MergedNext(entries);
    }
  }

  lemma MergedNext(entries: seq<Entry>)
    requires entries != []
    requires var init := entries[..|entries| - 1];
      |Merged(init)| <= |init| && DistinctKeys(Merged(init)) && forall e :: e in Merged(init) ==> e in init
    ensures |Merged(entries)| <= |entries| && DistinctKeys(Merged(entries))
    ensures forall e :: e in Merged(entries) ==> e in entries
  {
    var init, last := entries[..|entries| - 1], entries[|entries| - 1];
    assert Merged(entries) == PutEntry(Merged(init), last);
    forall e | e in Merged(entries) ensures e in entries {
      if e != last { assert e in Merged(init); }
    }
  }

  /** A repeated key keeps what its last entry holds. */
  lemma {:induction false} MergedKeepsLast(entries: seq<Entry>, i: nat)
    requires i < |entries| && IsLast(entries, i)
    ensures entries[i] in Merged(entries)
    decreases |entries|
  {
    hide PutEntry;
    var init, last := entries[..|entries| - 1], entries[|entries| - 1];
    PutKeeps(Merged(init), last);
    if i < |init| {
      assert init[i] == entries[i];
      MergedKeepsLast(init, i);
    }
  }

  lemma PutKeeps(f: Fields, e: Entry)
    ensures e in PutEntry(f, e) && forall other :: other in f && other.key != e.key ==> other in PutEntry(f, e)
  {
    var i := KeyIndex(f, e.key);
    forall other | other in f && other.key != e.key ensures other in PutEntry(f, e) {
      var j :| 0 <= j < |f| && f[j] == other;
      assert PutEntry(f, e)[j] == other;
    }
    assert PutEntry(f, e)[if i.Some? then i.value else |f|] == e;
  }

  /** Without repeated keys nothing is merged, and the order stays. */
  lemma {:induction false} MergedDistinct(f: Fields)
    requires DistinctKeys(f)
    ensures Merged(f) == f
  {
    if f != [] {
      var n := |f| - 1;
      MergedDistinct(f[..n]);
      assert f == f[..n] + [f[n]];
    }
  }

  /** A lookup finds the first entry of the key, if there is one. */
  lemma {:induction false} FirstOfKey(f: Fields, name: string, i: nat)
    requires i <= |f| && forall j :: 0 <= j < i ==> f[j].key != Name(name)
    requires i < |f| ==> f[i].key == Name(name)
    ensures Get(f, name) == if i < |f| then f[i].value else Null
    ensures Has(f, name) <==> i < |f|
  {
    if i > 0 {
      assert forall j :: 0 <= j < |f[1..]| ==> f[1..][j] == f[j + 1];
      FirstOfKey(f[1..], name, i - 1);
      assert f[0].key != Name(name);
    }
  }

  /** A field of the plain map is what the peer's last entry of that name holds. */
  lemma FieldsReadLast(raw: Peer, i: nat)
    requires AsFields(raw).Some? && i < |raw.entries| && IsLast(raw.entries, i)
    ensures raw.entries[i].key.Name?
    ensures Get(AsFields(raw).value, raw.entries[i].key.name) == raw.entries[i].value
  {
    hide EntryNodes, EntryCharacters, Merged, Get, KeyFits;
    assert raw.entries[i] in raw.entries && KeyFits(raw.entries[i].key);
    KeyMust(raw.entries[i].key);
    MergedShrinks(raw.entries);
    MergedKeepsLast(raw.entries, i);
    var f, e := AsFields(raw).value, raw.entries[i];
    var j :| 0 <= j < |f| && f[j] == e;
    FirstOfKey(f, e.key.name, j);
  }

  lemma FieldShare(f: Fields, name: string)
    requires Get(f, name) != Null
    ensures Nodes(Get(f, name)) <= EntryNodes(f) && Characters(Get(f, name)) <= EntryCharacters(f)
    ensures exists e :: e in f && e.value == Get(f, name)
  {
    var i := GetIsEntry(f, name);
    EntryPrefix(f, i);
    assert f[i] in f;
  }

  lemma FieldIsCopyable(whole: Peer, name: string)
    requires whole.Map? && Copyable(whole) && Get(whole.entries, name) != Null
    ensures Copyable(Get(whole.entries, name))
  {
    hide Get, EntryNodes, EntryCharacters;
    var part := Get(whole.entries, name);
    FieldShare(whole.entries, name);
    FitsHigher(part, 0);
  }

  lemma MergedIsCopyable(part: Peer)
    requires AsFields(part).Some? && Copyable(part)
    ensures Copyable(Plain(AsFields(part).value))
  {
    hide Merged, DistinctKeys, EntryNodes, EntryCharacters, KeyFits;
    MergedShrinks(part.entries);
  }

  /** A map inside an acceptable value is acceptable on its own, merged or not. */
  lemma PartIsCopyable(whole: Peer, name: string)
    requires whole.Map? && Copyable(whole) && AsFields(Get(whole.entries, name)).Some?
    ensures Copyable(Plain(AsFields(Get(whole.entries, name)).value))
  {
    hide Copyable, Get;
    FieldIsCopyable(whole, name);
    MergedIsCopyable(Get(whole.entries, name));
  }

  lemma PartIsReadable(whole: Peer, name: string)
    requires whole.Map? && Readable(whole) && AsFields(Get(whole.entries, name)).Some?
    ensures Readable(Plain(AsFields(Get(whole.entries, name)).value))
  {
    hide Get, Merged, EntryNodes, EntryCharacters;
    FieldShare(whole.entries, name);
    MergedShrinks(Get(whole.entries, name).entries);
  }

  // ----- The operations -----

  /** Outcome of the checks of one event; Crashed is a runtime exception other than a
      contract failure. */
  datatype Checked = Valid(identity: EventIdentity) | Invalid | Crashed

  predicate Admissible(event: Peer, expected: Option<nat>, client: Client) {
    event.Map? && EventValid(event.entries, expected, client) && Copyable(event)
  }

  method TrialCopy(v: Peer) returns (r: Result<Json, JsonFailure>)
    ensures r.Ok? <==> Copyable(v)
    ensures r.Ok? ==> Mirrors(v, r.value) && r.value == Copy(v)
    ensures r.Err? && r.error.NumberUnreadable? ==> !Readable(v)
  {
    var budget := new JsonBudget(MAX_JSON_NODES, MAX_JSON_CHARACTERS);
    r := ToJson(v, 0, budget);
  }

  function Refused(failure: JsonFailure): Checked {
    if failure.NumberUnreadable? then Crashed else Invalid
  }

  // The checks in the client's own order: each stops at the first that throws.

  method ValidatePlace(f: Fields, world: string, position: string, r: Readers) returns (ok: Option<()>)
    ensures ok.Some? <==> PlaceValid(f, world, position, r)
  {
    hide Get, Merged;
    var hasWorld, hasPosition := Get(f, world) != Null, Get(f, position) != Null;
    if hasWorld != hasPosition { return None; }
    if !hasWorld { return Some(()); }
    var text :- TextField(f, world, r);
    var place :- StringMap(Get(f, position));
    if !FiniteField(place, "x") || !FiniteField(place, "y") || !FiniteField(place, "z") { return None; }
    return Some(());
  }

  method ValidateLocation(f: Fields, r: Readers) returns (ok: Option<()>)
    ensures ok.Some? <==> LocationValid(f, r)
  {
    var place :- ValidatePlace(f, "world", "position", r);
    if Get(f, "world") != Null && Has(f, "worldKey") && Get(f, "world") != Get(f, "worldKey") { return None; }
    return Some(());
  }

  method ValidatePlayerPrincipal(f: Fields, name: string, r: Readers) returns (ok: Option<()>)
    ensures ok.Some? <==> PlayerPrincipal(f, name, r)
  {
    var principal :- TextField(f, name, r);
    if !("player:" <= principal) { return None; }
    var player :- UuidOf(Str(principal[7..]), r);
    return Some(());
  }

  method ValidateContext(f: Fields, r: Readers) returns (ok: Option<()>)
    ensures ok.Some? <==> ContextValid(f, r)
  {
    hide AsFields, PlayerPrincipal;
    if Get(f, "context") == Null { return Some(()); }
    var context :- StringMap(Get(f, "context"));
    var aggressor :- ValidatePlayerPrincipal(context, "aggressor", r);
    var victim :- ValidatePlayerPrincipal(context, "victim", r);
    if Has(context, "owner") { var owner :- TextField(context, "owner", r); }
    if Has(context, "structureId") { var structure :- TextField(context, "structureId", r); }
    if Has(context, "homesteadId") { var homestead :- TextField(context, "homesteadId", r); }
    var trespass :- FlagField(context, "trespass");
    if Has(context, "jurisdiction") { var jurisdiction :- TextField(context, "jurisdiction", r); }
    if Has(context, "kinshipConflictId") { var kinship :- TextField(context, "kinshipConflictId", r); }
    return Some(());
  }

  method ValidateStatusIdentity(f: Fields, player: nat, r: Readers) returns (ok: Option<()>)
    ensures ok.Some? <==> StatusIdentity(f, player, r)
  {
    var id :- UuidField(f, "playerId", r);
    if id != player { return None; }
    var aggregate :- TextField(f, "aggregateId", r);
    if aggregate != r.show(player) { return None; }
    var principal :- TextField(f, "principal", r);
    if principal != "player:" + r.show(player) { return None; }
    return Some(());
  }

  method ValidateStatusSnapshot(f: Fields, player: nat, client: Client) returns (ok: Option<()>)
    ensures ok.Some? <==> StatusSnapshot(f, player, client)
  {
    hide StatusIdentity, LocationValid, ContextValid, CombatStatus, TextField, FlagField, UuidField;
    var r := client.readers;
    var identity :- ValidateStatusIdentity(f, player, r);
    var state :- TextField(f, "state", r);
    if state !in STATES { return None; }
    var wanted :- FlagField(f, "wanted");
    var tier :- CountField(f, "tier", r);
    var lastHostileAt :- CountField(f, "lastHostileAt", r);
    var revision :- CountField(f, "revision", r);
    var banished :- FlagField(f, "banished");
    if wanted != (state == "wanted") || (state == "clear" && tier != 0) { return None; }
    if Has(f, "lastCounterparty") { var counterparty :- UuidField(f, "lastCounterparty", r); }
    var location :- ValidateLocation(f, r);
    var context :- ValidateContext(f, r);
    if client.combatTags { var combat :- ValidateCombatStatus(f, r); }
    return Some(());
  }

  method ValidateCombatStatus(f: Fields, r: Readers) returns (ok: Option<()>)
    ensures ok.Some? <==> CombatStatus(f, r)
  {
    hide TextField, FlagField, CountField, UuidField;
    if Has(f, "afk") != Has(f, "afkRevision") { return None; }
    if Has(f, "afk") {
      var afk :- FlagField(f, "afk");
      var afkRevision :- CountField(f, "afkRevision", r);
    }
    var participatedAt :- CountField(f, "lastParticipationAt", r);
    var taggedUntil :- CountField(f, "taggedUntil", r);
    var hasRole, hasCounterparty := Get(f, "participationRole") != Null, Get(f, "participationCounterparty") != Null;
    var hasPrincipal := Get(f, "participationCounterpartyPrincipal") != Null;
    var hasWorld, hasPosition := Get(f, "participationWorld") != Null, Get(f, "participationPosition") != Null;
    if participatedAt == 0 || taggedUntil == 0 {
      if participatedAt != 0 || taggedUntil != 0 || hasRole || hasCounterparty || hasPrincipal || hasWorld
         || hasPosition { return None; }
      return Some(());
    }
    var duration := taggedUntil - participatedAt;
    if duration < MIN_TAG || duration > MAX_TAG { return None; }
    var role :- TextField(f, "participationRole", r);
    if role !in {"attacker", "victim"} { return None; }
    NullReads(f, "participationCounterparty", r);
    NullReads(f, "participationCounterpartyPrincipal", r);
    if !hasCounterparty || !hasPrincipal || hasWorld != hasPosition {
      return None;
    }
    var counterparty :- UuidField(f, "participationCounterparty", r);
    var principal :- TextField(f, "participationCounterpartyPrincipal", r);
    if principal != "player:" + r.show(counterparty) { return None; }
    ok := ValidatePlace(f, "participationWorld", "participationPosition", r);
  }

  lemma NullReads(f: Fields, name: string, r: Readers)
    ensures Get(f, name) == Null ==> TextField(f, name, r).None? && UuidField(f, name, r).None?
  {
  }

  method ValidateCounterparty(data: Fields, role: string, r: Readers) returns (ok: Option<()>)
    ensures ok.Some? <==> CounterpartyValid(data, role, r)
  {
    var hasCounterparty, hasPrincipal := Get(data, "counterparty") != Null, Get(data, "counterpartyPrincipal") != Null;
    if hasCounterparty != hasPrincipal { return None; }
    if role == "aggressor" && !hasCounterparty { return None; }
    if hasCounterparty {
      var counterparty :- UuidField(data, "counterparty", r);
      var principal :- TextField(data, "counterpartyPrincipal", r);
      if principal != "player:" + r.show(counterparty) { return None; }
    }
    return Some(());
  }

  method ValidateActor(f: Fields, data: Fields, role: string, aggregateId: nat, r: Readers) returns (ok: Option<()>)
    ensures ok.Some? <==> ActorValid(f, data, role, aggregateId, r)
  {
    hide Get, TextField;
    if Get(f, "actor") == Null {
      if role != "system" || Get(f, "actorPlayerId") != Null || Get(f, "actingPrincipal") != Null
         || Get(f, "principal") != Null { return None; }
      return Some(());
    }
    var actor :- UuidOf(Get(f, "actor"), r);
    var player :- UuidField(f, "actorPlayerId", r);
    if player != actor { return None; }
    var acting :- TextField(f, "actingPrincipal", r);
    if acting != "player:" + r.show(actor) { return None; }
    var principal :- TextField(f, "principal", r);
    if principal != "player:" + r.show(actor) || role == "system" { return None; }
    if role == "aggressor" && actor != aggregateId { return None; }
    if role == "victim" {
      var counterparty :- UuidField(data, "counterparty", r);
      if counterparty != actor { return None; }
    }
    return Some(());
  }

  predicate KindKnown(kind: string, combatTags: bool) { kind in KINDS || (combatTags && kind == COMBAT_KIND) }

  predicate ActionKnown(action: string, combatTags: bool) {
    action in ACTIONS || (combatTags && action in COMBAT_ACTIONS)
  }

  predicate KindFits(kind: string, action: string) {
    var heatAction, combatAction := action == "hostile" || action == "hostility_expired", action in COMBAT_ACTIONS;
    heatAction == (kind == "patrol.heat_changed") && combatAction == (kind == COMBAT_KIND)
  }

  /** The client's three checks leave exactly the announced pairs. */
  lemma KindChecks(kind: string, action: Option<string>, combatTags: bool)
    ensures action.Some? ==>
              (Announces(kind, action.value, combatTags) <==>
                KindKnown(kind, combatTags) && ActionKnown(action.value, combatTags) && KindFits(kind, action.value))
  {
  }

  /** The part before the copies: who and what the event is about. */
  method ValidateHead(f: Fields, expected: Option<nat>, client: Client) returns (identity: Option<EventIdentity>)
    ensures identity.Some? ==> Identifies(identity.value, f, client.readers)
    ensures identity.Some? && AsFields(Get(f, "data")).Some? && AsFields(Get(f, "payload")).Some? <==>
              HeadValid(f, expected, client)
  {
    hide TextField, UuidField, AsFields, ExactLong, Announces, KindKnown, ActionKnown, KindFits;
    var r := client.readers;
    var eventId :- UuidField(f, "eventId", r);
    var kind :- TextField(f, "eventType", r);
    var kindAgain :- TextField(f, "type", r);
    KindChecks(kind, TextField(f, "action", r), client.combatTags);
    if kind != kindAgain || !KindKnown(kind, client.combatTags) { return None; }
    var action :- TextField(f, "action", r);
    if !ActionKnown(action, client.combatTags) || !KindFits(kind, action) { return None; }
    var aggregateType :- TextField(f, "aggregateType", r);
    if aggregateType != "minecraft:player" { return None; }
    var aggregateId :- UuidField(f, "aggregateId", r);
    if expected.Some? && aggregateId != expected.value { return None; }
    var aggregateRevision :- CountField(f, "aggregateRevision", r);
    if aggregateRevision == 0 { return None; }
    var revision :- CountField(f, "revision", r);
    if revision != aggregateRevision { return None; }
    var schemaVersion :- ExactLong(Get(f, "schemaVersion"), r);
    if schemaVersion != client.eventSchemaVersion { return None; }
    var occurredAt :- TextField(f, "occurredAt", r);
    var timestamp :- TextField(f, "timestamp", r);
    var occurred :- r.instant(occurredAt);
    var stamped :- r.instant(timestamp);
    if occurred != stamped { return None; }
    return Some(EventIdentity(eventId, aggregateId, aggregateRevision));
  }

  /** The part between the copies of the data and of the whole. */
  method ValidateBody(f: Fields, data: Fields, identity: EventIdentity, client: Client) returns (ok: Option<()>)
    ensures ok.Some? <==> BodyValid(f, data, identity.aggregateId, identity.revision, client)
  {
    hide TextField, UuidField, CountField, StatusSnapshot, CounterpartyValid, ActorValid, LocationValid;
    var r := client.readers;
    var player :- UuidField(data, "playerId", r);
    if player != identity.aggregateId { return None; }
    var revision :- CountField(data, "revision", r);
    if revision != identity.revision { return None; }
    var snapshot :- ValidateStatusSnapshot(data, identity.aggregateId, client);
    var role :- TextField(data, "participantRole", r);
    if role !in PARTICIPANT_ROLES && !(client.combatTags && role == "victim") { return None; }
    var counterparty :- ValidateCounterparty(data, role, r);
    var actor :- ValidateActor(f, data, role, identity.aggregateId, r);
    ok := ValidateLocation(f, r);
  }

  /** The event's id, its aggregate's and its revision, read from the fields of these names. */
  predicate Identifies(identity: EventIdentity, f: Fields, r: Readers) {
    && UuidField(f, "eventId", r) == Some(identity.eventId)
    && UuidField(f, "aggregateId", r) == Some(identity.aggregateId)
    && CountField(f, "aggregateRevision", r) == Some(identity.revision)
  }

  /** Three trial copies, each under a budget of its own; the verdict is as if only
      the last one were taken. */
  method ValidateEvent(event: Peer, expected: Option<nat>, client: Client) returns (r: Checked)
    requires event.Map?
    ensures r.Valid? <==> Admissible(event, expected, client)
    ensures r.Valid? ==> Identifies(r.identity, event.entries, client.readers)
    ensures r.Crashed? ==> !Readable(event)
  {
    hide HeadValid, BodyValid, Copyable, AsFields, Copy, Readable, UuidField, CountField;
    var f := event.entries;
    var head := ValidateHead(f, expected, client);
    if head.None? { return Invalid; }
    var identity := head.value;
    var data := StringMap(Get(f, "data"));
    if data.None? { return Invalid; }
    var payload := StringMap(Get(f, "payload"));
    if payload.None? { return Invalid; }
    if Copyable(event) {
      PartIsCopyable(event, "data");
      PartIsCopyable(event, "payload");
    }
    if Readable(event) {
      PartIsReadable(event, "data");
      PartIsReadable(event, "payload");
    }
    var dataJson := TrialCopy(Plain(data.value));
    if dataJson.Err? { return Refused(dataJson.error); }
    var payloadJson := TrialCopy(Plain(payload.value));
    if payloadJson.Err? { return Refused(payloadJson.error); }
    if !client.readers.sameJson(dataJson.value, payloadJson.value) { return Invalid; }
    var body := ValidateBody(f, data.value, identity, client);
    if body.None? { return Invalid; }
    var copy := TrialCopy(event);
    if copy.Err? { return Refused(copy.error); }
    return Valid(identity);
  }

  /** The status call: the peer's answer, or none when the provider failed. */
  method StatusCall(player: nat, answer: Option<Peer>, client: Client) returns (status: Option<Json>)
    ensures status.Some? <==> StatusAccepted(player, answer, client)
    ensures status.Some? ==>
              var f := Plain(AsFields(answer.value).value); Mirrors(f, status.value) && status.value == Copy(f)
  {
    hide StatusSnapshot, StatusIdentity, Copyable, AsFields, Copy, Mirrors;
    var raw :- answer;
    var f :- StringMap(raw);
    var available :- FlagField(f, "available");
    var identity :- ValidateStatusIdentity(f, player, client.readers);
    if available { var snapshot :- ValidateStatusSnapshot(f, player, client); }
    var trial := TrialCopy(Plain(f));
    if trial.Err? { return None; }
    var copy := TrialCopy(Plain(f));
    return Some(copy.value);
  }

  predicate StatusAccepted(player: nat, answer: Option<Peer>, client: Client) {
    && answer.Some? && AsFields(answer.value).Some?
    && StatusValid(AsFields(answer.value).value, player, client)
    && Copyable(Plain(AsFields(answer.value).value))
  }

  // ----- Reading a copy back -----

  lemma {:induction false} MembersRead(members: seq<Member>, f: Fields, name: string)
    requires |members| == |f| && forall i :: 0 <= i < |f| ==> f[i].key.Name? && members[i] == CopyEntry(f[i])
    ensures ReadMember(members, name).Some? <==> Has(f, name)
    ensures Has(f, name) ==> ReadMember(members, name) == Some(Copy(Get(f, name)))
  {
    hide Copy;
    if f != [] {
      assert members[0] == CopyEntry(f[0]);
      MembersRead(members[1..], f[1..], name);
      assert forall i :: 0 <= i < |f[1..]| ==> f[1..][i] == f[i + 1];
      if Has(f, name) && f[0].key != Name(name) {
        var i :| 0 <= i < |f| && f[i].key == Name(name);
        assert f[1..][i - 1].key == Name(name);
      }
    }
  }

  lemma FieldsAreNamed(raw: Peer)
    requires AsFields(raw).Some?
    ensures var f := AsFields(raw).value; DistinctKeys(f) && forall i :: 0 <= i < |f| ==> f[i].key.Name?
  {
    hide Merged, DistinctKeys, EntryNodes, EntryCharacters;
    var f := AsFields(raw).value;
    MergedShrinks(raw.entries);
    forall i | 0 <= i < |f| ensures f[i].key.Name? { assert f[i] in f; }
  }

  /** A field read from the copy is the copy of the field. */
  lemma CopyReads(raw: Peer, name: string)
    requires AsFields(raw).Some?
    ensures var f := AsFields(raw).value;
      && Copy(Plain(f)).JObject?
      && (ReadMember(Copy(Plain(f)).members, name).Some? <==> Has(f, name))
      && (Has(f, name) ==> ReadMember(Copy(Plain(f)).members, name) == Some(Copy(Get(f, name))))
  {
    hide AsFields, CopyEntries, ReadMember, Get, Has;
    var f := AsFields(raw).value;
    FieldsAreNamed(raw);
    MembersFollowEntries(f);
    MembersRead(CopyEntries(f), f, name);
  }
}
