/**
  A status and two events that the conflict contract accepts, a replay of both that
  conforms and a reconciliation that is valid.
 */
module ConflictWitness {
  import opened Wrappers
  import opened PeerJson
  import opened ConflictContract
  import opened ConflictReplay

  const ONE := Num("1", true, true)

  /** A client whose library reads an identifier of one letter as this player and longer
      ones as others, and a number as how many digits it has. */
  function Reader(player: nat): Client {
    Client(2, 1, false,
           Readers(text => Some(player + if |text| == 1 then 0 else |text|), _ => "u", _ => Some(0),
                   digits => if |digits| <= 128 then Some(|digits|) else None, _ => 1, _ => false, (_, _) => true))
  }

  /** The first and the second event. */
  function Id(k: nat): string { if k == 1 then "aa" else "bbb" }

  function Count(k: nat): Peer { Num(if k == 1 then "1" else "02", true, true) }

  function Field(name: string, value: Peer): Entry { Entry(Name(name), value) }

  /** One list of fields for both: the status nests nothing, the event nests the status. */
  function Sample(nested: Peer, k: nat): Fields {
    [Field("tier", ONE), Field("type", Str("patrol.wanted_changed")), Field("data", nested),
     Field("state", Str("wanted")), Field("actor", Str("u")), Field("wanted", Bool(true)),
     Field("action", Str("wanted")), Field("eventId", Str(Id(k))), Field("payload", nested),
     Field("playerId", Str("u")), Field("banished", Bool(true)), Field("revision", Count(k)),
     Field("available", Bool(true)), Field("eventType", Str("patrol.wanted_changed")),
     Field("principal", Str("player:u")), Field("timestamp", Str("u")), Field("occurredAt", Str("u")),
     Field("aggregateId", Str("u")), Field("aggregateType", Str("minecraft:player")),
     Field("schemaVersion", ONE), Field("lastHostileAt", ONE), Field("actorPlayerId", Str("u")),
     Field("participantRole", Str("subject")), Field("actingPrincipal", Str("player:u")),
     Field("aggregateRevision", Count(k))]
  }

  function StatusFields(k: nat): Fields { Sample(Null, k) }

  function EventFields(k: nat): Fields { Sample(Plain(StatusFields(k)), k) }

  // ----- Field names are told apart by a number, in whose order they are listed -----

  function Tag(name: string): int {
    if |name| < 3 then 0 else |name| * 1_000 + name[2] as int
  }

  const TAGS := [4101, 4112, 4116, 5097, 5116, 6110, 6116, 7101, 7121, 8097, 8110, 8118, 9097, 9101, 9105,
                 9109, 10099, 11103, 13103, 13104, 13115, 13116, 15114, 15116, 17103]

  predicate Tagged(f: Fields) {
    |f| == |TAGS| && forall i :: 0 <= i < |f| ==> f[i].key.Name? && Tag(f[i].key.name) == TAGS[i]
  }

  lemma SampleTagged(nested: Peer, k: nat)
    ensures Tagged(Sample(nested, k))
  {
  }

  lemma {:induction false} TagsIncrease(i: nat, j: nat)
    requires i < j < |TAGS|
    ensures TAGS[i] < TAGS[j]
  {
    if i < j - 1 { TagsIncrease(i, j - 1); }
  }

  lemma Read(nested: Peer, k: nat, i: nat, name: string, value: Peer)
    requires i < 25 && Sample(nested, k)[i] == Field(name, value)
    ensures Get(Sample(nested, k), name) == value
  {
    hide Sample;
    var f := Sample(nested, k);
    SampleTagged(nested, k);
    forall j | 0 <= j < i ensures f[j].key != Name(name) { TagsIncrease(j, i); }
    FirstOfKey(f, name, i);
  }

  lemma Absent(nested: Peer, k: nat, name: string)
    requires Tag(name) !in TAGS
    ensures Get(Sample(nested, k), name) == Null && !Has(Sample(nested, k), name)
  {
    hide Sample;
    var f := Sample(nested, k);
    SampleTagged(nested, k);
    forall j | 0 <= j < |f| ensures f[j].key != Name(name) { assert TAGS[j] in TAGS; }
    FirstOfKey(f, name, |f|);
  }

  // ----- The sample is a plain map and can be copied -----

  /** A short key, with a short value that is no collection or with the nested one. */
  predicate Small(e: Entry, nested: Peer) {
    && e.key.Name? && |e.key.name| <= 20
    && (|| e.value == nested || e.value.Bool? || (e.value.Str? && |e.value.text| <= 21)
        || (e.value.Num? && |e.value.digits| <= 21 && e.value.finite && e.value.decimal))
  }

  lemma SampleSmall(nested: Peer, k: nat)
    ensures |Sample(nested, k)| == 25 && forall i :: 0 <= i < 25 ==> Small(Sample(nested, k)[i], nested)
  {
  }

  lemma SampleIsPlain(nested: Peer, k: nat)
    ensures AsFields(Plain(Sample(nested, k))) == Some(Sample(nested, k))
  {
    hide Sample;
    var f := Sample(nested, k);
    SampleTagged(nested, k);
    SampleSmall(nested, k);
    forall i, j | 0 <= i < j < |f| ensures f[i].key != f[j].key { TagsIncrease(i, j); }
    MergedDistinct(f);
  }

  lemma {:induction false} SmallTotals(f: Fields, nested: Peer)
    requires forall i :: 0 <= i < |f| ==> Small(f[i], nested)
    ensures EntryNodes(f) <= |f| * Nodes(nested)
    ensures EntryCharacters(f) <= |f| * (41 + Characters(nested))
  {
    if f != [] {
      var n := |f| - 1;
      SmallTotals(f[..n], nested);
      SmallEntry(f[n], nested);
      hide EntryNodes, EntryCharacters, NodesOfEntry, CharactersOfEntry, Small;
      Totals(f, n);
      Multiples(n, Nodes(nested));
      Multiples(n, 41 + Characters(nested));
    }
  }

  lemma Totals(f: Fields, n: nat)
    requires |f| == n + 1
    ensures EntryNodes(f) == EntryNodes(f[..n]) + NodesOfEntry(f[n])
    ensures EntryCharacters(f) == EntryCharacters(f[..n]) + CharactersOfEntry(f[n])
  {
    hide NodesOfEntry, CharactersOfEntry;
  }

  lemma Multiples(n: nat, x: nat)
    ensures (n + 1) * x == n * x + x
  {
  }

  lemma SmallEntry(e: Entry, nested: Peer)
    requires Small(e, nested)
    ensures NodesOfEntry(e) <= Nodes(nested) && CharactersOfEntry(e) <= 41 + Characters(nested)
    ensures KeyFits(e.key) && forall depth: nat :: depth <= 2 && Fits(nested, depth) ==> Fits(e.value, depth)
  {
    assert Nodes(nested) >= 1;
  }

  lemma SampleCopies(nested: Peer, k: nat, depth: nat)
    requires depth <= 1 && Fits(nested, depth + 1)
    ensures Fits(Plain(Sample(nested, k)), depth) && Nodes(Plain(Sample(nested, k))) <= 1 + 25 * Nodes(nested)
    ensures Characters(Plain(Sample(nested, k))) <= 25 * (41 + Characters(nested))
  {
    hide Sample, Small;
    var f := Sample(nested, k);
    SampleSmall(nested, k);
    SmallTotals(f, nested);
    forall e | e in f ensures KeyFits(e.key) && Fits(e.value, depth + 1) { SmallEntry(e, nested); }
  }

  lemma BothCopyable(k: nat)
    ensures Copyable(Plain(StatusFields(k))) && Copyable(Plain(EventFields(k)))
  {
    hide Sample;
    SampleCopies(Null, k, 1);
    FitsHigher(Plain(StatusFields(k)), 0);
    SampleCopies(Plain(StatusFields(k)), k, 0);
  }

  // ----- Field by field -----

  lemma Identifiers(nested: Peer, k: nat, player: nat)
    ensures var f, r := Sample(nested, k), Reader(player).readers;
      && UuidField(f, "playerId", r) == UuidField(f, "aggregateId", r) == Some(player)
      && TextField(f, "aggregateId", r) == Some("u")
  {
    hide Get, Has, Id, Count;
    Read(nested, k, 9, "playerId", Str("u"));
    Read(nested, k, 17, "aggregateId", Str("u"));
  }

  /** What tells the two events apart. */
  lemma OwnFields(nested: Peer, k: nat)
    ensures var f := Sample(nested, k);
      Get(f, "eventId") == Str(Id(k)) && Get(f, "revision") == Get(f, "aggregateRevision") == Count(k)
  {
    hide Get, Has, Id, Count;
    Read(nested, k, 7, "eventId", Str(Id(k)));
    Read(nested, k, 11, "revision", Count(k));
    Read(nested, k, 24, "aggregateRevision", Count(k));
  }

  lemma Own(nested: Peer, k: nat, player: nat)
    requires 1 <= k <= 2
    ensures var f, r := Sample(nested, k), Reader(player).readers;
      && UuidField(f, "eventId", r) == Some(player + |Id(k)|)
      && CountField(f, "revision", r) == CountField(f, "aggregateRevision", r) == Some(k)
  {
    hide Get, Has, Sample;
    OwnFields(nested, k);
  }

  lemma Actors(nested: Peer, k: nat, player: nat)
    ensures var f, r := Sample(nested, k), Reader(player).readers;
      && UuidOf(Get(f, "actor"), r) == UuidField(f, "actorPlayerId", r) == Some(player) && Get(f, "actor") != Null
      && TextField(f, "principal", r) == TextField(f, "actingPrincipal", r) == Some(PLAYER + "u")
  {
    hide Get, Has, Id, Count;
    Read(nested, k, 4, "actor", Str("u"));
    Read(nested, k, 21, "actorPlayerId", Str("u"));
    Read(nested, k, 14, "principal", Str("player:u"));
    Read(nested, k, 23, "actingPrincipal", Str("player:u"));
    assert PLAYER + "u" == "player:u";
  }

  lemma Numbers(nested: Peer, k: nat, player: nat)
    ensures var f, r := Sample(nested, k), Reader(player).readers;
      && CountField(f, "tier", r) == CountField(f, "lastHostileAt", r) == Some(1)
      && ExactLong(Get(f, "schemaVersion"), r) == Some(1)
  {
    hide Get, Has, Id, Count;
    Read(nested, k, 0, "tier", ONE);
    Read(nested, k, 20, "lastHostileAt", ONE);
    Read(nested, k, 19, "schemaVersion", ONE);
  }

  lemma Nested(nested: Peer, k: nat)
    ensures Get(Sample(nested, k), "data") == Get(Sample(nested, k), "payload") == nested
  {
    hide Get, Has, Id, Count;
    Read(nested, k, 2, "data", nested);
    Read(nested, k, 8, "payload", nested);
  }

  lemma Says(nested: Peer, k: nat, i: nat, name: string, text: string, player: nat)
    requires i < 25 && Sample(nested, k)[i] == Field(name, Str(text)) && |text| <= 21
    ensures TextField(Sample(nested, k), name, Reader(player).readers) == Some(text)
  {
    hide Get;
    Read(nested, k, i, name, Str(text));
  }

  lemma Flags(nested: Peer, k: nat, player: nat)
    ensures var f, r := Sample(nested, k), Reader(player).readers;
      && FlagField(f, "available") == FlagField(f, "wanted") == FlagField(f, "banished") == Some(true)
      && TextField(f, "state", r) == Some("wanted") && TextField(f, "participantRole", r) == Some("subject")
  {
    hide Get, Has, Id, Count, TextField;
    Read(nested, k, 12, "available", Bool(true));
    Read(nested, k, 5, "wanted", Bool(true));
    Read(nested, k, 10, "banished", Bool(true));
    Says(nested, k, 3, "state", "wanted", player);
    Says(nested, k, 22, "participantRole", "subject", player);
  }

  lemma Kinds(nested: Peer, k: nat, player: nat)
    ensures var f, r := Sample(nested, k), Reader(player).readers;
      && TextField(f, "eventType", r) == TextField(f, "type", r) == Some("patrol.wanted_changed")
      && TextField(f, "action", r) == Some("wanted") && TextField(f, "aggregateType", r) == Some("minecraft:player")
  {
    hide TextField, Id, Count;
    Says(nested, k, 13, "eventType", "patrol.wanted_changed", player);
    Says(nested, k, 1, "type", "patrol.wanted_changed", player);
    Says(nested, k, 6, "action", "wanted", player);
    Says(nested, k, 18, "aggregateType", "minecraft:player", player);
  }

  lemma Times(nested: Peer, k: nat, player: nat)
    ensures TimesAgree(Sample(nested, k), Reader(player).readers)
  {
    hide Get, Has;
    Read(nested, k, 16, "occurredAt", Str("u"));
    Read(nested, k, 15, "timestamp", Str("u"));
  }

  lemma Nobody(nested: Peer, k: nat)
    ensures var f := Sample(nested, k);
      && !Has(f, "lastCounterparty") && Get(f, "counterparty") == Get(f, "counterpartyPrincipal") == Null
  {
    hide Get, Has, Sample;
    Absent(nested, k, "lastCounterparty");
    Absent(nested, k, "counterparty");
    Absent(nested, k, "counterpartyPrincipal");
  }

  lemma Nowhere(nested: Peer, k: nat, r: Readers)
    ensures LocationValid(Sample(nested, k), r) && ContextValid(Sample(nested, k), r)
  {
    hide Get, Has, Sample, AsFields;
    Absent(nested, k, "world");
    Absent(nested, k, "position");
    Absent(nested, k, "context");
  }

  lemma SnapshotMeets(nested: Peer, k: nat, player: nat)
    requires 1 <= k <= 2
    ensures StatusIdentity(Sample(nested, k), player, Reader(player).readers)
    ensures StatusSnapshot(Sample(nested, k), player, Reader(player))
  {
    hide Get, Has, LocationValid, ContextValid, CombatStatus, TextField, FlagField, CountField, UuidField, Sample;
    Identifiers(nested, k, player);
    Actors(nested, k, player);
    Numbers(nested, k, player);
    Own(nested, k, player);
    Flags(nested, k, player);
    Nobody(nested, k);
    Nowhere(nested, k, Reader(player).readers);
  }

  lemma HeadMeets(player: nat, k: nat)
    requires 1 <= k <= 2
    ensures HeadValid(EventFields(k), Some(player), Reader(player))
    ensures UuidField(EventFields(k), "aggregateId", Reader(player).readers) == Some(player)
    ensures UuidField(EventFields(k), "eventId", Reader(player).readers) == Some(player + |Id(k)|)
    ensures CountField(EventFields(k), "aggregateRevision", Reader(player).readers) == Some(k)
    ensures AsFields(Get(EventFields(k), "data")) == AsFields(Get(EventFields(k), "payload")) == Some(StatusFields(k))
  {
    hide Get, TextField, CountField, UuidField, ExactLong, TimesAgree, AsFields, Sample, Plain, Id;
    var status := Plain(StatusFields(k));
    SampleIsPlain(Null, k);
    Identifiers(status, k, player);
    Numbers(status, k, player);
    Own(status, k, player);
    Nested(status, k);
    Kinds(status, k, player);
    Times(status, k, player);
  }

  lemma BodyMeets(player: nat, k: nat)
    requires 1 <= k <= 2
    ensures BodyValid(EventFields(k), StatusFields(k), player, k, Reader(player))
  {
    hide Get, Has, StatusSnapshot, LocationValid, ContextValid, TextField, CountField, UuidField, UuidOf, Sample;
    SnapshotMeets(Null, k, player);
    Identifiers(Null, k, player);
    Own(Null, k, player);
    Flags(Null, k, player);
    Nobody(Null, k);
    Actors(Plain(StatusFields(k)), k, player);
    Nowhere(Plain(StatusFields(k)), k, Reader(player).readers);
  }

  // ----- The witness -----

  lemma EventMeets(player: nat, k: nat)
    requires 1 <= k <= 2
    ensures var event := Plain(EventFields(k));
      && Event(event) == event && Admissible(event, Some(player), Reader(player))
      && EventId(event, Reader(player)) == Some(player + |Id(k)|) && Revision(event, Reader(player)) == k
  {
    hide Get, HeadValid, BodyValid, Copyable, AsFields, Sample, UuidField, CountField, Copy, Id;
    HeadMeets(player, k);
    BodyMeets(player, k);
    BothCopyable(k);
    SampleIsPlain(Plain(StatusFields(k)), k);
  }

  lemma StatusMeets(player: nat, k: nat)
    requires 1 <= k <= 2
    ensures StatusAvailable(player, Some(Plain(StatusFields(k))), Reader(player))
    ensures StatusRevision(Plain(StatusFields(k)), Reader(player)) == Some(k)
  {
    hide Get, StatusSnapshot, StatusIdentity, AsFields, Sample, FlagField, CountField, Copyable;
    SnapshotMeets(Null, k, player);
    Flags(Null, k, player);
    Own(Null, k, player);
    BothCopyable(k);
    SampleIsPlain(Null, k);
  }

  lemma AdmissibleTotals(event: Peer, player: nat, client: Client)
    requires Admissible(event, Some(player), client)
    ensures Nodes(event) <= MAX_JSON_NODES && Characters(event) <= MAX_JSON_CHARACTERS
  {
    hide EventValid, Fits;
  }

  lemma BothEventsConform(first: Peer, second: Peer, player: nat, client: Client)
    requires Event(first) == first && Admissible(first, Some(player), client)
    requires Event(second) == second && Admissible(second, Some(player), client)
    requires EventId(first, client) != EventId(second, client)
    requires Revision(first, client) == 1 && Revision(second, client) == 2
    ensures Conforms([first, second], player, client, 0) && Covers(2, [first, second], client, 0)
  {
    hide Admissible, Event, Nodes, Characters, EventId, Revision;
    AdmissibleTotals(first, player, client);
    AdmissibleTotals(second, player, client);
    var list := [first, second];
    assert Events(list) == list && list[..1] == [first] && list[..1][..0] == [];
    assert ItemNodes(list) == ItemNodes([first]) + Nodes(second) && ItemNodes([first]) == Nodes(first);
    assert ItemCharacters(list) == ItemCharacters([first]) + Characters(second);
    assert ItemCharacters([first]) == Characters(first);
  }

  /** For every player there is a client, a replay of two events that conforms and an available
      status that covers both: what a valid reconciliation asks for.  The events have ids of
      their own, neither of them the player's. */
  lemma ValidReconciliationExists(player: nat)
    returns (first: Peer, second: Peer, status: Peer, client: Client)
    ensures Conforms([first, second], player, client, 0)
    ensures Revision(first, client) == 1 && Revision(second, client) == 2
    ensures EventId(first, client) != Some(player) && EventId(second, client) != Some(player)
    ensures StatusAvailable(player, Some(status), client) && StatusRevision(status, client) == Some(2)
    ensures Covers(2, [first, second], client, 0)
  {
    hide Conforms, Admissible, StatusAvailable, StatusRevision, Sample, Event, EventId, Revision;
    first, second := Plain(EventFields(1)), Plain(EventFields(2));
    status, client := Plain(StatusFields(2)), Reader(player);
    EventMeets(player, 1);
    EventMeets(player, 2);
    BothEventsConform(first, second, player, client);
    StatusMeets(player, 2);
  }
}
