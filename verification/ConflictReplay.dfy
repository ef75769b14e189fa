/**
  Replay of a player's conflict events, and its reconciliation with the status.

  The peer answers with a list of anything.  One pass sets four flags and copies
  events under one cumulative budget; this module says what the flags mean.
 */
module ConflictReplay {
  import opened Wrappers
  import opened PeerJson
  import opened ConflictContract
  import opened LiveEvidence

  const MAX_REPLAY_EVENTS: nat := 2_048

  /** What the peer's replay function did: None also for an answer that is no list. */
  datatype Reply = Threw | Returned(list: Option<seq<Peer>>)

  datatype Checks = Checks(
    strictlyIncreasing: bool, eventIdsUnique: bool, aggregateMatches: bool, withinBound: bool, maximumRevision: int)

  /** Failed: no events and no checks, only an error. */
  datatype Replay = Failed | Answered(events: seq<Json>, checks: Checks, error: bool)

  const EMPTY_CHECKS := Checks(false, false, false, false, 0)

  // ----- The contract, stated on the whole list -----

  /** The peer's value as the plain map that is checked and copied. */
  function Event(raw: Peer): Peer {
    if AsFields(raw).Some? then Plain(AsFields(raw).value) else Null
  }

  function Events(list: seq<Peer>): (events: seq<Peer>)
    ensures |events| == |list|
  {
    seq(|list|, i requires 0 <= i < |list| => Event(list[i]))
  }

  predicate AllAdmissible(list: seq<Peer>, player: nat, client: Client) {
    forall i :: 0 <= i < |list| ==> Admissible(Event(list[i]), Some(player), client)
  }

  function FieldsOf(raw: Peer): Fields {
    if AsFields(raw).Some? then AsFields(raw).value else []
  }

  /** The number under "aggregateRevision". */
  function Revision(raw: Peer, client: Client): int {
    match CountField(FieldsOf(raw), "aggregateRevision", client.readers)
    case Some(revision) => revision
    case None => 0
  }

  /** The identifier under "eventId". */
  function EventId(raw: Peer, client: Client): Option<nat> {
    UuidField(FieldsOf(raw), "eventId", client.readers)
  }

  predicate Increasing(list: seq<Peer>, client: Client, after: int) {
    && (forall i :: 0 <= i < |list| ==> after < Revision(list[i], client))
    && (forall i, j :: 0 <= i < j < |list| ==> Revision(list[i], client) < Revision(list[j], client))
  }

  predicate Distinct(list: seq<Peer>, client: Client) {
    forall i, j :: 0 <= i < j < |list| ==> EventId(list[i], client) != EventId(list[j], client)
  }

  /** The cumulative budget of one replay. */
  predicate WithinEvidence(events: seq<Peer>) {
    ItemNodes(events) <= MAX_EVIDENCE_NODES && ItemCharacters(events) <= MAX_EVIDENCE_CHARACTERS
  }

  predicate Conforms(list: seq<Peer>, player: nat, client: Client, after: int) {
    && |list| <= MAX_REPLAY_EVENTS
    && WithinEvidence(Events(list))
    && AllAdmissible(list, player, client)
    && Increasing(list, client, after)
    && Distinct(list, client)
  }

  /** m is the largest of after and the revisions. */
  predicate IsMaximum(m: int, list: seq<Peer>, client: Client, after: int) {
    && after <= m && (forall i :: 0 <= i < |list| ==> Revision(list[i], client) <= m)
    && (m == after || exists i :: 0 <= i < |list| && Revision(list[i], client) == m)
  }

  // ----- One more event -----

  function Max(a: int, b: int): int { if a < b then b else a }

  lemma IncreasingNext(list: seq<Peer>, next: Peer, client: Client, after: int, previous: int)
    requires IsMaximum(previous, list, client, after)
    ensures var revision := Revision(next, client);
      && (Increasing(list + [next], client, after) <==> Increasing(list, client, after) && revision > previous)
      && IsMaximum(Max(previous, revision), list + [next], client, after)
  {
    hide Revision;
    var longer := list + [next];
    assert longer[|list|] == next && longer[..|list|] == list;
    assert forall i :: 0 <= i < |list| ==> longer[i] == list[i];
    if previous != after {
      var i :| 0 <= i < |list| && Revision(list[i], client) == previous;
      assert Revision(longer[i], client) == previous;
    }
  }

  lemma DistinctNext(list: seq<Peer>, next: Peer, client: Client, id: nat)
    requires EventId(next, client) == Some(id)
    ensures Distinct(list + [next], client) <==> Distinct(list, client) && id !in EventIds(list, client)
    ensures EventIds(list + [next], client) == EventIds(list, client) + {id}
  {
    hide EventId;
    var longer := list + [next];
    assert longer[|list|] == next;
    assert forall i :: 0 <= i < |list| ==> longer[i] == list[i];
  }

  function EventIds(list: seq<Peer>, client: Client): set<nat> {
    set i | 0 <= i < |list| && EventId(list[i], client).Some? :: EventId(list[i], client).value
  }

  // ----- The pass -----

  /** The flags of one pass.  The last and the largest revision are one variable:
      the client updates both by the same maximum. */
  datatype Flags = Flags(
    strictlyIncreasing: bool, eventIdsUnique: bool, aggregateMatches: bool, maximumRevision: int, eventIds: set<nat>)

  /** No event that was accepted ever clears aggregateMatches: the contract of an
      event already demands the player. */
  predicate Describes(flags: Flags, list: seq<Peer>, client: Client, after: int) {
    && (flags.strictlyIncreasing <==> Increasing(list, client, after))
    && (flags.eventIdsUnique <==> Distinct(list, client))
    && flags.aggregateMatches
    && IsMaximum(flags.maximumRevision, list, client, after)
    && flags.eventIds == EventIds(list, client)
  }

  function Note(flags: Flags, next: EventIdentity, player: nat): Flags {
    Flags(flags.strictlyIncreasing && next.revision > flags.maximumRevision,
          flags.eventIdsUnique && next.eventId !in flags.eventIds,
          flags.aggregateMatches && next.aggregateId == player,
          Max(flags.maximumRevision, next.revision),
          flags.eventIds + {next.eventId})
  }

  /** The client's name for an event is what the fields say. */
  predicate Names(next: EventIdentity, raw: Peer, client: Client) {
    EventId(raw, client) == Some(next.eventId) && Revision(raw, client) == next.revision
  }

  lemma NoteDescribes(flags: Flags, list: seq<Peer>, raw: Peer, next: EventIdentity, client: Client, after: int)
    requires Describes(flags, list, client, after) && Names(next, raw, client)
    ensures Describes(Note(flags, next, next.aggregateId), list + [raw], client, after)
  {
    hide Increasing, Distinct, IsMaximum, EventIds, EventId, Revision;
    IncreasingNext(list, raw, client, after, flags.maximumRevision);
    DistinctNext(list, raw, client, next.eventId);
  }

  predicate Bounded(copies: seq<Json>, list: seq<Peer>) {
    && |copies| <= |list| && |copies| <= MAX_REPLAY_EVENTS
    && copies == CopyItems(Events(list[..|copies|]))
    && WithinEvidence(Events(list[..|copies|]))
  }

  /** The part of the list that was inspected and copied. */
  ghost predicate Inspected(list: seq<Peer>, n: nat, player: nat, client: Client, after: int, flags: Flags,
      copies: seq<Json>) {
    && n == |copies| && Bounded(copies, list)
    && AllAdmissible(list[..n], player, client)
    && Describes(flags, list[..n], client, after)
  }

  lemma EventsNext(list: seq<Peer>, n: nat)
    requires n < |list|
    ensures Events(list[..n + 1]) == Events(list[..n]) + [Event(list[n])]
    ensures ItemNodes(Events(list[..n + 1])) == ItemNodes(Events(list[..n])) + Nodes(Event(list[n]))
                                             <= ItemNodes(Events(list))
    ensures ItemCharacters(Events(list[..n + 1])) == ItemCharacters(Events(list[..n])) + Characters(Event(list[n]))
                                                  <= ItemCharacters(Events(list))
    ensures CopyItems(Events(list[..n + 1])) == CopyItems(Events(list[..n])) + [Copy(Event(list[n]))]
  {
    hide Event, Nodes, Characters, Copy;
    var events := Events(list);
    assert events[..n] == Events(list[..n]) && events[..n + 1] == Events(list[..n + 1]);
    ItemPrefix(events, n);
  }

  /** One more accepted event: the flags count it, then its copy is kept if it can be paid for. */
  lemma InspectedNext(list: seq<Peer>, n: nat, player: nat, client: Client, after: int, flags: Flags,
      copies: seq<Json>, next: EventIdentity)
    requires Inspected(list, n, player, client, after, flags, copies)
    requires n < |list| && n < MAX_REPLAY_EVENTS && Admissible(Event(list[n]), Some(player), client)
    requires Names(next, list[n], client) && next.aggregateId == player
    ensures AllAdmissible(list[..n + 1], player, client)
    ensures Describes(Note(flags, next, player), list[..n + 1], client, after)
    ensures WithinEvidence(Events(list[..n + 1])) ==>
              Inspected(list, n + 1, player, client, after, Note(flags, next, player), copies + [Copy(Event(list[n]))])
  {
    hide Describes, Admissible, Event, Copy, ItemNodes, ItemCharacters, CopyItems, Names;
    assert list[..n + 1] == list[..n] + [list[n]];
    EventsNext(list, n);
    NoteDescribes(flags, list[..n], list[n], next, client, after);
  }

  lemma IsForPlayer(event: Peer, player: nat, client: Client)
    requires Admissible(event, Some(player), client)
    ensures UuidField(event.entries, "aggregateId", client.readers) == Some(player)
    ensures CountField(event.entries, "aggregateRevision", client.readers).Some?
    ensures CountField(event.entries, "aggregateRevision", client.readers).value > 0
  {
    hide BodyValid, Copyable, TextField, AsFields, Announces, TimesAgree;
  }

  lemma Verdict(list: seq<Peer>, player: nat, client: Client, after: int, flags: Flags, copies: seq<Json>)
    requires Inspected(list, |list|, player, client, after, flags, copies)
    ensures Conforms(list, player, client, after) <==> flags.strictlyIncreasing && flags.eventIdsUnique
    ensures IsMaximum(flags.maximumRevision, list, client, after)
    ensures flags.aggregateMatches && copies == CopyItems(Events(list))
  {
    hide Admissible, Event, IsMaximum, Increasing, Distinct;
    assert list[..|list|] == list;
  }

  lemma NothingInspected(list: seq<Peer>, player: nat, client: Client, after: int)
    ensures Inspected(list, 0, player, client, after, Flags(true, true, true, after, {}), [])
    ensures ItemNodes(Events(list[..0])) == 0 && ItemCharacters(Events(list[..0])) == 0
  {
    assert Events(list[..0]) == [];
  }

  /** An event that cannot be accepted or paid for, or too many events, spoil the list. */
  lemma Spoiled(list: seq<Peer>, n: nat, player: nat, client: Client, after: int)
    requires |list| > MAX_REPLAY_EVENTS
          || (n < |list| && !Admissible(Event(list[n]), Some(player), client))
          || (n < |list| && !WithinEvidence(Events(list[..n + 1])))
    ensures !Conforms(list, player, client, after)
  {
    hide Admissible, Event, Increasing, Distinct;
    if n < |list| { EventsNext(list, n); }
  }

  /** The rest of the budget pays for an event exactly when the whole budget pays for all
      events up to it. */
  lemma BudgetPays(list: seq<Peer>, n: nat, event: Peer)
    requires n < |list| && event == Event(list[n]) && Fits(event, 0)
    ensures Affordable(event, 0, MAX_EVIDENCE_NODES - ItemNodes(Events(list[..n])),
                       MAX_EVIDENCE_CHARACTERS - ItemCharacters(Events(list[..n])))
            <==> WithinEvidence(Events(list[..n + 1]))
  {
    hide Event, Fits, Nodes, Characters, ItemNodes, ItemCharacters;
    EventsNext(list, n);
  }

  lemma InspectedIsBounded(list: seq<Peer>, n: nat, player: nat, client: Client, after: int, flags: Flags,
      copies: seq<Json>)
    requires Inspected(list, n, player, client, after, flags, copies)
    ensures Bounded(copies, list) && flags.aggregateMatches && |copies| == n
    ensures AllAdmissible(list[..n], player, client) && Describes(flags, list[..n], client, after)
    ensures WithinEvidence(Events(list[..n]))
  {
    hide WithinEvidence, AllAdmissible, Events, CopyItems;
  }

  /** A value that is no bounded map is no event either. */
  method CheckEvent(raw: Peer, player: nat, client: Client) returns (r: Checked, event: Peer)
    ensures r.Valid? <==> Admissible(Event(raw), Some(player), client)
    ensures r.Valid? ==> Names(r.identity, raw, client) && r.identity.aggregateId == player
    ensures r.Valid? ==> event == Event(raw) && Fits(event, 0)
    ensures r.Crashed? ==> !Readable(raw)
  {
    hide EventValid, AsFields, Fits, Readable, UuidField, CountField;
    var fields := StringMap(raw);
    if fields.None? { return Invalid, Null; }
    event := Plain(fields.value);
    if Readable(raw) { EventIsReadable(raw); }
    r := ValidateEvent(event, Some(player), client);
    if r.Valid? { IsForPlayer(event, player, client); }
  }

  lemma EventIsReadable(raw: Peer)
    requires Readable(raw)
    ensures Readable(Event(raw))
  {
    hide Merged, EntryNodes, EntryCharacters;
    if AsFields(raw).Some? { MergedShrinks(raw.entries); }
  }

  /** The answer when n events were accepted: the flags are theirs, and there is a copy of
      each, except of a last one that was too much for the budget. */
  ghost predicate Reports(r: Replay, list: seq<Peer>, n: nat, player: nat, client: Client, after: int) {
    var inspected := if |list| <= MAX_REPLAY_EVENTS then |list| else MAX_REPLAY_EVENTS;
    && r.Answered? && Bounded(r.events, list) && n <= inspected
    && AllAdmissible(list[..n], player, client)
    && (r.checks.strictlyIncreasing <==> Increasing(list[..n], client, after))
    && (r.checks.eventIdsUnique <==> Distinct(list[..n], client))
    && (r.checks.aggregateMatches <==> |r.events| == inspected)
    && (r.checks.withinBound <==> |list| <= MAX_REPLAY_EVENTS)
    && IsMaximum(r.checks.maximumRevision, list[..n], client, after)
    && (n == |r.events| < inspected ==> !Admissible(Event(list[n]), Some(player), client))
    && (n != |r.events| ==> n == |r.events| + 1 && !WithinEvidence(Events(list[..n])))
  }

  lemma ReportsFlags(r: Replay, list: seq<Peer>, n: nat, player: nat, client: Client, after: int, flags: Flags,
      inspected: nat)
    requires r.Answered? && Bounded(r.events, list) && n <= inspected
    requires inspected == if |list| <= MAX_REPLAY_EVENTS then |list| else MAX_REPLAY_EVENTS
    requires AllAdmissible(list[..n], player, client) && Describes(flags, list[..n], client, after)
    requires n == |r.events| < inspected ==> !Admissible(Event(list[n]), Some(player), client)
    requires n != |r.events| ==> n == |r.events| + 1 && !WithinEvidence(Events(list[..n]))
    requires r.checks == Checks(flags.strictlyIncreasing, flags.eventIdsUnique, |r.events| == inspected,
                                |list| <= MAX_REPLAY_EVENTS, flags.maximumRevision)
    ensures Reports(r, list, n, player, client, after)
  {
    hide AllAdmissible, Admissible, Increasing, Distinct, IsMaximum, Event, WithinEvidence, Bounded, EventIds;
  }

  method ReplayResult(player: nat, afterRevision: int, raw: Option<seq<Peer>>, client: Client) returns (r: Replay)
    ensures r.Answered? && !r.error <==> raw.Some? && Conforms(raw.value, player, client, afterRevision)
    ensures r.Answered? && !r.error ==>
              && r.events == CopyItems(Events(raw.value))
              && r.checks == Checks(true, true, true, true, r.checks.maximumRevision)
              && IsMaximum(r.checks.maximumRevision, raw.value, client, afterRevision)
    // Whatever the peer sent, the answer says how far it was good.
    ensures raw.None? ==> r == Answered([], Checks(true, true, true, true, afterRevision), true)
    ensures raw.Some? && r.Answered? ==> exists n :: Reports(r, raw.value, n, player, client, afterRevision)
    ensures r.Failed? ==> raw.Some? && exists event :: event in raw.value && !Readable(event)
  {
    hide Inspected, Bounded, Admissible, AllAdmissible, Conforms, IsMaximum, Event, Events, Fits, Describes, Reports,
      Nodes, Characters, ItemNodes, ItemCharacters, CopyItems, Copy, Note, Names, Readable, Mirrors, WithinEvidence;
    if raw.None? { return Answered([], Checks(true, true, true, true, afterRevision), true); }
    var list := raw.value;
    var events: seq<Json> := [];
    var flags := Flags(true, true, true, afterRevision, {});
    var detail := false;
    var withinBound := |list| <= MAX_REPLAY_EVENTS;
    var budget := new JsonBudget(MAX_EVIDENCE_NODES, MAX_EVIDENCE_CHARACTERS);
    var inspected := if withinBound then |list| else MAX_REPLAY_EVENTS;
    var index := 0;
    ghost var accepted := 0;
    NothingInspected(list, player, client, afterRevision);
    while index < inspected
      invariant 0 <= index <= inspected && !detail && accepted == index
      invariant Inspected(list, index, player, client, afterRevision, flags, events)
      invariant budget.Spent(MAX_EVIDENCE_NODES, MAX_EVIDENCE_CHARACTERS, 0,
                             ItemNodes(Events(list[..index])), ItemCharacters(Events(list[..index])))
      invariant budget.remainingCharacters >= 0
    {
      InspectedIsBounded(list, index, player, client, afterRevision, flags, events);
      assert list[index] in list;
      var checked, event := CheckEvent(list[index], player, client);
      if !checked.Valid? {
        Spoiled(list, index, player, client, afterRevision);
        if checked.Crashed? { return Failed; }
        detail := true;
        break;
      }
      EventsNext(list, index);
      InspectedNext(list, index, player, client, afterRevision, flags, events, checked.identity);
      flags := Note(flags, checked.identity, player);
      accepted := index + 1;
      if Readable(list[index]) { EventIsReadable(list[index]); }
      BudgetPays(list, index, event);
      var copy := ToJson(event, 0, budget);
      if copy.Err? {
        Spoiled(list, index, player, client, afterRevision);
        if copy.error.NumberUnreadable? { return Failed; }
        detail := true;
        break;
      }
      events := events + [copy.value];
      index := index + 1;
    }
    if !detail {
      InspectedIsBounded(list, index, player, client, afterRevision, flags, events);
      if withinBound { Verdict(list, player, client, afterRevision, flags, events); }
      else { Spoiled(list, 0, player, client, afterRevision); }
    }
    var aggregateMatches := flags.aggregateMatches && !detail;
    r := Answered(events,
                  Checks(flags.strictlyIncreasing, flags.eventIdsUnique, aggregateMatches, withinBound,
                      flags.maximumRevision),
                  detail || !flags.strictlyIncreasing || !flags.eventIdsUnique || !aggregateMatches || !withinBound);
    ReportsFlags(r, list, accepted, player, client, afterRevision, flags, inspected);
  }

  // ----- Reconciliation -----

  datatype Reconciliation = Reconciliation(available: bool, statusCoversReplay: bool, valid: bool, error: bool)

  method ReplayFrom(player: nat, afterRevision: int, reply: Reply, client: Client) returns (r: Replay)
    ensures r.Answered? && !r.error <==>
              afterRevision >= 0 && reply.Returned? && reply.list.Some?
                  && Conforms(reply.list.value, player, client, afterRevision)
    ensures r.Answered? && !r.error ==>
              && r.checks == Checks(true, true, true, true, r.checks.maximumRevision)
              && IsMaximum(r.checks.maximumRevision, reply.list.value, client, afterRevision)
  {
    hide *;
    if afterRevision < 0 || reply.Threw? { return Failed; }
    r := ReplayResult(player, afterRevision, reply.list, client);
  }

  /** Fields as read back from the status copy: absent or unreadable ones default. */
  function JsonFlag(status: Option<Json>, name: string): bool {
    status.Some? && status.value.JObject? && ReadMember(status.value.members, name) == Some(JBool(true))
  }

  function JsonLong(status: Option<Json>, name: string, r: Readers): int {
    if status.None? || !status.value.JObject? then -1
    else
      var member := ReadMember(status.value.members, name);
      if member.None? || !member.value.JNum? then -1
      else if r.exact(member.value.digits).Some? then r.exact(member.value.digits).value
      else r.truncated(member.value.digits)
  }

  lemma StatusReads(player: nat, answer: Peer, client: Client)
    requires StatusAccepted(player, Some(answer), client)
    ensures var f, status := AsFields(answer).value, Some(Copy(Plain(AsFields(answer).value)));
      && (JsonFlag(status, "available") <==> FlagField(f, "available") == Some(true))
      && (FlagField(f, "available") == Some(true) ==>
            CountField(f, "revision", client.readers) == Some(JsonLong(status, "revision", client.readers)))
  {
    hide StatusIdentity, AsFields, Plain, Copyable, LocationValid, ContextValid, CombatStatus, TextField, UuidField;
    CopyReads(answer, "available");
    CopyReads(answer, "revision");
    ghost var f := AsFields(answer).value;
    if Get(f, "available") != Null { var i := GetIsEntry(f, "available"); }
    if Get(f, "revision") != Null { var i := GetIsEntry(f, "revision"); }
  }

  lemma AcceptedAnswer(player: nat, answer: Option<Peer>, client: Client)
    requires StatusAccepted(player, answer, client)
    ensures answer.Some? && AsFields(answer.value).Some?
  {
  }

  predicate Covers(revision: int, list: seq<Peer>, client: Client, after: int) {
    after <= revision && forall i :: 0 <= i < |list| ==> Revision(list[i], client) <= revision
  }

  lemma CoversIsMaximum(revision: int, m: int, list: seq<Peer>, client: Client, after: int)
    requires IsMaximum(m, list, client, after)
    ensures Covers(revision, list, client, after) <==> m <= revision
  {
  }

  /** The replay half of a reconciliation. */
  predicate Replays(player: nat, after: int, reply: Reply, client: Client) {
    after >= 0 && reply.Returned? && reply.list.Some? && Conforms(reply.list.value, player, client, after)
  }

  /** The status half. */
  predicate StatusAvailable(player: nat, answer: Option<Peer>, client: Client) {
    StatusAccepted(player, answer, client) && FlagField(AsFields(answer.value).value, "available") == Some(true)
  }

  function StatusRevision(answer: Peer, client: Client): Option<Int64>
    requires AsFields(answer).Some?
  {
    CountField(AsFields(answer).value, "revision", client.readers)
  }

  /** A reconciliation is valid exactly when the status is accepted and available, the
      replay conforms, and the status is at least as recent as the request and every event. */
  method Reconcile(player: nat, afterRevision: int, answer: Option<Peer>, reply: Reply, client: Client)
    returns (r: Reconciliation)
    ensures r.valid <==>
      && StatusAvailable(player, answer, client) && Replays(player, afterRevision, reply, client)
      && var revision := StatusRevision(answer.value, client);
         revision.Some? && Covers(revision.value, reply.list.value, client, afterRevision)
    ensures r.valid <==> !r.error && r.statusCoversReplay
    ensures r.available <==> StatusAvailable(player, answer, client)
    ensures !r.error <==> StatusAvailable(player, answer, client) && Replays(player, afterRevision, reply, client)
  {
    hide StatusAccepted, Conforms, AsFields, IsMaximum, Covers, JsonLong, Copy, FlagField, CountField, Mirrors,
      ReadMember;
    var status := StatusCall(player, answer, client);
    var replay := ReplayFrom(player, afterRevision, reply, client);
    var statusAvailable := JsonFlag(status, "available");
    var checks := if replay.Answered? then replay.checks else EMPTY_CHECKS;
    var statusRevision := JsonLong(status, "revision", client.readers);
    if status.Some? {
      AcceptedAnswer(player, answer, client);
      StatusReads(player, answer.value, client);
    }
    var covers := statusRevision >= checks.maximumRevision;
    var replayError := replay.Failed? || replay.error;
    if !replayError {
      CoversIsMaximum(statusRevision, checks.maximumRevision, reply.list.value, client, afterRevision);
    }
    var valid := statusAvailable && status.Some? && !replayError && covers
      && checks.strictlyIncreasing && checks.eventIdsUnique && checks.aggregateMatches && checks.withinBound;
    return Reconciliation(statusAvailable, covers, valid, status.None? || replayError || !statusAvailable);
  }
}
