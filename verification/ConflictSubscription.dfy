/**
  The live subscription of the conflict client: it follows whichever valid provider
  is published, and never holds more than one open handle.
 */
module ConflictSubscription {
  import opened Wrappers
  import opened PeerJson
  import opened ConflictContract

  /** What the registry lookup yields; a published value is known by object identity. */
  datatype Found = LookupThrew | NothingPublished | Published(raw: nat, value: Peer)

  /** What the provider does when asked to subscribe. */
  datatype Subscribe = Handle | NoHandle | Throws

  datatype ProviderFailure =
    | LookupFailed | Missing | Misshapen | WrongVersion | WrongEventSchema | NotCloseable | SubscribeFailed

  predicate IsFunction(v: Peer) { v.Unsupported? && v.callable }

  /** A published protocol the client can use. */
  predicate Usable(found: Found, client: Client) {
    && found.Published?
    && var f := AsFields(found.value);
    && f.Some?
    && ExactLong(Get(f.value, "protocolVersion"), client.readers) == Some(client.protocolVersion)
    && ExactLong(Get(f.value, "eventSchemaVersion"), client.readers) == Some(client.eventSchemaVersion)
    && IsFunction(Get(f.value, "status")) && IsFunction(Get(f.value, "replay"))
    && IsFunction(Get(f.value, "subscribe"))
  }

  /** The first thing wrong with what was found. */
  predicate Faulty(found: Found, client: Client, failure: ProviderFailure) {
    match found
    case LookupThrew => failure == LookupFailed
    case NothingPublished => failure == Missing
    case Published(_, value) =>
      var f := AsFields(value);
      if f.None? then failure == Misshapen
      else
        var version := ExactLong(Get(f.value, "protocolVersion"), client.readers);
        var schema := ExactLong(Get(f.value, "eventSchemaVersion"), client.readers);
        if version != Some(client.protocolVersion) then failure == if version.None? then Misshapen else WrongVersion
        else if schema != Some(client.eventSchemaVersion) then
          failure == if schema.None? then Misshapen else WrongEventSchema
        else failure == Misshapen && !Usable(found, client)
  }

  /** Handles opened and close calls made, in order. */
  datatype Effect = Opened(handle: nat, raw: nat) | Closed(handle: nat)

  class Subscription {
    const client: Client
    var subscribedProtocol: Option<nat>
    var subscription: Option<nat>
    var effects: seq<Effect>
    var handles: nat

    /** The one handle still open, if any, is the newest and belongs to the protocol
        subscribed to; every older handle was closed exactly once, before the next
        one was opened. */
    predicate Consistent()
      reads this
    {
      && (subscription.Some? <==> subscribedProtocol.Some?)
      && Alternates(effects, handles, subscription, subscribedProtocol)
    }

    constructor (client: Client)
      ensures Consistent() && this.client == client && effects == [] && subscription == subscribedProtocol == None
    {
      this.client := client;
      subscribedProtocol, subscription, effects, handles := None, None, [], 0;
    }

    /** Forgets the handle whether or not closing it throws. */
    method CloseSubscription(closeThrows: bool) returns (recordedError: bool)
      requires Consistent()
      modifies this
      ensures Consistent() && subscription == None && handles == old(handles)
      ensures effects == old(effects) + if old(subscription).Some? then [Closed(old(subscription).value)] else []
      ensures recordedError <==> closeThrows && old(subscription).Some?
    {
      if subscription.None? { return false; }
      assert (effects + [Closed(subscription.value)])[..|effects|] == effects;
      effects := effects + [Closed(subscription.value)];
      subscription, subscribedProtocol := None, None;
      return closeThrows;
    }

    /** The protocol checks, in order. */
    method CheckProtocol(found: Found) returns (r: Result<nat, ProviderFailure>)
      ensures r.Ok? <==> Usable(found, client)
      ensures r.Ok? ==> r.value == found.raw
      ensures r.Err? ==> Faulty(found, client, r.error)
    {
      hide AsFields, ExactLong;
      if found.LookupThrew? { return Err(LookupFailed); }
      if found.NothingPublished? { return Err(Missing); }
      var protocol := StringMap(found.value);
      if protocol.None? { return Err(Misshapen); }
      var f := protocol.value;
      var version := ExactLong(Get(f, "protocolVersion"), client.readers);
      if version.None? { return Err(Misshapen); }
      if version.value != client.protocolVersion { return Err(WrongVersion); }
      var schema := ExactLong(Get(f, "eventSchemaVersion"), client.readers);
      if schema.None? { return Err(Misshapen); }
      if schema.value != client.eventSchemaVersion { return Err(WrongEventSchema); }
      if !IsFunction(Get(f, "status")) || !IsFunction(Get(f, "replay")) || !IsFunction(Get(f, "subscribe")) {
        return Err(Misshapen);
      }
      return Ok(found.raw);
    }

    /** One lookup.  A missing or malformed provider changes nothing; a usable one that
        is already subscribed to changes nothing; any other usable one replaces it. */
    method Provider(found: Found, subscribe: Subscribe, closeThrows: bool) returns (r: Result<nat, ProviderFailure>)
      requires Consistent()
      modifies this
      ensures Consistent()
      ensures r.Ok? <==> Usable(found, client) && (old(subscribedProtocol) == Some(found.raw) || subscribe == Handle)
      ensures r.Ok? ==> subscribedProtocol == Some(found.raw) && r.value == found.raw
      ensures r.Err? && !Usable(found, client) ==> Faulty(found, client, r.error)
      ensures r.Err? && Usable(found, client) ==>
                r.error == if subscribe == NoHandle then NotCloseable else SubscribeFailed
      ensures subscribedProtocol == NextProtocol(old(subscribedProtocol), Lookup(found, subscribe, closeThrows), client)
      ensures !Usable(found, client) || old(subscribedProtocol) == Some(found.raw) ==>
                effects == old(effects) && subscription == old(subscription) && handles == old(handles)
      ensures Usable(found, client) && old(subscribedProtocol) != Some(found.raw) ==>
                effects == old(effects)
                         + (if old(subscription).Some? then [Closed(old(subscription).value)] else [])
                         + (if r.Ok? then [Opened(old(handles), found.raw)] else [])
    {
      hide Usable, Faulty, Consistent;
      r := CheckProtocol(found);
      if r.Err? { return; }
      if subscribedProtocol != Some(r.value) {
        r := Resubscribe(r.value, subscribe, closeThrows);
      }
    }

    /** Closes the old handle first, then asks for a new one. */
    method Resubscribe(raw: nat, subscribe: Subscribe, closeThrows: bool) returns (r: Result<nat, ProviderFailure>)
      requires Consistent()
      modifies this
      ensures Consistent()
      ensures r == match subscribe
                   case Handle => Ok(raw)
                   case NoHandle => Err(NotCloseable)
                   case Throws => Err(SubscribeFailed)
      ensures subscribedProtocol == if subscribe == Handle then Some(raw) else None
      ensures effects == old(effects)
                       + (if old(subscription).Some? then [Closed(old(subscription).value)] else [])
                       + (if r.Ok? then [Opened(old(handles), raw)] else [])
    {
      var _ := CloseSubscription(closeThrows);
      if subscribe == NoHandle { return Err(NotCloseable); }
      if subscribe == Throws { return Err(SubscribeFailed); }
      assert (effects + [Opened(handles, raw)])[..|effects|] == effects;
      effects := effects + [Opened(handles, raw)];
      subscription, subscribedProtocol := Some(handles), Some(raw);
      handles := handles + 1;
      return Ok(raw);
    }
  }

  // ----- Over whole histories -----

  datatype Call = Lookup(found: Found, subscribe: Subscribe, closeThrows: bool) | Close(closeThrows: bool)

  /** The protocol subscribed to after a call, from the one before it. */
  function NextProtocol(current: Option<nat>, call: Call, client: Client): Option<nat> {
    match call
    case Close(_) => None
    case Lookup(found, subscribe, _) =>
      if !Usable(found, client) || current == Some(found.raw) then current
      else if subscribe == Handle then Some(found.raw) else None
  }

  function ProtocolAfter(calls: seq<Call>, client: Client): Option<nat> {
    if calls == [] then None
    else NextProtocol(ProtocolAfter(calls[..|calls| - 1], client), calls[|calls| - 1], client)
  }

  /** Every history of lookups and closes: at most one handle is open, it belongs to the
      protocol the history prescribes, and every other handle was closed exactly once. */
  method Follow(calls: seq<Call>, client: Client) returns (s: Subscription)
    ensures fresh(s) && s.client == client && s.Consistent()
    ensures s.subscribedProtocol == ProtocolAfter(calls, client)
    ensures s.subscription.Some? <==> s.subscribedProtocol.Some?
    ensures OpenHandles(s.effects) == if s.subscription.Some? then {s.subscription.value} else {}
    ensures forall h: nat :: Closings(s.effects, h) == if h < s.handles && s.subscription != Some(h) then 1 else 0
  {
    hide Usable, Alternates, NextProtocol;
    s := new Subscription(client);
    var i := 0;
    while i < |calls|
      invariant 0 <= i <= |calls| && fresh(s) && s.client == client && s.Consistent()
      invariant s.subscribedProtocol == ProtocolAfter(calls[..i], client)
    {
      assert calls[..i + 1][..i] == calls[..i];
      match calls[i] {
        case Lookup(found, subscribe, closeThrows) => var _ := s.Provider(found, subscribe, closeThrows);
        case Close(closeThrows) =>
          NextAfterClose(s.subscribedProtocol, closeThrows, client);
          var _ := s.CloseSubscription(closeThrows);
      }
      i := i + 1;
    }
    assert calls[..i] == calls;
    AtMostOneOpen(s.effects, s.handles, s.subscription, s.subscribedProtocol);
  }

  lemma NextAfterClose(current: Option<nat>, closeThrows: bool, client: Client)
    ensures NextProtocol(current, Close(closeThrows), client) == None
  {
  }

  /** The effects open handles 0, 1, 2, ... and close each before opening the next. */
  predicate Alternates(effects: seq<Effect>, handles: nat, open: Option<nat>, protocol: Option<nat>) {
    if effects == [] then handles == 0 && open.None?
    else
      var before, last := effects[..|effects| - 1], effects[|effects| - 1];
      match last
      case Opened(handle, raw) =>
        handles > 0 && handle == handles - 1 && open == Some(handle) && protocol == Some(raw)
            && Alternates(before, handles - 1, None, None)
      case Closed(handle) =>
        open.None? && handles > 0 && handle == handles - 1
        && before != [] && before[|before| - 1].Opened?
        && Alternates(before, handles, Some(handle), Some(before[|before| - 1].raw))
  }

  function OpenHandles(effects: seq<Effect>): set<nat> {
    if effects == [] then {}
    else match effects[|effects| - 1]
      case Opened(handle, _) => OpenHandles(effects[..|effects| - 1]) + {handle}
      case Closed(handle) => OpenHandles(effects[..|effects| - 1]) - {handle}
  }

  function Closings(effects: seq<Effect>, handle: nat): nat {
    if effects == [] then 0
    else Closings(effects[..|effects| - 1], handle) + if effects[|effects| - 1] == Closed(handle) then 1 else 0
  }

  /** Never two open handles; the open one is the current one; every other handle ever
      opened was closed exactly once. */
  lemma {:induction false} AtMostOneOpen(effects: seq<Effect>, handles: nat, open: Option<nat>, protocol: Option<nat>)
    requires Alternates(effects, handles, open, protocol)
    ensures OpenHandles(effects) == if open.Some? then {open.value} else {}
    ensures forall h: nat :: Closings(effects, h) == if h < handles && open != Some(h) then 1 else 0
  {
    if effects != [] {
      var before, last := effects[..|effects| - 1], effects[|effects| - 1];
      match last {
        case Opened(handle, raw) => AtMostOneOpen(before, handles - 1, None, None);
        case Closed(handle) => AtMostOneOpen(before, handles, Some(handle), Some(before[|before| - 1].raw));
      }
    }
  }
}
