/**
  Copying a hostile peer's value into plain JSON under a shared, mutable budget.
 */
module PeerJson {
  import opened Wrappers

  const MAX_JSON_COLLECTION: nat := 4_096
  const MAX_JSON_DEPTH: nat := 16
  const MAX_JSON_NODES: nat := 1_024
  const MAX_JSON_CHARACTERS: nat := 65_536
  const MAX_JSON_STRING: nat := 16_384
  const MAX_JSON_KEY: nat := 1_024
  const MAX_JSON_NUMBER: nat := 128
  const UUID_CHARACTERS: nat := 36

  /** UUID.toString. */
  type UuidText = text: string | |text| == 36 witness "00000000-0000-0000-0000-000000000000"

  datatype Key = Name(name: string) | OtherKey
  datatype Entry = Entry(key: Key, value: Peer)

  /** A value handed over by the peer.  A number is known by the text of its
      toString, whether its double value is finite, and whether BigDecimal reads
      the text.  A collection's claimed size need not be what iteration yields.  Any
      other object is only known to be a function or not. */
  datatype Peer =
    | Null
    | Str(text: string)
    | Bool(flag: bool)
    | Num(digits: string, finite: bool, decimal: bool)
    | Uuid(uuid: UuidText)
    | Map(size: int, entries: seq<Entry>)
    | Coll(size: int, items: seq<Peer>)
    | Unsupported(callable: bool)

  datatype Member = Member(name: string, value: Json)
  datatype Json =
    | JNull
    | JStr(text: string)
    | JBool(flag: bool)
    | JNum(digits: string)
    | JObject(members: seq<Member>)
    | JArray(items: seq<Json>)

  /** All but NumberUnreadable are contract failures; that one is the
      NumberFormatException of BigDecimal. */
  datatype JsonFailure =
    | TooDeep | TooManyNodes | TooManyCharacters | StringTooLong | NumberNotFinite
    | NumberUnreadable | MapTooBig | KeyNotString | ListTooBig | UnsupportedValue

  // ----- What the limits mean, without any budget -----

  predicate KeyFits(key: Key) { key.Name? && |key.name| <= MAX_JSON_KEY }

  /** Depth and per-value limits. */
  predicate Fits(v: Peer, depth: nat) {
    && depth <= MAX_JSON_DEPTH
    && match v
       case Null => true
       case Bool(_) => true
       case Uuid(_) => true
       case Str(text) => |text| <= MAX_JSON_STRING
       case Num(digits, finite, decimal) => |digits| <= MAX_JSON_NUMBER && finite && decimal
       case Map(size, entries) =>
         && size <= MAX_JSON_COLLECTION && |entries| <= MAX_JSON_COLLECTION
         && forall e :: e in entries ==> KeyFits(e.key) && Fits(e.value, depth + 1)
       case Coll(size, items) =>
         && size <= MAX_JSON_COLLECTION && |items| <= MAX_JSON_COLLECTION
         && forall item :: item in items ==> Fits(item, depth + 1)
       case Unsupported(_) => false
  }

  /** BigDecimal reads every number in the tree. */
  predicate Readable(v: Peer) {
    match v
    case Num(_, _, decimal) => decimal
    case Map(_, entries) => forall e :: e in entries ==> Readable(e.value)
    case Coll(_, items) => forall item :: item in items ==> Readable(item)
    case _ => true
  }

  function Nodes(v: Peer): nat {
    match v
    case Map(_, entries) => 1 + EntryNodes(entries)
    case Coll(_, items) => 1 + ItemNodes(items)
    case _ => 1
  }

  function EntryNodes(entries: seq<Entry>): nat {
    if entries == [] then 0 else EntryNodes(entries[..|entries| - 1]) + NodesOfEntry(entries[|entries| - 1])
  }

  function NodesOfEntry(e: Entry): nat { Nodes(e.value) }

  function ItemNodes(items: seq<Peer>): nat {
    if items == [] then 0 else ItemNodes(items[..|items| - 1]) + Nodes(items[|items| - 1])
  }

  function Characters(v: Peer): nat {
    match v
    case Str(text) => |text|
    case Num(digits, _, _) => |digits|
    case Uuid(_) => UUID_CHARACTERS
    case Map(_, entries) => EntryCharacters(entries)
    case Coll(_, items) => ItemCharacters(items)
    case _ => 0
  }

  function EntryCharacters(entries: seq<Entry>): nat {
    if entries == [] then 0
    else EntryCharacters(entries[..|entries| - 1]) + CharactersOfEntry(entries[|entries| - 1])
  }

  function CharactersOfEntry(e: Entry): nat {
    (if e.key.Name? then |e.key.name| else 0) + Characters(e.value)
  }

  function ItemCharacters(items: seq<Peer>): nat {
    if items == [] then 0 else ItemCharacters(items[..|items| - 1]) + Characters(items[|items| - 1])
  }

  /** JsonObject.add: a repeated name keeps its place and takes the new value. */
  function Put(members: seq<Member>, name: string, value: Json): seq<Member> {
    if members == [] then [Member(name, value)]
    else if members[0].name == name then [Member(name, value)] + members[1..]
    else [members[0]] + Put(members[1..], name, value)
  }

  function Copy(v: Peer): Json {
    match v
    case Null => JNull
    case Str(text) => JStr(text)
    case Bool(flag) => JBool(flag)
    case Num(digits, _, _) => JNum(digits)
    case Uuid(uuid) => JStr(uuid)
    case Map(_, entries) => JObject(CopyEntries(entries))
    case Coll(_, items) => JArray(CopyItems(items))
    case Unsupported(_) => JNull
  }

  function CopyEntries(entries: seq<Entry>): seq<Member> {
    if entries == [] then []
    else
      var last := CopyEntry(entries[|entries| - 1]);
      Put(CopyEntries(entries[..|entries| - 1]), last.name, last.value)
  }

  function CopyEntry(e: Entry): Member {
    Member(if e.key.Name? then e.key.name else "", Copy(e.value))
  }

  function CopyItems(items: seq<Peer>): seq<Json> {
    if items == [] then [] else CopyItems(items[..|items| - 1]) + [Copy(items[|items| - 1])]
  }

  /** The whole tree is acceptable under a budget. */
  predicate Affordable(v: Peer, depth: nat, nodes: int, characters: int) {
    Fits(v, depth) && Nodes(v) <= nodes && Characters(v) <= characters
  }

  // ----- The limits, part by part -----

  /** The part of a value that these positions lead to. */
  function Part(v: Peer, path: seq<nat>): Option<Peer>
    decreases path
  {
    if path == [] then Some(v)
    else if v.Map? && path[0] < |v.entries| then Part(v.entries[path[0]].value, path[1..])
    else if v.Coll? && path[0] < |v.items| then Part(v.items[path[0]], path[1..])
    else None
  }

  /** One part, without what it contains: short texts, readable finite numbers, and collections
      that neither claim nor have more than 4,096 items. */
  predicate Modest(v: Peer) {
    match v
    case Str(text) => |text| <= 16_384
    case Num(digits, finite, decimal) => |digits| <= 128 && finite && decimal
    case Map(size, entries) =>
      && size <= 4_096 && |entries| <= 4_096
      && forall i :: 0 <= i < |entries| ==> entries[i].key.Name? && |entries[i].key.name| <= 1_024
    case Coll(size, items) => size <= 4_096 && |items| <= 4_096
    case Unsupported(_) => false
    case _ => true
  }

  /** A value is within the limits exactly when each of its parts is, at depth 16 at most. */
  lemma {:induction false} FitsExact(v: Peer, depth: nat)
    ensures Fits(v, depth) <==>
              forall path :: Part(v, path).Some? ==> depth + |path| <= 16 && Modest(Part(v, path).value)
  {
    hide Modest;
    if Fits(v, depth) {
      forall path | Part(v, path).Some? ensures depth + |path| <= 16 && Modest(Part(v, path).value) {
        PartFits(v, depth, path);
      }
    } else {
      var path := Misfit(v, depth);
    }
  }

  lemma {:induction false} PartFits(v: Peer, depth: nat, path: seq<nat>)
    requires Fits(v, depth) && Part(v, path).Some?
    ensures depth + |path| <= 16 && Modest(Part(v, path).value)
    decreases path
  {
    if path != [] {
      var i := path[0];
      if v.Map? { assert v.entries[i] in v.entries; } else { assert v.items[i] in v.items; }
      PartFits(if v.Map? then v.entries[i].value else v.items[i], depth + 1, path[1..]);
    } else if v.Map? {
      assert forall i :: 0 <= i < |v.entries| ==> v.entries[i] in v.entries;
    }
  }

  lemma {:induction false} Misfit(v: Peer, depth: nat) returns (path: seq<nat>)
    requires !Fits(v, depth)
    ensures Part(v, path).Some? && !(depth + |path| <= 16 && Modest(Part(v, path).value))
    decreases v
  {
    path := [];
    if depth <= 16 && Modest(v) {
      match v {
        case Map(_, entries) =>
          var e :| e in entries && !(KeyFits(e.key) && Fits(e.value, depth + 1));
          var i: nat :| i < |entries| && entries[i] == e;
          var rest := Misfit(e.value, depth + 1);
          path := [i] + rest;
          assert path[1..] == rest;
        case Coll(_, items) =>
          var item :| item in items && !Fits(item, depth + 1);
          var i: nat :| i < |items| && items[i] == item;
          var rest := Misfit(item, depth + 1);
          path := [i] + rest;
          assert path[1..] == rest;
      }
    }
  }

  // ----- Prefix sums -----

  lemma {:induction false} EntryPrefix(entries: seq<Entry>, i: nat)
    requires i < |entries|
    ensures entries[..i + 1][..i] == entries[..i]
    ensures EntryNodes(entries[..i + 1]) == EntryNodes(entries[..i]) + NodesOfEntry(entries[i]) <= EntryNodes(entries)
    ensures EntryCharacters(entries[..i + 1])
         == EntryCharacters(entries[..i]) + CharactersOfEntry(entries[i])
         <= EntryCharacters(entries)
    decreases |entries|
  {
    var n := |entries| - 1;
    assert entries[..i + 1][..i] == entries[..i];
    if i < n {
      assert entries[..n][..i + 1] == entries[..i + 1] && entries[..n][..i] == entries[..i];
      EntryPrefix(entries[..n], i);
    } else {
      assert entries[..i + 1] == entries;
    }
  }

  lemma {:induction false} ItemPrefix(items: seq<Peer>, i: nat)
    requires i < |items|
    ensures items[..i + 1][..i] == items[..i]
    ensures ItemNodes(items[..i + 1]) == ItemNodes(items[..i]) + Nodes(items[i]) <= ItemNodes(items)
    ensures ItemCharacters(items[..i + 1]) == ItemCharacters(items[..i]) + Characters(items[i]) <= ItemCharacters(items)
    ensures CopyItems(items[..i + 1]) == CopyItems(items[..i]) + [Copy(items[i])]
    decreases |items|
  {
    hide Nodes, Characters, Copy;
    var n := |items| - 1;
    assert items[..i + 1][..i] == items[..i];
    if i < n {
      assert items[..n][..i + 1] == items[..i + 1] && items[..n][..i] == items[..i];
      ItemPrefix(items[..n], i);
    } else {
      assert items[..i + 1] == items;
    }
  }

  // ----- The copy keeps the structure -----

  /** Every map in the tree iterates with pairwise different string keys. */
  predicate Proper(v: Peer) {
    match v
    case Map(_, entries) =>
      && (forall e :: e in entries ==> e.key.Name? && Proper(e.value))
      && (forall i, j :: 0 <= i < j < |entries| ==> entries[i].key != entries[j].key)
    case Coll(_, items) => forall item :: item in items ==> Proper(item)
    case _ => true
  }

  function JsonNodes(j: Json): nat {
    match j
    case JObject(members) => 1 + MemberNodes(members)
    case JArray(items) => 1 + ElementNodes(items)
    case _ => 1
  }

  function MemberNodes(members: seq<Member>): nat {
    if members == [] then 0 else MemberNodes(members[..|members| - 1]) + NodesOfMember(members[|members| - 1])
  }

  function NodesOfMember(m: Member): nat { JsonNodes(m.value) }

  /** All the text in a JSON value: names, strings and numbers. */
  function JsonCharacters(j: Json): nat {
    match j
    case JStr(text) => |text|
    case JNum(digits) => |digits|
    case JObject(members) => MemberCharacters(members)
    case JArray(items) => ElementCharacters(items)
    case _ => 0
  }

  function MemberCharacters(members: seq<Member>): nat {
    if members == [] then 0 else MemberCharacters(members[..|members| - 1]) + CharactersOfMember(members[|members| - 1])
  }

  function CharactersOfMember(m: Member): nat { |m.name| + JsonCharacters(m.value) }

  function ElementCharacters(items: seq<Json>): nat {
    if items == [] then 0 else ElementCharacters(items[..|items| - 1]) + JsonCharacters(items[|items| - 1])
  }

  function ElementNodes(items: seq<Json>): nat {
    if items == [] then 0 else ElementNodes(items[..|items| - 1]) + JsonNodes(items[|items| - 1])
  }

  lemma {:induction false} PutNew(members: seq<Member>, name: string, value: Json)
    requires forall m :: m in members ==> m.name != name
    ensures Put(members, name, value) == members + [Member(name, value)]
  {
    if members != [] {
      assert members[0] in members;
      PutNew(members[1..], name, value);
    }
  }

  /** One member per entry, in iteration order, each with the copied value. */
  lemma {:induction false} MembersFollowEntries(entries: seq<Entry>)
    requires forall i :: 0 <= i < |entries| ==> entries[i].key.Name?
    requires forall i, j :: 0 <= i < j < |entries| ==> entries[i].key != entries[j].key
    ensures |CopyEntries(entries)| == |entries|
    ensures forall i :: 0 <= i < |entries| ==> CopyEntries(entries)[i] == CopyEntry(entries[i])
  {
    hide Copy, Put;
    if entries != [] {
      var n := |entries| - 1;
      MembersFollowEntries(entries[..n]);
      var init, last := CopyEntries(entries[..n]), CopyEntry(entries[n]);
      forall m | m in init ensures m.name != last.name {
        var i :| 0 <= i < |init| && init[i] == m;
        assert m == CopyEntry(entries[..n][i]);
      }
      PutNew(init, last.name, last.value);
    }
  }

  // ----- What a copy is -----

  function ReadMember(members: seq<Member>, name: string): Option<Json> {
    if members == [] then None
    else if members[0].name == name then Some(members[0].value)
    else ReadMember(members[1..], name)
  }

  predicate DistinctNames(members: seq<Member>) {
    forall i, j :: 0 <= i < j < |members| ==> members[i].name != members[j].name
  }

  /** No later entry has this key. */
  predicate IsLast(entries: seq<Entry>, i: nat)
    requires i < |entries|
  {
    forall k :: i < k < |entries| ==> entries[k].key != entries[i].key
  }

  /** j is the peer's value as JSON: the same leaves, lists item by item, and for maps
      one member per key, holding what the last entry of that key holds. */
  ghost predicate Mirrors(v: Peer, j: Json)
    decreases v
  {
    match v
    case Null => j.JNull?
    case Str(text) => j == JStr(text)
    case Bool(flag) => j == JBool(flag)
    case Num(digits, _, _) => j == JNum(digits)
    case Uuid(uuid) => j == JStr(uuid)
    case Coll(_, items) =>
      j.JArray? && |j.items| == |items| && forall i :: 0 <= i < |items| ==> Mirrors(items[i], j.items[i])
    case Map(_, entries) =>
      && j.JObject? && DistinctNames(j.members)
      && (forall m :: m in j.members ==> exists e :: e in entries && e.key == Name(m.name))
      && forall i :: 0 <= i < |entries| && IsLast(entries, i) ==>
           exists m :: m in j.members && Name(m.name) == entries[i].key && Mirrors(entries[i].value, m.value)
    case Unsupported(_) => false
  }

  lemma {:induction false} PutExact(members: seq<Member>, name: string, value: Json)
    requires DistinctNames(members)
    ensures DistinctNames(Put(members, name, value))
    ensures forall m :: m in Put(members, name, value) <==>
              m == Member(name, value) || (m in members && m.name != name)
  {
    if members != [] {
      var first, rest := members[0], members[1..];
      assert members == [first] + rest;
      if first.name == name {
        assert forall m :: m in rest ==> m.name != name;
      } else {
        PutExact(rest, name, value);
        assert forall m :: m in rest ==> m.name != first.name;
        DistinctCons(first, Put(rest, name, value));
      }
    }
  }

  lemma DistinctCons(first: Member, rest: seq<Member>)
    requires DistinctNames(rest) && forall m :: m in rest ==> m.name != first.name
    ensures DistinctNames([first] + rest)
  {
    assert forall i :: 0 <= i < |rest| ==> rest[i] in rest;
  }

  /** Members in terms of entries, repeated keys included. */
  lemma {:induction false} LastEntriesStay(entries: seq<Entry>)
    requires forall e :: e in entries ==> e.key.Name?
    ensures DistinctNames(CopyEntries(entries))
    ensures forall m :: m in CopyEntries(entries) ==> exists e :: e in entries && e.key == Name(m.name)
    ensures forall i :: 0 <= i < |entries| && IsLast(entries, i) ==> CopyEntry(entries[i]) in CopyEntries(entries)
  {
    hide Put, Copy;
    if entries != [] {
      var n := |entries| - 1;
      var init, last := entries[..n], CopyEntry(entries[n]);
      assert entries == init + [entries[n]];
      LastEntriesStay(init);
      PutExact(CopyEntries(init), last.name, last.value);
      forall i | 0 <= i < n && IsLast(entries, i) ensures CopyEntry(entries[i]) in CopyEntries(entries) {
        assert init[i] == entries[i] && IsLast(init, i);
        assert entries[n].key != entries[i].key;
      }
      forall m | m in CopyEntries(entries) ensures exists e :: e in entries && e.key == Name(m.name) {
        if m == last {
          assert entries[n] in entries;
        } else {
          var e :| e in init && e.key == Name(m.name);
          assert e in entries;
        }
      }
    }
  }

  lemma {:induction false} ItemsCopied(items: seq<Peer>)
    ensures |CopyItems(items)| == |items| && forall i :: 0 <= i < |items| ==> CopyItems(items)[i] == Copy(items[i])
  {
    if items != [] { ItemsCopied(items[..|items| - 1]); }
  }

  /** Whatever can be copied is mirrored by its copy. */
  lemma {:induction false} CopyMirrors(v: Peer, depth: nat)
    requires Fits(v, depth)
    ensures Mirrors(v, Copy(v))
    decreases v
  {
    match v {
      case Map(_, entries) =>
        LastEntriesStay(entries);
        forall i | 0 <= i < |entries| && IsLast(entries, i)
          ensures exists m :: m in CopyEntries(entries) && Name(m.name) == entries[i].key
                      && Mirrors(entries[i].value, m.value)
        {
          assert entries[i] in entries;
          CopyMirrors(entries[i].value, depth + 1);
          assert CopyEntry(entries[i]) in CopyEntries(entries);
        }
      case Coll(_, items) =>
        ItemsCopied(items);
        forall i | 0 <= i < |items| ensures Mirrors(items[i], Copy(items[i])) {
          assert items[i] in items;
          CopyMirrors(items[i], depth + 1);
        }
      case _ =>
    }
  }

  // ----- How much is copied -----

  /** The copy of a proper tree has as many nodes and as much text as was charged for the tree. */
  lemma {:induction false} CopyKeepsTotals(v: Peer)
    requires Proper(v)
    ensures JsonNodes(Copy(v)) == Nodes(v) && JsonCharacters(Copy(v)) == Characters(v)
    decreases v, 1
  {
    match v {
      case Map(_, entries) => CopyKeepsEntryTotals(v, |entries|); assert entries[..|entries|] == entries;
      case Coll(_, items) => CopyKeepsItemTotals(v, |items|); assert items[..|items|] == items;
      case _ =>
    }
  }

  lemma CopyEntriesNext(entries: seq<Entry>, n: nat)
    requires n < |entries|
    requires forall i :: 0 <= i < |entries| ==> entries[i].key.Name?
    requires forall i, j :: 0 <= i < j < |entries| ==> entries[i].key != entries[j].key
    ensures CopyEntries(entries[..n + 1]) == CopyEntries(entries[..n]) + [CopyEntry(entries[n])]
  {
    hide CopyEntry, CopyEntries;
    MembersFollowEntries(entries[..n]);
    MembersFollowEntries(entries[..n + 1]);
    assert forall i :: 0 <= i < n ==> entries[..n + 1][i] == entries[..n][i];
  }

  lemma {:induction false} CopyKeepsEntryTotals(v: Peer, n: nat)
    requires v.Map? && Proper(v) && n <= |v.entries|
    ensures MemberNodes(CopyEntries(v.entries[..n])) == EntryNodes(v.entries[..n])
    ensures MemberCharacters(CopyEntries(v.entries[..n])) == EntryCharacters(v.entries[..n])
    decreases v, 0, n
  {
    if n > 0 {
      var init, entry := v.entries[..n - 1], v.entries[n - 1];
      assert entry in v.entries && v.entries[..n][..n - 1] == init;
      CopyKeepsEntryTotals(v, n - 1);
      CopyKeepsTotals(entry.value);
      CopyEntriesNext(v.entries, n - 1);
      hide Copy, Nodes, Characters, Put, CopyEntries;
      var members, last := CopyEntries(init), CopyEntry(entry);
      assert (members + [last])[..|members|] == members;
    }
  }

  lemma {:induction false} CopyKeepsItemTotals(v: Peer, n: nat)
    requires v.Coll? && Proper(v) && n <= |v.items|
    ensures ElementNodes(CopyItems(v.items[..n])) == ItemNodes(v.items[..n])
    ensures ElementCharacters(CopyItems(v.items[..n])) == ItemCharacters(v.items[..n])
    decreases v, 0, n
  {
    if n > 0 {
      var init, item := v.items[..n - 1], v.items[n - 1];
      assert item in v.items && v.items[..n][..n - 1] == init;
      CopyKeepsItemTotals(v, n - 1);
      CopyKeepsTotals(item);
      hide Copy, Nodes, Characters;
      var values := CopyItems(v.items[..n]);
      assert values == CopyItems(init) + [Copy(item)] && values[..|values| - 1] == CopyItems(init);
    }
  }

  // ----- The budget and the copier -----

  class JsonBudget {
    var remainingNodes: int
    var remainingCharacters: int
    var usedNodes: nat

    constructor (nodes: nat, characters: nat)
      ensures remainingNodes == nodes && remainingCharacters == characters && usedNodes == 0
    {
      remainingNodes, remainingCharacters, usedNodes := nodes, characters, 0;
    }

    /** What was claimed since the budget stood at these three values. */
    ghost predicate Spent(nodes: int, characters: int, used: nat, claimedNodes: nat, claimedCharacters: nat)
      reads this
    {
      && remainingNodes == nodes - claimedNodes
      && remainingCharacters == characters - claimedCharacters
      && usedNodes == used + claimedNodes
    }

    method ClaimNode() returns (ok: bool)
      modifies this
      ensures ok <==> old(remainingNodes) > 0
      ensures remainingNodes == old(remainingNodes) - 1 && remainingCharacters == old(remainingCharacters)
      ensures usedNodes == old(usedNodes) + if ok then 1 else 0
    {
      remainingNodes := remainingNodes - 1;
      if remainingNodes + 1 <= 0 { return false; }
      usedNodes := usedNodes + 1;
      return true;
    }

    method ClaimCharacters(characters: nat) returns (ok: bool)
      modifies this
      ensures ok <==> characters <= old(remainingCharacters)
      ensures remainingCharacters == old(remainingCharacters) - characters
      ensures remainingNodes == old(remainingNodes) && usedNodes == old(usedNodes)
    {
      remainingCharacters := remainingCharacters - characters;
      return remainingCharacters >= 0;
    }
  }

  /** Copies v, or fails: exactly when a limit of some value, the depth, or one of
      the two shared totals is exceeded.  Success costs exactly the tree's totals. */
  method ToJson(raw: Peer, depth: nat, budget: JsonBudget) returns (r: Result<Json, JsonFailure>)
    requires budget.remainingCharacters >= 0
    modifies budget
    ensures r.Ok? <==> Affordable(raw, depth, old(budget.remainingNodes), old(budget.remainingCharacters))
    ensures r.Ok? ==> Mirrors(raw, r.value) && r.value == Copy(raw)
    ensures r.Ok? ==> budget.Spent(old(budget.remainingNodes), old(budget.remainingCharacters), old(budget.usedNodes),
                                   Nodes(raw), Characters(raw))
    ensures r.Err? && r.error.NumberUnreadable? ==> !Readable(raw)
    decreases raw, 1
  {
    hide Mirrors;
    if Fits(raw, depth) { CopyMirrors(raw, depth); }
    if depth > MAX_JSON_DEPTH { return Err(TooDeep); }
    var ok := budget.ClaimNode();
    if !ok { return Err(TooManyNodes); }
    match raw {
      case Null => return Ok(JNull);
      case Str(text) =>
        if |text| > MAX_JSON_STRING { return Err(StringTooLong); }
        ok := budget.ClaimCharacters(|text|);
        if !ok { return Err(TooManyCharacters); }
        return Ok(JStr(text));
      case Bool(flag) => return Ok(JBool(flag));
      case Num(digits, finite, decimal) =>
        if |digits| > MAX_JSON_NUMBER || !finite { return Err(NumberNotFinite); }
        ok := budget.ClaimCharacters(|digits|);
        if !ok { return Err(TooManyCharacters); }
        if !decimal { return Err(NumberUnreadable); }
        return Ok(JNum(digits));
      case Uuid(uuid) =>
        ok := budget.ClaimCharacters(UUID_CHARACTERS);
        if !ok { return Err(TooManyCharacters); }
        return Ok(JStr(uuid));
      case Map(size, entries) =>
        if size > MAX_JSON_COLLECTION { return Err(MapTooBig); }
        var members :- MembersToJson(entries, depth + 1, budget, raw);
        return Ok(JObject(members));
      case Coll(size, items) =>
        if size > MAX_JSON_COLLECTION { return Err(ListTooBig); }
        var values :- ItemsToJson(items, depth + 1, budget);
        return Ok(JArray(values));
      case Unsupported(_) => return Err(UnsupportedValue);
    }
  }

  predicate AffordableEntries(entries: seq<Entry>, depth: nat, nodes: int, characters: int) {
    && |entries| <= MAX_JSON_COLLECTION
    && (forall e :: e in entries ==> KeyFits(e.key) && Fits(e.value, depth))
    && EntryNodes(entries) <= nodes && EntryCharacters(entries) <= characters
  }

  predicate AffordableItems(items: seq<Peer>, depth: nat, nodes: int, characters: int) {
    && |items| <= MAX_JSON_COLLECTION
    && (forall item :: item in items ==> Fits(item, depth))
    && ItemNodes(items) <= nodes && ItemCharacters(items) <= characters
  }

  lemma NoEntries()
    ensures EntryNodes([]) == EntryCharacters([]) == 0 && CopyEntries([]) == []
  {
  }

  lemma CopyPrefix(entries: seq<Entry>, i: nat)
    requires i < |entries|
    ensures entries[i].key.Name? ==>
              CopyEntries(entries[..i + 1])
                == Put(CopyEntries(entries[..i]), entries[i].key.name, Copy(entries[i].value))
  {
    assert entries[..i + 1][..i] == entries[..i];
  }

  lemma KeyMust(key: Key)
    ensures KeyFits(key) <==> key.Name? && |key.name| <= MAX_JSON_KEY
  {
  }

  /** The loop over a map's entries. */
  method MembersToJson(entries: seq<Entry>, depth: nat, budget: JsonBudget, ghost raw: Peer)
    returns (r: Result<seq<Member>, JsonFailure>)
    requires raw.Map? && raw.entries == entries
    requires budget.remainingNodes >= 0 && budget.remainingCharacters >= 0
    modifies budget
    ensures r.Ok? <==> AffordableEntries(entries, depth, old(budget.remainingNodes), old(budget.remainingCharacters))
    ensures r.Ok? ==> r.value == CopyEntries(entries)
    ensures r.Ok? ==> budget.Spent(old(budget.remainingNodes), old(budget.remainingCharacters), old(budget.usedNodes),
                                   EntryNodes(entries), EntryCharacters(entries))
    ensures r.Err? && r.error.NumberUnreadable? ==> exists e :: e in entries && !Readable(e.value)
    decreases raw, 0
  {
    hide Fits, Readable, Nodes, Characters, Copy, Put, EntryNodes, EntryCharacters, CopyEntries, KeyFits;
    NoEntries();
    assert entries[..0] == [];
    var members: seq<Member> := [];
    var count := 0;
    while count < |entries|
      invariant 0 <= count <= |entries| && count <= MAX_JSON_COLLECTION
      invariant forall e :: e in entries[..count] ==> KeyFits(e.key) && Fits(e.value, depth)
      invariant members == CopyEntries(entries[..count])
      invariant budget.Spent(old(budget.remainingNodes), old(budget.remainingCharacters), old(budget.usedNodes),
                             EntryNodes(entries[..count]), EntryCharacters(entries[..count]))
      invariant budget.remainingNodes >= 0 && budget.remainingCharacters >= 0
    {
      var entry := entries[count];
      assert entry in entries;
      EntryPrefix(entries, count);
      CopyPrefix(entries, count);
      KeyMust(entry.key);
      assert entries[..count + 1] == entries[..count] + [entry];
      if entry.key.OtherKey? { return Err(KeyNotString); }
      var key := entry.key.name;
      count := count + 1;
      if count > MAX_JSON_COLLECTION || |key| > MAX_JSON_KEY { return Err(MapTooBig); }
      var ok := budget.ClaimCharacters(|key|);
      if !ok { return Err(TooManyCharacters); }
      var value :- ToJson(entry.value, depth, budget);
      members := Put(members, key, value);
    }
    assert entries[..count] == entries;
    return Ok(members);
  }

  lemma NoItems()
    ensures ItemNodes([]) == ItemCharacters([]) == 0 && CopyItems([]) == []
  {
  }

  /** The loop over a list's items. */
  method ItemsToJson(items: seq<Peer>, depth: nat, budget: JsonBudget) returns (r: Result<seq<Json>, JsonFailure>)
    requires budget.remainingNodes >= 0 && budget.remainingCharacters >= 0
    modifies budget
    ensures r.Ok? <==> AffordableItems(items, depth, old(budget.remainingNodes), old(budget.remainingCharacters))
    ensures r.Ok? ==> r.value == CopyItems(items)
    ensures r.Ok? ==> budget.Spent(old(budget.remainingNodes), old(budget.remainingCharacters), old(budget.usedNodes),
                                   ItemNodes(items), ItemCharacters(items))
    ensures r.Err? && r.error.NumberUnreadable? ==> exists item :: item in items && !Readable(item)
    decreases items
  {
    hide Fits, Readable, Nodes, Characters, Copy, CopyItems, ItemNodes, ItemCharacters;
    NoItems();
    assert items[..0] == [];
    var values: seq<Json> := [];
    var count := 0;
    while count < |items|
      invariant 0 <= count <= |items| && count <= MAX_JSON_COLLECTION
      invariant forall item :: item in items[..count] ==> Fits(item, depth)
      invariant values == CopyItems(items[..count])
      invariant budget.Spent(old(budget.remainingNodes), old(budget.remainingCharacters), old(budget.usedNodes),
                             ItemNodes(items[..count]), ItemCharacters(items[..count]))
      invariant budget.remainingNodes >= 0 && budget.remainingCharacters >= 0
    {
      var item := items[count];
      assert item in items;
      ItemPrefix(items, count);
      assert items[..count + 1] == items[..count] + [item];
      count := count + 1;
      if count > MAX_JSON_COLLECTION { return Err(ListTooBig); }
      var value :- ToJson(item, depth, budget);
      values := values + [value];
    }
    assert items[..count] == items;
    return Ok(values);
  }
}
