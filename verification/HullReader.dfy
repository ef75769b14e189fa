/**
  The strict reader of the structure-hulls/v1 protocol: a summary, then pages of
  spans pinned to the summary's revision, from a provider that may answer anything.
 */
module HullReader {
  import opened Wrappers
  import opened HullSpans

  const PAGE_LIMIT: nat := 1_024
  const PAGE_BUDGET: nat := 131_072

  /** A value received from the provider; Other is null or any type not listed. */
  datatype Value =
    | Text(text: string)
    | I32(i32: Int32)
    | I64(i64: Int64)
    | Flag(flag: bool)
    | Items(items: seq<Value>)
    | Fields(fields: Object)
    | Other
  type Object = map<string, Value>

  datatype Request =
    | Summary(structureId: string)
    | Page(structureId: string, sourceRevision: Int64, after: string, limit: nat)

  /** Failed: the provider threw, or returned null or something that is no map. */
  datatype Reply = Returned(fields: Object) | Failed

  /** Any provider at all, with a memory: the answer may depend on how many calls
      came before.  The reader's own requests depend only on earlier answers. */
  type Provider = (nat, Request) -> Reply

  datatype HullError =
    | ProtocolUnavailable
    | ProviderFailed
    | Malformed(field: string)
    | WorldNotNamespaced
    | StructureChanged
    | MetadataChanged
    | PageDisappeared
    | ItemsMalformed
    | EmptyPage
    | PageTooLong
    | SpanMalformed
    | SpanInverted
    | NotInOrder
    | OverlapOrTouch
    | CursorStuck
    | HasMoreMalformed
    | ContinuationInconsistent
    | BudgetExceeded
    | SpanCountChanged
    | CardinalityMismatch

  datatype Identity = Identity(world: string, ruleVersion: Int32, revision: Int64)
  datatype Header = Header(identity: Identity, spanCount: Int32, cellCount: Int64)
  datatype Hull = Hull(header: Header, spans: seq<Span>)
  datatype Outcome = Unavailable | Available(hull: Hull)

  // ----- Field readers -----

  function RequiredString(o: Object, name: string): Result<string, HullError> {
    if name in o && o[name].Text? then Ok(o[name].text) else Err(Malformed(name))
  }

  function RequiredInt(o: Object, name: string): Result<Int32, HullError> {
    if name in o && o[name].I32? then Ok(o[name].i32) else Err(Malformed(name))
  }

  function RequiredIntFrom(o: Object, name: string, low: int): Result<Int32, HullError> {
    var i :- RequiredInt(o, name);
    if i < low then Err(Malformed(name)) else Ok(i)
  }

  function RequiredLong(o: Object, name: string): Result<Int64, HullError> {
    if name in o && o[name].I64? && o[name].i64 >= 0 then Ok(o[name].i64) else Err(Malformed(name))
  }

  predicate NamespaceChar(c: char) {
    'a' <= c <= 'z' || '0' <= c <= '9' || c == '_' || c == '.' || c == '-'
  }

  /** [a-z0-9_.-]+:[a-z0-9_./-]+ */
  predicate Namespaced(world: string) {
    exists i :: 0 < i < |world| - 1 && world[i] == ':'
      && (forall j :: 0 <= j < i ==> NamespaceChar(world[j]))
      && (forall j :: i < j < |world| ==> NamespaceChar(world[j]) || world[j] == '/')
  }

  const WORLD_CHARS := "abcdefghijklmnopqrstuvwxyz0123456789_.-"

  predicate InNamespace(c: char) { c in WORLD_CHARS }
  predicate InPath(c: char) { c in WORLD_CHARS || c == '/' }

  /** world is this namespace, a colon and this path. */
  predicate Splits(world: string, namespace: string, path: string) {
    && world == namespace + ":" + path && namespace != "" && path != ""
    && (forall c :: c in namespace ==> InNamespace(c)) && (forall c :: c in path ==> InPath(c))
  }

  /** A namespaced identifier. */
  ghost predicate IsWorld(world: string) { exists namespace, path :: Splits(world, namespace, path) }

  lemma WorldCharAt(i: nat)
    requires i < |WORLD_CHARS|
    ensures |WORLD_CHARS| == 39
    ensures i < 26 ==> WORLD_CHARS[i] == 'a' + i as char
    ensures 26 <= i < 36 ==> WORLD_CHARS[i] == '0' + (i - 26) as char
    ensures i == 36 ==> WORLD_CHARS[i] == '_'
    ensures i == 37 ==> WORLD_CHARS[i] == '.'
    ensures i == 38 ==> WORLD_CHARS[i] == '-'
  {
  }

  lemma WorldChar(c: char)
    ensures NamespaceChar(c) <==> InNamespace(c)
  {
    assert |WORLD_CHARS| == 39;
    if c in WORLD_CHARS {
      var i :| 0 <= i < |WORLD_CHARS| && WORLD_CHARS[i] == c;
      WorldCharAt(i);
    }
    if NamespaceChar(c) {
      WorldCharAt(if 'a' <= c <= 'z' then (c - 'a') as int else if '0' <= c <= '9' then 26 + (c - '0') as int
                  else if c == '_' then 36 else if c == '.' then 37 else 38);
    }
  }

  lemma NamespacedExact(world: string)
    ensures Namespaced(world) <==> IsWorld(world)
  {
    hide NamespaceChar, InNamespace;
    forall c ensures NamespaceChar(c) <==> InNamespace(c) { WorldChar(c); }
    forall c ensures InPath(c) <==> InNamespace(c) || c == '/' { PathChar(c); }
    if Namespaced(world) {
      var i :| 0 < i < |world| - 1 && world[i] == ':'
        && (forall j :: 0 <= j < i ==> NamespaceChar(world[j]))
        && (forall j :: i < j < |world| ==> NamespaceChar(world[j]) || world[j] == '/');
      SplitAt(world, i);
    }
    if IsWorld(world) {
      var namespace, path :| Splits(world, namespace, path);
      JoinAt(world, namespace, path);
    }
  }

  lemma PathChar(c: char)
    ensures InPath(c) <==> InNamespace(c) || c == '/'
  {
  }

  lemma SplitAt(world: string, i: nat)
    requires 0 < i < |world| - 1 && world[i] == ':'
    requires (forall j :: 0 <= j < i ==> InNamespace(world[j])) && forall j :: i < j < |world| ==> InPath(world[j])
    ensures IsWorld(world)
  {
    hide InNamespace, InPath;
    assert world == world[..i] + ":" + world[i + 1..];
    assert Splits(world, world[..i], world[i + 1..]);
  }

  lemma JoinAt(world: string, namespace: string, path: string)
    requires Splits(world, namespace, path)
    ensures var i := |namespace|;
      && 0 < i < |world| - 1 && world[i] == ':'
      && (forall j :: 0 <= j < i ==> InNamespace(world[j]))
      && forall j :: i < j < |world| ==> InPath(world[j])
  {
    hide InNamespace, InPath;
    var i := |namespace|;
    assert forall j :: 0 <= j < i ==> world[j] == namespace[j];
    assert forall j :: i < j < |world| ==> world[j] == path[j - i - 1];
  }

  /** A world is read if and only if it is the text of a namespaced identifier. */
  lemma RequiredWorldExact(o: Object, world: string)
    ensures RequiredWorld(o) == Ok(world) <==> "world" in o && o["world"] == Text(world) && IsWorld(world)
  {
    NamespacedExact(world);
  }

  function RequiredWorld(o: Object): Result<string, HullError> {
    var world :- RequiredString(o, "world");
    if Namespaced(world) then Ok(world) else Err(WorldNotNamespaced)
  }

  function RequireIdentity(o: Object, structureId: string, expected: Option<Identity>): Result<Identity, HullError> {
    var actual :- RequiredString(o, "structureId");
    if actual != structureId then Err(StructureChanged)
    else
      var world :- RequiredWorld(o);
      var ruleVersion :- RequiredIntFrom(o, "ruleVersion", 1);
      var revision :- RequiredLong(o, "sourceRevision");
      var identity := Identity(world, ruleVersion, revision);
      if expected.Some? && expected.value != identity then Err(MetadataChanged) else Ok(identity)
  }

  function Decimal(n: nat): string {
    var digit := ['0' + (n % 10) as char];
    if n < 10 then digit else Decimal(n / 10) + digit
  }

  /** The number that a text of digits spells. */
  function ValueOf(s: string): int {
    if s == "" then 0 else ValueOf(s[..|s| - 1]) * 10 + (s[|s| - 1] as int - '0' as int)
  }

  /** s is the decimal numeral of n, without leading zeros. */
  predicate IsNumeral(s: string, n: nat) {
    && s != "" && (forall c :: c in s ==> '0' <= c <= '9') && (s[0] == '0' ==> |s| == 1)
    && ValueOf(s) == n
  }

  lemma {:induction false} DecimalIsNumeral(n: nat)
    ensures IsNumeral(Decimal(n), n) && (n > 0 ==> Decimal(n)[0] != '0')
  {
    var s := Decimal(n);
    if n >= 10 {
      DecimalIsNumeral(n / 10);
      assert s[..|s| - 1] == Decimal(n / 10);
    } else {
      assert s[..|s| - 1] == "";
    }
  }

  /** The cursor after n spans: the index of the last one, or nothing. */
  function Cursor(n: nat): (c: string)
    ensures n == 0 ==> c == ""
    ensures n > 0 ==> IsNumeral(c, n - 1)
  {
    if n == 0 then "" else DecimalIsNumeral(n - 1); Decimal(n - 1)
  }

  // ----- One page -----

  function ReadSpan(item: Value): Result<Span, HullError> {
    if !item.Fields? then Err(SpanMalformed)
    else
      var x :- RequiredInt(item.fields, "x");
      var y :- RequiredInt(item.fields, "y");
      var minZ :- RequiredInt(item.fields, "minZ");
      var maxZ :- RequiredInt(item.fields, "maxZ");
      Ok(Span(x, y, minZ, maxZ))
  }

  function CheckSpan(previous: Option<Span>, current: Span): Result<Span, HullError> {
    if current.minZ > current.maxZ then Err(SpanInverted)
    else if previous.Some? && Compare(previous.value, current) >= 0 then Err(NotInOrder)
    else if previous.Some? && Touches(previous.value, current) then Err(OverlapOrTouch)
    else Ok(current)
  }

  function Last(spans: seq<Span>): Option<Span> {
    if spans == [] then None else Some(spans[|spans| - 1])
  }

  function ReadItems(items: seq<Value>, spans: seq<Span>): Result<seq<Span>, HullError> {
    if items == [] then Ok(spans)
    else
      var current :- ReadSpan(items[0]);
      var checked :- CheckSpan(Last(spans), current);
      ReadItems(items[1..], spans + [checked])
  }

  function PageItems(o: Object): Result<seq<Value>, HullError> {
    if !("items" in o && o["items"].Items?) then Err(ItemsMalformed)
    else
      var items := o["items"].items;
      if items == [] && "hasMore" in o && o["hasMore"] == Flag(true) then Err(EmptyPage)
      else if |items| > PAGE_LIMIT then Err(PageTooLong)
      else Ok(items)
  }

  /** The checks after a page's spans were appended; the result is hasMore. */
  function PageEnd(o: Object, after: string, now: nat, expected: int): Result<bool, HullError> {
    if !("after" in o && o["after"] == Text(Cursor(now)))
       || (Cursor(now) == after && now < expected) then Err(CursorStuck)
    else if !("hasMore" in o && o["hasMore"].Flag?) then Err(HasMoreMalformed)
    else if o["hasMore"].flag != (now < expected) then Err(ContinuationInconsistent)
    else Ok(o["hasMore"].flag)
  }

  datatype Progress = Progress(spans: seq<Span>, hasMore: bool)

  /** One turn of the paging loop.  A turn that asks for another page has read at
      least one span and still lacks one: this is what bounds the number of pages. */
  function ReadPage(reply: Reply, structureId: string, identity: Identity, expected: int, spans: seq<Span>)
    : (r: Result<Progress, HullError>)
    ensures r.Ok? && r.value.hasMore ==> |spans| < |r.value.spans| < expected
  {
    if reply.Failed? then Err(ProviderFailed)
    else if reply.fields == map[] then Err(PageDisappeared)
    else
      var same :- RequireIdentity(reply.fields, structureId, Some(identity));
      var items :- PageItems(reply.fields);
      var longer :- ReadItems(items, spans);
      ReadItemsLength(items, spans);
      var hasMore :- PageEnd(reply.fields, Cursor(|spans|), |longer|, expected);
      Ok(Progress(longer, hasMore))
  }

  lemma {:induction false} ReadItemsLength(items: seq<Value>, spans: seq<Span>)
    ensures ReadItems(items, spans).Ok? ==> |ReadItems(items, spans).value| == |spans| + |items|
  {
    if items != [] && ReadSpan(items[0]).Ok? {
      ReadItemsLength(items[1..], spans + [ReadSpan(items[0]).value]);
    }
  }

  function PageRequest(structureId: string, identity: Identity, read: nat): Request {
    Page(structureId, identity.revision, Cursor(read), PAGE_LIMIT)
  }

  function ReadPages(p: Provider, call: nat, structureId: string, identity: Identity, expected: int, spans: seq<Span>)
    : Result<seq<Span>, HullError>
    decreases expected - |spans|
  {
    if |spans| >= expected then Ok(spans)
    else
      var reply := p(call, PageRequest(structureId, identity, |spans|));
      var page :- ReadPage(reply, structureId, identity, expected, spans);
      if !page.hasMore then Ok(page.spans)
      else if |page.spans| > PAGE_BUDGET then Err(BudgetExceeded)
      else ReadPages(p, call + 1, structureId, identity, expected, page.spans)
  }

  function ReadHeader(summary: Object, structureId: string): Result<Header, HullError> {
    var identity :- RequireIdentity(summary, structureId, None);
    var spanCount :- RequiredIntFrom(summary, "spanCount", 0);
    var cellCount :- RequiredLong(summary, "cellCount");
    Ok(Header(identity, spanCount, cellCount))
  }

  function SnapshotOf(provider: Option<Provider>, structureId: string): Result<Outcome, HullError> {
    if provider.None? then Err(ProtocolUnavailable)
    else
      var p := provider.value;
      var summary := p(0, Summary(structureId));
      if summary.Failed? then Err(ProviderFailed)
      else if summary.fields == map[] then Ok(Unavailable)
      else
        var header :- ReadHeader(summary.fields, structureId);
        var spans :- ReadPages(p, 1, structureId, header.identity, header.spanCount, []);
        Compared(header, spans)
  }

  /** The final comparison with the advertised counts. */
  function Compared(header: Header, spans: seq<Span>): Result<Outcome, HullError> {
    if |spans| != header.spanCount then Err(SpanCountChanged)
    else if CellCount(spans) != header.cellCount then Err(CardinalityMismatch)
    else Ok(Available(Hull(header, spans)))
  }

  // ----- The reader itself -----

  /** The loop over one page's items.  The 64-bit running sum needs no overflow
      branch: that it fits Int64 is proved, so Math.addExact never throws. */
  method AppendItems(items: seq<Value>, start: seq<Span>, cells: Int64)
    returns (r: Result<(seq<Span>, Int64), HullError>)
    requires Canonical(start) && cells == CellCount(start)
    requires |start| <= PAGE_BUDGET && |items| <= PAGE_LIMIT
    ensures r.Err? ==> ReadItems(items, start) == Err(r.error)
    ensures r.Ok? ==> ReadItems(items, start) == Ok(r.value.0)
    ensures r.Ok? ==> Canonical(r.value.0) && r.value.1 == CellCount(r.value.0)
  {
    var spans, previous := start, Last(start);
    var actualCells: Int64 := cells;
    var index := 0;
    while index < |items|
      invariant 0 <= index <= |items| && |spans| == |start| + index
      invariant Canonical(spans) && previous == Last(spans) && actualCells == CellCount(spans)
      invariant ReadItems(items, start) == ReadItems(items[index..], spans)
    {
      assert items[index..][1..] == items[index + 1..];
      var current :- ReadSpan(items[index]);
      var checked :- CheckSpan(previous, current);
      Extend(spans, checked);
      actualCells := actualCells + Length(checked);
      spans := spans + [checked];
      previous := Some(checked);
      index := index + 1;
    }
    return Ok((spans, actualCells));
  }

  /** Reads one structure. */
  method Snapshot(provider: Option<Provider>, structureId: string) returns (r: Result<Outcome, HullError>)
    ensures r == SnapshotOf(provider, structureId)
  {
    if provider.None? { return Err(ProtocolUnavailable); }
    var p := provider.value;
    var summary := p(0, Summary(structureId));
    if summary.Failed? { return Err(ProviderFailed); }
    if summary.fields == map[] { return Ok(Unavailable); }
    var header :- ReadHeader(summary.fields, structureId);
    var Header(identity, expectedSpans, expectedCells) := header;
    var spans: seq<Span> := [];
    var actualCells: Int64 := 0;
    var after := "";
    var call := 1;
    while |spans| < expectedSpans
      invariant Canonical(spans) && actualCells == CellCount(spans)
      invariant after == Cursor(|spans|)
      invariant |spans| <= PAGE_BUDGET
      invariant ReadPages(p, 1, structureId, identity, expectedSpans, [])
             == ReadPages(p, call, structureId, identity, expectedSpans, spans)
      decreases expectedSpans - |spans|
    {
      var reply := p(call, Page(structureId, identity.revision, after, PAGE_LIMIT));
      if reply.Failed? { return Err(ProviderFailed); }
      var response := reply.fields;
      if response == map[] { return Err(PageDisappeared); }
      var _ :- RequireIdentity(response, structureId, Some(identity));
      var items :- PageItems(response);
      ReadItemsLength(items, spans);
      var read :- AppendItems(items, spans, actualCells);
      var hasMore :- PageEnd(response, after, |read.0|, expectedSpans);
      spans, actualCells := read.0, read.1;
      after := Cursor(|spans|);
      if !hasMore { break; }
      if |spans| > PAGE_BUDGET { return Err(BudgetExceeded); }
      call := call + 1;
    }
    if |spans| != expectedSpans { return Err(SpanCountChanged); }
    if actualCells != expectedCells { return Err(CardinalityMismatch); }
    return Ok(Available(Hull(header, spans)));
  }

  /** Point membership, by a scan of the spans just read. */
  method Contains(provider: Option<Provider>, structureId: string, x: int, y: int, z: int)
    returns (r: Result<(Outcome, bool), HullError>)
    ensures r.Err? ==> SnapshotOf(provider, structureId) == Err(r.error)
    ensures r.Ok? ==> SnapshotOf(provider, structureId) == Ok(r.value.0)
    ensures r.Ok? ==> (r.value.1 <==>
              r.value.0.Available? && Cell(x, y, z) in Cells(r.value.0.hull.spans))
  {
    hide SnapshotOf, Cells, Canonical;
    var snapshot :- Snapshot(provider, structureId);
    if snapshot.Unavailable? { return Ok((snapshot, false)); }
    var spans := snapshot.hull.spans;
    InCells(spans, Cell(x, y, z));
    var index, found := 0, false;
    while index < |spans|
      invariant 0 <= index <= |spans| && !found
      invariant forall i :: 0 <= i < index ==> !Covers(spans[i], Cell(x, y, z))
    {
      var span := spans[index];
      if span.x == x && span.y == y && z >= span.minZ && z <= span.maxZ {
        found := true;
        assert Covers(spans[index], Cell(x, y, z));
        break;
      }
      index := index + 1;
    }
    return Ok((snapshot, found));
  }

  /** Appending a checked span keeps the list canonical and the sum in 64 bits. */
  lemma Extend(spans: seq<Span>, current: Span)
    requires Canonical(spans) && CheckSpan(Last(spans), current).Ok?
    requires |spans| < PAGE_BUDGET + PAGE_LIMIT
    ensures Canonical(spans + [current])
    ensures CellCount(spans + [current]) == CellCount(spans) + Length(current)
    ensures 0 <= CellCount(spans + [current]) <= 0x4_0000_0000_0000
  {
    var longer := spans + [current];
    assert longer[..|spans|] == spans;
    forall i | 0 < i < |longer|
      ensures Compare(longer[i - 1], longer[i]) < 0 && !Touches(longer[i - 1], longer[i])
    {
      if i < |spans| { assert Compare(spans[i - 1], spans[i]) < 0 && !Touches(spans[i - 1], spans[i]); }
    }
    CellCountBound(longer);
  }
}
