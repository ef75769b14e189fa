/**
  What an accepted hull means, and which providers are accepted.

  Honest providers are described without reference to the reader: a summary, and
  a cut of the span list into pages with the right cursors and flags.
 */
module HullProtocol {
  import opened Wrappers
  import opened HullSpans
  import opened HullReader

  predicate Holds(o: Object, name: string, value: Value) { name in o && o[name] == value }

  ghost predicate Identifies(o: Object, structureId: string, identity: Identity) {
    && Holds(o, "structureId", Text(structureId))
    && Holds(o, "world", Text(identity.world)) && IsWorld(identity.world)
    && Holds(o, "ruleVersion", I32(identity.ruleVersion)) && identity.ruleVersion >= 1
    && Holds(o, "sourceRevision", I64(identity.revision)) && identity.revision >= 0
  }

  predicate Encodes(item: Value, s: Span) {
    && item.Fields?
    && Holds(item.fields, "x", I32(s.x)) && Holds(item.fields, "y", I32(s.y))
    && Holds(item.fields, "minZ", I32(s.minZ)) && Holds(item.fields, "maxZ", I32(s.maxZ))
  }

  predicate EncodesAll(items: seq<Value>, page: seq<Span>) {
    |items| == |page| && forall i :: 0 <= i < |page| ==> Encodes(items[i], page[i])
  }

  ghost predicate IsPage(reply: Reply, structureId: string, identity: Identity, page: seq<Span>, total: nat,
      more: bool) {
    && reply.Returned?
    && Identifies(reply.fields, structureId, identity)
    && "items" in reply.fields && reply.fields["items"].Items?
    && EncodesAll(reply.fields["items"].items, page)
    && Holds(reply.fields, "after", Text(Cursor(total)))
    && Holds(reply.fields, "hasMore", Flag(more))
  }

  function Joined(pages: seq<seq<Span>>): seq<Span> {
    if pages == [] then [] else Joined(pages[..|pages| - 1]) + pages[|pages| - 1]
  }

  /** Number of spans in the first k pages. */
  function Through(pages: seq<seq<Span>>, k: nat): nat
    requires k <= |pages|
  {
    |Joined(pages[..k])|
  }

  /** The k-th page request is answered with the k-th page of the cut. */
  ghost predicate ServesPage(p: Provider, structureId: string, identity: Identity, expected: int, pages: seq<seq<Span>>,
      k: nat)
    requires k < |pages|
  {
    && 1 <= |pages[k]| <= 1_024
    && IsPage(p(k + 1, Page(structureId, identity.revision, Cursor(Through(pages, k)), 1_024)), structureId, identity,
              pages[k], Through(pages, k + 1), Through(pages, k + 1) < expected)
  }

  ghost predicate ServesSummary(p: Provider, structureId: string, hull: Hull) {
    var summary := p(0, Summary(structureId));
    && summary.Returned?
    && Identifies(summary.fields, structureId, hull.header.identity)
    && Holds(summary.fields, "spanCount", I32(hull.header.spanCount))
    && Holds(summary.fields, "cellCount", I64(hull.header.cellCount))
  }

  /** The hull's advertised counts are the true ones and its list is canonical. */
  ghost predicate Truthful(hull: Hull) {
    && Canonical(hull.spans)
    && hull.header.spanCount == |hull.spans|
    && hull.header.cellCount == |Cells(hull.spans)|
  }

  /** p serves the hull, cut into these non-empty pages. */
  ghost predicate Honest(p: Provider, structureId: string, hull: Hull, pages: seq<seq<Span>>) {
    && Truthful(hull)
    && hull.spans == Joined(pages)
    && ServesSummary(p, structureId, hull)
    && forall k :: 0 <= k < |pages| ==>
         ServesPage(p, structureId, hull.header.identity, hull.header.spanCount, pages, k)
  }

  /** The span budget as the code applies it: to all pages but the last. */
  predicate WithinBudget(pages: seq<seq<Span>>) {
    pages == [] || Through(pages, |pages| - 1) <= 131_072
  }

  // ----- Cursors -----

  lemma {:induction false} DecimalInjective(a: nat, b: nat)
    ensures Decimal(a) == Decimal(b) ==> a == b
    ensures |Decimal(a)| >= 1
    decreases a + b
  {
    if a >= 10 { DecimalInjective(a / 10, a / 10); }
    if b >= 10 { DecimalInjective(b / 10, b / 10); }
    if Decimal(a) == Decimal(b) {
      var x, y := Decimal(a), Decimal(b);
      assert x[|x| - 1] == '0' + (a % 10) as char && y[|y| - 1] == '0' + (b % 10) as char;
      assert a % 10 == b % 10;
      if a >= 10 && b >= 10 {
        assert Decimal(a / 10) == x[..|x| - 1] && Decimal(b / 10) == y[..|y| - 1];
        DecimalInjective(a / 10, b / 10);
      }
    }
  }

  lemma CursorInjective(a: nat, b: nat)
    ensures Cursor(a) == Cursor(b) ==> a == b
  {
    if a > 0 { DecimalInjective(a - 1, if b > 0 then b - 1 else 0); }
    if b > 0 { DecimalInjective(b - 1, if a > 0 then a - 1 else 0); }
  }

  // ----- One page -----

  lemma {:induction false} ReadItemsSound(items: seq<Value>, spans: seq<Span>) returns (page: seq<Span>)
    requires ReadItems(items, spans).Ok? && Canonical(spans) && |spans| + |items| <= PAGE_BUDGET + PAGE_LIMIT
    ensures ReadItems(items, spans) == Ok(spans + page) && EncodesAll(items, page) && Canonical(spans + page)
  {
    hide Canonical, Encodes, ReadSpan, CheckSpan;
    page := [];
    if items != [] {
      var span := FirstItem(items, spans);
      var rest := ReadItemsSound(items[1..], spans + [span]);
      page := [span] + rest;
      EncodesMore(items, page);
    }
    assert spans + page == if items == [] then spans else spans + [page[0]] + page[1..];
  }

  lemma FirstItem(items: seq<Value>, spans: seq<Span>) returns (span: Span)
    requires items != [] && ReadItems(items, spans).Ok? && Canonical(spans) && |spans| < PAGE_BUDGET + PAGE_LIMIT
    ensures Encodes(items[0], span) && Canonical(spans + [span])
    ensures ReadItems(items, spans) == ReadItems(items[1..], spans + [span])
  {
    hide Canonical;
    span := ReadSpan(items[0]).value;
    Extend(spans, span);
  }

  lemma EncodesMore(items: seq<Value>, page: seq<Span>)
    requires items != [] && page != []
    ensures EncodesAll(items, page) <==> Encodes(items[0], page[0]) && EncodesAll(items[1..], page[1..])
  {
  }

  lemma NextIsAccepted(spans: seq<Span>, page: seq<Span>)
    requires Canonical(spans + page) && page != []
    ensures CheckSpan(Last(spans), page[0]) == Ok(page[0])
  {
    var all, i := spans + page, |spans|;
    assert all[i] == page[0] && Upright(all[i]);
    if i > 0 {
      assert all[i - 1] == spans[i - 1];
      assert Compare(all[i - 1], all[i]) < 0 && !Touches(all[i - 1], all[i]);
    }
  }

  lemma {:induction false} ReadItemsComplete(items: seq<Value>, spans: seq<Span>, page: seq<Span>)
    requires EncodesAll(items, page) && Canonical(spans + page)
    ensures ReadItems(items, spans) == Ok(spans + page)
  {
    hide Canonical, CheckSpan, Last;
    if items == [] {
      assert spans + page == spans;
    } else {
      assert Encodes(items[0], page[0]);
      NextIsAccepted(spans, page);
      EncodesMore(items, page);
      assert spans + [page[0]] + page[1..] == spans + page;
      ReadItemsComplete(items[1..], spans + [page[0]], page[1..]);
    }
  }

  /** A page is accepted under an identity if and only if it carries it. */
  lemma IdentityExact(o: Object, structureId: string, identity: Identity)
    ensures RequireIdentity(o, structureId, Some(identity)).Ok? <==> Identifies(o, structureId, identity)
    ensures forall actual :: RequireIdentity(o, structureId, None) == Ok(actual) ==> Identifies(o, structureId, actual)
    ensures Identifies(o, structureId, identity) ==> RequireIdentity(o, structureId, None) == Ok(identity)
  {
    hide Namespaced, IsWorld;
    if "world" in o && o["world"].Text? { NamespacedExact(o["world"].text); }
  }

  lemma ReadPageSound(reply: Reply, structureId: string, identity: Identity, expected: int, spans: seq<Span>)
    requires Canonical(spans) && |spans| < expected && |spans| <= PAGE_BUDGET
    requires ReadPage(reply, structureId, identity, expected, spans).Ok?
    ensures var now := ReadPage(reply, structureId, identity, expected, spans).value;
      && spans <= now.spans && Canonical(now.spans)
      && 1 <= |now.spans| - |spans| <= PAGE_LIMIT
      && now.hasMore == (|now.spans| < expected)
      && IsPage(reply, structureId, identity, now.spans[|spans|..], |now.spans|, now.hasMore)
  {
    hide Canonical, ReadItems, Encodes, Namespaced, IsWorld;
    IdentityExact(reply.fields, structureId, identity);
    var page := ReadItemsSound(reply.fields["items"].items, spans);
    assert page == (spans + page)[|spans|..];
  }

  lemma ReadPageComplete(reply: Reply, structureId: string, identity: Identity, expected: int, spans: seq<Span>,
      page: seq<Span>)
    requires Canonical(spans + page) && 1 <= |page| <= PAGE_LIMIT
    requires IsPage(reply, structureId, identity, page, |spans + page|, |spans + page| < expected)
    ensures ReadPage(reply, structureId, identity, expected, spans)
         == Ok(Progress(spans + page, |spans + page| < expected))
  {
    hide Namespaced, IsWorld;
    IdentityExact(reply.fields, structureId, identity);
    ReadItemsComplete(reply.fields["items"].items, spans, page);
    CursorInjective(|spans|, |spans + page|);
  }

  // ----- All pages -----

  lemma {:induction false} JoinedPrefix(pages: seq<seq<Span>>, k: nat)
    requires k <= |pages|
    ensures Joined(pages[..k]) <= Joined(pages)
  {
    if k < |pages| {
      var n := |pages| - 1;
      assert pages[..n][..k] == pages[..k];
      JoinedPrefix(pages[..n], k);
    } else {
      assert pages[..k] == pages;
    }
  }

  lemma JoinedNext(pages: seq<seq<Span>>, k: nat)
    requires k < |pages|
    ensures Joined(pages[..k + 1]) == Joined(pages[..k]) + pages[k]
  {
    assert pages[..k + 1][..k] == pages[..k];
  }

  lemma ServesSame(p: Provider, structureId: string, identity: Identity, expected: int, read: seq<seq<Span>>,
      pages: seq<seq<Span>>, k: nat)
    requires read <= pages && k < |read|
    ensures ServesPage(p, structureId, identity, expected, read, k)
         == ServesPage(p, structureId, identity, expected, pages, k)
  {
    assert pages[..k] == read[..k] && pages[..k + 1] == read[..k + 1];
  }

  /** What one successful turn of the loop adds to the cut read so far. */
  lemma NextPage(p: Provider, structureId: string, identity: Identity, expected: int, read: seq<seq<Span>>,
      now: Progress)
    returns (pages: seq<seq<Span>>)
    requires Canonical(Joined(read)) && |Joined(read)| < expected && |Joined(read)| <= PAGE_BUDGET
    requires ReadPage(p(|read| + 1, PageRequest(structureId, identity, |Joined(read)|)), structureId, identity,
        expected, Joined(read)) == Ok(now)
    ensures read <= pages && |pages| == |read| + 1 && Joined(pages) == now.spans && Canonical(now.spans)
    ensures ServesPage(p, structureId, identity, expected, pages, |read|) && WithinBudget(pages)
    ensures now.hasMore == (|now.spans| < expected)
  {
    hide Canonical, ReadPage, IsPage, Joined;
    var spans := Joined(read);
    ReadPageSound(p(|read| + 1, PageRequest(structureId, identity, |spans|)), structureId, identity, expected, spans);
    var page := now.spans[|spans|..];
    pages := read + [page];
    JoinedSnoc(read, page);
    assert spans + page == now.spans;
  }

  lemma JoinedSnoc(read: seq<seq<Span>>, page: seq<Span>)
    ensures var pages := read + [page];
      Joined(pages) == Joined(read) + page && pages[..|read|] == read && pages[..|read| + 1] == pages
  {
    assert (read + [page])[..|read|] == read;
  }

  /** Whatever the provider does, what was read is a cut it really served. */
  lemma {:induction false} ReadPagesSound(p: Provider, structureId: string, identity: Identity, expected: int,
      read: seq<seq<Span>>)
    returns (pages: seq<seq<Span>>)
    requires Canonical(Joined(read)) && |Joined(read)| <= PAGE_BUDGET && WithinBudget(read)
    requires forall k :: 0 <= k < |read| ==> ServesPage(p, structureId, identity, expected, read, k)
    requires ReadPages(p, |read| + 1, structureId, identity, expected, Joined(read)).Ok?
    ensures Joined(pages) == ReadPages(p, |read| + 1, structureId, identity, expected, Joined(read)).value
    ensures Canonical(Joined(pages)) && WithinBudget(pages)
    ensures forall k :: 0 <= k < |pages| ==> ServesPage(p, structureId, identity, expected, pages, k)
    decreases expected - |Joined(read)|
  {
    hide Canonical, ReadPage, IsPage, Joined;
    var spans := Joined(read);
    if |spans| >= expected {
      pages := read;
    } else {
      var now := ReadPage(p(|read| + 1, PageRequest(structureId, identity, |spans|)), structureId, identity,
          expected, spans).value;
      pages := NextPage(p, structureId, identity, expected, read, now);
      forall k | 0 <= k < |pages| ensures ServesPage(p, structureId, identity, expected, pages, k) {
        if k < |read| { ServesSame(p, structureId, identity, expected, read, pages, k); }
      }
      if now.hasMore {
        pages := ReadPagesSound(p, structureId, identity, expected, pages);
      }
    }
  }

  /** One turn of the loop against an honest answer. */
  lemma HonestTurn(p: Provider, structureId: string, identity: Identity, pages: seq<seq<Span>>, k: nat)
    requires Canonical(Joined(pages)) && k < |pages|
    requires ServesPage(p, structureId, identity, |Joined(pages)|, pages, k)
    ensures var spans := Joined(pages[..k]);
      && ReadPage(p(k + 1, PageRequest(structureId, identity, |spans|)), structureId, identity, |Joined(pages)|, spans)
           == Ok(Progress(Joined(pages[..k + 1]), |Joined(pages[..k + 1])| < |Joined(pages)|))
      && |spans| < |Joined(pages)|
  {
    JoinedNext(pages, k);
    JoinedPrefix(pages, k + 1);
    var spans, now := Joined(pages[..k]), Joined(pages[..k + 1]);
    CanonicalPrefix(Joined(pages), |now|);
    assert now == Joined(pages)[..|now|];
    ReadPageComplete(p(k + 1, PageRequest(structureId, identity, |spans|)), structureId, identity, |Joined(pages)|,
        spans, pages[k]);
  }

  /** More pages to come means more spans to come. */
  lemma ThroughGrows(pages: seq<seq<Span>>, i: nat, j: nat)
    requires i <= j <= |pages|
    requires forall k :: 0 <= k < |pages| ==> 1 <= |pages[k]|
    ensures Through(pages, i) <= Through(pages, j) && (i < j ==> Through(pages, i) < Through(pages, j))
    decreases j
  {
    if i < j {
      ThroughGrows(pages, i, j - 1);
      JoinedNext(pages, j - 1);
    }
  }

  lemma {:induction false} ReadPagesComplete(p: Provider, structureId: string, identity: Identity,
      pages: seq<seq<Span>>, k: nat)
    requires Canonical(Joined(pages)) && k <= |pages|
    requires forall i :: 0 <= i < |pages| ==> ServesPage(p, structureId, identity, |Joined(pages)|, pages, i)
    requires k < |pages| ==> Through(pages, k) <= PAGE_BUDGET
    ensures ReadPages(p, k + 1, structureId, identity, |Joined(pages)|, Joined(pages[..k]))
         == if k == |pages| || WithinBudget(pages) then Ok(Joined(pages)) else Err(BudgetExceeded)
    decreases |pages| - k
  {
    hide Canonical, ReadPage, IsPage, Joined;
    assert pages[..|pages|] == pages;
    if k < |pages| {
      HonestTurn(p, structureId, identity, pages, k);
      if k + 1 < |pages| {
        forall i | 0 <= i < |pages| ensures 1 <= |pages[i]| {
          assert ServesPage(p, structureId, identity, |Joined(pages)|, pages, i);
        }
        ThroughGrows(pages, k + 1, |pages|);
        ThroughGrows(pages, k + 1, |pages| - 1);
        if Through(pages, k + 1) <= PAGE_BUDGET {
          ReadPagesComplete(p, structureId, identity, pages, k + 1);
        }
      }
    }
  }

  // ----- Main results -----

  lemma HeaderExact(summary: Object, structureId: string, header: Header)
    requires header.spanCount >= 0 && header.cellCount >= 0
    ensures ReadHeader(summary, structureId) == Ok(header)
       <==> && Identifies(summary, structureId, header.identity)
            && Holds(summary, "spanCount", I32(header.spanCount))
            && Holds(summary, "cellCount", I64(header.cellCount))
  {
    hide RequireIdentity, Identifies;
    IdentityExact(summary, structureId, header.identity);
  }

  lemma HeaderBounds(summary: Object, structureId: string)
    requires ReadHeader(summary, structureId).Ok?
    ensures var header := ReadHeader(summary, structureId).value; header.spanCount >= 0 && header.cellCount >= 0
  {
  }

  /** The reader's result once the summary has been read. */
  lemma AfterSummary(p: Provider, structureId: string, header: Header)
    requires var summary := p(0, Summary(structureId));
      summary.Returned? && ReadHeader(summary.fields, structureId) == Ok(header)
    ensures var read := ReadPages(p, 1, structureId, header.identity, header.spanCount, []);
      SnapshotOf(Some(p), structureId) == if read.Err? then Err(read.error) else Compared(header, read.value)
  {
    hide ReadPages, Compared;
    assert p(0, Summary(structureId)).fields != map[];
  }

  /** Round trip with an honest provider, for every canonical list and every cut:
      the list comes back, except when more than 131,072 spans precede the last page. */
  lemma HonestPagerRoundTrip(p: Provider, structureId: string, hull: Hull, pages: seq<seq<Span>>)
    requires Honest(p, structureId, hull, pages)
    ensures SnapshotOf(Some(p), structureId)
         == if WithinBudget(pages) then Ok(Available(hull)) else Err(BudgetExceeded)
  {
    HonestParts(p, structureId, hull, pages);
    hide *;
    AfterSummary(p, structureId, hull.header);
    ReadPagesComplete(p, structureId, hull.header.identity, pages, 0);
    ComparedExact(hull.header, hull.spans);
  }

  /** Up to 131,072 spans no honest cut is refused. */
  lemma SmallHullsAlwaysReturn(p: Provider, structureId: string, hull: Hull, pages: seq<seq<Span>>)
    requires Honest(p, structureId, hull, pages) && |hull.spans| <= 131_072
    ensures SnapshotOf(Some(p), structureId) == Ok(Available(hull))
  {
    HonestParts(p, structureId, hull, pages);
    if pages != [] { JoinedPrefix(pages, |pages| - 1); }
    assert WithinBudget(pages);
    hide *;
    HonestPagerRoundTrip(p, structureId, hull, pages);
  }

  lemma ComparedExact(header: Header, spans: seq<Span>)
    ensures Compared(header, spans) == Ok(Available(Hull(header, spans)))
       <==> |spans| == header.spanCount && CellCount(spans) == header.cellCount
  {
  }

  lemma HonestParts(p: Provider, structureId: string, hull: Hull, pages: seq<seq<Span>>)
    requires Honest(p, structureId, hull, pages)
    ensures var summary := p(0, Summary(structureId));
      summary.Returned? && ReadHeader(summary.fields, structureId) == Ok(hull.header)
    ensures hull.spans == Joined(pages) && Canonical(hull.spans)
    ensures |hull.spans| == hull.header.spanCount && CellCount(hull.spans) == hull.header.cellCount
    ensures pages[..0] == [] && Joined([]) == [] && (pages != [] ==> Through(pages, 0) == 0)
    ensures forall k :: 0 <= k < |pages| ==>
              ServesPage(p, structureId, hull.header.identity, hull.header.spanCount, pages, k)
  {
    hide Canonical, ReadHeader, Identifies, ServesPage, Cells, CellCount;
    CellCountIsCardinality(hull.spans);
    HeaderExact(p(0, Summary(structureId)).fields, structureId, hull.header);
  }

  lemma AcceptedShape(p: Provider, structureId: string, hull: Hull)
    requires SnapshotOf(Some(p), structureId) == Ok(Available(hull))
    ensures var summary := p(0, Summary(structureId));
      summary.Returned? && ReadHeader(summary.fields, structureId) == Ok(hull.header)
    ensures ReadPages(p, 1, structureId, hull.header.identity, hull.header.spanCount, []) == Ok(hull.spans)
    ensures |hull.spans| == hull.header.spanCount && CellCount(hull.spans) == hull.header.cellCount
  {
    hide ReadPages, ReadHeader, CellCount;
  }

  lemma NothingRead()
    ensures Joined([]) == [] && Canonical(Joined([])) && WithinBudget([])
  {
  }

  /** The hull read from an arbitrary provider was served by it, cut into pages. */
  lemma AcceptedIsServed(p: Provider, structureId: string, hull: Hull) returns (pages: seq<seq<Span>>)
    requires SnapshotOf(Some(p), structureId) == Ok(Available(hull))
    ensures Honest(p, structureId, hull, pages) && WithinBudget(pages)
  {
    NothingRead();
    hide *;
    AcceptedShape(p, structureId, hull);
    pages := ReadPagesSound(p, structureId, hull.header.identity, hull.header.spanCount, []);
    HonestFromParts(p, structureId, hull, pages);
  }

  lemma HonestFromParts(p: Provider, structureId: string, hull: Hull, pages: seq<seq<Span>>)
    requires var summary := p(0, Summary(structureId));
      summary.Returned? && ReadHeader(summary.fields, structureId) == Ok(hull.header)
    requires hull.spans == Joined(pages) && Canonical(hull.spans)
    requires |hull.spans| == hull.header.spanCount && CellCount(hull.spans) == hull.header.cellCount
    requires forall k :: 0 <= k < |pages| ==>
               ServesPage(p, structureId, hull.header.identity, hull.header.spanCount, pages, k)
    ensures Honest(p, structureId, hull, pages)
  {
    hide Canonical, ReadHeader, Identifies, ServesPage, Cells, CellCount, Joined;
    CellCountIsCardinality(hull.spans);
    HeaderBounds(p(0, Summary(structureId)).fields, structureId);
    HeaderExact(p(0, Summary(structureId)).fields, structureId, hull.header);
  }

  /** An arbitrary provider is believed only if, along the reader's own requests,
      it served exactly that hull: every page under the summary's identity. */
  lemma AcceptedMeansHonest(p: Provider, structureId: string, hull: Hull)
    ensures SnapshotOf(Some(p), structureId) == Ok(Available(hull))
       <==> exists pages :: Honest(p, structureId, hull, pages) && WithinBudget(pages)
  {
    hide SnapshotOf, Honest, WithinBudget;
    if SnapshotOf(Some(p), structureId) == Ok(Available(hull)) {
      var pages := AcceptedIsServed(p, structureId, hull);
    }
    if exists pages :: Honest(p, structureId, hull, pages) && WithinBudget(pages) {
      var pages :| Honest(p, structureId, hull, pages) && WithinBudget(pages);
      HonestPagerRoundTrip(p, structureId, hull, pages);
    }
  }

  /** No hull is reported exactly when the summary is an empty map; without the protocol
      there is an error. */
  lemma UnavailableExactly(provider: Option<Provider>, structureId: string)
    ensures SnapshotOf(provider, structureId) == Ok(Unavailable)
       <==> provider.Some? && provider.value(0, Summary(structureId)) == Returned(map[])
    ensures provider.None? ==> SnapshotOf(provider, structureId) == Err(ProtocolUnavailable)
  {
    hide ReadPages, ReadHeader;
  }

  /** Every accepted hull: disjoint spans in canonical order, the advertised cell
      count is the size of their union, and the list is the only one for its cells. */
  lemma AcceptedHull(provider: Option<Provider>, structureId: string, hull: Hull)
    requires SnapshotOf(provider, structureId) == Ok(Available(hull))
    ensures |hull.spans| == hull.header.spanCount <= 132_096
    ensures hull.header.cellCount == |Cells(hull.spans)|
    ensures forall i, j :: 0 <= i < j < |hull.spans| ==>
              Before(hull.spans[i], hull.spans[j]) && Column(hull.spans[i]) !! Column(hull.spans[j])
    ensures forall other :: Canonical(other) && Cells(other) == Cells(hull.spans) ==> other == hull.spans
  {
    var pages := AcceptedIsServed(provider.value, structureId, hull);
    if pages != [] {
      assert ServesPage(provider.value, structureId, hull.header.identity, hull.header.spanCount, pages, |pages| - 1);
      assert pages[..|pages| - 1 + 1] == pages;
      JoinedNext(pages, |pages| - 1);
    }
    CanonicalIffOrdered(hull.spans);
    PairwiseDisjoint(hull.spans);
    forall other | Canonical(other) && Cells(other) == Cells(hull.spans) ensures other == hull.spans {
      CanonicalFormIsUnique(other, hull.spans);
    }
  }

  // ----- Honest providers exist -----

  function EncodeSpan(s: Span): Value {
    Fields(map["x" := I32(s.x), "y" := I32(s.y), "minZ" := I32(s.minZ), "maxZ" := I32(s.maxZ)])
  }

  function SummaryFields(structureId: string, hull: Hull): Object {
    map["structureId" := Text(structureId), "world" := Text(hull.header.identity.world),
        "ruleVersion" := I32(hull.header.identity.ruleVersion), "sourceRevision" := I64(hull.header.identity.revision),
        "spanCount" := I32(hull.header.spanCount), "cellCount" := I64(hull.header.cellCount)]
  }

  function PageFields(structureId: string, identity: Identity, page: seq<Span>, total: nat, more: bool): Object {
    map["structureId" := Text(structureId), "world" := Text(identity.world),
        "ruleVersion" := I32(identity.ruleVersion), "sourceRevision" := I64(identity.revision),
        "items" := Items(seq(|page|, i requires 0 <= i < |page| => EncodeSpan(page[i]))),
        "after" := Text(Cursor(total)), "hasMore" := Flag(more)]
  }

  /** The provider that answers call k with page k of the cut. */
  function Pager(structureId: string, hull: Hull, pages: seq<seq<Span>>): Provider {
    (call: nat, request: Request) =>
      if call == 0 then Returned(SummaryFields(structureId, hull))
      else if call > |pages| then Failed
      else Returned(PageFields(structureId, hull.header.identity, pages[call - 1],
                               Through(pages, call), Through(pages, call) < hull.header.spanCount))
  }

  /** Field names are told apart by length, or by first letter. */
  lemma FieldNames()
    ensures |"structureId"| == 11 && |"ruleVersion"| == 11 && |"sourceRevision"| == 14 && |"hasMore"| == 7
    ensures |"world"| == |"items"| == |"after"| == 5 && |"spanCount"| == |"cellCount"| == 9
    ensures "structureId"[0] == 's' && "ruleVersion"[0] == 'r'
    ensures "world"[0] == 'w' && "items"[0] == 'i' && "after"[0] == 'a'
    ensures "spanCount"[0] == 's' && "cellCount"[0] == 'c'
    ensures |"x"| == |"y"| == 1 && |"minZ"| == |"maxZ"| == 4
    ensures "x"[0] == 'x' && "y"[0] == 'y' && "minZ"[1] == 'i' && "maxZ"[1] == 'a'
  {
  }

  lemma PagerIsHonest(structureId: string, hull: Hull, pages: seq<seq<Span>>)
    requires Truthful(hull) && hull.spans == Joined(pages)
    requires IsWorld(hull.header.identity.world) && hull.header.identity.ruleVersion >= 1
        && hull.header.identity.revision >= 0
    requires forall k :: 0 <= k < |pages| ==> 1 <= |pages[k]| <= PAGE_LIMIT
    ensures Honest(Pager(structureId, hull, pages), structureId, hull, pages)
  {
    hide Canonical, Joined, Identifies, Holds, IsPage, SummaryFields, PageFields, Cells;
    var p := Pager(structureId, hull, pages);
    EncodedSummary(structureId, hull);
    assert p(0, Summary(structureId)) == Returned(SummaryFields(structureId, hull));
    forall k | 0 <= k < |pages|
      ensures ServesPage(p, structureId, hull.header.identity, hull.header.spanCount, pages, k)
    {
      var total := Through(pages, k + 1);
      EncodedPage(structureId, hull.header.identity, pages[k], total, total < hull.header.spanCount);
    }
  }

  lemma EncodedSummary(structureId: string, hull: Hull)
    requires IsWorld(hull.header.identity.world) && hull.header.identity.ruleVersion >= 1
        && hull.header.identity.revision >= 0
    ensures var o := SummaryFields(structureId, hull);
      && Identifies(o, structureId, hull.header.identity)
      && Holds(o, "spanCount", I32(hull.header.spanCount)) && Holds(o, "cellCount", I64(hull.header.cellCount))
  {
    FieldNames();
  }

  lemma EncodedPage(structureId: string, identity: Identity, page: seq<Span>, total: nat, more: bool)
    requires IsWorld(identity.world) && identity.ruleVersion >= 1 && identity.revision >= 0
    ensures IsPage(Returned(PageFields(structureId, identity, page, total, more)),
                   structureId, identity, page, total, more)
  {
    FieldNames();
    var o := PageFields(structureId, identity, page, total, more);
    assert o["items"].Items?;
    forall i | 0 <= i < |page| ensures Encodes(o["items"].items[i], page[i]) {
      assert o["items"].items[i] == EncodeSpan(page[i]);
    }
  }

  /** Spans before the last page: a whole number of full pages. */
  function BeforeLast(n: nat): (rest: nat)
    requires n > 0
    ensures rest < n <= rest + PAGE_LIMIT
    ensures n <= PAGE_BUDGET + PAGE_LIMIT ==> rest <= PAGE_BUDGET
  {
    n - 1 - (n - 1) % PAGE_LIMIT
  }

  /** Full pages, then one shorter page. */
  function Cut(spans: seq<Span>): seq<seq<Span>> {
    if spans == [] then []
    else
      var rest := BeforeLast(|spans|);
      Cut(spans[..rest]) + [spans[rest..]]
  }

  lemma {:induction false} CutIsPaging(spans: seq<Span>)
    ensures Joined(Cut(spans)) == spans
    ensures forall k :: 0 <= k < |Cut(spans)| ==> 1 <= |Cut(spans)[k]| <= PAGE_LIMIT
    ensures |spans| <= PAGE_BUDGET + PAGE_LIMIT ==> WithinBudget(Cut(spans))
  {
    hide BeforeLast;
    if spans != [] {
      var rest := BeforeLast(|spans|);
      CutIsPaging(spans[..rest]);
      var pages := Cut(spans);
      assert pages[..|pages| - 1] == Cut(spans[..rest]);
      assert spans[..rest] + spans[rest..] == spans;
    }
  }

  /** The true size limit: a hull can be read in some paging if and only if it has
      at most 132,096 spans, because the last page escapes the 131,072 budget. */
  lemma ReadableHulls(structureId: string, hull: Hull)
    requires Truthful(hull)
    requires IsWorld(hull.header.identity.world) && hull.header.identity.ruleVersion >= 1
        && hull.header.identity.revision >= 0
    ensures |hull.spans| <= 132_096
       <==> exists p: Provider :: SnapshotOf(Some(p), structureId) == Ok(Available(hull))
  {
    if |hull.spans| <= PAGE_BUDGET + PAGE_LIMIT {
      var pages := Cut(hull.spans);
      CutIsPaging(hull.spans);
      PagerIsHonest(structureId, hull, pages);
      HonestPagerRoundTrip(Pager(structureId, hull, pages), structureId, hull, pages);
    }
    if exists p: Provider :: SnapshotOf(Some(p), structureId) == Ok(Available(hull)) {
      var p: Provider :| SnapshotOf(Some(p), structureId) == Ok(Available(hull));
      AcceptedHull(Some(p), structureId, hull);
    }
  }
}
