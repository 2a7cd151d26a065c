/** The public event listing (filters, ordering by StartDate, OFFSET/FETCH paging and the
    pagination block) and the creation of major categories. */
module EventListing {
  import opened Collections
  import opened Text
  import opened Schema

  /** The filters of `getAllEvents`: `None` when absent or falsy, except that the category
      filter keeps an empty array, which the handler ignores. */
  datatype Filters = Filters(category: Option<seq<string>>, location: Option<string>,
                             minPrice: Option<int>, maxPrice: Option<int>,
                             startDate: Option<int>, endDate: Option<int>)

  /** The request body of `getAllEvents`; `page` and `limit` are `None` when absent. */
  datatype ListQuery = ListQuery(page: Option<int>, limit: Option<int>, filters: Filters)

  /** `page = 1` and `limit = 10`: defaults for absent values only. */
  function PageOf(q: ListQuery): int { if q.page.Some? then q.page.value else 1 }
  function LimitOf(q: ListQuery): int { if q.limit.Some? then q.limit.value else 10 }

  /** `offset = (page - 1) * limit`. */
  function OffsetOf(q: ListQuery): int { (PageOf(q) - 1) * LimitOf(q) }

  /** `EXISTS (SELECT 1 FROM EventCategories ec JOIN Categories c ... WHERE ec.EventID =
      e.EventID AND c.Name IN (...))`. */
  predicate HasCategoryNamed(e: Event, ecs: seq<EventCategory>, cats: seq<Category>, names: seq<string>) {
    exists i, j :: 0 <= i < |ecs| && 0 <= j < |cats| && ecs[i].eventId == e.id
      && cats[j].id == ecs[i].categoryId && cats[j].name in names
  }

  /** The WHERE clause the handler assembles: each truthy filter adds one conjunct. A NULL
      Price fails both price bounds. */
  predicate Matches(e: Event, ecs: seq<EventCategory>, cats: seq<Category>, f: Filters) {
    && (f.category.Some? && |f.category.value| > 0 ==> HasCategoryNamed(e, ecs, cats, f.category.value))
    && (Filled(f.location) ==> Contains(e.location, f.location.value))
    && (Truthy(f.minPrice) ==> e.price.Some? && e.price.value >= f.minPrice.value)
    && (Truthy(f.maxPrice) ==> e.price.Some? && e.price.value <= f.maxPrice.value)
    && (f.startDate.Some? ==> e.startDate >= f.startDate.value)
    && (f.endDate.Some? ==> e.endDate <= f.endDate.value)
  }

  function Matching(ecs: seq<EventCategory>, cats: seq<Category>, f: Filters): Event -> bool {
    (e: Event) => Matches(e, ecs, cats, f)
  }

  /** ORDER BY StartDate ASC, as a descending order on the negated key. */
  function StartKey(e: Event): int { -e.startDate }

  /** `rows` are the rows of `events` that `keep` selects, each as often as in the table,
      in ascending StartDate. */
  ghost predicate IsOrdered(rows: seq<Event>, events: seq<Event>, keep: Event -> bool) {
    && multiset(rows) == multiset(Filter(events, keep))
    && |rows| == |Filter(events, keep)|
    && (forall e :: e in rows ==> e in events && keep(e))
    && (forall i, j :: 0 <= i < j < |rows| ==> rows[i].startDate <= rows[j].startDate)
  }

  /** The rows `keep` selects, in StartDate order, before paging. */
  function Ordered(events: seq<Event>, keep: Event -> bool): (rows: seq<Event>)
    ensures IsOrdered(rows, events, keep)
  {
    var selected := Filter(events, keep);
    var rows := SortDesc(selected, StartKey);
    SortedSelection(selected, rows, events, keep);
    rows
  }

  /** A permutation of the selected rows that is ordered on `StartKey` is `IsOrdered`. */
  lemma SortedSelection(selected: seq<Event>, rows: seq<Event>, events: seq<Event>, keep: Event -> bool)
    requires selected == Filter(events, keep)
    requires multiset(rows) == multiset(selected) && |rows| == |selected|
    requires SortedDesc(rows, StartKey)
    ensures IsOrdered(rows, events, keep)
  {
    forall e | e in rows ensures e in events && keep(e) {
      assert multiset(rows)[e] > 0;
      assert e in selected;
    }
    forall i, j | 0 <= i < j < |rows| ensures rows[i].startDate <= rows[j].startDate {
      assert StartKey(rows[i]) >= StartKey(rows[j]);
    }
  }

  /** `OFFSET offset ROWS FETCH NEXT limit ROWS ONLY`. */
  function Slice(rows: seq<Event>, offset: int, limit: int): (shown: seq<Event>)
    requires offset >= 0 && limit > 0
    ensures |shown| == if offset >= |rows| then 0 else Min(limit, |rows| - offset)
    ensures forall k :: 0 <= k < |shown| ==> shown[k] == rows[offset + k]
  {
    rows[Min(offset, |rows|)..Min(offset + limit, |rows|)]
  }

  /** `Math.ceil(n / d)` for a positive divisor, counted as the pages of `d` rows that `n`
      rows fill. */
  function CeilDiv(n: nat, d: int): nat
    requires d > 0
    decreases n
  {
    if n == 0 then 0 else 1 + CeilDiv(if n <= d then 0 else n - d, d)
  }

  /** `CeilDiv(n, d)` is the least number of pages of `d` rows that hold `n` rows. */
  lemma {:induction false} CeilDivIsCeiling(n: nat, d: int)
    requires d > 0
    ensures (CeilDiv(n, d) - 1) * d < n <= CeilDiv(n, d) * d
    decreases n
  {
    if n > d {
      CeilDivIsCeiling(n - d, d);
      var c := CeilDiv(n - d, d);
      assert CeilDiv(n, d) == c + 1;
      assert (c + 1) * d == c * d + d && c * d == (c - 1) * d + d;
    }
  }

  /** The answer of `getAllEvents`. */
  datatype EventPage = EventPage(events: seq<Event>, totalItems: nat, totalPages: int,
                                 currentPage: int, pageSize: int)

  /** What the handler answers for page `pageNo` with a valid `offset` and `limit`, when
      `keep` is its WHERE clause: selected events only, in ascending StartDate, as many as
      remain after skipping `offset` of them but at most `limit`; the count of every
      selected event and the number of pages it fills. The rows are the window at `offset`
      of some StartDate order of the selected events, each listed as often as in the table. */
  ghost predicate IsPageOf(page: EventPage, events: seq<Event>, keep: Event -> bool,
                           offset: int, limit: int, pageNo: int)
    requires offset >= 0 && limit > 0
  {
    var total := |Filter(events, keep)|;
    && (exists rows :: IsOrdered(rows, events, keep) && page.events == Slice(rows, offset, limit))
    && (forall e :: e in page.events ==> e in events && keep(e))
    && (forall i, j :: 0 <= i < j < |page.events| ==> page.events[i].startDate <= page.events[j].startDate)
    && |page.events| == (if offset >= total then 0 else Min(limit, total - offset))
    && page.totalItems == total
    && page.totalPages == CeilDiv(total, limit)
    && page.currentPage == pageNo && page.pageSize == limit
  }

  /** `getAllEvents`: for a valid offset and limit, the page `IsPageOf` describes for the
      filters' WHERE clause, cut from the ordered matches. A negative offset or a limit
      below 1 makes SQL Server reject the OFFSET/FETCH clause, which answers 500. */
  function GetAllEvents(events: seq<Event>, ecs: seq<EventCategory>, cats: seq<Category>, q: ListQuery)
    : (res: Result<EventPage>)
    ensures res.Ok? <==> OffsetOf(q) >= 0 && LimitOf(q) > 0
    ensures res.Err? ==> res.status == 500
    ensures res.Ok? ==>
      IsPageOf(res.value, events, Matching(ecs, cats, q.filters), OffsetOf(q), LimitOf(q), PageOf(q))
    ensures res.Ok? ==>
      res.value.events == Slice(Ordered(events, Matching(ecs, cats, q.filters)), OffsetOf(q), LimitOf(q))
  {
    var offset := OffsetOf(q);
    var limit := LimitOf(q);
    if offset < 0 || limit <= 0 then Err(500)
    else Ok(PageAt(events, Matching(ecs, cats, q.filters), offset, limit, PageOf(q)))
  }

  /** The page the two queries of the handler produce. */
  function PageAt(events: seq<Event>, keep: Event -> bool, offset: int, limit: int, pageNo: int)
    : (page: EventPage)
    requires offset >= 0 && limit > 0
    ensures IsPageOf(page, events, keep, offset, limit, pageNo)
    ensures page.events == Slice(Ordered(events, keep), offset, limit)
  {
    var rows := Ordered(events, keep);
    SliceIsPage(rows, events, keep, offset, limit, pageNo);
    EventPage(Slice(rows, offset, limit), |rows|, CeilDiv(|rows|, limit), pageNo, limit)
  }

  /** The slice of the ordered rows, with their count and page count, is the page. */
  lemma SliceIsPage(rows: seq<Event>, events: seq<Event>, keep: Event -> bool, offset: int, limit: int, pageNo: int)
    requires offset >= 0 && limit > 0 && IsOrdered(rows, events, keep)
    ensures IsPageOf(EventPage(Slice(rows, offset, limit), |rows|, CeilDiv(|rows|, limit), pageNo, limit),
                     events, keep, offset, limit, pageNo)
  {
    ShownRowsQualify(rows, events, keep, offset, limit);
    assert IsOrdered(rows, events, keep) && Slice(rows, offset, limit) == Slice(rows, offset, limit);
  }

  /** The rows of a page are selected events in ascending StartDate. */
  lemma ShownRowsQualify(rows: seq<Event>, events: seq<Event>, keep: Event -> bool, offset: int, limit: int)
    requires offset >= 0 && limit > 0 && IsOrdered(rows, events, keep)
    ensures var shown := Slice(rows, offset, limit);
      && (forall e :: e in shown ==> e in events && keep(e))
      && (forall i, j :: 0 <= i < j < |shown| ==> shown[i].startDate <= shown[j].startDate)
  {
    var shown := Slice(rows, offset, limit);
    forall e | e in shown ensures e in events && keep(e) {
      var k :| 0 <= k < |shown| && shown[k] == e;
      assert rows[offset + k] in rows;
    }
    forall i, j | 0 <= i < j < |shown| ensures shown[i].startDate <= shown[j].startDate {
      assert shown[i] == rows[offset + i] && shown[j] == rows[offset + j];
    }
  }

  /** Paging loses and repeats nothing: the row at position `i` of the ordered matches is
      row `i % limit` of page `i / limit + 1`, and that page is within `totalPages`. */
  lemma EveryMatchIsOnItsPage(events: seq<Event>, ecs: seq<EventCategory>, cats: seq<Category>,
                              q: ListQuery, i: nat)
    requires LimitOf(q) > 0 && i < |Ordered(events, Matching(ecs, cats, q.filters))|
    ensures var limit := LimitOf(q);
      var res := GetAllEvents(events, ecs, cats, q.(page := Some(i / limit + 1)));
      && res.Ok?
      && i / limit + 1 <= res.value.totalPages
      && i % limit < |res.value.events|
      && res.value.events[i % limit] == Ordered(events, Matching(ecs, cats, q.filters))[i]
  {
    var limit := LimitOf(q);
    DivMod(i, limit);
    PageWithin(|Ordered(events, Matching(ecs, cats, q.filters))|, limit, i);
    PageHoldsRow(events, ecs, cats, q, i / limit, i % limit, (i / limit) * limit, i);
  }

  /** Match `i`, written as `p * limit + r`, is row `r` of page `p + 1`. */
  lemma PageHoldsRow(events: seq<Event>, ecs: seq<EventCategory>, cats: seq<Category>,
                     q: ListQuery, p: nat, r: nat, offset: int, i: nat)
    requires LimitOf(q) > 0 && r < LimitOf(q) && offset == p * LimitOf(q) && i == offset + r
    requires i < |Ordered(events, Matching(ecs, cats, q.filters))|
    requires p + 1 <= CeilDiv(|Ordered(events, Matching(ecs, cats, q.filters))|, LimitOf(q))
    ensures var res := GetAllEvents(events, ecs, cats, q.(page := Some(p + 1)));
      && res.Ok?
      && p + 1 <= res.value.totalPages
      && r < |res.value.events|
      && res.value.events[r] == Ordered(events, Matching(ecs, cats, q.filters))[i]
  {
    var keep := Matching(ecs, cats, q.filters);
    QueriedPage(events, ecs, cats, q, p, offset);
    PageRowAt(events, keep, offset, LimitOf(q), r, p + 1);
  }

  /** Page `p` of the listing exists and shows `e`. */
  ghost predicate ListedOnPage(events: seq<Event>, ecs: seq<EventCategory>, cats: seq<Category>,
                               q: ListQuery, p: int, e: Event) {
    var res := GetAllEvents(events, ecs, cats, q.(page := Some(p)));
    res.Ok? && 1 <= p <= res.value.totalPages && e in res.value.events
  }

  /** No matching event is lost: every event the filters select appears on some page
      within `totalPages`, and the ordered matches list it as often as the table holds it. */
  lemma EveryMatchIsListed(events: seq<Event>, ecs: seq<EventCategory>, cats: seq<Category>,
                           q: ListQuery, e: Event)
    requires LimitOf(q) > 0 && e in events && Matches(e, ecs, cats, q.filters)
    ensures multiset(Ordered(events, Matching(ecs, cats, q.filters)))[e] == multiset(events)[e]
    ensures exists p :: ListedOnPage(events, ecs, cats, q, p, e)
  {
    var i := SelectedIsRow(events, Matching(ecs, cats, q.filters), e);
    EveryMatchIsOnItsPage(events, ecs, cats, q, i);
    DivMod(i, LimitOf(q));
    RowIsListed(events, ecs, cats, q, i / LimitOf(q) + 1, i % LimitOf(q), e);
  }

  /** An event shown at some row of an existing page is listed on that page. */
  lemma RowIsListed(events: seq<Event>, ecs: seq<EventCategory>, cats: seq<Category>,
                    q: ListQuery, p: int, r: nat, e: Event)
    requires var res := GetAllEvents(events, ecs, cats, q.(page := Some(p)));
      res.Ok? && 1 <= p <= res.value.totalPages && r < |res.value.events| && res.value.events[r] == e
    ensures ListedOnPage(events, ecs, cats, q, p, e)
  {
    var res := GetAllEvents(events, ecs, cats, q.(page := Some(p)));
    assert res.value.events[r] in res.value.events;
  }

  /** A selected event is a row of the ordered selection, as often as in the table. */
  lemma SelectedIsRow(events: seq<Event>, keep: Event -> bool, e: Event) returns (i: nat)
    requires e in events && keep(e)
    ensures multiset(Ordered(events, keep))[e] == multiset(events)[e]
    ensures i < |Ordered(events, keep)| && Ordered(events, keep)[i] == e
  {
    var rows := Ordered(events, keep);
    FilterCount(events, keep);
    assert multiset(rows)[e] == multiset(events)[e] > 0;
    assert e in rows;
    i :| 0 <= i < |rows| && rows[i] == e;
  }

  /** Row `r` of the page that skips `offset` selected rows is selected row `offset + r`,
      and the page counts the pages of all of them. */
  lemma PageRowAt(events: seq<Event>, keep: Event -> bool, offset: int, limit: int, r: int, pageNo: int)
    requires offset >= 0 && limit > 0 && 0 <= r < limit && offset + r < |Ordered(events, keep)|
    ensures var page := PageAt(events, keep, offset, limit, pageNo);
      && r < |page.events|
      && page.events[r] == Ordered(events, keep)[offset + r]
      && page.totalPages == CeilDiv(|Ordered(events, keep)|, limit)
  {
    RowOnPage(Ordered(events, keep), offset, limit, r);
  }

  /** Asking for page `p + 1` is asking for the page that skips `p * limit` matches. */
  lemma QueriedPage(events: seq<Event>, ecs: seq<EventCategory>, cats: seq<Category>, q: ListQuery,
                    p: nat, offset: int)
    requires LimitOf(q) > 0 && offset == p * LimitOf(q)
    ensures offset >= 0
    ensures GetAllEvents(events, ecs, cats, q.(page := Some(p + 1)))
      == Ok(PageAt(events, Matching(ecs, cats, q.filters), offset, LimitOf(q), p + 1))
  {
    var q' := q.(page := Some(p + 1));
    assert OffsetOf(q') == offset;
  }

  /** Row `r` of the page that skips `offset` rows is row `offset + r` of all of them. */
  lemma RowOnPage(rows: seq<Event>, offset: int, limit: int, r: int)
    requires offset >= 0 && limit > 0 && 0 <= r < limit && offset + r < |rows|
    ensures r < |Slice(rows, offset, limit)| && Slice(rows, offset, limit)[r] == rows[offset + r]
  {
  }

  /** Division with remainder by a positive page size. */
  lemma DivMod(i: nat, d: int)
    requires d > 0
    ensures 0 <= i / d && 0 <= i % d < d && (i / d) * d + i % d == i
  {
  }

  /** A row index below `total` falls on a page no later than the last one. */
  lemma PageWithin(total: nat, d: int, i: nat)
    requires d > 0 && i < total
    ensures i / d + 1 <= CeilDiv(total, d)
  {
    CeilDivIsCeiling(total, d);
    DivMod(i, d);
    var c := CeilDiv(total, d);
    var p := i / d;
    assert p * d <= i < c * d;
    assert p < c by {
      MulMonotone(p, c, d);
    }
  }

  lemma MulMonotone(a: int, b: int, d: int)
    requires d > 0 && a * d < b * d
    ensures a < b
  {
  }

  /** A falsy filter constrains nothing: the listing with zero price bounds, an empty
      category array and no other filters is the unfiltered listing. */
  lemma {:induction false} FalsyFiltersIgnored(events: seq<Event>, ecs: seq<EventCategory>, cats: seq<Category>)
    ensures Filter(events, Matching(ecs, cats, Filters(Some([]), None, Some(0), Some(0), None, None))) == events
  {
    FilterKeepsAll(events, Matching(ecs, cats, Filters(Some([]), None, Some(0), Some(0), None, None)));
  }

  /** With a price bound, an event without a price (NULL) is never listed. */
  lemma NullPriceFailsPriceBound(e: Event, ecs: seq<EventCategory>, cats: seq<Category>, f: Filters)
    requires Truthy(f.minPrice) || Truthy(f.maxPrice)
    requires e.price.None?
    ensures !Matches(e, ecs, cats, f)
  {
  }

  /** The first MajorCategories row with the name (`recordset[0]` of the lookup by name). */
  function FindMajorCategory(rows: seq<MajorCategory>, name: string): (r: Option<MajorCategory>)
    ensures r.Some? ==> r.value in rows && r.value.name == name
    ensures r.None? <==> forall m :: m in rows ==> m.name != name
  {
    if rows == [] then None
    else if rows[0].name == name then Some(rows[0])
    else FindMajorCategory(rows[1..], name)
  }

  /** `createMajorCategory`: a falsy name answers 401 and a name already present 300, both
      without writing; otherwise one row with a fresh id is inserted, the new row is looked
      up by name, and its id is returned with 200. */
  method CreateMajorCategory(db: Db, catName: Option<string>) returns (status: int, catId: Option<int>)
    requires db.Valid()
    modifies db`majorCategories, db`nextId
    ensures db.Valid()
    ensures !Filled(catName) ==>
      status == 401 && catId.None? && db.majorCategories == old(db.majorCategories) && db.nextId == old(db.nextId)
    ensures Filled(catName) && FindMajorCategory(old(db.majorCategories), catName.value).Some? ==>
      status == 300 && catId.None? && db.majorCategories == old(db.majorCategories) && db.nextId == old(db.nextId)
    ensures Filled(catName) && FindMajorCategory(old(db.majorCategories), catName.value).None? ==>
      && status == 200 && catId == Some(old(db.nextId)) && db.nextId == old(db.nextId) + 1
      && db.majorCategories == old(db.majorCategories) + [MajorCategory(old(db.nextId), catName.value)]
  {
    if !Filled(catName) {
      return 401, None;
    }
    if FindMajorCategory(db.majorCategories, catName.value).Some? {
      return 300, None;
    }
    var before := db.majorCategories;
    db.majorCategories := db.majorCategories + [MajorCategory(db.nextId, catName.value)];
    db.nextId := db.nextId + 1;
    FirstOfNameIsNew(before, MajorCategory(db.nextId - 1, catName.value));
    var created := FindMajorCategory(db.majorCategories, catName.value);
    catId := Some(created.value.id);
    status := 200;
  }

  /** When no row had the name, the lookup by name after the insert finds the inserted row. */
  lemma {:induction false} FirstOfNameIsNew(rows: seq<MajorCategory>, m: MajorCategory)
    requires FindMajorCategory(rows, m.name).None?
    ensures FindMajorCategory(rows + [m], m.name) == Some(m)
  {
    if rows == [] {
      assert rows + [m] == [m];
    } else {
      assert (rows + [m])[1..] == rows[1..] + [m];
      assert rows[0] in rows;
      assert FindMajorCategory(rows[1..], m.name).None? by {
        forall x | x in rows[1..] ensures x.name != m.name {
          assert x in rows;
        }
      }
      FirstOfNameIsNew(rows[1..], m);
    }
  }
}
