/** The statements the event handlers of companies and individuals issue against Events,
    EventCategories and MapsIntegration, what a run of them leaves behind when the server
    rejects one of them, and the pieces both variants share: the request body, the plans of
    a create and of an update, the owner-gated delete and the owner's listing. */
module EventEdits {
  import opened Collections
  import opened Schema

  /** The three tables the event handlers write. */
  datatype Tables = Tables(events: seq<Event>, eventCategories: seq<EventCategory>, maps: seq<MapPoint>)

  function TablesOf(db: Db): Tables
    reads db
  {
    Tables(db.events, db.eventCategories, db.maps)
  }

  /** The request body of a create or an update. Text fields are `None` when absent, null
      or empty, and so are the date strings. `price`, `maxAttendees` and the coordinates
      tell absence (`None`) from JSON null (`Some(None)`). `categories` is `None` unless the
      body carries an array of category ids. */
  datatype EventBody = EventBody(title: Option<string>, description: Option<string>,
                                 location: Option<string>, currency: Option<string>,
                                 price: Option<Option<int>>, startDate: Option<int>,
                                 endDate: Option<int>, maxAttendees: Option<Option<int>>,
                                 categories: Option<seq<int>>,
                                 latitude: Option<Option<int>>, longitude: Option<Option<int>>)

  /** The required-field test of both create handlers: title, description, location, both
      dates and currency are truthy, and categories is a non-empty array. */
  predicate CreateFieldsValid(b: EventBody) {
    && Filled(b.title) && Filled(b.description) && Filled(b.location)
    && b.startDate.Some? && b.endDate.Some? && Filled(b.currency)
    && b.categories.Some? && |b.categories.value| > 0
  }

  /** `maxAttendees || null`: a falsy limit (absent, null or 0) is stored as NULL. */
  function StoredLimit(maxAttendees: Option<Option<int>>): (r: Option<int>)
    ensures r.Some? <==> TruthyValue(maxAttendees)
    ensures r.Some? ==> r.value != 0 && Some(r.value) == maxAttendees.value
  {
    if TruthyValue(maxAttendees) then maxAttendees.value else None
  }

  /** The Events row a create inserts, given the price the variant stores. */
  function NewEvent(id: int, ownerId: int, b: EventBody, price: Option<int>, now: int): (e: Event)
    requires CreateFieldsValid(b)
    ensures e.id == id && e.ownerId == ownerId && e.createdAt == now && e.price == price
    ensures e.title == b.title.value && e.description == b.description.value
    ensures e.location == b.location.value && e.currency == b.currency.value
    ensures e.startDate == b.startDate.value && e.endDate == b.endDate.value
    ensures e.maxAttendees == StoredLimit(b.maxAttendees)
  {
    Event(id, ownerId, b.title.value, b.description.value, b.location.value, price,
          b.currency.value, b.startDate.value, b.endDate.value, StoredLimit(b.maxAttendees), now)
  }

  /** The SET list of an `UPDATE Events`; a `None` column is left out of it. */
  datatype Columns = Columns(title: Option<string>, description: Option<string>,
                             location: Option<string>, price: Option<Option<int>>,
                             currency: Option<string>, startDate: Option<int>, endDate: Option<int>,
                             maxAttendees: Option<Option<int>>)

  predicate NoColumns(c: Columns) {
    && c.title.None? && c.description.None? && c.location.None? && c.price.None?
    && c.currency.None? && c.startDate.None? && c.endDate.None? && c.maxAttendees.None?
  }

  /** The columns an update sets: the text fields and dates when truthy, price and
      maxAttendees whenever they are not undefined (null included). */
  function UpdateColumns(b: EventBody): Columns {
    Columns(if Filled(b.title) then b.title else None,
            if Filled(b.description) then b.description else None,
            if Filled(b.location) then b.location else None,
            b.price,
            if Filled(b.currency) then b.currency else None,
            b.startDate, b.endDate, b.maxAttendees)
  }

  /** An update whose body supplies none of the eight columns sets nothing. */
  lemma NoColumnsExactly(b: EventBody)
    ensures NoColumns(UpdateColumns(b)) <==>
      && !Filled(b.title) && !Filled(b.description) && !Filled(b.location) && !Supplied(b.price)
      && !Filled(b.currency) && b.startDate.None? && b.endDate.None? && !Supplied(b.maxAttendees)
  {
  }

  function Assign(e: Event, c: Columns): Event {
    e.(title := if c.title.Some? then c.title.value else e.title,
       description := if c.description.Some? then c.description.value else e.description,
       location := if c.location.Some? then c.location.value else e.location,
       price := if c.price.Some? then c.price.value else e.price,
       currency := if c.currency.Some? then c.currency.value else e.currency,
       startDate := if c.startDate.Some? then c.startDate.value else e.startDate,
       endDate := if c.endDate.Some? then c.endDate.value else e.endDate,
       maxAttendees := if c.maxAttendees.Some? then c.maxAttendees.value else e.maxAttendees)
  }

  /** `UPDATE Events SET ... WHERE EventID = @eventId`. */
  function SetColumns(events: seq<Event>, eventId: int, c: Columns): seq<Event> {
    seq(|events|, k requires 0 <= k < |events| =>
      if events[k].id == eventId then Assign(events[k], c) else events[k])
  }

  /** An update rewrites exactly the columns the body supplies, on the event with the id and
      on no other row; the key, the owner and the creation time never change. */
  lemma UpdateOverwritesOnlySuppliedColumns(events: seq<Event>, eventId: int, b: EventBody)
    ensures var r := SetColumns(events, eventId, UpdateColumns(b));
      && |r| == |events|
      && (forall k :: 0 <= k < |r| ==>
            r[k].id == events[k].id && r[k].ownerId == events[k].ownerId
            && r[k].createdAt == events[k].createdAt)
      && (forall k :: 0 <= k < |r| && events[k].id != eventId ==> r[k] == events[k])
      && (forall k :: 0 <= k < |r| && events[k].id == eventId ==>
            && r[k].title == (if Filled(b.title) then b.title.value else events[k].title)
            && r[k].description == (if Filled(b.description) then b.description.value else events[k].description)
            && r[k].location == (if Filled(b.location) then b.location.value else events[k].location)
            && r[k].price == (if Supplied(b.price) then b.price.value else events[k].price)
            && r[k].currency == (if Filled(b.currency) then b.currency.value else events[k].currency)
            && r[k].startDate == (if b.startDate.Some? then b.startDate.value else events[k].startDate)
            && r[k].endDate == (if b.endDate.Some? then b.endDate.value else events[k].endDate)
            && r[k].maxAttendees == (if Supplied(b.maxAttendees) then b.maxAttendees.value else events[k].maxAttendees))
  {
  }

  /** An empty SET list leaves every row as it was. */
  lemma NoColumnsNoChange(events: seq<Event>, eventId: int, c: Columns)
    requires NoColumns(c)
    ensures SetColumns(events, eventId, c) == events
  {
  }

  /** An update keeps the primary key of Events and the bound on identity values. */
  lemma SetColumnsKeepsKeys(events: seq<Event>, eventId: int, c: Columns, bound: int)
    requires UniqueEventIds(events) && forall e :: e in events ==> e.id < bound
    ensures var r := SetColumns(events, eventId, c);
      UniqueEventIds(r) && forall e :: e in r ==> e.id < bound
  {
    var r := SetColumns(events, eventId, c);
    forall e | e in r ensures e.id < bound {
      var k :| 0 <= k < |r| && r[k] == e;
      assert events[k] in events;
    }
    forall i, j | 0 <= i < j < |r| ensures DifferentEventIds(r[i], r[j]) {
      assert DifferentEventIds(events[i], events[j]);
    }
  }

  /** A fresh identity value appended to Events keeps its primary key. */
  lemma AppendFreshKeepsKeys(events: seq<Event>, e: Event, bound: int)
    requires UniqueEventIds(events) && (forall x :: x in events ==> x.id < bound) && e.id == bound
    ensures UniqueEventIds(events + [e]) && forall x :: x in events + [e] ==> x.id < bound + 1
  {
    var t := events + [e];
    forall i, j | 0 <= i < j < |t| ensures DifferentEventIds(t[i], t[j]) {
      assert t[i] == events[i] && events[i] in events;
      if j < |events| {
        assert t[j] == events[j];
      }
    }
  }

  function NotEvent(eventId: int): Event -> bool { (e: Event) => e.id != eventId }
  function OfEvent(eventId: int): EventCategory -> bool { (r: EventCategory) => r.eventId == eventId }
  function NotOfEvent(eventId: int): EventCategory -> bool { (r: EventCategory) => r.eventId != eventId }

  /** The EventCategories rows of a category list, in list order. */
  function CategoryRows(eventId: int, cats: seq<int>): (rows: seq<EventCategory>)
    ensures |rows| == |cats|
    ensures forall k :: 0 <= k < |cats| ==> rows[k].eventId == eventId && rows[k].categoryId == cats[k]
  {
    seq(|cats|, k requires 0 <= k < |cats| => EventCategory(eventId, cats[k]))
  }

  predicate HasMapRow(maps: seq<MapPoint>, eventId: int) {
    exists k :: 0 <= k < |maps| && maps[k].eventId == eventId
  }

  /** The coordinate upsert: `UPDATE MapsIntegration ... WHERE EventID` when a row for the
      event exists, an INSERT otherwise. */
  function Upsert(maps: seq<MapPoint>, eventId: int, latitude: Option<int>, longitude: Option<int>): seq<MapPoint> {
    if HasMapRow(maps, eventId) then
      seq(|maps|, k requires 0 <= k < |maps| =>
        if maps[k].eventId == eventId then MapPoint(eventId, latitude, longitude) else maps[k])
    else maps + [MapPoint(eventId, latitude, longitude)]
  }

  /** After the upsert the event has a map row, every row of the event carries the new
      coordinates, no row is added when one existed, and other events' rows are untouched. */
  lemma UpsertPlacesPoint(maps: seq<MapPoint>, eventId: int, latitude: Option<int>, longitude: Option<int>)
    ensures var r := Upsert(maps, eventId, latitude, longitude);
      && MapPoint(eventId, latitude, longitude) in r
      && (forall m :: m in r && m.eventId == eventId ==> m == MapPoint(eventId, latitude, longitude))
      && (forall m: MapPoint :: m.eventId != eventId ==> (m in r <==> m in maps))
      && |r| == (if HasMapRow(maps, eventId) then |maps| else |maps| + 1)
  {
    var r := Upsert(maps, eventId, latitude, longitude);
    if HasMapRow(maps, eventId) {
      var k :| 0 <= k < |maps| && maps[k].eventId == eventId;
      assert r[k] == MapPoint(eventId, latitude, longitude);
      forall m: MapPoint | m.eventId != eventId ensures m in r <==> m in maps {
        if m in maps {
          var i :| 0 <= i < |maps| && maps[i] == m;
          assert r[i] == m;
        }
      }
    } else {
      assert r[|maps|] == MapPoint(eventId, latitude, longitude);
    }
  }

  /** One SQL statement of an event handler. */
  datatype Stmt =
    | InsertEventRow(event: Event)
    | UpdateEventRow(eventId: int, columns: Columns)
    | DeleteEventRow(eventId: int)
    | InsertCategoryRow(row: EventCategory)
    | DeleteCategoryRows(eventId: int)
    | InsertMapRow(point: MapPoint)
    | UpsertMapRow(eventId: int, latitude: Option<int>, longitude: Option<int>)

  /** The tables after one statement. */
  function Apply(t: Tables, s: Stmt): Tables {
    match s
    case InsertEventRow(e) => t.(events := t.events + [e])
    case UpdateEventRow(id, c) => t.(events := SetColumns(t.events, id, c))
    case DeleteEventRow(id) => t.(events := Filter(t.events, NotEvent(id)))
    case InsertCategoryRow(row) => t.(eventCategories := t.eventCategories + [row])
    case DeleteCategoryRows(id) => t.(eventCategories := Filter(t.eventCategories, NotOfEvent(id)))
    case InsertMapRow(m) => t.(maps := t.maps + [m])
    case UpsertMapRow(id, lat, lon) => t.(maps := Upsert(t.maps, id, lat, lon))
  }

  /** The tables after a run of statements, issued in order. */
  function ApplyAll(t: Tables, plan: seq<Stmt>): Tables
    decreases |plan|
  {
    if plan == [] then t else Apply(ApplyAll(t, plan[..|plan| - 1]), plan[|plan| - 1])
  }

  /** Running two plans one after the other is running their concatenation. */
  lemma {:induction false} ApplyAllAppend(t: Tables, p: seq<Stmt>, q: seq<Stmt>)
    ensures ApplyAll(t, p + q) == ApplyAll(ApplyAll(t, p), q)
    decreases |q|
  {
    if q == [] {
      assert p + q == p;
    } else {
      var pq := p + q;
      assert pq[..|pq| - 1] == p + q[..|q| - 1];
      assert pq[|pq| - 1] == q[|q| - 1];
      ApplyAllAppend(t, p, q[..|q| - 1]);
    }
  }

  /** Statements that write EventCategories or MapsIntegration only. */
  predicate RowsOnly(s: Stmt) { !s.InsertEventRow? && !s.UpdateEventRow? && !s.DeleteEventRow? }

  /** A run of statements that do not write Events leaves Events as it was. */
  lemma {:induction false} RowsOnlyKeepEvents(t: Tables, plan: seq<Stmt>)
    requires forall s :: s in plan ==> RowsOnly(s)
    ensures ApplyAll(t, plan).events == t.events
    decreases |plan|
  {
    if plan != [] {
      var init := plan[..|plan| - 1];
      forall s | s in init ensures RowsOnly(s) {
        var m :| 0 <= m < |init| && init[m] == s;
        assert plan[m] == s;
      }
      assert plan[|plan| - 1] in plan;
      RowsOnlyKeepEvents(t, init);
    }
  }

  /** How many statements of a plan are issued before the one the server rejects (`fault`
      is its index), or all of them when none is rejected. */
  function StatementsRun(plan: seq<Stmt>, fault: Option<nat>): (n: nat)
    ensures n <= |plan|
    ensures n == |plan| <==> fault.None? || fault.value >= |plan|
  {
    if fault.Some? && fault.value < |plan| then fault.value else |plan|
  }

  /** Issues one statement. */
  method Exec(db: Db, s: Stmt)
    modifies db`events, db`eventCategories, db`maps
    ensures TablesOf(db) == Apply(old(TablesOf(db)), s)
  {
    match s
    case InsertEventRow(e) => db.events := db.events + [e];
    case UpdateEventRow(id, c) => db.events := SetColumns(db.events, id, c);
    case DeleteEventRow(id) => db.events := Filter(db.events, NotEvent(id));
    case InsertCategoryRow(row) => db.eventCategories := db.eventCategories + [row];
    case DeleteCategoryRows(id) => db.eventCategories := Filter(db.eventCategories, NotOfEvent(id));
    case InsertMapRow(m) => db.maps := db.maps + [m];
    case UpsertMapRow(id, lat, lon) => db.maps := Upsert(db.maps, id, lat, lon);
  }

  /** Issues the statements of `plan` one at a time on the pool, stopping at the one the
      server rejects. Without a transaction the statements before it stay applied. */
  method Execute(db: Db, plan: seq<Stmt>, fault: Option<nat>) returns (ok: bool)
    modifies db`events, db`eventCategories, db`maps
    ensures ok <==> StatementsRun(plan, fault) == |plan|
    ensures TablesOf(db) == ApplyAll(old(TablesOf(db)), plan[..StatementsRun(plan, fault)])
  {
    var i := 0;
    while i < |plan| && fault != Some(i)
      invariant 0 <= i <= StatementsRun(plan, fault)
      invariant TablesOf(db) == ApplyAll(old(TablesOf(db)), plan[..i])
    {
      Exec(db, plan[i]);
      assert plan[..i + 1][..i] == plan[..i];
      i := i + 1;
    }
    ok := i == |plan|;
  }

  /** The same statements inside `transaction.begin` / `commit`, with `rollback` when one is
      rejected: either all of them take effect or none does. */
  method ExecuteInTransaction(db: Db, plan: seq<Stmt>, fault: Option<nat>) returns (ok: bool)
    modifies db`events, db`eventCategories, db`maps
    ensures ok <==> StatementsRun(plan, fault) == |plan|
    ensures ok ==> TablesOf(db) == ApplyAll(old(TablesOf(db)), plan)
    ensures !ok ==> TablesOf(db) == old(TablesOf(db))
  {
    var saved := TablesOf(db);
    ok := Execute(db, plan, fault);
    if ok {
      assert plan[..|plan|] == plan;
    } else {
      db.events, db.eventCategories, db.maps := saved.events, saved.eventCategories, saved.maps;
    }
  }

  /** One INSERT INTO EventCategories per category id, in list order. */
  function CategoryInserts(eventId: int, cats: seq<int>): (plan: seq<Stmt>)
    ensures |plan| == |cats|
    ensures forall k :: 0 <= k < |plan| ==> plan[k] == InsertCategoryRow(EventCategory(eventId, cats[k]))
  {
    seq(|cats|, k requires 0 <= k < |cats| => InsertCategoryRow(EventCategory(eventId, cats[k])))
  }

  /** The category inserts append one row per id, in order, and touch nothing else. */
  lemma {:induction false} CategoryInsertsApplied(t: Tables, eventId: int, cats: seq<int>)
    ensures ApplyAll(t, CategoryInserts(eventId, cats))
      == t.(eventCategories := t.eventCategories + CategoryRows(eventId, cats))
    decreases |cats|
  {
    if cats != [] {
      var init := cats[..|cats| - 1];
      assert CategoryInserts(eventId, cats)[..|cats| - 1] == CategoryInserts(eventId, init);
      CategoryInsertsApplied(t, eventId, init);
      assert CategoryRows(eventId, cats) == CategoryRows(eventId, init) + [EventCategory(eventId, cats[|cats| - 1])];
    } else {
      assert t.eventCategories + CategoryRows(eventId, cats) == t.eventCategories;
    }
  }

  /** The map row of a create: only when both coordinates are truthy. */
  function CreateMapRows(eventId: int, b: EventBody): (rows: seq<MapPoint>)
    ensures |rows| <= 1
    ensures rows != [] <==> TruthyValue(b.latitude) && TruthyValue(b.longitude)
    ensures rows != [] ==> rows[0] == MapPoint(eventId, b.latitude.value, b.longitude.value)
  {
    if TruthyValue(b.latitude) && TruthyValue(b.longitude)
    then [MapPoint(eventId, b.latitude.value, b.longitude.value)] else []
  }

  function MapInserts(rows: seq<MapPoint>): (plan: seq<Stmt>)
    ensures |plan| == |rows|
  {
    seq(|rows|, k requires 0 <= k < |rows| => InsertMapRow(rows[k]))
  }

  /** The statements of a create: the event row, its category rows, and its map row. */
  function CreatePlan(e: Event, b: EventBody): (plan: seq<Stmt>)
    requires CreateFieldsValid(b)
    ensures |plan| == 1 + |b.categories.value| + |CreateMapRows(e.id, b)|
  {
    [InsertEventRow(e)] + CategoryInserts(e.id, b.categories.value) + MapInserts(CreateMapRows(e.id, b))
  }

  /** What the first `k` statements of a create leave behind: nothing for `k == 0`;
      otherwise the event row and the first `k - 1` category rows, and the map row only once
      every statement has run. */
  lemma {:induction false} CreatePrefixApplied(t: Tables, e: Event, b: EventBody, k: nat)
    requires CreateFieldsValid(b) && k <= |CreatePlan(e, b)|
    ensures var cats := b.categories.value;
      ApplyAll(t, CreatePlan(e, b)[..k]) ==
        if k == 0 then t
        else Tables(t.events + [e],
                    t.eventCategories + CategoryRows(e.id, cats)[..Min(k - 1, |cats|)],
                    t.maps + (if k == |CreatePlan(e, b)| then CreateMapRows(e.id, b) else []))
  {
    var cats := b.categories.value;
    var plan := CreatePlan(e, b);
    var inserts := CategoryInserts(e.id, cats);
    var mapRows := CreateMapRows(e.id, b);
    if k == 0 {
      assert plan[..k] == [];
    } else {
      var t1 := Apply(t, InsertEventRow(e));
      assert ApplyAll(t, [InsertEventRow(e)]) == t1 by {
        assert [InsertEventRow(e)][..0] == [];
      }
      var j := Min(k - 1, |cats|);
      assert inserts[..j] == CategoryInserts(e.id, cats[..j]);
      CategoryInsertsApplied(t1, e.id, cats[..j]);
      assert CategoryRows(e.id, cats[..j]) == CategoryRows(e.id, cats)[..j];
      var t2 := t1.(eventCategories := t1.eventCategories + CategoryRows(e.id, cats)[..j]);
      if k <= 1 + |cats| {
        assert plan[..k] == [InsertEventRow(e)] + inserts[..j];
        ApplyAllAppend(t, [InsertEventRow(e)], inserts[..j]);
        assert k < |plan| || mapRows == [];
      } else {
        assert k == |plan| && mapRows != [] && j == |cats|;
        assert inserts[..j] == inserts;
        assert plan[..k] == ([InsertEventRow(e)] + inserts) + MapInserts(mapRows);
        ApplyAllAppend(t, [InsertEventRow(e)], inserts);
        ApplyAllAppend(t, [InsertEventRow(e)] + inserts, MapInserts(mapRows));
        assert MapInserts(mapRows) == [InsertMapRow(mapRows[0])];
        assert MapInserts(mapRows)[..0] == [];
      }
    }
  }

  /** The category replacement of an update: delete the event's rows, then insert the new
      list, when the body carries an array (an empty array clears the categories). */
  function CategoryReplace(eventId: int, cats: Option<seq<int>>): seq<Stmt> {
    if cats.Some? then [DeleteCategoryRows(eventId)] + CategoryInserts(eventId, cats.value) else []
  }

  /** The coordinate upsert of an update, when neither coordinate is undefined. */
  function MapUpsert(eventId: int, b: EventBody): seq<Stmt> {
    if Supplied(b.latitude) && Supplied(b.longitude)
    then [UpsertMapRow(eventId, b.latitude.value, b.longitude.value)] else []
  }

  /** The EventCategories table after a replacement. */
  function Replaced(rows: seq<EventCategory>, eventId: int, cats: Option<seq<int>>): seq<EventCategory> {
    if cats.Some? then Filter(rows, NotOfEvent(eventId)) + CategoryRows(eventId, cats.value) else rows
  }

  /** The MapsIntegration table after an update. */
  function Relocated(maps: seq<MapPoint>, eventId: int, b: EventBody): seq<MapPoint> {
    if Supplied(b.latitude) && Supplied(b.longitude)
    then Upsert(maps, eventId, b.latitude.value, b.longitude.value) else maps
  }

  /** The tables after a complete update of the event. */
  function Edited(t: Tables, eventId: int, b: EventBody): Tables {
    Tables(SetColumns(t.events, eventId, UpdateColumns(b)),
           Replaced(t.eventCategories, eventId, b.categories),
           Relocated(t.maps, eventId, b))
  }

  /** The category and coordinate statements of an update do what `Replaced` and
      `Relocated` say, and leave Events alone. */
  lemma {:induction false} RowEditsApplied(t: Tables, eventId: int, b: EventBody)
    ensures ApplyAll(t, CategoryReplace(eventId, b.categories) + MapUpsert(eventId, b))
      == t.(eventCategories := Replaced(t.eventCategories, eventId, b.categories),
            maps := Relocated(t.maps, eventId, b))
  {
    var cr := CategoryReplace(eventId, b.categories);
    var mu := MapUpsert(eventId, b);
    ApplyAllAppend(t, cr, mu);
    var t1 := ApplyAll(t, cr);
    assert t1 == t.(eventCategories := Replaced(t.eventCategories, eventId, b.categories)) by {
      if b.categories.Some? {
        var cleared := Apply(t, DeleteCategoryRows(eventId));
        assert ApplyAll(t, [DeleteCategoryRows(eventId)]) == cleared by {
          assert [DeleteCategoryRows(eventId)][..0] == [];
        }
        ApplyAllAppend(t, [DeleteCategoryRows(eventId)], CategoryInserts(eventId, b.categories.value));
        CategoryInsertsApplied(cleared, eventId, b.categories.value);
      }
    }
    if mu != [] {
      assert mu[..0] == [];
    }
  }

  /** The statements of an update: the UPDATE of Events (left out when `withUpdate` is
      false), then the category replacement, then the coordinate upsert. */
  function UpdatePlan(eventId: int, b: EventBody, withUpdate: bool): seq<Stmt> {
    (if withUpdate then [UpdateEventRow(eventId, UpdateColumns(b))] else [])
      + CategoryReplace(eventId, b.categories) + MapUpsert(eventId, b)
  }

  /** A complete update leaves the tables as `Edited` says; leaving out the UPDATE of
      Events changes nothing when it would set no column. */
  lemma {:induction false} UpdatePlanApplied(t: Tables, eventId: int, b: EventBody, withUpdate: bool)
    requires !withUpdate ==> NoColumns(UpdateColumns(b))
    ensures ApplyAll(t, UpdatePlan(eventId, b, withUpdate)) == Edited(t, eventId, b)
  {
    var head: seq<Stmt> := if withUpdate then [UpdateEventRow(eventId, UpdateColumns(b))] else [];
    var rest := CategoryReplace(eventId, b.categories) + MapUpsert(eventId, b);
    assert UpdatePlan(eventId, b, withUpdate) == head + rest;
    ApplyAllAppend(t, head, rest);
    var t1 := ApplyAll(t, head);
    assert t1 == t.(events := SetColumns(t.events, eventId, UpdateColumns(b))) by {
      if withUpdate {
        assert head[..0] == [];
      } else {
        NoColumnsNoChange(t.events, eventId, UpdateColumns(b));
      }
    }
    RowEditsApplied(t1, eventId, b);
  }

  /** However many statements of an update ran before a failure, Events is either as it
      was or fully updated: the later statements never write it. */
  lemma {:induction false} UpdatePrefixEvents(t: Tables, eventId: int, b: EventBody, withUpdate: bool, k: nat)
    requires k <= |UpdatePlan(eventId, b, withUpdate)|
    ensures var ev := ApplyAll(t, UpdatePlan(eventId, b, withUpdate)[..k]).events;
      ev == t.events || ev == SetColumns(t.events, eventId, UpdateColumns(b))
  {
    var head: seq<Stmt> := if withUpdate then [UpdateEventRow(eventId, UpdateColumns(b))] else [];
    var rest := CategoryReplace(eventId, b.categories) + MapUpsert(eventId, b);
    var plan := UpdatePlan(eventId, b, withUpdate);
    assert plan == head + rest;
    if withUpdate {
      assert head[..0] == [];
    }
    if k <= |head| {
      if k == 0 {
        assert plan[..k] == [];
      } else {
        assert plan[..k] == head;
      }
    } else {
      var ran := rest[..k - |head|];
      assert plan[..k] == head + ran;
      LaterStatementsRowsOnly(eventId, b);
      forall s | s in ran ensures RowsOnly(s) {
        var m :| 0 <= m < |ran| && ran[m] == s;
        assert rest[m] == s;
      }
      ApplyAllAppend(t, head, ran);
      RowsOnlyKeepEvents(ApplyAll(t, head), ran);
    }
  }

  /** The category replacement and the coordinate upsert never write Events. */
  lemma LaterStatementsRowsOnly(eventId: int, b: EventBody)
    ensures forall s :: s in CategoryReplace(eventId, b.categories) + MapUpsert(eventId, b) ==> RowsOnly(s)
  {
    var rest := CategoryReplace(eventId, b.categories) + MapUpsert(eventId, b);
    forall s | s in rest ensures RowsOnly(s) {
      if b.categories.Some? && s in CategoryInserts(eventId, b.categories.value) {
        var i :| 0 <= i < |b.categories.value| && CategoryInserts(eventId, b.categories.value)[i] == s;
      }
    }
  }

  /** A replacement leaves the event with exactly the given category rows, in order, and
      every other event's rows as they were. */
  lemma {:induction false} CategoriesReplacedWholesale(rows: seq<EventCategory>, eventId: int, cats: seq<int>)
    ensures var r := Replaced(rows, eventId, Some(cats));
      Filter(r, OfEvent(eventId)) == CategoryRows(eventId, cats)
      && Filter(r, NotOfEvent(eventId)) == Filter(rows, NotOfEvent(eventId))
  {
    var kept := Filter(rows, NotOfEvent(eventId));
    var added := CategoryRows(eventId, cats);
    FilterAppend(kept, added, OfEvent(eventId));
    FilterAppend(kept, added, NotOfEvent(eventId));
    FilterKeepsAll(kept, NotOfEvent(eventId));
    FilterKeepsAll(added, OfEvent(eventId));
    FilterNone(kept, OfEvent(eventId));
    FilterNone(added, NotOfEvent(eventId));
    assert [] + added == added && kept + [] == kept;
  }

  /** A WHERE clause over two listings one after the other. */
  lemma {:induction false} FilterAppend<T(!new)>(a: seq<T>, b: seq<T>, p: T -> bool)
    ensures Filter(a + b, p) == Filter(a, p) + Filter(b, p)
    decreases |b|
  {
    if b == [] {
      assert a + b == a;
    } else {
      var init := b[..|b| - 1];
      var last := b[|b| - 1];
      assert a + b == (a + init) + [last];
      assert b == init + [last];
      FilterAppend(a, init, p);
      FilterSnoc(a + init, last, p);
      FilterSnoc(init, last, p);
    }
  }

  /** The owner gate of the update and delete handlers followed by `DELETE FROM Events WHERE
      EventID`: 403 and nothing changes when the event is absent or another user's; 500 and
      nothing changes when the server rejects the DELETE; otherwise the row goes and the
      answer is 200. */
  method DeleteOwnedEvent(db: Db, userId: int, eventId: int, fault: Option<nat>) returns (status: int)
    requires db.Valid()
    modifies db`events, db`eventCategories, db`maps
    ensures db.Valid()
    ensures db.eventCategories == old(db.eventCategories) && db.maps == old(db.maps)
    ensures !Owns(old(db.events), eventId, userId) ==> status == 403 && db.events == old(db.events)
    ensures Owns(old(db.events), eventId, userId) && fault == Some(0) ==>
      status == 500 && db.events == old(db.events)
    ensures Owns(old(db.events), eventId, userId) && fault != Some(0) ==>
      status == 200 && db.events == Filter(old(db.events), NotEvent(eventId))
  {
    if !Owns(db.events, eventId, userId) {
      return 403;
    }
    var ok := DeleteEvent(db, eventId, fault);
    status := if ok then 200 else 500;
  }

  /** `DELETE FROM Events WHERE EventID = @eventId` on its own: the row goes unless the
      server rejects the statement, and the keys stay valid either way. */
  method DeleteEvent(db: Db, eventId: int, fault: Option<nat>) returns (ok: bool)
    requires db.Valid()
    modifies db`events, db`eventCategories, db`maps
    ensures db.Valid()
    ensures db.eventCategories == old(db.eventCategories) && db.maps == old(db.maps)
    ensures ok <==> fault != Some(0)
    ensures db.events == if ok then Filter(old(db.events), NotEvent(eventId)) else old(db.events)
  {
    ok := Execute(db, [DeleteEventRow(eventId)], fault);
    OneStatement(old(TablesOf(db)), DeleteEventRow(eventId), fault);
    DeleteKeepsKeys(old(db.events), eventId, db.nextId);
  }

  /** A plan of one statement either takes effect or, when the server rejects it, leaves
      the tables as they were. */
  lemma OneStatement(t: Tables, s: Stmt, fault: Option<nat>)
    ensures StatementsRun([s], fault) == |[s]| <==> fault != Some(0)
    ensures ApplyAll(t, [s][..StatementsRun([s], fault)]) == if fault == Some(0) then t else Apply(t, s)
  {
    if fault == Some(0) {
      assert [s][..0] == [];
    } else {
      assert [s][..1] == [s] && [s][..0] == [];
    }
  }

  /** Deleting rows keeps event ids unique and below the identity counter. */
  lemma DeleteKeepsKeys(events: seq<Event>, eventId: int, bound: int)
    requires UniqueEventIds(events) && forall e :: e in events ==> e.id < bound
    ensures var r := Filter(events, NotEvent(eventId));
      UniqueEventIds(r) && forall e :: e in r ==> e.id < bound
  {
    FilterKeepsPairwise(events, NotEvent(eventId), DifferentEventIds);
  }

  /** With a unique EventID, deleting an existing event removes exactly one row. */
  lemma {:induction false} DeleteRemovesOneRow(events: seq<Event>, eventId: int)
    requires UniqueEventIds(events) && FindEvent(events, eventId).Some?
    ensures |Filter(events, NotEvent(eventId))| == |events| - 1
    ensures forall e :: e in Filter(events, NotEvent(eventId)) <==> e in events && e.id != eventId
  {
    var rest := events[1..];
    assert UniqueEventIds(rest) by {
      forall i, j | 0 <= i < j < |rest| ensures DifferentEventIds(rest[i], rest[j]) {
        assert rest[i] == events[i + 1] && rest[j] == events[j + 1];
      }
    }
    assert events == [events[0]] + rest;
    if events[0].id == eventId {
      forall x | x in rest ensures NotEvent(eventId)(x) {
        var m :| 0 <= m < |rest| && rest[m] == x;
        assert DifferentEventIds(events[0], events[m + 1]);
      }
      FilterKeepsAll(rest, NotEvent(eventId));
    } else {
      DeleteRemovesOneRow(rest, eventId);
    }
  }

  function OwnedBy(userId: int): Event -> bool { (e: Event) => e.ownerId == userId }
  function EventKey(e: Event): int { e.id }

  /** `SELECT EventID FROM Events WHERE CompanyID = @userId ORDER BY key DESC`, then each id
      loaded through `getFullEventById`: the owner's events, each once per row, in `key`
      order. */
  method OwnEvents(events: seq<Event>, userId: int, key: Event -> int) returns (listing: seq<Event>)
    requires UniqueEventIds(events)
    ensures SortedDesc(listing, key)
    ensures forall e :: multiset(listing)[e] == if e.ownerId == userId then multiset(events)[e] else 0
  {
    var rows := SelectOrdered(events, OwnedBy(userId), key);
    var views := Hydrate(rows, EventKey, events);
    LoadedRowsAreTheRows(events, rows, views);
    listing := Seconds(views);
  }

  /** With a unique EventID, loading each selected row by its id gives back that row, and
      no row is dropped. */
  lemma LoadedRowsAreTheRows(events: seq<Event>, rows: seq<Event>, views: seq<(Event, Event)>)
    requires UniqueEventIds(events) && forall x :: x in rows ==> x in events
    requires Firsts(views) == Filter(rows, Loads(events, EventKey))
    requires forall k :: 0 <= k < |views| ==> FindEvent(events, views[k].0.id) == Some(views[k].1)
    ensures Seconds(views) == rows
  {
    forall x | x in rows ensures Loads(events, EventKey)(x) {
      FindEventUnique(events, x);
      assert FindEvent(events, EventKey(x)).Some?;
    }
    FilterKeepsAll(rows, Loads(events, EventKey));
    forall k | 0 <= k < |views| ensures views[k].1 == rows[k] {
      assert Firsts(views)[k] == rows[k];
      FindEventUnique(events, rows[k]);
    }
  }
}
