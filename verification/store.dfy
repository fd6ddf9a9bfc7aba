/**
 The mood-entry and medication store of the web application (app.py), with
 the database replaced by immutable maps and every route replaced by a pure
 transition that returns an outcome together with the new store.

 Tables:
 - mood entries, keyed by id, with a unique `entry_date`;
 - medications, keyed by id, with a unique `name` and a soft-delete `active` flag;
 - medication-taken links from an entry to a medication, deleted with their entry.

 New rows get SQLite's default rowid: one more than the largest id in the
 table, or 1 in an empty table.
 */
module Store {
  import opened Text
  import opened Options

  /** One day's record. The form's date is a day ordinal; the levels are already parsed integers. */
  datatype Entry = Entry(date: int, energy: int, mood: int, stress: int, notes: string)

  datatype Medication = Medication(name: string, active: bool)

  /**
   A row of the medication-taken table. Its own row id is never observed by the
   modelled routes, and one submit creates at most one row per (entry, medication)
   pair, so the table is a set of rows.
   */
  datatype Link = Link(entry: int, med: int, taken: bool)

  datatype Db = Db(entries: map<int, Entry>, meds: map<int, Medication>, links: set<Link>)

  /** What a route reports back to the user (the flash message category, in effect). */
  datatype Outcome = Ok | Duplicate | Empty | NotFound | Reactivated | AlreadyExists

  datatype Step = Step(outcome: Outcome, db: Db)

  const EmptyDb := Db(map[], map[], {})

  // ---------------------------------------------------------------- row ids

  /** Set extensionality, stated so that a non-empty set yields an element to pick. */
  lemma EmptyIfNoElement(s: set<int>)
    ensures (forall y :: y !in s) ==> s == {}
  {
    if forall y :: y !in s {
      assert s == {};
    }
  }

  lemma {:induction false} MaxExists(ids: set<int>)
    requires ids != {}
    ensures exists m :: m in ids && forall k :: k in ids ==> k <= m
    decreases |ids|
  {
    EmptyIfNoElement(ids);
    var x :| x in ids;
    var rest := ids - {x};
    var top := x;
    if rest != {} {
      MaxExists(rest);
      var m :| m in rest && forall k :: k in rest ==> k <= m;
      top := if m < x then x else m;
    }
    forall k | k in ids ensures k <= top {
      if k != x { assert k in rest; }
    }
  }

  lemma {:induction false} MinExists(ids: set<int>)
    requires ids != {}
    ensures exists m :: m in ids && forall k :: k in ids ==> m <= k
    decreases |ids|
  {
    EmptyIfNoElement(ids);
    var x :| x in ids;
    var rest := ids - {x};
    var bottom := x;
    if rest != {} {
      MinExists(rest);
      var m :| m in rest && forall k :: k in rest ==> m <= k;
      bottom := if x < m then x else m;
    }
    forall k | k in ids ensures bottom <= k {
      if k != x { assert k in rest; }
    }
  }

  function MaxOf(ids: set<int>): (m: int)
    requires ids != {}
    ensures m in ids && forall k :: k in ids ==> k <= m
  {
    MaxExists(ids);
    var m :| m in ids && forall k :: k in ids ==> k <= m;
    m
  }

  function MinOf(ids: set<int>): (m: int)
    requires ids != {}
    ensures m in ids && forall k :: k in ids ==> m <= k
  {
    MinExists(ids);
    var m :| m in ids && forall k :: k in ids ==> m <= k;
    m
  }

  /** SQLite's rowid for a new row: fresh, above every existing id, and 1 in an empty table. */
  function NextId(ids: set<int>): (r: int)
    ensures r !in ids
    ensures forall k :: k in ids ==> k < r
    ensures ids == {} ==> r == 1
    ensures ids != {} ==> r - 1 in ids
  {
    if ids == {} then 1 else MaxOf(ids) + 1
  }

  // ---------------------------------------------------------------- invariants

  /** The unique constraint on `MoodEntry.entry_date`. */
  predicate DatesUnique(entries: map<int, Entry>) {
    forall a, b :: a in entries && b in entries && entries[a].date == entries[b].date ==> a == b
  }

  /** The unique constraint on `Medication.name`. */
  predicate NamesUnique(meds: map<int, Medication>) {
    forall a, b :: a in meds && b in meds && meds[a].name == meds[b].name ==> a == b
  }

  /** The two foreign keys of the medication-taken table. */
  predicate LinksResolve(db: Db) {
    forall l :: l in db.links ==> l.entry in db.entries && l.med in db.meds
  }

  predicate Valid(db: Db) {
    DatesUnique(db.entries) && NamesUnique(db.meds) && LinksResolve(db)
  }

  // ---------------------------------------------------------------- entries

  predicate HasEntryOn(entries: map<int, Entry>, date: int) {
    exists k :: k in entries && entries[k].date == date
  }

  /** The links created for a new entry: one taken link per selected id naming a medication, active or not. */
  function TakenLinks(meds: map<int, Medication>, entry: int, selected: seq<int>): (ls: set<Link>)
    ensures forall l :: l in ls <==> l.entry == entry && l.taken && l.med in meds && l.med in selected
  {
    set m | m in meds && m in selected :: Link(entry, m, true)
  }

  /** `submit_entry`: refuse a second entry for a date; otherwise add the entry and its taken links. */
  function SubmitEntry(db: Db, form: Entry, selected: seq<int>): (r: Step)
    ensures r.outcome == Duplicate <==> HasEntryOn(db.entries, form.date)
    ensures r.outcome == Duplicate ==> r.db == db
    ensures r.outcome != Duplicate ==>
      && r.outcome == Ok
      && r.db.meds == db.meds
      && (var id := NextId(db.entries.Keys);
          && r.db.entries.Keys == db.entries.Keys + {id}
          && r.db.entries[id] == form
          && (forall k :: k in db.entries ==> r.db.entries[k] == db.entries[k])
          && (forall l :: l in r.db.links <==>
                l in db.links || (l.entry == id && l.taken && l.med in db.meds && l.med in selected)))
  {
    if HasEntryOn(db.entries, form.date) then Step(Duplicate, db)
    else
      var id := NextId(db.entries.Keys);
      Step(Ok, Db(db.entries[id := form], db.meds, db.links + TakenLinks(db.meds, id, selected)))
  }

  /** Some entry other than `id` is recorded on `date`. */
  predicate DateTakenByOther(entries: map<int, Entry>, id: int, date: int) {
    exists k :: k in entries && k != id && entries[k].date == date
  }

  /**
   `edit_entry`: an unknown id is not found; moving to a date held by another
   entry is refused; otherwise the entry's fields are overwritten. Links stay.
   */
  function EditEntry(db: Db, id: int, form: Entry): (r: Step)
    ensures id !in db.entries ==> r == Step(NotFound, db)
    ensures r.outcome == Duplicate <==>
      id in db.entries && form.date != db.entries[id].date && DateTakenByOther(db.entries, id, form.date)
    ensures r.outcome == Duplicate ==> r.db == db
    ensures id in db.entries && r.outcome != Duplicate ==>
      && r.outcome == Ok
      && r.db.meds == db.meds && r.db.links == db.links
      && r.db.entries.Keys == db.entries.Keys
      && r.db.entries[id] == form
      && (forall k :: k in db.entries && k != id ==> r.db.entries[k] == db.entries[k])
  {
    if id !in db.entries then Step(NotFound, db)
    else if form.date != db.entries[id].date && DateTakenByOther(db.entries, id, form.date) then Step(Duplicate, db)
    else Step(Ok, db.(entries := db.entries[id := form]))
  }

  /** `delete_entry`: remove the entry and, by cascade, every link that points at it. */
  function DeleteEntry(db: Db, id: int): (r: Step)
    ensures id !in db.entries ==> r == Step(NotFound, db)
    ensures id in db.entries ==>
      && r.outcome == Ok
      && r.db.meds == db.meds
      && r.db.entries.Keys == db.entries.Keys - {id}
      && (forall k :: k in r.db.entries ==> r.db.entries[k] == db.entries[k])
      && (forall l :: l in r.db.links <==> l in db.links && l.entry != id)
  {
    if id !in db.entries then Step(NotFound, db)
    else Step(Ok, Db(db.entries - {id}, db.meds, set l | l in db.links && l.entry != id))
  }

  // ---------------------------------------------------------------- medications

  /**
   `Medication.query.filter_by(name=name).first()`, whatever the flag. The query
   has no ORDER BY, so SQLite promises no particular row; under the unique name
   constraint at most one row matches, and the model picks the lowest id.
   */
  function FindByName(meds: map<int, Medication>, name: string): (r: Option<int>)
    ensures r.None? <==> forall k :: k in meds ==> meds[k].name != name
    ensures r.Some? ==> r.value in meds && meds[r.value].name == name
    ensures r.Some? ==> forall k :: k in meds && meds[k].name == name ==> r.value <= k
  {
    var named := set k | k in meds && meds[k].name == name;
    assert forall k :: k in meds && meds[k].name == name ==> k in named;
    if named == {} then None else Some(MinOf(named))
  }

  /**
   `add_medication`: the name is stripped; an empty name is refused; an existing
   inactive medication of that name is reactivated, an active one is left alone,
   and otherwise a new active medication is added.
   */
  function AddMedication(db: Db, rawName: string): (r: Step)
    ensures r.outcome in {Empty, Reactivated, AlreadyExists, Ok}
    ensures r.outcome == Empty <==> Strip(rawName) == []
    ensures r.outcome in {Empty, AlreadyExists} ==> r.db == db
    ensures r.db.entries == db.entries && r.db.links == db.links
    ensures r.outcome == Reactivated ==>
      && r.db.meds.Keys == db.meds.Keys
      && (exists k :: k in db.meds && db.meds[k].name == Strip(rawName) && !db.meds[k].active
             && r.db.meds == db.meds[k := Medication(Strip(rawName), true)])
    ensures r.outcome == Ok ==>
      && (forall k :: k in db.meds ==> db.meds[k].name != Strip(rawName))
      && (var id := NextId(db.meds.Keys);
          && r.db.meds.Keys == db.meds.Keys + {id}
          && r.db.meds[id] == Medication(Strip(rawName), true)
          && (forall k :: k in db.meds ==> r.db.meds[k] == db.meds[k]))
  {
    var name := Strip(rawName);
    if name == [] then Step(Empty, db)
    else
      match FindByName(db.meds, name)
      case Some(k) =>
        if !db.meds[k].active then Step(Reactivated, db.(meds := db.meds[k := db.meds[k].(active := true)]))
        else Step(AlreadyExists, db)
      case None =>
        Step(Ok, db.(meds := db.meds[NextId(db.meds.Keys) := Medication(name, true)]))
  }

  /** The flag flip shared by `deactivate_medication` and `activate_medication`. */
  function SetActive(db: Db, id: int, active: bool): (r: Step)
    ensures id !in db.meds ==> r == Step(NotFound, db)
    ensures id in db.meds ==>
      && r.outcome == Ok
      && r.db.entries == db.entries && r.db.links == db.links
      && r.db.meds.Keys == db.meds.Keys
      && r.db.meds[id] == Medication(db.meds[id].name, active)
      && (forall k :: k in db.meds && k != id ==> r.db.meds[k] == db.meds[k])
  {
    if id !in db.meds then Step(NotFound, db)
    else Step(Ok, db.(meds := db.meds[id := db.meds[id].(active := active)]))
  }

  /** `deactivate_medication`: the medication leaves the active list; its links are kept. */
  function DeactivateMedication(db: Db, id: int): (r: Step)
    ensures id !in db.meds ==> r == Step(NotFound, db)
    ensures id in db.meds ==> r.outcome == Ok && id in r.db.meds && !r.db.meds[id].active && r.db.links == db.links
    ensures id in db.meds ==> r.db.entries == db.entries && r.db.meds == db.meds[id := Medication(db.meds[id].name, false)]
  {
    SetActive(db, id, false)
  }

  /** `activate_medication`: the medication returns to the active list; its name and links are kept. */
  function ActivateMedication(db: Db, id: int): (r: Step)
    ensures id !in db.meds ==> r == Step(NotFound, db)
    ensures id in db.meds ==> r.outcome == Ok && id in r.db.meds && r.db.meds[id].active && r.db.links == db.links
    ensures id in db.meds ==> r.db.entries == db.entries && r.db.meds == db.meds[id := Medication(db.meds[id].name, true)]
  {
    SetActive(db, id, true)
  }

  /** Some medication other than `id` is called `name`, active or not. */
  predicate NameTakenByOther(meds: map<int, Medication>, id: int, name: string) {
    exists k :: k in meds && k != id && meds[k].name == name
  }

  /**
   `edit_medication`: an unknown id is not found (checked first); an empty
   stripped name is refused; a name held by a different medication is refused;
   otherwise only the name of the target changes.
   */
  function EditMedication(db: Db, id: int, rawName: string): (r: Step)
    ensures r.outcome in {NotFound, Empty, Duplicate, Ok}
    ensures r.outcome != Ok ==> r.db == db
    ensures r.outcome == NotFound <==> id !in db.meds
    ensures r.outcome == Empty <==> id in db.meds && Strip(rawName) == []
    ensures r.outcome == Duplicate <==>
      id in db.meds && Strip(rawName) != [] && NameTakenByOther(db.meds, id, Strip(rawName))
    ensures r.outcome == Ok ==>
      && r.db.entries == db.entries && r.db.links == db.links
      && r.db.meds.Keys == db.meds.Keys
      && r.db.meds[id] == Medication(Strip(rawName), db.meds[id].active)
      && (forall k :: k in db.meds && k != id ==> r.db.meds[k] == db.meds[k])
  {
    if id !in db.meds then Step(NotFound, db)
    else
      var name := Strip(rawName);
      if name == [] then Step(Empty, db)
      else if NameTakenByOther(db.meds, id, name) then Step(Duplicate, db)
      else Step(Ok, db.(meds := db.meds[id := db.meds[id].(name := name)]))
  }

  // ---------------------------------------------------------------- active medication listing

  predicate Distinct(ids: seq<int>) {
    forall i, j :: 0 <= i < j < |ids| ==> ids[i] != ids[j]
  }

  /** Every listed id is a medication, and neighbours appear in name order. */
  predicate SortedByName(meds: map<int, Medication>, ids: seq<int>) {
    && (forall i :: 0 <= i < |ids| ==> ids[i] in meds)
    && (forall i :: 0 < i < |ids| ==> LexLe(meds[ids[i - 1]].name, meds[ids[i]].name))
  }

  function InsertByName(meds: map<int, Medication>, xs: seq<int>, id: int): (r: seq<int>)
    requires id in meds
    requires forall i :: 0 <= i < |xs| ==> xs[i] in meds
    ensures |r| == |xs| + 1
    ensures forall x :: x in r <==> x in xs || x == id
    ensures |xs| > 0 ==> r[0] == id || r[0] == xs[0]
    ensures SortedByName(meds, xs) ==> SortedByName(meds, r)
    ensures Distinct(xs) && id !in xs ==> Distinct(r)
  {
    if |xs| == 0 then [id]
    else if LexLe(meds[id].name, meds[xs[0]].name) then [id] + xs
    else
      LexLeTotal(meds[id].name, meds[xs[0]].name);
      var rest := InsertByName(meds, xs[1..], id);
      assert Distinct(xs) && id !in xs ==> xs[0] !in rest by {
        if Distinct(xs) && id !in xs {
          assert forall j :: 0 <= j < |xs[1..]| ==> xs[1..][j] == xs[j + 1];
          assert xs[0] !in xs[1..];
        }
      }
      [xs[0]] + rest
  }

  /**
   The medications offered on the entry form: `Medication.query.filter_by(active=True)
   .order_by(Medication.name)`. Exactly the active medications, each once, in name order.
   */
  method ActiveMedications(db: Db) returns (listing: seq<int>)
    ensures forall i :: 0 <= i < |listing| ==> IsActive(db.meds, listing[i])
    ensures forall k :: IsActive(db.meds, k) ==> k in listing
    ensures Distinct(listing)
    ensures SortedByName(db.meds, listing)
  {
    var todo := set k | k in db.meds && IsActive(db.meds, k);
    listing := [];
    while todo != {}
      invariant forall k :: k in todo ==> IsActive(db.meds, k)
      invariant forall i :: 0 <= i < |listing| ==> IsActive(db.meds, listing[i]) && listing[i] !in todo
      invariant forall k :: IsActive(db.meds, k) ==> k in listing || k in todo
      invariant Distinct(listing)
      invariant SortedByName(db.meds, listing)
      decreases todo
    {
      EmptyIfNoElement(todo);
      var k :| k in todo;
      var before := listing;
      listing := InsertByName(db.meds, listing, k);
      todo := todo - {k};
      forall i | 0 <= i < |listing| ensures IsActive(db.meds, listing[i]) && listing[i] !in todo {
        assert listing[i] in listing;
        if listing[i] != k {
          var j :| 0 <= j < |before| && before[j] == listing[i];
        }
      }
    }
  }

  /** A medication offered on the entry form. */
  predicate IsActive(meds: map<int, Medication>, k: int) {
    k in meds && meds[k].active
  }

  /** With unique names, a name-sorted listing is strictly increasing by name between any two positions. */
  lemma {:induction false} SortedListingStrict(meds: map<int, Medication>, ids: seq<int>, i: int, j: int)
    requires NamesUnique(meds) && Distinct(ids) && SortedByName(meds, ids)
    requires 0 <= i < j < |ids|
    ensures LexLe(meds[ids[i]].name, meds[ids[j]].name)
    ensures meds[ids[i]].name != meds[ids[j]].name
    decreases j - i
  {
    if j > i + 1 {
      SortedListingStrict(meds, ids, i, j - 1);
      LexLeTransitive(meds[ids[i]].name, meds[ids[j - 1]].name, meds[ids[j]].name);
    }
    assert ids[i] != ids[j];
  }

  // ---------------------------------------------------------------- invariant preservation

  lemma SubmitEntryPreservesValid(db: Db, form: Entry, selected: seq<int>)
    requires Valid(db)
    ensures Valid(SubmitEntry(db, form, selected).db)
  {
  }

  lemma EditEntryPreservesValid(db: Db, id: int, form: Entry)
    requires Valid(db)
    ensures Valid(EditEntry(db, id, form).db)
  {
  }

  lemma DeleteEntryPreservesValid(db: Db, id: int)
    requires Valid(db)
    ensures Valid(DeleteEntry(db, id).db)
  {
  }

  lemma AddMedicationPreservesValid(db: Db, rawName: string)
    requires Valid(db)
    ensures Valid(AddMedication(db, rawName).db)
  {
  }

  lemma EditMedicationPreservesValid(db: Db, id: int, rawName: string)
    requires Valid(db)
    ensures Valid(EditMedication(db, id, rawName).db)
  {
  }

  /** Every route of the store, with its already-parsed form input. */
  datatype Request =
    | Submit(form: Entry, selected: seq<int>)
    | Edit(entryId: int, form: Entry)
    | Delete(entryId: int)
    | AddMed(rawName: string)
    | Deactivate(medId: int)
    | Activate(medId: int)
    | RenameMed(medId: int, rawName: string)

  /** The routes that write only the medication table. */
  predicate OnMedications(req: Request) {
    req.AddMed? || req.Deactivate? || req.Activate? || req.RenameMed?
  }

  /**
   One request, dispatched to its route. A refusal leaves the store as it was;
   the entry routes never touch the medications, and the medication routes never
   touch the entries or the links.
   */
  function Handle(db: Db, req: Request): (r: Step)
    ensures r.outcome in {Duplicate, Empty, NotFound, AlreadyExists} ==> r.db == db
    ensures OnMedications(req) ==> r.db.entries == db.entries && r.db.links == db.links
    ensures !OnMedications(req) ==> r.db.meds == db.meds
  {
    match req
    case Submit(form, selected) => SubmitEntry(db, form, selected)
    case Edit(id, form) => EditEntry(db, id, form)
    case Delete(id) => DeleteEntry(db, id)
    case AddMed(name) => AddMedication(db, name)
    case Deactivate(id) => DeactivateMedication(db, id)
    case Activate(id) => ActivateMedication(db, id)
    case RenameMed(id, name) => EditMedication(db, id, name)
  }

  /** The store after serving `reqs` in order; requests on one table leave the other as it was. */
  function Serve(db: Db, reqs: seq<Request>): (r: Db)
    ensures (forall k :: 0 <= k < |reqs| ==> OnMedications(reqs[k])) ==> r.entries == db.entries && r.links == db.links
    ensures (forall k :: 0 <= k < |reqs| ==> !OnMedications(reqs[k])) ==> r.meds == db.meds
    decreases |reqs|
  {
    if |reqs| == 0 then db else Serve(Handle(db, reqs[0]).db, reqs[1..])
  }

  /** No single request breaks date uniqueness, name uniqueness or the link foreign keys. */
  lemma HandlePreservesValid(db: Db, req: Request)
    requires Valid(db)
    ensures Valid(Handle(db, req).db)
  {
    match req {
      case Submit(form, selected) => SubmitEntryPreservesValid(db, form, selected);
      case Edit(id, form) => EditEntryPreservesValid(db, id, form);
      case Delete(id) => DeleteEntryPreservesValid(db, id);
      case AddMed(name) => AddMedicationPreservesValid(db, name);
      case Deactivate(id) =>
      case Activate(id) =>
      case RenameMed(id, name) => EditMedicationPreservesValid(db, id, name);
    }
  }

  /** No sequence of requests breaks date uniqueness, name uniqueness or the link foreign keys. */
  lemma {:induction false} ServePreservesValid(db: Db, reqs: seq<Request>)
    requires Valid(db)
    ensures Valid(Serve(db, reqs))
    decreases |reqs|
  {
    if |reqs| > 0 {
      HandlePreservesValid(db, reqs[0]);
      ServePreservesValid(Handle(db, reqs[0]).db, reqs[1..]);
    }
  }

  // ---------------------------------------------------------------- route-level properties

  /** Moving an entry to its own current date is never a conflict. */
  lemma EditToOwnDateSucceeds(db: Db, id: int, form: Entry)
    requires id in db.entries && form.date == db.entries[id].date
    ensures EditEntry(db, id, form).outcome == Ok
  {
  }

  /** With unique names, `add_medication` is decided by the one medication carrying the stripped name. */
  lemma AddMedicationCases(db: Db, rawName: string)
    requires NamesUnique(db.meds)
    ensures var name := Strip(rawName);
      var r := AddMedication(db, rawName);
      && (r.outcome == AlreadyExists <==>
            name != [] && exists k :: k in db.meds && db.meds[k].name == name && db.meds[k].active)
      && (r.outcome == Reactivated <==>
            name != [] && exists k :: k in db.meds && db.meds[k].name == name && !db.meds[k].active)
      && (r.outcome == Ok <==> name != [] && forall k :: k in db.meds ==> db.meds[k].name != name)
  {
  }

  /** Reactivation through `add_medication` is idempotent: a second identical request changes nothing. */
  lemma AddMedicationTwice(db: Db, rawName: string)
    requires NamesUnique(db.meds) && Strip(rawName) != []
    ensures var once := AddMedication(db, rawName).db;
      var twice := AddMedication(once, rawName);
      twice.outcome == AlreadyExists && twice.db == once
  {
    var name := Strip(rawName);
    var r := AddMedication(db, rawName);
    AddMedicationPreservesValidNames(db, rawName);
    var k: int;
    match FindByName(db.meds, name) {
      case Some(j) => k := j;
      case None => k := NextId(db.meds.Keys);
    }
    assert k in r.db.meds && r.db.meds[k] == Medication(name, true);
  }

  lemma AddMedicationPreservesValidNames(db: Db, rawName: string)
    requires NamesUnique(db.meds)
    ensures NamesUnique(AddMedication(db, rawName).db.meds)
  {
  }

  /** The scenario of a duplicate date being freed by moving the first entry away. */
  lemma DuplicateDateScenario(day: int)
    ensures var e := Entry(day, 5, 5, 5, "");
      var s1 := SubmitEntry(EmptyDb, e, []);
      var s2 := SubmitEntry(s1.db, e, []);
      var s3 := EditEntry(s2.db, 1, e.(date := day + 1));
      var s4 := SubmitEntry(s3.db, e, []);
      && s1.outcome == Ok && s1.db.entries == map[1 := e]
      && s2.outcome == Duplicate && s2.db == s1.db
      && s3.outcome == Ok
      && s4.outcome == Ok && s4.db.entries == map[1 := e.(date := day + 1), 2 := e]
  {
    var e := Entry(day, 5, 5, 5, "");
    var s1 := SubmitEntry(EmptyDb, e, []);
    assert NextId({}) == 1;
    assert s1.db.entries == map[1 := e];
    var s2 := SubmitEntry(s1.db, e, []);
    assert HasEntryOn(s1.db.entries, day) by { assert s1.db.entries[1].date == day; }
    var s3 := EditEntry(s2.db, 1, e.(date := day + 1));
    assert !DateTakenByOther(s2.db.entries, 1, day + 1);
    assert s3.db.entries == map[1 := e.(date := day + 1)];
    assert !HasEntryOn(s3.db.entries, day);
    assert NextId({1}) == 2;
  }
}
