/**
 * The infinite timeline (infinite_timeline.js): readers submit story entries,
 * each tagged with the current week; an editor marks one entry per week as
 * selected, sweeps away the unselected ones, and moves the week counter on.
 *
 * The timeline table is a map from id to entry and the `TimelineWeek` record of
 * the global table is the `week` field; every store call becomes an update of
 * these two fields. Ids as stored are integers. A week is stored as it was
 * received: `setWeek` writes `req.body.week` unchecked, so the counter, and
 * the week of every entry created after it, is whatever value the form sent
 * (text, from a browser). The values a request carries (`req.body.week`,
 * `req.body.story`, `req.query.week`) are arbitrary JavaScript values too,
 * and weeks are only ever compared through `parseInt`, as the handlers do.
 */
module Timeline {
  import opened Js
  import opened Sorting

  /** An item of the timeline table; `selected` stands for `selected = 'x'`
      being present (the handlers never write any other marker). */
  datatype Entry = Entry(content: JsValue, week: JsValue, selected: bool)

  /** An item together with its key, as scans and queries return it. */
  datatype Row = Row(id: int, entry: Entry)

  /** What a state-changing handler answers: a redirect to the login page or
      to the timeline, or the error page a failed store call renders. */
  datatype Reply = ToLogin | ToTimeline | ErrorPage

  /** What `edit` answers. */
  datatype EditOutcome = EditDenied | EditFailed | EditShown(view: EditView)

  /** What `changeWeek` answers: the form shows the current week. */
  datatype WeekForm = WeekDenied | WeekFailed | WeekShown(week: JsValue)

  /** What the edit page is rendered with: `{story, week}`. */
  datatype EditView = EditView(story: seq<Row>, week: JsValue)

  /** `parseInt(x.week)`: the week an entry belongs to, None for NaN. */
  function WeekOf(e: Entry): Option<int>
  {
    ParseInt(e.week)
  }

  /** The order of the index query, which sorts on the stored week itself: a
      number by its value; a week of any other type sorts as week 0. */
  function RowWeek(r: Row): int
  {
    if r.entry.week.Num? then r.entry.week.n else 0
  }

  /** `parseInt(x.week) === parseInt(week)`: NaN equals nothing. */
  predicate InWeek(e: Entry, w: Option<int>)
  {
    w.Some? && WeekOf(e) == w
  }

  function WeekIds(table: map<int, Entry>, w: Option<int>): set<int>
  {
    set id | id in table && InWeek(table[id], w)
  }

  function SelectedIds(table: map<int, Entry>): set<int>
  {
    set id | id in table && table[id].selected
  }

  function UnselectedIds(table: map<int, Entry>): set<int>
  {
    set id | id in table && !table[id].selected
  }

  function RowIds(rows: seq<Row>): set<int>
  {
    set r | r in rows :: r.id
  }

  /** `rows` lists the table's items with exactly the keys `ids`, each once. */
  ghost predicate Lists(rows: seq<Row>, table: map<int, Entry>, ids: set<int>)
  {
    && (forall i :: 0 <= i < |rows| ==> rows[i].id in table && table[rows[i].id] == rows[i].entry)
    && (forall i, j :: 0 <= i < j < |rows| ==> rows[i].id != rows[j].id)
    && RowIds(rows) == ids
  }

  /** The invariant the selection keeps: no week has two selected entries. */
  ghost predicate OneSelectedPerWeek(table: map<int, Entry>)
  {
    forall a, b {:trigger WeekOf(table[a]), WeekOf(table[b])} ::
      (a in table && b in table && table[a].selected && table[b].selected && WeekOf(table[a]) == WeekOf(table[b]))
      ==> a == b
  }

  /** The week the edit page shows: the query week when it is present and
      numeric, the stored counter otherwise. */
  function EditWeek(query: JsValue, counter: JsValue): (w: JsValue)
    ensures Truthy(query) && !IsNaN(query) ==> w == query
    ensures !(Truthy(query) && !IsNaN(query)) ==> w == counter
  {
    if Truthy(query) && !IsNaN(query) then query else counter
  }

  /** The table once every entry of week `w` has been marked selected when its
      id is strictly equal to `chosen`, and unmarked otherwise. */
  function AfterUpdate(table: map<int, Entry>, w: Option<int>, chosen: JsValue): (t: map<int, Entry>)
    ensures t.Keys == table.Keys
  {
    map id | id in table ::
      if InWeek(table[id], w) then table[id].(selected := StrictEquals(Num(id), chosen)) else table[id]
  }

  /** The table once every unselected entry has been deleted. */
  function AfterClean(table: map<int, Entry>): (t: map<int, Entry>)
    ensures t.Keys == SelectedIds(table)
  {
    map id | id in table && table[id].selected :: table[id]
  }

  // ---------------------------------------------------------------------------
  // Properties of the selection and of the sweep

  /** In the requested week exactly the entry whose id is `chosen` is
      selected; content and week are kept. */
  lemma UpdateSelectsExactlyChosen(table: map<int, Entry>, w: Option<int>, chosen: JsValue, id: int)
    requires id in WeekIds(table, w)
    ensures AfterUpdate(table, w, chosen)[id].selected <==> chosen == Num(id)
    ensures AfterUpdate(table, w, chosen)[id].content == table[id].content
    ensures AfterUpdate(table, w, chosen)[id].week == table[id].week
  {
  }

  /** Entries of other weeks, and every entry when the week is NaN, are untouched. */
  lemma UpdateKeepsOtherWeeks(table: map<int, Entry>, w: Option<int>, chosen: JsValue, id: int)
    requires id in table && id !in WeekIds(table, w)
    ensures AfterUpdate(table, w, chosen)[id] == table[id]
  {
  }

  /** The id comparison is strict: a chosen id that is not a number (a form
      field's text, say) unselects the whole week. */
  lemma UpdateWithTextIdSelectsNothing(table: map<int, Entry>, w: Option<int>, chosen: string)
    ensures forall id :: id in WeekIds(table, w) ==> !AfterUpdate(table, w, Str(chosen))[id].selected
  {
  }

  /** After an update the requested week has at most one selected entry. */
  lemma UpdateLeavesOneSelected(table: map<int, Entry>, w: Option<int>, chosen: JsValue, a: int, b: int)
    requires a in WeekIds(table, w) && b in WeekIds(table, w)
    requires AfterUpdate(table, w, chosen)[a].selected && AfterUpdate(table, w, chosen)[b].selected
    ensures a == b
  {
  }

  /** Updating keeps the one-selected-per-week invariant of the whole table. */
  lemma {:induction false} UpdatePreservesOneSelected(table: map<int, Entry>, w: Option<int>, chosen: JsValue)
    requires OneSelectedPerWeek(table)
    ensures OneSelectedPerWeek(AfterUpdate(table, w, chosen))
  {
    var t := AfterUpdate(table, w, chosen);
    forall a, b | a in t && b in t && t[a].selected && t[b].selected && WeekOf(t[a]) == WeekOf(t[b])
      ensures a == b
    {
      if InWeek(table[a], w) {
        assert InWeek(table[b], w);
      } else {
        assert !InWeek(table[b], w);
      }
    }
  }

  /** Running the same update twice gives the table one update gives. */
  lemma UpdateIdempotent(table: map<int, Entry>, w: Option<int>, chosen: JsValue)
    ensures AfterUpdate(AfterUpdate(table, w, chosen), w, chosen) == AfterUpdate(table, w, chosen)
  {
    var once := AfterUpdate(table, w, chosen);
    var twice := AfterUpdate(once, w, chosen);
    forall id | id in once
      ensures twice[id] == once[id]
    {
      assert once[id].week == table[id].week;
      assert InWeek(once[id], w) == InWeek(table[id], w);
    }
  }

  /** The sweep deletes exactly the unselected entries and keeps the selected
      ones as they were. */
  lemma CleanKeepsExactlySelected(table: map<int, Entry>, id: int)
    ensures id in AfterClean(table) <==> id in table && table[id].selected
    ensures id in AfterClean(table) ==> AfterClean(table)[id] == table[id]
  {
  }

  lemma CleanPreservesOneSelected(table: map<int, Entry>)
    requires OneSelectedPerWeek(table)
    ensures OneSelectedPerWeek(AfterClean(table))
  {
  }

  /** A week given as text and the same week given as a number pick the same entries. */
  lemma WeekTextOrNumber(table: map<int, Entry>, n: int)
    ensures WeekIds(table, ParseInt(Str(IntToText(n)))) == WeekIds(table, ParseInt(Num(n)))
  {
    ParseIntNumberOrText(n);
  }

  /** An entry whose week was stored as the text of `n` (a week set from the
      form) belongs to exactly the weeks an entry stored with the number `n`
      belongs to, and shares the invariant's notion of "same week" with it. */
  lemma TextWeekActsAsNumber(e: Entry, n: int, w: Option<int>)
    ensures InWeek(e.(week := Str(IntToText(n))), w) <==> InWeek(e.(week := Num(n)), w)
    ensures WeekOf(e.(week := Str(IntToText(n)))) == WeekOf(e.(week := Num(n))) == Some(n)
  {
    ParseIntNumberOrText(n);
  }

  /** Selecting story 2 of week 3 among {1: week 3, 2: week 3, 3: week 4}. */
  lemma UpdateExample()
    ensures var t := map[1 := Entry(Str("a"), Num(3), false), 2 := Entry(Str("b"), Num(3), false), 3 := Entry(Str("c"), Num(4), false)];
            AfterUpdate(t, Some(3), Num(2)) == t[2 := Entry(Str("b"), Num(3), true)]
  {
    var t := map[1 := Entry(Str("a"), Num(3), false), 2 := Entry(Str("b"), Num(3), false), 3 := Entry(Str("c"), Num(4), false)];
    assert WeekOf(t[1]) == WeekOf(t[2]) == Some(3) && WeekOf(t[3]) == Some(4);
    var u := AfterUpdate(t, Some(3), Num(2));
    assert u.Keys == {1, 2, 3};
    assert u[1] == t[1] && u[2] == Entry(Str("b"), Num(3), true) && u[3] == t[3];
  }

  /** A non-empty set of ids has an element to pick. */
  lemma Pick(s: set<int>)
    requires s != {}
    ensures exists id :: id in s
  {
    if forall id :: id !in s {
      assert false;
    }
  }

  /** The table part way through an update: the entries in `done` are marked. */
  function Marked(scanned: map<int, Entry>, done: set<int>, chosen: JsValue): (t: map<int, Entry>)
    ensures t.Keys == scanned.Keys
  {
    map id | id in scanned ::
      if id in done then scanned[id].(selected := StrictEquals(Num(id), chosen)) else scanned[id]
  }

  lemma MarkedStep(scanned: map<int, Entry>, done: set<int>, chosen: JsValue, id: int)
    requires id in scanned && id !in done
    ensures Marked(scanned, done, chosen)[id := scanned[id].(selected := StrictEquals(Num(id), chosen))]
            == Marked(scanned, done + {id}, chosen)
  {
  }

  lemma MarkedWeekIsUpdate(table: map<int, Entry>, w: Option<int>, chosen: JsValue)
    ensures Marked(table, WeekIds(table, w), chosen) == AfterUpdate(table, w, chosen)
  {
  }

  /** The ids of week `w` that `update` unmarks: those not `===` the chosen story. */
  function UnselectIds(table: map<int, Entry>, w: Option<int>, chosen: JsValue): set<int>
  {
    set id | id in WeekIds(table, w) && !StrictEquals(Num(id), chosen)
  }

  /** `update` as written: the unmarking call sends `'DELETE selected'`, an
      update expression with no operand, which the store rejects; only the
      marking call `'SET selected = :val'` takes effect. */
  function AfterUpdateAsWritten(table: map<int, Entry>, w: Option<int>, chosen: JsValue): (t: map<int, Entry>)
    ensures t.Keys == table.Keys
    ensures forall id :: id in table && !InWeek(table[id], w) ==> t[id] == table[id]
    ensures forall id :: id in WeekIds(table, w) ==>
      t[id] == table[id].(selected := table[id].selected || StrictEquals(Num(id), chosen))
  {
    map id | id in table ::
      if InWeek(table[id], w) && StrictEquals(Num(id), chosen) then table[id].(selected := true) else table[id]
  }

  /** As written, `update` is the corrected update with every unmarking call rejected. */
  lemma AsWrittenRejectsUnselects(table: map<int, Entry>, w: Option<int>, chosen: JsValue)
    ensures Marked(table, WeekIds(table, w) - UnselectIds(table, w, chosen), chosen)
            == AfterUpdateAsWritten(table, w, chosen)
  {
    var a := Marked(table, WeekIds(table, w) - UnselectIds(table, w, chosen), chosen);
    var b := AfterUpdateAsWritten(table, w, chosen);
    forall id | id in table
      ensures a[id] == b[id]
    {
      if InWeek(table[id], w) && StrictEquals(Num(id), chosen) {
        assert id in WeekIds(table, w) - UnselectIds(table, w, chosen);
      }
    }
  }

  /** As written, choosing story 2 of week 3 while story 1 of week 3 is
      selected leaves both selected: the week then has two selected stories. */
  lemma DeleteSelectedKeepsOldMark()
    ensures var t := map[1 := Entry(Str("a"), Num(3), true), 2 := Entry(Str("b"), Num(3), false)];
            && OneSelectedPerWeek(t)
            && AfterUpdateAsWritten(t, Some(3), Num(2)) == map[1 := Entry(Str("a"), Num(3), true), 2 := Entry(Str("b"), Num(3), true)]
            && !OneSelectedPerWeek(AfterUpdateAsWritten(t, Some(3), Num(2)))
  {
    var t := map[1 := Entry(Str("a"), Num(3), true), 2 := Entry(Str("b"), Num(3), false)];
    assert WeekOf(t[1]) == WeekOf(t[2]) == Some(3);
    forall a, b | a in t && b in t && t[a].selected && t[b].selected && WeekOf(t[a]) == WeekOf(t[b])
      ensures a == b
    {
      assert a == 1 && b == 1;
    }
    var u := AfterUpdateAsWritten(t, Some(3), Num(2));
    assert u.Keys == {1, 2};
    assert u[1] == t[1] && u[2] == Entry(Str("b"), Num(3), true);
    assert u == map[1 := Entry(Str("a"), Num(3), true), 2 := Entry(Str("b"), Num(3), true)];
    assert u[1].selected && u[2].selected && WeekOf(u[1]) == WeekOf(u[2]);
  }

  /** With `'REMOVE selected'`, the same update leaves only story 2 selected. */
  lemma RemoveSelectedMovesMark()
    ensures var t := map[1 := Entry(Str("a"), Num(3), true), 2 := Entry(Str("b"), Num(3), false)];
            AfterUpdate(t, Some(3), Num(2)) == map[1 := Entry(Str("a"), Num(3), false), 2 := Entry(Str("b"), Num(3), true)]
  {
    var t := map[1 := Entry(Str("a"), Num(3), true), 2 := Entry(Str("b"), Num(3), false)];
    var u := AfterUpdate(t, Some(3), Num(2));
    assert u.Keys == {1, 2};
    assert u[1] == Entry(Str("a"), Num(3), false) && u[2] == Entry(Str("b"), Num(3), true);
  }

  /** Marking only some of a week's entries, the rest left as they were, can
      leave two selected; with none left out the invariant holds. */
  lemma MarkedAllIsUpdate(table: map<int, Entry>, w: Option<int>, chosen: JsValue, rejected: set<int>)
    requires WeekIds(table, w) * rejected == {}
    ensures Marked(table, WeekIds(table, w) - rejected, chosen) == AfterUpdate(table, w, chosen)
  {
    forall id | id in WeekIds(table, w)
      ensures id !in rejected
    {
      assert id !in WeekIds(table, w) * rejected;
    }
    assert WeekIds(table, w) - rejected == WeekIds(table, w);
  }

  /** The table part way through the sweep: the ids in `done` are gone. */
  function Swept(scanned: map<int, Entry>, done: set<int>): (t: map<int, Entry>)
  {
    map id | id in scanned && id !in done :: scanned[id]
  }

  lemma SweptStep(scanned: map<int, Entry>, done: set<int>, id: int)
    ensures Swept(scanned, done) - {id} == Swept(scanned, done + {id})
  {
  }

  lemma SweptUnselectedIsClean(table: map<int, Entry>)
    ensures Swept(table, UnselectedIds(table)) == AfterClean(table)
  {
  }

  /** Deleting any entries keeps "at most one selected story per week". */
  lemma SweptPreservesOneSelected(table: map<int, Entry>, done: set<int>)
    requires OneSelectedPerWeek(table)
    ensures OneSelectedPerWeek(Swept(table, done))
  {
    var t := Swept(table, done);
    forall a, b | a in t && b in t && t[a].selected && t[b].selected && WeekOf(t[a]) == WeekOf(t[b])
      ensures a == b
    {
      assert t[a] == table[a] && t[b] == table[b];
    }
  }

  /** Adding an unselected entry keeps "at most one selected story per week". */
  lemma AddUnselectedPreservesOneSelected(table: map<int, Entry>, id: int, e: Entry)
    requires OneSelectedPerWeek(table) && !e.selected
    ensures OneSelectedPerWeek(table[id := e])
  {
    var t := table[id := e];
    forall a, b | a in t && b in t && t[a].selected && t[b].selected && WeekOf(t[a]) == WeekOf(t[b])
      ensures a == b
    {
      assert a != id && b != id;
      assert t[a] == table[a] && t[b] == table[b];
    }
  }

  /** Appending an unlisted item keeps a listing exact. */
  lemma ListsAppend(rows: seq<Row>, table: map<int, Entry>, ids: set<int>, id: int)
    requires Lists(rows, table, ids) && id in table && id !in ids
    ensures Lists(rows + [Row(id, table[id])], table, ids + {id})
  {
    var r := rows + [Row(id, table[id])];
    assert forall x :: x in r <==> x in rows || x == Row(id, table[id]);
  }

  /** Inserting an unlisted item by week keeps a listing exact. */
  lemma ListsInsert(rows: seq<Row>, table: map<int, Entry>, ids: set<int>, id: int)
    requires Lists(rows, table, ids) && id in table && id !in ids
    ensures Lists(Insert(Row(id, table[id]), rows, RowWeek), table, ids + {id})
  {
    var x := Row(id, table[id]);
    ListsSplice(rows, table, ids, x, InsertPos(x, rows, RowWeek));
  }

  /** One step of the index: inserting the next selected item by week keeps
      the listing exact and ordered. */
  lemma IndexStep(rows: seq<Row>, table: map<int, Entry>, ids: set<int>, id: int)
    requires Lists(rows, table, ids) && SortedBy(rows, RowWeek) && id in table && id !in ids
    ensures Lists(Insert(Row(id, table[id]), rows, RowWeek), table, ids + {id})
    ensures SortedBy(Insert(Row(id, table[id]), rows, RowWeek), RowWeek)
  {
    ListsInsert(rows, table, ids, id);
  }

  /** Placing an unlisted item anywhere keeps a listing exact. */
  lemma ListsSplice(rows: seq<Row>, table: map<int, Entry>, ids: set<int>, x: Row, k: nat)
    requires Lists(rows, table, ids) && x.id in table && table[x.id] == x.entry && x.id !in ids
    requires k <= |rows|
    ensures Lists(rows[..k] + [x] + rows[k..], table, ids + {x.id})
  {
    var r := rows[..k] + [x] + rows[k..];
    forall i | 0 <= i < |r|
      ensures r[i] == if i < k then rows[i] else if i == k then x else rows[i - 1]
    {
      SpliceAt(rows, x, k, i);
    }
    assert RowIds(r) == ids + {x.id} by {
      assert forall y :: y in r <==> y in rows || y == x by {
        assert rows == rows[..k] + rows[k..];
      }
    }
    forall i, j | 0 <= i < j < |r|
      ensures r[i].id != r[j].id
    {
      if i == k {
        assert r[j] == rows[j - 1];
        assert rows[j - 1].id in RowIds(rows);
      } else if j == k {
        assert r[i] == rows[i];
        assert rows[i].id in RowIds(rows);
      }
    }
  }

  lemma SpliceAt(rows: seq<Row>, x: Row, k: nat, i: nat)
    requires k <= |rows| && i <= |rows|
    ensures (rows[..k] + [x] + rows[k..])[i] == if i < k then rows[i] else if i == k then x else rows[i - 1]
  {
  }

  /** The timeline table and the week counter. Every handler that calls the
      store takes the outcome of its store calls as parameters: whether a
      scan, get or put fails, or the set of ids whose update or delete the
      store rejects. */
  class Store {
    var table: map<int, Entry>
    var week: JsValue

    ghost predicate Valid()
      reads this
    {
      OneSelectedPerWeek(table)
    }

    constructor (counter: JsValue)
      ensures Valid() && table == map[] && week == counter
    {
      table := map[];
      week := counter;
    }

    /** `_getWeek`: the value of the `TimelineWeek` record. */
    method GetWeek() returns (w: JsValue)
      ensures w == week
    {
      w := week;
    }

    /** `index`: the selected entries, ascending by week; None is the error
        page of a failed query. */
    method Index(queryFails: bool) returns (story: Option<seq<Row>>)
      ensures story.None? <==> queryFails
      ensures story.Some? ==> Lists(story.value, table, SelectedIds(table))
      ensures story.Some? ==> SortedBy(story.value, RowWeek)
      ensures story.Some? ==> forall i :: 0 <= i < |story.value| ==> story.value[i].entry.selected
    {
      if queryFails {
        return None;
      }
      var todo := SelectedIds(table);
      var rows := [];
      while todo != {}
        invariant todo <= SelectedIds(table)
        invariant Lists(rows, table, SelectedIds(table) - todo)
        invariant SortedBy(rows, RowWeek)
        decreases todo
      {
        Pick(todo);
        var id :| id in todo;
        IndexStep(rows, table, SelectedIds(table) - todo, id);
        rows := Insert(Row(id, table[id]), rows, RowWeek);
        todo := todo - {id};
        assert SelectedIds(table) - todo == (SelectedIds(table) - (todo + {id})) + {id};
      }
      assert forall i :: 0 <= i < |rows| ==> rows[i].id in RowIds(rows);
      story := Some(rows);
    }

    /** `create`: a new entry with the given content, tagged with the current
        week and not selected. The id (`Date.now()` in the handler) is given;
        a failed `_getWeek` or put renders the error page and stores nothing. */
    method Create(id: int, content: JsValue, getFails: bool, putFails: bool) returns (reply: Reply)
      modifies this
      ensures old(Valid()) ==> Valid()
      ensures reply == if getFails || putFails then ErrorPage else ToTimeline
      ensures week == old(week)
      ensures table == if getFails || putFails then old(table) else old(table)[id := Entry(content, old(week), false)]
    {
      if getFails {
        return ErrorPage;
      }
      var w := GetWeek();
      if putFails {
        return ErrorPage;
      }
      if Valid() {
        AddUnselectedPreservesOneSelected(table, id, Entry(content, w, false));
      }
      table := table[id := Entry(content, w, false)];
      reply := ToTimeline;
    }

    /** The filter of `edit`: the entries whose week parses to `w`, in the
        order the scan meets them. */
    method ScanWeek(w: Option<int>) returns (story: seq<Row>)
      ensures Lists(story, table, WeekIds(table, w))
    {
      var ids := WeekIds(table, w);
      var todo := table.Keys;
      story := [];
      while todo != {}
        invariant todo <= table.Keys
        invariant Lists(story, table, ids - todo)
        decreases todo
      {
        Pick(todo);
        var id :| id in todo;
        if InWeek(table[id], w) {
          ListsAppend(story, table, ids - todo, id);
          story := story + [Row(id, table[id])];
          assert (ids - todo) + {id} == ids - (todo - {id});
        } else {
          assert ids - todo == ids - (todo - {id});
        }
        todo := todo - {id};
      }
    }

    /** `edit`: the entries of the query week, or of the current week when the
        query gives no numeric week. `fails` is whether `_getWeek` or the
        scan failed. */
    method Edit(authenticated: bool, query: JsValue, fails: bool) returns (outcome: EditOutcome)
      ensures outcome.EditDenied? <==> !authenticated
      ensures outcome.EditFailed? <==> authenticated && fails
      ensures outcome.EditShown? ==> outcome.view.week == EditWeek(query, week)
      ensures outcome.EditShown? ==> Lists(outcome.view.story, table, WeekIds(table, ParseInt(EditWeek(query, week))))
    {
      if !authenticated {
        return EditDenied;
      }
      if fails {
        return EditFailed;
      }
      var counter := GetWeek();
      var shown := EditWeek(query, counter);
      var story := ScanWeek(ParseInt(shown));
      outcome := EditShown(EditView(story, shown));
    }

    /** `_selectStory`: set or remove the `selected` marker of one entry. */
    method SelectStory(id: int, selected: bool)
      requires id in table
      modifies this
      ensures week == old(week)
      ensures table == old(table)[id := old(table)[id].(selected := selected)]
    {
      table := table[id := table[id].(selected := selected)];
    }

    /** The loop of `update`: one `_selectStory` call for each entry of
        `stories`, in the order the scan meets them; the calls to the ids in
        `rejected` fail and change nothing. */
    method MarkAll(stories: set<int>, chosen: JsValue, rejected: set<int>) returns (sent: seq<int>)
      requires stories <= table.Keys
      modifies this
      ensures week == old(week)
      ensures table == Marked(old(table), stories - rejected, chosen)
      ensures (set id | id in sent) == stories
      ensures forall i, j :: 0 <= i < j < |sent| ==> sent[i] != sent[j]
    {
      ghost var scanned := table;
      var todo := stories;
      sent := [];
      while todo != {}
        invariant todo <= stories
        invariant week == old(week)
        invariant table == Marked(scanned, (stories - todo) - rejected, chosen)
        invariant (set id | id in sent) == stories - todo
        invariant forall i, j :: 0 <= i < j < |sent| ==> sent[i] != sent[j]
        decreases todo
      {
        Pick(todo);
        var id :| id in todo;
        ghost var done := (stories - todo) - rejected;
        if id !in rejected {
          MarkedStep(scanned, done, chosen, id);
          SelectStory(id, StrictEquals(Num(id), chosen));
          assert table == Marked(scanned, done + {id}, chosen);
        }
        assert (set x | x in sent + [id]) == (set x | x in sent) + {id};
        sent := sent + [id];
        todo := todo - {id};
        assert stories - todo == (stories - (todo + {id})) + {id};
        assert (stories - todo) - rejected == if id in rejected then done else done + {id};
      }
    }

    /** `update`: in the requested week, select the entry whose id is strictly
        equal to the chosen story and unselect every other one. `sent` lists the
        entries one `_selectStory` call went to, in the order they went; a
        failed scan, or any rejected call, renders the error page. */
    method Update(authenticated: bool, weekArg: JsValue, chosen: JsValue, scanFails: bool, rejected: set<int>)
      returns (reply: Reply, sent: seq<int>)
      modifies this
      ensures week == old(week)
      ensures !authenticated ==> reply == ToLogin && table == old(table) && sent == []
      ensures authenticated && scanFails ==> reply == ErrorPage && table == old(table) && sent == []
      ensures authenticated && !scanFails ==>
        var ids := WeekIds(old(table), ParseInt(weekArg));
        && table == Marked(old(table), ids - rejected, chosen)
        && (set id | id in sent) == ids
        && reply == if ids * rejected == {} then ToTimeline else ErrorPage
      ensures authenticated && !scanFails && WeekIds(old(table), ParseInt(weekArg)) * rejected == {} ==>
        table == AfterUpdate(old(table), ParseInt(weekArg), chosen)
      ensures old(Valid()) && reply != ErrorPage ==> Valid()
      ensures forall i, j :: 0 <= i < j < |sent| ==> sent[i] != sent[j]
    {
      if !authenticated {
        return ToLogin, [];
      }
      if scanFails {
        return ErrorPage, [];
      }
      var w := ParseInt(weekArg);
      var scanned := table;
      var ids := WeekIds(scanned, w);
      sent := MarkAll(ids, chosen, rejected);
      if ids * rejected == {} {
        MarkedAllIsUpdate(scanned, w, chosen, rejected);
        if OneSelectedPerWeek(scanned) {
          UpdatePreservesOneSelected(scanned, w, chosen);
        }
        reply := ToTimeline;
      } else {
        reply := ErrorPage;
      }
    }

    /** `changeWeek`: the form to change the week, filled with the counter;
        a failed `_getWeek` renders the error page. */
    method ChangeWeek(authenticated: bool, getFails: bool) returns (form: WeekForm)
      ensures form == if !authenticated then WeekDenied else if getFails then WeekFailed else WeekShown(week)
    {
      if !authenticated {
        return WeekDenied;
      }
      if getFails {
        return WeekFailed;
      }
      var w := GetWeek();
      form := WeekShown(w);
    }

    /** `setWeek`: overwrite the counter with `req.body.week` as received, with
        no check that it is a number or that it moves forward; a failed store
        update renders the error page and changes nothing. */
    method SetWeek(authenticated: bool, value: JsValue, updateFails: bool) returns (reply: Reply)
      modifies this
      ensures Valid() == old(Valid())
      ensures reply == if !authenticated then ToLogin else if updateFails then ErrorPage else ToTimeline
      ensures table == old(table)
      ensures week == if authenticated && !updateFails then value else old(week)
    {
      if !authenticated {
        reply := ToLogin;
      } else if updateFails {
        reply := ErrorPage;
      } else {
        week := value;
        reply := ToTimeline;
      }
    }

    /** `clean`: delete every entry that is not selected, whatever its week.
        `removed` lists the ids a delete went to; its length is the number
        of deletes sent. The deletes of the ids in `rejected` fail and leave
        their entry; a failed scan, or any failed delete, renders the error
        page. */
    method Clean(authenticated: bool, scanFails: bool, rejected: set<int>) returns (reply: Reply, removed: seq<int>)
      modifies this
      ensures old(Valid()) ==> Valid()
      ensures week == old(week)
      ensures !authenticated ==> reply == ToLogin && table == old(table) && removed == []
      ensures authenticated && scanFails ==> reply == ErrorPage && table == old(table) && removed == []
      ensures authenticated && !scanFails ==>
        && table == Swept(old(table), UnselectedIds(old(table)) - rejected)
        && (set id | id in removed) == UnselectedIds(old(table))
        && reply == if UnselectedIds(old(table)) * rejected == {} then ToTimeline else ErrorPage
      ensures authenticated && !scanFails && UnselectedIds(old(table)) * rejected == {} ==>
        table == AfterClean(old(table))
      ensures forall i, j :: 0 <= i < j < |removed| ==> removed[i] != removed[j]
    {
      if !authenticated {
        return ToLogin, [];
      }
      if scanFails {
        return ErrorPage, [];
      }
      var scanned := table;
      var stories := UnselectedIds(scanned);
      var todo := stories;
      removed := [];
      while todo != {}
        invariant todo <= stories
        invariant week == old(week)
        invariant table == Swept(scanned, (stories - todo) - rejected)
        invariant (set id | id in removed) == stories - todo
        invariant forall i, j :: 0 <= i < j < |removed| ==> removed[i] != removed[j]
        decreases todo
      {
        Pick(todo);
        var id :| id in todo;
        ghost var done := (stories - todo) - rejected;
        if id !in rejected {
          SweptStep(scanned, done, id);
          table := table - {id};
        }
        assert (set x | x in removed + [id]) == (set x | x in removed) + {id};
        removed := removed + [id];
        todo := todo - {id};
        assert stories - todo == (stories - (todo + {id})) + {id};
        assert (stories - todo) - rejected == if id in rejected then done else done + {id};
      }
      if OneSelectedPerWeek(scanned) {
        SweptPreservesOneSelected(scanned, stories - rejected);
      }
      if stories * rejected == {} {
        forall id | id in stories
          ensures id !in rejected
        {
          assert id !in stories * rejected;
        }
        assert stories - rejected == stories;
        SweptUnselectedIsClean(scanned);
        reply := ToTimeline;
      } else {
        reply := ErrorPage;
      }
    }
  }
}
