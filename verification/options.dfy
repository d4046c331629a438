/** The name-to-id lookup maps behind the selection widgets
    (`load_selectbox_options` / `get_options`). A Python dict keeps its keys
    in insertion order, and assigning to an existing key keeps its place; the
    model keeps that order beside the map itself. */
module Options {
  import opened Common
  import opened Store

  /** One row of `SELECT id, name FROM table`. */
  type Row = (string, Id)

  const CompanyPlaceholder: string := "--- Select Company ---"
  const JobPlaceholder: string := "--- Select Job ---"
  const RecruiterPlaceholder: string := "--- Select Recruiter ---"

  /** Some row of `rows` carries the name `k`. */
  ghost predicate Named(rows: seq<Row>, k: string) {
    exists i :: 0 <= i < |rows| && rows[i].0 == k
  }

  /** A dict from display name to id (or `None`), with its key order. */
  datatype OptionsMap = OptionsMap(order: seq<string>, ids: map<string, Option<Id>>) {

    /** The order lists each key exactly once. */
    ghost predicate Valid() {
      && (forall i, j :: 0 <= i < j < |order| ==> order[i] != order[j])
      && (forall k :: k in ids <==> k in order)
    }

    /** `d.get(k)`: the value under `k`, or `None` when `k` is missing. */
    function Get(k: string): Option<Id> {
      if k in ids then ids[k] else None
    }

    /** `d[k] = v`: an existing key keeps its position, a new key goes last. */
    function Put(k: string, v: Option<Id>): (r: OptionsMap)
      ensures r.Get(k) == v
      ensures forall k' :: k' != k ==> r.Get(k') == Get(k')
      ensures r.ids.Keys == ids.Keys + {k}
      ensures order <= r.order
      ensures k in ids ==> r.order == order
      ensures Valid() ==> r.Valid()
    {
      if k in ids then OptionsMap(order, ids[k := v]) else OptionsMap(order + [k], ids[k := v])
    }
  }

  /** A map holding only the placeholder, mapped to `None`. */
  function Only(placeholder: string): OptionsMap {
    OptionsMap([placeholder], map[placeholder := None])
  }

  /** The loop `for row in data: options_map[str(row[name])] = row[id]`:
      the map after the last row is the map after the others, updated by it. */
  function Fill(d: OptionsMap, rows: seq<Row>): (r: OptionsMap)
    ensures d.order <= r.order
    ensures d.Valid() ==> r.Valid()
    decreases |rows|
  {
    if |rows| == 0 then d
    else
      var last := rows[|rows| - 1];
      Fill(d, rows[..|rows| - 1]).Put(last.0, Some(last.1))
  }

  /** The loop's keys: the keys before it and the names of the rows. */
  lemma {:induction false} FillKeys(d: OptionsMap, rows: seq<Row>, k: string)
    ensures k in Fill(d, rows).ids <==> k in d.ids || Named(rows, k)
    decreases |rows|
  {
    if |rows| > 0 {
      var n := |rows| - 1;
      FillKeys(d, rows[..n], k);
      if rows[n].0 != k {
        NamedInit(rows, k);
      } else {
        assert Named(rows, k);
      }
    }
  }

  /** A name no row carries keeps the value it had before the loop. */
  lemma {:induction false} FillUnnamed(d: OptionsMap, rows: seq<Row>, k: string)
    requires !Named(rows, k)
    ensures Fill(d, rows).Get(k) == d.Get(k)
    decreases |rows|
  {
    if |rows| > 0 {
      var n := |rows| - 1;
      assert rows[n].0 != k;
      NamedInit(rows, k);
      FillUnnamed(d, rows[..n], k);
    }
  }

  /** A name some row carries ends up with the id of the last such row. */
  lemma {:induction false} FillNamed(d: OptionsMap, rows: seq<Row>, k: string)
    requires Named(rows, k)
    ensures exists i :: IsLast(rows, k, i) && Fill(d, rows).Get(k) == Some(rows[i].1)
    decreases |rows|
  {
    var n := |rows| - 1;
    var init := rows[..n];
    if rows[n].0 == k {
      assert IsLast(rows, k, n);
    } else {
      NamedInit(rows, k);
      FillNamed(d, init, k);
      var i :| IsLast(init, k, i) && Fill(d, init).Get(k) == Some(init[i].1);
      assert IsLast(rows, k, i);
    }
  }

  /** A name the last row does not carry is named by the rows iff by the others. */
  lemma NamedInit(rows: seq<Row>, k: string)
    requires |rows| > 0 && rows[|rows| - 1].0 != k
    ensures Named(rows, k) <==> Named(rows[..|rows| - 1], k)
  {
    var init := rows[..|rows| - 1];
    if Named(rows, k) {
      var i :| 0 <= i < |rows| && rows[i].0 == k;
      assert init[i] == rows[i];
    }
    if Named(init, k) {
      var i :| 0 <= i < |init| && init[i].0 == k;
      assert rows[i] == init[i];
    }
  }

  /** `get_options` AS WRITTEN: the placeholder first, then one assignment
      per row; with no connection or on a query error, only the placeholder.
      A row whose name equals the placeholder text overwrites its entry. */
  function BuildOptions(placeholder: string, q: Query<seq<Row>>): (r: OptionsMap)
    ensures r.Valid() && |r.order| >= 1 && r.order[0] == placeholder
    ensures !q.Rows? ==> r == Only(placeholder)
    ensures q.Rows? ==> (r.Get(placeholder) == None <==> !Named(q.rows, placeholder))
    ensures q.Rows? ==> forall k :: k != placeholder ==> (k in r.ids <==> Named(q.rows, k))
    ensures q.Rows? ==> forall k :: k in r.ids && k != placeholder ==>
      exists i :: IsLast(q.rows, k, i) && r.Get(k) == Some(q.rows[i].1)
  {
    match q
    case Rows(rows) =>
      var r := Fill(Only(placeholder), rows);
      assert forall k :: k in r.ids && k != placeholder ==> exists i :: IsLast(rows, k, i) && r.Get(k) == Some(rows[i].1) by {
        forall k | k in r.ids && k != placeholder
          ensures exists i :: IsLast(rows, k, i) && r.Get(k) == Some(rows[i].1)
        {
          FillKeys(Only(placeholder), rows, k);
          FillNamed(Only(placeholder), rows, k);
        }
      }
      assert forall k :: k != placeholder ==> (k in r.ids <==> Named(rows, k)) by {
        forall k | k != placeholder ensures k in r.ids <==> Named(rows, k) {
          FillKeys(Only(placeholder), rows, k);
        }
      }
      assert r.Get(placeholder) == None <==> !Named(rows, placeholder) by {
        if Named(rows, placeholder) {
          FillNamed(Only(placeholder), rows, placeholder);
        } else {
          FillUnnamed(Only(placeholder), rows, placeholder);
        }
      }
      r
    case _ =>
      Only(placeholder)
  }

  /** `get_options` as evidently intended: the placeholder stays reserved,
      mapped to `None`, even if some row carries its text. */
  function BuildReservedOptions(placeholder: string, q: Query<seq<Row>>): (r: OptionsMap)
    ensures r.Valid() && |r.order| >= 1 && r.order[0] == placeholder
    ensures r.Get(placeholder) == None
    ensures !q.Rows? ==> r == Only(placeholder)
    ensures q.Rows? ==> forall k :: k != placeholder ==> (k in r.ids <==> Named(q.rows, k))
    ensures q.Rows? ==> forall k :: k in r.ids && k != placeholder ==>
      exists i :: IsLast(q.rows, k, i) && r.Get(k) == Some(q.rows[i].1)
  {
    BuildOptions(placeholder, q).Put(placeholder, None)
  }

  /** The names offered from `order`: those whose id is not `None`, in order. */
  function Offered(order: seq<string>, d: OptionsMap): (names: seq<string>)
    ensures forall n :: n in names <==> n in order && d.Get(n).Some?
    ensures |names| <= |order|
    decreases |order|
  {
    if |order| == 0 then []
    else
      var rest := Offered(order[1..], d);
      assert forall n :: n in order <==> n == order[0] || n in order[1..];
      if d.Get(order[0]).Some? then [order[0]] + rest else rest
  }

  /** `[name for name, id in m.items() if id is not None]`. */
  function ActualNames(d: OptionsMap): (names: seq<string>)
    ensures d.Valid() ==> forall n :: n in names <==> d.Get(n).Some?
  {
    Offered(d.order, d)
  }

  /** A map whose placeholder comes first, maps to `None` and is not offered. */
  ghost predicate Reserved(d: OptionsMap, placeholder: string) {
    && d.Valid()
    && |d.order| >= 1 && d.order[0] == placeholder
    && d.Get(placeholder) == None
    && placeholder !in ActualNames(d)
  }

  /** What `get_options` leaves for one selector: the placeholder first; if
      no row carries its text, reserved; if some row does, mapped to that
      row's id and offered like any company. */
  ghost predicate LoadedFrom(d: OptionsMap, placeholder: string, q: Query<seq<Row>>) {
    && d.Valid() && |d.order| >= 1 && d.order[0] == placeholder
    && (!(q.Rows? && Named(q.rows, placeholder)) ==> Reserved(d, placeholder))
    && (q.Rows? && Named(q.rows, placeholder) ==>
          d.Get(placeholder).Some? && placeholder in ActualNames(d))
  }

  /** `load_selectbox_options`: the company, job and recruiter maps, each
      built by `get_options` as written. Each placeholder stays reserved
      and unoffered exactly when no row of its query carries its text. */
  function LoadSelectboxOptions(companies: Query<seq<Row>>, jobs: Query<seq<Row>>,
                                recruiters: Query<seq<Row>>): (r: (OptionsMap, OptionsMap, OptionsMap))
    ensures LoadedFrom(r.0, CompanyPlaceholder, companies)
    ensures LoadedFrom(r.1, JobPlaceholder, jobs)
    ensures LoadedFrom(r.2, RecruiterPlaceholder, recruiters)
  {
    var c := BuildOptions(CompanyPlaceholder, companies);
    var j := BuildOptions(JobPlaceholder, jobs);
    var r := BuildOptions(RecruiterPlaceholder, recruiters);
    (c, j, r)
  }

  /** The rows of a query list exactly the (name, id) pairs of a table. */
  ghost predicate Lists(rows: seq<Row>, names: map<Id, string>) {
    && (forall i :: 0 <= i < |rows| ==> rows[i].1 in names && names[rows[i].1] == rows[i].0)
    && (forall id :: id in names ==> exists i :: 0 <= i < |rows| && rows[i] == (names[id], id))
  }

  /** Resolving a name through the map built from a table yields a row of
      that table carrying that name, and every other name of the table is
      offered and resolves. */
  lemma {:induction false} OptionsResolveToTable(placeholder: string, rows: seq<Row>, names: map<Id, string>)
    requires Lists(rows, names)
    ensures var r := BuildOptions(placeholder, Rows(rows));
      && (forall k :: k != placeholder && k in r.ids ==>
            r.Get(k).Some? && r.Get(k).value in names && names[r.Get(k).value] == k)
      && (forall id :: id in names && names[id] != placeholder ==> names[id] in ActualNames(r))
  {
    var r := BuildOptions(placeholder, Rows(rows));
    forall k | k != placeholder && k in r.ids
      ensures r.Get(k).Some? && r.Get(k).value in names && names[r.Get(k).value] == k
    {
      var i :| IsLast(rows, k, i) && r.Get(k) == Some(rows[i].1);
    }
    forall id | id in names && names[id] != placeholder ensures names[id] in ActualNames(r) {
      var i :| 0 <= i < |rows| && rows[i] == (names[id], id);
      assert rows[i].0 == names[id];
      assert Named(rows, names[id]);
      var j :| IsLast(rows, names[id], j) && r.Get(names[id]) == Some(rows[j].1);
    }
  }

  /** The discrepancy: a company literally named like the placeholder takes
      over the placeholder entry, so "nothing selected" resolves to its id. */
  lemma PlaceholderCollision()
    ensures BuildOptions(CompanyPlaceholder, Rows([(CompanyPlaceholder, 7)])).Get(CompanyPlaceholder) == Some(7)
    ensures BuildReservedOptions(CompanyPlaceholder, Rows([(CompanyPlaceholder, 7)])).Get(CompanyPlaceholder) == None
  {
    var rows: seq<Row> := [(CompanyPlaceholder, 7)];
    assert rows[..0] == [];
  }

  /** Two rows sharing a name: the map keeps only the later row's id. */
  lemma {:induction false} DuplicateNameKeepsLast(placeholder: string, name: string, a: Id, b: Id)
    requires name != placeholder
    ensures var r := BuildReservedOptions(placeholder, Rows([(name, a), (name, b)]));
      r.Get(name) == Some(b) && ActualNames(r) == [name]
  {
    var rows: seq<Row> := [(name, a), (name, b)];
    assert rows[..1] == [(name, a)];
    assert rows[..1][..0] == [];
    var d1 := Only(placeholder).Put(name, Some(a));
    assert Fill(Only(placeholder), rows[..1]) == d1;
    assert d1.order == [placeholder, name];
    var d2 := d1.Put(name, Some(b));
    assert Fill(Only(placeholder), rows) == d2;
    var r := BuildReservedOptions(placeholder, Rows(rows));
    assert r == d2.Put(placeholder, None);
    assert r.order == [placeholder, name];
    assert Offered(r.order[1..], r) == [name];
  }
}
