/**
 * The attribute tables (Tag, Ingredient) and the get-or-create reconciliation
 * of submitted names against them, as values. `ReconcileAll` is the
 * reference definition that the in-place loop of `Serializers.Store` is proved
 * against; the lemmas below state what one reconciliation does to the table
 * and to the experiment's association set.
 */
module Attributes {
  import opened Records

  /** One attribute table: its rows in insertion order and the next id to hand out. */
  datatype Table = Table(rows: seq<AttrRow>, nextId: nat)

  /**
   * Table invariant, stated the way rows come into being: every row was
   * appended with an id below the next id and above every earlier id, and
   * with an (owner, name) key that no earlier row had.
   */
  ghost predicate RowsValid(rows: seq<AttrRow>, nextId: nat)
    decreases |rows|
  {
    rows == [] ||
    var last := rows[|rows| - 1];
    var pre := rows[..|rows| - 1];
    && last.id < nextId
    && RowsValid(pre, last.id)
    && Lookup(pre, last.owner, last.name).None?
  }

  /** A table is valid when its rows are, relative to its next id. */
  ghost predicate TableValid(t: Table)
  {
    RowsValid(t.rows, t.nextId)
  }

  /**
   * What the invariant means position by position: ids increase with
   * insertion order and lie below the next id, and no two rows share an
   * (owner, name) key.
   */
  lemma {:induction false} RowsValidFacts(rows: seq<AttrRow>, nextId: nat)
    requires RowsValid(rows, nextId)
    ensures forall i, j :: 0 <= i < j < |rows| ==> rows[i].id < rows[j].id
    ensures forall i :: 0 <= i < |rows| ==> rows[i].id < nextId
    ensures forall i, j :: 0 <= i < j < |rows| ==>
              rows[i].owner != rows[j].owner || rows[i].name != rows[j].name
  {
    if rows != [] {
      var n := |rows|;
      var last, pre := rows[n - 1], rows[..n - 1];
      RowsValidFacts(pre, last.id);
      forall i, j | 0 <= i < j < n
        ensures rows[i].id < rows[j].id
        ensures rows[i].owner != rows[j].owner || rows[i].name != rows[j].name
      {
        assert rows[i] == pre[i];
        if j < n - 1 {
          assert rows[j] == pre[j];
        } else {
          assert pre[i] in pre;
        }
      }
      forall i | 0 <= i < n ensures rows[i].id < nextId {
        if i < n - 1 {
          assert rows[i] == pre[i];
        }
      }
    }
  }

  /** The lookup `get(user=owner, name=name)`: the first row keyed (owner, name), if any. */
  function Lookup(rows: seq<AttrRow>, owner: UserId, name: string): (r: Option<AttrRow>)
    ensures r.Some? ==> r.value in rows && r.value.owner == owner && r.value.name == name
    ensures r.None? ==> forall row :: row in rows ==> row.owner != owner || row.name != name
  {
    if rows == [] then None
    else if rows[0].owner == owner && rows[0].name == name then Some(rows[0])
    else
      assert rows == [rows[0]] + rows[1..];
      Lookup(rows[1..], owner, name)
  }

  /** Ids of the rows owned by `owner`. */
  ghost function OwnedIds(rows: seq<AttrRow>, owner: UserId): set<nat>
  {
    set r | r in rows && r.owner == owner :: r.id
  }

  /** Ids of `owner`'s rows whose name is among `names`. */
  ghost function IdsFor(rows: seq<AttrRow>, owner: UserId, names: seq<string>): set<nat>
  {
    set r | r in rows && r.owner == owner && r.name in names :: r.id
  }

  /** The distinct names in `names`. */
  ghost function NameSet(names: seq<string>): set<string>
  {
    set n | n in names
  }

  lemma NameSetAppend(pre: seq<string>, n: string)
    ensures NameSet(pre + [n]) == NameSet(pre) + {n}
    ensures |NameSet(pre + [n])| == |NameSet(pre)| + (if n in pre then 0 else 1)
  {
    assert forall m :: m in pre + [n] <==> m in pre || m == n;
    if n !in pre {
      AddFresh(NameSet(pre), n);
    } else {
      assert NameSet(pre) + {n} == NameSet(pre);
    }
  }

  lemma AddFresh<T>(s: set<T>, x: T)
    requires x !in s
    ensures |s + {x}| == |s| + 1
  {
  }

  /** The submitted names for which `owner` has no row in `rows`. */
  ghost function Missing(rows: seq<AttrRow>, owner: UserId, names: seq<string>): set<string>
  {
    set n | n in names && Lookup(rows, owner, n).None?
  }

  lemma {:induction false} LookupPrefix(a: seq<AttrRow>, b: seq<AttrRow>, owner: UserId, name: string)
    requires Lookup(a, owner, name).Some?
    ensures Lookup(a + b, owner, name) == Lookup(a, owner, name)
  {
    if a[0].owner != owner || a[0].name != name {
      assert (a + b)[1..] == a[1..] + b;
      LookupPrefix(a[1..], b, owner, name);
    }
  }

  lemma {:induction false} LookupAfterMiss(a: seq<AttrRow>, b: seq<AttrRow>, owner: UserId, name: string)
    requires Lookup(a, owner, name).None?
    ensures Lookup(a + b, owner, name) == Lookup(b, owner, name)
  {
    if a == [] {
      assert a + b == b;
    } else {
      assert (a + b)[1..] == a[1..] + b;
      LookupAfterMiss(a[1..], b, owner, name);
    }
  }

  /** A key that is absent from the whole sequence is absent from its prefix too. */
  lemma LookupPrefixed(a: seq<AttrRow>, b: seq<AttrRow>, owner: UserId, name: string)
    requires a <= b && Lookup(b, owner, name).None?
    ensures Lookup(a, owner, name).None?
  {
    forall r | r in a ensures r.owner != owner || r.name != name {
      var i :| 0 <= i < |a| && a[i] == r;
      assert b[i] == r;
    }
  }

  /** In a valid table a row is determined by its id. */
  lemma IdDeterminesRow(t: Table, r1: AttrRow, r2: AttrRow)
    requires TableValid(t) && r1 in t.rows && r2 in t.rows && r1.id == r2.id
    ensures r1 == r2
  {
    RowsValidFacts(t.rows, t.nextId);
    var i :| 0 <= i < |t.rows| && t.rows[i] == r1;
    var j :| 0 <= j < |t.rows| && t.rows[j] == r2;
    assert !(i < j) && !(j < i);
  }

  /** In a valid table a row is determined by its (owner, name) key. */
  lemma KeyDeterminesRow(t: Table, r1: AttrRow, r2: AttrRow)
    requires TableValid(t) && r1 in t.rows && r2 in t.rows
    requires r1.owner == r2.owner && r1.name == r2.name
    ensures r1 == r2
  {
    RowsValidFacts(t.rows, t.nextId);
    var i :| 0 <= i < |t.rows| && t.rows[i] == r1;
    var j :| 0 <= j < |t.rows| && t.rows[j] == r2;
    assert !(i < j) && !(j < i);
  }

  /** A row can only gain ids as the table grows at its end. */
  lemma OwnedIdsGrow(a: seq<AttrRow>, b: seq<AttrRow>, owner: UserId)
    requires a <= b
    ensures OwnedIds(a, owner) <= OwnedIds(b, owner)
  {
    forall id | id in OwnedIds(a, owner) ensures id in OwnedIds(b, owner) {
      var r :| r in a && r.owner == owner && r.id == id;
      var i :| 0 <= i < |a| && a[i] == r;
      assert b[i] == r;
    }
  }

  /** Result of one get-or-create: the table afterwards and the resolved row id. */
  datatype Resolved = Resolved(table: Table, id: nat)

  /**
   * `get_or_create(user=owner, name=name)`: reuse the owner's row with that
   * name, or append a new row with a fresh id.
   */
  function GetOrCreate(t: Table, owner: UserId, name: string): (r: Resolved)
    ensures t.rows <= r.table.rows && t.nextId <= r.table.nextId
    ensures Lookup(r.table.rows, owner, name) == Some(AttrRow(r.id, owner, name))
    ensures Lookup(t.rows, owner, name).Some? ==> r.table == t
    ensures Lookup(t.rows, owner, name).None? ==>
              r.id == t.nextId && r.table.rows == t.rows + [AttrRow(r.id, owner, name)]
    ensures TableValid(t) ==> TableValid(r.table)
  {
    match Lookup(t.rows, owner, name)
    case Some(row) => Resolved(t, row.id)
    case None =>
      var row := AttrRow(t.nextId, owner, name);
      LookupAfterMiss(t.rows, [row], owner, name);
      Resolved(Table(t.rows + [row], t.nextId + 1), row.id)
  }

  /** Result of reconciling a list: the table afterwards and the association set. */
  datatype Reconciled = Reconciled(table: Table, links: set<nat>)

  /**
   * The loop of `_get_or_create_tags` / `_get_or_create_ingredients`: each
   * submitted name in turn is resolved by get-or-create and its id added to
   * the association set `links`.
   */
  function ReconcileAll(t: Table, owner: UserId, names: seq<string>, links: set<nat>): Reconciled
    decreases |names|
  {
    if names == [] then Reconciled(t, links)
    else
      var prev := ReconcileAll(t, owner, names[..|names| - 1], links);
      var r := GetOrCreate(prev.table, owner, names[|names| - 1]);
      Reconciled(r.table, prev.links + {r.id})
  }

  /**
   * `u` grew from `t` by reconciling `names` for `owner`: rows were only
   * appended, each appended row is owned by `owner`, carries one of the names
   * and had no (owner, name) row in `t`; every name resolves in `u`; and
   * validity carries over.
   */
  ghost predicate GrownFrom(t: Table, u: Table, owner: UserId, names: seq<string>)
  {
    && t.rows <= u.rows
    && (forall i :: |t.rows| <= i < |u.rows| ==>
          && u.rows[i].owner == owner
          && u.rows[i].name in names
          && Lookup(t.rows, owner, u.rows[i].name).None?)
    && (forall n :: n in names ==> Lookup(u.rows, owner, n).Some?)
    && (TableValid(t) ==> TableValid(u))
  }

  /**
   * Reconciliation only appends rows; every appended row is owned by the
   * requester, carries a submitted name and had no (owner, name) row before;
   * every submitted name resolves afterwards; validity is kept.
   */
  lemma {:induction false} ReconcileGrows(t: Table, owner: UserId, names: seq<string>, links: set<nat>)
    ensures var res := ReconcileAll(t, owner, names, links);
      GrownFrom(t, res.table, owner, names) && links <= res.links
  {
    if names != [] {
      var pre, n := names[..|names| - 1], names[|names| - 1];
      assert names == pre + [n];
      ReconcileGrows(t, owner, pre, links);
      GrowsStep(t, ReconcileAll(t, owner, pre, links).table, owner, pre, n);
    }
  }

  /** One step of `ReconcileGrows`: resolving one more name keeps the table grown from `t`. */
  lemma GrowsStep(t: Table, prev: Table, owner: UserId, pre: seq<string>, n: string)
    requires GrownFrom(t, prev, owner, pre)
    ensures GrownFrom(t, GetOrCreate(prev, owner, n).table, owner, pre + [n])
  {
    var g := GetOrCreate(prev, owner, n);
    var names := pre + [n];
    forall i | |t.rows| <= i < |g.table.rows|
      ensures g.table.rows[i].owner == owner
      ensures g.table.rows[i].name in names
      ensures Lookup(t.rows, owner, g.table.rows[i].name).None?
    {
      if i >= |prev.rows| {
        assert g.table.rows[i] == AttrRow(g.id, owner, n);
        assert Lookup(t.rows, owner, n).None? by {
          LookupPrefixed(t.rows, prev.rows, owner, n);
        }
      } else {
        assert g.table.rows[i] == prev.rows[i];
      }
    }
    forall m | m in names ensures Lookup(g.table.rows, owner, m).Some? {
      if m != n {
        assert m in pre;
        LookupPrefix(prev.rows, g.table.rows[|prev.rows|..], owner, m);
        assert prev.rows + g.table.rows[|prev.rows|..] == g.table.rows;
      }
    }
  }

  /**
   * With a valid table, the association set afterwards is the set it started
   * with plus exactly the ids of the requester's rows named in the list.
   */
  lemma {:induction false} ReconcileLinks(t: Table, owner: UserId, names: seq<string>, links: set<nat>)
    requires TableValid(t)
    ensures var res := ReconcileAll(t, owner, names, links);
      res.links == links + IdsFor(res.table.rows, owner, names)
  {
    if names == [] {
      assert IdsFor(t.rows, owner, names) == {};
    } else {
      var pre, n := names[..|names| - 1], names[|names| - 1];
      assert names == pre + [n];
      ReconcileLinks(t, owner, pre, links);
      var prev := ReconcileAll(t, owner, pre, links);
      assert TableValid(prev.table) by { ReconcileGrows(t, owner, pre, links); }
      var g := GetOrCreate(prev.table, owner, n);
      var mine := AttrRow(g.id, owner, n);
      assert ReconcileAll(t, owner, names, links) == Reconciled(g.table, prev.links + {g.id});
      assert mine in g.table.rows;
      assert forall i :: |prev.table.rows| <= i < |g.table.rows| ==> g.table.rows[i] == mine;
      IdsForStep(prev.table, g.table, owner, pre, n, g.id);
    }
  }

  /** One step of `ReconcileLinks`: at most the resolved row was appended. */
  lemma IdsForStep(a: Table, b: Table, owner: UserId, pre: seq<string>, n: string, id: nat)
    requires TableValid(b) && a.rows <= b.rows && AttrRow(id, owner, n) in b.rows
    requires forall i :: |a.rows| <= i < |b.rows| ==> b.rows[i] == AttrRow(id, owner, n)
    ensures IdsFor(b.rows, owner, pre + [n]) == IdsFor(a.rows, owner, pre) + {id}
  {
    var mine := AttrRow(id, owner, n);
    forall x | x in IdsFor(b.rows, owner, pre + [n])
      ensures x in IdsFor(a.rows, owner, pre) + {id}
    {
      var r :| r in b.rows && r.owner == owner && r.name in pre + [n] && r.id == x;
      var i :| 0 <= i < |b.rows| && b.rows[i] == r;
      if r.name == n {
        KeyDeterminesRow(b, r, mine);
      } else if i < |a.rows| {
        assert a.rows[i] == r;
      }
    }
    forall x | x in IdsFor(a.rows, owner, pre)
      ensures x in IdsFor(b.rows, owner, pre + [n])
    {
      var r :| r in a.rows && r.owner == owner && r.name in pre && r.id == x;
      var i :| 0 <= i < |a.rows| && a.rows[i] == r;
      assert b.rows[i] == r;
    }
  }

  /**
   * Reuse: a submitted name for which the requester already owns a row
   * resolves to that very row, its id is associated, and no second row with
   * that (owner, name) is created.
   */
  lemma ReconcileReuses(t: Table, owner: UserId, names: seq<string>, links: set<nat>, row: AttrRow)
    requires TableValid(t) && row in t.rows && row.owner == owner && row.name in names
    ensures var res := ReconcileAll(t, owner, names, links);
      && row.id in res.links
      && Lookup(res.table.rows, owner, row.name) == Some(row)
      && forall i :: |t.rows| <= i < |res.table.rows| ==> res.table.rows[i].name != row.name
  {
    ReconcileGrows(t, owner, names, links);
    ReconcileLinks(t, owner, names, links);
    var res := ReconcileAll(t, owner, names, links);
    var i :| 0 <= i < |t.rows| && t.rows[i] == row;
    assert res.table.rows[i] == row;
    var found := Lookup(res.table.rows, owner, row.name);
    KeyDeterminesRow(res.table, found.value, row);
  }

  /**
   * Creation: a submitted name with no (owner, name) row gets exactly one new
   * row, appended, owned by the requester, and its id is associated.
   */
  lemma ReconcileCreatesOne(t: Table, owner: UserId, names: seq<string>, links: set<nat>, name: string)
    requires TableValid(t) && name in names && Lookup(t.rows, owner, name).None?
    ensures var res := ReconcileAll(t, owner, names, links);
      exists i :: |t.rows| <= i < |res.table.rows| &&
        res.table.rows[i].owner == owner && res.table.rows[i].name == name &&
        res.table.rows[i].id in res.links &&
        forall j :: (0 <= j < |res.table.rows| && res.table.rows[j].owner == owner &&
          res.table.rows[j].name == name) ==> j == i
  {
    ReconcileGrows(t, owner, names, links);
    ReconcileLinks(t, owner, names, links);
    var res := ReconcileAll(t, owner, names, links);
    var row := Lookup(res.table.rows, owner, name).value;
    var i :| 0 <= i < |res.table.rows| && res.table.rows[i] == row;
    assert i >= |t.rows|;
    assert row.id in IdsFor(res.table.rows, owner, names);
    forall j | 0 <= j < |res.table.rows| && res.table.rows[j].owner == owner &&
        res.table.rows[j].name == name
      ensures j == i
    {
      KeyDeterminesRow(res.table, res.table.rows[i], res.table.rows[j]);
      RowsValidFacts(res.table.rows, res.table.nextId);
      assert !(i < j) && !(j < i);
    }
  }

  /** Row count: the table grows by exactly the number of distinct missing names. */
  lemma {:induction false} ReconcileCount(t: Table, owner: UserId, names: seq<string>, links: set<nat>)
    ensures |ReconcileAll(t, owner, names, links).table.rows| == |t.rows| + |Missing(t.rows, owner, names)|
  {
    if names == [] {
      assert Missing(t.rows, owner, names) == {};
    } else {
      var pre, n := names[..|names| - 1], names[|names| - 1];
      assert names == pre + [n];
      ReconcileCount(t, owner, pre, links);
      var prev := ReconcileAll(t, owner, pre, links);
      assert && t.rows <= prev.table.rows
             && (forall i :: |t.rows| <= i < |prev.table.rows| ==> prev.table.rows[i].name in pre)
             && (forall m :: m in pre ==> Lookup(prev.table.rows, owner, m).Some?) by {
        ReconcileGrows(t, owner, pre, links);
      }
      CountStep(t.rows, prev.table, owner, pre, n);
    }
  }

  /** One step of `ReconcileCount`: resolving `n` after `pre` appends a row exactly when `n` is newly missing. */
  lemma CountStep(rows: seq<AttrRow>, prev: Table, owner: UserId, pre: seq<string>, n: string)
    requires rows <= prev.rows
    requires forall i :: |rows| <= i < |prev.rows| ==> prev.rows[i].name in pre
    requires forall m :: m in pre ==> Lookup(prev.rows, owner, m).Some?
    ensures |GetOrCreate(prev, owner, n).table.rows| ==
              |prev.rows| + |Missing(rows, owner, pre + [n])| - |Missing(rows, owner, pre)|
  {
    if Lookup(prev.rows, owner, n).Some? {
      MissingKept(rows, prev, owner, pre, n);
    } else {
      MissingAdded(rows, prev, owner, pre, n);
    }
  }

  /** A name that already resolves after `pre` adds nothing to the missing names. */
  lemma MissingKept(rows: seq<AttrRow>, prev: Table, owner: UserId, pre: seq<string>, n: string)
    requires rows <= prev.rows
    requires forall i :: |rows| <= i < |prev.rows| ==> prev.rows[i].name in pre
    requires Lookup(prev.rows, owner, n).Some?
    ensures Missing(rows, owner, pre + [n]) == Missing(rows, owner, pre)
  {
    var found := Lookup(prev.rows, owner, n).value;
    assert n in pre || Lookup(rows, owner, n).Some? by {
      var i :| 0 <= i < |prev.rows| && prev.rows[i] == found;
      if i < |rows| {
        assert rows[i] == found;
      }
    }
    assert forall m :: m in pre + [n] <==> m in pre || m == n;
  }

  /** A name that does not resolve after `pre` is missing, and new among the missing names. */
  lemma MissingAdded(rows: seq<AttrRow>, prev: Table, owner: UserId, pre: seq<string>, n: string)
    requires rows <= prev.rows
    requires forall m :: m in pre ==> Lookup(prev.rows, owner, m).Some?
    requires Lookup(prev.rows, owner, n).None?
    ensures |Missing(rows, owner, pre + [n])| == |Missing(rows, owner, pre)| + 1
  {
    LookupPrefixed(rows, prev.rows, owner, n);
    assert n !in pre;
    assert forall m :: m in pre + [n] <==> m in pre || m == n;
    assert Missing(rows, owner, pre + [n]) == Missing(rows, owner, pre) + {n};
    AddFresh(Missing(rows, owner, pre), n);
  }

  /**
   * Starting from no associations, the association set has one entry per
   * distinct submitted name (duplicates in the list associate one row once).
   */
  lemma {:induction false} ReconcileDistinctSize(t: Table, owner: UserId, names: seq<string>)
    requires TableValid(t)
    ensures |ReconcileAll(t, owner, names, {}).links| == |NameSet(names)|
  {
    if names == [] {
      assert NameSet(names) == {};
    } else {
      var pre, n := names[..|names| - 1], names[|names| - 1];
      assert names == pre + [n];
      ReconcileDistinctSize(t, owner, pre);
      DistinctSizeStep(t, owner, pre, n);
    }
  }

  /**
   * A list reconciled from no associations leaves exactly the owner's rows
   * for the submitted names associated, one per distinct name.
   */
  lemma ReconcileFromEmpty(t: Table, owner: UserId, names: seq<string>)
    requires TableValid(t)
    ensures var r := ReconcileAll(t, owner, names, {});
      r.links == IdsFor(r.table.rows, owner, names) && |r.links| == |NameSet(names)|
  {
    ReconcileLinks(t, owner, names, {});
    ReconcileDistinctSize(t, owner, names);
  }

  /** One step of `ReconcileDistinctSize`: appending a name `n` to `pre`. */
  lemma DistinctSizeStep(t: Table, owner: UserId, pre: seq<string>, n: string)
    requires TableValid(t)
    requires |ReconcileAll(t, owner, pre, {}).links| == |NameSet(pre)|
    ensures |ReconcileAll(t, owner, pre + [n], {}).links| == |NameSet(pre + [n])|
  {
    var names := pre + [n];
    assert names[..|names| - 1] == pre;
    var prev := ReconcileAll(t, owner, pre, {});
    assert prev.links == IdsFor(prev.table.rows, owner, pre) by { ReconcileLinks(t, owner, pre, {}); }
    assert TableValid(prev.table) && (n in pre ==> Lookup(prev.table.rows, owner, n).Some?) by {
      ReconcileGrows(t, owner, pre, {});
    }
    var g := GetOrCreate(prev.table, owner, n);
    assert ReconcileAll(t, owner, names, {}).links == prev.links + {g.id};
    NameSetAppend(pre, n);
    LinksAppend(prev.table, g.table, owner, pre, n, g.id);
  }

  /** Resolving `n` after `pre` adds a new id exactly when `n` was not among `pre`. */
  lemma LinksAppend(a: Table, b: Table, owner: UserId, pre: seq<string>, n: string, id: nat)
    requires TableValid(b) && a.rows <= b.rows && AttrRow(id, owner, n) in b.rows
    requires n in pre ==> AttrRow(id, owner, n) in a.rows
    ensures |IdsFor(a.rows, owner, pre) + {id}| == |IdsFor(a.rows, owner, pre)| + (if n in pre then 0 else 1)
  {
    var links := IdsFor(a.rows, owner, pre);
    if n in pre {
      assert id in links;
      assert links + {id} == links;
    } else {
      FreshNameFreshId(a, b, owner, pre, n, id);
      AddFresh(links, id);
    }
  }

  /** A name not among `pre` resolves to an id outside `pre`'s ids. */
  lemma FreshNameFreshId(a: Table, b: Table, owner: UserId, pre: seq<string>, n: string, id: nat)
    requires TableValid(b) && a.rows <= b.rows && AttrRow(id, owner, n) in b.rows && n !in pre
    ensures id !in IdsFor(a.rows, owner, pre)
  {
    forall r | r in a.rows && r.owner == owner && r.name in pre ensures r.id != id {
      var i :| 0 <= i < |a.rows| && a.rows[i] == r;
      assert b.rows[i] == r;
      if r.id == id {
        IdDeterminesRow(b, r, AttrRow(id, owner, n));
      }
    }
  }

  /**
   * Replacement (update with a present list, after clearing): every submitted
   * name is associated, and a row that is not the requester's or whose name
   * was not submitted is not associated.
   */
  lemma ReplaceDropsUnnamed(t: Table, owner: UserId, names: seq<string>, row: AttrRow)
    requires TableValid(t) && row in t.rows && (row.owner != owner || row.name !in names)
    ensures var res := ReconcileAll(t, owner, names, {});
      && row.id !in res.links
      && forall n :: n in names ==>
           Lookup(res.table.rows, owner, n).Some? && Lookup(res.table.rows, owner, n).value.id in res.links
  {
    ReconcileGrows(t, owner, names, {});
    ReconcileLinks(t, owner, names, {});
    var res := ReconcileAll(t, owner, names, {});
    var i :| 0 <= i < |t.rows| && t.rows[i] == row;
    assert res.table.rows[i] == row;
    if row.id in res.links {
      var r :| r in res.table.rows && r.owner == owner && r.name in names && r.id == row.id;
      IdDeterminesRow(res.table, r, row);
      assert false;
    }
  }
}
