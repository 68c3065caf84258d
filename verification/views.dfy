/**
 * The viewsets of the experiment API: ownership-scoped querysets with their
 * orderings, the choice of serializer per action, and the create, detail,
 * update and delete paths that reach a row only through the queryset.
 */
module Views {
  import opened Records
  import opened Sequences
  import opened Attributes
  import opened Serializers

  /** The viewset actions of `ExperimentViewSet`. */
  datatype Action = List | Create | Retrieve | Update | PartialUpdate | Destroy

  /** Response status of a write or lookup. */
  datatype Status = Ok | NoContent | NotFound

  /** `get_serializer_class`: only `list` uses the list serializer. */
  function SerializerFor(action: Action): (s: SerializerClass)
    ensures s == ExperimentSerializer <==> action == List
    ensures s == ExperimentDetailSerializer <==> action != List
    ensures "description" in Fields(s) <==> action != List
  {
    if action == List then ExperimentSerializer else ExperimentDetailSerializer
  }

  /** `order_by('-id')`: a row comes first when its id is not smaller. */
  function IdFirst(a: ExperimentRow, b: ExperimentRow): bool
  {
    a.id >= b.id
  }

  /** `order_by('-name')`: a row comes first when its name is not lexicographically smaller. */
  function NameFirst(a: AttrRow, b: AttrRow): bool
  {
    LexLeq(b.name, a.name)
  }

  /** `ExperimentViewSet.get_queryset`: the requester's experiments, newest id first. */
  function ExperimentQueryset(rows: seq<ExperimentRow>, requester: UserId): (q: seq<ExperimentRow>)
    ensures forall e :: e in q <==> e in rows && e.owner == requester
    ensures multiset(q) <= multiset(rows)
  {
    SortBy(Filter(rows, (e: ExperimentRow) => e.owner == requester), IdFirst)
  }

  /** `BaseExperimentAttrViewSet.get_queryset`: the requester's tags or ingredients, by descending name. */
  function AttrQueryset(rows: seq<AttrRow>, requester: UserId): (q: seq<AttrRow>)
    ensures forall r :: r in q <==> r in rows && r.owner == requester
    ensures multiset(q) <= multiset(rows)
  {
    SortBy(Filter(rows, (r: AttrRow) => r.owner == requester), NameFirst)
  }

  lemma NameFirstTotalPreorder()
    ensures TotalPreorder(NameFirst)
  {
    forall a: AttrRow, b: AttrRow ensures NameFirst(a, b) || NameFirst(b, a) {
      LexTotal(a.name, b.name);
    }
    forall a: AttrRow, b: AttrRow, c: AttrRow | NameFirst(a, b) && NameFirst(b, c)
      ensures NameFirst(a, c)
    {
      LexTransitive(c.name, b.name, a.name);
    }
  }

  /** No two experiment rows share an id. */
  ghost predicate DistinctIds(rows: seq<ExperimentRow>)
  {
    forall i, j :: 0 <= i < |rows| && 0 <= j < |rows| && i != j ==> rows[i].id != rows[j].id
  }

  /** The store's invariant on experiment rows gives the distinct ids the lemmas below assume. */
  lemma ValidExperimentsDistinct(es: seq<ExperimentRow>, nextId: nat)
    requires ExperimentsValid(es, nextId)
    ensures DistinctIds(es)
  {
  }

  /**
   * The experiment queryset is in strictly descending id order when ids are
   * distinct (as the store keeps them).
   */
  lemma ExperimentQuerysetDescending(rows: seq<ExperimentRow>, requester: UserId)
    requires DistinctIds(rows)
    ensures var q := ExperimentQueryset(rows, requester);
      forall i, j :: 0 <= i < j < |q| ==> q[i].id > q[j].id
  {
    var q := ExperimentQueryset(rows, requester);
    SortBySorted(Filter(rows, (e: ExperimentRow) => e.owner == requester), IdFirst);
    assert NoDup(rows);
    NoDupByMultiset(q, rows);
    forall i, j | 0 <= i < j < |q| ensures q[i].id > q[j].id {
      assert IdFirst(q[i], q[j]);
      assert q[i] in rows && q[j] in rows;
    }
  }

  /**
   * In a valid attribute table the queryset is in strictly descending name
   * order: the requester's names are unique.
   */
  lemma AttrQuerysetDescending(t: Table, requester: UserId)
    requires TableValid(t)
    ensures var q := AttrQueryset(t.rows, requester);
      forall i, j :: 0 <= i < j < |q| ==> LexLeq(q[j].name, q[i].name) && q[i].name != q[j].name
  {
    var q := AttrQueryset(t.rows, requester);
    NameFirstTotalPreorder();
    SortBySorted(Filter(t.rows, (r: AttrRow) => r.owner == requester), NameFirst);
    RowsValidFacts(t.rows, t.nextId);
    assert NoDup(t.rows);
    NoDupByMultiset(q, t.rows);
    forall i, j | 0 <= i < j < |q| ensures LexLeq(q[j].name, q[i].name) && q[i].name != q[j].name {
      assert NameFirst(q[i], q[j]);
      if q[i].name == q[j].name {
        KeyDeterminesRow(t, q[i], q[j]);
      }
    }
  }

  /**
   * `get_object` on the experiment queryset: the position of the row with
   * this id if the requester owns it, otherwise nothing (a 404).
   */
  function ObjectIndex(rows: seq<ExperimentRow>, requester: UserId, id: nat): (r: Option<nat>)
    ensures r.Some? ==> r.value < |rows| && rows[r.value].id == id && rows[r.value].owner == requester
    ensures r.None? ==> forall i :: 0 <= i < |rows| ==> rows[i].id != id || rows[i].owner != requester
  {
    if rows == [] then None
    else if rows[0].id == id && rows[0].owner == requester then Some(0)
    else
      match ObjectIndex(rows[1..], requester, id)
      case None => None
      case Some(i) => Some(i + 1)
  }

  /** The lookup finds a row exactly when the queryset holds one with that id. */
  lemma ObjectIndexMatchesQueryset(rows: seq<ExperimentRow>, requester: UserId, id: nat)
    ensures ObjectIndex(rows, requester, id).Some? <==>
              exists e :: e in ExperimentQueryset(rows, requester) && e.id == id
  {
    var q := ExperimentQueryset(rows, requester);
    match ObjectIndex(rows, requester, id)
    case Some(i) =>
      assert rows[i] in q;
    case None =>
  }

  /** Detail: the requester's row with this id, or not found. */
  function Detail(rows: seq<ExperimentRow>, requester: UserId, id: nat): (r: Option<ExperimentRow>)
    ensures r.Some? ==> r.value in ExperimentQueryset(rows, requester) && r.value.id == id
    ensures r.None? ==> forall e :: e in rows && e.id == id ==> e.owner != requester
  {
    match ObjectIndex(rows, requester, id)
    case Some(i) => Some(rows[i])
    case None => None
  }

  /** A row owned by someone else is invisible to the requester: detail and delete find nothing. */
  lemma OthersRowNotFound(rows: seq<ExperimentRow>, requester: UserId, i: nat)
    requires DistinctIds(rows) && i < |rows| && rows[i].owner != requester
    ensures ObjectIndex(rows, requester, rows[i].id).None?
    ensures Detail(rows, requester, rows[i].id).None?
    ensures rows[i] !in ExperimentQueryset(rows, requester)
  {
    forall j | 0 <= j < |rows| && rows[j].id == rows[i].id ensures rows[j].owner != requester {
      assert j == i;
    }
  }

  /** A row appended with a larger id than every existing row is what the owner's detail lookup finds. */
  lemma AppendedRowFound(prev: seq<ExperimentRow>, e: ExperimentRow, requester: UserId)
    requires e.owner == requester && forall x :: x in prev ==> x.id < e.id
    ensures Detail(prev + [e], requester, e.id) == Some(e)
  {
    var es := prev + [e];
    forall j | 0 <= j < |prev| ensures es[j].id != e.id {
      assert es[j] in prev;
    }
    assert es[|prev|] == e;
    assert ObjectIndex(es, requester, e.id).Some?;
  }

  /**
   * `perform_create`: save through the detail serializer with the requester as
   * owner; the new row's tags and ingredients are the requester's rows for the
   * submitted names, created where missing, and an omitted list means none.
   */
  method PerformCreate(store: Store, requester: UserId, fields: Scalars,
                       tags: Option<seq<string>>, ingredients: Option<seq<string>>)
    returns (id: nat)
    requires store.Valid()
    modifies store
    ensures store.Valid()
    ensures id == old(store.nextExperimentId) && store.nextExperimentId == id + 1
    ensures |store.experiments| == |old(store.experiments)| + 1
    ensures store.experiments[..|old(store.experiments)|] == old(store.experiments)
    ensures var e := store.experiments[|old(store.experiments)|];
      e.id == id && e.owner == requester && e.fields == fields
    ensures Detail(store.experiments, requester, id) == Some(store.experiments[|old(store.experiments)|])
    ensures var e := store.experiments[|old(store.experiments)|];
      && var rt := ReconcileAll(old(store.tagTable), requester, SubmittedOrEmpty(tags), {});
      && var ri := ReconcileAll(old(store.ingredientTable), requester, SubmittedOrEmpty(ingredients), {});
      && store.tagTable == rt.table && e.tags == rt.links
      && store.ingredientTable == ri.table && e.ingredients == ri.links
    ensures tags.None? ==>
              store.experiments[|old(store.experiments)|].tags == {} && store.tagTable == old(store.tagTable)
    ensures ingredients.None? ==>
              && store.experiments[|old(store.experiments)|].ingredients == {}
              && store.ingredientTable == old(store.ingredientTable)
    ensures var e := store.experiments[|old(store.experiments)|];
      && e.tags == IdsFor(store.tagTable.rows, requester, SubmittedOrEmpty(tags))
      && |e.tags| == |NameSet(SubmittedOrEmpty(tags))|
      && e.ingredients == IdsFor(store.ingredientTable.rows, requester, SubmittedOrEmpty(ingredients))
      && |e.ingredients| == |NameSet(SubmittedOrEmpty(ingredients))|
  {
    ghost var prev := store.experiments;
    id := store.Create(requester, fields, tags, ingredients);
    ghost var e := store.experiments[|prev|];
    assert store.experiments == prev + [e];
    AppendedRowFound(prev, e, requester);
  }

  /**
   * `destroy`: delete the requester's row with this id; a row that is not in
   * the requester's queryset is not found and the store is unchanged.
   */
  method DestroyExperiment(store: Store, requester: UserId, id: nat) returns (status: Status)
    requires store.Valid()
    modifies store
    ensures store.Valid()
    ensures status == NotFound || status == NoContent
    ensures status == NotFound <==> ObjectIndex(old(store.experiments), requester, id).None?
    ensures status == NotFound ==> store.experiments == old(store.experiments)
    ensures status == NoContent ==>
              var i := ObjectIndex(old(store.experiments), requester, id).value;
              store.experiments == old(store.experiments[..i] + store.experiments[i + 1..])
    ensures store.tagTable == old(store.tagTable) && store.ingredientTable == old(store.ingredientTable)
    ensures store.nextExperimentId == old(store.nextExperimentId)
  {
    match ObjectIndex(store.experiments, requester, id)
    case None =>
      status := NotFound;
    case Some(i) =>
      store.Delete(i);
      status := NoContent;
  }

  /**
   * `update` / `partial_update`: reach the row through the requester's
   * queryset and apply the detail serializer's update; otherwise not found.
   */
  method UpdateExperiment(store: Store, requester: UserId, id: nat, assignments: seq<Assignment>,
                          tags: Option<seq<string>>, ingredients: Option<seq<string>>)
    returns (status: Status)
    requires store.Valid()
    modifies store
    ensures store.Valid()
    ensures status == NotFound || status == Ok
    ensures status == NotFound <==> ObjectIndex(old(store.experiments), requester, id).None?
    ensures status == NotFound ==>
              && store.experiments == old(store.experiments)
              && store.tagTable == old(store.tagTable)
              && store.ingredientTable == old(store.ingredientTable)
    ensures status == Ok ==>
              var i := ObjectIndex(old(store.experiments), requester, id).value;
              && |store.experiments| == |old(store.experiments)|
              && store.experiments[i].id == id
              && store.experiments[i].owner == requester
              && store.experiments[i].fields == ApplyAll(old(store.experiments[i].fields), assignments)
              && forall j :: 0 <= j < |store.experiments| && j != i ==> store.experiments[j] == old(store.experiments[j])
    ensures status == Ok ==>
              var i := ObjectIndex(old(store.experiments), requester, id).value;
              && (tags.None? ==> store.tagTable == old(store.tagTable) && store.experiments[i].tags == old(store.experiments[i].tags))
              && (tags.Some? ==>
                    var r := ReconcileAll(old(store.tagTable), requester, tags.value, {});
                    && store.tagTable == r.table && store.experiments[i].tags == r.links
                    && store.experiments[i].tags == IdsFor(store.tagTable.rows, requester, tags.value))
    ensures status == Ok ==>
              var i := ObjectIndex(old(store.experiments), requester, id).value;
              && (ingredients.None? ==>
                    && store.ingredientTable == old(store.ingredientTable)
                    && store.experiments[i].ingredients == old(store.experiments[i].ingredients))
              && (ingredients.Some? ==>
                    var r := ReconcileAll(old(store.ingredientTable), requester, ingredients.value, {});
                    && store.ingredientTable == r.table && store.experiments[i].ingredients == r.links
                    && store.experiments[i].ingredients == IdsFor(store.ingredientTable.rows, requester, ingredients.value))
    ensures old(store.tagTable.rows) <= store.tagTable.rows
    ensures old(store.ingredientTable.rows) <= store.ingredientTable.rows
    ensures store.nextExperimentId == old(store.nextExperimentId)
  {
    match ObjectIndex(store.experiments, requester, id)
    case None =>
      status := NotFound;
    case Some(i) =>
      store.Update(i, requester, assignments, tags, ingredients);
      status := Ok;
  }
}
