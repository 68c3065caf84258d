/**
 * The serializers of the experiment API: the field lists of the four
 * serializers, the scalar assignments an update applies, and the store that
 * `ExperimentDetailSerializer.create` / `update` write to, with the in-place
 * get-or-create loop shared by tags and ingredients.
 */
module Serializers {
  import opened Records
  import opened Attributes

  /** The four serializer classes. */
  datatype SerializerClass =
    | IngredientSerializer
    | TagSerializer
    | ExperimentSerializer
    | ExperimentDetailSerializer

  /** `Meta.fields` of each serializer; the detail serializer extends the list serializer's. */
  function Fields(s: SerializerClass): (r: seq<string>)
    decreases if s.ExperimentDetailSerializer? then 1 else 0
    ensures |r| > 0 && r[0] == "id" && "user" !in r
    ensures "name" in r <==> s.IngredientSerializer? || s.TagSerializer?
    ensures "description" in r <==> s.ExperimentDetailSerializer?
    ensures s.ExperimentDetailSerializer? ==>
              r[..|r| - 1] == Fields(ExperimentSerializer) && r[|r| - 1] == "description"
  {
    match s
    case IngredientSerializer => ["id", "name"]
    case TagSerializer => ["id", "name"]
    case ExperimentSerializer => ["id", "title", "time_minutes", "price", "link", "tags", "ingredients"]
    case ExperimentDetailSerializer => Fields(ExperimentSerializer) + ["description"]
  }

  /**
   * The fields a client may submit: all but the read-only `id`. For an
   * attribute this leaves only `name`, so a submitted tag or ingredient is a
   * bare name.
   */
  function WritableFields(s: SerializerClass): (r: seq<string>)
    ensures forall f :: f in r <==> f in Fields(s) && f != "id"
    ensures s.IngredientSerializer? || s.TagSerializer? ==> r == ["name"]
  {
    Fields(s)[1..]
  }

  /** One `setattr(instance, attr, value)` of an update, for a scalar field. */
  datatype Assignment =
    | SetTitle(title: string)
    | SetTimeMinutes(minutes: int)
    | SetPrice(price: Price)
    | SetLink(link: string)
    | SetDescription(description: string)

  /** The scalar columns an update may assign. */
  datatype Field = Title | TimeMinutes | PriceField | Link | Description

  /** The serializer field name of a scalar column. */
  function Key(f: Field): string
  {
    match f
    case Title => "title"
    case TimeMinutes => "time_minutes"
    case PriceField => "price"
    case Link => "link"
    case Description => "description"
  }

  /**
   * Every scalar column is a writable field of the detail serializer, and
   * none is `id`, `user` or a relation: an update can never reassign the owner.
   */
  lemma ScalarFieldsWritable(f: Field)
    ensures Key(f) in WritableFields(ExperimentDetailSerializer)
    ensures Key(f) !in ["id", "user", "tags", "ingredients"]
  {
    var fs := Fields(ExperimentDetailSerializer);
    assert fs == ["id", "title", "time_minutes", "price", "link", "tags", "ingredients", "description"];
    assert Key(f) in fs[1..];
  }

  /** The column an assignment writes. */
  function FieldOf(a: Assignment): Field
  {
    match a
    case SetTitle(_) => Title
    case SetTimeMinutes(_) => TimeMinutes
    case SetPrice(_) => PriceField
    case SetLink(_) => Link
    case SetDescription(_) => Description
  }

  function Apply(s: Scalars, a: Assignment): Scalars
  {
    match a
    case SetTitle(v) => s.(title := v)
    case SetTimeMinutes(v) => s.(timeMinutes := v)
    case SetPrice(v) => s.(price := v)
    case SetLink(v) => s.(link := v)
    case SetDescription(v) => s.(description := v)
  }

  /** The `setattr` loop over `validated_data.items()`, in order. */
  function ApplyAll(s: Scalars, assignments: seq<Assignment>): Scalars
    decreases |assignments|
  {
    if assignments == [] then s
    else Apply(ApplyAll(s, assignments[..|assignments| - 1]), assignments[|assignments| - 1])
  }

  /** `t` holds, in the field `a` writes, the value `a` writes. */
  predicate Carries(t: Scalars, a: Assignment)
  {
    match a
    case SetTitle(v) => t.title == v
    case SetTimeMinutes(v) => t.timeMinutes == v
    case SetPrice(v) => t.price == v
    case SetLink(v) => t.link == v
    case SetDescription(v) => t.description == v
  }

  /** `s` and `t` agree on column `f`. */
  predicate AgreeOn(s: Scalars, t: Scalars, f: Field)
  {
    match f
    case Title => s.title == t.title
    case TimeMinutes => s.timeMinutes == t.timeMinutes
    case PriceField => s.price == t.price
    case Link => s.link == t.link
    case Description => s.description == t.description
  }

  /** A column that no assignment names keeps its value (e.g. `link` in a title-only patch). */
  lemma {:induction false} ApplyAllKeepsUnnamed(s: Scalars, assignments: seq<Assignment>, f: Field)
    requires forall a :: a in assignments ==> FieldOf(a) != f
    ensures AgreeOn(ApplyAll(s, assignments), s, f)
  {
    if assignments != [] {
      var pre := assignments[..|assignments| - 1];
      assert forall a :: a in pre ==> a in assignments;
      ApplyAllKeepsUnnamed(s, pre, f);
      assert FieldOf(assignments[|assignments| - 1]) != f;
    }
  }

  /** A named column ends up with the value of the last assignment that names it. */
  lemma {:induction false} ApplyAllLastWins(s: Scalars, assignments: seq<Assignment>, i: nat)
    requires i < |assignments|
    requires forall j :: i < j < |assignments| ==> FieldOf(assignments[j]) != FieldOf(assignments[i])
    ensures Carries(ApplyAll(s, assignments), assignments[i])
  {
    var n := |assignments|;
    var pre := assignments[..n - 1];
    if i < n - 1 {
      assert pre[i] == assignments[i];
      ApplyAllLastWins(s, pre, i);
      assert FieldOf(assignments[n - 1]) != FieldOf(assignments[i]);
    }
  }

  /** The `setattr` loop of `update` on the instance's scalar columns. */
  method AssignFields(instance: Scalars, assignments: seq<Assignment>) returns (fields: Scalars)
    ensures fields == ApplyAll(instance, assignments)
  {
    fields := instance;
    var i := 0;
    while i < |assignments|
      invariant 0 <= i <= |assignments|
      invariant fields == ApplyAll(instance, assignments[..i])
    {
      assert assignments[..i + 1][..i] == assignments[..i];
      fields := Apply(fields, assignments[i]);
      i := i + 1;
    }
    assert assignments[..i] == assignments;
  }

  /** The submitted list of a create: `validated_data.pop(key, [])`. */
  function SubmittedOrEmpty(names: Option<seq<string>>): (r: seq<string>)
    ensures names.Some? ==> r == names.value
    ensures names.None? ==> r == []
  {
    if names.Some? then names.value else []
  }

  /** Experiment ids increase with insertion order and lie below the next id. */
  ghost predicate ExperimentsValid(es: seq<ExperimentRow>, nextId: nat)
  {
    && (forall i, j :: 0 <= i < j < |es| ==> es[i].id < es[j].id)
    && (forall i :: 0 <= i < |es| ==> es[i].id < nextId)
  }

  /** Every association of kind `k` points at a row of `t` owned by the experiment's owner. */
  ghost predicate AllLinksOwned(es: seq<ExperimentRow>, k: Kind, t: Table)
  {
    forall i :: 0 <= i < |es| ==> es[i].Links(k) <= OwnedIds(t.rows, es[i].owner)
  }

  /**
   * Reconciling a list for the owner of the experiment at `idx`, starting
   * from its current associations, keeps the table valid and every
   * association owned.
   */
  lemma ReconcileKeepsOwned(es: seq<ExperimentRow>, t: Table, k: Kind, idx: nat, requester: UserId, names: seq<string>)
    requires idx < |es| && es[idx].owner == requester && AllLinksOwned(es, k, t) && TableValid(t)
    ensures var r := ReconcileAll(t, requester, names, es[idx].Links(k));
      && TableValid(r.table)
      && AllLinksOwned(es[idx := es[idx].WithLinks(k, r.links)], k, r.table)
  {
    var r := ReconcileAll(t, requester, names, es[idx].Links(k));
    ReconcileGrows(t, requester, names, es[idx].Links(k));
    ReconcileLinks(t, requester, names, es[idx].Links(k));
    var es' := es[idx := es[idx].WithLinks(k, r.links)];
    forall i | 0 <= i < |es'| ensures es'[i].Links(k) <= OwnedIds(r.table.rows, es'[i].owner) {
      OwnedIdsGrow(t.rows, r.table.rows, es[i].owner);
    }
  }

  /** Replacing the associations of kind `k` leaves those of the other kind, and the ids, as they were. */
  lemma RelinkKeepsOther(es: seq<ExperimentRow>, t: Table, k: Kind, idx: nat, links: set<nat>, nextId: nat)
    requires idx < |es| && AllLinksOwned(es, k.Other(), t) && ExperimentsValid(es, nextId)
    ensures AllLinksOwned(es[idx := es[idx].WithLinks(k, links)], k.Other(), t)
    ensures ExperimentsValid(es[idx := es[idx].WithLinks(k, links)], nextId)
  {
    var es' := es[idx := es[idx].WithLinks(k, links)];
    assert forall i :: 0 <= i < |es| ==> es'[i].id == es[i].id;
  }

  /** The Experiment, Tag and Ingredient tables together. */
  class Store {
    var tagTable: Table
    var ingredientTable: Table
    var experiments: seq<ExperimentRow>
    var nextExperimentId: nat

    ghost predicate Valid()
      reads this
    {
      && TableValid(tagTable)
      && TableValid(ingredientTable)
      && ExperimentsValid(experiments, nextExperimentId)
      && AllLinksOwned(experiments, TagKind, tagTable)
      && AllLinksOwned(experiments, IngredientKind, ingredientTable)
    }

    /** The attribute table of kind `k`. */
    function TableOf(k: Kind): Table
      reads this
    {
      if k == TagKind then tagTable else ingredientTable
    }

    constructor ()
      ensures Valid()
      ensures tagTable.rows == [] && ingredientTable.rows == [] && experiments == []
    {
      tagTable := Table([], 1);
      ingredientTable := Table([], 1);
      experiments := [];
      nextExperimentId := 1;
    }

    /**
     * One iteration of the get-or-create loop: resolve `name` for the
     * requester in the table of kind `k` (reusing or appending a row) and add
     * the row's id to the associations of the experiment at `idx`.
     */
    method GetOrCreateOne(k: Kind, idx: nat, requester: UserId, name: string)
      requires idx < |experiments|
      modifies this
      ensures var g := GetOrCreate(old(TableOf(k)), requester, name);
        && TableOf(k) == g.table
        && experiments == old(experiments)[idx := old(experiments[idx]).WithLinks(k, old(experiments[idx].Links(k)) + {g.id})]
      ensures TableOf(k.Other()) == old(TableOf(k.Other()))
      ensures nextExperimentId == old(nextExperimentId)
    {
      var resolved := GetOrCreate(TableOf(k), requester, name);
      if k == TagKind {
        tagTable := resolved.table;
      } else {
        ingredientTable := resolved.table;
      }
      var e := experiments[idx];
      experiments := experiments[idx := e.WithLinks(k, e.Links(k) + {resolved.id})];
    }

    /**
     * The loop of `_get_or_create_tags` / `_get_or_create_ingredients`: for
     * each submitted name in turn, get-or-create the requester's row and add
     * its id to the experiment at `idx`. Afterwards the table and the link set
     * are `ReconcileAll` of the old ones.
     */
    method ReconcileLoop(k: Kind, idx: nat, requester: UserId, names: seq<string>)
      requires idx < |experiments|
      modifies this
      ensures var r := ReconcileAll(old(TableOf(k)), requester, names, old(experiments[idx].Links(k)));
        && TableOf(k) == r.table
        && experiments == old(experiments)[idx := old(experiments[idx]).WithLinks(k, r.links)]
      ensures TableOf(k.Other()) == old(TableOf(k.Other()))
      ensures nextExperimentId == old(nextExperimentId)
    {
      ghost var table0, links0 := TableOf(k), experiments[idx].Links(k);
      ghost var es0 := experiments;
      var i := 0;
      while i < |names|
        invariant 0 <= i <= |names| && |experiments| == |es0|
        invariant var r := ReconcileAll(table0, requester, names[..i], links0);
          && TableOf(k) == r.table
          && experiments == es0[idx := es0[idx].WithLinks(k, r.links)]
        invariant TableOf(k.Other()) == old(TableOf(k.Other()))
        invariant nextExperimentId == old(nextExperimentId)
      {
        ReconcileNext(k, idx, requester, names, i, table0, links0, es0);
        i := i + 1;
      }
      assert names[..i] == names;
    }

    /**
     * One pass of `ReconcileLoop`: when the store holds the reconciliation of
     * the first `i` names, resolving name `i` in place makes it hold the
     * reconciliation of the first `i + 1`.
     */
    method ReconcileNext(k: Kind, idx: nat, requester: UserId, names: seq<string>, i: nat,
                         ghost table0: Table, ghost links0: set<nat>, ghost es0: seq<ExperimentRow>)
      requires i < |names| && idx < |es0| && |experiments| == |es0|
      requires var r := ReconcileAll(table0, requester, names[..i], links0);
        && TableOf(k) == r.table
        && experiments == es0[idx := es0[idx].WithLinks(k, r.links)]
      modifies this
      ensures |experiments| == |es0|
      ensures var r := ReconcileAll(table0, requester, names[..i + 1], links0);
        && TableOf(k) == r.table
        && experiments == es0[idx := es0[idx].WithLinks(k, r.links)]
      ensures TableOf(k.Other()) == old(TableOf(k.Other()))
      ensures nextExperimentId == old(nextExperimentId)
    {
      ghost var prev := ReconcileAll(table0, requester, names[..i], links0);
      ghost var g := GetOrCreate(prev.table, requester, names[i]);
      assert names[..i + 1][..i] == names[..i] && names[..i + 1][i] == names[i];
      ghost var next := ReconcileAll(table0, requester, names[..i + 1], links0);
      assert next == Reconciled(g.table, prev.links + {g.id});
      GetOrCreateOne(k, idx, requester, names[i]);
      assert experiments == es0[idx := es0[idx].WithLinks(k, next.links)] by {
        es0[idx].WithLinksTwice(k, prev.links, next.links);
      }
    }

    /**
     * `_get_or_create_tags` / `_get_or_create_ingredients` on a valid store:
     * the loop keeps the store invariant, because every resolved row is owned
     * by the requester, who owns the experiment.
     */
    method GetOrCreateAll(k: Kind, idx: nat, requester: UserId, names: seq<string>)
      requires Valid() && idx < |experiments| && experiments[idx].owner == requester
      modifies this
      ensures Valid()
      ensures var r := ReconcileAll(old(TableOf(k)), requester, names, old(experiments[idx].Links(k)));
        && TableOf(k) == r.table
        && experiments == old(experiments)[idx := old(experiments[idx]).WithLinks(k, r.links)]
      ensures TableOf(k.Other()) == old(TableOf(k.Other()))
      ensures nextExperimentId == old(nextExperimentId)
    {
      ReconcileLoop(k, idx, requester, names);
      ghost var r := ReconcileAll(old(TableOf(k)), requester, names, old(experiments[idx].Links(k)));
      ReconcileKeepsOwned(old(experiments), old(TableOf(k)), k, idx, requester, names);
      RelinkKeepsOther(old(experiments), old(TableOf(k.Other())), k, idx, r.links, nextExperimentId);
    }

    /**
     * `create`: insert a new experiment row owned by `owner` (stamped by the
     * view), then reconcile the submitted tags and ingredients; an omitted
     * list counts as empty.
     */
    method Create(owner: UserId, fields: Scalars, tags: Option<seq<string>>, ingredients: Option<seq<string>>)
      returns (id: nat)
      requires Valid()
      modifies this
      ensures Valid()
      ensures id == old(nextExperimentId) && nextExperimentId == id + 1
      ensures forall e :: e in old(experiments) ==> e.id < id
      ensures |experiments| == |old(experiments)| + 1
      ensures experiments[..|old(experiments)|] == old(experiments)
      ensures var e := experiments[|old(experiments)|];
        && e.id == id && e.owner == owner && e.fields == fields
        && var rt := ReconcileAll(old(tagTable), owner, SubmittedOrEmpty(tags), {});
        && var ri := ReconcileAll(old(ingredientTable), owner, SubmittedOrEmpty(ingredients), {});
        && tagTable == rt.table && e.tags == rt.links
        && ingredientTable == ri.table && e.ingredients == ri.links
      ensures tags.None? ==> experiments[|old(experiments)|].tags == {} && tagTable == old(tagTable)
      ensures ingredients.None? ==>
                experiments[|old(experiments)|].ingredients == {} && ingredientTable == old(ingredientTable)
      ensures var e := experiments[|old(experiments)|];
        && e.tags == IdsFor(tagTable.rows, owner, SubmittedOrEmpty(tags))
        && |e.tags| == |NameSet(SubmittedOrEmpty(tags))|
        && e.ingredients == IdsFor(ingredientTable.rows, owner, SubmittedOrEmpty(ingredients))
        && |e.ingredients| == |NameSet(SubmittedOrEmpty(ingredients))|
    {
      var idx := |experiments|;
      id := InsertExperiment(owner, fields);
      GetOrCreateAll(TagKind, idx, owner, SubmittedOrEmpty(tags));
      GetOrCreateAll(IngredientKind, idx, owner, SubmittedOrEmpty(ingredients));
      ReconcileFromEmpty(old(tagTable), owner, SubmittedOrEmpty(tags));
      ReconcileFromEmpty(old(ingredientTable), owner, SubmittedOrEmpty(ingredients));
    }

    /** `Experiment.objects.create`: append a row with the next id and no associations. */
    method InsertExperiment(owner: UserId, fields: Scalars) returns (id: nat)
      requires Valid()
      modifies this
      ensures Valid()
      ensures id == old(nextExperimentId) && nextExperimentId == id + 1
      ensures forall e :: e in old(experiments) ==> e.id < id
      ensures experiments == old(experiments) + [ExperimentRow(id, owner, fields, {}, {})]
      ensures tagTable == old(tagTable) && ingredientTable == old(ingredientTable)
    {
      id := nextExperimentId;
      experiments := experiments + [ExperimentRow(id, owner, fields, {}, {})];
      nextExperimentId := nextExperimentId + 1;
    }

    /**
     * One relation branch of `update`: a present list (even empty) clears the
     * associations of kind `k` and reconciles the list; an omitted one
     * (`None`) leaves them and the table alone.
     */
    method ReplaceLinks(k: Kind, idx: nat, requester: UserId, names: Option<seq<string>>)
      requires Valid() && idx < |experiments| && experiments[idx].owner == requester
      modifies this
      ensures Valid()
      ensures names.None? ==> TableOf(k) == old(TableOf(k)) && experiments == old(experiments)
      ensures names.Some? ==>
                var r := ReconcileAll(old(TableOf(k)), requester, names.value, {});
                && TableOf(k) == r.table
                && experiments == old(experiments)[idx := old(experiments[idx]).WithLinks(k, r.links)]
      ensures TableOf(k.Other()) == old(TableOf(k.Other()))
      ensures nextExperimentId == old(nextExperimentId)
      ensures old(TableOf(k).rows) <= TableOf(k).rows
      ensures names.Some? ==> experiments[idx].Links(k) == IdsFor(TableOf(k).rows, requester, names.value)
      ensures names == Some([]) ==> experiments[idx].Links(k) == {} && TableOf(k) == old(TableOf(k))
    {
      if names.Some? {
        experiments := experiments[idx := experiments[idx].WithLinks(k, {})];
        GetOrCreateAll(k, idx, requester, names.value);
        ghost var r := ReconcileAll(old(TableOf(k)), requester, names.value, {});
        assert old(TableOf(k).rows) <= r.table.rows && r.links == IdsFor(r.table.rows, requester, names.value) by {
          ReconcileGrows(old(TableOf(k)), requester, names.value, {});
          ReconcileLinks(old(TableOf(k)), requester, names.value, {});
        }
      }
    }

    /**
     * `update`: the tag branch, then the ingredient branch, then each
     * submitted scalar assigned in order and the row saved; id and owner
     * never change.
     */
    method Update(idx: nat, requester: UserId, assignments: seq<Assignment>,
                  tags: Option<seq<string>>, ingredients: Option<seq<string>>)
      requires Valid() && idx < |experiments| && experiments[idx].owner == requester
      modifies this
      ensures Valid()
      ensures nextExperimentId == old(nextExperimentId)
      ensures |experiments| == |old(experiments)|
      ensures forall j :: 0 <= j < |experiments| && j != idx ==> experiments[j] == old(experiments[j])
      ensures experiments[idx].id == old(experiments[idx].id)
      ensures experiments[idx].owner == old(experiments[idx].owner)
      ensures experiments[idx].fields == ApplyAll(old(experiments[idx].fields), assignments)
      ensures tags.None? ==> tagTable == old(tagTable) && experiments[idx].tags == old(experiments[idx].tags)
      ensures tags.Some? ==>
                var r := ReconcileAll(old(tagTable), requester, tags.value, {});
                tagTable == r.table && experiments[idx].tags == r.links
      ensures ingredients.None? ==>
                ingredientTable == old(ingredientTable) &&
                experiments[idx].ingredients == old(experiments[idx].ingredients)
      ensures ingredients.Some? ==>
                var r := ReconcileAll(old(ingredientTable), requester, ingredients.value, {});
                ingredientTable == r.table && experiments[idx].ingredients == r.links
      ensures old(tagTable.rows) <= tagTable.rows && old(ingredientTable.rows) <= ingredientTable.rows
      ensures tags == Some([]) ==> experiments[idx].tags == {} && tagTable == old(tagTable)
      ensures ingredients == Some([]) ==>
                experiments[idx].ingredients == {} && ingredientTable == old(ingredientTable)
      ensures tags.Some? ==> experiments[idx].tags == IdsFor(tagTable.rows, requester, tags.value)
      ensures ingredients.Some? ==>
                experiments[idx].ingredients == IdsFor(ingredientTable.rows, requester, ingredients.value)
    {
      ReplaceLinks(TagKind, idx, requester, tags);
      ReplaceLinks(IngredientKind, idx, requester, ingredients);
      var fields := AssignFields(experiments[idx].fields, assignments);
      Save(idx, fields);
    }

    /** `instance.save()`: write the instance's scalar columns back to its row. */
    method Save(idx: nat, fields: Scalars)
      requires Valid() && idx < |experiments|
      modifies this
      ensures Valid()
      ensures experiments == old(experiments)[idx := old(experiments[idx]).(fields := fields)]
      ensures tagTable == old(tagTable) && ingredientTable == old(ingredientTable)
      ensures nextExperimentId == old(nextExperimentId)
    {
      experiments := experiments[idx := experiments[idx].(fields := fields)];
    }

    /** Deleting an experiment row; attribute rows are never deleted with it. */
    method Delete(idx: nat)
      requires Valid() && idx < |experiments|
      modifies this
      ensures Valid()
      ensures experiments == old(experiments[..idx] + experiments[idx + 1..])
      ensures tagTable == old(tagTable) && ingredientTable == old(ingredientTable)
      ensures nextExperimentId == old(nextExperimentId)
    {
      ghost var es := experiments;
      experiments := experiments[..idx] + experiments[idx + 1..];
      forall i, j | 0 <= i < j < |experiments| ensures experiments[i].id < experiments[j].id {
        var i', j' := if i < idx then i else i + 1, if j < idx then j else j + 1;
        assert experiments[i] == es[i'] && experiments[j] == es[j'];
      }
      forall i | 0 <= i < |experiments|
        ensures experiments[i].id < nextExperimentId
        ensures experiments[i].tags <= OwnedIds(tagTable.rows, experiments[i].owner)
        ensures experiments[i].ingredients <= OwnedIds(ingredientTable.rows, experiments[i].owner)
      {
        assert experiments[i] == es[if i < idx then i else i + 1];
      }
    }
  }
}
