# Experiment API: verified model of the attribute reconciler and the owner-scoped views

This project models the core of the experiment API, a Django REST backend in which
authenticated users keep experiments. Each experiment has scalar fields (title,
time in minutes, price, link, description) and two many-to-many associations:
tags and ingredients. Tag and ingredient rows are owned by a user and keyed by
name.

The model has five modules:

- `Records`: the record shapes. These are attribute rows `(id, owner, name)` and
  experiment rows with an owner, scalar fields and two sets of attribute ids.
- `Sequences`: a filter, an insertion sort by a "comes first" relation,
  duplicate-freedom, and the code-point lexicographic order used for
  descending-name ordering.
- `Attributes`: one attribute table as a value. It covers the
  `get_or_create(user=…, name=…)` lookup keyed on `(owner, name)`. It also holds
  `ReconcileAll`, the reference definition of the loop in `_get_or_create_tags`
  and `_get_or_create_ingredients`, with the lemmas about what one
  reconciliation does to the table and to the association set.
- `Serializers`: the field lists of the four serializers and the `setattr` loop
  of `update`. It also holds the class `Store`, which has the two attribute
  tables and the experiment rows as fields. Its methods are the in-place
  get-or-create loop (one method for both kinds), `create`, `update` (clear,
  reconcile, assign, save) and row deletion. `ReconcileLoop`, `GetOrCreateAll`,
  `Create`, `ReplaceLinks` and `Update` are proved against `ReconcileAll`, and
  `AssignFields` and `Update` against `ApplyAll`. `InsertExperiment`, `Save` and
  `Delete` state their new state directly.
- `Views`: the querysets of `ExperimentViewSet` and `BaseExperimentAttrViewSet`
  as filter-and-sort functions. It also covers the choice of serializer per
  action, the lookup of a single object through the queryset (not found
  otherwise), `perform_create`, and the update and destroy paths.

The requester's identity is an input (`UserId`). Prices and other scalars are
opaque values.

## Model

| member | source | states |
|---|---|---|
| Sequences.Filter | app/experiment/views.py:29 | the result holds exactly the input elements that satisfy the predicate, and each kept element occurs as often as in the input; dropped elements do not occur |
| Sequences.SortBy | app/experiment/views.py:29 | ordering returns a permutation of its input: same multiset, same elements |
| Sequences.SortBySorted | app/experiment/views.py:29 | for a total, transitive "comes first" relation, every element of the sorted sequence comes first relative to every later element |
| Sequences.LexTotal | app/experiment/views.py:53 | any two names are comparable in the name order |
| Sequences.LexTransitive | app/experiment/views.py:53 | the name order is transitive |
| Attributes.RowsValidFacts | app/experiment/serializers.py:55-58 | the table invariant (each row appended with a fresh id and a fresh (owner, name) key) means that ids increase with insertion order and stay below the next id, and that no two rows share an (owner, name) key |
| Attributes.Lookup | app/experiment/serializers.py:55-58 | a found row is in the table and has the requested owner and name; when nothing is found, no row has that (owner, name) |
| Attributes.GetOrCreate | app/experiment/serializers.py:55-58 | afterwards the lookup returns a row with the resolved id, owner and name. If a row existed, the table is unchanged. Otherwise exactly one row with the next fresh id is appended. The table only grows, and validity (increasing ids, unique (owner, name)) is kept |
| Attributes.ReconcileGrows | app/experiment/serializers.py:54-59 | reconciling a list only appends rows. Each appended row is owned by the requester, carries a submitted name and had no (owner, name) row before. The association set only grows, every submitted name resolves afterwards, and validity is kept |
| Attributes.ReconcileLinks | app/experiment/serializers.py:54-59 | the association set afterwards is the old set plus exactly the ids of the requester's rows whose names were submitted |
| Attributes.ReconcileReuses | app/experiment/serializers.py:54-59 | a submitted name for which the requester already owns a row resolves to that very row. Its id is associated, and no second row with that name is appended |
| Attributes.ReconcileCreatesOne | app/experiment/serializers.py:55-58 | a submitted name with no (requester, name) row gets exactly one row for it in the table. That row is appended, owned by the requester, and its id is associated |
| Attributes.ReconcileCount | app/experiment/serializers.py:54-59 | the table grows by exactly the number of distinct submitted names that had no row |
| Attributes.ReconcileDistinctSize | app/experiment/serializers.py:54-59 | starting from no associations, the number of associated ids equals the number of distinct submitted names |
| Attributes.ReconcileFromEmpty | app/experiment/serializers.py:71-78 | a list reconciled from no associations leaves associated exactly the owner's rows for the submitted names, one per distinct name |
| Attributes.ReplaceDropsUnnamed | app/experiment/serializers.py:84-89 | after clearing and reconciling, every submitted name is associated. A row not owned by the requester, or whose name was not submitted, is not associated |
| Serializers.Fields | app/experiment/serializers.py:16-49 | every field list starts with `id` and never contains `user`. `name` appears exactly in the attribute serializers and `description` exactly in the detail serializer. The detail list is the list serializer's fields plus `description` |
| Serializers.WritableFields | app/experiment/serializers.py:18-19 | the writable fields are the listed fields except `id`. For a tag or ingredient this is only `name`, so a submitted attribute is a bare name |
| Serializers.ScalarFieldsWritable | app/experiment/serializers.py:38-49 | every scalar column is a writable field of the detail serializer, and none is `id`, `user` or a relation |
| Serializers.ApplyAllKeepsUnnamed | app/experiment/serializers.py:91-92 | a column that no assignment names keeps its value |
| Serializers.ApplyAllLastWins | app/experiment/serializers.py:91-92 | a named column ends up with the value of the last assignment that names it |
| Serializers.AssignFields | app/experiment/serializers.py:91-92 | the `setattr` loop produces `ApplyAll` of the instance's columns and the assignments, in order |
| Serializers.ReconcileKeepsOwned | app/experiment/serializers.py:51-69 | reconciling a list for the owner of an experiment keeps the table valid and keeps every association pointing at a row owned by the experiment's owner |
| Serializers.RelinkKeepsOther | app/experiment/serializers.py:84-89 | replacing one kind's associations of one experiment leaves the other kind's associations owned and the experiment ids ordered |
| Serializers.Store.GetOrCreateOne | app/experiment/serializers.py:55-59 | one iteration: the table becomes `GetOrCreate` of the old table, and the resolved id is added to that experiment's set of this kind. The other kind and the other experiments are unchanged |
| Serializers.Store.ReconcileLoop | app/experiment/serializers.py:54-59 | the in-place loop over the submitted names, shared by tags and ingredients, leaves the table and the experiment's set equal to `ReconcileAll` of the old ones. The other kind is untouched |
| Serializers.Store.ReconcileNext | app/experiment/serializers.py:54-59 | one pass of the loop takes the store from the reconciliation of the first `i` names to that of the first `i + 1` |
| Serializers.Store.GetOrCreateAll | app/experiment/serializers.py:51-69 | on a valid store with an experiment owned by the request's user, the loop's result keeps the store invariant: tables valid, experiment ids increasing, every association owned by the experiment's owner |
| Serializers.Store.InsertExperiment | app/experiment/serializers.py:75 | the new row gets the next id, which exceeds every existing id. It has no associations, the tables are unchanged and the invariant is kept |
| Serializers.Store.Create | app/experiment/serializers.py:71-78 | appends one row with the next id and the given owner and fields. Its tag and ingredient sets are `ReconcileAll` from empty, which is exactly the owner's rows for the submitted names, with as many ids as distinct names. An omitted list gives an empty set and an unchanged table. Existing rows are unchanged |
| Serializers.Store.ReplaceLinks | app/experiment/serializers.py:84-89 | an omitted list leaves that kind alone. A present list clears the set and reconciles, which yields exactly the requester's rows for the submitted names; an empty list leaves no associations. The table never loses rows |
| Serializers.Store.Update | app/experiment/serializers.py:80-95 | id and owner never change. Scalar columns become `ApplyAll` of the assignments. Each relation follows `ReplaceLinks` independently. Attribute tables never lose rows, and no other experiment changes |
| Serializers.Store.Save | app/experiment/serializers.py:94 | the row's scalar columns are replaced by the instance's; nothing else changes |
| Serializers.Store.Delete | app/experiment/views.py:20-23 | removes exactly that experiment row and keeps the attribute tables and the store invariant |
| Views.SerializerFor | app/experiment/views.py:31-36 | `list` selects the list serializer, whose fields exclude `description`; every other action selects the detail serializer, which includes it |
| Views.ExperimentQueryset | app/experiment/views.py:27-29 | the queryset holds exactly the requester's experiments, and each at most as often as in the store |
| Views.ExperimentQuerysetDescending | app/experiment/views.py:29 | with distinct ids, the queryset is in strictly descending id order. The store's invariant gives distinct ids (`Views.ValidExperimentsDistinct`) |
| Views.AttrQueryset | app/experiment/views.py:51-53 | the tag or ingredient queryset holds exactly the requester's rows, and each at most as often as in the table |
| Views.NameFirstTotalPreorder | app/experiment/views.py:53 | descending-name order is total and transitive, so it is a valid sort order |
| Views.AttrQuerysetDescending | app/experiment/views.py:53 | in a valid table, the queryset is in strictly descending name order |
| Views.ObjectIndex | app/experiment/views.py:27-29 | the single-object lookup finds a row with that id owned by the requester, or reports that there is none |
| Views.ObjectIndexMatchesQueryset | app/experiment/views.py:27-29 | the lookup finds a row exactly when the requester's queryset holds one with that id |
| Views.Detail | app/experiment/views.py:27-29 | a detail result is in the requester's queryset and has the id. Not found means every row with that id belongs to someone else |
| Views.OthersRowNotFound | app/experiment/views.py:27-29 | a row owned by another user is not in the queryset, and detail or delete on its id finds nothing |
| Views.AppendedRowFound | app/experiment/views.py:27-29 | a row appended with a larger id than every existing row is what its owner's detail lookup finds |
| Views.PerformCreate | app/experiment/views.py:38-40 | the new experiment takes the next id and is owned by the requester whatever was submitted, and the requester's detail lookup finds it under the returned id. Its tag and ingredient sets are the requester's rows for the submitted names, one per distinct name, with missing rows created as `ReconcileAll` from empty says. An omitted list gives an empty set and an unchanged table. Existing rows are unchanged |
| Views.DestroyExperiment | app/experiment/views.py:27-29 | deleting a row outside the requester's queryset gives not found and leaves the store unchanged. Otherwise exactly the requester's row is removed. The attribute tables and the id counter never change |
| Views.UpdateExperiment | app/experiment/views.py:27-36 | updating a row outside the requester's queryset gives not found and changes nothing. Otherwise the requester's row gets the assigned columns and keeps its id and owner. An omitted list leaves that relation and its table alone. A submitted list makes the relation exactly the requester's rows for those names, created where missing as `ReconcileAll` says. No other experiment changes, the tables only grow, and the id counter is kept |

## Left out

- The wait-for-database management command: it is a polling loop with sleeps, which is I/O and retry plumbing.
- URL routing: it is router registration only.
- Token authentication, `IsAuthenticated` and the 401 responses: framework behaviour. The requester is a given input.
- DRF field validation, JSON rendering and `Decimal` price formatting: library behaviour. A price is an opaque written form.
- `Serializers.Store.Create` takes all scalar columns. Model defaults for omitted columns (such as an empty description) belong to the model definitions, and `core/models.py` is not part of this model.
- The `assigned_only` query parameter: the tag and ingredient tests use it, but `BaseExperimentAttrViewSet.get_queryset` has no branch for it. The model follows the code: the attribute queryset ignores it.
- Renaming and deleting a tag or ingredient through the update and destroy mixins of `BaseExperimentAttrViewSet`: these are framework mixins. A rename to a name the owner already uses would break the (owner, name) uniqueness that the model keeps as a table invariant.
- Concurrent check-then-create races in `get_or_create`, and `MultipleObjectsReturned` when duplicate (owner, name) rows exist: these depend on concurrency and on database constraints. The model keeps (owner, name) unique as an invariant (`Attributes.TableValid`).
- Serializers.Store.GetOrCreateAll requires that the request's user owns the experiment being linked. `_get_or_create_tags` and `_get_or_create_ingredients` read the request's user rather than the experiment's owner, and both callers make the two equal: `perform_create` stamps the requester as owner, and `update` reaches the instance only through the owner-filtered queryset.
- Views.AttrQueryset and Views.AttrQuerysetDescending: the ordering is code-point lexicographic order on names. The database collation is not modelled.
- The read-only list of the two experiment serializers is spelled `read_only_field`, which the framework does not read. `id` stays read-only anyway because it is the auto-generated primary key, so the model treats it as read-only in every serializer.
- Database ids are modelled as a per-table counter that starts at 1 and increases with each insert.
