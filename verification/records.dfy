/**
 * Record shapes of the experiment app: the requester's identity, the two
 * attribute tables (Tag, Ingredient) and the Experiment rows that link to them.
 * Only the fields the serializers read or write are kept.
 */
module Records {

  datatype Option<T> = None | Some(value: T)

  /** Identity of an authenticated user; every row has exactly one owner. */
  type UserId = nat

  /** The two attribute kinds. Tags and ingredients are handled by the same code. */
  datatype Kind = TagKind | IngredientKind
  {
    function Other(): (k: Kind)
      ensures k != this
    {
      if this == TagKind then IngredientKind else TagKind
    }
  }

  /** One Tag or Ingredient row: a database-assigned id, its owner and its name. */
  datatype AttrRow = AttrRow(id: nat, owner: UserId, name: string)

  /** A decimal price, kept opaque as its written form. */
  datatype Price = Price(text: string)

  /** The scalar columns of an Experiment. */
  datatype Scalars = Scalars(
    title: string,
    timeMinutes: int,
    price: Price,
    link: string,
    description: string)

  /**
   * An Experiment row: id, owner, scalar columns and the ids of the Tag and
   * Ingredient rows it is associated with (two many-to-many relations).
   */
  datatype ExperimentRow = ExperimentRow(
    id: nat,
    owner: UserId,
    fields: Scalars,
    tags: set<nat>,
    ingredients: set<nat>)
  {
    /** The association set of kind `k`. */
    function Links(k: Kind): set<nat>
    {
      if k == TagKind then tags else ingredients
    }

    /** This row with the association set of kind `k` replaced by `s`. */
    function WithLinks(k: Kind, s: set<nat>): (e: ExperimentRow)
      ensures e.Links(k) == s && e.Links(k.Other()) == Links(k.Other())
      ensures e.id == id && e.owner == owner && e.fields == fields
    {
      if k == TagKind then this.(tags := s) else this.(ingredients := s)
    }

    /** Replacing the same association set twice keeps only the second. */
    lemma WithLinksTwice(k: Kind, s1: set<nat>, s2: set<nat>)
      ensures WithLinks(k, s1).WithLinks(k, s2) == WithLinks(k, s2)
    {
    }
  }
}
