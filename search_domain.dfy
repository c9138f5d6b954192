/**
 * Odoo search domains, as far as the website search overrides build them: a domain
 * is a prefix-notation list of leaves `(field, operator, value)` and the logical
 * operators '&', '|' and '!'.
 */
module SearchDomain {
  import opened Optional

  /**
   * The right-hand side of a leaf. The overrides build only text and id-list leaves;
   * integer values and the logical operators occur in the inherited domain (category
   * and attribute filters), which is passed through or discarded whole.
   */
  datatype Operand = TextValue(text: string) | IntValue(n: int) | IdList(ids: seq<int>)

  datatype Element =
    | Leaf(field: string, operator: string, value: Operand)
    | AndOp
    | OrOp
    | NotOp

  type Domain = seq<Element>

  /** Python truthiness of the `search` argument: `None` and `''` are falsy, every other string is truthy. */
  predicate Truthy(search: Option<string>) {
    search.Some? && search.value != ""
  }
}
