/**
 * The two-language website search override (website_sale_product.py): the default
 * website domain is computed first, and a non-empty search replaces it outright by
 * one case-insensitive substring test on `name_search_all`.
 */
module IlikeWebsiteSearch {
  import opened Optional
  import opened Text
  import opened SearchDomain

  /** The single leaf that replaces the default domain. */
  function NameSearchAllIlike(search: string): Element {
    Leaf("name_search_all", "ilike", TextValue(search))
  }

  /**
   * `_get_search_domain`: `superDomain` is what the inherited method returned for the
   * same search, category and attribute values.
   */
  function GetSearchDomain(search: Option<string>, superDomain: Domain): Domain {
    if Truthy(search) then [NameSearchAllIlike(search.value)] else superDomain
  }

  /** Without search text the default domain is returned unchanged. */
  lemma FalsySearchKeepsDefault(search: Option<string>, superDomain: Domain)
    requires !Truthy(search)
    ensures GetSearchDomain(search, superDomain) == superDomain
  {
  }

  /**
   * With search text the result is the one `ilike` leaf on `name_search_all`, and
   * the text is passed on exactly as typed: not lowercased, not trimmed.
   */
  lemma SearchTextGoesInVerbatim(search: string, superDomain: Domain)
    requires search != ""
    ensures var d := GetSearchDomain(Some(search), superDomain);
      |d| == 1 && d[0].Leaf? && d[0].field == "name_search_all" && d[0].operator == "ilike" &&
      d[0].value == TextValue(search)
  {
  }

  /**
   * With search text the category and attribute constraints of the default domain
   * are dropped: any two default domains give the same result.
   */
  lemma DefaultConstraintsDiscarded(search: string, super1: Domain, super2: Domain)
    requires search != ""
    ensures GetSearchDomain(Some(search), super1) == GetSearchDomain(Some(search), super2)
  {
  }

  /** A whitespace-only search is truthy: it replaces the default domain and keeps its whitespace. */
  lemma WhitespaceSearchReplacesDefault(search: string, superDomain: Domain)
    requires search != "" && IsBlank(search)
    ensures GetSearchDomain(Some(search), superDomain) == [Leaf("name_search_all", "ilike", TextValue(search))]
    ensures Strip(search) == ""
  {
    StripSpec(search);
  }

  /**
   * The result equals the default domain exactly when the search is falsy, or when
   * the default domain already is the one `ilike` leaf the search would produce.
   */
  lemma DelegatesIffFalsy(search: Option<string>, superDomain: Domain)
    ensures GetSearchDomain(search, superDomain) == superDomain <==>
      !Truthy(search) || superDomain == [NameSearchAllIlike(search.value)]
  {
  }
}
