/**
 * The ranked website search override (models/website_sale_product.py). A falsy search
 * delegates to the inherited domain; any other search, whitespace-only included,
 * lowercases the text, asks the database for the best-ranked matching product ids,
 * and returns the single domain leaf `('id', 'in', ids)`.
 *
 * The database query is outside the model: `fetch` stands for executing the query
 * with the given parameters and fetching all rows.
 */
module RankedWebsiteSearch {
  import opened Optional
  import opened Text
  import opened SearchDomain

  /** One fetched row: the product id and its full-text rank. */
  datatype Row = Row(productId: int, rank: real)

  /** The two query parameters: the lowercased search text, and it wrapped in `%` for ILIKE. */
  function QueryParams(search: string): seq<string> {
    var searchLower := Lower(search);
    [searchLower, "%" + searchLower + "%"]
  }

  /** `[r[0] for r in rows]`. */
  function ProductIds(rows: seq<Row>): seq<int> {
    seq(|rows|, i requires 0 <= i < |rows| => rows[i].productId)
  }

  /** The result for a truthy search: ids in the order the rows were fetched. */
  function IdIn(ids: seq<int>): Element {
    Leaf("id", "in", IdList(ids))
  }

  /** `_get_search_domain` with the inherited domain and the database passed in. */
  function GetSearchDomain(search: Option<string>, superDomain: Domain, fetch: seq<string> -> seq<Row>): Domain {
    if !Truthy(search) then superDomain
    else [IdIn(ProductIds(fetch(QueryParams(search.value))))]
  }

  /**
   * The first parameter is the lowercased search text, as long as the search itself;
   * the second is the first between two `%` wildcards; both are already lowercase.
   */
  lemma QueryParamsSpec(search: string)
    ensures |QueryParams(search)| == 2
    ensures QueryParams(search)[0] == Lower(search)
    ensures |QueryParams(search)[0]| == |search|
    ensures forall k :: 0 <= k < 2 ==> Lower(QueryParams(search)[k]) == QueryParams(search)[k]
    ensures QueryParams(search)[1] == "%" + QueryParams(search)[0] + "%"
  {
    var p := QueryParams(search);
    LowerIdempotent(search);
    LowerAppend("%", Lower(search));
    LowerAppend("%" + Lower(search), "%");
    assert Lower("%") == "%";
  }

  /** An id is in the result exactly when some fetched row carries it. */
  lemma ProductIdsMembership(rows: seq<Row>, id: int)
    ensures |ProductIds(rows)| == |rows|
    ensures id in ProductIds(rows) <==> exists i :: 0 <= i < |rows| && rows[i].productId == id
  {
    if exists i :: 0 <= i < |rows| && rows[i].productId == id {
      var i :| 0 <= i < |rows| && rows[i].productId == id;
      assert ProductIds(rows)[i] == id;
    }
  }

  /** A falsy search returns the inherited domain unchanged. */
  lemma FalsySearchDelegates(search: Option<string>, superDomain: Domain, fetch: seq<string> -> seq<Row>)
    requires !Truthy(search)
    ensures GetSearchDomain(search, superDomain, fetch) == superDomain
  {
  }

  /**
   * A truthy search returns one `('id', 'in', ids)` leaf whose ids are the first column
   * of the rows the query returned for the lowercased text, in row order.
   */
  lemma TruthySearchBuildsIdDomain(search: string, superDomain: Domain, fetch: seq<string> -> seq<Row>)
    requires search != ""
    ensures var d := GetSearchDomain(Some(search), superDomain, fetch);
      var rows := fetch([Lower(search), "%" + Lower(search) + "%"]);
      |d| == 1 && d[0].Leaf? && d[0].field == "id" && d[0].operator == "in" && d[0].value.IdList? &&
      |d[0].value.ids| == |rows| && forall i :: 0 <= i < |rows| ==> d[0].value.ids[i] == rows[i].productId
  {
  }

  /**
   * A whitespace-only search does not delegate: it queries with the whitespace text
   * itself and returns an id domain.
   */
  lemma WhitespaceSearchDoesNotDelegate(search: string, superDomain: Domain, fetch: seq<string> -> seq<Row>)
    requires search != "" && IsBlank(search)
    ensures QueryParams(search) == [search, "%" + search + "%"]
    ensures GetSearchDomain(Some(search), superDomain, fetch) == [IdIn(ProductIds(fetch([search, "%" + search + "%"])))]
  {
    assert Lower(search) == search by {
      forall i | 0 <= i < |search|
        ensures Lower(search)[i] == search[i]
      {
        assert IsSpace(search[i]);
      }
    }
  }

  /** When the query returns no rows the result is `('id', 'in', [])`: no fallback to the inherited domain. */
  lemma NoRowsGiveEmptyIdList(search: string, superDomain: Domain, fetch: seq<string> -> seq<Row>)
    requires search != "" && fetch(QueryParams(search)) == []
    ensures GetSearchDomain(Some(search), superDomain, fetch) == [Leaf("id", "in", IdList([]))]
  {
    assert |ProductIds(fetch(QueryParams(search)))| == 0;
  }

  /**
   * The result depends on the search text only through its lowercase form: searches
   * that differ in letter case give the same domain.
   */
  lemma CaseInsensitive(s1: string, s2: string, superDomain: Domain, fetch: seq<string> -> seq<Row>)
    requires s1 != "" && s2 != "" && Lower(s1) == Lower(s2)
    ensures GetSearchDomain(Some(s1), superDomain, fetch) == GetSearchDomain(Some(s2), superDomain, fetch)
  {
  }
}
