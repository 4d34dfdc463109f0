/** The data a query translation consumes and produces. */
module QueryModel {
  import opened Wrappers
  import opened JavaInt

  /** Request parameters in the map's key-iteration order: key and its value list. */
  type Params = seq<(string, seq<string>)>

  /** The framework's search request: free text, the `from`/`to` window, the facet
      fields (null allowed) and the parameter map (null allowed). */
  datatype Query = Query(
    keyword: string,
    from: Int32,
    to: Int32,
    facets: Option<seq<string>>,
    params: Option<Params>)

  datatype SortOrder = Asc | Desc

  datatype SortClause = SortClause(field: string, order: SortOrder)

  /** The Solr request a query becomes: the window, faceting, the single sort
      (`setSort` replaces any earlier one), the `fl` projection, the filter queries
      in the order they were added, and the main query string. */
  datatype Translated = Translated(
    start: int,
    rows: int,
    facet: bool,
    facetFields: seq<string>,
    sort: Option<SortClause>,
    fields: seq<string>,
    filters: seq<string>,
    q: string)

  /** Why a translation throws: `ORDER.valueOf` on a direction other than `asc`/`desc`,
      or a for-each over the null list `getParams().get("sort")`/`get("fl")` returns
      when the reserved key is spelled with other letter case. */
  datatype TranslationError = InvalidSortDirection(token: string) | NullParamList(key: string)

  /** The two `SimpleDateFormat`s: whether the `YYYY` pattern accepts a value, the
      `yyyy-MM-dd'T'HH:mm:ss.SSSXXX` parse (an instant in milliseconds) and its UTC format. */
  datatype Calendar = Calendar(
    yearParses: string -> bool,
    isoParse: string -> Option<int>,
    isoFormat: int -> string)
}
