/**
 * What the bot receives from the libraries it calls: wiki pages, Wikidata
 * claims, HTTP responses and the exceptions it can meet. Every call into
 * pywikibot, pymorphy3, httpx/requests and `urllib.parse.unquote` is a field
 * of a record that the caller passes in; the model fixes only what the bot
 * does with the answers.
 */
module External {
  import opened Wrappers
  import opened Text
  import opened Genitive

  /** The Python exceptions that decide the bot's behaviour. */
  datatype Exc =
    | KeyError        // a missing dictionary key (a Wikidata property, a command word)
    | IndexError      // a list index out of range
    | AttributeError  // an attribute of `None` or of a value of the wrong kind
    | TypeError       // unpacking or iterating `None`
    | NoPage          // pywikibot's error for a page without a Wikidata item
    | RequestError    // an HTTP request that raised

  /** A Wikipedia page: its title and its full URL (percent-encoded). */
  datatype Page = Page(title: string, fullUrl: string)

  /** Coordinates, passed through as they come (never computed with). */
  datatype Coordinate = Coordinate(lat: real, lon: real)

  /** The target of one Wikidata claim. */
  datatype Target =
    | StringValue(text: string)                                       // a plain string
    | ItemValue(id: string, labels: map<string, string>)              // another item: its Q-id and labels by language
    | TimeValue(year: int, month: int, day: int, calendarModel: string)
    | CoordinateValue(coordinate: Coordinate)
    | FileValue(url800: string, descriptionUrl: string)               // a Commons file: its 800px URL and description page
    | NoValue                                                         // "no value" / "unknown value": the target is None

  /** A Wikidata item: for each property the targets of its claims, in order. */
  datatype DataItem = DataItem(claims: map<string, seq<Target>>)

  /** `item.claims.get(prop, [])`. */
  function ClaimsOf(item: DataItem, prop: string): seq<Target>
  {
    if prop in item.claims then item.claims[prop] else []
  }

  /**
   * The wiki as the bot sees it. `search` is `site.search(query, total=1,
   * namespaces=[0])`; `titleSearch` the same with `where='title'`; `extract`
   * the `extract` field of the text-extract query, when present; `fromPage`
   * is `ItemPage.fromPage`.
   */
  datatype Wiki = Wiki(
    u: Unicode,
    search: string -> Option<Page>,
    titleSearch: string -> Option<Page>,
    randomPage: Option<Page>,
    extract: Page -> Option<string>,
    fromPage: Page -> Result<DataItem, Exc>,
    morph: string -> seq<Analysis>,
    unquote: string -> string)

  /** One HTTP response: status, final URL (after redirects), content type and body. */
  datatype HttpResponse = HttpResponse(status: int, url: string, contentType: Option<string>, content: seq<bv8>)
}
