/**
 * `WikipediaParser` of wiki.py, the wrapper the first version of the bot
 * used. Its page summary, heading rewrite and date rendering are the same
 * code as in `WikiManager` and are shared with that module; what differs is
 * the search, which looks in titles only.
 */
module LegacyWiki {
  import opened Wrappers
  import opened Text
  import opened External
  import WikiManager

  /** `search_page`: the first hit of a search in page titles (`where='title'`). */
  function SearchPage(w: Wiki, query: string): Option<Page>
  {
    w.titleSearch(query)
  }

  /** `search`: the summary of the first title hit, nothing when no title matches. */
  function Search(w: Wiki, text: string): (r: Option<string>)
    ensures r.None? <==> w.titleSearch(text).None?
    ensures r.Some? ==>
              r.value == WikiManager.SummaryBody(w, w.titleSearch(text).value) + "\n\n"
                         + WikiManager.ReadMoreLink(w.unquote(w.titleSearch(text).value.fullUrl))
  {
    WikiManager.PageSummary(w, SearchPage(w, text))
  }

  /** The legacy search is the newer one run against the title index. */
  lemma SearchIsTitleSearch(w: Wiki, text: string)
    ensures Search(w, text) == WikiManager.Search(w.(search := w.titleSearch), text)
  {
  }

  /** `random`: the summary of a random page. */
  function Random(w: Wiki): (r: Option<string>)
    ensures r.None? <==> w.randomPage.None?
    ensures r == WikiManager.Random(w)
  {
    WikiManager.PageSummary(w, w.randomPage)
  }

  /**
   * `get_birthday`: the first P569 claim in the Gregorian calendar, rendered;
   * a missing property or a month out of range gives nothing.
   */
  function Birthday(w: Wiki, page: Option<Page>): (r: Result<Option<string>, Exc>)
    ensures WikiManager.ItemOf(w, page).Ok? && "P569" !in WikiManager.ItemOf(w, page).value.claims ==> r == Ok(None)
    ensures WikiManager.ItemOf(w, page).Ok? && "P569" in WikiManager.ItemOf(w, page).value.claims ==>
              r == WikiManager.DateFrom(WikiManager.ItemOf(w, page).value.claims["P569"], 0)
    ensures page.None? ==> r == Err(AttributeError)
  {
    match WikiManager.ItemOf(w, page)
    case Err(e) => if e == KeyError || e == IndexError then Ok(None) else Err(e)
    case Ok(item) => if "P569" !in item.claims then Ok(None) else WikiManager.DateFrom(item.claims["P569"], 0)
  }

  /** The legacy and the newer birth-date lookups agree on every page. */
  lemma BirthdayAgrees(w: Wiki, page: Option<Page>)
    ensures Birthday(w, page) == WikiManager.Birthday(w, page)
  {
  }
}
