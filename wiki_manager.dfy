/**
 * `WikiManager` of wikibot/wiki.py: page summaries, genitive search and the
 * extraction of values from Wikidata claims.
 */
module WikiManager {
  import opened Wrappers
  import opened Text
  import opened Headings
  import opened Genitive
  import opened External

  // ---------------------------------------------------------------------------
  // Search and summaries

  /** `genitive_search`: search for the query with each word in its genitive normal form. */
  function GenitiveSearch(w: Wiki, text: string): Option<Page>
  {
    w.search(GenitiveText(w.u, w.morph, text))
  }

  /** The link that closes every summary. */
  function ReadMoreLink(url: string): string
  {
    "<a href=\"" + url + "\">Читати у Вікіпедії</a>"
  }

  /** `get_plain_text` as the summary shows it: the rewritten extract, or `None` printed. */
  function SummaryBody(w: Wiki, page: Page): string
  {
    match w.extract(page)
    case Some(text) => ParseText(text)
    case None => "None"
  }

  /** `get_page_summary`: nothing for a missing page, else the body, a blank line and the link. */
  function PageSummary(w: Wiki, page: Option<Page>): (r: Option<string>)
    ensures r.None? <==> page.None?
    ensures page.Some? ==> r == Some(SummaryBody(w, page.value) + "\n\n" + ReadMoreLink(w.unquote(page.value.fullUrl)))
  {
    match page
    case None => None
    case Some(p) => Some(SummaryBody(w, p) + "\n\n" + ReadMoreLink(w.unquote(p.fullUrl)))
  }

  /** A page without an extract is summarised by its link alone, after the text "None". */
  lemma SummaryWithoutExtract(w: Wiki, p: Page)
    requires w.extract(p).None?
    ensures PageSummary(w, Some(p)) == Some("None" + "\n\n" + ReadMoreLink(w.unquote(p.fullUrl)))
  {
  }

  /** An extract without headings appears verbatim in front of the link. */
  lemma SummaryOfPlainExtract(w: Wiki, p: Page, text: string)
    requires w.extract(p) == Some(text) && !Contains(text, "==")
    ensures PageSummary(w, Some(p)) == Some(text + "\n\n" + ReadMoreLink(w.unquote(p.fullUrl)))
  {
    ParseTextNoHeading(text);
  }

  /** `search`: the summary of the first search hit. */
  function Search(w: Wiki, text: string): (r: Option<string>)
    ensures r.None? <==> w.search(text).None?
    ensures w.search(text).Some? ==>
              r == Some(SummaryBody(w, w.search(text).value) + "\n\n" + ReadMoreLink(w.unquote(w.search(text).value.fullUrl)))
  {
    PageSummary(w, w.search(text))
  }

  /** `random`: the summary of a random page. */
  function Random(w: Wiki): (r: Option<string>)
    ensures r.None? <==> w.randomPage.None?
    ensures w.randomPage.Some? ==>
              r == Some(SummaryBody(w, w.randomPage.value) + "\n\n" + ReadMoreLink(w.unquote(w.randomPage.value.fullUrl)))
  {
    PageSummary(w, w.randomPage)
  }

  // ---------------------------------------------------------------------------
  // Wikidata values

  /** `ItemPage.fromPage(page)`: a missing page fails on its first attribute. */
  function ItemOf(w: Wiki, page: Option<Page>): (r: Result<DataItem, Exc>)
    ensures page.None? ==> r == Err(AttributeError)
    ensures page.Some? ==> r == w.fromPage(page.value)
  {
    match page
    case None => Err(AttributeError)
    case Some(p) => w.fromPage(p)
  }

  /**
   * Whether a claim target has a `title()`: an item page (its Q-id), a
   * string (`str.title`) and a Commons file page do; a time, a coordinate
   * and a missing target (`None`) do not.
   */
  predicate HasTitle(t: Target)
  {
    t.ItemValue? || t.StringValue? || t.FileValue?
  }

  /**
   * `target.title() == id` for a Q-id. A file page's title carries its
   * namespace prefix ("File:"), so it never equals a Q-id.
   */
  predicate TitleIs(u: Unicode, t: Target, id: string)
  {
    (t.ItemValue? && t.id == id) || (t.StringValue? && u.title(t.text) == id)
  }

  /** The gender that `_get_gender` reads off a title. */
  function GenderOfTitle(title: string): (g: string)
    ensures g == "male" <==> title == "Q6581097"
    ensures g == "female" <==> title == "Q6581072"
    ensures g in {"male", "female", "unknown"}
  {
    if title == "Q6581097" then "male" else if title == "Q6581072" then "female" else "unknown"
  }

  /** `_get_gender`: the first P21 claim decides, by the title of its target. */
  function Gender(w: Wiki, page: Option<Page>): (r: Result<string, Exc>)
    ensures r.Ok? ==> page.Some? && r.value in {"male", "female", "unknown"}
    ensures ItemOf(w, page).Err? ==> r == Err(ItemOf(w, page).error)
    ensures ItemOf(w, page).Ok? && "P21" !in ItemOf(w, page).value.claims ==> r == Err(KeyError)
    ensures ItemOf(w, page).Ok? && "P21" in ItemOf(w, page).value.claims ==>
              var claims := ItemOf(w, page).value.claims["P21"];
              && (claims == [] ==> r == Err(AttributeError))
              && (claims != [] && !HasTitle(claims[0]) ==> r == Err(AttributeError))
              && (claims != [] && HasTitle(claims[0]) ==>
                    && (r == Ok("male") <==> TitleIs(w.u, claims[0], "Q6581097"))
                    && (r == Ok("female") <==> TitleIs(w.u, claims[0], "Q6581072"))
                    && (r == Ok("unknown") <==>
                          !TitleIs(w.u, claims[0], "Q6581097") && !TitleIs(w.u, claims[0], "Q6581072")))
  {
    match ItemOf(w, page)
    case Err(e) => Err(e)
    case Ok(item) =>
      if "P21" !in item.claims then Err(KeyError)
      else if item.claims["P21"] == [] then Err(AttributeError)
      else match item.claims["P21"][0]
        case ItemValue(id, _) => Ok(GenderOfTitle(id))
        case StringValue(s) => Ok(GenderOfTitle(w.u.title(s)))
        case FileValue(_, _) => Ok("unknown")
        case _ => Err(AttributeError)
  }

  /** The exceptions `_get_coords` swallows. */
  predicate CaughtByCoords(e: Exc)
  {
    e == KeyError || e == IndexError || e == AttributeError
  }

  /** `_get_coords`: the coordinate of the first P625 claim, if there is one. */
  function Coords(w: Wiki, page: Option<Page>): (r: Result<Option<Coordinate>, Exc>)
    ensures r.Err? <==> ItemOf(w, page).Err? && !CaughtByCoords(ItemOf(w, page).error)
    ensures r.Err? ==> r.error == ItemOf(w, page).error
    ensures r.Ok? && r.value.Some? <==>
              ItemOf(w, page).Ok? && ClaimsOf(ItemOf(w, page).value, "P625") != []
              && ClaimsOf(ItemOf(w, page).value, "P625")[0].CoordinateValue?
    ensures r.Ok? && r.value.Some? ==> r.value.value == ClaimsOf(ItemOf(w, page).value, "P625")[0].coordinate
  {
    match ItemOf(w, page)
    case Err(e) => if CaughtByCoords(e) then Ok(None) else Err(e)
    case Ok(item) =>
      if "P625" !in item.claims || item.claims["P625"] == [] then Ok(None)
      else match item.claims["P625"][0]
        case CoordinateValue(c) => Ok(Some(c))
        case _ => Ok(None)
  }

  /** `MONTH_MAP`: the twelve month names in the genitive. */
  const MonthMap: seq<string> := ["січня", "лютого", "березня", "квітня", "травня", "червня",
                                  "липня", "серпня", "вересня", "жовтня", "листопада", "грудня"]

  /** `MONTH_MAP[month - 1]` with Python's indexing: negative indices count from the end. */
  function MonthName(month: int): (r: Result<string, Exc>)
    ensures 1 <= month <= 12 ==> r == Ok(MonthMap[month - 1])
    ensures -11 <= month <= 0 ==> r == Ok(MonthMap[month + 11])
    ensures r.Err? <==> month > 12 || month < -11
    ensures r.Err? ==> r.error == IndexError
  {
    var i := month - 1;
    if 0 <= i < |MonthMap| then Ok(MonthMap[i])
    else if -|MonthMap| <= i < 0 then Ok(MonthMap[|MonthMap| + i])
    else Err(IndexError)
  }

  /** f"{day} {month name} {year}". */
  function FormatDate(day: int, monthName: string, year: int): string
  {
    IntToDecimal(day) + " " + monthName + " " + IntToDecimal(year)
  }

  /** The calendar-model test: "Q1985727" (the proleptic Gregorian calendar) occurs in the model's URL. */
  predicate Gregorian(t: Target)
  {
    t.TimeValue? && Contains(t.calendarModel, "Q1985727")
  }

  /** The loop of `_get_wikidata_date` from claim `n` on: the first Gregorian claim is rendered. */
  function DateFrom(claims: seq<Target>, n: nat): Result<Option<string>, Exc>
    decreases |claims| - n
  {
    if n >= |claims| then Ok(None)
    else match claims[n]
      case TimeValue(year, month, day, calendarModel) =>
        if Contains(calendarModel, "Q1985727") then
          match MonthName(month)
          case Ok(name) => Ok(Some(FormatDate(day, name, year)))
          case Err(_) => Ok(None)
        else DateFrom(claims, n + 1)
      case _ => Err(AttributeError)
  }

  /** The claims the loop passes over before it stops at claim `k`. */
  predicate SkippedBefore(claims: seq<Target>, n: nat, k: nat)
    requires k <= |claims|
  {
    forall j :: n <= j < k ==> claims[j].TimeValue? && !Gregorian(claims[j])
  }

  /**
   * DateFrom renders the first Gregorian claim, when every claim before it is a
   * non-Gregorian date; it is empty when all claims are such dates; a
   * claim that is not a date stops it with an AttributeError.
   */
  lemma {:induction false} DateFromSpec(claims: seq<Target>, n: nat, k: nat)
    requires n <= k <= |claims| && SkippedBefore(claims, n, k)
    ensures k == |claims| ==> DateFrom(claims, n) == Ok(None)
    ensures k < |claims| && Gregorian(claims[k]) ==>
              DateFrom(claims, n) ==
                (match MonthName(claims[k].month)
                 case Ok(name) => Ok(Some(FormatDate(claims[k].day, name, claims[k].year)))
                 case Err(_) => Ok(None))
    ensures k < |claims| && !claims[k].TimeValue? ==> DateFrom(claims, n) == Err(AttributeError)
    decreases k - n
  {
    if n < k {
      DateFromSpec(claims, n + 1, k);
    }
  }

  /** `_get_wikidata_date`: KeyError (no such property) and IndexError (bad month) give no date. */
  function WikidataDate(w: Wiki, page: Option<Page>, prop: string): (r: Result<Option<string>, Exc>)
    ensures ItemOf(w, page).Ok? && prop !in ItemOf(w, page).value.claims ==> r == Ok(None)
    ensures ItemOf(w, page).Err? ==>
              r == (if ItemOf(w, page).error in {KeyError, IndexError} then Ok(None) else Err(ItemOf(w, page).error))
    ensures ItemOf(w, page).Ok? && prop in ItemOf(w, page).value.claims ==>
              r == DateFrom(ItemOf(w, page).value.claims[prop], 0)
  {
    match ItemOf(w, page)
    case Err(e) => if e == KeyError || e == IndexError then Ok(None) else Err(e)
    case Ok(item) => if prop !in item.claims then Ok(None) else DateFrom(item.claims[prop], 0)
  }

  /** `get_birthday` (P569). */
  function Birthday(w: Wiki, page: Option<Page>): Result<Option<string>, Exc>
  {
    WikidataDate(w, page, "P569")
  }

  /** `get_deathday` (P570). */
  function Deathday(w: Wiki, page: Option<Page>): Result<Option<string>, Exc>
  {
    WikidataDate(w, page, "P570")
  }

  /** The calendar model URL pywikibot reports for Gregorian dates. */
  const GregorianModel: string := "http://www.wikidata.org/entity/Q1985727"

  lemma GregorianModelIsGregorian()
    ensures Contains(GregorianModel, "Q1985727")
  {
    assert SubAt(GregorianModel, 31, "Q1985727") by {
      assert GregorianModel[31..39] == "Q1985727";
    }
  }

  /** A death date of 30 November 2018 reads "30 листопада 2018". */
  lemma DeathdayExample(w: Wiki, p: Page)
    requires w.fromPage(p) == Ok(DataItem(map["P570" := [TimeValue(2018, 11, 30, GregorianModel)]]))
    ensures Deathday(w, Some(p)) == Ok(Some("30 листопада 2018"))
  {
    GregorianModelIsGregorian();
    DigitsExample();
    assert MonthName(11) == Ok("листопада");
    assert FormatDate(30, "листопада", 2018) == "30 листопада 2018";
  }

  /** A birth date of 6 February 1911 reads "6 лютого 1911". */
  lemma BirthdayExample(w: Wiki, p: Page)
    requires w.fromPage(p) == Ok(DataItem(map["P569" := [TimeValue(1911, 2, 6, GregorianModel)]]))
    ensures Birthday(w, Some(p)) == Ok(Some("6 лютого 1911"))
  {
    GregorianModelIsGregorian();
    DigitsExample();
    assert MonthName(2) == Ok("лютого");
    assert FormatDate(6, "лютого", 1911) == "6 лютого 1911";
  }

  lemma DigitsExample()
    ensures IntToDecimal(30) == "30" && IntToDecimal(2018) == "2018"
    ensures IntToDecimal(6) == "6" && IntToDecimal(1911) == "1911"
  {
    YearDigits(2018, "2018");
    YearDigits(1911, "1911");
  }

  /** The four digits of the two example years. */
  lemma YearDigits(n: nat, r: string)
    requires (n, r) in [(2018, "2018"), (1911, "1911")]
    ensures IntToDecimal(n) == r
  {
    assert NatToDecimal(n) == NatToDecimal(n / 10) + [DigitChar(n % 10)];
  }

  // ---------------------------------------------------------------------------
  // Text values

  /** What one claim contributes: a string as it is, an item's non-empty Ukrainian label. */
  function TextValue(t: Target): seq<string>
  {
    match t
    case StringValue(s) => [s]
    case ItemValue(_, labels) => if "uk" in labels && labels["uk"] != "" then [labels["uk"]] else []
    case _ => []
  }

  /** The text values of the claims, in claim order. */
  function TextValues(claims: seq<Target>): seq<string>
    decreases |claims|
  {
    if claims == [] then []
    else TextValues(claims[..|claims| - 1]) + TextValue(claims[|claims| - 1])
  }

  /** Values keep the order of their claims: the values of two runs of claims are concatenated. */
  lemma {:induction false} TextValuesConcat(a: seq<Target>, b: seq<Target>)
    ensures TextValues(a + b) == TextValues(a) + TextValues(b)
    decreases |b|
  {
    if b == [] {
      assert a + b == a;
    } else {
      assert (a + b)[..|a + b| - 1] == a + b[..|b| - 1];
      TextValuesConcat(a, b[..|b| - 1]);
    }
  }

  /** Each value comes from a claim: a string target, or an item with that non-empty Ukrainian label. */
  lemma {:induction false} TextValuesFrom(claims: seq<Target>)
    ensures |TextValues(claims)| <= |claims|
    ensures forall v :: v in TextValues(claims) ==>
              exists k :: 0 <= k < |claims| && v in TextValue(claims[k])
    decreases |claims|
  {
    if claims != [] {
      var front := claims[..|claims| - 1];
      TextValuesFrom(front);
      assert forall k :: 0 <= k < |front| ==> front[k] == claims[k];
    }
  }

  /** `_get_wikidata_text`: the loop that appends the values, claim by claim. */
  method WikidataText(w: Wiki, page: Option<Page>, prop: string) returns (r: Result<seq<string>, Exc>)
    ensures ItemOf(w, page).Err? ==> r == Err(ItemOf(w, page).error)
    ensures ItemOf(w, page).Ok? ==> r == Ok(TextValues(ClaimsOf(ItemOf(w, page).value, prop)))
  {
    var item := ItemOf(w, page);
    if item.Err? {
      return Err(item.error);
    }
    var claims := ClaimsOf(item.value, prop);
    var items: seq<string> := [];
    for k := 0 to |claims|
      invariant items == TextValues(claims[..k])
    {
      assert claims[..k + 1][..k] == claims[..k];
      match claims[k] {
        case StringValue(s) =>
          items := items + [s];
        case ItemValue(_, labels) =>
          if "uk" in labels && labels["uk"] != "" {
            items := items + [labels["uk"]];
          }
        case _ =>
      }
    }
    assert claims[..|claims|] == claims;
    return Ok(items);
  }

  /** `get_wikidata_text_list`: the values of a property, joined with ", ", or nothing when empty. */
  function TextList(w: Wiki, query: string, prop: string): Result<Option<string>, Exc>
  {
    match GenitiveSearch(w, query)
    case None => Ok(None)
    case Some(p) =>
      match w.fromPage(p)
      case Err(e) => Err(e)
      case Ok(item) =>
        var value := Join(", ", TextValues(ClaimsOf(item, prop)));
        Ok(if value == "" then None else Some(value))
  }

  /** The list is empty exactly when no page is found, or the values are none or one empty string. */
  lemma TextListEmpty(w: Wiki, query: string, prop: string)
    requires GenitiveSearch(w, query).Some? ==> w.fromPage(GenitiveSearch(w, query).value).Ok?
    ensures TextList(w, query, prop) == Ok(None) <==>
              GenitiveSearch(w, query).None?
              || var values := TextValues(ClaimsOf(w.fromPage(GenitiveSearch(w, query).value).value, prop));
                 values == [] || values == [""]
  {
    if GenitiveSearch(w, query).Some? {
      var item := w.fromPage(GenitiveSearch(w, query).value).value;
      JoinEmptyIff(", ", TextValues(ClaimsOf(item, prop)));
    }
  }

  /** `get_field_of_work` (P101). */
  function FieldOfWork(w: Wiki, query: string): Result<Option<string>, Exc>
  {
    TextList(w, query, "P101")
  }

  // ---------------------------------------------------------------------------
  // Images

  /** The image URL, its description page and the Commons category of a page. */
  datatype ImageInfo = ImageInfo(url: Option<string>, description: Option<string>, category: Option<string>)

  /** `item.claims.get(prop)`, when it is a non-empty list: its first target. */
  function FirstClaim(item: DataItem, prop: string): (r: Option<Target>)
    ensures r.Some? <==> ClaimsOf(item, prop) != []
    ensures r.Some? ==> r.value == ClaimsOf(item, prop)[0]
  {
    if prop in item.claims && item.claims[prop] != [] then Some(item.claims[prop][0]) else None
  }

  /** The image part of `_get_page_image_info`: the first P18 file, if any. */
  function FileOf(item: DataItem): Result<(Option<string>, Option<string>), Exc>
  {
    match FirstClaim(item, "P18")
    case None => Ok((None, None))
    case Some(FileValue(url, description)) => Ok((Some(url), Some(description)))
    case Some(_) => Err(AttributeError)
  }

  /** The category part: the first P373 string. */
  function CategoryOf(item: DataItem): Option<string>
  {
    match FirstClaim(item, "P373")
    case Some(StringValue(c)) => Some(c)
    case _ => None
  }

  /** `_get_page_image_info`: three values assigned one after the other. */
  method PageImageInfo(w: Wiki, page: Page) returns (r: Result<ImageInfo, Exc>)
    ensures w.fromPage(page).Err? ==> r == Err(w.fromPage(page).error)
    ensures w.fromPage(page).Ok? && FileOf(w.fromPage(page).value).Err? ==> r == Err(AttributeError)
    ensures w.fromPage(page).Ok? && FileOf(w.fromPage(page).value).Ok? ==>
              r == Ok(ImageInfo(FileOf(w.fromPage(page).value).value.0, FileOf(w.fromPage(page).value).value.1,
                                CategoryOf(w.fromPage(page).value)))
  {
    var item := w.fromPage(page);
    if item.Err? {
      return Err(item.error);
    }
    var url: Option<string> := None;
    var description: Option<string> := None;
    var category: Option<string> := None;
    var files := ClaimsOf(item.value, "P18");
    if files != [] {
      match files[0] {
        case FileValue(u800, d) =>
          url := Some(u800);
          description := Some(d);
        case _ =>
          return Err(AttributeError);
      }
    }
    var categories := ClaimsOf(item.value, "P373");
    if categories != [] {
      match categories[0] {
        case StringValue(c) =>
          category := Some(c);
        case _ =>
      }
    }
    return Ok(ImageInfo(url, description, category));
  }

  /** The specification of PageImageInfo, for the handlers that use it. */
  function ImageInfoOf(w: Wiki, page: Page): Result<ImageInfo, Exc>
  {
    match w.fromPage(page)
    case Err(e) => Err(e)
    case Ok(item) =>
      match FileOf(item)
      case Err(e) => Err(e)
      case Ok(file) => Ok(ImageInfo(file.0, file.1, CategoryOf(item)))
  }

  /** `get_images_genitive`: nothing at all when the genitive search finds no page. */
  function ImagesGenitive(w: Wiki, text: string): (r: Result<ImageInfo, Exc>)
    ensures GenitiveSearch(w, text).None? ==> r == Ok(ImageInfo(None, None, None))
  {
    match GenitiveSearch(w, text)
    case None => Ok(ImageInfo(None, None, None))
    case Some(p) => ImageInfoOf(w, p)
  }

  /** Each of the three values is taken from its own property, independently of the others. */
  lemma ImageInfoIndependent(w: Wiki, page: Page)
    requires w.fromPage(page).Ok?
    ensures var item := w.fromPage(page).value;
            ImageInfoOf(w, page).Ok? ==>
              (ImageInfoOf(w, page).value.url.Some? <==> FirstClaim(item, "P18").Some?)
              && (ImageInfoOf(w, page).value.url.Some? <==> ImageInfoOf(w, page).value.description.Some?)
              && (ImageInfoOf(w, page).value.category.Some? <==>
                    FirstClaim(item, "P373").Some? && FirstClaim(item, "P373").value.StringValue?)
  {
  }
}
