/**
 * `MessageParser` of wikibot/parser.py: the ordered routing table, the
 * per-intent handlers and the collection of their replies.
 */
module MessageParser {
  import opened Wrappers
  import opened Text
  import opened Patterns
  import opened Genitive
  import opened External
  import opened WikiManager

  // ---------------------------------------------------------------------------
  // Intents and reply kinds

  datatype MessageType = TEXT | COORDS | IMAGE

  datatype Messages =
    | WIKI | UKWIKIBOT | WHATIS | LINK | RANDOM | HELP | BIRTHDAY | DEATHDAY
    | COORDS_GEN | COORDS_MSG | IMAGE_MSG | FIELD_OF_WORK | EDUCATION

  /** The name half of each member's value: it names the handler `get_<name>_message`. */
  function Name(m: Messages): string
  {
    match m
    case WIKI => "wiki"
    case UKWIKIBOT => "ukwikibot"
    case WHATIS => "whatis"
    case LINK => "link"
    case RANDOM => "random"
    case HELP => "help"
    case BIRTHDAY => "birthday"
    case DEATHDAY => "deathday"
    case COORDS_MSG => "coords"
    case COORDS_GEN => "coords_gen"
    case IMAGE_MSG => "image"
    case FIELD_OF_WORK => "field_of_work"
    case EDUCATION => "education"
  }

  /** The kind half of each member's value. */
  function KindOf(m: Messages): (k: MessageType)
    ensures k == COORDS <==> m == COORDS_MSG || m == COORDS_GEN
    ensures k == IMAGE <==> m == IMAGE_MSG
    ensures k == TEXT <==> m !in {COORDS_MSG, COORDS_GEN, IMAGE_MSG}
  {
    match m
    case COORDS_MSG => COORDS
    case COORDS_GEN => COORDS
    case IMAGE_MSG => IMAGE
    case _ => TEXT
  }

  /** No two members share a name, so a handler name determines the intent. */
  lemma NamesDistinct(a: Messages, b: Messages)
    ensures Name(a) == Name(b) ==> a == b
  {
  }

  // ---------------------------------------------------------------------------
  // Routing

  const WhatisAlts: seq<string> := ["шо таке ", "що таке ", "хто такий ", "хто така ", "хто такі ", "хто таке "]
  const BirthdayAlts: seq<string> := ["коли народився ", "коли народилась ", "дата народження "]
  const DeathdayAlts: seq<string> := ["коли померла ", "коли помер ", "дата смерті "]
  const FieldAlts: seq<string> := ["спеціалізація ", "сфера роботи "]
  const CoordsAlts: seq<string> := ["де розташований ", "де розташована ", "де розташоване ", "де розташовані ", "де знаходиться "]
  const ImageAlts: seq<string> := ["знайди фото ", "знайди зображення ", "покажи фото ", "покажи зображення "]

  /** `REGEXES_MATCH`, each pattern compiled with IGNORECASE, in table order. */
  const Rules: seq<(Messages, Pattern)> := [
    (WHATIS, Keyed(WhatisAlts, true, WordOrSpace)),
    (LINK, Bracketed),
    (BIRTHDAY, Keyed(BirthdayAlts, true, WordOrSpace)),
    (DEATHDAY, Keyed(DeathdayAlts, true, AnyButNewline)),
    (FIELD_OF_WORK, LeadThenKeyed("@ukwikibot", FieldAlts)),
    (COORDS_MSG, Keyed(CoordsAlts, true, AnyButNewline)),
    (COORDS_GEN, Keyed(["координати "], true, AnyButNewline)),
    (IMAGE_MSG, Keyed(ImageAlts, true, AnyButNewline)),
    (UKWIKIBOT, Literal("@ukwikibot"))
  ]

  /** What `get_matches` returns: an intent and the findall list, or `None` for the list. */
  type Routed = Option<(Messages, Option<seq<string>>)>

  /** The rules of `rules` from `n` on, then the `CONTAINS` fallback (case-sensitive), then nothing. */
  function RouteFrom(u: Unicode, rules: seq<(Messages, Pattern)>, message: string, n: nat): Routed
    decreases |rules| - n
  {
    if n >= |rules| then
      if Contains(message, "@ukwikibot") then Some((UKWIKIBOT, None)) else None
    else
      var matches := FindAll(u, rules[n].1, message);
      if matches != [] then Some((rules[n].0, Some(matches))) else RouteFrom(u, rules, message, n + 1)
  }

  function Route(u: Unicode, message: string): Routed
  {
    RouteFrom(u, Rules, message, 0)
  }

  /** `get_matches`: the rule loop with its early return, then the fallback. */
  method GetMatches(u: Unicode, message: string) returns (r: Routed)
    ensures r == Route(u, message)
  {
    var rules := Rules;
    for n := 0 to |rules|
      invariant RouteFrom(u, rules, message, 0) == RouteFrom(u, rules, message, n)
    {
      var matches := FindAll(u, rules[n].1, message);
      if matches != [] {
        return Some((rules[n].0, Some(matches)));
      }
    }
    if Contains(message, "@ukwikibot") {
      return Some((UKWIKIBOT, None));
    }
    return None;
  }

  /** No rule before `n` produces a match. */
  predicate NoneBefore(u: Unicode, rules: seq<(Messages, Pattern)>, message: string, n: nat)
    requires n <= |rules|
  {
    forall j :: 0 <= j < n ==> FindAll(u, rules[j].1, message) == []
  }

  /** The first rule with a non-empty findall list wins, and its list is the argument list. */
  lemma {:induction false} RouteFromFirst(u: Unicode, rules: seq<(Messages, Pattern)>, message: string, m: nat, n: nat)
    requires m <= n < |rules| && FindAll(u, rules[n].1, message) != []
    requires forall j :: m <= j < n ==> FindAll(u, rules[j].1, message) == []
    ensures RouteFrom(u, rules, message, m) == Some((rules[n].0, Some(FindAll(u, rules[n].1, message))))
    decreases n - m
  {
    if m < n {
      RouteFromFirst(u, rules, message, m + 1, n);
    }
  }

  lemma RouteFirst(u: Unicode, rules: seq<(Messages, Pattern)>, message: string, n: nat)
    requires n < |rules| && FindAll(u, rules[n].1, message) != [] && NoneBefore(u, rules, message, n)
    ensures RouteFrom(u, rules, message, 0) == Some((rules[n].0, Some(FindAll(u, rules[n].1, message))))
  {
    RouteFromFirst(u, rules, message, 0, n);
  }

  /** The index of the first rule from `m` on whose findall list is not empty, or `|rules|`. */
  function FirstRule(u: Unicode, rules: seq<(Messages, Pattern)>, message: string, m: nat): (n: nat)
    requires m <= |rules|
    ensures m <= n <= |rules|
    ensures n < |rules| ==> FindAll(u, rules[n].1, message) != []
    decreases |rules| - m
  {
    if m == |rules| || FindAll(u, rules[m].1, message) != [] then m else FirstRule(u, rules, message, m + 1)
  }

  /** Conversely, any routed list comes from the first rule that matched; without one only the fallback is left. */
  lemma {:induction false} RouteFromWhich(u: Unicode, rules: seq<(Messages, Pattern)>, message: string, m: nat)
    requires m <= |rules|
    ensures forall j :: m <= j < FirstRule(u, rules, message, m) ==> FindAll(u, rules[j].1, message) == []
    ensures var n := FirstRule(u, rules, message, m);
            RouteFrom(u, rules, message, m) ==
              if n < |rules| then Some((rules[n].0, Some(FindAll(u, rules[n].1, message))))
              else RouteFrom(u, rules, message, |rules|)
    decreases |rules| - m
  {
    if m < |rules| && FindAll(u, rules[m].1, message) == [] {
      RouteFromWhich(u, rules, message, m + 1);
    }
  }

  /** The mention rule matches exactly when `@ukwikibot` occurs, in any letter case. */
  lemma MentionRule(u: Unicode, message: string)
    ensures FindAll(u, Literal("@ukwikibot"), message) != [] <==>
              exists i :: 0 <= i < |message| && LitAt(u, true, message, i, "@ukwikibot")
  {
    FindAllEmptyIff(u, Literal("@ukwikibot"), message, 0);
    forall j | 0 <= j < |message|
      ensures MatchAt(u, Literal("@ukwikibot"), message, j).Some? <==> LitAt(u, true, message, j, "@ukwikibot")
    {
    }
  }

  /** A message with `@ukwikibot` gets a reply from some rule, with a non-empty argument list. */
  lemma MentionRouted(u: Unicode, message: string)
    requires Contains(message, "@ukwikibot")
    ensures Route(u, message).Some? && Route(u, message).value.1.Some? && Route(u, message).value.1.value != []
  {
    var rules := Rules;
    RouteFromWhich(u, rules, message, 0);
    var i: nat :| i <= |message| && SubAt(message, i, "@ukwikibot");
    SubAtIsLitAt(u, true, message, i, "@ukwikibot");
    MentionRule(u, message);
    assert rules[8].1 == Literal("@ukwikibot");
    assert FirstRule(u, rules, message, 0) < |rules|;
  }

  /** The `CONTAINS` fallback never fires: an exact `@ukwikibot` already matches the last rule. */
  lemma FallbackUnreachable(u: Unicode, message: string)
    ensures Route(u, message).Some? ==> Route(u, message).value.1.Some?
  {
    RouteFromWhich(u, Rules, message, 0);
    if Contains(message, "@ukwikibot") {
      MentionRouted(u, message);
    }
  }

  // ---------------------------------------------------------------------------
  // Replies

  /** One item a handler yields: a string, `None`, a coordinate pair or an (image, caption) pair. */
  datatype Item = Str(text: string) | NoneItem | Location(coordinate: Coordinate) | Picture(content: Option<seq<bv8>>, caption: Option<string>)

  /** The services the handlers use, besides the wiki: HTTP and the help text. */
  datatype Env = Env(wiki: Wiki, http: string -> Result<HttpResponse, Exc>, helpText: string)

  /** The verb of a birth line. */
  function BornVerb(gender: string): string
  {
    if gender == "female" then "народилась" else "народився"
  }

  /** The verb of a death line. */
  function DiedVerb(gender: string): string
  {
    "помер" + (if gender == "female" then "ла" else "")
  }

  /** `get_birthday_message` and `get_deathday_message` for one argument. */
  function DateStep(env: Env, query: string, died: bool): (r: Result<seq<Item>, Exc>)
    ensures r.Ok? ==> |r.value| <= 1
  {
    var page := env.wiki.search(query);
    match Gender(env.wiki, page)
    case Err(e) => Err(e)
    case Ok(gender) =>
      match (if died then Deathday(env.wiki, page) else Birthday(env.wiki, page))
      case Err(e) => Err(e)
      case Ok(date) =>
        if date.Some? && date.value != "" then
          Ok([Str(page.value.title + " " + (if died then DiedVerb(gender) else BornVerb(gender)) + " " + date.value)])
        else Ok([])
  }

  /** The link a title is looked up at. */
  function LinkUrl(title: string): (r: string)
    ensures |r| == |"https://uk.wikipedia.org/wiki/"| + |title|
    ensures r[..|"https://uk.wikipedia.org/wiki/"|] == "https://uk.wikipedia.org/wiki/"
    ensures forall k :: 0 <= k < |title| ==>
              r[|"https://uk.wikipedia.org/wiki/"| + k] == (if title[k] == ' ' then '_' else title[k])
  {
    "https://uk.wikipedia.org/wiki/" + ReplaceChar(title, ' ', '_')
  }

  /** `get_link_message` for one title: the decoded final URL, unless the page is missing. */
  function LinkStep(env: Env, title: string): (r: Result<seq<Item>, Exc>)
    ensures env.http(LinkUrl(title)).Err? <==> r.Err?
    ensures env.http(LinkUrl(title)).Ok? ==>
              r == (if env.http(LinkUrl(title)).value.status != 404
                    then Ok([Str(env.wiki.unquote(env.http(LinkUrl(title)).value.url))]) else Ok([]))
  {
    match env.http(LinkUrl(title))
    case Err(e) => Err(e)
    case Ok(response) =>
      if response.status != 404 then Ok([Str(env.wiki.unquote(response.url))]) else Ok([])
  }

  /** A string is present and not empty (Python truthiness of `str | None`). */
  predicate Truthy(s: Option<string>)
  {
    s.Some? && s.value != ""
  }

  /** The author-and-licence link to an image's description page. */
  function AuthorNote(descriptionUrl: string): string
  {
    "<a href=\"" + descriptionUrl + "\">Автор та ліцензія.</a> Дивіться також"
  }

  /** The sentence pointing at a Commons category, after `prefix`. */
  function CategoryNote(prefix: string, category: string): string
  {
    prefix + " фото в категорії <a href=\"https://commons.wikimedia.org/wiki/"
    + ("Category:" + category + "\">") + ("«" + category + "»</a> на Вікісховищі")
  }

  /** The caption of an image reply, before an empty caption becomes `None`. */
  function Caption(info: ImageInfo): string
  {
    var author := if Truthy(info.url) && Truthy(info.description) then AuthorNote(info.description.value) else "";
    if Truthy(info.category) then
      CategoryNote(if author != "" then author else "Основне фото не знайдено. Дивіться", info.category.value)
    else author
  }

  /** `get_image_message` for one argument: exactly one (content, caption) pair. */
  function ImageStep(env: Env, query: string): (r: Result<seq<Item>, Exc>)
    ensures r.Ok? ==> |r.value| == 1 && r.value[0].Picture?
  {
    match ImagesGenitive(env.wiki, query)
    case Err(e) => Err(e)
    case Ok(info) =>
      var caption := Caption(info);
      var item := (c: Option<seq<bv8>>) => Picture(c, if caption == "" then None else Some(caption));
      if Truthy(info.url) && Truthy(info.description) then
        match env.http(info.url.value)
        case Err(e) => Err(e)
        case Ok(response) =>
          Ok([item(if response.status == 200 && response.contentType == Some("image/jpeg") then Some(response.content) else None)])
      else Ok([item(None)])
  }

  /** A category note keeps its prefix and names the category's page. */
  lemma CategoryNoteParts(prefix: string, category: string, sub: string)
    ensures Contains(prefix, sub) ==> Contains(CategoryNote(prefix, category), sub)
    ensures Contains(CategoryNote(prefix, category), "Category:" + category + "\">")
  {
    var lead := prefix + " фото в категорії <a href=\"https://commons.wikimedia.org/wiki/";
    var mid := "Category:" + category + "\">";
    var tail := "«" + category + "»</a> на Вікісховищі";
    if Contains(prefix, sub) {
      ContainsPrefix(prefix, " фото в категорії <a href=\"https://commons.wikimedia.org/wiki/", sub);
      ContainsPrefix(lead, mid, sub);
      ContainsPrefix(lead + mid, tail, sub);
    }
    ContainsMiddle(lead, mid, tail);
  }

  /**
   * An image reply has a caption exactly when there is an author link or a
   * category; the caption links the image's description page only when both
   * image URLs exist, and it names the Commons category whenever there is one.
   */
  lemma CaptionParts(info: ImageInfo)
    ensures Caption(info) == [] <==> !(Truthy(info.url) && Truthy(info.description)) && !Truthy(info.category)
    ensures Truthy(info.url) && Truthy(info.description) ==> Contains(Caption(info), info.description.value)
    ensures Truthy(info.category) ==> Contains(Caption(info), "Category:" + info.category.value + "\">")
  {
    if Truthy(info.url) && Truthy(info.description) {
      var d := info.description.value;
      ContainsMiddle("<a href=\"", d, "\">Автор та ліцензія.</a> Дивіться також");
      assert AuthorNote(d) != [];
      if Truthy(info.category) {
        CategoryNoteParts(AuthorNote(d), info.category.value, d);
      }
    } else if Truthy(info.category) {
      CategoryNoteParts("Основне фото не знайдено. Дивіться", info.category.value, "");
    }
  }

  /** Content is sent only for a 200 response of type image/jpeg. */
  lemma ImageContent(env: Env, query: string)
    requires ImageStep(env, query).Ok?
    ensures var p := ImageStep(env, query).value[0];
            var info := ImagesGenitive(env.wiki, query).value;
            p.content.Some? <==>
              Truthy(info.url) && Truthy(info.description)
              && env.http(info.url.value).value.status == 200
              && env.http(info.url.value).value.contentType == Some("image/jpeg")
  {
  }

  /** The handler of `m` for one argument; `None` where the class has no `get_<name>_message`. */
  function Step(env: Env, m: Messages, arg: string): (r: Result<seq<Item>, Exc>)
    ensures r.Ok? ==> |r.value| <= 1
  {
    match m
    case WHATIS => Ok([match Search(env.wiki, arg) case Some(s) => Str(s) case None => NoneItem])
    case LINK => LinkStep(env, arg)
    case BIRTHDAY => DateStep(env, arg, false)
    case DEATHDAY => DateStep(env, arg, true)
    case FIELD_OF_WORK =>
      (match FieldOfWork(env.wiki, arg)
       case Err(e) => Err(e)
       case Ok(value) => Ok(if Truthy(value) then [Str(value.value)] else []))
    case COORDS_MSG =>
      (match WikiManager.Coords(env.wiki, env.wiki.search(arg))
       case Err(e) => Err(e)
       case Ok(c) => Ok([match c case Some(x) => Location(x) case None => NoneItem]))
    case COORDS_GEN =>
      (match WikiManager.Coords(env.wiki, GenitiveSearch(env.wiki, arg))
       case Err(e) => Err(e)
       case Ok(c) => Ok([match c case Some(x) => Location(x) case None => NoneItem]))
    case IMAGE_MSG => ImageStep(env, arg)
    case _ => Ok([])
  }

  /** The intents with a `get_<name>_message` handler in the class. */
  predicate HasHandler(m: Messages)
  {
    m !in {WIKI, RANDOM, HELP, EDUCATION}
  }

  /** The items of the handler over `args`, in order; the first exception ends the whole call. */
  function Collect(env: Env, m: Messages, args: seq<string>): Result<seq<Item>, Exc>
    decreases |args|
  {
    if args == [] then Ok([])
    else
      match Collect(env, m, args[..|args| - 1])
      case Err(e) => Err(e)
      case Ok(front) =>
        match Step(env, m, args[|args| - 1])
        case Err(e) => Err(e)
        case Ok(items) => Ok(front + items)
  }

  /** A single argument's reply is its handler's items. */
  lemma CollectOne(env: Env, m: Messages, arg: string)
    ensures Collect(env, m, [arg]) == Step(env, m, arg)
  {
    assert [arg][..0] == [];
    if Step(env, m, arg).Ok? {
      assert [] + Step(env, m, arg).value == Step(env, m, arg).value;
    }
  }

  /** The handler of `m` as a function of the argument. */
  function HandlerOf(env: Env, m: Messages): string -> Result<seq<Item>, Exc>
  {
    arg => Step(env, m, arg)
  }

  /** Collection with any per-argument handler `h`, in the shape of Collect. */
  function CollectWith(h: string -> Result<seq<Item>, Exc>, args: seq<string>): Result<seq<Item>, Exc>
    decreases |args|
  {
    if args == [] then Ok([])
    else
      match CollectWith(h, args[..|args| - 1])
      case Err(e) => Err(e)
      case Ok(front) =>
        match h(args[|args| - 1])
        case Err(e) => Err(e)
        case Ok(items) => Ok(front + items)
  }

  /** Collect is CollectWith over the intent's handler. */
  lemma {:induction false} CollectIsWith(env: Env, m: Messages, args: seq<string>)
    ensures Collect(env, m, args) == CollectWith(HandlerOf(env, m), args)
    decreases |args|
  {
    if args != [] {
      CollectIsWith(env, m, args[..|args| - 1]);
      assert HandlerOf(env, m)(args[|args| - 1]) == Step(env, m, args[|args| - 1]);
    }
  }

  lemma {:induction false} CollectWithConcat(h: string -> Result<seq<Item>, Exc>, a: seq<string>, b: seq<string>)
    ensures CollectWith(h, a + b) ==
              match CollectWith(h, a)
              case Err(e) => Err(e)
              case Ok(x) => match CollectWith(h, b) case Err(e) => Err(e) case Ok(y) => Ok(x + y)
    decreases |b|
  {
    if b == [] {
      assert a + b == a;
      if CollectWith(h, a).Ok? {
        assert CollectWith(h, a).value + [] == CollectWith(h, a).value;
      }
    } else {
      var front, last := b[..|b| - 1], b[|b| - 1];
      assert (a + b)[..|a + b| - 1] == a + front;
      assert (a + b)[|a + b| - 1] == last;
      CollectWithConcat(h, a, front);
      if CollectWith(h, a).Ok? && CollectWith(h, front).Ok? && h(last).Ok? {
        var x, y, z := CollectWith(h, a).value, CollectWith(h, front).value, h(last).value;
        assert x + y + z == x + (y + z);
      }
    }
  }

  /** Collection keeps order: the items of two runs of arguments are concatenated. */
  lemma CollectConcat(env: Env, m: Messages, a: seq<string>, b: seq<string>)
    ensures Collect(env, m, a + b) ==
              match Collect(env, m, a)
              case Err(e) => Err(e)
              case Ok(x) => match Collect(env, m, b) case Err(e) => Err(e) case Ok(y) => Ok(x + y)
  {
    CollectIsWith(env, m, a + b);
    CollectIsWith(env, m, a);
    CollectIsWith(env, m, b);
    CollectWithConcat(HandlerOf(env, m), a, b);
  }

  /** An exception from any argument's handler loses every item collected before it. */
  lemma {:induction false} CollectFails(env: Env, m: Messages, args: seq<string>, k: nat)
    requires k < |args| && Step(env, m, args[k]).Err?
    ensures Collect(env, m, args).Err?
    ensures Collect(env, m, args[..k]).Ok? ==> Collect(env, m, args) == Err(Step(env, m, args[k]).error)
    decreases |args|
  {
    if k < |args| - 1 {
      assert args[..|args| - 1][..k] == args[..k];
      CollectFails(env, m, args[..|args| - 1], k);
    }
  }

  /** An item fits the reply kind its intent declares. */
  predicate FitsKind(kind: MessageType, item: Item)
  {
    match kind
    case TEXT => item.Str? || item.NoneItem?
    case COORDS => item.Location? || item.NoneItem?
    case IMAGE => item.Picture?
  }

  /** Every collected item fits its intent's kind. */
  lemma {:induction false} CollectFitsKind(env: Env, m: Messages, args: seq<string>)
    requires Collect(env, m, args).Ok?
    ensures forall item :: item in Collect(env, m, args).value ==> FitsKind(KindOf(m), item)
    decreases |args|
  {
    if args != [] {
      CollectFitsKind(env, m, args[..|args| - 1]);
    }
  }

  /** Birth lines: one per argument with a date, the verb agreeing with the gender. */
  lemma BirthdayLine(env: Env, query: string)
    requires Step(env, BIRTHDAY, query).Ok? && Step(env, BIRTHDAY, query).value != []
    ensures var page := env.wiki.search(query);
            var gender := Gender(env.wiki, page).value;
            var date := Birthday(env.wiki, page).value;
            page.Some? && date.Some?
            && Step(env, BIRTHDAY, query).value == [Str(page.value.title + " " + BornVerb(gender) + " " + date.value)]
            && (BornVerb(gender) == "народилась" <==> gender == "female")
  {
  }

  /** Death lines: "померла" exactly for a female subject, else "помер". */
  lemma DeathdayLine(env: Env, query: string)
    requires Step(env, DEATHDAY, query).Ok? && Step(env, DEATHDAY, query).value != []
    ensures var page := env.wiki.search(query);
            var gender := Gender(env.wiki, page).value;
            var date := Deathday(env.wiki, page).value;
            page.Some? && date.Some?
            && Step(env, DEATHDAY, query).value == [Str(page.value.title + " " + DiedVerb(gender) + " " + date.value)]
            && (DiedVerb(gender) == "померла" <==> gender == "female")
            && (gender != "female" ==> DiedVerb(gender) == "помер")
  {
  }

  /** A date line is emitted exactly when the date is present. */
  lemma DateLinePresent(env: Env, query: string, died: bool)
    requires Gender(env.wiki, env.wiki.search(query)).Ok?
    requires (if died then Deathday(env.wiki, env.wiki.search(query)) else Birthday(env.wiki, env.wiki.search(query))).Ok?
    ensures var date := (if died then Deathday(env.wiki, env.wiki.search(query)) else Birthday(env.wiki, env.wiki.search(query))).value;
            DateStep(env, query, died).Ok? && (DateStep(env, query, died).value != [] <==> Truthy(date))
  {
  }

  /** `get_response`: route, look the handler up, run it over the arguments and collect. */
  function Response(env: Env, message: string): Result<Option<(seq<Item>, MessageType)>, Exc>
  {
    match Route(env.wiki.u, message)
    case None => Ok(None)
    case Some((m, matches)) =>
      if !HasHandler(m) then Err(AttributeError)
      else if m == UKWIKIBOT then Ok(Some(([Str("Га?")], KindOf(m))))
      else if matches.None? then Err(TypeError)
      else
        match Collect(env, m, matches.value)
        case Err(e) => Err(e)
        case Ok(items) => Ok(Some((items, KindOf(m))))
  }

  /** The collecting loop of `get_response`: run the handler over each argument, in order. */
  method CollectItems(env: Env, m: Messages, args: seq<string>) returns (r: Result<seq<Item>, Exc>)
    ensures r == Collect(env, m, args)
  {
    var responses: seq<Item> := [];
    for i := 0 to |args|
      invariant Collect(env, m, args[..i]) == Ok(responses)
    {
      assert args[..i + 1][..i] == args[..i];
      var items := Step(env, m, args[i]);
      if items.Err? {
        CollectFails(env, m, args, i);
        return Err(items.error);
      }
      responses := responses + items.value;
    }
    assert args[..|args|] == args;
    return Ok(responses);
  }

  /** `get_response`. */
  method GetResponse(env: Env, message: string) returns (r: Result<Option<(seq<Item>, MessageType)>, Exc>)
    ensures r == Response(env, message)
  {
    var routed := GetMatches(env.wiki.u, message);
    if routed.None? {
      return Ok(None);
    }
    var m := routed.value.0;
    if !HasHandler(m) {
      return Err(AttributeError);
    }
    if m == UKWIKIBOT {
      return Ok(Some(([Str("Га?")], KindOf(m))));
    }
    if routed.value.1.None? {
      return Err(TypeError);
    }
    var items := CollectItems(env, m, routed.value.1.value);
    if items.Err? {
      return Err(items.error);
    }
    return Ok(Some((items.value, KindOf(m))));
  }

  /** The mention intent answers "Га?" once, whatever else the message says. */
  lemma MentionReply(env: Env, message: string)
    requires Route(env.wiki.u, message).Some? && Route(env.wiki.u, message).value.0 == UKWIKIBOT
    ensures Response(env, message) == Ok(Some(([Str("Га?")], TEXT)))
  {
  }

  /** A message that matches nothing gets no reply and no kind. */
  lemma NoRouteNoReply(env: Env, message: string)
    requires Route(env.wiki.u, message).None?
    ensures Response(env, message) == Ok(None)
  {
  }

  /** Every item of a reply fits the kind the reply declares. */
  lemma ResponseFitsKind(env: Env, message: string)
    requires Response(env, message).Ok? && Response(env, message).value.Some?
    ensures var (items, kind) := Response(env, message).value.value;
            forall item :: item in items ==> FitsKind(kind, item)
  {
    var (m, matches) := Route(env.wiki.u, message).value;
    if m != UKWIKIBOT {
      CollectFitsKind(env, m, matches.value);
    }
  }

  /** Each handler call yields at most one item, so a reply never has more items than arguments. */
  lemma {:induction false} CollectAtMostOne(env: Env, m: Messages, args: seq<string>)
    requires Collect(env, m, args).Ok?
    ensures |Collect(env, m, args).value| <= |args|
    decreases |args|
  {
    if args != [] {
      CollectAtMostOne(env, m, args[..|args| - 1]);
    }
  }

  /** When every argument yields exactly one item, item `k` of the reply is the item of argument `k`. */
  lemma {:induction false} CollectOneEach(env: Env, m: Messages, args: seq<string>)
    requires forall k :: 0 <= k < |args| ==> Step(env, m, args[k]).Ok? && |Step(env, m, args[k]).value| == 1
    ensures Collect(env, m, args).Ok? && |Collect(env, m, args).value| == |args|
    ensures forall k :: 0 <= k < |args| ==> Collect(env, m, args).value[k] == Step(env, m, args[k]).value[0]
  {
    var h := HandlerOf(env, m);
    assert forall k :: 0 <= k < |args| ==> h(args[k]) == Step(env, m, args[k]);
    CollectIsWith(env, m, args);
    CollectWithOneEach(h, args);
  }

  lemma {:induction false} CollectWithOneEach(h: string -> Result<seq<Item>, Exc>, args: seq<string>)
    requires forall k :: 0 <= k < |args| ==> h(args[k]).Ok? && |h(args[k]).value| == 1
    ensures CollectWith(h, args).Ok? && |CollectWith(h, args).value| == |args|
    ensures forall k :: 0 <= k < |args| ==> CollectWith(h, args).value[k] == h(args[k]).value[0]
    decreases |args|
  {
    if args != [] {
      var front, last := args[..|args| - 1], args[|args| - 1];
      assert forall k :: 0 <= k < |front| ==> front[k] == args[k];
      CollectWithOneEach(h, front);
      var x, y := CollectWith(h, front).value, h(last).value;
      assert CollectWith(h, args) == Ok(x + y);
      forall k | 0 <= k < |args|
        ensures (x + y)[k] == h(args[k]).value[0]
      {
        if k < |front| {
          assert (x + y)[k] == x[k];
        } else {
          assert k == |x| && args[k] == last;
        }
      }
    }
  }

  /** With no missing page among the titles, the reply holds each title's decoded URL, in order. */
  lemma LinkReplies(env: Env, titles: seq<string>)
    requires forall k :: 0 <= k < |titles| ==> env.http(LinkUrl(titles[k])).Ok? && env.http(LinkUrl(titles[k])).value.status != 404
    ensures Collect(env, LINK, titles).Ok? && |Collect(env, LINK, titles).value| == |titles|
    ensures forall k :: 0 <= k < |titles| ==>
              Collect(env, LINK, titles).value[k] == Str(env.wiki.unquote(env.http(LinkUrl(titles[k])).value.url))
  {
    CollectOneEach(env, LINK, titles);
  }

  /** An image reply has one (content, caption) pair per argument, in order. */
  lemma ImageReplies(env: Env, queries: seq<string>)
    requires forall k :: 0 <= k < |queries| ==> ImageStep(env, queries[k]).Ok?
    ensures Collect(env, IMAGE_MSG, queries).Ok? && |Collect(env, IMAGE_MSG, queries).value| == |queries|
    ensures forall k :: 0 <= k < |queries| ==> Collect(env, IMAGE_MSG, queries).value[k] == ImageStep(env, queries[k]).value[0]
  {
    CollectOneEach(env, IMAGE_MSG, queries);
  }

  // ---------------------------------------------------------------------------
  // Commands

  /** `COMMANDS`. */
  const Commands: map<string, Messages> := map["help" := HELP, "start" := HELP, "random" := RANDOM, "wiki" := WIKI]

  /** `get_command_response`: an unknown command word raises KeyError. */
  function CommandResponse(env: Env, word: string): (r: Result<Option<string>, Exc>)
    ensures r.Err? <==> word !in {"help", "start", "random", "wiki"}
    ensures word !in {"help", "start", "random", "wiki"} ==> r == Err(KeyError)
    ensures word == "help" || word == "start" ==> r == Ok(Some(env.helpText))
    ensures word == "wiki" ==> r == Ok(Some("https://uk.wikipedia.org/"))
    ensures word == "random" ==> r == Ok(Random(env.wiki))
  {
    if word !in Commands then Err(KeyError)
    else match Commands[word]
      case HELP => Ok(Some(env.helpText))
      case RANDOM => Ok(Random(env.wiki))
      case WIKI => Ok(Some("https://uk.wikipedia.org/"))
      case _ => Err(AttributeError)
  }

  // ---------------------------------------------------------------------------
  // Routing examples, with Python's tables for lowercase and \w

  /** Python's tables leave the first two letters of an alternative as they are. */
  lemma HeadsLower(u: Unicode, alts: seq<string>)
    requires StandardTables(u)
    requires forall k :: 0 <= k < |alts| ==>
               |alts[k]| >= 2 && InTables(alts[k][0]) && InTables(alts[k][1])
               && TableLower(alts[k][0]) == alts[k][0] && TableLower(alts[k][1]) == alts[k][1]
    ensures LowerHeads(u, alts)
  {
  }

  /** The first two letters of every alternative are lowercase already. */
  lemma RuleHeadsLower(u: Unicode)
    requires StandardTables(u)
    ensures LowerHeads(u, WhatisAlts) && LowerHeads(u, BirthdayAlts) && LowerHeads(u, DeathdayAlts)
    ensures LowerHeads(u, FieldAlts) && LowerHeads(u, CoordsAlts) && LowerHeads(u, ["координати "])
    ensures LowerHeads(u, ImageAlts)
  {
    HeadsLower(u, WhatisAlts);
    HeadsLower(u, BirthdayAlts);
    HeadsLower(u, DeathdayAlts);
    HeadsLower(u, FieldAlts);
    HeadsLower(u, CoordsAlts);
    HeadsLower(u, ["координати "]);
    HeadsLower(u, ImageAlts);
  }

  /** Of the WHATIS alternatives, "хто такий " is the first to fit "хто такий зеленський". */
  lemma WhoIsAlts(u: Unicode, s: string)
    requires StandardTables(u) && s == "хто такий зеленський"
    ensures !AltFits(u, true, WordOrSpace, WhatisAlts[0], s, 0)
    ensures !AltFits(u, true, WordOrSpace, WhatisAlts[1], s, 0)
    ensures AltFits(u, true, WordOrSpace, WhatisAlts[2], s, 0)
  {
    assert InTables(s[0]) && InTables(s[10]);
    assert LitFrom(u, true, s, 0, WhatisAlts[2], 1);
  }

  lemma WhoIsFirstAlt(u: Unicode, s: string)
    requires StandardTables(u) && s == "хто такий зеленський"
    ensures FirstAlt(u, true, WordOrSpace, WhatisAlts, s, 0) == Some("хто такий ")
  {
    WhoIsAlts(u, s);
    assert FirstAltFrom(u, true, WordOrSpace, WhatisAlts, s, 0, 2) == Some(WhatisAlts[2]);
  }

  lemma WhoIsRun(u: Unicode, s: string)
    requires StandardTables(u) && s == "хто такий зеленський"
    ensures RunEnd(u, WordOrSpace, s, 10) == 20
  {
    assert forall t :: 10 <= t < 20 ==> InTables(s[t]) && TableWord(s[t]);
    RunEndIs(u, WordOrSpace, s, 10, 20);
  }

  lemma WhoIsMatch(u: Unicode, s: string)
    requires StandardTables(u) && s == "хто такий зеленський"
    ensures MatchAt(u, Keyed(WhatisAlts, true, WordOrSpace), s, 0) == Some(Match(20, "зеленський"))
  {
    WhoIsFirstAlt(u, s);
    WhoIsRun(u, s);
    assert s[10..20] == "зеленський";
  }

  /** "хто такий зеленський" asks who Zelensky is. */
  lemma WhoIsExample(u: Unicode, s: string)
    requires StandardTables(u) && s == "хто такий зеленський"
    ensures Route(u, s) == Some((WHATIS, Some(["зеленський"])))
  {
    WhoIsMatch(u, s);
    var p := Keyed(WhatisAlts, true, WordOrSpace);
    assert FindAllFrom(u, p, s, 20) == [];
    assert FindAll(u, p, s) == ["зеленський"] + FindAllFrom(u, p, s, 20);
    assert Rules[0] == (WHATIS, p);
    RouteFirst(u, Rules, s, 0);
    assert RouteFrom(u, Rules, s, 0) == Some((WHATIS, Some(FindAll(u, p, s))));
    assert FindAll(u, p, s) == ["зеленський"];
  }

  /** "Чуєш, @ukwikibot, як ти?" lowercased. */
  lemma MentionLowered(u: Unicode, s: string, l: string)
    requires StandardTables(u) && s == "Чуєш, @ukwikibot, як ти?" && l == "чуєш, @ukwikibot, як ти?"
    ensures LowersTo(u, s, l)
  {
    forall i | 0 <= i < |s|
      ensures u.lower(s[i]) == l[i]
    {
      assert InTables(s[i]);
    }
  }

  lemma MentionNoQuestion(l: string)
    requires l == "чуєш, @ukwikibot, як ти?"
    ensures NoPairs(WhatisAlts, l)
  {
  }

  lemma MentionNoDates(l: string)
    requires l == "чуєш, @ukwikibot, як ти?"
    ensures NoPairs(BirthdayAlts, l) && NoPairs(DeathdayAlts, l)
  {
  }

  lemma MentionNoPlaces(l: string)
    requires l == "чуєш, @ukwikibot, як ти?"
    ensures NoPairs(FieldAlts, l) && NoPairs(CoordsAlts, l) && NoPairs(["координати "], l)
  {
  }

  lemma MentionNoImage(l: string)
    requires l == "чуєш, @ukwikibot, як ти?"
    ensures NoPairs(ImageAlts, l)
  {
  }

  /** The mention rule reports the one `@ukwikibot` of the message. */
  lemma MentionLiteral(u: Unicode, s: string, l: string)
    requires StandardTables(u) && s == "Чуєш, @ukwikibot, як ти?" && l == "чуєш, @ukwikibot, як ти?"
    requires LowersTo(u, s, l)
    ensures FindAll(u, Literal("@ukwikibot"), s) == ["@ukwikibot"]
  {
    var p := Literal("@ukwikibot");
    MentionLiteralBefore(u, s, l);
    MentionLiteralAt(u, s);
    FindAllSkip(u, p, s, 16, 24);
    assert FindAllFrom(u, p, s, 6) == ["@ukwikibot"] + FindAllFrom(u, p, s, 16);
  }

  lemma MentionLiteralBefore(u: Unicode, s: string, l: string)
    requires StandardTables(u) && s == "Чуєш, @ukwikibot, як ти?" && l == "чуєш, @ukwikibot, як ти?"
    requires LowersTo(u, s, l)
    ensures FindAll(u, Literal("@ukwikibot"), s) == FindAllFrom(u, Literal("@ukwikibot"), s, 6)
  {
    assert InTables('@');
    MentionNoAtBefore(l);
    LiteralNoneBefore(u, s, l, "@ukwikibot", 6);
    FindAllSkip(u, Literal("@ukwikibot"), s, 0, 6);
  }

  lemma MentionNoAtBefore(l: string)
    requires l == "чуєш, @ukwikibot, як ти?"
    ensures forall j :: 0 <= j < 6 ==> l[j] != "@ukwikibot"[0]
  {
  }

  lemma MentionLiteralAt(u: Unicode, s: string)
    requires s == "Чуєш, @ukwikibot, як ти?"
    ensures MatchAt(u, Literal("@ukwikibot"), s, 6) == Some(Match(16, "@ukwikibot"))
  {
    assert s[6..16] == "@ukwikibot";
    SubAtIsLitAt(u, true, s, 6, "@ukwikibot");
  }

  /** Lowercase heads and absent letter pairs rule out every case-insensitive keyed rule. */
  lemma KeyedRulesNone(u: Unicode, s: string, l: string)
    requires StandardTables(u) && LowersTo(u, s, l)
    requires NoPairs(WhatisAlts, l) && NoPairs(BirthdayAlts, l) && NoPairs(DeathdayAlts, l) && NoPairs(FieldAlts, l)
    requires NoPairs(CoordsAlts, l) && NoPairs(["координати "], l) && NoPairs(ImageAlts, l)
    ensures FindAll(u, Keyed(WhatisAlts, true, WordOrSpace), s) == []
    ensures FindAll(u, Keyed(BirthdayAlts, true, WordOrSpace), s) == []
    ensures FindAll(u, Keyed(DeathdayAlts, true, AnyButNewline), s) == []
    ensures FindAll(u, LeadThenKeyed("@ukwikibot", FieldAlts), s) == []
    ensures FindAll(u, Keyed(CoordsAlts, true, AnyButNewline), s) == []
    ensures FindAll(u, Keyed(["координати "], true, AnyButNewline), s) == []
    ensures FindAll(u, Keyed(ImageAlts, true, AnyButNewline), s) == []
  {
    RuleHeadsLower(u);
    KeyedNoneLowered(u, WhatisAlts, WordOrSpace, s, l);
    KeyedNoneLowered(u, BirthdayAlts, WordOrSpace, s, l);
    KeyedNoneLowered(u, DeathdayAlts, AnyButNewline, s, l);
    LeadNoneLowered(u, "@ukwikibot", FieldAlts, s, l);
    KeyedNoneLowered(u, CoordsAlts, AnyButNewline, s, l);
    KeyedNoneLowered(u, ["координати "], AnyButNewline, s, l);
    KeyedNoneLowered(u, ImageAlts, AnyButNewline, s, l);
  }

  /** When only the mention rule matches, the mention intent gets its findall list. */
  lemma OnlyMention(u: Unicode, s: string)
    requires FindAll(u, Keyed(WhatisAlts, true, WordOrSpace), s) == []
    requires FindAll(u, Bracketed, s) == []
    requires FindAll(u, Keyed(BirthdayAlts, true, WordOrSpace), s) == []
    requires FindAll(u, Keyed(DeathdayAlts, true, AnyButNewline), s) == []
    requires FindAll(u, LeadThenKeyed("@ukwikibot", FieldAlts), s) == []
    requires FindAll(u, Keyed(CoordsAlts, true, AnyButNewline), s) == []
    requires FindAll(u, Keyed(["координати "], true, AnyButNewline), s) == []
    requires FindAll(u, Keyed(ImageAlts, true, AnyButNewline), s) == []
    requires FindAll(u, Literal("@ukwikibot"), s) != []
    ensures Route(u, s) == Some((UKWIKIBOT, Some(FindAll(u, Literal("@ukwikibot"), s))))
  {
    RouteFirst(u, Rules, s, 8);
  }

  /** In the mention example no rule before the mention rule finds anything. */
  lemma MentionOthersNone(u: Unicode, s: string)
    requires StandardTables(u) && s == "Чуєш, @ukwikibot, як ти?"
    ensures FindAll(u, Keyed(WhatisAlts, true, WordOrSpace), s) == []
    ensures FindAll(u, Bracketed, s) == []
    ensures FindAll(u, Keyed(BirthdayAlts, true, WordOrSpace), s) == []
    ensures FindAll(u, Keyed(DeathdayAlts, true, AnyButNewline), s) == []
    ensures FindAll(u, LeadThenKeyed("@ukwikibot", FieldAlts), s) == []
    ensures FindAll(u, Keyed(CoordsAlts, true, AnyButNewline), s) == []
    ensures FindAll(u, Keyed(["координати "], true, AnyButNewline), s) == []
    ensures FindAll(u, Keyed(ImageAlts, true, AnyButNewline), s) == []
  {
    MentionKeyedNone(u, s, "чуєш, @ukwikibot, як ти?");
    MentionNoBracket(u, s);
  }

  lemma MentionNoBracket(u: Unicode, s: string)
    requires s == "Чуєш, @ukwikibot, як ти?"
    ensures FindAll(u, Bracketed, s) == []
  {
    assert forall i :: 0 <= i < |s| ==> s[i] != '[';
    BracketedNone(u, s);
  }

  lemma MentionKeyedNone(u: Unicode, s: string, l: string)
    requires StandardTables(u) && s == "Чуєш, @ukwikibot, як ти?" && l == "чуєш, @ukwikibot, як ти?"
    ensures FindAll(u, Keyed(WhatisAlts, true, WordOrSpace), s) == []
    ensures FindAll(u, Keyed(BirthdayAlts, true, WordOrSpace), s) == []
    ensures FindAll(u, Keyed(DeathdayAlts, true, AnyButNewline), s) == []
    ensures FindAll(u, LeadThenKeyed("@ukwikibot", FieldAlts), s) == []
    ensures FindAll(u, Keyed(CoordsAlts, true, AnyButNewline), s) == []
    ensures FindAll(u, Keyed(["координати "], true, AnyButNewline), s) == []
    ensures FindAll(u, Keyed(ImageAlts, true, AnyButNewline), s) == []
  {
    MentionLowered(u, s, l);
    MentionNoQuestion(l);
    MentionNoDates(l);
    MentionNoPlaces(l);
    MentionNoImage(l);
    KeyedRulesNone(u, s, l);
  }

  /** "Чуєш, @ukwikibot, як ти?" (roughly "hey @ukwikibot, how are you?") matches only the mention rule. */
  lemma MentionExample(u: Unicode, s: string)
    requires StandardTables(u) && s == "Чуєш, @ukwikibot, як ти?"
    ensures Route(u, s) == Some((UKWIKIBOT, Some(["@ukwikibot"])))
  {
    MentionOthersNone(u, s);
    MentionLowered(u, s, "чуєш, @ukwikibot, як ти?");
    MentionLiteral(u, s, "чуєш, @ukwikibot, як ти?");
    OnlyMention(u, s);
  }

  /** "Some text [[рейган]] some text" asks for the link to the article on Reagan. */
  lemma LinkExample(u: Unicode, s: string)
    requires StandardTables(u) && s == "Some text [[рейган]] some text"
    ensures Route(u, s) == Some((LINK, Some(["рейган"])))
  {
    var l := "some text [[рейган]] some text";
    LinkLowered(u, s, l);
    LinkNoQuestion(l);
    HeadsLower(u, WhatisAlts);
    KeyedNoneLowered(u, WhatisAlts, WordOrSpace, s, l);
    LinkBracketed(u, s);
    RouteFirst(u, Rules, s, 1);
  }

  lemma LinkLowered(u: Unicode, s: string, l: string)
    requires StandardTables(u) && s == "Some text [[рейган]] some text" && l == "some text [[рейган]] some text"
    ensures LowersTo(u, s, l)
  {
    forall i | 0 <= i < |s|
      ensures u.lower(s[i]) == l[i]
    {
      assert InTables(s[i]);
    }
  }

  lemma LinkNoQuestion(l: string)
    requires l == "some text [[рейган]] some text"
    ensures NoPairs(WhatisAlts, l)
  {
  }

  /** The one bracketed title of the link example. */
  lemma LinkBracketed(u: Unicode, s: string)
    requires s == "Some text [[рейган]] some text"
    ensures FindAll(u, Bracketed, s) == ["рейган"]
  {
    LinkBracketMatch(u, s);
    LinkBracketSkips(u, s);
    assert FindAllFrom(u, Bracketed, s, 10) == ["рейган"] + FindAllFrom(u, Bracketed, s, 20);
  }

  lemma LinkBracketMatch(u: Unicode, s: string)
    requires s == "Some text [[рейган]] some text"
    ensures MatchAt(u, Bracketed, s, 10) == Some(Match(20, "рейган"))
  {
    var title := "рейган";
    assert s[12..18] == title;
    assert forall t :: 0 <= t < |title| ==> title[t] != '\n' && title[t] != ']';
    BracketedAt(u, s, 10, title);
  }

  lemma LinkBracketSkips(u: Unicode, s: string)
    requires s == "Some text [[рейган]] some text"
    ensures FindAllFrom(u, Bracketed, s, 0) == FindAllFrom(u, Bracketed, s, 10)
    ensures FindAllFrom(u, Bracketed, s, 20) == []
  {
    assert forall j :: 0 <= j < 10 ==> s[j] != '[';
    assert forall j :: 20 <= j < 30 ==> s[j] != '[';
    FindAllSkip(u, Bracketed, s, 0, 10);
    FindAllSkip(u, Bracketed, s, 20, 30);
  }

  /** The reply to a message whose only link is `title`. */
  lemma OneLinkResponse(env: Env, s: string, title: string)
    requires Route(env.wiki.u, s) == Some((LINK, Some([title])))
    ensures Response(env, s) ==
              match env.http(LinkUrl(title))
              case Err(e) => Err(e)
              case Ok(response) =>
                Ok(Some((if response.status != 404 then [Str(env.wiki.unquote(response.url))] else [], TEXT)))
  {
    CollectOne(env, LINK, title);
    assert Step(env, LINK, title) == LinkStep(env, title);
  }

  /** The reply to the link example: the decoded final URL, or nothing when the page is missing. */
  lemma LinkExampleResponse(env: Env, s: string)
    requires StandardTables(env.wiki.u) && s == "Some text [[рейган]] some text"
    ensures Response(env, s) ==
              match env.http(LinkUrl("рейган"))
              case Err(e) => Err(e)
              case Ok(response) =>
                Ok(Some((if response.status != 404 then [Str(env.wiki.unquote(response.url))] else [], TEXT)))
  {
    LinkExample(env.wiki.u, s);
    OneLinkResponse(env, s, "рейган");
  }

  // ---------------------------------------------------------------------------
  // What the capture groups keep of a trailing question mark

  /** The `[\w,\s]+` groups of the WHATIS and BIRTHDAY rules never capture a `?`. */
  lemma GroupsWithoutQuestion(u: Unicode, message: string)
    requires !u.isWord('?') && !u.isSpace('?')
    requires Route(u, message).Some? && Route(u, message).value.0 in {WHATIS, BIRTHDAY}
    ensures Route(u, message).value.1.Some?
    ensures forall g :: g in Route(u, message).value.1.value ==> g != [] && '?' !in g
  {
    var rules := Rules;
    RouteFromWhich(u, rules, message, 0);
    var n := FirstRule(u, rules, message, 0);
    if n < |rules| {
      assert n == 0 || n == 2;
      var ic_alts := if n == 0 then WhatisAlts else BirthdayAlts;
      assert rules[n].1 == Keyed(ic_alts, true, WordOrSpace);
      FindAllKeyedInClass(u, ic_alts, true, WordOrSpace, message, 0);
    }
  }

  /** "Що таке Головна сторінка?" lowercased. */
  lemma WhatIsLowered(u: Unicode, s: string, l: string)
    requires StandardTables(u) && s == "Що таке Головна сторінка?" && l == "що таке головна сторінка?"
    ensures LowersTo(u, s, l)
  {
    forall i | 0 <= i < |s|
      ensures u.lower(s[i]) == l[i]
    {
      assert InTables(s[i]);
    }
  }

  /** "що таке ", not "шо таке ", is the alternative that fits a capital Щ. */
  lemma WhatIsFirstAlt(u: Unicode, s: string)
    requires StandardTables(u) && s == "Що таке Головна сторінка?"
    ensures FirstAlt(u, true, WordOrSpace, WhatisAlts, s, 0) == Some("що таке ")
  {
    var l := "що таке головна сторінка?";
    WhatIsLowered(u, s, l);
    WhatIsAltFacts(u, s, l);
    FirstAltLowered(u, WordOrSpace, WhatisAlts, s, l, 0, 1);
  }

  lemma WhatIsAltFacts(u: Unicode, s: string, l: string)
    requires StandardTables(u) && s == "Що таке Головна сторінка?" && l == "що таке головна сторінка?"
    ensures !LitAt(u, true, s, 0, WhatisAlts[0])
    ensures SubAt(l, 0, WhatisAlts[1]) && LowerFixed(u, WhatisAlts[1])
    ensures InClass(u, WordOrSpace, s[8])
  {
    assert InTables(s[0]) && InTables('ш') && InTables(s[8]);
    NotLitAt(u, true, s, 0, WhatisAlts[0], 0);
    assert l[0..8] == WhatisAlts[1];
    assert forall k :: 0 <= k < 8 ==> InTables(WhatisAlts[1][k]);
  }

  /** The group stops at the question mark. */
  lemma WhatIsRun(u: Unicode, s: string)
    requires StandardTables(u) && s == "Що таке Головна сторінка?"
    ensures RunEnd(u, WordOrSpace, s, 8) == 24
  {
    assert forall t :: 8 <= t < 24 ==> InTables(s[t]) && (TableWord(s[t]) || TableSpace(s[t]));
    assert InTables(s[24]) && !TableWord(s[24]) && !TableSpace(s[24]);
    RunEndIs(u, WordOrSpace, s, 8, 24);
  }

  lemma WhatIsMatch(u: Unicode, s: string)
    requires StandardTables(u) && s == "Що таке Головна сторінка?"
    ensures MatchAt(u, Keyed(WhatisAlts, true, WordOrSpace), s, 0) == Some(Match(25, "Головна сторінка"))
  {
    WhatIsFirstAlt(u, s);
    WhatIsRun(u, s);
    WhatIsGroup(s);
    KeyedMatchAtStart(u, WhatisAlts, true, WordOrSpace, s, "що таке ", 24);
  }

  /** The subject of the WHATIS example, and the question mark after it. */
  lemma WhatIsGroup(s: string)
    requires s == "Що таке Головна сторінка?"
    ensures s[8..24] == "Головна сторінка" && |s| == 25 && s[24] == '?'
  {
  }

  /** "Що таке Головна сторінка?" asks what the Main Page is; the `?` is consumed but not captured. */
  lemma WhatIsExample(u: Unicode, s: string)
    requires StandardTables(u) && s == "Що таке Головна сторінка?"
    ensures Route(u, s) == Some((WHATIS, Some(["Головна сторінка"])))
  {
    WhatIsMatch(u, s);
    var p := Keyed(WhatisAlts, true, WordOrSpace);
    assert FindAllFrom(u, p, s, 25) == [];
    assert FindAll(u, p, s) == ["Головна сторінка"] + FindAllFrom(u, p, s, 25);
    assert Rules[0] == (WHATIS, p);
    RouteFirst(u, Rules, s, 0);
    assert RouteFrom(u, Rules, s, 0) == Some((WHATIS, Some(FindAll(u, p, s))));
    assert FindAll(u, p, s) == ["Головна сторінка"];
  }

  /** "Коли помер Майкл Джексон?" lowercased. */
  lemma DiedLowered(u: Unicode, s: string, l: string)
    requires StandardTables(u) && s == "Коли помер Майкл Джексон?" && l == "коли помер майкл джексон?"
    ensures LowersTo(u, s, l)
  {
    forall i | 0 <= i < |s|
      ensures u.lower(s[i]) == l[i]
    {
      assert InTables(s[i]);
    }
  }

  lemma DiedNoQuestion(l: string)
    requires l == "коли помер майкл джексон?"
    ensures NoPairs(WhatisAlts, l)
    ensures forall i :: 1 <= i < |l| ==> NoPair(BirthdayAlts, l, i)
  {
    NoPairsByHeads(WhatisAlts, l, "шщх");
  }

  /** No birth alternative fits at the start: "коли помер" parts from "коли народи" at its sixth letter. */
  lemma DiedNotBorn(u: Unicode, s: string, cls: Class)
    requires StandardTables(u) && s == "Коли помер Майкл Джексон?"
    ensures MatchAt(u, Keyed(BirthdayAlts, true, cls), s, 0).None?
  {
    assert InTables(s[0]) && InTables(s[5]) && InTables('д') && InTables('н');
    forall k | 0 <= k < |BirthdayAlts|
      ensures !LitAt(u, true, s, 0, BirthdayAlts[k])
    {
      if LitAt(u, true, s, 0, BirthdayAlts[k]) {
        LitAtChar(u, true, s, 0, BirthdayAlts[k], 0);
        LitAtChar(u, true, s, 0, BirthdayAlts[k], 5);
      }
    }
    FirstAltSpec(u, true, cls, BirthdayAlts, s, 0);
  }

  /** "коли померла " does not fit: the message has a space where it has "л". */
  lemma DiedNotFemale(u: Unicode, s: string)
    requires StandardTables(u) && s == "Коли помер Майкл Джексон?"
    ensures !LitAt(u, true, s, 0, DeathdayAlts[0])
  {
    assert InTables(s[10]) && InTables('л');
    NotLitAt(u, true, s, 0, DeathdayAlts[0], 10);
  }

  /** "коли помер " is lowercase and begins the lowercased message. */
  lemma DiedAltLowered(u: Unicode, l: string)
    requires StandardTables(u) && l == "коли помер майкл джексон?"
    ensures SubAt(l, 0, DeathdayAlts[1]) && LowerFixed(u, DeathdayAlts[1])
  {
    var a := DeathdayAlts[1];
    assert l[0..11] == a;
    assert forall k :: 0 <= k < 11 ==> InTables(a[k]);
  }

  /** Of the death alternatives, "коли помер " is the first to fit. */
  lemma DiedFirstAlt(u: Unicode, s: string)
    requires StandardTables(u) && s == "Коли помер Майкл Джексон?"
    ensures FirstAlt(u, true, AnyButNewline, DeathdayAlts, s, 0) == Some("коли помер ")
  {
    var l := "коли помер майкл джексон?";
    DiedLowered(u, s, l);
    DiedNotFemale(u, s);
    DiedAltLowered(u, l);
    FirstAltLowered(u, AnyButNewline, DeathdayAlts, s, l, 0, 1);
  }

  /** Rules before DEATHDAY find nothing in the death example. */
  lemma DiedEarlierNone(u: Unicode, s: string)
    requires StandardTables(u) && s == "Коли помер Майкл Джексон?"
    ensures FindAll(u, Keyed(WhatisAlts, true, WordOrSpace), s) == []
    ensures FindAll(u, Bracketed, s) == []
    ensures FindAll(u, Keyed(BirthdayAlts, true, WordOrSpace), s) == []
  {
    DiedWhatisNone(u, s);
    DiedBracketNone(u, s);
    DiedBirthNone(u, s);
  }

  /** The death example has no link. */
  lemma DiedBracketNone(u: Unicode, s: string)
    requires s == "Коли помер Майкл Джексон?"
    ensures FindAll(u, Bracketed, s) == []
  {
    assert forall i :: 0 <= i < |s| ==> s[i] != '[';
    BracketedNone(u, s);
  }

  /** The WHATIS rule finds nothing in the death example. */
  lemma DiedWhatisNone(u: Unicode, s: string)
    requires StandardTables(u) && s == "Коли помер Майкл Джексон?"
    ensures FindAll(u, Keyed(WhatisAlts, true, WordOrSpace), s) == []
  {
    var l := "коли помер майкл джексон?";
    DiedLowered(u, s, l);
    DiedNoQuestion(l);
    HeadsLower(u, WhatisAlts);
    KeyedNoneLowered(u, WhatisAlts, WordOrSpace, s, l);
  }

  /** The BIRTHDAY rule finds nothing in the death example. */
  lemma DiedBirthNone(u: Unicode, s: string)
    requires StandardTables(u) && s == "Коли помер Майкл Джексон?"
    ensures FindAll(u, Keyed(BirthdayAlts, true, WordOrSpace), s) == []
  {
    var l := "коли помер майкл джексон?";
    DiedLowered(u, s, l);
    DiedNoQuestion(l);
    HeadsLower(u, BirthdayAlts);
    DiedNotBorn(u, s, WordOrSpace);
    KeyedNoneLoweredFrom(u, BirthdayAlts, WordOrSpace, s, l, 1);
  }

  /** The death rule captures the rest of the line, question mark included. */
  lemma DiedRule(u: Unicode, s: string)
    requires StandardTables(u) && s == "Коли помер Майкл Джексон?"
    ensures FindAll(u, Keyed(DeathdayAlts, true, AnyButNewline), s) == ["Майкл Джексон?"]
  {
    DiedFirstAlt(u, s);
    DiedTail(s);
    KeyedToEnd(u, DeathdayAlts, true, s, "коли помер ");
  }

  /** After "Коли помер " the death example is one line. */
  lemma DiedTail(s: string)
    requires s == "Коли помер Майкл Джексон?"
    ensures forall t :: |"коли помер "| <= t < |s| ==> s[t] != '\n'
    ensures s[|"коли помер "|..] == "Майкл Джексон?"
  {
  }

  /** "Коли помер Майкл Джексон?": the greedy `(.+)` group keeps the question mark. */
  lemma DiedExample(u: Unicode, s: string)
    requires StandardTables(u) && s == "Коли помер Майкл Джексон?"
    ensures Route(u, s) == Some((DEATHDAY, Some(["Майкл Джексон?"])))
  {
    DiedEarlierNone(u, s);
    DiedRule(u, s);
    DeathdayRoute(u, s);
  }

  /** A message the first three rules miss and the death rule catches is a death-date request. */
  lemma DeathdayRoute(u: Unicode, message: string)
    requires FindAll(u, Keyed(WhatisAlts, true, WordOrSpace), message) == []
    requires FindAll(u, Bracketed, message) == []
    requires FindAll(u, Keyed(BirthdayAlts, true, WordOrSpace), message) == []
    requires FindAll(u, Keyed(DeathdayAlts, true, AnyButNewline), message) != []
    ensures Route(u, message) == Some((DEATHDAY, Some(FindAll(u, Keyed(DeathdayAlts, true, AnyButNewline), message))))
  {
    RouteFirst(u, Rules, message, 3);
  }
}
