/**
 * `MessageParser` of parser.py, the first version of the router: a fixed
 * if/elif chain of tests, handlers that answer the first match only, and
 * generator handlers for links and questions.
 *
 * The handlers for birthdays, death dates, coordinates and images call
 * `get_gender`, `get_deathday`, `get_coords` and `get_images_genitive` on a
 * `WikipediaParser`, which has none of them. `Handle` models the code as
 * written (these intents always raise AttributeError); `HandleIntended`
 * takes the lookups from the newer `WikiManager`, which does implement them.
 */
module LegacyParser {
  import opened Wrappers
  import opened Text
  import opened Patterns
  import opened External
  import WikiManager
  import LegacyWiki
  import MessageParser

  // ---------------------------------------------------------------------------
  // Intents

  datatype Messages = WIKI | UKWIKIBOT | WHATIS | LINK | RANDOM | HELP | BIRTHDAY | DEATHDAY | COORDS | IMAGE

  /** The name half of each member's value: it names the handler `get_<name>_message`. */
  function Name(m: Messages): string
  {
    match m
    case WIKI => "wiki"
    case UKWIKIBOT => "ukwikibot"
    case WHATIS => "whatis"
    case LINK => "link"
    case RANDOM => "random"
    case HELP => "help"
    case BIRTHDAY => "birthday"
    case DEATHDAY => "deathday"
    case COORDS => "coords"
    case IMAGE => "image"
  }

  /** The kind half of each member's value. */
  function KindOf(m: Messages): (k: MessageParser.MessageType)
    ensures k == MessageParser.COORDS <==> m == COORDS
    ensures k == MessageParser.IMAGE <==> m == IMAGE
    ensures k == MessageParser.TEXT <==> m !in {COORDS, IMAGE}
  {
    match m
    case COORDS => MessageParser.COORDS
    case IMAGE => MessageParser.IMAGE
    case _ => MessageParser.TEXT
  }

  /** Every intent has a handler of its own name. */
  lemma NamesDistinct(a: Messages, b: Messages)
    ensures Name(a) == Name(b) ==> a == b
  {
  }

  // ---------------------------------------------------------------------------
  // Routing

  /** `[шщШЩ]о таке |[Хх]то такий |[Хх]то так[аіе] `, case-sensitive, in backtracking order. */
  const WhatisAlts: seq<string> := [
    "шо таке ", "що таке ", "Шо таке ", "Що таке ",
    "хто такий ", "Хто такий ",
    "хто така ", "хто такі ", "хто таке ", "Хто така ", "Хто такі ", "Хто таке "]
  const DeathdayAlts: seq<string> := ["коли помер ", "дата смерті "]
  const ImageAlts: seq<string> := ["знайди фото ", "знайди зображення "]
  /** The fifth alternative, "де знаходиться", has no trailing space in the source. */
  const CoordsAlts: seq<string> := ["де розташований ", "де розташована ", "де розташоване ", "де розташовані ", "де знаходиться", "координати "]

  /** The first test: "!вікі" or "!wiki" anywhere in any letter case, or the whole message "/wiki". */
  predicate WikiTest(u: Unicode, message: string)
  {
    (exists i :: 0 <= i < |message| && (LitAt(u, true, message, i, "!вікі") || LitAt(u, true, message, i, "!wiki")))
    || Strip(u, Lower(u, message)) == "/wiki"
  }

  /** Tests three to eight of the chain: the `re.findall` tests, in order. */
  const PatternRules: seq<(Messages, Pattern)> := [
    (LINK, Bracketed),
    (WHATIS, Keyed(WhatisAlts, false, AnyButNewline)),
    (BIRTHDAY, Keyed(MessageParser.BirthdayAlts, true, AnyButNewline)),
    (DEATHDAY, Keyed(DeathdayAlts, true, AnyButNewline)),
    (IMAGE, Keyed(ImageAlts, true, AnyButNewline)),
    (COORDS, Keyed(CoordsAlts, true, AnyButNewline))
  ]

  /** The first findall test from `n` on whose list is not empty, with that list. */
  function FirstPattern(u: Unicode, rules: seq<(Messages, Pattern)>, message: string, n: nat): (r: Option<(Messages, seq<string>)>)
    ensures r.Some? ==> r.value.1 != []
    decreases |rules| - n
  {
    if n >= |rules| then None
    else
      var matches := FindAll(u, rules[n].1, message);
      if matches != [] then Some((rules[n].0, matches)) else FirstPattern(u, rules, message, n + 1)
  }

  /** The findall tests are silent exactly when each of them finds nothing. */
  lemma {:induction false} FirstPatternNoneIff(u: Unicode, rules: seq<(Messages, Pattern)>, message: string, n: nat)
    requires n <= |rules|
    ensures FirstPattern(u, rules, message, n).None? <==> forall j :: n <= j < |rules| ==> FindAll(u, rules[j].1, message) == []
    decreases |rules| - n
  {
    if n < |rules| && FindAll(u, rules[n].1, message) == [] {
      FirstPatternNoneIff(u, rules, message, n + 1);
    }
  }

  /** The first test that finds something decides, with its own list. */
  lemma {:induction false} FirstPatternAt(u: Unicode, rules: seq<(Messages, Pattern)>, message: string, m: nat, n: nat)
    requires m <= n < |rules| && FindAll(u, rules[n].1, message) != []
    requires forall j :: m <= j < n ==> FindAll(u, rules[j].1, message) == []
    ensures FirstPattern(u, rules, message, m) == Some((rules[n].0, FindAll(u, rules[n].1, message)))
    decreases n - m
  {
    if m < n {
      FirstPatternAt(u, rules, message, m + 1, n);
    }
  }

  /** The last two tests: the stripped, lowercased message as a slash command. */
  function CommandRoute(command: string): Option<(Messages, Option<seq<string>>)>
  {
    if command == "/random" then Some((RANDOM, None))
    else if command in {"/start", "/help"} then Some((HELP, None))
    else None
  }

  /** What `get_matches` returns; `None` when no test fires. */
  type Routed = Option<(Messages, Option<seq<string>>)>

  /** `get_matches`: the chain of tests, in the order of the source. */
  function Route(u: Unicode, message: string): Routed
  {
    if WikiTest(u, message) then Some((WIKI, None))
    else if Contains(Lower(u, message), "@ukwikibot") then Some((UKWIKIBOT, None))
    else match FirstPattern(u, PatternRules, message, 0)
      case Some((m, matches)) => Some((m, Some(matches)))
      case None => CommandRoute(Strip(u, Lower(u, message)))
  }

  /** None of the six findall tests finds anything. */
  predicate PatternsSilent(u: Unicode, message: string)
  {
    FirstPattern(u, PatternRules, message, 0).None?
  }

  /** The wiki test wins over everything. */
  lemma WikiFirst(u: Unicode, message: string)
    requires WikiTest(u, message)
    ensures Route(u, message) == Some((WIKI, None))
  {
  }

  /** A mention beats every link and every question: it is tested second. */
  lemma MentionBeatsPatterns(u: Unicode, message: string)
    requires !WikiTest(u, message) && Contains(Lower(u, message), "@ukwikibot")
    ensures Route(u, message) == Some((UKWIKIBOT, None))
  {
  }

  /**
   * The slash commands are recognised only when no earlier test fired, and
   * then exactly when the stripped, lowercased message is the command.
   */
  lemma CommandsLast(u: Unicode, message: string)
    ensures Route(u, message) == Some((RANDOM, None)) <==>
              !WikiTest(u, message) && !Contains(Lower(u, message), "@ukwikibot") && PatternsSilent(u, message)
              && Strip(u, Lower(u, message)) == "/random"
    ensures Route(u, message) == Some((HELP, None)) <==>
              !WikiTest(u, message) && !Contains(Lower(u, message), "@ukwikibot") && PatternsSilent(u, message)
              && Strip(u, Lower(u, message)) in {"/start", "/help"}
  {
  }

  /** Nothing is routed exactly when no test fires. */
  lemma RouteNoneIff(u: Unicode, message: string)
    ensures Route(u, message).None? <==>
              !WikiTest(u, message) && !Contains(Lower(u, message), "@ukwikibot")
              && (forall j :: 0 <= j < |PatternRules| ==> FindAll(u, PatternRules[j].1, message) == [])
              && Strip(u, Lower(u, message)) !in {"/random", "/start", "/help"}
  {
    FirstPatternNoneIff(u, PatternRules, message, 0);
  }

  /** A routed argument list is a non-empty findall list; the intents without a findall test carry none. */
  lemma RoutedArgs(u: Unicode, message: string)
    requires Route(u, message).Some?
    ensures var (m, args) := Route(u, message).value;
            (m in {WIKI, UKWIKIBOT, RANDOM, HELP} <==> args.None?) && (args.Some? ==> args.value != [])
  {
    if !WikiTest(u, message) && !Contains(Lower(u, message), "@ukwikibot") {
      FirstPatternIntents(u, PatternRules, message, 0);
    }
  }

  /** The findall tests route only to intents of their own. */
  lemma {:induction false} FirstPatternIntents(u: Unicode, rules: seq<(Messages, Pattern)>, message: string, n: nat)
    requires forall j :: 0 <= j < |rules| ==> rules[j].0 !in {WIKI, UKWIKIBOT, RANDOM, HELP}
    ensures FirstPattern(u, rules, message, n).Some? ==> FirstPattern(u, rules, message, n).value.0 !in {WIKI, UKWIKIBOT, RANDOM, HELP}
    decreases |rules| - n
  {
    if n < |rules| && FindAll(u, rules[n].1, message) == [] {
      FirstPatternIntents(u, rules, message, n + 1);
    }
  }

  // ---------------------------------------------------------------------------
  // Replies

  /** What a first-match handler returns: a string or a coordinate pair. */
  datatype Output = Text(text: string) | Place(coordinate: Coordinate)

  /**
   * A handler's result: one value, or what iterating a generator produces
   * (the items it yields, then the exception that stops it, if any).
   */
  datatype Reply = Single(value: Option<Output>) | Stream(items: seq<Option<string>>, failure: Option<Exc>)

  /** The generator of `get_link_message`, run to its end: one decoded URL per title answered with 200. */
  function LinkStream(env: MessageParser.Env, titles: seq<string>): (seq<Option<string>>, Option<Exc>)
    decreases |titles|
  {
    if titles == [] then ([], None)
    else match env.http(MessageParser.LinkUrl(titles[0]))
      case Err(e) => ([], Some(e))
      case Ok(response) =>
        var rest := LinkStream(env, titles[1..]);
        ((if response.status == 200 then [Some(env.wiki.unquote(response.url))] else []) + rest.0, rest.1)
  }

  /** `get_link_message`: the request loop, yielding as it goes and stopping at the first request that raises. */
  method LinkMessages(env: MessageParser.Env, titles: seq<string>) returns (items: seq<Option<string>>, failure: Option<Exc>)
    ensures (items, failure) == LinkStream(env, titles)
  {
    items := [];
    assert titles[0..] == titles;
    assert [] + LinkStream(env, titles).0 == LinkStream(env, titles).0;
    for i := 0 to |titles|
      invariant LinkStream(env, titles) == (items + LinkStream(env, titles[i..]).0, LinkStream(env, titles[i..]).1)
    {
      assert titles[i..][1..] == titles[i + 1..];
      var rest := LinkStream(env, titles[i + 1..]);
      var response := env.http(MessageParser.LinkUrl(titles[i]));
      if response.Err? {
        assert LinkStream(env, titles[i..]) == ([], Some(response.error));
        assert items + [] == items;
        return items, Some(response.error);
      }
      var head := if response.value.status == 200 then [Some(env.wiki.unquote(response.value.url))] else [];
      assert LinkStream(env, titles[i..]) == (head + rest.0, rest.1);
      assert items + (head + rest.0) == (items + head) + rest.0;
      if response.value.status == 200 {
        items := items + [Some(env.wiki.unquote(response.value.url))];
      } else {
        assert items + head == items;
      }
    }
    assert titles[|titles|..] == [];
    assert items + [] == items;
    failure := None;
  }

  /** Running the generator over two runs of titles: the second run starts only if the first ends cleanly. */
  lemma {:induction false} LinkStreamConcat(env: MessageParser.Env, a: seq<string>, b: seq<string>)
    ensures LinkStream(env, a + b) ==
              if LinkStream(env, a).1.Some? then LinkStream(env, a)
              else (LinkStream(env, a).0 + LinkStream(env, b).0, LinkStream(env, b).1)
    decreases |a|
  {
    if a == [] {
      assert a + b == b;
      assert LinkStream(env, a) == ([], None);
      assert [] + LinkStream(env, b).0 == LinkStream(env, b).0;
    } else {
      assert (a + b)[0] == a[0] && (a + b)[1..] == a[1..] + b;
      LinkStreamConcat(env, a[1..], b);
      if env.http(MessageParser.LinkUrl(a[0])).Ok? && LinkStream(env, a[1..]).1.None? {
        var head := if env.http(MessageParser.LinkUrl(a[0])).value.status == 200
                    then [Some(env.wiki.unquote(env.http(MessageParser.LinkUrl(a[0])).value.url))] else [];
        assert head + (LinkStream(env, a[1..]).0 + LinkStream(env, b).0)
            == (head + LinkStream(env, a[1..]).0) + LinkStream(env, b).0;
      }
    }
  }

  /** The generator stops at the first title whose request raises; what it yielded before survives. */
  lemma LinkStreamStops(env: MessageParser.Env, titles: seq<string>, k: nat)
    requires k < |titles| && env.http(MessageParser.LinkUrl(titles[k])).Err?
    requires LinkStream(env, titles[..k]).1.None?
    ensures LinkStream(env, titles) == (LinkStream(env, titles[..k]).0, Some(env.http(MessageParser.LinkUrl(titles[k])).error))
  {
    assert titles == titles[..k] + titles[k..];
    LinkStreamConcat(env, titles[..k], titles[k..]);
    assert titles[k..][0] == titles[k];
    assert LinkStream(env, titles[k..]) == ([], Some(env.http(MessageParser.LinkUrl(titles[k])).error));
    assert LinkStream(env, titles[..k]).0 + [] == LinkStream(env, titles[..k]).0;
  }

  /** With every title answered with 200, the reply is each title's decoded final URL, in order. */
  lemma {:induction false} LinkStreamAll200(env: MessageParser.Env, titles: seq<string>)
    requires forall k :: 0 <= k < |titles| ==>
               env.http(MessageParser.LinkUrl(titles[k])).Ok? && env.http(MessageParser.LinkUrl(titles[k])).value.status == 200
    ensures LinkStream(env, titles).1.None? && |LinkStream(env, titles).0| == |titles|
    ensures forall k :: 0 <= k < |titles| ==>
              LinkStream(env, titles).0[k] == Some(env.wiki.unquote(env.http(MessageParser.LinkUrl(titles[k])).value.url))
    decreases |titles|
  {
    if titles != [] {
      var rest := titles[1..];
      assert forall k :: 0 <= k < |rest| ==> rest[k] == titles[k + 1];
      LinkStreamAll200(env, rest);
    }
  }

  /**
   * A page that answers with a status other than 200 and 404 (a server
   * error, say) gets a reply from the newer handler but none from this one.
   */
  lemma LinkStatusDiffers(env: MessageParser.Env, title: string, response: HttpResponse)
    requires env.http(MessageParser.LinkUrl(title)) == Ok(response) && response.status != 200 && response.status != 404
    ensures MessageParser.LinkStep(env, title) == Ok([MessageParser.Str(env.wiki.unquote(response.url))])
    ensures LinkStream(env, [title]) == ([], None)
  {
    assert [title][1..] == [];
    assert LinkStream(env, []) == ([], None);
    var none: seq<Option<string>> := [];
    assert none + none == [];
  }

  /** The generator of `get_whatis_message`: one search summary per query. */
  function WhatisStream(w: Wiki, queries: seq<string>): seq<Option<string>>
  {
    seq(|queries|, k requires 0 <= k < |queries| => LegacyWiki.Search(w, queries[k]))
  }

  /** `get_whatis_message`: the search loop, one item per query, `None` where no title matches. */
  method WhatisMessages(w: Wiki, queries: seq<string>) returns (items: seq<Option<string>>)
    ensures |items| == |queries|
    ensures forall k :: 0 <= k < |queries| ==> items[k] == LegacyWiki.Search(w, queries[k])
    ensures forall k :: 0 <= k < |queries| ==> (items[k].None? <==> w.titleSearch(queries[k]).None?)
  {
    items := [];
    for i := 0 to |queries|
      invariant |items| == i
      invariant forall k :: 0 <= k < i ==> items[k] == LegacyWiki.Search(w, queries[k])
    {
      items := items + [LegacyWiki.Search(w, queries[i])];
    }
  }

  /** `image_url.split('/')[-1]`: the part after the last `/`. */
  function LastSegment(url: string): (r: string)
    ensures |r| <= |url| && r == url[|url| - |r|..]
    ensures forall k :: 0 <= k < |r| ==> r[k] != '/'
    ensures |r| < |url| ==> url[|url| - |r| - 1] == '/'
    decreases |url|
  {
    if url == [] || url[|url| - 1] == '/' then []
    else LastSegment(url[..|url| - 1]) + [url[|url| - 1]]
  }

  /** The file an image is saved to: `os.path.join('tmp', …)` of its last URL segment. */
  function ImageFile(url: string): string
  {
    "tmp/" + LastSegment(url)
  }

  /** The intents whose handler looks up the first match only. */
  predicate FirstMatchIntent(m: Messages)
  {
    m in {BIRTHDAY, DEATHDAY, COORDS, IMAGE}
  }

  /**
   * The handlers as written. The four first-match intents return `None`
   * without a match and otherwise call a method `WikipediaParser` lacks.
   */
  function Handle(env: MessageParser.Env, m: Messages, matches: Option<seq<string>>): (r: Result<Reply, Exc>)
    ensures FirstMatchIntent(m) ==> (r.Err? <==> matches.Some? && matches.value != [])
  {
    match m
    case WIKI => Ok(Single(Some(Text("https://uk.wikipedia.org"))))
    case UKWIKIBOT => Ok(Single(Some(Text("Га?"))))
    case RANDOM => Ok(Single(match LegacyWiki.Random(env.wiki) case Some(s) => Some(Text(s)) case None => None))
    case HELP => Ok(Single(Some(Text(env.helpText))))
    case LINK =>
      (match matches
       case None => Ok(Stream([], Some(TypeError)))
       case Some(titles) => var (items, failure) := LinkStream(env, titles); Ok(Stream(items, failure)))
    case WHATIS =>
      (match matches
       case None => Ok(Stream([], Some(TypeError)))
       case Some(queries) => Ok(Stream(WhatisStream(env.wiki, queries), None)))
    case _ => if matches.None? || matches.value == [] then Ok(Single(None)) else Err(AttributeError)
  }

  /** The intended first-match handlers, with each missing lookup taken from `WikiManager`. */
  function FirstMatchStep(env: MessageParser.Env, m: Messages, query: string): Result<Option<Output>, Exc>
  {
    var w := env.wiki;
    var page := LegacyWiki.SearchPage(w, query);
    match m
    case BIRTHDAY =>
      (match WikiManager.Gender(w, page)
       case Err(e) => Err(e)
       case Ok(gender) =>
         match LegacyWiki.Birthday(w, page)
         case Err(e) => Err(e)
         case Ok(date) =>
           if MessageParser.Truthy(date) then Ok(Some(Text(page.value.title + " " + MessageParser.BornVerb(gender) + " " + date.value)))
           else Ok(None))
    case DEATHDAY =>
      (match WikiManager.Deathday(w, page)
       case Err(e) => Err(e)
       case Ok(date) =>
         if MessageParser.Truthy(date) then Ok(Some(Text(page.value.title + " помер " + date.value))) else Ok(None))
    case COORDS =>
      (match WikiManager.Coords(w, page)
       case Err(e) => Err(e)
       case Ok(c) => Ok(match c case Some(x) => Some(Place(x)) case None => None))
    case IMAGE =>
      (match WikiManager.ImagesGenitive(w, query)
       case Err(e) => Err(e)
       case Ok(info) =>
         if MessageParser.Truthy(info.url) then
           match env.http(info.url.value)
           case Err(e) => Err(e)
           case Ok(response) => Ok(if response.status == 200 then Some(Text(ImageFile(info.url.value))) else None)
         else Ok(None))
    case _ => Ok(None)
  }

  /** The handlers as evidently intended: the first-match intents answer their first match. */
  function HandleIntended(env: MessageParser.Env, m: Messages, matches: Option<seq<string>>): Result<Reply, Exc>
  {
    if FirstMatchIntent(m) && matches.Some? && matches.value != [] then
      match FirstMatchStep(env, m, matches.value[0])
      case Err(e) => Err(e)
      case Ok(o) => Ok(Single(o))
    else Handle(env, m, matches)
  }

  /** `get_response`: unpacking a `None` route raises TypeError; `intended` picks the handlers. */
  function Response(env: MessageParser.Env, message: string, intended: bool): Result<(Reply, MessageParser.MessageType), Exc>
  {
    Answer(env, Route(env.wiki.u, message), intended)
  }

  /** What `get_response` returns for the outcome of the tests. */
  function Answer(env: MessageParser.Env, route: Option<(Messages, Option<seq<string>>)>, intended: bool): Result<(Reply, MessageParser.MessageType), Exc>
  {
    match route
    case None => Err(TypeError)
    case Some((m, matches)) =>
      match (if intended then HandleIntended(env, m, matches) else Handle(env, m, matches))
      case Err(e) => Err(e)
      case Ok(reply) => Ok((reply, KindOf(m)))
  }

  /** A message no test recognises makes `get_response` fail. */
  lemma NoRouteTypeError(env: MessageParser.Env, message: string, intended: bool)
    requires Route(env.wiki.u, message).None?
    ensures Response(env, message, intended) == Err(TypeError)
  {
  }

  /** As written, every birthday, death-date, coordinate and image request raises AttributeError. */
  lemma LookupsFail(env: MessageParser.Env, message: string)
    requires Route(env.wiki.u, message).Some? && FirstMatchIntent(Route(env.wiki.u, message).value.0)
    ensures Response(env, message, false) == Err(AttributeError)
  {
    RoutedArgs(env.wiki.u, message);
    var (m, matches) := Route(env.wiki.u, message).value;
    assert matches.Some? && matches.value != [];
    assert Handle(env, m, matches).Err?;
  }

  /** The intended first-match handlers answer the first match and ignore the rest. */
  lemma FirstMatchOnly(env: MessageParser.Env, m: Messages, args: seq<string>)
    requires FirstMatchIntent(m) && args != []
    ensures HandleIntended(env, m, Some(args)) == HandleIntended(env, m, Some([args[0]]))
    ensures HandleIntended(env, m, Some(args)).Ok? ==> HandleIntended(env, m, Some(args)).value.Single?
  {
  }

  /** A birth line names the page, agrees with the gender, and appears exactly when there is a date. */
  lemma BirthdayLine(env: MessageParser.Env, query: string)
    requires FirstMatchStep(env, BIRTHDAY, query).Ok?
    ensures var page := env.wiki.titleSearch(query);
            var gender := WikiManager.Gender(env.wiki, page).value;
            var date := LegacyWiki.Birthday(env.wiki, page).value;
            page.Some?
            && (FirstMatchStep(env, BIRTHDAY, query).value.Some? <==> MessageParser.Truthy(date))
            && (MessageParser.Truthy(date) ==>
                  FirstMatchStep(env, BIRTHDAY, query).value == Some(Text(page.value.title + " " + MessageParser.BornVerb(gender) + " " + date.value)))
            && (MessageParser.BornVerb(gender) == "народилась" <==> gender == "female")
  {
  }

  /** A death line always says "помер", whatever the gender; it appears exactly when there is a date. */
  lemma DeathdayLine(env: MessageParser.Env, query: string)
    requires FirstMatchStep(env, DEATHDAY, query).Ok?
    ensures var page := env.wiki.titleSearch(query);
            var date := WikiManager.Deathday(env.wiki, page).value;
            (FirstMatchStep(env, DEATHDAY, query).value.Some? <==> MessageParser.Truthy(date))
            && (MessageParser.Truthy(date) ==>
                  page.Some? && FirstMatchStep(env, DEATHDAY, query).value == Some(Text(page.value.title + " помер " + date.value)))
  {
  }

  /** An image is saved, under its last URL segment in `tmp`, exactly when its URL answers with 200. */
  lemma ImageSaved(env: MessageParser.Env, query: string)
    requires FirstMatchStep(env, IMAGE, query).Ok?
    ensures var info := WikiManager.ImagesGenitive(env.wiki, query).value;
            (FirstMatchStep(env, IMAGE, query).value.Some? <==>
               MessageParser.Truthy(info.url) && env.http(info.url.value).value.status == 200)
            && (FirstMatchStep(env, IMAGE, query).value.Some? ==>
                  FirstMatchStep(env, IMAGE, query).value == Some(Text(ImageFile(info.url.value)))
                  && forall k :: 0 <= k < |LastSegment(info.url.value)| ==> LastSegment(info.url.value)[k] != '/')
  {
  }

  // ---------------------------------------------------------------------------
  // Examples, with Python's tables for lowercase and whitespace

  /** The first three tests fail on a message without `!`, `@` and `[` that does not start with `/`. */
  lemma QuietStart(u: Unicode, s: string, l: string)
    requires LowersTo(u, s, l) && u.lower('!') == '!'
    requires s != [] && !u.isSpace(l[0]) && l[0] != '/'
    requires forall i :: 0 <= i < |s| ==> s[i] != '!' && l[i] != '!' && l[i] != '@' && s[i] != '['
    ensures !WikiTest(u, s) && !Contains(Lower(u, s), "@ukwikibot") && FindAll(u, Bracketed, s) == []
  {
    LowerIs(u, s, l);
    forall i | 0 <= i < |s|
      ensures !LitAt(u, true, s, i, "!вікі") && !LitAt(u, true, s, i, "!wiki")
    {
      NotLitAt(u, true, s, i, "!вікі", 0);
      NotLitAt(u, true, s, i, "!wiki", 0);
    }
    StripFirst(u, l);
    NotContainsHead(l, "@ukwikibot");
    BracketedNone(u, s);
  }

  /** The wiki and mention tests and the link test are quiet on "Коли помер Майкл Джексон?". */
  lemma DiedQuiet(u: Unicode, s: string)
    requires StandardTables(u) && s == "Коли помер Майкл Джексон?"
    ensures !WikiTest(u, s) && !Contains(Lower(u, s), "@ukwikibot") && FindAll(u, Bracketed, s) == []
  {
    var l := "коли помер майкл джексон?";
    MessageParser.DiedLowered(u, s, l);
    assert InTables('!') && InTables(l[0]);
    QuietStart(u, s, l);
  }

  lemma DiedNoWhatis(s: string)
    requires s == "Коли помер Майкл Джексон?"
    ensures NoPairs(WhatisAlts, s)
  {
    NoPairsByHeads(WhatisAlts, s, "шщШЩхХ");
  }

  /** No birth alternative fits anywhere in "Коли помер Майкл Джексон?". */
  lemma DiedNotBorn(u: Unicode, s: string)
    requires StandardTables(u) && s == "Коли помер Майкл Джексон?"
    ensures FindAll(u, Keyed(MessageParser.BirthdayAlts, true, AnyButNewline), s) == []
  {
    var l := "коли помер майкл джексон?";
    MessageParser.DiedLowered(u, s, l);
    MessageParser.HeadsLower(u, MessageParser.BirthdayAlts);
    MessageParser.DiedNoQuestion(l);
    MessageParser.DiedNotBorn(u, s, AnyButNewline);
    KeyedNoneLoweredFrom(u, MessageParser.BirthdayAlts, AnyButNewline, s, l, 1);
  }

  /** The first three findall tests find nothing in "Коли помер Майкл Джексон?", nor do the first two tests. */
  lemma DiedEarlierNone(u: Unicode, s: string)
    requires StandardTables(u) && s == "Коли помер Майкл Джексон?"
    ensures !WikiTest(u, s) && !Contains(Lower(u, s), "@ukwikibot")
    ensures FindAll(u, Bracketed, s) == []
    ensures FindAll(u, Keyed(WhatisAlts, false, AnyButNewline), s) == []
    ensures FindAll(u, Keyed(MessageParser.BirthdayAlts, true, AnyButNewline), s) == []
  {
    DiedQuiet(u, s);
    DiedNoWhatis(s);
    KeyedNoneExact(u, WhatisAlts, AnyButNewline, s);
    DiedNotBorn(u, s);
  }

  /** "коли помер ", the first death alternative, fits at the start. */
  lemma DiedFirstAlt(u: Unicode, s: string)
    requires StandardTables(u) && s == "Коли помер Майкл Джексон?"
    ensures FirstAlt(u, true, AnyButNewline, DeathdayAlts, s, 0) == Some("коли помер ")
  {
    var l := "коли помер майкл джексон?";
    MessageParser.DiedLowered(u, s, l);
    MessageParser.DiedAltLowered(u, l);
    assert DeathdayAlts[0] == MessageParser.DeathdayAlts[1];
    FirstAltLowered(u, AnyButNewline, DeathdayAlts, s, l, 0, 0);
  }

  /** The death test captures the rest of the line, question mark included. */
  lemma DiedRule(u: Unicode, s: string)
    requires StandardTables(u) && s == "Коли помер Майкл Джексон?"
    ensures FindAll(u, Keyed(DeathdayAlts, true, AnyButNewline), s) == ["Майкл Джексон?"]
  {
    DiedFirstAlt(u, s);
    MessageParser.DiedTail(s);
    KeyedToEnd(u, DeathdayAlts, true, s, "коли помер ");
  }

  /** A message that passes the first two tests goes to the first findall test that finds something. */
  lemma PatternRoute(u: Unicode, message: string)
    requires !WikiTest(u, message) && !Contains(Lower(u, message), "@ukwikibot")
    requires FirstPattern(u, PatternRules, message, 0).Some?
    ensures Route(u, message) == Some((FirstPattern(u, PatternRules, message, 0).value.0, Some(FirstPattern(u, PatternRules, message, 0).value.1)))
  {
  }

  /** When the link, WHATIS and birth tests are silent and the death test is not, the death test decides. */
  lemma DeathdayFirst(u: Unicode, message: string)
    requires FindAll(u, Bracketed, message) == []
    requires FindAll(u, Keyed(WhatisAlts, false, AnyButNewline), message) == []
    requires FindAll(u, Keyed(MessageParser.BirthdayAlts, true, AnyButNewline), message) == []
    requires FindAll(u, Keyed(DeathdayAlts, true, AnyButNewline), message) != []
    ensures FirstPattern(u, PatternRules, message, 0) == Some((DEATHDAY, FindAll(u, Keyed(DeathdayAlts, true, AnyButNewline), message)))
  {
    var rules := PatternRules;
    assert FirstPattern(u, rules, message, 3) == Some((DEATHDAY, FindAll(u, Keyed(DeathdayAlts, true, AnyButNewline), message)));
    assert FirstPattern(u, rules, message, 2) == FirstPattern(u, rules, message, 3);
    assert FirstPattern(u, rules, message, 1) == FirstPattern(u, rules, message, 2);
  }

  /** "Коли помер Майкл Джексон?" is a death-date question about "Майкл Джексон?". */
  lemma DiedExample(u: Unicode, s: string)
    requires StandardTables(u) && s == "Коли помер Майкл Джексон?"
    ensures Route(u, s) == Some((DEATHDAY, Some(["Майкл Джексон?"])))
  {
    DiedEarlierNone(u, s);
    DiedRule(u, s);
    DeathdayFirst(u, s);
    PatternRoute(u, s);
  }

  /**
   * As written, the death-date question fails with AttributeError; as
   * intended, it looks up its first match, question mark and all.
   */
  lemma DiedResponse(env: MessageParser.Env, s: string)
    requires StandardTables(env.wiki.u) && s == "Коли помер Майкл Джексон?"
    ensures Response(env, s, false) == Err(AttributeError)
    ensures Response(env, s, true) ==
              match FirstMatchStep(env, DEATHDAY, "Майкл Джексон?")
              case Err(e) => Err(e)
              case Ok(o) => Ok((Single(o), MessageParser.TEXT))
  {
    DiedExample(env.wiki.u, s);
    LookupsFail(env, s);
    IntendedFirstMatch(env, DEATHDAY, ["Майкл Джексон?"]);
  }

  /** As intended, a routed first-match request answers its first match in the request's kind. */
  lemma IntendedFirstMatch(env: MessageParser.Env, m: Messages, args: seq<string>)
    requires FirstMatchIntent(m) && args != []
    ensures Answer(env, Some((m, Some(args))), true) ==
              match FirstMatchStep(env, m, args[0])
              case Err(e) => Err(e)
              case Ok(o) => Ok((Single(o), KindOf(m)))
  {
  }

  /** "Що таке Головна сторінка?" lowercased, and the last three tests quiet on it. */
  lemma MainPageQuiet(u: Unicode, s: string)
    requires StandardTables(u) && s == "Що таке Головна сторінка?"
    ensures !WikiTest(u, s) && !Contains(Lower(u, s), "@ukwikibot") && FindAll(u, Bracketed, s) == []
  {
    var l := "що таке головна сторінка?";
    MessageParser.WhatIsLowered(u, s, l);
    assert InTables('!') && InTables(l[0]);
    QuietStart(u, s, l);
  }

  /** The case-sensitive WHATIS test takes "Що таке ", the fourth alternative. */
  lemma MainPageAlt(u: Unicode, s: string)
    requires StandardTables(u) && s == "Що таке Головна сторінка?"
    ensures FirstAlt(u, false, AnyButNewline, WhatisAlts, s, 0) == Some("Що таке ")
  {
    assert s[0..8] == WhatisAlts[3];
    SubAtIsLitAt(u, false, s, 0, WhatisAlts[3]);
    NotLitAt(u, false, s, 0, WhatisAlts[0], 0);
    NotLitAt(u, false, s, 0, WhatisAlts[1], 0);
    NotLitAt(u, false, s, 0, WhatisAlts[2], 0);
    FirstAltAt(u, false, AnyButNewline, WhatisAlts, s, 0, 3);
  }

  /** The WHATIS test of the first router keeps the question mark. */
  lemma MainPageRule(u: Unicode, s: string)
    requires StandardTables(u) && s == "Що таке Головна сторінка?"
    ensures FindAll(u, Keyed(WhatisAlts, false, AnyButNewline), s) == ["Головна сторінка?"]
  {
    MainPageAlt(u, s);
    assert forall t :: 8 <= t < |s| ==> s[t] != '\n';
    KeyedToEnd(u, WhatisAlts, false, s, "Що таке ");
    assert s[8..] == "Головна сторінка?";
  }

  /** When the link test is silent and the WHATIS test is not, the WHATIS test decides. */
  lemma WhatisFirst(u: Unicode, message: string)
    requires FindAll(u, Bracketed, message) == []
    requires FindAll(u, Keyed(WhatisAlts, false, AnyButNewline), message) != []
    ensures FirstPattern(u, PatternRules, message, 0) == Some((WHATIS, FindAll(u, Keyed(WhatisAlts, false, AnyButNewline), message)))
  {
  }

  lemma MainPageRoute(u: Unicode, s: string)
    requires StandardTables(u) && s == "Що таке Головна сторінка?"
    ensures Route(u, s) == Some((WHATIS, Some(["Головна сторінка?"])))
  {
    MainPageQuiet(u, s);
    MainPageRule(u, s);
    WhatisFirst(u, s);
    PatternRoute(u, s);
  }

  /**
   * "Що таке Головна сторінка?": the first router searches for the title
   * with its question mark, the newer one without it.
   */
  lemma QuestionKept(u: Unicode, s: string)
    requires StandardTables(u) && s == "Що таке Головна сторінка?"
    ensures Route(u, s) == Some((WHATIS, Some(["Головна сторінка?"])))
    ensures MessageParser.Route(u, s) == Some((MessageParser.WHATIS, Some(["Головна сторінка"])))
  {
    MainPageRoute(u, s);
    MessageParser.WhatIsExample(u, s);
  }

  /** "[[Київ]] @ukwikibot" lowercased. */
  lemma KyivLowered(u: Unicode, s: string, l: string)
    requires StandardTables(u) && s == "[[Київ]] @ukwikibot" && l == "[[київ]] @ukwikibot"
    ensures LowersTo(u, s, l)
  {
    forall i | 0 <= i < |s|
      ensures u.lower(s[i]) == l[i]
    {
      assert InTables(s[i]);
    }
  }

  /** The one link of "[[Київ]] @ukwikibot". */
  lemma KyivBracketed(u: Unicode, s: string)
    requires s == "[[Київ]] @ukwikibot"
    ensures FindAll(u, Bracketed, s) == ["Київ"]
  {
    assert forall t :: 2 <= t < 6 ==> s[t] != '\n' && s[t] != ']';
    LazyCloseAt(s, ']', 2, 3, 6);
    assert s[2..6] == "Київ";
    assert MatchAt(u, Bracketed, s, 0) == Some(Match(8, "Київ"));
    assert forall j :: 8 <= j < 19 ==> s[j] != '[';
    FindAllSkip(u, Bracketed, s, 8, 19);
    assert FindAllFrom(u, Bracketed, s, 0) == ["Київ"] + FindAllFrom(u, Bracketed, s, 8);
  }

  lemma KyivNoBang(u: Unicode, s: string)
    requires StandardTables(u) && s == "[[Київ]] @ukwikibot"
    ensures forall i :: 0 <= i < |s| ==> !LitAt(u, true, s, i, "!вікі") && !LitAt(u, true, s, i, "!wiki")
  {
    forall i | 0 <= i < |s|
      ensures !LitAt(u, true, s, i, "!вікі") && !LitAt(u, true, s, i, "!wiki")
    {
      assert InTables(s[i]) && InTables('!');
      NotLitAt(u, true, s, i, "!вікі", 0);
      NotLitAt(u, true, s, i, "!wiki", 0);
    }
  }

  lemma KyivNotSlashWiki(u: Unicode, s: string)
    requires StandardTables(u) && s == "[[Київ]] @ukwikibot"
    ensures Strip(u, Lower(u, s)) != "/wiki"
  {
    var l := "[[київ]] @ukwikibot";
    KyivLowered(u, s, l);
    LowerIs(u, s, l);
    assert InTables(l[0]);
    StripFirst(u, l);
  }

  lemma KyivContains(u: Unicode, s: string)
    requires StandardTables(u) && s == "[[Київ]] @ukwikibot"
    ensures Contains(Lower(u, s), "@ukwikibot")
  {
    var l := "[[київ]] @ukwikibot";
    KyivLowered(u, s, l);
    LowerIs(u, s, l);
    KyivLowerContains(l);
  }

  /** The lowercased Kyiv message contains the bot's name. */
  lemma KyivLowerContains(l: string)
    requires l == "[[київ]] @ukwikibot"
    ensures Contains(l, "@ukwikibot")
  {
    assert l == "[[київ]] " + "@ukwikibot" + "";
    ContainsMiddle("[[київ]] ", "@ukwikibot", "");
  }

  lemma KyivNoQuestion(l: string)
    requires l == "[[київ]] @ukwikibot"
    ensures NoPairs(MessageParser.WhatisAlts, l)
  {
  }

  /** The newer router's WHATIS rule is silent on "[[Київ]] @ukwikibot" and its LINK rule fires. */
  lemma KyivLink(u: Unicode, s: string)
    requires StandardTables(u) && s == "[[Київ]] @ukwikibot"
    ensures MessageParser.Route(u, s) == Some((MessageParser.LINK, Some(["Київ"])))
  {
    var l := "[[київ]] @ukwikibot";
    KyivLowered(u, s, l);
    MessageParser.HeadsLower(u, MessageParser.WhatisAlts);
    KyivNoQuestion(l);
    KeyedNoneLowered(u, MessageParser.WhatisAlts, WordOrSpace, s, l);
    KyivBracketed(u, s);
    MessageParser.RouteFirst(u, MessageParser.Rules, s, 1);
  }

  /**
   * "[[Київ]] @ukwikibot": the first router answers the mention, which it
   * tests before the links; the newer one answers the link.
   */
  lemma MentionBeforeLink(u: Unicode, s: string)
    requires StandardTables(u) && s == "[[Київ]] @ukwikibot"
    ensures Route(u, s) == Some((UKWIKIBOT, None))
    ensures MessageParser.Route(u, s) == Some((MessageParser.LINK, Some(["Київ"])))
  {
    KyivNoBang(u, s);
    KyivNotSlashWiki(u, s);
    KyivContains(u, s);
    MentionBeatsPatterns(u, s);
    KyivLink(u, s);
  }
}
