# ukwikibot in Dafny

A model of the core of ukwikibot, a Telegram bot that answers questions in
Ukrainian from the Ukrainian Wikipedia and Wikidata, and proofs about it.

The current bot (package `wikibot`) and the first version of its router
(top-level `parser.py` and `wiki.py`) are both modelled:

- `MessageParser` (wikibot/parser.py) is an ordered table of regular
  expressions. The first pattern whose `re.findall` list is not empty picks
  the intent, and that list holds the arguments. `get_response` runs the
  intent's handler over every argument and collects what it yields. The
  regular expressions are written out as hand-coded matchers in `Patterns`.
  These follow Python's backtracking order: alternatives left to right,
  greedy `+` and `.*`, lazy `.+?`, and an optional trailing `\?`.
- `WikiManager` (wikibot/wiki.py) covers three things:
  - page summaries, with the heading rewrite in `Headings`;
  - the genitive search, with its word transform in `Genitive`;
  - values extracted from Wikidata claims: gender, coordinates, dates,
    text lists and image info.
- `Bot` (wikibot/bot.py) covers how a slash command becomes a command word,
  and which Telegram replies are sent for a message's response.
- `LegacyParser` and `LegacyWiki` (parser.py, wiki.py) model the first
  router. It is an if/elif chain: wiki test, mention test, six findall tests,
  then slash commands. Its handlers answer the first match only, and its
  link and question handlers are generators.

Everything the bot gets from outside is a parameter. That covers pywikibot,
pymorphy3, HTTP (httpx/requests) and `urllib.parse.unquote`; the `Wiki`
record in `External` holds the wiki-side calls. The same goes for Python's
Unicode tables: lower-casing, `\w`, whitespace, `istitle`, `capitalize` and
`title` are fields of a `Unicode` record. General properties hold for every such
record. The worked examples (the messages in the repository's tests and its
help text) also assume `StandardTables(u)`: the record agrees with Python
on ASCII and basic Cyrillic.

Error paths are `Result` values carrying the Python exception that decides
the behaviour (`KeyError`, `IndexError`, `AttributeError`, `TypeError`).

Files: `wrappers.dfy` (Option/Result), `text.dfy`, `external.dfy`,
`patterns.dfy`, `headings.dfy`, `genitive.dfy`, `wiki_manager.dfy`,
`message_parser.dfy`, `bot.dfy`, `legacy_wiki.dfy`, `legacy_parser.dfy`.

## Model

| member | source | states |
|---|---|---|
| Text.Lower | parser.py:59 | lower-casing keeps the length and maps each character by the table |
| Text.LStripBy | wikibot/bot.py:16 | the result is a suffix of the input whose first character is not stripped, and everything before it is stripped |
| Text.RStripBy | wikibot/bot.py:16 | the result is a prefix of the input whose last character is not stripped, and everything after it is stripped |
| Text.StripFirst | parser.py:59 | `strip()` keeps a first character that is not whitespace |
| Text.Split | wikibot/wiki.py:199 | every word `split()` returns is non-empty and contains no whitespace |
| Text.SplitJoin | wikibot/wiki.py:199-208 | splitting a single-space join of non-empty, space-free words returns those words |
| Text.JoinSnoc | wikibot/wiki.py:208 | joining one more word appends the separator and the word |
| Text.JoinEmptyIff | wikibot/wiki.py:125-126 | a ", " join is empty exactly when it joins no value or a single empty one |
| Text.ReplaceChar | wikibot/parser.py:165 | same length; exactly the occurrences of the old character are replaced |
| Text.NatToDecimal | wikibot/wiki.py:147 | the rendering is a non-empty string of decimal digits |
| Text.DecimalRoundTrip | wikibot/wiki.py:147 | reading the decimal rendering of a number gives the number back |
| Patterns.RunEnd | wikibot/parser.py:66 | the greedy group end lies between its start and the end of the text |
| Patterns.RunEndSpec | wikibot/parser.py:66 | the greedy `[\w,\s]+` run is maximal: every character in it is in the class and the next one is not |
| Patterns.RunEndIs | wikibot/parser.py:66 | the maximal run is unique |
| Patterns.FirstAltFrom | wikibot/parser.py:66 | an alternative it picks matches at the position and is followed by a group character |
| Patterns.FirstAlt | wikibot/parser.py:66 | an alternative it picks matches at the position and is followed by a group character |
| Patterns.FirstAltFromSpec | wikibot/parser.py:66 | it finds an alternative iff one fits, and no earlier alternative fits |
| Patterns.FirstAltSpec | wikibot/parser.py:66 | alternatives are tried left to right: the one picked is the earliest that fits, and one is picked whenever one fits |
| Patterns.GroupFrom | wikibot/parser.py:66 | a match consumes at least one character and stays inside the text |
| Patterns.LastAlt | wikibot/parser.py:70 | a position picked for a greedy `.*` lies in range, and an alternative fits there |
| Patterns.LastAltSpec | wikibot/parser.py:70 | greedy `.*` picks the last position where an alternative fits; it picks none iff none fits anywhere |
| Patterns.LazyClose | wikibot/parser.py:67 | a lazy `.+?` close is followed by `]]` and has no newline before it |
| Patterns.LazyCloseFirst | wikibot/parser.py:67 | the lazy capture ends at the first `]]`, not a later one |
| Patterns.LazyCloseAt | wikibot/parser.py:67 | with no newline and no `]` before the first `]]`, that `]]` closes the link |
| Patterns.MatchAt | wikibot/parser.py:97 | a match starting at a position ends after it and inside the text |
| Patterns.FindAllEmptyIff | wikibot/parser.py:97 | `findall` is empty exactly when no position starts a match |
| Patterns.FindAllSkip | wikibot/parser.py:97 | positions where no match starts do not change `findall` |
| Patterns.FindAllKeyedInClass | wikibot/parser.py:66-68 | every capture of a keyed rule is a non-empty run of its class |
| Patterns.KeyedToEnd | wikibot/parser.py:69 | with `(.+)`, a rule whose alternative fits at the start of a one-line message captures the rest of it, and nothing else |
| Patterns.KeyedMatchAtStart | wikibot/parser.py:66 | a rule whose alternative fits at the start captures the class run after it, and consumes one `?` right after the run |
| Patterns.NoAltLowered | wikibot/parser.py:92 | with IGNORECASE, no alternative fits where its first two letters do not occur in the lower-cased text |
| Patterns.KeyedNoneLowered | wikibot/parser.py:92 | a case-insensitive keyed rule finds nothing when no alternative's first two letters occur in the lower-cased text |
| Patterns.LeadNoneLowered | wikibot/parser.py:70 | the `@ukwikibot.*` rule finds nothing when no alternative's first two letters occur in the lower-cased text |
| Patterns.KeyedNoneExact | parser.py:65 | a case-sensitive keyed rule finds nothing when no alternative's first two letters occur |
| Patterns.BracketedNone | wikibot/parser.py:67 | without `[` no link is found |
| Patterns.BracketedAt | wikibot/parser.py:67 | `[[title]]` with a one-line title without `]` is a link match whose group is the title |
| Headings.EqRun | wikibot/wiki.py:80 | the run of `=` ends inside the text |
| Headings.EqRunIs | wikibot/wiki.py:80 | the run of `=` ends exactly at the first other character |
| Headings.GroupClose | wikibot/wiki.py:80 | the lazy heading text ends before a `==` |
| Headings.OpenFrom | wikibot/wiki.py:80 | backtracking over the opening run gives a non-empty heading text followed by `==` |
| Headings.MatchHere | wikibot/wiki.py:80 | a heading match has positive length inside the text |
| Headings.ParseTextNoHeading | wikibot/wiki.py:78-80 | `Headings.ParseText`, the `re.sub`, returns text in which `==` does not occur unchanged |
| Headings.ParseTextNoHeadingChars | wiki.py:46-48 | text without `=` is returned unchanged |
| Headings.ParseTextPlainPrefix | wikibot/wiki.py:78-80 | text without `=` in front is copied, and the rewrite carries on after it |
| Headings.HeadingClose | wikibot/wiki.py:80 | a one-line heading without `=` closes at the first `==` and its closing run ends there |
| Headings.HeadingCloseRun | wikibot/wiki.py:80 | a one-line heading without `=` closed by a run of two or more `=` ends at that run, and the greedy closing run takes all of it |
| Headings.ParseTextSpacedHeading | wikibot/wiki.py:80 | `== t==` becomes `<b>t</b>`, and the rest is rewritten on its own |
| Headings.ParseTextHeading | wikibot/wiki.py:80 | `==t==` becomes `<b>t</b>` when `t` does not start with a space |
| Headings.ParseTextLeveledHeading | wikibot/wiki.py:80 | a heading of any level, two or more `=` on each side with an optional space after the opening run, becomes `<b>heading</b>` |
| Headings.ParseTextLevelThree | wiki.py:48 | a level-3 heading `=== Історія ===` is rewritten like a level-2 one |
| Headings.ParseTextExample | wikibot/wiki.py:80 | an extract with one section heading gets that heading in bold, with the space before the closing `==` kept |
| Headings.ParseTextOneHeading | wikibot/wiki.py:78-80 | plain text, one `== heading==` and plain text: only the heading is rewritten, to bold |
| Genitive.LastGenitiveSpec | wikibot/wiki.py:203-206 | a form is found iff some analysis is genitive, and it is the last genitive analysis's normal form (the scan runs over the reversed list) |
| Genitive.TransformWordsPointwise | wikibot/wiki.py:199-207 | one output word per query word, each depending on that word alone |
| Genitive.ChosenForm | wikibot/wiki.py:202-206 | the reversed scan over one word's analyses yields the specified choice: the last genitive reading's normal form, else the word itself |
| Genitive.GenitiveTransform | wikibot/wiki.py:198-210 | the word loop computes the specification text: the join of the transformed words |
| Genitive.PlainWordKept | wikibot/wiki.py:202-207 | a word that is not titlecased and has no genitive reading passes through unchanged |
| Genitive.GenitiveTextWords | wikibot/wiki.py:198-210 | when the replacements are non-empty and space-free, the result has as many words as the query, word `k` replacing word `k` |
| Genitive.KyivExample | wikibot/wiki.py:198-210 | "Києва" becomes "Київ" when the analyser reads it as the genitive of "київ" |
| WikiManager.PageSummary | wikibot/wiki.py:82-88 | no summary exactly for no page; else the rewritten extract, a blank line and the "Читати у Вікіпедії" link to the decoded URL |
| WikiManager.SummaryWithoutExtract | wikibot/wiki.py:70-73 | a page without an extract is summarised as the text "None" before the link |
| WikiManager.SummaryOfPlainExtract | wikibot/wiki.py:82-88 | an extract without headings appears verbatim in front of the link |
| WikiManager.Search | wikibot/wiki.py:219-221 | a summary exists exactly when the full-text search finds a page, and it is that page's summary: rewritten extract, blank line, link |
| WikiManager.Random | wikibot/wiki.py:98-101 | a summary exists exactly when a random page is returned, and it is that page's summary |
| WikiManager.ItemOf | wikibot/wiki.py:104 | a missing page raises AttributeError; otherwise the page's Wikidata item |
| WikiManager.Gender | wikibot/wiki.py:103-110 | a missing page's error propagates and a missing P21 raises KeyError; an empty P21 list or a first target without `title()` raises AttributeError; otherwise "male" iff the title is Q6581097, "female" iff it is Q6581072, and "unknown" for every other title |
| WikiManager.GenderOfTitle | wikibot/wiki.py:106-110 | the Q-id mapping: "male" exactly for Q6581097, "female" exactly for Q6581072, "unknown" for anything else |
| WikiManager.Coords | wikibot/wiki.py:131-137 | the first P625 coordinate, if any; KeyError, IndexError and AttributeError give no coordinate, and other errors propagate |
| WikiManager.MonthName | wikibot/wiki.py:147 | months 1..12 give their genitive names, 0..-11 index from the end as in Python, and anything else raises IndexError |
| WikiManager.DateFromSpec | wikibot/wiki.py:145-147 | the loop renders the first Gregorian claim after skipped non-Gregorian dates, gives nothing when all are such dates, and raises on a claim that is not a date |
| WikiManager.WikidataDate | wikibot/wiki.py:142-149 | a missing property gives no date; a missing page raises AttributeError; otherwise the claim loop decides |
| WikiManager.GregorianModelIsGregorian | wikibot/wiki.py:146 | pywikibot's Gregorian calendar-model URL passes the Q1985727 test |
| WikiManager.DeathdayExample | wikibot/wiki.py:118-119 | `WikiManager.Deathday` (the P570 date): a Gregorian death date of 30 November 2018 reads "30 листопада 2018" |
| WikiManager.BirthdayExample | wikibot/wiki.py:115-116 | `WikiManager.Birthday` (the P569 date): a Gregorian birth date of 6 February 1911 reads "6 лютого 1911" |
| WikiManager.DigitsExample | wikibot/wiki.py:147 | the day and year numbers of the examples render as their digits |
| WikiManager.TextValuesConcat | wikibot/wiki.py:155-164 | values keep the order of their claims |
| WikiManager.TextValuesFrom | wikibot/wiki.py:155-164 | there are at most as many values as claims; each value is a string target or an item's non-empty Ukrainian label |
| WikiManager.WikidataText | wikibot/wiki.py:151-165 | the append loop returns the text values of the property's claims, or the item lookup's error |
| WikiManager.TextListEmpty | wikibot/wiki.py:121-129 | `WikiManager.TextList` (and so `WikiManager.FieldOfWork`, its P101 instance) is `None` exactly when `WikiManager.GenitiveSearch` finds no page, or the values are none or a single empty string |
| WikiManager.FirstClaim | wikibot/wiki.py:182-189 | `claims.get(prop)` is truthy exactly when the property has claims, and then the first one is used |
| WikiManager.PageImageInfo | wikibot/wiki.py:173-190 | the item's error propagates; a P18 target that is not a file raises AttributeError; otherwise the first file's URL and description and the first P373 category |
| WikiManager.ImagesGenitive | wikibot/wiki.py:192-196 | no page from the genitive search gives three `None`s |
| WikiManager.ImageInfoIndependent | wikibot/wiki.py:182-190 | the image values come from P18 alone and the category from P373 alone |
| MessageParser.KindOf | wikibot/parser.py:20-33 | the coordinate intents reply with COORDS, the image intent with IMAGE, and every other intent with TEXT |
| MessageParser.NamesDistinct | wikibot/parser.py:20-33 | no two intents share a handler name |
| MessageParser.GetMatches | wikibot/parser.py:95-101 | the rule loop with its early return computes the routing function |
| MessageParser.RouteFromFirst | wikibot/parser.py:96-98 | the first rule with a non-empty `findall` list wins, with that list as the arguments |
| MessageParser.RouteFirst | wikibot/parser.py:96-98 | the first rule with a non-empty `findall` list wins, with that list as the arguments |
| MessageParser.FirstRule | wikibot/parser.py:96-98 | the index of the first rule that matches, with every rule before it silent |
| MessageParser.RouteFromWhich | wikibot/parser.py:95-101 | any routed list comes from the first rule that matched; when none matched, only the case-sensitive `@ukwikibot` fallback is left |
| MessageParser.MentionRule | wikibot/parser.py:74 | the mention rule matches exactly when `@ukwikibot` occurs, in any letter case |
| MessageParser.MentionRouted | wikibot/parser.py:74 | a message containing `@ukwikibot` is routed with a non-empty argument list |
| MessageParser.FallbackUnreachable | wikibot/parser.py:99-101 | the `CONTAINS` fallback never fires, because an exact `@ukwikibot` already matches the last rule |
| MessageParser.DateStep | wikibot/parser.py:135-160 | at most one line per argument |
| MessageParser.LinkStep | wikibot/parser.py:162-170 | one decoded final URL unless the status is 404; a failed request raises |
| MessageParser.LinkUrl | wikibot/parser.py:165 | the request URL is the article prefix followed by the title, each space replaced by `_` |
| MessageParser.ImageStep | wikibot/parser.py:115-133 | exactly one (content, caption) pair per argument |
| MessageParser.CategoryNoteParts | wikibot/parser.py:126-132 | the category note keeps its prefix and names the Commons category page |
| MessageParser.CaptionParts | wikibot/parser.py:118-133 | a caption exists iff there is an author link or a category; it links the description page only when both image URLs exist; it names any category |
| MessageParser.ImageContent | wikibot/parser.py:120-125 | content is sent only for a 200 response of type image/jpeg to the image URL |
| MessageParser.Step | wikibot/parser.py:103-181 | each handler yields at most one item per argument |
| MessageParser.CollectOne | wikibot/parser.py:195-197 | the reply to one argument is its handler's items |
| MessageParser.CollectConcat | wikibot/parser.py:195-197 | collection keeps order: two runs of arguments give concatenated items |
| MessageParser.CollectFails | wikibot/parser.py:195-197 | an exception from any argument loses every item collected before it |
| MessageParser.CollectFitsKind | wikibot/parser.py:188-199 | every collected item fits the kind its intent declares |
| MessageParser.BirthdayLine | wikibot/parser.py:135-142 | one line iff there is a date: title, "народилась" for a female subject and "народився" otherwise, then the date |
| MessageParser.DeathdayLine | wikibot/parser.py:154-160 | one line iff there is a date: "померла" for a female subject and "помер" otherwise |
| MessageParser.DateLinePresent | wikibot/parser.py:141-142 | a date line is emitted exactly when the date is present |
| MessageParser.CollectItems | wikibot/parser.py:195-197 | the collecting loop computes the collection function, which stops at the first exception |
| MessageParser.GetResponse | wikibot/parser.py:188-199 | the method computes the response function: route, handler, collected items and kind |
| MessageParser.MentionReply | wikibot/parser.py:103-104 | the mention intent answers "Га?" once |
| MessageParser.NoRouteNoReply | wikibot/parser.py:189-191 | a message that matches nothing gets no reply and no kind |
| MessageParser.ResponseFitsKind | wikibot/parser.py:188-199 | every item of a reply fits the kind the reply declares |
| MessageParser.CollectAtMostOne | wikibot/parser.py:195-197 | a reply never has more items than arguments |
| MessageParser.CollectOneEach | wikibot/parser.py:195-197 | when every argument yields one item, item `k` is the item of argument `k` |
| MessageParser.LinkReplies | wikibot/parser.py:162-170 | with no missing page, the reply holds each title's decoded final URL, in order |
| MessageParser.ImageReplies | wikibot/parser.py:115-133 | an image reply has one pair per argument, in order |
| MessageParser.CommandResponse | wikibot/parser.py:77-82 | KeyError iff the word is not one of the four commands; "help" and "start" give the help text, "wiki" the site URL, "random" a random summary |
| MessageParser.WhoIsExample | wikibot/parser.py:66 | "хто такий зеленський" is a WHATIS question about "зеленський" |
| MessageParser.MentionExample | wikibot/parser.py:74 | "Чуєш, @ukwikibot, як ти?" matches only the mention rule and reports its `@ukwikibot` |
| MessageParser.LinkExample | wikibot/parser.py:67 | "Some text [[рейган]] some text" is a LINK request for "рейган" |
| MessageParser.LinkExampleResponse | wikibot/parser.py:162-170 | that message's reply is the decoded final URL, or nothing when the page is missing |
| MessageParser.GroupsWithoutQuestion | wikibot/parser.py:66-68 | the `[\w,\s]+` groups of the WHATIS and BIRTHDAY rules never capture a `?` |
| MessageParser.WhatIsExample | wikibot/parser.py:66 | "Що таке Головна сторінка?" asks about "Головна сторінка"; the `?` is not captured |
| MessageParser.DiedExample | wikibot/parser.py:69 | "Коли помер Майкл Джексон?" is a DEATHDAY question about "Майкл Джексон?": the greedy `(.+)` keeps the `?` |
| MessageParser.DeathdayRoute | wikibot/parser.py:95-101 | a message the WHATIS, LINK and BIRTHDAY rules miss and the death rule catches is a DEATHDAY request with the death rule's captures |
| Bot.CommandWord | wikibot/bot.py:16 | a non-empty command word neither starts with `/` nor ends with a character of "@ukwikibot" |
| Bot.CommandWordSlice | wikibot/bot.py:16 | the word is a slice of the text, with only slashes before it and only bot characters after it |
| Bot.CommandWordOf | wikibot/bot.py:16 | "/" + word + a tail of bot characters gives the word, when the word neither starts with `/` nor ends with a bot character |
| Bot.RStripTail | wikibot/bot.py:16 | `rstrip` removes a tail of stripped characters and stops at a kept one |
| Bot.ParseCommand | wikibot/bot.py:15-19 | a command sends at most one text |
| Bot.HelpAndRandomWords | wikibot/bot.py:16 | "/help" and "/random", with or without "@ukwikibot" after them, give "help" and "random" |
| Bot.StartWord | wikibot/bot.py:16-18 | "/start" gives "star" and raises KeyError (see Findings) |
| Bot.WikiWord | wikibot/bot.py:16-18 | "/wiki" gives "" and raises KeyError (see Findings) |
| Bot.UnknownWordFails | wikibot/bot.py:16-18 | a command word that names none of the four commands raises KeyError |
| Bot.RemoveSuffix | wikibot/bot.py:16 | the result is the text with the suffix removed when it ends with it, and the text itself otherwise |
| Bot.IntendedWordOf | wikibot/bot.py:16 | with suffix removal, "/" + word and "/" + word + "@ukwikibot" both give the word |
| Bot.IntendedCommandsWork | wikibot/bot.py:68-70 | with suffix removal, every registered command, with or without the bot's name, reaches its response |
| Bot.Filter | wikibot/bot.py:29 | the filter keeps only items of its input, and only truthy ones |
| Bot.FilterKeepsTruthy | wikibot/bot.py:29 | every truthy item survives the filter |
| Bot.FilterConcat | wikibot/bot.py:29 | the filter keeps order: filtering two runs is filtering each |
| Bot.FilterIdempotent | wikibot/bot.py:29 | filtering twice is filtering once |
| Bot.ItemActions | wikibot/bot.py:40-63 | an item is sent iff it fits its reply's kind and is not `None`; an image pair sends what `PictureSends` states |
| Bot.PictureSends | wikibot/bot.py:52-63 | the photo comes first exactly when there are image bytes; the caption, with the preview off, comes last exactly when it is non-empty; nothing else is sent |
| Bot.PlanStops | wikibot/bot.py:41-63 | a failing send loses nothing sent before it and ends the loop |
| Bot.PlanComplete | wikibot/bot.py:41-63 | items that all fit the kind are all sent, one action each for text and coordinates, at most two for an image |
| Bot.TextPlan | wikibot/bot.py:40-43 | text replies send one HTML text per string, in order |
| Bot.CoordsPlan | wikibot/bot.py:46-49 | coordinate replies send one location per pair, in order |
| Bot.ImagePlan | wikibot/bot.py:52-63 | image replies: every pair goes through, and `Bot.Plan` sends each pair's photo and caption in pair order |
| Bot.ImageSendsConcat | wikibot/bot.py:52-53 | the image sends of two runs of pairs are those of the first run, then those of the second |
| Bot.EmptyPictureSilent | wikibot/bot.py:29 | an image pair with neither content nor caption survives the filter but sends nothing |
| Bot.Send | wikibot/bot.py:40-63 | the sending loop computes the send plan `Bot.Plan`: all actions in order, and whether every send went through |
| Bot.SilentMessages | wikibot/bot.py:22-37 | `Bot.ParseMessages` sends nothing for no text, empty text, no route, or a raised exception |
| Bot.RepliesComplete | wikibot/bot.py:22-37 | every truthy item of a reply is sent, in order, and no send fails |
| Bot.TextReplies | wikibot/bot.py:29-43 | a text reply sends exactly the non-empty strings, in order |
| LegacyWiki.Search | wiki.py:78-81 | no summary exactly when the title search finds nothing; otherwise the title hit's summary |
| LegacyWiki.SearchIsTitleSearch | wiki.py:18-28 | the legacy search is the newer search run against the title index |
| LegacyWiki.Random | wiki.py:59-67 | the same summary of a random page as the newer wrapper |
| LegacyWiki.Birthday | wiki.py:69-76 | no P569 gives no date; a missing page raises AttributeError; else the first Gregorian P569 claim is rendered |
| LegacyWiki.BirthdayAgrees | wiki.py:69-76 | the legacy and newer birth-date lookups agree on every page |
| LegacyParser.KindOf | parser.py:18-28 | COORDS replies with coordinates, IMAGE with an image, everything else with text |
| LegacyParser.NamesDistinct | parser.py:18-28 | no two intents share a handler name |
| LegacyParser.FirstPattern | parser.py:63-80 | a findall test that fires carries a non-empty list |
| LegacyParser.FirstPatternNoneIff | parser.py:63-80 | the findall tests are silent exactly when each of them finds nothing |
| LegacyParser.FirstPatternAt | parser.py:63-80 | the first findall test that finds something decides, with its own list |
| LegacyParser.WikiFirst | parser.py:59-60 | "!вікі", "!wiki" (any case) or a bare "/wiki" routes to WIKI, whatever else the message holds |
| LegacyParser.MentionBeatsPatterns | parser.py:61-62 | a mention in any case beats every link and question |
| LegacyParser.CommandsLast | parser.py:81-84 | RANDOM and HELP are routed iff no earlier test fires and the stripped, lower-cased message is the command |
| LegacyParser.RouteNoneIff | parser.py:58-84 | `LegacyParser.Route`, the if/elif chain, routes nothing exactly when no test fires |
| LegacyParser.RoutedArgs | parser.py:58-84 | WIKI, UKWIKIBOT, RANDOM and HELP carry no list; every other intent carries a non-empty one |
| LegacyParser.FirstPatternIntents | parser.py:63-80 | the findall tests route only to intents that take arguments |
| LegacyParser.LinkMessages | parser.py:134-139 | the request loop yields the generator's items in order, and the exception that stops it |
| LegacyParser.LinkStreamConcat | parser.py:134-139 | a second run of titles is requested only if the first ends without an exception |
| LegacyParser.LinkStreamStops | parser.py:134-139 | the generator stops at the first failing request, keeping what it yielded before |
| LegacyParser.LinkStreamAll200 | parser.py:134-139 | with every title answered 200, the items are each title's decoded final URL, in order |
| LegacyParser.LinkStatusDiffers | parser.py:137 | a status other than 200 and 404 gets a URL from the newer handler but nothing from this one |
| LegacyParser.WhatisMessages | parser.py:148-151 | one summary per query, in order, `None` exactly where no title matches |
| LegacyParser.LastSegment | parser.py:101 | the segment is a suffix without `/`, preceded by a `/` unless it is the whole URL |
| LegacyParser.Handle | parser.py:92-132 | the four first-match handlers fail exactly when there is a match |
| LegacyParser.NoRouteTypeError | parser.py:153-158 | a message no test recognises makes `get_response` (`LegacyParser.Response`, routing then `LegacyParser.Answer`) raise TypeError |
| LegacyParser.LookupsFail | parser.py:107-132 | as written, every birthday, death-date, coordinate and image request raises AttributeError |
| LegacyParser.FirstMatchOnly | parser.py:92-132 | the intended first-match handlers (`LegacyParser.HandleIntended` over `LegacyParser.FirstMatchStep`) answer the first match and ignore the rest |
| LegacyParser.IntendedFirstMatch | parser.py:153-158 | as intended, a routed first-match request answers with its first match's line, in the intent's message type |
| LegacyParser.BirthdayLine | parser.py:107-116 | the intended birth line names the title hit, agrees with the gender, and appears exactly when there is a date |
| LegacyParser.DeathdayLine | parser.py:125-132 | the intended death line always says "помер", whatever the gender, and appears exactly when there is a date |
| LegacyParser.ImageSaved | parser.py:92-105 | the image is saved under its last URL segment in `tmp` exactly when its URL answers with 200 |
| LegacyParser.QuietStart | parser.py:59-63 | the first three tests fail on a message without `!`, `@` and `[` that does not start with `/` |
| LegacyParser.PatternRoute | parser.py:63-80 | a message that passes the first two tests goes to the first findall test that finds something |
| LegacyParser.DeathdayFirst | parser.py:71-73 | when the link, WHATIS and birth tests are silent and the death test is not, the death test decides |
| LegacyParser.WhatisFirst | parser.py:65-66 | when the link test is silent and the WHATIS test is not, the WHATIS test decides |
| LegacyParser.DiedExample | parser.py:71-73 | "Коли помер Майкл Джексон?" is a DEATHDAY question about "Майкл Джексон?" |
| LegacyParser.DiedResponse | parser.py:125-132 | as written that question raises AttributeError; as intended it looks up its first match |
| LegacyParser.MainPageRule | parser.py:65 | the case-sensitive WHATIS test captures "Головна сторінка?", question mark included |
| LegacyParser.QuestionKept | parser.py:65-66 | on "Що таке Головна сторінка?" the first router keeps the `?` and the newer one drops it |
| LegacyParser.KyivLink | wikibot/parser.py:66-67 | the newer router answers "[[Київ]] @ukwikibot" with a link to "Київ" |
| LegacyParser.MentionBeforeLink | parser.py:61-64 | on "[[Київ]] @ukwikibot" the first router answers the mention and the newer one the link |

## Left out

- The Telegram client, the asyncio event loop, `run_in_executor`,
  logging, login and configuration (wikibot/config.py, run.py, the
  top-level bot.py) are not part of this model. Neither is `setup_bot`'s
  wiring of handlers, except the list of commands it registers.
- Network and library calls (pywikibot, pymorphy3, httpx, requests,
  `unquote`) are parameters. An HTTP request is a `Result`: it gives a
  response or the exception it raises.
- Python's Unicode tables are a parameter. Characters whose `lower()` is
  longer than one character are not modelled.
- Coordinates are passed through as `real` values and never computed
  with.
- The help text is a parameter rather than the literal string. One
  `helpText` stands for both `HELP_TEXT` constants, which differ (parser.py:31-51
  and wikibot/parser.py:36-55); each router's model reads it from the
  `Env` it is given, so the two texts are not distinguished.
- One `http` function stands for three different clients: the httpx link
  request, which follows redirects with a 10-second timeout
  (wikibot/parser.py:165); the httpx image request, which follows no
  redirects (wikibot/parser.py:122-123); and `requests.get` in the legacy
  handlers (parser.py:98, 136). Redirects, timeouts and the clients'
  differences are not modelled: each request is whatever response or
  exception the parameter gives.
- The legacy image handler's write of the file under `tmp` is not modelled;
  `ImageFile` names the file it would write.
- The legacy `get_response` returns a generator or a value. The model runs
  the generator to its end as a `Reply.Stream`; nothing in the repository
  consumes it.
- LegacyParser.FirstMatchStep: the legacy `WikipediaParser` has no
  `get_gender`, `get_deathday`, `get_coords` or `get_images_genitive`. The
  intended handlers take those lookups from `WikiManager`. The legacy image
  handler treats the image info as a URL, so it uses the info's file URL.
- Bot.ItemActions: an item of the wrong kind for its branch is modelled as
  a failing send. `ResponseFitsKind` proves the message parser never
  produces one.
- Telegram's `parse_mode=HTML` is not modelled; a text action records only
  whether the web-page preview is on.
- Bot.ParseCommand: only that a command sends at most one text is stated
  on the function itself. What it sends is stated through
  `MessageParser.CommandResponse` and the command-word lemmas.
- MessageParser.Step: the function states only the bound on items per
  argument. What each handler returns is stated by the per-handler
  functions and lemmas (`DateStep`, `LinkStep`, `ImageStep`, `BirthdayLine`,
  `DeathdayLine`, `CaptionParts`, `ImageContent`).
- The `education` intent has no handler in the class. `MessageParser.Step`
  yields nothing for it, the same as for the intents that only the command
  path serves, and `MessageParser.Response` raises AttributeError for it, as
  `getattr` does. No rule routes to it, so neither case arises.

## Findings

| source | as written | input that shows it | evidently intended | confidence | as-written member | corrected member |
|---|---|---|---|---|---|---|
| parser.py:107-132 | the birthday, death-date, coordinate and image handlers call `get_gender`, `get_deathday`, `get_coords` and `get_images_genitive` on wiki.py's `WikipediaParser`, which defines none of them, so every match raises AttributeError | "Коли помер Майкл Джексон?" | the handler looks up its first match and answers with the date line | not executed | LegacyParser.DiedResponse | LegacyParser.DeathdayLine |
| wikibot/bot.py:16 | `rstrip("@ukwikibot")` strips any trailing characters from the set {@, u, k, w, i, b, o, t}, not the suffix | "/start" (gives "star") and "/wiki" (gives ""), both registered commands at wikibot/bot.py:69-70; both raise KeyError | the bot's name is removed only as a suffix, so every registered command reaches its response | not executed | Bot.StartWord | Bot.IntendedCommandsWork |
