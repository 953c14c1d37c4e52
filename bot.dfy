/**
 * The Telegram side of wikibot/bot.py: how a slash command is reduced to a
 * command word, and which replies the bot sends for a message. Every send
 * is an `Action`; the Telegram client, logging and the event loop are not
 * modelled.
 */
module Bot {
  import opened Wrappers
  import opened Text
  import opened External
  import MessageParser

  // ---------------------------------------------------------------------------
  // Commands

  /** The characters `rstrip("@ukwikibot")` removes, in any order and number. */
  const BotChars: string := "@ukwikibot"

  predicate IsSlash(c: char)
  {
    c == '/'
  }

  predicate IsBotChar(c: char)
  {
    c in BotChars
  }

  /** `text.lstrip("/").rstrip("@ukwikibot")`: a strip by character set, not by suffix. */
  function CommandWord(text: string): (r: string)
    ensures r != [] ==> r[0] != '/' && r[|r| - 1] !in BotChars
  {
    RStripBy(LStripBy(text, IsSlash), IsBotChar)
  }

  /** The command word is what is left between the leading slashes and the trailing bot characters. */
  lemma CommandWordSlice(text: string)
    ensures exists i, j :: 0 <= i <= j <= |text| && CommandWord(text) == text[i..j]
              && (forall k :: 0 <= k < i ==> text[k] == '/')
              && (forall k :: j <= k < |text| ==> text[k] in BotChars)
  {
    var l := LStripBy(text, IsSlash);
    var i := |text| - |l|;
    var r := CommandWord(text);
    assert l == text[i..];
    assert r == l[..|r|];
    assert r == text[i..i + |r|];
    forall k | i + |r| <= k < |text|
      ensures text[k] in BotChars
    {
      assert text[k] == l[k - i];
    }
  }

  /** A reply the bot sends. */
  datatype Action =
    | ReplyText(text: string, preview: bool)   // `reply_text`, HTML; `preview` is false for image captions
    | ReplyLocation(coordinate: Coordinate)    // `reply_location`
    | ReplyPhoto(photo: seq<bv8>)              // `reply_photo`

  /** A string is sent when it is not empty. */
  predicate Sendable(s: Option<string>)
  {
    s.Some? && s.value != []
  }

  /**
   * `parse_command`: the response to the command word, sent when it is a
   * non-empty string; a word that is not a command raises KeyError.
   * `intended` picks the suffix removal the command handlers evidently meant.
   */
  function ParseCommand(env: MessageParser.Env, text: string, intended: bool): (r: Result<seq<Action>, Exc>)
    ensures r.Ok? ==> |r.value| <= 1
  {
    var word := if intended then CommandWordIntended(text) else CommandWord(text);
    match MessageParser.CommandResponse(env, word)
    case Err(e) => Err(e)
    case Ok(message) => Ok(if Sendable(message) then [ReplyText(message.value, true)] else [])
  }

  /** `rstrip` removes a tail made of stripped characters and stops at a kept one. */
  lemma {:induction false} RStripTail(a: string, t: string, p: char -> bool)
    requires a == [] || !p(a[|a| - 1])
    requires forall k :: 0 <= k < |t| ==> p(t[k])
    ensures RStripBy(a + t, p) == a
    decreases |t|
  {
    if t == [] {
      assert a + t == a;
    } else {
      assert (a + t)[..|a + t| - 1] == a + t[..|t| - 1];
      RStripTail(a, t[..|t| - 1], p);
    }
  }

  /**
   * The command word of a slash, a word and a tail of bot characters: the
   * word, when it neither starts with a slash nor ends with a bot character.
   */
  lemma CommandWordOf(word: string, tail: string)
    requires word == [] || (word[0] != '/' && word[|word| - 1] !in BotChars)
    requires word + tail == [] || (word + tail)[0] != '/'
    requires forall k :: 0 <= k < |tail| ==> tail[k] in BotChars
    ensures CommandWord("/" + word + tail) == word
  {
    assert "/" + word + tail == "/" + (word + tail);
    OneSlashOff(word + tail);
    RStripTail(word, tail, IsBotChar);
  }

  /** `lstrip("/")` removes one slash from a text whose next character is not a slash. */
  lemma OneSlashOff(rest: string)
    requires rest == [] || rest[0] != '/'
    ensures LStripBy("/" + rest, IsSlash) == rest
  {
    assert ("/" + rest)[1..] == rest;
    assert LStripBy(rest, IsSlash) == rest;
  }

  /**
   * "/help" and "/random", and the "/help@ukwikibot" and "/random@ukwikibot"
   * forms a group chat sends, reach their commands: neither word ends with
   * a character of the bot's name.
   */
  lemma HelpAndRandomWords(word: string)
    requires word == "help" || word == "random"
    ensures CommandWord("/" + word) == word
    ensures CommandWord("/" + word + BotChars) == word
  {
    assert "/" + word == "/" + word + "";
    CommandWordOf(word, "");
    CommandWordOf(word, BotChars);
  }

  /** "/start" loses its final "t": "star" is not a command word. */
  lemma StartWord(env: MessageParser.Env, text: string)
    requires text == "/start"
    ensures CommandWord(text) == "star"
    ensures ParseCommand(env, text, false) == Err(KeyError)
  {
    assert text == "/" + "star" + "t";
    CommandWordOf("star", "t");
    UnknownWordFails(env, text);
  }

  /** "/wiki" is made of bot characters only and loses everything. */
  lemma WikiWord(env: MessageParser.Env, text: string)
    requires text == "/wiki"
    ensures CommandWord(text) == ""
    ensures ParseCommand(env, text, false) == Err(KeyError)
  {
    assert text == "/" + "" + "wiki";
    WikiAllBotChars("wiki");
    CommandWordOf("", "wiki");
    UnknownWordFails(env, text);
  }

  /** Every character of "wiki" is one of the bot's name characters. */
  lemma WikiAllBotChars(t: string)
    requires t == "wiki"
    ensures forall k :: 0 <= k < |t| ==> t[k] in BotChars
  {
    assert t[0] == BotChars[3] && t[1] == BotChars[4] && t[2] == BotChars[5] && t[3] == BotChars[4];
  }

  /** A command word that names no command raises KeyError. */
  lemma UnknownWordFails(env: MessageParser.Env, text: string)
    requires CommandWord(text) !in {"help", "start", "random", "wiki"}
    ensures ParseCommand(env, text, false) == Err(KeyError)
  {
    var word := CommandWord(text);
    assert MessageParser.CommandResponse(env, word) == Err(KeyError);
  }

  /** `s` without `suffix` at its end, if it ends with it (`str.removesuffix`). */
  function RemoveSuffix(s: string, suffix: string): (r: string)
    ensures s == r + suffix || s == r
    ensures |suffix| <= |s| && s[|s| - |suffix|..] == suffix ==> s == r + suffix
  {
    if |suffix| <= |s| && s[|s| - |suffix|..] == suffix then s[..|s| - |suffix|] else s
  }

  /** The command word as evidently intended: leading slashes off, then the bot's name off the end. */
  function CommandWordIntended(text: string): string
  {
    RemoveSuffix(LStripBy(text, IsSlash), BotChars)
  }

  /** A word without a leading slash and too short to end with the bot's name is its own intended word. */
  lemma IntendedWordOf(word: string)
    requires word != [] && word[0] != '/' && |word| < |BotChars|
    ensures CommandWordIntended("/" + word) == word
    ensures CommandWordIntended("/" + word + BotChars) == word
  {
    assert ("/" + word)[1..] == word;
    assert LStripBy(word, IsSlash) == word;
    var full := "/" + word + BotChars;
    assert full[1..] == word + BotChars;
    assert LStripBy(word + BotChars, IsSlash) == word + BotChars;
    assert (word + BotChars)[|word|..] == BotChars;
    assert (word + BotChars)[..|word|] == word;
  }

  /** As intended, every command reaches its response, with or without the bot's name. */
  lemma IntendedCommandsWork(env: MessageParser.Env, word: string)
    requires word in MessageParser.Commands
    ensures CommandWordIntended("/" + word) == word
    ensures CommandWordIntended("/" + word + "@ukwikibot") == word
    ensures ParseCommand(env, "/" + word, true).Ok?
  {
    assert word in {"help", "start", "random", "wiki"};
    IntendedWordOf(word);
  }

  // ---------------------------------------------------------------------------
  // Messages

  /** Python truthiness of an item: `None` and "" are false; every tuple is true. */
  predicate Truthy(item: MessageParser.Item)
  {
    match item
    case Str(text) => text != []
    case NoneItem => false
    case Location(_) => true
    case Picture(_, _) => true
  }

  /** `filter(lambda m: m, messages)`. */
  function Filter(items: seq<MessageParser.Item>): (r: seq<MessageParser.Item>)
    ensures |r| <= |items|
    ensures forall x :: x in r ==> x in items && Truthy(x)
  {
    if items == [] then []
    else (if Truthy(items[0]) then [items[0]] else []) + Filter(items[1..])
  }

  /** Every truthy item survives the filter. */
  lemma {:induction false} FilterKeepsTruthy(items: seq<MessageParser.Item>, x: MessageParser.Item)
    requires x in items && Truthy(x)
    ensures x in Filter(items)
  {
    if items[0] != x {
      assert x in items[1..];
      FilterKeepsTruthy(items[1..], x);
    }
  }

  /** The filter keeps order: filtering two runs of items is filtering each. */
  lemma {:induction false} FilterConcat(a: seq<MessageParser.Item>, b: seq<MessageParser.Item>)
    ensures Filter(a + b) == Filter(a) + Filter(b)
  {
    if a == [] {
      assert a + b == b;
    } else {
      assert (a + b)[0] == a[0] && (a + b)[1..] == a[1..] + b;
      FilterConcat(a[1..], b);
      var head := if Truthy(a[0]) then [a[0]] else [];
      assert head + (Filter(a[1..]) + Filter(b)) == (head + Filter(a[1..])) + Filter(b);
    }
  }

  /** Filtering twice is filtering once. */
  lemma {:induction false} FilterIdempotent(items: seq<MessageParser.Item>)
    ensures Filter(Filter(items)) == Filter(items)
  {
    if items != [] {
      FilterIdempotent(items[1..]);
      var head := if Truthy(items[0]) then [items[0]] else [];
      FilterConcat(head, Filter(items[1..]));
      if Truthy(items[0]) {
        assert [items[0]][1..] == [];
      }
    }
  }

  /**
   * What sending one item does in the branch its reply's kind selects:
   * a text, a location, or a photo and then a caption, each only when
   * present. An item of another kind makes the send raise (`None`); the
   * replies of the message parser never hold one.
   */
  function ItemActions(kind: MessageParser.MessageType, item: MessageParser.Item): (r: Option<seq<Action>>)
    ensures r.Some? <==> MessageParser.FitsKind(kind, item) && !item.NoneItem?
    ensures r.Some? ==> |r.value| <= 2
    ensures kind == MessageParser.IMAGE && item.Picture? ==> r == Some(PictureSends(item.content, item.caption))
  {
    match (kind, item)
    case (TEXT, Str(text)) => Some([ReplyText(text, true)])
    case (COORDS, Location(c)) => Some([ReplyLocation(c)])
    case (IMAGE, Picture(content, caption)) => Some(PictureSends(content, caption))
    case _ => None
  }

  /**
   * `send_image` for one pair: the photo first, exactly when there are
   * image bytes, then the caption without a link preview, exactly when
   * the caption is not empty.
   */
  function PictureSends(content: Option<seq<bv8>>, caption: Option<string>): (r: seq<Action>)
    ensures |r| == (if content.Some? && content.value != [] then 1 else 0) + (if Sendable(caption) then 1 else 0)
    ensures (r != [] && r[0].ReplyPhoto?) <==> content.Some? && content.value != []
    ensures r != [] && r[0].ReplyPhoto? ==> r[0] == ReplyPhoto(content.value)
    ensures (r != [] && r[|r| - 1].ReplyText?) <==> Sendable(caption)
    ensures Sendable(caption) ==> r[|r| - 1] == ReplyText(caption.value, false)
  {
    (if content.Some? && content.value != [] then [ReplyPhoto(content.value)] else [])
    + (if Sendable(caption) then [ReplyText(caption.value, false)] else [])
  }

  /** The sends for `items`, in order, and whether every send went through; the first failing send ends the loop. */
  function Plan(kind: MessageParser.MessageType, items: seq<MessageParser.Item>): (seq<Action>, bool)
    decreases |items|
  {
    if items == [] then ([], true)
    else
      var front := Plan(kind, items[..|items| - 1]);
      if !front.1 then front
      else match ItemActions(kind, items[|items| - 1])
        case None => (front.0, false)
        case Some(actions) => (front.0 + actions, true)
  }

  /** A failing send loses nothing sent before it and ends the loop. */
  lemma {:induction false} PlanStops(kind: MessageParser.MessageType, items: seq<MessageParser.Item>, k: nat)
    requires k < |items| && ItemActions(kind, items[k]).None? && Plan(kind, items[..k]).1
    ensures Plan(kind, items) == (Plan(kind, items[..k]).0, false)
    decreases |items|
  {
    if k < |items| - 1 {
      assert items[..|items| - 1][..k] == items[..k];
      PlanStops(kind, items[..|items| - 1], k);
    } else {
      assert items[..|items| - 1] == items[..k];
    }
  }

  /** Items that all fit the kind are all sent, each giving its actions, in order. */
  lemma {:induction false} PlanComplete(kind: MessageParser.MessageType, items: seq<MessageParser.Item>)
    requires forall k :: 0 <= k < |items| ==> MessageParser.FitsKind(kind, items[k]) && !items[k].NoneItem?
    ensures Plan(kind, items).1
    ensures kind != MessageParser.IMAGE ==> |Plan(kind, items).0| == |items|
    ensures |Plan(kind, items).0| <= 2 * |items|
    decreases |items|
  {
    if items != [] {
      PlanComplete(kind, items[..|items| - 1]);
    }
  }

  /** Text replies: one text per string, in order. */
  lemma {:induction false} TextPlan(items: seq<MessageParser.Item>)
    requires forall k :: 0 <= k < |items| ==> items[k].Str?
    ensures Plan(MessageParser.TEXT, items).1 && |Plan(MessageParser.TEXT, items).0| == |items|
    ensures forall k :: 0 <= k < |items| ==> Plan(MessageParser.TEXT, items).0[k] == ReplyText(items[k].text, true)
    decreases |items|
  {
    if items != [] {
      TextPlan(items[..|items| - 1]);
    }
  }

  /** Coordinate replies: one location per pair, in order. */
  lemma {:induction false} CoordsPlan(items: seq<MessageParser.Item>)
    requires forall k :: 0 <= k < |items| ==> items[k].Location?
    ensures Plan(MessageParser.COORDS, items).1 && |Plan(MessageParser.COORDS, items).0| == |items|
    ensures forall k :: 0 <= k < |items| ==> Plan(MessageParser.COORDS, items).0[k] == ReplyLocation(items[k].coordinate)
    decreases |items|
  {
    if items != [] {
      CoordsPlan(items[..|items| - 1]);
    }
  }

  /** The sends of a run of image pairs, pair after pair. */
  function ImageSends(items: seq<MessageParser.Item>): seq<Action>
    requires forall k :: 0 <= k < |items| ==> items[k].Picture?
    decreases |items|
  {
    if items == [] then []
    else ImageSends(items[..|items| - 1]) + PictureSends(items[|items| - 1].content, items[|items| - 1].caption)
  }

  /** Image replies: every pair goes through, each giving its photo and caption sends, in order. */
  lemma {:induction false} ImagePlan(items: seq<MessageParser.Item>)
    requires forall k :: 0 <= k < |items| ==> items[k].Picture?
    ensures Plan(MessageParser.IMAGE, items) == (ImageSends(items), true)
    decreases |items|
  {
    if items != [] {
      ImagePlan(items[..|items| - 1]);
    }
  }

  /** The sends of a run of image pairs are those of its first part, then those of the rest. */
  lemma {:induction false} ImageSendsConcat(a: seq<MessageParser.Item>, b: seq<MessageParser.Item>)
    requires forall k :: 0 <= k < |a| ==> a[k].Picture?
    requires forall k :: 0 <= k < |b| ==> b[k].Picture?
    ensures forall k :: 0 <= k < |a + b| ==> (a + b)[k].Picture?
    ensures ImageSends(a + b) == ImageSends(a) + ImageSends(b)
    decreases |b|
  {
    if b == [] {
      assert a + b == a;
    } else {
      var front, last := b[..|b| - 1], b[|b| - 1];
      assert (a + b)[..|a + b| - 1] == a + front && (a + b)[|a + b| - 1] == last;
      ImageSendsConcat(a, front);
      var tail := PictureSends(last.content, last.caption);
      assert ImageSends(a + b) == ImageSends(a + front) + tail;
      assert ImageSends(b) == ImageSends(front) + tail;
    }
  }

  /** An image pair with neither content nor caption survives the filter but sends nothing. */
  lemma EmptyPictureSilent()
    ensures Filter([MessageParser.Picture(None, None)]) == [MessageParser.Picture(None, None)]
    ensures Plan(MessageParser.IMAGE, [MessageParser.Picture(None, None)]) == ([], true)
  {
    var p := [MessageParser.Picture(None, None)];
    assert p[..0] == [];
    assert Filter(p[1..]) == [];
  }

  /** `send_text`, `send_coords` and `send_image`: the sending loop. */
  method Send(kind: MessageParser.MessageType, items: seq<MessageParser.Item>) returns (actions: seq<Action>, complete: bool)
    ensures (actions, complete) == Plan(kind, items)
  {
    actions := [];
    for i := 0 to |items|
      invariant Plan(kind, items[..i]) == (actions, true)
    {
      assert items[..i + 1][..i] == items[..i];
      var step := ItemActions(kind, items[i]);
      if step.None? {
        PlanStops(kind, items, i);
        return actions, false;
      }
      actions := actions + step.value;
    }
    assert items[..|items|] == items;
    complete := true;
  }

  /**
   * `parse_messages`: nothing for a message without text, for a message
   * nothing routes, or when `get_response` raises (the exception is caught);
   * otherwise the sends for the truthy items, in the branch of the reply's kind.
   */
  function ParseMessages(env: MessageParser.Env, text: Option<string>): seq<Action>
  {
    if text.None? || text.value == [] then []
    else match MessageParser.Response(env, text.value)
      case Err(_) => []
      case Ok(None) => []
      case Ok(Some((items, kind))) => Plan(kind, Filter(items)).0
  }

  /** A message without text, one that matches nothing, and one whose handling raises get no reply. */
  lemma SilentMessages(env: MessageParser.Env, text: Option<string>)
    requires text.None? || text.value == [] || MessageParser.Route(env.wiki.u, text.value).None?
             || MessageParser.Response(env, text.value).Err?
    ensures ParseMessages(env, text) == []
  {
    if text.Some? && text.value != [] && MessageParser.Route(env.wiki.u, text.value).None? {
      MessageParser.NoRouteNoReply(env, text.value);
    }
  }

  /** Every truthy item of a reply is sent, in order, and no send fails. */
  lemma RepliesComplete(env: MessageParser.Env, text: string)
    requires text != [] && MessageParser.Response(env, text).Ok? && MessageParser.Response(env, text).value.Some?
    ensures var (items, kind) := MessageParser.Response(env, text).value.value;
            ParseMessages(env, Some(text)) == Plan(kind, Filter(items)).0 && Plan(kind, Filter(items)).1
  {
    var (items, kind) := MessageParser.Response(env, text).value.value;
    MessageParser.ResponseFitsKind(env, text);
    var kept := Filter(items);
    forall k | 0 <= k < |kept|
      ensures MessageParser.FitsKind(kind, kept[k]) && !kept[k].NoneItem?
    {
      assert kept[k] in kept;
    }
    PlanComplete(kind, kept);
  }

  /** A text reply sends the non-empty strings of the reply, in order. */
  lemma TextReplies(env: MessageParser.Env, text: string)
    requires text != [] && MessageParser.Response(env, text).Ok? && MessageParser.Response(env, text).value.Some?
    requires MessageParser.Response(env, text).value.value.1 == MessageParser.TEXT
    ensures var kept := Filter(MessageParser.Response(env, text).value.value.0);
            |ParseMessages(env, Some(text))| == |kept|
            && forall k :: 0 <= k < |kept| ==> kept[k].Str? && kept[k].text != [] && ParseMessages(env, Some(text))[k] == ReplyText(kept[k].text, true)
  {
    var items := MessageParser.Response(env, text).value.value.0;
    MessageParser.ResponseFitsKind(env, text);
    var kept := Filter(items);
    forall k | 0 <= k < |kept|
      ensures kept[k].Str? && kept[k].text != []
    {
      assert kept[k] in kept;
    }
    TextPlan(kept);
  }
}
