/**
 * `WikiManager.genitive_transform`: every word of a query is replaced by the
 * dictionary form of its genitive reading, so that "Києва" searches for
 * "Київ". The morphological analyser is a parameter: for each word it gives
 * the list of analyses, in the analyser's order.
 */
module Genitive {
  import opened Wrappers
  import opened Text

  /** One analysis of a word: the grammatical case in its tag, if any, and its normal form. */
  datatype Analysis = Analysis(tagCase: Option<string>, normalForm: string)

  predicate IsGenitive(a: Analysis)
  {
    a.tagCase == Some("gent")
  }

  /** The normal form of the last genitive analysis, which a scan from the end meets first. */
  function LastGenitive(analyses: seq<Analysis>): Option<string>
    decreases |analyses|
  {
    if analyses == [] then None
    else if IsGenitive(analyses[|analyses| - 1]) then Some(analyses[|analyses| - 1].normalForm)
    else LastGenitive(analyses[..|analyses| - 1])
  }

  /** LastGenitive finds a form exactly when some analysis is genitive, and takes the last one. */
  lemma {:induction false} LastGenitiveSpec(analyses: seq<Analysis>)
    ensures LastGenitive(analyses).None? <==> forall k :: 0 <= k < |analyses| ==> !IsGenitive(analyses[k])
    ensures LastGenitive(analyses).Some? ==>
              exists k :: 0 <= k < |analyses| && IsGenitive(analyses[k])
                          && analyses[k].normalForm == LastGenitive(analyses).value
                          && forall j :: k < j < |analyses| ==> !IsGenitive(analyses[j])
    decreases |analyses|
  {
    if analyses != [] && !IsGenitive(analyses[|analyses| - 1]) {
      var front := analyses[..|analyses| - 1];
      LastGenitiveSpec(front);
      assert forall k :: 0 <= k < |front| ==> front[k] == analyses[k];
    }
  }

  /** The form a word is replaced by, before capitalization: its genitive normal form, or itself. */
  function Chosen(morph: string -> seq<Analysis>, word: string): string
  {
    match LastGenitive(morph(word))
    case Some(form) => form
    case None => word
  }

  /** One word of the result: the chosen form, capitalized when the word is titlecased. */
  function TransformWord(u: Unicode, morph: string -> seq<Analysis>, word: string): string
  {
    var form := Chosen(morph, word);
    if u.isTitle(word) then u.capitalize(form) else form
  }

  function TransformWords(u: Unicode, morph: string -> seq<Analysis>, words: seq<string>): seq<string>
    decreases |words|
  {
    if words == [] then []
    else TransformWords(u, morph, words[..|words| - 1]) + [TransformWord(u, morph, words[|words| - 1])]
  }

  /** Word `i` of the result depends on word `i` of the query alone, and no word is added or lost. */
  lemma {:induction false} TransformWordsPointwise(u: Unicode, morph: string -> seq<Analysis>, words: seq<string>)
    ensures |TransformWords(u, morph, words)| == |words|
    ensures forall k :: 0 <= k < |words| ==> TransformWords(u, morph, words)[k] == TransformWord(u, morph, words[k])
    decreases |words|
  {
    if words != [] {
      var front := words[..|words| - 1];
      TransformWordsPointwise(u, morph, front);
      assert forall k :: 0 <= k < |front| ==> front[k] == words[k];
    }
  }

  /** The specification of `genitive_transform`. */
  function GenitiveText(u: Unicode, morph: string -> seq<Analysis>, text: string): string
  {
    Join(" ", TransformWords(u, morph, Split(u, text)))
  }

  /** The reversed scan over one word's analyses: the last genitive reading's normal form, else the word. */
  method ChosenForm(morph: string -> seq<Analysis>, word: string) returns (transformed: string)
    ensures transformed == Chosen(morph, word)
  {
    transformed := word;
    var analyses := morph(word);
    var j := |analyses|;
    assert analyses[..j] == analyses;
    while j > 0
      invariant 0 <= j <= |analyses|
      invariant transformed == word
      invariant LastGenitive(analyses) == LastGenitive(analyses[..j])
    {
      j := j - 1;
      assert analyses[..j + 1][..j] == analyses[..j];
      if analyses[j].tagCase == Some("gent") {
        assert LastGenitive(analyses[..j + 1]) == Some(analyses[j].normalForm);
        transformed := analyses[j].normalForm;
        break;
      }
    }
  }

  /** `genitive_transform`: the word loop, each word's scan done by `ChosenForm`. */
  method GenitiveTransform(u: Unicode, morph: string -> seq<Analysis>, text: string) returns (r: string)
    ensures r == GenitiveText(u, morph, text)
  {
    var words := Split(u, text);
    var transformedWords: seq<string> := [];
    for i := 0 to |words|
      invariant transformedWords == TransformWords(u, morph, words[..i])
    {
      var word := words[i];
      var transformed := ChosenForm(morph, word);
      transformedWords := transformedWords + [if u.isTitle(word) then u.capitalize(transformed) else transformed];
      assert words[..i + 1][..i] == words[..i];
    }
    assert words[..|words|] == words;
    r := Join(" ", transformedWords);
  }

  /** A word that is not titlecased and has no genitive reading passes through unchanged. */
  lemma PlainWordKept(u: Unicode, morph: string -> seq<Analysis>, word: string)
    requires !u.isTitle(word)
    requires forall k :: 0 <= k < |morph(word)| ==> !IsGenitive(morph(word)[k])
    ensures TransformWord(u, morph, word) == word
  {
    LastGenitiveSpec(morph(word));
  }

  /**
   * When every replacement is a non-empty word without whitespace, the result
   * splits back into exactly one replacement per query word, in order.
   */
  lemma GenitiveTextWords(u: Unicode, morph: string -> seq<Analysis>, text: string)
    requires u.isSpace(' ')
    requires forall w :: w in Split(u, text) ==> TransformWord(u, morph, w) != [] && NoSpace(u, TransformWord(u, morph, w))
    ensures |Split(u, GenitiveText(u, morph, text))| == |Split(u, text)|
    ensures forall k :: 0 <= k < |Split(u, text)| ==>
              Split(u, GenitiveText(u, morph, text))[k] == TransformWord(u, morph, Split(u, text)[k])
  {
    var words := Split(u, text);
    var out := TransformWords(u, morph, words);
    TransformWordsPointwise(u, morph, words);
    assert forall k :: 0 <= k < |out| ==> out[k] == TransformWord(u, morph, words[k]) && words[k] in words;
    SplitJoin(u, out);
  }

  /** "Києва" becomes "Київ" once the analyser reads it as the genitive of "київ". */
  lemma KyivExample(u: Unicode, morph: string -> seq<Analysis>)
    requires StandardTables(u)
    requires morph("Києва") == [Analysis(Some("gent"), "київ")]
    requires u.isTitle("Києва") && u.capitalize("київ") == "Київ"
    ensures GenitiveText(u, morph, "Києва") == "Київ"
  {
    assert forall k :: 0 <= k < |"Києва"| ==> InTables("Києва"[k]) && !TableSpace("Києва"[k]);
    WordLenOf(u, "Києва", "");
    assert "Києва" + "" == "Києва";
    assert Split(u, "Києва") == ["Києва"];
    assert TransformWords(u, morph, ["Києва"]) == [TransformWord(u, morph, "Києва")];
  }
}
