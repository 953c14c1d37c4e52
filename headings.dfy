/**
 * The heading rewrite both wiki wrappers apply to article extracts:
 * `re.sub("={2,} ?(.+?)={2,}", r"<b>\1</b>", text)`.
 *
 * The matcher follows Python's backtracking exactly: the opening run of `=`
 * is greedy and gives back one `=` at a time, the optional space is tried
 * before its absence, the heading text is lazy (at least one character, no
 * newline) and the closing run of `=` is greedy. The replacement scans the
 * text from the left and resumes after each match.
 */
module Headings {
  import opened Wrappers
  import opened Text
  import opened Patterns

  /** End of the run of `=` characters starting at `j`. */
  function EqRun(s: string, j: nat): (k: nat)
    requires j <= |s|
    ensures j <= k <= |s|
    decreases |s| - j
  {
    if j < |s| && s[j] == '=' then EqRun(s, j + 1) else j
  }

  /** The run of `=` ends exactly where the first other character (or the end) is. */
  lemma {:induction false} EqRunIs(s: string, j: nat, k: nat)
    requires j <= k <= |s|
    requires forall t :: j <= t < k ==> s[t] == '='
    requires k < |s| ==> s[k] != '='
    ensures EqRun(s, j) == k
    decreases k - j
  {
    if j < k {
      EqRunIs(s, j + 1, k);
    }
  }

  /** The lazy heading text starting at `g`: where it ends, when a `==` can follow it. */
  function GroupClose(s: string, g: nat): (r: Option<nat>)
    requires g <= |s|
    ensures r.Some? ==> g < r.value && r.value + 2 <= |s| && s[r.value] == '=' && s[r.value + 1] == '='
  {
    if g < |s| then LazyClose(s, '=', g, g + 1) else None
  }

  /**
   * Backtracking over the opening run, which currently ends at `e`: the space
   * first, then no space, then one `=` fewer. The result is the start and the
   * end of the heading text.
   */
  function OpenFrom(s: string, e: nat): (r: Option<(nat, nat)>)
    requires 2 <= e <= |s|
    ensures r.Some? ==> r.value.0 < r.value.1 && r.value.1 + 2 <= |s|
    decreases e
  {
    var spaced := if e < |s| && s[e] == ' ' then GroupClose(s, e + 1) else None;
    if spaced.Some? then Some((e + 1, spaced.value))
    else match GroupClose(s, e)
      case Some(k) => Some((e, k))
      case None => if e == 2 then None else OpenFrom(s, e - 1)
  }

  /** The match at the very start of `s`, if any: its length and the heading text. */
  function MatchHere(s: string): (r: Option<(nat, string)>)
    ensures r.Some? ==> 0 < r.value.0 <= |s|
  {
    if 2 <= |s| && s[0] == '=' && s[1] == '=' then
      assert EqRun(s, 0) == EqRun(s, 2);
      match OpenFrom(s, EqRun(s, 0))
      case None => None
      case Some(gk) => Some((EqRun(s, gk.1), s[gk.0..gk.1]))
    else None
  }

  /** `parse_text`: every heading becomes `<b>heading</b>`; all else is copied. */
  function ParseText(s: string): string
    decreases |s|
  {
    if s == [] then []
    else match MatchHere(s)
      case Some(m) => "<b>" + m.1 + "</b>" + ParseText(s[m.0..])
      case None => [s[0]] + ParseText(s[1..])
  }

  /** Text in which `==` does not occur is returned unchanged. */
  lemma {:induction false} ParseTextNoHeading(s: string)
    requires !Contains(s, "==")
    ensures ParseText(s) == s
    decreases |s|
  {
    if s != [] {
      if 2 <= |s| && s[0] == '=' && s[1] == '=' {
        PairAt(s, 0);
      }
      forall i: nat | i <= |s[1..]| && SubAt(s[1..], i, "==")
        ensures false
      {
        assert s[i + 1..i + 3] == s[1..][i..i + 2];
        assert SubAt(s, i + 1, "==");
      }
      ParseTextNoHeading(s[1..]);
    }
  }

  /** The two characters at `i` occur there. */
  lemma PairAt(s: string, i: nat)
    requires i + 1 < |s|
    ensures SubAt(s, i, [s[i], s[i + 1]])
  {
    assert s[i..i + 2] == [s[i], s[i + 1]];
  }

  /** Text without any `=` in front passes through, and the rewriting continues after it. */
  lemma {:induction false} ParseTextPlainPrefix(pre: string, rest: string)
    requires forall t :: 0 <= t < |pre| ==> pre[t] != '='
    ensures ParseText(pre + rest) == pre + ParseText(rest)
    decreases |pre|
  {
    if pre != [] {
      var s := pre + rest;
      assert s[0] == pre[0] != '=';
      assert MatchHere(s).None?;
      assert ParseText(s) == [s[0]] + ParseText(s[1..]);
      assert s[1..] == pre[1..] + rest;
      ParseTextPlainPrefix(pre[1..], rest);
      calc {
        ParseText(s);
        [pre[0]] + ParseText(pre[1..] + rest);
        [pre[0]] + (pre[1..] + ParseText(rest));
        ([pre[0]] + pre[1..]) + ParseText(rest);
        { assert [pre[0]] + pre[1..] == pre; }
        pre + ParseText(rest);
      }
    } else {
      assert pre + rest == rest;
    }
  }

  /** A heading text: non-empty, on one line, without `=`. */
  predicate HeadingText(t: string)
  {
    t != [] && forall k :: 0 <= k < |t| ==> t[k] != '=' && t[k] != '\n'
  }

  /** What may follow a heading without extending its closing run. */
  predicate AfterHeading(post: string)
  {
    post == [] || post[0] != '='
  }

  /** The heading match when the opening `==` is followed by the text at `g`. */
  lemma HeadingClose(s: string, g: nat, t: string)
    requires HeadingText(t) && g + |t| + 2 <= |s|
    requires s[g..g + |t|] == t && s[g + |t|] == '=' && s[g + |t| + 1] == '='
    requires g + |t| + 2 < |s| ==> s[g + |t| + 2] != '='
    ensures GroupClose(s, g) == Some(g + |t|)
    ensures EqRun(s, g + |t|) == g + |t| + 2
  {
    forall q | g <= q < g + |t|
      ensures s[q] != '\n' && s[q] != '='
    {
      assert s[q] == s[g..g + |t|][q - g];
    }
    LazyCloseAt(s, '=', g, g + 1, g + |t|);
    EqRunIs(s, g + |t|, g + |t| + 2);
  }

  /** `== heading==` becomes `<b>heading</b>`; the rest of the text is rewritten on its own. */
  lemma ParseTextSpacedHeading(t: string, post: string)
    requires HeadingText(t) && AfterHeading(post)
    ensures ParseText("== " + t + "==" + post) == "<b>" + t + "</b>" + ParseText(post)
  {
    var s := "== " + t + "==" + post;
    assert s[3..3 + |t|] == t;
    assert s[3 + |t|] == '=' && s[3 + |t| + 1] == '=';
    assert s[2] == ' ';
    EqRunIs(s, 0, 2);
    HeadingClose(s, 3, t);
    assert OpenFrom(s, 2) == Some((3, 3 + |t|));
    assert MatchHere(s) == Some((5 + |t|, t));
    assert s[5 + |t|..] == post;
  }

  /** `==heading==` without the space: the same, when the heading does not start with a space. */
  lemma ParseTextHeading(t: string, post: string)
    requires HeadingText(t) && t[0] != ' ' && AfterHeading(post)
    ensures ParseText("==" + t + "==" + post) == "<b>" + t + "</b>" + ParseText(post)
  {
    var s := "==" + t + "==" + post;
    assert s[2..2 + |t|] == t;
    assert s[2 + |t|] == '=' && s[2 + |t| + 1] == '=';
    assert s[2] == t[0];
    EqRunIs(s, 0, 2);
    HeadingClose(s, 2, t);
    assert OpenFrom(s, 2) == Some((2, 2 + |t|));
    assert MatchHere(s) == Some((4 + |t|, t));
    assert s[4 + |t|..] == post;
  }

  /** A run of `n` equals signs. */
  function EqSigns(n: nat): (r: string)
    ensures |r| == n && forall k :: 0 <= k < n ==> r[k] == '='
  {
    if n == 0 then [] else "=" + EqSigns(n - 1)
  }

  /** A heading text at `g` closed by a run of `m >= 2` equals signs: the text ends at the run, the run at its last `=`. */
  lemma HeadingCloseRun(s: string, g: nat, t: string, m: nat)
    requires HeadingText(t) && m >= 2 && g + |t| + m <= |s|
    requires s[g..g + |t|] == t
    requires forall q :: g + |t| <= q < g + |t| + m ==> s[q] == '='
    requires g + |t| + m < |s| ==> s[g + |t| + m] != '='
    ensures GroupClose(s, g) == Some(g + |t|)
    ensures EqRun(s, g + |t|) == g + |t| + m
  {
    forall q | g <= q < g + |t|
      ensures s[q] != '\n' && s[q] != '='
    {
      assert s[q] == s[g..g + |t|][q - g];
    }
    assert s[g + |t|] == '=' && s[g + |t| + 1] == '=';
    LazyCloseAt(s, '=', g, g + 1, g + |t|);
    EqRunIs(s, g + |t|, g + |t| + m);
  }

  /** The heading match at the start of `s`: `n` equals signs, the optional space, the text at `g`, `m` equals signs. */
  lemma LeveledMatch(s: string, n: nat, g: nat, t: string, m: nat)
    requires n >= 2 && m >= 2 && HeadingText(t) && (g == n || g == n + 1) && g + |t| + m <= |s|
    requires forall q :: 0 <= q < n ==> s[q] == '='
    requires g == n + 1 ==> s[n] == ' '
    requires g == n ==> t[0] != ' '
    requires s[g..g + |t|] == t
    requires forall q :: g + |t| <= q < g + |t| + m ==> s[q] == '='
    requires g + |t| + m < |s| ==> s[g + |t| + m] != '='
    ensures MatchHere(s) == Some((g + |t| + m, t))
  {
    assert s[n] == (if g == n then t[0] else ' ') by {
      if g == n {
        assert s[n] == s[g..g + |t|][0];
      }
    }
    EqRunIs(s, 0, n);
    HeadingCloseRun(s, g, t, m);
    if g == n {
      assert OpenFrom(s, n) == Some((n, n + |t|));
    } else {
      assert OpenFrom(s, n) == Some((n + 1, n + 1 + |t|));
    }
  }

  /** The five pieces of a joined text are its consecutive slices. */
  lemma FivePieces(a: string, b: string, c: string, d: string, e: string)
    ensures var s := a + b + c + d + e;
            var (i, j, k, l) := (|a|, |a| + |b|, |a| + |b| + |c|, |a| + |b| + |c| + |d|);
            && |s| == l + |e|
            && s[..i] == a && s[i..j] == b && s[j..k] == c && s[k..l] == d && s[l..] == e
  {
    var s := a + b + c + d + e;
    assert s == (a + b + c + d) + e;
    assert a + b + c + d == (a + b + c) + d;
    assert a + b + c == (a + b) + c;
  }

  /** A slice that is a run of equals signs. */
  lemma RunAt(s: string, i: nat, n: nat)
    requires i + n <= |s| && s[i..i + n] == EqSigns(n)
    ensures forall q :: i <= q < i + n ==> s[q] == '='
  {
    forall q | i <= q < i + n
      ensures s[q] == '='
    {
      assert s[q] == s[i..i + n][q - i];
    }
  }

  /**
   * A heading of any level: `n >= 2` equals signs, an optional space, the
   * heading text and `m >= 2` equals signs become `<b>heading</b>`; the rest
   * of the text is rewritten on its own. Without the space the heading text
   * must not start with one (the space would be taken as optional).
   */
  lemma ParseTextLeveledHeading(n: nat, sp: string, t: string, m: nat, post: string)
    requires n >= 2 && m >= 2 && HeadingText(t) && AfterHeading(post)
    requires sp == " " || (sp == [] && t[0] != ' ')
    ensures ParseText(EqSigns(n) + sp + t + EqSigns(m) + post) == "<b>" + t + "</b>" + ParseText(post)
  {
    var s := EqSigns(n) + sp + t + EqSigns(m) + post;
    var g := n + |sp|;
    FivePieces(EqSigns(n), sp, t, EqSigns(m), post);
    assert s[0..n] == s[..n];
    RunAt(s, 0, n);
    RunAt(s, g + |t|, m);
    if sp == " " {
      assert s[n] == s[n..g][0];
    }
    if g + |t| + m < |s| {
      assert s[g + |t| + m] == post[0];
    }
    LeveledMatch(s, n, g, t, m);
  }

  /** A level-3 heading, as extracts carry for subsections, is rewritten like a level-2 one. */
  lemma ParseTextLevelThree(t: string)
    requires t == "Історія "
    ensures ParseText("=== " + t + "===") == "<b>" + t + "</b>"
  {
    ThreeSigns();
    assert "=== " + t + "===" == EqSigns(3) + " " + t + EqSigns(3) + [];
    NoEquals(t);
    ParseTextLeveledHeading(3, " ", t, 3, []);
    assert "<b>" + t + "</b>" + ParseText([]) == "<b>" + t + "</b>";
  }

  lemma ThreeSigns()
    ensures EqSigns(3) == "==="
  {
    assert EqSigns(1) == "=";
    assert EqSigns(2) == "==";
  }


  /** An extract with one section heading: the space before the closing `==` stays in the bold text. */
  lemma ParseTextExample(pre: string, t: string, post: string)
    requires pre == "Вступ\n" && t == "Історія " && post == "\nТекст"
    ensures ParseText(pre + ("== " + t + "==" + post)) == pre + ("<b>" + t + "</b>" + post)
  {
    NoEquals(pre);
    NoEquals(t);
    NoEquals(post);
    ParseTextOneHeading(pre, t, post);
  }

  /** Plain text, one spaced heading and plain text: only the heading is rewritten. */
  lemma ParseTextOneHeading(pre: string, t: string, post: string)
    requires forall k :: 0 <= k < |pre| ==> pre[k] != '='
    requires HeadingText(t)
    requires forall k :: 0 <= k < |post| ==> post[k] != '='
    ensures ParseText(pre + ("== " + t + "==" + post)) == pre + ("<b>" + t + "</b>" + post)
  {
    ParseTextPlainPrefix(pre, "== " + t + "==" + post);
    ParseTextSpacedHeading(t, post);
    ParseTextNoHeadingChars(post);
  }

  /** The three pieces of the example: no `=`, no line break, the heading text non-empty. */
  lemma NoEquals(s: string)
    requires s == "Вступ\n" || s == "Історія " || s == "\nТекст"
    ensures forall k :: 0 <= k < |s| ==> s[k] != '='
    ensures s == "Історія " ==> HeadingText(s)
  {
  }

  /** Text without any `=` is unchanged. */
  lemma ParseTextNoHeadingChars(s: string)
    requires forall t :: 0 <= t < |s| ==> s[t] != '='
    ensures ParseText(s) == s
  {
    ParseTextPlainPrefix(s, []);
    assert s + [] == s;
  }
}
