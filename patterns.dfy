/**
 * Hand-coded matchers for the regular-expression shapes that occur in the
 * bot's routing tables, and `re.findall` over them. Each alternation is
 * written out as an ordered list of literals, in the order Python's
 * backtracking tries them.
 */
module Patterns {
  import opened Wrappers
  import opened Text

  /** The class a capture group repeats: `[\w,\s]` or `.` (anything but a newline). */
  datatype Class = WordOrSpace | AnyButNewline

  predicate InClass(u: Unicode, cls: Class, c: char)
  {
    match cls
    case WordOrSpace => u.isWord(c) || c == ',' || u.isSpace(c)
    case AnyButNewline => c != '\n'
  }

  datatype Pattern =
    /** `(?:alt1|alt2|...)(cls+)\??` */
    | Keyed(alts: seq<string>, ignoreCase: bool, cls: Class)
    /** `\[\[(.+?)]]` */
    | Bracketed
    /** `lead.*(?:alt1|alt2|...)(.+)\??`, case-insensitive */
    | LeadThenKeyed(lead: string, alts: seq<string>)
    /** `lit`, case-insensitive, with no group: findall returns the matched text */
    | Literal(lit: string)

  /** One match: where it ends and what findall reports for it. */
  datatype Match = Match(end: nat, group: string)

  /** End of the maximal run of `cls` characters starting at `j`. */
  function RunEnd(u: Unicode, cls: Class, s: string, j: nat): (k: nat)
    requires j <= |s|
    ensures j <= k <= |s|
    decreases |s| - j
  {
    if j < |s| && InClass(u, cls, s[j]) then RunEnd(u, cls, s, j + 1) else j
  }

  /** The run is maximal: every character in it is in the class and the next one is not. */
  lemma {:induction false} RunEndSpec(u: Unicode, cls: Class, s: string, j: nat)
    requires j <= |s|
    ensures forall t :: j <= t < RunEnd(u, cls, s, j) ==> InClass(u, cls, s[t])
    ensures RunEnd(u, cls, s, j) < |s| ==> !InClass(u, cls, s[RunEnd(u, cls, s, j)])
    decreases |s| - j
  {
    if j < |s| && InClass(u, cls, s[j]) {
      RunEndSpec(u, cls, s, j + 1);
    }
  }

  /** The maximal run is unique: any end with the run property is RunEnd's. */
  lemma {:induction false} RunEndIs(u: Unicode, cls: Class, s: string, j: nat, k: nat)
    requires j <= k <= |s|
    requires forall t :: j <= t < k ==> InClass(u, cls, s[t])
    requires k < |s| ==> !InClass(u, cls, s[k])
    ensures RunEnd(u, cls, s, j) == k
    decreases k - j
  {
    if j < k {
      RunEndIs(u, cls, s, j + 1, k);
    }
  }

  /** The alternative matches at `i` and at least one `cls` character follows it. */
  predicate AltFits(u: Unicode, ignoreCase: bool, cls: Class, alt: string, s: string, i: nat)
  {
    LitAt(u, ignoreCase, s, i, alt) && i + |alt| < |s| && InClass(u, cls, s[i + |alt|])
  }

  /** The first alternative from index `n` on, in order, after which the group can match. */
  function FirstAltFrom(u: Unicode, ignoreCase: bool, cls: Class, alts: seq<string>, s: string, i: nat, n: nat): (r: Option<string>)
    ensures r.Some? ==> AltFits(u, ignoreCase, cls, r.value, s, i)
    decreases |alts| - n
  {
    if n >= |alts| then None
    else if AltFits(u, ignoreCase, cls, alts[n], s, i) then Some(alts[n])
    else FirstAltFrom(u, ignoreCase, cls, alts, s, i, n + 1)
  }

  function FirstAlt(u: Unicode, ignoreCase: bool, cls: Class, alts: seq<string>, s: string, i: nat): (r: Option<string>)
    ensures r.Some? ==> AltFits(u, ignoreCase, cls, r.value, s, i)
  {
    FirstAltFrom(u, ignoreCase, cls, alts, s, i, 0)
  }

  lemma {:induction false} FirstAltFromSpec(u: Unicode, ignoreCase: bool, cls: Class, alts: seq<string>, s: string, i: nat, n: nat)
    requires n <= |alts|
    ensures FirstAltFrom(u, ignoreCase, cls, alts, s, i, n).Some? <==>
              exists k :: n <= k < |alts| && AltFits(u, ignoreCase, cls, alts[k], s, i)
    ensures FirstAltFrom(u, ignoreCase, cls, alts, s, i, n).Some? ==>
              exists k :: n <= k < |alts| && alts[k] == FirstAltFrom(u, ignoreCase, cls, alts, s, i, n).value
                          && forall j :: n <= j < k ==> !AltFits(u, ignoreCase, cls, alts[j], s, i)
    decreases |alts| - n
  {
    if n < |alts| {
      if AltFits(u, ignoreCase, cls, alts[n], s, i) {
        assert FirstAltFrom(u, ignoreCase, cls, alts, s, i, n) == Some(alts[n]);
      } else {
        assert FirstAltFrom(u, ignoreCase, cls, alts, s, i, n) == FirstAltFrom(u, ignoreCase, cls, alts, s, i, n + 1);
        FirstAltFromSpec(u, ignoreCase, cls, alts, s, i, n + 1);
        var r := FirstAltFrom(u, ignoreCase, cls, alts, s, i, n + 1);
        if r.Some? {
          var k :| n + 1 <= k < |alts| && alts[k] == r.value
                   && forall j :: n + 1 <= j < k ==> !AltFits(u, ignoreCase, cls, alts[j], s, i);
          assert forall j :: n <= j < k ==> !AltFits(u, ignoreCase, cls, alts[j], s, i);
        }
      }
    }
  }

  /** FirstAlt picks the earliest alternative that fits, and finds one whenever one fits. */
  lemma FirstAltSpec(u: Unicode, ignoreCase: bool, cls: Class, alts: seq<string>, s: string, i: nat)
    ensures FirstAlt(u, ignoreCase, cls, alts, s, i).Some? <==>
              exists k :: 0 <= k < |alts| && AltFits(u, ignoreCase, cls, alts[k], s, i)
    ensures FirstAlt(u, ignoreCase, cls, alts, s, i).Some? ==>
              exists k :: 0 <= k < |alts| && alts[k] == FirstAlt(u, ignoreCase, cls, alts, s, i).value
                          && forall j :: 0 <= j < k ==> !AltFits(u, ignoreCase, cls, alts[j], s, i)
  {
    FirstAltFromSpec(u, ignoreCase, cls, alts, s, i, 0);
  }

  /** The greedy group starting at `j`, then an optional `?`. */
  function GroupFrom(u: Unicode, cls: Class, s: string, j: nat): (m: Match)
    requires j < |s| && InClass(u, cls, s[j])
    ensures j < m.end <= |s|
  {
    var k := RunEnd(u, cls, s, j);
    Match(if k < |s| && s[k] == '?' then k + 1 else k, s[j..k])
  }

  /** Greedy `.*` after the lead: the LAST position in [m, p] where an alternative fits. */
  function LastAlt(u: Unicode, alts: seq<string>, s: string, m: nat, p: nat): (r: Option<(nat, string)>)
    requires m <= p <= |s|
    ensures r.Some? ==> m <= r.value.0 <= p && AltFits(u, true, AnyButNewline, r.value.1, s, r.value.0)
    decreases p
  {
    match FirstAlt(u, true, AnyButNewline, alts, s, p)
    case Some(a) => Some((p, a))
    case None => if p == m then None else LastAlt(u, alts, s, m, p - 1)
  }

  /** No alternative fits at a position after the one LastAlt picks; it picks none exactly when none fits anywhere. */
  lemma {:induction false} LastAltSpec(u: Unicode, alts: seq<string>, s: string, m: nat, p: nat)
    requires m <= p <= |s|
    ensures LastAlt(u, alts, s, m, p).Some? ==> forall q :: LastAlt(u, alts, s, m, p).value.0 < q <= p ==>
              FirstAlt(u, true, AnyButNewline, alts, s, q).None?
    ensures LastAlt(u, alts, s, m, p).None? <==> forall q :: m <= q <= p ==>
              FirstAlt(u, true, AnyButNewline, alts, s, q).None?
    decreases p
  {
    if FirstAlt(u, true, AnyButNewline, alts, s, p).None? && p > m {
      LastAltSpec(u, alts, s, m, p - 1);
    }
  }

  /**
   * Lazy `.+?` from `j` followed by two `c` characters: the first end `k` of
   * the capture, from the candidate `k` on, that is followed by `cc` with no
   * newline inside the capture.
   */
  function LazyClose(s: string, c: char, j: nat, k: nat): (r: Option<nat>)
    requires j < k <= |s|
    requires forall t :: j <= t < k - 1 ==> s[t] != '\n'
    ensures r.Some? ==> k <= r.value && r.value + 2 <= |s| && s[r.value] == c && s[r.value + 1] == c
    ensures r.Some? ==> forall t :: j <= t < r.value ==> s[t] != '\n'
    decreases |s| - k
  {
    if s[k - 1] == '\n' then None
    else if k + 1 < |s| && s[k] == c && s[k + 1] == c then Some(k)
    else if k + 1 >= |s| then None
    else LazyClose(s, c, j, k + 1)
  }

  /** LazyClose finds the first close: no earlier end past `k` is followed by `cc`. */
  lemma {:induction false} LazyCloseFirst(s: string, c: char, j: nat, k: nat)
    requires j < k <= |s|
    requires forall t :: j <= t < k - 1 ==> s[t] != '\n'
    ensures LazyClose(s, c, j, k).Some? ==>
              forall q :: k <= q < LazyClose(s, c, j, k).value ==> !(s[q] == c && s[q + 1] == c)
    decreases |s| - k
  {
    if s[k - 1] != '\n' && !(k + 1 < |s| && s[k] == c && s[k + 1] == c) && k + 1 < |s| {
      LazyCloseFirst(s, c, j, k + 1);
    }
  }

  /** With no newline and no `c` up to position `k`, and `cc` there, the close is at `k`. */
  lemma {:induction false} LazyCloseAt(s: string, c: char, j: nat, k: nat, q: nat)
    requires j < k <= q && q + 2 <= |s|
    requires forall t :: j <= t < q ==> s[t] != '\n' && s[t] != c
    requires s[q] == c && s[q + 1] == c
    ensures LazyClose(s, c, j, k) == Some(q)
    decreases q - k
  {
    if k < q {
      LazyCloseAt(s, c, j, k + 1, q);
    }
  }

  /** `[[title]]` at `i`, the title on one line and without `]`: the link matches with the title as its group. */
  lemma BracketedAt(u: Unicode, s: string, i: nat, title: string)
    requires title != [] && i + |title| + 4 <= |s|
    requires s[i] == '[' && s[i + 1] == '[' && s[i + 2..i + 2 + |title|] == title
    requires s[i + 2 + |title|] == ']' && s[i + 3 + |title|] == ']'
    requires forall t :: 0 <= t < |title| ==> title[t] != '\n' && title[t] != ']'
    ensures MatchAt(u, Bracketed, s, i) == Some(Match(i + |title| + 4, title))
  {
    forall t | i + 2 <= t < i + 2 + |title|
      ensures s[t] != '\n' && s[t] != ']'
    {
      assert s[t] == s[i + 2..i + 2 + |title|][t - i - 2];
    }
    LazyCloseAt(s, ']', i + 2, i + 3, i + 2 + |title|);
  }

  /** The match of `p` that starts exactly at `i`, if any. */
  function MatchAt(u: Unicode, p: Pattern, s: string, i: nat): (r: Option<Match>)
    requires i <= |s|
    ensures r.Some? ==> i < r.value.end <= |s|
  {
    match p
    case Keyed(alts, ic, cls) =>
      (match FirstAlt(u, ic, cls, alts, s, i)
       case None => None
       case Some(a) => Some(GroupFrom(u, cls, s, i + |a|)))
    case Bracketed =>
      if i + 2 < |s| && s[i] == '[' && s[i + 1] == '[' then
        (match LazyClose(s, ']', i + 2, i + 3)
         case None => None
         case Some(k) => Some(Match(k + 2, s[i + 2..k])))
      else None
    case LeadThenKeyed(lead, alts) =>
      if LitAt(u, true, s, i, lead) then
        var m := i + |lead|;
        (match LastAlt(u, alts, s, m, RunEnd(u, AnyButNewline, s, m))
         case None => None
         case Some(pa) => Some(GroupFrom(u, AnyButNewline, s, pa.0 + |pa.1|)))
      else None
    case Literal(lit) =>
      if lit != [] && LitAt(u, true, s, i, lit) then Some(Match(i + |lit|, s[i..i + |lit|])) else None
  }

  /** `re.findall(p, s[i..])`: scan left to right, report each match, resume at its end. */
  function FindAllFrom(u: Unicode, p: Pattern, s: string, i: nat): seq<string>
    requires i <= |s|
    decreases |s| - i
  {
    if i == |s| then []
    else match MatchAt(u, p, s, i)
      case Some(m) => [m.group] + FindAllFrom(u, p, s, m.end)
      case None => FindAllFrom(u, p, s, i + 1)
  }

  function FindAll(u: Unicode, p: Pattern, s: string): seq<string>
  {
    FindAllFrom(u, p, s, 0)
  }

  /** findall is empty exactly when no position starts a match. */
  lemma FindAllEmptyIff(u: Unicode, p: Pattern, s: string, i: nat)
    requires i <= |s|
    ensures FindAllFrom(u, p, s, i) == [] <==> forall j :: i <= j < |s| ==> MatchAt(u, p, s, j).None?
  {
    if FindAllFrom(u, p, s, i) == [] {
      FindAllEmptyQuiet(u, p, s, i);
    } else if forall j :: i <= j < |s| ==> MatchAt(u, p, s, j).None? {
      FindAllQuietEmpty(u, p, s, i);
    }
  }

  /** An empty findall means no position from `i` on starts a match. */
  lemma {:induction false} FindAllEmptyQuiet(u: Unicode, p: Pattern, s: string, i: nat)
    requires i <= |s| && FindAllFrom(u, p, s, i) == []
    ensures forall j :: i <= j < |s| ==> MatchAt(u, p, s, j).None?
    decreases |s| - i
  {
    if i < |s| {
      assert MatchAt(u, p, s, i).None?;
      assert FindAllFrom(u, p, s, i + 1) == [];
      FindAllEmptyQuiet(u, p, s, i + 1);
    }
  }

  /** With no position from `i` on starting a match, findall is empty. */
  lemma {:induction false} FindAllQuietEmpty(u: Unicode, p: Pattern, s: string, i: nat)
    requires i <= |s| && forall j :: i <= j < |s| ==> MatchAt(u, p, s, j).None?
    ensures FindAllFrom(u, p, s, i) == []
    decreases |s| - i
  {
    if i < |s| {
      assert MatchAt(u, p, s, i).None?;
      FindAllQuietEmpty(u, p, s, i + 1);
    }
  }

  /** Every findall result of a keyed rule is a non-empty run of its class. */
  lemma {:induction false} FindAllKeyedInClass(u: Unicode, alts: seq<string>, ic: bool, cls: Class, s: string, i: nat)
    requires i <= |s|
    ensures forall g :: g in FindAllFrom(u, Keyed(alts, ic, cls), s, i) ==>
              g != [] && forall c :: c in g ==> InClass(u, cls, c)
    decreases |s| - i
  {
    if i < |s| {
      var p := Keyed(alts, ic, cls);
      match MatchAt(u, p, s, i)
      case None =>
        FindAllKeyedInClass(u, alts, ic, cls, s, i + 1);
      case Some(m) =>
        var a := FirstAlt(u, ic, cls, alts, s, i).value;
        RunEndSpec(u, cls, s, i + |a|);
        FindAllKeyedInClass(u, alts, ic, cls, s, m.end);
    }
  }

  /** A keyed rule whose alternative fits at the start, on a single line, captures the whole rest of the line. */
  /** A keyed rule whose alternative `a` fits at the start captures the class run after it, up to `k`. */
  lemma KeyedMatchAtStart(u: Unicode, alts: seq<string>, ic: bool, cls: Class, s: string, a: string, k: nat)
    requires FirstAlt(u, ic, cls, alts, s, 0) == Some(a)
    requires RunEnd(u, cls, s, |a|) == k
    ensures MatchAt(u, Keyed(alts, ic, cls), s, 0) ==
              Some(Match(if k < |s| && s[k] == '?' then k + 1 else k, s[|a|..k]))
  {
  }

  lemma KeyedToEnd(u: Unicode, alts: seq<string>, ic: bool, s: string, a: string)
    requires FirstAlt(u, ic, AnyButNewline, alts, s, 0) == Some(a)
    requires forall t :: |a| <= t < |s| ==> s[t] != '\n'
    ensures FindAll(u, Keyed(alts, ic, AnyButNewline), s) == [s[|a|..]]
  {
    RunEndIs(u, AnyButNewline, s, |a|, |s|);
    assert s[|a|..|s|] == s[|a|..];
    assert MatchAt(u, Keyed(alts, ic, AnyButNewline), s, 0) == Some(Match(|s|, s[|a|..]));
    assert FindAllFrom(u, Keyed(alts, ic, AnyButNewline), s, |s|) == [];
  }

  /** Positions where no match starts are skipped. */
  lemma {:induction false} FindAllSkip(u: Unicode, p: Pattern, s: string, i: nat, k: nat)
    requires i <= k <= |s|
    requires forall j :: i <= j < k ==> MatchAt(u, p, s, j).None?
    ensures FindAllFrom(u, p, s, i) == FindAllFrom(u, p, s, k)
    decreases k - i
  {
    if i < k {
      FindAllSkip(u, p, s, i + 1, k);
    }
  }

  // ---------------------------------------------------------------------------
  // Showing that a case-insensitive rule finds nothing

  /** `l` is `s` lowercased character by character. */
  predicate LowersTo(u: Unicode, s: string, l: string)
  {
    |l| == |s| && forall i :: 0 <= i < |s| ==> u.lower(s[i]) == l[i]
  }

  /** Every alternative has at least two characters, and its first two are already lowercase. */
  predicate LowerHeads(u: Unicode, alts: seq<string>)
  {
    forall k :: 0 <= k < |alts| ==>
      |alts[k]| >= 2 && u.lower(alts[k][0]) == alts[k][0] && u.lower(alts[k][1]) == alts[k][1]
  }

  /** No alternative's first two characters occur in `l` at `i`. */
  predicate NoPair(alts: seq<string>, l: string, i: nat)
  {
    forall k :: 0 <= k < |alts| ==>
      |alts[k]| >= 2 && !(i + 1 < |l| && l[i] == alts[k][0] && l[i + 1] == alts[k][1])
  }

  predicate NoPairs(alts: seq<string>, l: string)
  {
    forall i :: 0 <= i < |l| ==> NoPair(alts, l, i)
  }

  /** When no first letter of an alternative occurs in `l` at all, no first-two-letter pair does. */
  lemma NoPairsByHeads(alts: seq<string>, l: string, heads: string)
    requires forall k :: 0 <= k < |alts| ==> |alts[k]| >= 2 && alts[k][0] in heads
    requires forall i :: 0 <= i < |l| ==> l[i] !in heads
    ensures NoPairs(alts, l)
  {
  }

  /** A literal whose lowercase first letter does not occur in the lowercase form before `n` matches nowhere before `n`. */
  lemma LiteralNoneBefore(u: Unicode, s: string, l: string, lit: string, n: nat)
    requires LowersTo(u, s, l) && lit != [] && u.lower(lit[0]) == lit[0]
    requires n <= |s| && forall j :: 0 <= j < n ==> l[j] != lit[0]
    ensures forall j :: 0 <= j < n ==> MatchAt(u, Literal(lit), s, j).None?
  {
    forall j | 0 <= j < n
      ensures MatchAt(u, Literal(lit), s, j).None?
    {
      NotLitAt(u, true, s, j, lit, 0);
    }
  }

  /** A literal of two or more characters starts with two characters that match. */
  lemma LitAtStart(u: Unicode, ic: bool, s: string, i: nat, lit: string)
    requires |lit| >= 2
    ensures LitAt(u, ic, s, i, lit) ==> i + 1 < |s| && CharEq(u, ic, s[i], lit[0]) && CharEq(u, ic, s[i + 1], lit[1])
  {
    if LitAt(u, ic, s, i, lit) {
      assert LitFrom(u, ic, s, i, lit, 1);
    }
  }

  /** A literal that matches compares equal at each of its positions. */
  lemma {:induction false} LitFromChar(u: Unicode, ic: bool, s: string, i: nat, lit: string, n: nat, k: nat)
    requires n <= k < |lit| && LitFrom(u, ic, s, i, lit, n)
    ensures i + k < |s| && CharEq(u, ic, s[i + k], lit[k])
    decreases k - n
  {
    if n < k {
      LitFromChar(u, ic, s, i, lit, n + 1, k);
    }
  }

  lemma LitAtChar(u: Unicode, ic: bool, s: string, i: nat, lit: string, k: nat)
    requires k < |lit| && LitAt(u, ic, s, i, lit)
    ensures CharEq(u, ic, s[i + k], lit[k])
  {
    LitFromChar(u, ic, s, i, lit, 0, k);
  }

  /** A literal in lowercase that occurs in the lowercase form of `s` matches `s` there, ignoring case. */
  lemma {:induction false} LitFromLowered(u: Unicode, s: string, l: string, i: nat, lit: string, n: nat)
    requires LowersTo(u, s, l) && SubAt(l, i, lit) && n <= |lit|
    requires forall k :: 0 <= k < |lit| ==> u.lower(lit[k]) == lit[k]
    ensures LitFrom(u, true, s, i, lit, n)
    decreases |lit| - n
  {
    if n < |lit| {
      assert l[i + n] == l[i..i + |lit|][n];
      LitFromLowered(u, s, l, i, lit, n + 1);
    }
  }

  lemma LitAtLowered(u: Unicode, s: string, l: string, i: nat, lit: string)
    requires LowersTo(u, s, l) && SubAt(l, i, lit)
    requires forall k :: 0 <= k < |lit| ==> u.lower(lit[k]) == lit[k]
    ensures LitAt(u, true, s, i, lit)
  {
    LitFromLowered(u, s, l, i, lit, 0);
  }

  /** Every character of `lit` is its own lowercase. */
  predicate LowerFixed(u: Unicode, lit: string)
  {
    forall k :: 0 <= k < |lit| ==> u.lower(lit[k]) == lit[k]
  }

  /** One position where the characters differ rules a literal out. */
  lemma NotLitAt(u: Unicode, ic: bool, s: string, i: nat, lit: string, k: nat)
    requires k < |lit| && (i + k < |s| ==> !CharEq(u, ic, s[i + k], lit[k]))
    ensures !LitAt(u, ic, s, i, lit)
  {
    if LitAt(u, ic, s, i, lit) {
      LitAtChar(u, ic, s, i, lit, k);
    }
  }

  /**
   * Alternative `n` occurs in the lowercase form at `i`, a character of the
   * class follows, and every earlier alternative fails: it is the one chosen.
   */
  lemma FirstAltLowered(u: Unicode, cls: Class, alts: seq<string>, s: string, l: string, i: nat, n: nat)
    requires LowersTo(u, s, l) && n < |alts| && SubAt(l, i, alts[n]) && LowerFixed(u, alts[n])
    requires i + |alts[n]| < |s| && InClass(u, cls, s[i + |alts[n]|])
    requires forall j :: 0 <= j < n ==> !LitAt(u, true, s, i, alts[j])
    ensures FirstAlt(u, true, cls, alts, s, i) == Some(alts[n])
  {
    LitAtLowered(u, s, l, i, alts[n]);
    FirstAltAt(u, true, cls, alts, s, i, n);
  }

  /** The first alternative that matches, with a class character after it, is the one chosen. */
  lemma FirstAltAt(u: Unicode, ic: bool, cls: Class, alts: seq<string>, s: string, i: nat, n: nat)
    requires n < |alts| && LitAt(u, ic, s, i, alts[n])
    requires i + |alts[n]| < |s| && InClass(u, cls, s[i + |alts[n]|])
    requires forall j :: 0 <= j < n ==> !LitAt(u, ic, s, i, alts[j])
    ensures FirstAlt(u, ic, cls, alts, s, i) == Some(alts[n])
  {
    assert AltFits(u, ic, cls, alts[n], s, i);
    FirstAltSpec(u, ic, cls, alts, s, i);
  }

  /** No alternative fits where its first two letters do not occur, ignoring case. */
  lemma NoAltLowered(u: Unicode, cls: Class, alts: seq<string>, s: string, l: string, i: nat)
    requires LowersTo(u, s, l) && LowerHeads(u, alts) && NoPair(alts, l, i)
    ensures FirstAlt(u, true, cls, alts, s, i).None?
  {
    FirstAltSpec(u, true, cls, alts, s, i);
    forall k | 0 <= k < |alts|
      ensures !AltFits(u, true, cls, alts[k], s, i)
    {
      LitAtStart(u, true, s, i, alts[k]);
    }
  }

  /** A keyed rule finds nothing in `s` from `i0` on when no alternative's first two letters occur there in its lowercase form. */
  lemma KeyedNoneLoweredFrom(u: Unicode, alts: seq<string>, cls: Class, s: string, l: string, i0: nat)
    requires LowersTo(u, s, l) && LowerHeads(u, alts) && i0 <= |s|
    requires forall i :: i0 <= i < |l| ==> NoPair(alts, l, i)
    ensures FindAllFrom(u, Keyed(alts, true, cls), s, i0) == []
  {
    forall i | i0 <= i < |s|
      ensures MatchAt(u, Keyed(alts, true, cls), s, i).None?
    {
      NoAltLowered(u, cls, alts, s, l, i);
    }
    FindAllEmptyIff(u, Keyed(alts, true, cls), s, i0);
  }

  lemma KeyedNoneLowered(u: Unicode, alts: seq<string>, cls: Class, s: string, l: string)
    requires LowersTo(u, s, l) && LowerHeads(u, alts) && NoPairs(alts, l)
    ensures FindAll(u, Keyed(alts, true, cls), s) == []
  {
    KeyedNoneLoweredFrom(u, alts, cls, s, l, 0);
  }

  /** The same for a rule with a lead: wherever the lead occurs, no alternative follows it. */
  lemma LeadNoneLowered(u: Unicode, lead: string, alts: seq<string>, s: string, l: string)
    requires LowersTo(u, s, l) && LowerHeads(u, alts) && NoPairs(alts, l)
    ensures FindAll(u, LeadThenKeyed(lead, alts), s) == []
  {
    forall i | 0 <= i < |s|
      ensures MatchAt(u, LeadThenKeyed(lead, alts), s, i).None?
    {
      if LitAt(u, true, s, i, lead) {
        var m := i + |lead|;
        var p := RunEnd(u, AnyButNewline, s, m);
        forall q | m <= q <= p
          ensures FirstAlt(u, true, AnyButNewline, alts, s, q).None?
        {
          NoAltLowered(u, AnyButNewline, alts, s, l, q);
        }
        LastAltSpec(u, alts, s, m, p);
      }
    }
    FindAllEmptyIff(u, LeadThenKeyed(lead, alts), s, 0);
  }

  /** A case-sensitive keyed rule finds nothing when no alternative's first two letters occur in `s`. */
  lemma KeyedNoneExact(u: Unicode, alts: seq<string>, cls: Class, s: string)
    requires NoPairs(alts, s)
    ensures FindAll(u, Keyed(alts, false, cls), s) == []
  {
    forall i | 0 <= i < |s|
      ensures MatchAt(u, Keyed(alts, false, cls), s, i).None?
    {
      FirstAltSpec(u, false, cls, alts, s, i);
      assert NoPair(alts, s, i);
      forall k | 0 <= k < |alts|
        ensures !AltFits(u, false, cls, alts[k], s, i)
      {
        LitAtStart(u, false, s, i, alts[k]);
      }
    }
    FindAllEmptyIff(u, Keyed(alts, false, cls), s, 0);
  }

  /** The pointwise lowering is `str.lower()`. */
  lemma LowerIs(u: Unicode, s: string, l: string)
    requires LowersTo(u, s, l)
    ensures Lower(u, s) == l
  {
  }

  /** Without `[`, a bracketed link is never found. */
  lemma BracketedNone(u: Unicode, s: string)
    requires forall i :: 0 <= i < |s| ==> s[i] != '['
    ensures FindAll(u, Bracketed, s) == []
  {
    FindAllEmptyIff(u, Bracketed, s, 0);
  }
}
