/**
 * String primitives of Python's `str` that the bot uses, over `seq<char>`.
 * The Unicode tables behind them (lowercasing, `\w`, whitespace, `istitle`,
 * `capitalize`) are not modelled: they are the fields of a `Unicode` record
 * that every caller passes in.
 */
module Text {

  /** The parts of Python's Unicode tables the bot depends on, taken as given. */
  datatype Unicode = Unicode(
    lower: char -> char,           // per-character lowercase: str.lower and re.IGNORECASE
    isWord: char -> bool,          // re's \w
    isSpace: char -> bool,         // re's \s and the whitespace of str.split() and str.strip()
    isTitle: string -> bool,       // str.istitle
    capitalize: string -> string,  // str.capitalize
    title: string -> string)       // str.title

  // ---------------------------------------------------------------------------
  // Reference tables on ASCII and the basic Cyrillic block (U+0400..U+045F, Ґ/ґ)

  /** Python's lowercase mapping, on the characters of `InTables`. */
  function TableLower(c: char): char
  {
    if 'A' <= c <= 'Z' then (c as int + 0x20) as char
    else if '\U{400}' <= c <= '\U{40F}' then (c as int + 0x50) as char
    else if '\U{410}' <= c <= '\U{42F}' then (c as int + 0x20) as char
    else if c == '\U{490}' then '\U{491}'
    else c
  }

  predicate InTables(c: char)
  {
    (c as int) < 0x80 || '\U{400}' <= c <= '\U{45F}' || c == '\U{490}' || c == '\U{491}'
  }

  predicate TableWord(c: char)
  {
    'a' <= c <= 'z' || 'A' <= c <= 'Z' || '0' <= c <= '9' || c == '_'
    || '\U{400}' <= c <= '\U{45F}' || c == '\U{490}' || c == '\U{491}'
  }

  predicate TableSpace(c: char)
  {
    c == ' ' || '\t' <= c <= '\r' || '\U{1C}' <= c <= '\U{1F}'
  }

  /**
   * `u` agrees with Python's tables on ASCII and basic Cyrillic. Only the
   * concrete examples assume this; every general property holds for any `u`.
   */
  ghost predicate StandardTables(u: Unicode)
  {
    forall c: char {:trigger u.lower(c)} {:trigger u.isWord(c)} {:trigger u.isSpace(c)} ::
      InTables(c) ==>
        u.lower(c) == TableLower(c) && u.isWord(c) == TableWord(c) && u.isSpace(c) == TableSpace(c)
  }

  // ---------------------------------------------------------------------------
  // Matching literals

  /** Two characters match: equal, or equal once lowercased when case is ignored. */
  predicate CharEq(u: Unicode, ignoreCase: bool, a: char, b: char)
  {
    a == b || (ignoreCase && u.lower(a) == u.lower(b))
  }

  /** The literal `lit` matches `s` at position `i`, character by character. */
  predicate LitAt(u: Unicode, ignoreCase: bool, s: string, i: nat, lit: string)
  {
    i + |lit| <= |s| && LitFrom(u, ignoreCase, s, i, lit, 0)
  }

  /** Characters `n..` of `lit` match `s` from position `i + n` on. */
  predicate LitFrom(u: Unicode, ignoreCase: bool, s: string, i: nat, lit: string, n: nat)
    requires n <= |lit|
    decreases |lit| - n
  {
    n == |lit| || (i + n < |s| && CharEq(u, ignoreCase, s[i + n], lit[n]) && LitFrom(u, ignoreCase, s, i, lit, n + 1))
  }

  /** `sub` occurs in `s` at position `i`. */
  predicate SubAt(s: string, i: nat, sub: string)
  {
    i + |sub| <= |s| && s[i..i + |sub|] == sub
  }

  /** Python's `sub in s`. */
  predicate Contains(s: string, sub: string)
  {
    exists i: nat | i <= |s| :: SubAt(s, i, sub)
  }

  /** An exact occurrence is a match, with or without case folding. */
  lemma SubAtIsLitAt(u: Unicode, ignoreCase: bool, s: string, i: nat, sub: string)
    requires SubAt(s, i, sub)
    ensures LitAt(u, ignoreCase, s, i, sub)
  {
    SubAtIsLitFrom(u, ignoreCase, s, i, sub, 0);
  }

  lemma {:induction false} SubAtIsLitFrom(u: Unicode, ignoreCase: bool, s: string, i: nat, sub: string, n: nat)
    requires SubAt(s, i, sub) && n <= |sub|
    ensures LitFrom(u, ignoreCase, s, i, sub, n)
    decreases |sub| - n
  {
    if n < |sub| {
      assert s[i + n] == s[i..i + |sub|][n];
      SubAtIsLitFrom(u, ignoreCase, s, i, sub, n + 1);
    }
  }

  /** `sub` occurs between `pre` and `post`. */
  lemma ContainsMiddle(pre: string, sub: string, post: string)
    ensures Contains(pre + sub + post, sub)
  {
    assert (pre + sub + post)[|pre|..|pre| + |sub|] == sub;
    assert SubAt(pre + sub + post, |pre|, sub);
  }

  /** A string without the first character of `sub` does not contain `sub`. */
  lemma NotContainsHead(s: string, sub: string)
    requires sub != [] && forall i :: 0 <= i < |s| ==> s[i] != sub[0]
    ensures !Contains(s, sub)
  {
    forall i: nat | i <= |s|
      ensures !SubAt(s, i, sub)
    {
      if i + |sub| <= |s| {
        assert s[i..i + |sub|][0] == s[i];
      }
    }
  }

  /** What `a` contains, `a + b` contains. */
  lemma ContainsPrefix(a: string, b: string, sub: string)
    requires Contains(a, sub)
    ensures Contains(a + b, sub)
  {
    var i: nat :| i <= |a| && SubAt(a, i, sub);
    assert (a + b)[i..i + |sub|] == a[i..i + |sub|];
    assert SubAt(a + b, i, sub);
  }

  // ---------------------------------------------------------------------------
  // Case mapping, stripping, splitting and joining

  /** Python's `s.lower()`, one character at a time. */
  function Lower(u: Unicode, s: string): (r: string)
    ensures |r| == |s|
    ensures forall k :: 0 <= k < |s| ==> r[k] == u.lower(s[k])
  {
    if s == [] then [] else [u.lower(s[0])] + Lower(u, s[1..])
  }

  /** `s` with every leading character satisfying `p` removed (`str.lstrip`). */
  function LStripBy(s: string, p: char -> bool): (r: string)
    ensures |r| <= |s| && r == s[|s| - |r|..]
    ensures forall k :: 0 <= k < |s| - |r| ==> p(s[k])
    ensures r != [] ==> !p(r[0])
  {
    if s != [] && p(s[0]) then
      var r := LStripBy(s[1..], p);
      assert s[1..][|s| - 1 - |r|..] == s[|s| - |r|..];
      assert forall k :: 1 <= k < |s| - |r| ==> s[k] == s[1..][k - 1];
      r
    else s
  }

  /** `s` with every trailing character satisfying `p` removed (`str.rstrip`). */
  function RStripBy(s: string, p: char -> bool): (r: string)
    ensures |r| <= |s| && r == s[..|r|]
    ensures forall k :: |r| <= k < |s| ==> p(s[k])
    ensures r != [] ==> !p(r[|r| - 1])
  {
    if s != [] && p(s[|s| - 1]) then RStripBy(s[..|s| - 1], p) else s
  }

  /** Python's `s.strip()`. */
  function Strip(u: Unicode, s: string): string
  {
    RStripBy(LStripBy(s, u.isSpace), u.isSpace)
  }

  /** Stripping keeps a first character that is not whitespace. */
  lemma StripFirst(u: Unicode, s: string)
    requires s != [] && !u.isSpace(s[0])
    ensures Strip(u, s) != [] && Strip(u, s)[0] == s[0]
  {
    var l := LStripBy(s, u.isSpace);
    assert l == s;
  }

  /** A string without whitespace is its own strip. */
  lemma StripKeeps(u: Unicode, s: string)
    requires forall k :: 0 <= k < |s| ==> !u.isSpace(s[k])
    ensures Strip(u, s) == s
  {
    assert LStripBy(s, u.isSpace) == s;
  }

  /** Length of the leading run of non-whitespace characters. */
  function WordLen(u: Unicode, s: string): (n: nat)
    ensures n <= |s|
    ensures forall k :: 0 <= k < n ==> !u.isSpace(s[k])
    ensures n < |s| ==> u.isSpace(s[n])
  {
    if s == [] || u.isSpace(s[0]) then 0 else 1 + WordLen(u, s[1..])
  }

  /** Python's `s.split()`: the maximal runs of non-whitespace, in order. */
  function Split(u: Unicode, s: string): (r: seq<string>)
    ensures forall k :: 0 <= k < |r| ==> r[k] != [] && NoSpace(u, r[k])
    decreases |s|
  {
    if s == [] then []
    else if u.isSpace(s[0]) then Split(u, s[1..])
    else
      var n := WordLen(u, s);
      [s[..n]] + Split(u, s[n..])
  }

  predicate NoSpace(u: Unicode, w: string)
  {
    forall k :: 0 <= k < |w| ==> !u.isSpace(w[k])
  }

  /** Python's `sep.join(xs)`. */
  function Join(sep: string, xs: seq<string>): string
  {
    if xs == [] then "" else if |xs| == 1 then xs[0] else xs[0] + sep + Join(sep, xs[1..])
  }

  /** A non-empty separator makes a join empty exactly when it joins nothing or one empty string. */
  lemma {:induction false} JoinEmptyIff(sep: string, xs: seq<string>)
    requires sep != []
    ensures Join(sep, xs) == "" <==> xs == [] || xs == [""]
  {
    if |xs| > 1 {
      assert |Join(sep, xs)| >= |sep|;
    }
  }

  /** Joining one more item appends the separator and that item. */
  lemma {:induction false} JoinSnoc(sep: string, xs: seq<string>, x: string)
    requires xs != []
    ensures Join(sep, xs + [x]) == Join(sep, xs) + sep + x
    decreases |xs|
  {
    if |xs| == 1 {
      assert xs + [x] == [xs[0], x];
    } else {
      assert (xs + [x])[1..] == xs[1..] + [x];
      JoinSnoc(sep, xs[1..], x);
    }
  }

  lemma {:induction false} SplitWordThen(u: Unicode, w: string, t: string)
    requires w != [] && NoSpace(u, w)
    requires t == [] || u.isSpace(t[0])
    ensures Split(u, w + t) == [w] + Split(u, t)
  {
    WordLenOf(u, w, t);
    assert (w + t)[..|w|] == w;
    assert (w + t)[|w|..] == t;
  }

  lemma {:induction false} WordLenOf(u: Unicode, w: string, t: string)
    requires NoSpace(u, w)
    requires t == [] || u.isSpace(t[0])
    ensures WordLen(u, w + t) == |w|
    decreases |w|
  {
    if w != [] {
      assert (w + t)[1..] == w[1..] + t;
      WordLenOf(u, w[1..], t);
    } else {
      assert w + t == t;
    }
  }

  /**
   * Splitting a single-space join gives the words back, when the words are
   * non-empty and contain no whitespace.
   */
  lemma {:induction false} SplitJoin(u: Unicode, ws: seq<string>)
    requires u.isSpace(' ')
    requires forall k :: 0 <= k < |ws| ==> ws[k] != [] && NoSpace(u, ws[k])
    ensures Split(u, Join(" ", ws)) == ws
  {
    if ws == [] {
    } else if |ws| == 1 {
      SplitWordThen(u, ws[0], "");
      assert ws[0] + "" == ws[0];
    } else {
      var rest := Join(" ", ws[1..]);
      assert Join(" ", ws) == ws[0] + (" " + rest);
      SplitWordThen(u, ws[0], " " + rest);
      assert (" " + rest)[1..] == rest;
      SplitJoin(u, ws[1..]);
    }
  }

  /** Python's `s.replace(a, b)` for single characters. */
  function ReplaceChar(s: string, a: char, b: char): (r: string)
    ensures |r| == |s|
    ensures forall k :: 0 <= k < |s| ==> r[k] == (if s[k] == a then b else s[k])
  {
    if s == [] then [] else [if s[0] == a then b else s[0]] + ReplaceChar(s[1..], a, b)
  }

  // ---------------------------------------------------------------------------
  // Decimal rendering of integers, as f"{n}" does

  function DigitChar(d: nat): char
    requires d < 10
  {
    "0123456789"[d]
  }

  function NatToDecimal(n: nat): (r: string)
    ensures r != []
    ensures forall k :: 0 <= k < |r| ==> '0' <= r[k] <= '9'
  {
    if n < 10 then [DigitChar(n)] else NatToDecimal(n / 10) + [DigitChar(n % 10)]
  }

  /** Python's `str(n)` for an `int`. */
  function IntToDecimal(n: int): string
  {
    if n < 0 then "-" + NatToDecimal(-n) else NatToDecimal(n)
  }

  /** The value of a string of decimal digits (the partner of NatToDecimal). */
  function DecimalValue(s: string): nat
    requires forall k :: 0 <= k < |s| ==> '0' <= s[k] <= '9'
  {
    if s == [] then 0 else DecimalValue(s[..|s| - 1]) * 10 + (s[|s| - 1] as int - '0' as int)
  }

  /** Rendering a natural number in decimal loses nothing. */
  lemma {:induction false} DecimalRoundTrip(n: nat)
    ensures DecimalValue(NatToDecimal(n)) == n
  {
    var r := NatToDecimal(n);
    if n >= 10 {
      DecimalRoundTrip(n / 10);
      assert r[..|r| - 1] == NatToDecimal(n / 10);
    }
  }
}
