/** The few Python `str` operations the checker relies on, restricted to
    ASCII: digits `0`-`9`, the letters `A`-`Z`/`a`-`z`, and the ASCII
    characters `str.isspace` accepts.  Python applies the same operations
    to all of Unicode; README lists that restriction. */
module PyStr {
  import opened Wrappers

  predicate IsDigitChar(c: char) {
    '0' <= c <= '9'
  }

  /** `str.isdigit()`: non-empty and made only of digits. */
  predicate IsDigits(s: string) {
    |s| > 0 && forall i :: 0 <= i < |s| ==> IsDigitChar(s[i])
  }

  predicate AllDigits(s: string) {
    forall i :: 0 <= i < |s| ==> IsDigitChar(s[i])
  }

  function DigitValue(c: char): (d: nat)
    requires IsDigitChar(c)
    ensures d < 10
  {
    (c as int - '0' as int) as nat
  }

  /** The decimal value of a string of digits (`int(s)` for such a string). */
  function DigitsValue(s: string): nat
    requires AllDigits(s)
  {
    if |s| == 0 then 0 else 10 * DigitsValue(s[..|s| - 1]) + DigitValue(s[|s| - 1])
  }

  /** `int(s)` on a string: digit strings convert, anything else is the
      ValueError Python raises (see README for the inputs Python also
      accepts). */
  function PyInt(s: string): (r: Result<int>)
    ensures r.Ok? <==> IsDigits(s)
    ensures r.Ok? ==> r.value >= 0
  {
    if IsDigits(s) then Ok(DigitsValue(s)) else Err(Builtin("ValueError"))
  }

  /** The ASCII characters for which `str.isspace()` holds; `str.split()`
      and the regular-expression class `\s` use the same set. */
  predicate IsSpace(c: char) {
    c == ' ' || c == '\t' || c == '\n' || c == '\r' || c == '\U{0B}' || c == '\U{0C}'
    || c == '\U{1C}' || c == '\U{1D}' || c == '\U{1E}' || c == '\U{1F}'
  }

  /** A piece `str.split()` can return: non-empty, without whitespace. */
  predicate IsWord(w: string) {
    |w| > 0 && forall i :: 0 <= i < |w| ==> !IsSpace(w[i])
  }

  /** Length of the run of non-space characters at the start of `s`. */
  function WordLength(s: string): (n: nat)
    ensures n <= |s|
    ensures forall i :: 0 <= i < n ==> !IsSpace(s[i])
    ensures n < |s| ==> IsSpace(s[n])
    ensures |s| > 0 && !IsSpace(s[0]) ==> n > 0
  {
    if |s| == 0 || IsSpace(s[0]) then 0 else 1 + WordLength(s[1..])
  }

  /** `str.split()` with no separator: the maximal runs of non-space
      characters, in order. */
  function Split(s: string): (words: seq<string>)
    ensures forall i :: 0 <= i < |words| ==> IsWord(words[i])
    decreases |s|
  {
    if |s| == 0 then []
    else if IsSpace(s[0]) then Split(s[1..])
    else
      var n := WordLength(s);
      [s[..n]] + Split(s[n..])
  }

  /** `" ".join(words)`. */
  function Join(words: seq<string>): string {
    if |words| == 0 then ""
    else if |words| == 1 then words[0]
    else words[0] + " " + Join(words[1..])
  }

  lemma {:induction false} WordLengthOfWord(w: string, t: string)
    requires IsWord(w)
    requires t == [] || IsSpace(t[0])
    ensures WordLength(w + t) == |w|
    decreases |w|
  {
    if |w| > 1 {
      assert (w + t)[1..] == w[1..] + t;
      WordLengthOfWord(w[1..], t);
    } else {
      assert (w + t)[1..] == t;
    }
  }

  /** Splitting a space-joined list of words gives the words back. */
  lemma {:induction false} SplitJoin(words: seq<string>)
    requires forall i :: 0 <= i < |words| ==> IsWord(words[i])
    ensures Split(Join(words)) == words
    decreases |words|
  {
    if |words| == 1 {
      var w := words[0];
      WordLengthOfWord(w, []);
      assert w + [] == w;
      assert w[|w|..] == [];
    } else if |words| > 1 {
      var w, rest := words[0], Join(words[1..]);
      var s := w + " " + rest;
      WordLengthOfWord(w, " " + rest);
      assert s == w + (" " + rest);
      assert s[..|w|] == w;
      assert s[|w|..] == " " + rest;
      assert (" " + rest)[1..] == rest;
      SplitJoin(words[1..]);
      assert [w] + words[1..] == words;
    }
  }

  /** A joined list of words starts with the first word's first character
      and ends with the last word's last character. */
  lemma {:induction false} JoinEnds(words: seq<string>)
    requires |words| > 0
    requires forall i :: 0 <= i < |words| ==> IsWord(words[i])
    ensures |Join(words)| > 0
    ensures IsWord(words[0]) && Join(words)[0] == words[0][0]
    ensures var last := words[|words| - 1];
      IsWord(last) && Join(words)[|Join(words)| - 1] == last[|last| - 1]
    decreases |words|
  {
    if |words| > 1 {
      JoinEnds(words[1..]);
    }
  }

  /** Joining with spaces adds no character other than the space. */
  lemma {:induction false} JoinAvoids(words: seq<string>, ch: char)
    requires ch != ' '
    requires forall i :: 0 <= i < |words| ==> ch !in words[i]
    ensures ch !in Join(words)
    decreases |words|
  {
    if |words| > 1 {
      JoinAvoids(words[1..], ch);
    }
  }

  /** Two lists of words with the same joined text are the same list. */
  lemma JoinInjective(a: seq<string>, b: seq<string>)
    requires forall i :: 0 <= i < |a| ==> IsWord(a[i])
    requires forall i :: 0 <= i < |b| ==> IsWord(b[i])
    requires Join(a) == Join(b)
    ensures a == b
  {
    SplitJoin(a);
    SplitJoin(b);
  }

  predicate IsUpperChar(c: char) {
    'A' <= c <= 'Z'
  }

  predicate IsLowerChar(c: char) {
    'a' <= c <= 'z'
  }

  /** ASCII cased characters are exactly the letters. */
  predicate IsCased(c: char) {
    IsUpperChar(c) || IsLowerChar(c)
  }

  function Lower(c: char): (r: char)
    ensures IsUpperChar(c) ==> IsLowerChar(r)
    ensures !IsUpperChar(c) ==> r == c
  {
    if IsUpperChar(c) then (c as int + 32) as char else c
  }

  function Upper(c: char): (r: char)
    ensures IsLowerChar(c) ==> IsUpperChar(r)
    ensures !IsLowerChar(c) ==> r == c
  {
    if IsLowerChar(c) then (c as int - 32) as char else c
  }

  /** `str.lower()`. */
  function LowerStr(s: string): (r: string)
    ensures |r| == |s|
    ensures forall i :: 0 <= i < |s| ==> r[i] == Lower(s[i])
  {
    seq(|s|, i requires 0 <= i < |s| => Lower(s[i]))
  }

  /** `str.title()`: a cased character that follows a cased character is
      lower-cased, every other character is upper-cased. */
  function TitleFrom(s: string, previousCased: bool): (r: string)
    ensures |r| == |s|
    decreases |s|
  {
    if |s| == 0 then ""
    else [if previousCased then Lower(s[0]) else Upper(s[0])] + TitleFrom(s[1..], IsCased(s[0]))
  }

  function TitleCase(s: string): (r: string)
    ensures |r| == |s|
  {
    TitleFrom(s, false)
  }

  lemma {:induction false} TitleFromIdempotent(s: string, previousCased: bool)
    ensures TitleFrom(TitleFrom(s, previousCased), previousCased) == TitleFrom(s, previousCased)
    decreases |s|
  {
    if |s| > 0 {
      var c := if previousCased then Lower(s[0]) else Upper(s[0]);
      assert IsCased(c) == IsCased(s[0]);
      assert TitleFrom(s, previousCased)[1..] == TitleFrom(s[1..], IsCased(s[0]));
      TitleFromIdempotent(s[1..], IsCased(s[0]));
    }
  }

  /** Title-casing is idempotent, so a title-case symbol is left as it is. */
  lemma TitleCaseIdempotent(s: string)
    ensures TitleCase(TitleCase(s)) == TitleCase(s)
  {
    TitleFromIdempotent(s, false);
  }

  /** `str.islower()`: some cased character and no upper-case one. */
  predicate IsLowerStr(s: string) {
    (exists i :: 0 <= i < |s| && IsLowerChar(s[i])) && forall i :: 0 <= i < |s| ==> !IsUpperChar(s[i])
  }

  /** `s.endswith(c)` for one character. */
  predicate EndsWith(s: string, c: char) {
    |s| > 0 && s[|s| - 1] == c
  }

  /** `s.rstrip(c)` for one character: every trailing `c` removed. */
  function RStrip(s: string, c: char): (r: string)
    ensures |r| <= |s| && r == s[..|r|]
    ensures !EndsWith(r, c)
    ensures forall i :: |r| <= i < |s| ==> s[i] == c
  {
    if EndsWith(s, c) then RStrip(s[..|s| - 1], c) else s
  }

  /** Python's ordering of strings: code point by code point, a proper
      prefix before the longer string. */
  predicate LexLess(a: string, b: string) {
    if |a| == 0 then |b| > 0
    else if |b| == 0 then false
    else if a[0] != b[0] then a[0] < b[0]
    else LexLess(a[1..], b[1..])
  }

  lemma {:induction false} LexLessIrreflexive(a: string)
    ensures !LexLess(a, a)
    decreases |a|
  {
    if |a| > 0 { LexLessIrreflexive(a[1..]); }
  }

  lemma {:induction false} LexLessTransitive(a: string, b: string, c: string)
    requires LexLess(a, b) && LexLess(b, c)
    ensures LexLess(a, c)
    decreases |a|
  {
    if |a| > 0 && |b| > 0 && |c| > 0 && a[0] == b[0] && b[0] == c[0] {
      LexLessTransitive(a[1..], b[1..], c[1..]);
    }
  }

  lemma {:induction false} LexLessTotal(a: string, b: string)
    requires a != b
    ensures LexLess(a, b) || LexLess(b, a)
    decreases |a|
  {
    if |a| > 0 && |b| > 0 && a[0] == b[0] {
      assert a == [a[0]] + a[1..] && b == [b[0]] + b[1..];
      LexLessTotal(a[1..], b[1..]);
    }
  }

  /** A proper prefix sorts before the longer string. */
  lemma {:induction false} ProperPrefixLess(p: string, s: string)
    requires |p| < |s| && p == s[..|p|]
    ensures LexLess(p, s)
    decreases |p|
  {
    if |p| > 0 {
      assert p[1..] == s[1..][..|p| - 1];
      ProperPrefixLess(p[1..], s[1..]);
    }
  }

  /** `s.split(c)` for one separator character: the pieces between
      separators, empty ones included, so there is always at least one. */
  function SplitOn(s: string, c: char): (r: seq<string>)
    ensures |r| > 0
    decreases |s|
  {
    if |s| == 0 then [""]
    else
      var r := SplitOn(s[..|s| - 1], c);
      if s[|s| - 1] == c then r + [""]
      else r[..|r| - 1] + [r[|r| - 1] + [s[|s| - 1]]]
  }

  /** `c.join(words)` for one separator character. */
  function JoinWith(words: seq<string>, c: char): string {
    if |words| == 0 then ""
    else if |words| == 1 then words[0]
    else JoinWith(words[..|words| - 1], c) + [c] + words[|words| - 1]
  }

  lemma JoinWithExtendLast(words: seq<string>, c: char, ch: char)
    requires |words| > 0
    ensures JoinWith(words[..|words| - 1] + [words[|words| - 1] + [ch]], c) == JoinWith(words, c) + [ch]
  {
    var front := words[..|words| - 1];
    var longer := front + [words[|words| - 1] + [ch]];
    assert longer[..|longer| - 1] == front;
  }

  /** Joining the pieces of a split gives the string back. */
  lemma {:induction false} JoinSplitOn(s: string, c: char)
    ensures JoinWith(SplitOn(s, c), c) == s
    decreases |s|
  {
    if |s| > 0 {
      var front := s[..|s| - 1];
      var r := SplitOn(front, c);
      JoinSplitOn(front, c);
      if s[|s| - 1] == c {
        assert (r + [""])[..|r|] == r;
      } else {
        JoinWithExtendLast(r, c, s[|s| - 1]);
      }
      assert front + [s[|s| - 1]] == s;
    }
  }

  lemma {:induction false} SplitOnAppend(t: string, c: char, w: string)
    requires c !in w
    ensures SplitOn(t + [c] + w, c) == SplitOn(t, c) + [w]
    decreases |w|
  {
    if |w| == 0 {
      assert (t + [c] + w)[..|t|] == t;
      assert t + [c] + w == t + [c];
    } else {
      var front := w[..|w| - 1];
      SplitOnAppend(t, c, front);
      var s := t + [c] + w;
      assert s[..|s| - 1] == t + [c] + front;
      assert s[|s| - 1] == w[|w| - 1];
      assert front + [w[|w| - 1]] == w;
    }
  }

  lemma {:induction false} SplitOnNoSeparator(w: string, c: char)
    requires c !in w
    ensures SplitOn(w, c) == [w]
    decreases |w|
  {
    if |w| > 0 {
      SplitOnNoSeparator(w[..|w| - 1], c);
      assert w[..|w| - 1] + [w[|w| - 1]] == w;
    }
  }

  /** Splitting a join of separator-free words gives the words back. */
  lemma {:induction false} SplitOnJoin(words: seq<string>, c: char)
    requires |words| > 0
    requires forall i :: 0 <= i < |words| ==> c !in words[i]
    ensures SplitOn(JoinWith(words, c), c) == words
    decreases |words|
  {
    if |words| == 1 {
      SplitOnNoSeparator(words[0], c);
    } else {
      var front := words[..|words| - 1];
      SplitOnJoin(front, c);
      SplitOnAppend(JoinWith(front, c), c, words[|words| - 1]);
      assert front + [words[|words| - 1]] == words;
    }
  }
}
