/** The token tables of the older lexer (`src/validator/lex.py`): the
    regular expression for atom symbols, built from the periodic table's
    symbols, and the one for the bonds that are not single characters of
    their own. */
module Lexer {
  import opened PyStr

  // ---------------------------------------------------------------------
  // re.escape
  // ---------------------------------------------------------------------

  /** The characters `re.escape` puts a backslash in front of. */
  predicate IsSpecial(c: char) {
    c in {'(', ')', '[', ']', '{', '}', '?', '*', '+', '-', '|', '^', '$', '\\', '.', '&', '~', '#',
          ' ', '\t', '\n', '\r', '\U{0B}', '\U{0C}'}
  }

  /** `re.escape(s)`. */
  function Escape(s: string): (r: string)
    ensures |r| >= |s|
  {
    if |s| == 0 then ""
    else (if IsSpecial(s[0]) then ['\\', s[0]] else [s[0]]) + Escape(s[1..])
  }

  /** What the regular-expression engine reads back from an escaped
      literal: a backslash stands for the character after it. */
  function Unescape(s: string): string {
    if |s| == 0 then ""
    else if s[0] == '\\' && |s| >= 2 then [s[1]] + Unescape(s[2..])
    else [s[0]] + Unescape(s[1..])
  }

  /** An escaped string matches exactly the original text. */
  lemma {:induction false} UnescapeEscape(s: string)
    ensures Unescape(Escape(s)) == s
  {
    if |s| > 0 {
      UnescapeEscape(s[1..]);
      var e := Escape(s);
      if IsSpecial(s[0]) {
        assert e == ['\\', s[0]] + Escape(s[1..]);
        assert e[2..] == Escape(s[1..]);
      } else {
        assert e == [s[0]] + Escape(s[1..]);
        assert e[1..] == Escape(s[1..]);
        assert s[0] != '\\';
      }
      assert s == [s[0]] + s[1..];
    }
  }

  /** Symbols made of letters come out of `re.escape` unchanged. */
  lemma {:induction false} EscapePlain(s: string)
    requires forall i :: 0 <= i < |s| ==> !IsSpecial(s[i])
    ensures Escape(s) == s
  {
    if |s| > 0 {
      EscapePlain(s[1..]);
      assert s == [s[0]] + s[1..];
    }
  }

  /** An escaped string has no bare "|": each one follows a backslash. */
  lemma {:induction false} EscapeGuardsBar(s: string)
    ensures forall i :: 0 <= i < |Escape(s)| && Escape(s)[i] == '|' ==> i > 0 && Escape(s)[i - 1] == '\\'
  {
    if |s| > 0 {
      EscapeGuardsBar(s[1..]);
      var head: string := if IsSpecial(s[0]) then ['\\', s[0]] else [s[0]];
      var e := Escape(s);
      assert e == head + Escape(s[1..]);
      forall i | 0 <= i < |e| && e[i] == '|' ensures i > 0 && e[i - 1] == '\\' {
        if i >= |head| {
          assert e[i] == Escape(s[1..])[i - |head|];
          if i - |head| > 0 {
            assert e[i - 1] == Escape(s[1..])[i - |head| - 1];
          }
        }
      }
    }
  }

  function EscapedAll(elems: seq<string>): (r: seq<string>)
    ensures |r| == |elems| && forall i :: 0 <= i < |elems| ==> r[i] == Escape(elems[i])
  {
    seq(|elems|, i requires 0 <= i < |elems| => Escape(elems[i]))
  }

  /** `generate_regex_from_list(elem_list)`: the escaped elements joined by
      "|", in the order given. */
  method GenerateRegexFromList(elems: seq<string>) returns (r: string)
    ensures r == JoinWith(EscapedAll(elems), '|')
  {
    var escaped: seq<string> := [];
    for i := 0 to |elems|
      invariant escaped == EscapedAll(elems[..i])
    {
      assert EscapedAll(elems[..i + 1]) == escaped + [Escape(elems[i])];
      escaped := escaped + [Escape(elems[i])];
    }
    assert elems[..|elems|] == elems;
    r := JoinWith(escaped, '|');
  }

  /** When no element has a special character, the alternatives of the
      regular expression are exactly the elements, in order. */
  lemma RegexAlternatives(elems: seq<string>)
    requires |elems| > 0
    requires forall i, k :: 0 <= i < |elems| && 0 <= k < |elems[i]| ==> !IsSpecial(elems[i][k])
    ensures SplitOn(JoinWith(EscapedAll(elems), '|'), '|') == elems
  {
    forall i | 0 <= i < |elems| ensures Escape(elems[i]) == elems[i] {
      EscapePlain(elems[i]);
    }
    assert EscapedAll(elems) == elems;
    SplitOnJoin(elems, '|');
  }

  // ---------------------------------------------------------------------
  // sorted(..., reverse=True)
  // ---------------------------------------------------------------------

  /** Each element is at least as large as the ones after it. */
  predicate SortedDesc(s: seq<string>) {
    forall i, j :: 0 <= i < j < |s| ==> !LexLess(s[i], s[j])
  }

  /** `x` placed into a descending list, before the first smaller element. */
  function Insert(x: string, s: seq<string>): seq<string> {
    if |s| == 0 then [x]
    else if LexLess(s[0], x) then [x] + s
    else [s[0]] + Insert(x, s[1..])
  }

  /** `a` is at least as large as every element of `t`. */
  predicate AtLeastAll(a: string, t: seq<string>) {
    forall k :: 0 <= k < |t| ==> !LexLess(a, t[k])
  }

  lemma {:induction false} InsertCount(x: string, s: seq<string>)
    ensures multiset(Insert(x, s)) == multiset(s) + multiset{x}
    ensures |Insert(x, s)| == |s| + 1
    decreases |s|
  {
    if |s| > 0 {
      assert s == [s[0]] + s[1..];
      if !LexLess(s[0], x) {
        InsertCount(x, s[1..]);
      }
    }
  }

  lemma AtLeastAllOfMultiset(a: string, t: seq<string>, u: seq<string>, x: string)
    requires AtLeastAll(a, t) && !LexLess(a, x)
    requires multiset(u) == multiset(t) + multiset{x}
    ensures AtLeastAll(a, u)
  {
    forall k | 0 <= k < |u| ensures !LexLess(a, u[k]) {
      assert u[k] in multiset(u);
      if u[k] != x {
        assert u[k] in multiset(t);
        var m :| 0 <= m < |t| && t[m] == u[k];
      }
    }
  }

  lemma SortedCons(a: string, t: seq<string>)
    requires AtLeastAll(a, t) && SortedDesc(t)
    ensures SortedDesc([a] + t)
  {
    var r := [a] + t;
    forall i, j | 0 <= i < j < |r| ensures !LexLess(r[i], r[j]) {
      if i > 0 {
        assert r[i] == t[i - 1] && r[j] == t[j - 1];
      } else {
        assert r[j] == t[j - 1];
      }
    }
  }

  lemma SortedTail(s: seq<string>)
    requires |s| > 0 && SortedDesc(s)
    ensures AtLeastAll(s[0], s[1..]) && SortedDesc(s[1..])
  {
    forall i, j | 0 <= i < j < |s[1..]| ensures !LexLess(s[1..][i], s[1..][j]) {
      assert s[1..][i] == s[i + 1] && s[1..][j] == s[j + 1];
    }
    forall k | 0 <= k < |s[1..]| ensures !LexLess(s[0], s[1..][k]) {
      assert s[1..][k] == s[k + 1];
    }
  }

  lemma {:induction false} InsertSorted(x: string, s: seq<string>)
    requires SortedDesc(s)
    ensures SortedDesc(Insert(x, s))
    decreases |s|
  {
    if |s| > 0 {
      SortedTail(s);
      if LexLess(s[0], x) {
        forall k | 0 <= k < |s| ensures !LexLess(x, s[k]) {
          LexLessTransitiveNot(x, s[0]);
          if k > 0 {
            assert s[k] == s[1..][k - 1];
            if LexLess(x, s[k]) {
              NotLessTrans(s[0], x, s[k]);
            }
          }
        }
        SortedCons(x, s);
      } else {
        InsertSorted(x, s[1..]);
        InsertCount(x, s[1..]);
        AtLeastAllOfMultiset(s[0], s[1..], Insert(x, s[1..]), x);
        SortedCons(s[0], Insert(x, s[1..]));
      }
    }
  }

  lemma InsertSpec(x: string, s: seq<string>)
    requires SortedDesc(s)
    ensures SortedDesc(Insert(x, s))
    ensures multiset(Insert(x, s)) == multiset(s) + multiset{x}
    ensures |Insert(x, s)| == |s| + 1
  {
    InsertSorted(x, s);
    InsertCount(x, s);
  }

  /** `a < b` excludes `b < a`. */
  lemma LexLessTransitiveNot(a: string, b: string)
    requires LexLess(b, a)
    ensures !LexLess(a, b)
  {
    if LexLess(a, b) {
      LexLessTransitive(a, b, a);
      LexLessIrreflexive(a);
    }
  }

  /** With `b < a` and `a < c`, `b < c`, so `c <= b` fails. */
  lemma NotLessTrans(b: string, a: string, c: string)
    requires LexLess(b, a) && LexLess(a, c)
    ensures LexLess(b, c)
  {
    LexLessTransitive(b, a, c);
  }

  /** `sorted(s, reverse=True)`. */
  function SortDesc(s: seq<string>): seq<string> {
    if |s| == 0 then [] else Insert(s[0], SortDesc(s[1..]))
  }

  /** The sort orders its input descending and keeps every element. */
  lemma {:induction false} SortDescSpec(s: seq<string>)
    ensures SortedDesc(SortDesc(s))
    ensures multiset(SortDesc(s)) == multiset(s)
    ensures |SortDesc(s)| == |s|
  {
    if |s| > 0 {
      SortDescSpec(s[1..]);
      InsertSpec(s[0], SortDesc(s[1..]));
      assert s == [s[0]] + s[1..];
    }
  }

  /** There is only one descending arrangement of a collection of
      strings, so the order the input came in does not matter. */
  lemma HeadIsMax(x: seq<string>, v: string)
    requires |x| > 0 && SortedDesc(x) && v in multiset(x)
    ensures !LexLess(x[0], v)
  {
    var k :| 0 <= k < |x| && x[k] == v;
    if k == 0 {
      LexLessIrreflexive(v);
    }
  }

  lemma {:induction false} SortedUnique(x: seq<string>, y: seq<string>)
    requires SortedDesc(x) && SortedDesc(y) && multiset(x) == multiset(y)
    ensures x == y
    decreases |x|
  {
    assert |x| == |multiset(x)| == |y|;
    if |x| > 0 {
      assert y[0] in multiset(y) && x[0] in multiset(x);
      HeadIsMax(x, y[0]);
      HeadIsMax(y, x[0]);
      if x[0] != y[0] {
        LexLessTotal(x[0], y[0]);
      }
      assert x == [x[0]] + x[1..] && y == [y[0]] + y[1..];
      assert multiset(x[1..]) == multiset(x) - multiset{x[0]};
      assert multiset(y[1..]) == multiset(y) - multiset{y[0]};
      SortedTail(x);
      SortedTail(y);
      SortedUnique(x[1..], y[1..]);
    }
  }

  lemma SortDescOrderFree(x: seq<string>, y: seq<string>)
    requires multiset(x) == multiset(y)
    ensures SortDesc(x) == SortDesc(y)
  {
    SortDescSpec(x);
    SortDescSpec(y);
    SortedUnique(SortDesc(x), SortDesc(y));
  }

  // ---------------------------------------------------------------------
  // generate_lower
  // ---------------------------------------------------------------------

  function LowerAll(elems: seq<string>): (r: seq<string>)
    ensures |r| == |elems| && forall i :: 0 <= i < |elems| ==> r[i] == LowerStr(elems[i])
  {
    seq(|elems|, i requires 0 <= i < |elems| => LowerStr(elems[i]))
  }

  /** `generate_lower(elem_list)`: the symbols sorted descending, then their
      lower-case forms sorted descending. */
  method GenerateLower(elems: seq<string>) returns (r: seq<string>)
    ensures r == SortDesc(elems) + SortDesc(LowerAll(elems))
  {
    var lowered: seq<string> := [];
    for i := 0 to |elems|
      invariant lowered == LowerAll(elems[..i])
    {
      assert LowerAll(elems[..i + 1]) == lowered + [LowerStr(elems[i])];
      lowered := lowered + [LowerStr(elems[i])];
    }
    assert elems[..|elems|] == elems;
    r := SortDesc(elems) + SortDesc(lowered);
  }

  /** Both halves of `generate_lower` are descending, the first holds the
      symbols and the second their lower-case forms, so the output has
      twice as many entries. */
  lemma GenerateLowerShape(elems: seq<string>)
    ensures var r := SortDesc(elems) + SortDesc(LowerAll(elems));
      && |r| == 2 * |elems|
      && SortedDesc(r[..|elems|]) && multiset(r[..|elems|]) == multiset(elems)
      && SortedDesc(r[|elems|..]) && multiset(r[|elems|..]) == multiset(LowerAll(elems))
  {
    SortDescSpec(elems);
    SortDescSpec(LowerAll(elems));
    var r := SortDesc(elems) + SortDesc(LowerAll(elems));
    assert r[..|elems|] == SortDesc(elems);
    assert r[|elems|..] == SortDesc(LowerAll(elems));
  }

  /** `p` is a proper prefix of `s`. */
  predicate ProperPrefix(p: string, s: string) {
    |p| < |s| && p == s[..|p|]
  }

  /** In a descending list a string comes before each of its proper
      prefixes. */
  lemma LongerBeforePrefix(s: seq<string>)
    requires SortedDesc(s)
    ensures forall i, j :: 0 <= i < |s| && 0 <= j < |s| && ProperPrefix(s[j], s[i]) ==> i < j
  {
    forall i, j | 0 <= i < |s| && 0 <= j < |s| && ProperPrefix(s[j], s[i]) ensures i < j {
      ProperPrefixLess(s[j], s[i]);
    }
  }

  predicate StartsUpper(s: string) {
    |s| > 0 && IsUpperChar(s[0])
  }

  predicate StartsLower(s: string) {
    |s| > 0 && IsLowerChar(s[0])
  }

  /** Every entry of a rearrangement of `elems` starts with a capital. */
  lemma UpperHalfStarts(elems: seq<string>, u: seq<string>)
    requires forall i :: 0 <= i < |elems| ==> StartsUpper(elems[i])
    requires multiset(u) == multiset(elems)
    ensures forall k :: 0 <= k < |u| ==> StartsUpper(u[k])
  {
    forall k | 0 <= k < |u| ensures StartsUpper(u[k]) {
      assert u[k] in multiset(elems);
      var b :| 0 <= b < |elems| && elems[b] == u[k];
    }
  }

  /** Every entry of a rearrangement of the lowered `elems` starts with a
      lower-case letter. */
  lemma LowerHalfStarts(elems: seq<string>, l: seq<string>)
    requires forall i :: 0 <= i < |elems| ==> StartsUpper(elems[i])
    requires multiset(l) == multiset(LowerAll(elems))
    ensures forall k :: 0 <= k < |l| ==> StartsLower(l[k])
  {
    forall k | 0 <= k < |l| ensures StartsLower(l[k]) {
      assert l[k] in multiset(LowerAll(elems));
      var a :| 0 <= a < |elems| && LowerAll(elems)[a] == l[k];
      assert IsLowerChar(LowerStr(elems[a])[0]);
    }
  }

  lemma PrefersLongerConcat(u: seq<string>, l: seq<string>)
    requires SortedDesc(u) && SortedDesc(l)
    requires forall k :: 0 <= k < |u| ==> StartsUpper(u[k])
    requires forall k :: 0 <= k < |l| ==> StartsLower(l[k])
    ensures var r := u + l;
      forall i, j :: 0 <= i < |r| && 0 <= j < |r| && ProperPrefix(r[j], r[i]) ==> i < j
  {
    LongerBeforePrefix(u);
    LongerBeforePrefix(l);
    var r := u + l;
    var n := |u|;
    forall i, j | n <= i < |r| && 0 <= j < n ensures !ProperPrefix(r[j], r[i]) {
      assert r[i] == l[i - n] && r[j] == u[j];
      assert StartsLower(l[i - n]) && StartsUpper(u[j]);
    }
    forall i, j | 0 <= i < |r| && 0 <= j < |r| && ProperPrefix(r[j], r[i]) ensures i < j {
      if i < n && j < n {
        assert r[i] == u[i] && r[j] == u[j];
      } else if i >= n && j >= n {
        assert r[i] == l[i - n] && r[j] == l[j - n];
      }
    }
  }

  /** For symbols that start with a capital letter, every entry of
      `generate_lower` precedes its proper prefixes, so an alternation
      built from it tries "Cl" before "C" and "cl" before "c". */
  lemma GenerateLowerPrefersLonger(elems: seq<string>)
    requires forall i :: 0 <= i < |elems| ==> StartsUpper(elems[i])
    ensures var r := SortDesc(elems) + SortDesc(LowerAll(elems));
      forall i, j :: 0 <= i < |r| && 0 <= j < |r| && ProperPrefix(r[j], r[i]) ==> i < j
  {
    SortDescSpec(elems);
    SortDescSpec(LowerAll(elems));
    UpperHalfStarts(elems, SortDesc(elems));
    LowerHalfStarts(elems, SortDesc(LowerAll(elems)));
    PrefersLongerConcat(SortDesc(elems), SortDesc(LowerAll(elems)));
  }

  // ---------------------------------------------------------------------
  // The token tables
  // ---------------------------------------------------------------------

  /** `atoms`: a list holding each periodic-table symbol but "H" once, in
      whatever order the set yields them. */
  ghost predicate IsAtomList(tp: seq<string>, atoms: seq<string>) {
    && (forall i, j :: 0 <= i < j < |atoms| ==> atoms[i] != atoms[j])
    && (forall x :: x in atoms <==> x in tp && x != "H")
  }

  /** The `semi_symbol` alternatives do not depend on the order the set
      yields the symbols in. */
  lemma SemiSymbolOrderFree(tp: seq<string>, a: seq<string>, b: seq<string>)
    requires IsAtomList(tp, a) && IsAtomList(tp, b)
    ensures SortDesc(a) + SortDesc(LowerAll(a)) == SortDesc(b) + SortDesc(LowerAll(b))
  {
    SameElementsSameMultiset(a, b);
    LowerAllMultiset(a, b);
    SortDescOrderFree(a, b);
    SortDescOrderFree(LowerAll(a), LowerAll(b));
  }

  lemma LowerNotHydrogen(x: string)
    requires x != "H" && x != "h"
    ensures LowerStr(x) != "h" && LowerStr(x) != "H"
  {
    if |x| == 1 {
      assert x == [x[0]];
      assert x[0] != 'H' && x[0] != 'h';
    }
  }

  lemma SortDescMembers(s: seq<string>)
    ensures forall x :: x in SortDesc(s) <==> x in s
  {
    SortDescSpec(s);
    forall x ensures x in SortDesc(s) <==> x in s {
      assert x in SortDesc(s) <==> x in multiset(SortDesc(s));
      assert x in s <==> x in multiset(s);
    }
  }

  /** Neither "H" nor "h" is a `semi_symbol` alternative: hydrogen is a
      literal token of its own. */
  lemma SemiSymbolNoHydrogen(tp: seq<string>, a: seq<string>)
    requires IsAtomList(tp, a) && "h" !in tp
    ensures "H" !in SortDesc(a) + SortDesc(LowerAll(a))
    ensures "h" !in SortDesc(a) + SortDesc(LowerAll(a))
  {
    SortDescMembers(a);
    SortDescMembers(LowerAll(a));
    forall k | 0 <= k < |a| ensures LowerAll(a)[k] != "h" && LowerAll(a)[k] != "H" {
      assert a[k] in a;
      LowerNotHydrogen(a[k]);
    }
  }

  lemma SameElementsSameMultiset(a: seq<string>, b: seq<string>)
    requires forall i, j :: 0 <= i < j < |a| ==> a[i] != a[j]
    requires forall i, j :: 0 <= i < j < |b| ==> b[i] != b[j]
    requires forall x :: x in a <==> x in b
    ensures multiset(a) == multiset(b)
  {
    forall x ensures multiset(a)[x] == multiset(b)[x] {
      DistinctCount(a, x);
      DistinctCount(b, x);
    }
  }

  lemma {:induction false} DistinctCount(a: seq<string>, x: string)
    requires forall i, j :: 0 <= i < j < |a| ==> a[i] != a[j]
    ensures multiset(a)[x] == if x in a then 1 else 0
  {
    if |a| > 0 {
      DistinctCount(a[1..], x);
      assert a == [a[0]] + a[1..];
      if x == a[0] {
        assert x !in a[1..];
      }
    }
  }

  lemma LowerAllAppend(u: seq<string>, v: seq<string>)
    ensures LowerAll(u + v) == LowerAll(u) + LowerAll(v)
  {
  }

  lemma LowerAllRemove(b: seq<string>, k: nat)
    requires k < |b|
    ensures multiset(LowerAll(b)) == multiset(LowerAll(b[..k] + b[k + 1..])) + multiset{LowerStr(b[k])}
  {
    assert b == b[..k] + [b[k]] + b[k + 1..];
    LowerAllAppend(b[..k] + [b[k]], b[k + 1..]);
    LowerAllAppend(b[..k], [b[k]]);
    LowerAllAppend(b[..k], b[k + 1..]);
  }

  lemma MultisetRemove(b: seq<string>, k: nat)
    requires k < |b|
    ensures multiset(b[..k] + b[k + 1..]) == multiset(b) - multiset{b[k]}
  {
    assert b == b[..k] + [b[k]] + b[k + 1..];
  }

  lemma LowerAllCons(a: seq<string>)
    requires |a| > 0
    ensures multiset(LowerAll(a)) == multiset{LowerStr(a[0])} + multiset(LowerAll(a[1..]))
  {
    assert LowerAll(a) == [LowerStr(a[0])] + LowerAll(a[1..]);
  }

  lemma LowerAllStep(a: seq<string>, b: seq<string>, k: nat)
    requires |a| > 0 && k < |b| && b[k] == a[0]
    requires multiset(LowerAll(a[1..])) == multiset(LowerAll(b[..k] + b[k + 1..]))
    ensures multiset(LowerAll(a)) == multiset(LowerAll(b))
  {
    LowerAllCons(a);
    LowerAllRemove(b, k);
  }

  lemma TailMultiset(a: seq<string>)
    requires |a| > 0
    ensures multiset(a[1..]) == multiset(a) - multiset{a[0]}
  {
    assert a == [a[0]] + a[1..];
  }

  lemma {:induction false} LowerAllMultiset(a: seq<string>, b: seq<string>)
    requires multiset(a) == multiset(b)
    ensures multiset(LowerAll(a)) == multiset(LowerAll(b))
    decreases |a|
  {
    if |a| > 0 {
      assert a[0] in multiset(b);
      var k :| 0 <= k < |b| && b[k] == a[0];
      MultisetRemove(b, k);
      TailMultiset(a);
      LowerAllMultiset(a[1..], b[..k] + b[k + 1..]);
      LowerAllStep(a, b, k);
    }
  }

  /** `bonds`: the bond symbols the `semi_bond` token matches. */
  const SemiBonds: seq<string> := ["=", "#", "$", "/", "\\"]

  lemma JoinWithSnoc(ws: seq<string>, w: string, c: char)
    requires |ws| > 0
    ensures JoinWith(ws + [w], c) == JoinWith(ws, c) + [c] + w
  {
    assert (ws + [w])[..|ws|] == ws;
  }

  lemma EscapeOne(c: char)
    ensures Escape([c]) == if IsSpecial(c) then ['\\', c] else [c]
  {
    assert [c][1..] == [];
  }

  lemma EscapeBond(k: nat, c: char)
    requires k < |SemiBonds| && SemiBonds[k] == [c]
    ensures EscapedAll(SemiBonds)[k] == if IsSpecial(c) then ['\\', c] else [c]
  {
    EscapeOne(c);
  }

  lemma BondEscapes()
    ensures var e := EscapedAll(SemiBonds);
      && |e| == 5 && e[0] == "=" && e[1] == "\\#" && e[2] == "\\$" && e[3] == "/" && e[4] == "\\\\"
  {
    EscapeBond(0, '=');
    EscapeBond(1, '#');
    EscapeBond(2, '$');
    EscapeBond(3, '/');
    EscapeBond(4, '\\');
  }

  /** `semi_bond` is the five escaped bonds, in order; the single and
      aromatic bonds "-" and ":" are literals, not part of it. */
  lemma SemiBondRegex()
    ensures JoinWith(EscapedAll(SemiBonds), '|') == "=|\\#|\\$|/|\\\\"
    ensures "-" !in SemiBonds && ":" !in SemiBonds
  {
    BondEscapes();
    var e := EscapedAll(SemiBonds);
    assert JoinWith(e[..1], '|') == "=";
    JoinWithSnoc(e[..1], e[1], '|');
    assert e[..1] + [e[1]] == e[..2];
    JoinWithSnoc(e[..2], e[2], '|');
    assert e[..2] + [e[2]] == e[..3];
    JoinWithSnoc(e[..3], e[3], '|');
    assert e[..3] + [e[3]] == e[..4];
    JoinWithSnoc(e[..4], e[4], '|');
    assert e[..4] + [e[4]] == e;
  }
}
