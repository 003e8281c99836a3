/** `generate_combinations` and `getAttributes`, the helpers the grammar
    files use to expand a production with optional symbols into every
    production it stands for (`src/smiles_checker/validator/yacc.py`,
    `src/validator/yacc.py` and `yacc.py` carry the same
    `generate_combinations`). */
module Combinations {
  import opened Wrappers
  import opened PyStr
  import opened Values
  import Structure

  // ---------------------------------------------------------------------
  // Counting
  // ---------------------------------------------------------------------

  function Pow2(n: nat): (r: nat)
    ensures r >= 1
  {
    if n == 0 then 1 else 2 * Pow2(n - 1)
  }

  /** The number of ways to choose `r` of `n` items (Pascal's rule). */
  function Binom(n: nat, r: nat): nat {
    if r == 0 then 1 else if n == 0 then 0 else Binom(n - 1, r - 1) + Binom(n - 1, r)
  }

  /** Binom(n, 0) + ... + Binom(n, m - 1). */
  function BinomSum(n: nat, m: nat): nat {
    if m == 0 then 0 else BinomSum(n, m - 1) + Binom(n, m - 1)
  }

  lemma {:induction false} BinomAbove(n: nat, r: nat)
    requires r > n
    ensures Binom(n, r) == 0
    decreases n
  {
    if n > 0 {
      BinomAbove(n - 1, r - 1);
      BinomAbove(n - 1, r);
    }
  }

  lemma {:induction false} BinomSumPascal(n: nat, m: nat)
    requires n >= 1
    ensures BinomSum(n, m + 1) == BinomSum(n - 1, m + 1) + BinomSum(n - 1, m)
    decreases m
  {
    if m > 0 {
      BinomSumPascal(n, m - 1);
    }
  }

  /** The subsets of an n-element set, counted by size, add up to 2^n. */
  lemma {:induction false} BinomSumAll(n: nat)
    ensures BinomSum(n, n + 1) == Pow2(n)
    decreases n
  {
    if n > 0 {
      BinomSumPascal(n, n);
      BinomAbove(n - 1, n);
      BinomSumAll(n - 1);
    }
  }

  // ---------------------------------------------------------------------
  // itertools.combinations
  // ---------------------------------------------------------------------

  function Prepend(x: nat, cs: seq<seq<nat>>): (r: seq<seq<nat>>)
    ensures |r| == |cs| && forall i :: 0 <= i < |cs| ==> r[i] == [x] + cs[i]
  {
    seq(|cs|, i requires 0 <= i < |cs| => [x] + cs[i])
  }

  /** `combinations(range(lo, hi), r)`: the increasing `r`-element index
      lists, in lexicographic order (those starting with `lo` first). */
  function Choose(lo: nat, hi: nat, r: nat): seq<seq<nat>>
    decreases hi - lo
  {
    if r == 0 then [[]]
    else if hi <= lo then []
    else Prepend(lo, Choose(lo + 1, hi, r - 1)) + Choose(lo + 1, hi, r)
  }

  predicate Increasing(c: seq<nat>) {
    forall i, j :: 0 <= i < j < |c| ==> c[i] < c[j]
  }

  /** `c` is an increasing list of `r` indices from `[lo, hi)`. */
  predicate ValidChoice(c: seq<nat>, lo: nat, hi: nat, r: nat) {
    && |c| == r
    && Increasing(c)
    && (forall i :: 0 <= i < |c| ==> lo <= c[i] < hi)
  }

  lemma {:induction false} ChooseCount(lo: nat, hi: nat, r: nat)
    requires lo <= hi
    ensures |Choose(lo, hi, r)| == Binom(hi - lo, r)
    decreases hi - lo
  {
    if r > 0 && lo < hi {
      ChooseCount(lo + 1, hi, r - 1);
      ChooseCount(lo + 1, hi, r);
    }
  }

  lemma PrependValid(lo: nat, hi: nat, r: nat, c: seq<nat>)
    requires r > 0 && lo < hi && ValidChoice(c, lo + 1, hi, r - 1)
    ensures ValidChoice([lo] + c, lo, hi, r)
  {
    var d := [lo] + c;
    forall i, j | 0 <= i < j < |d| ensures d[i] < d[j] {
      assert d[j] == c[j - 1];
      if i > 0 { assert d[i] == c[i - 1]; }
    }
    forall i | 0 <= i < |d| ensures lo <= d[i] < hi {
      if i > 0 { assert d[i] == c[i - 1]; }
    }
  }

  /** Every choice has `r` indices, increasing, all in `[lo, hi)`. */
  lemma {:induction false} ChooseShape(lo: nat, hi: nat, r: nat)
    ensures forall k :: 0 <= k < |Choose(lo, hi, r)| ==> ValidChoice(Choose(lo, hi, r)[k], lo, hi, r)
    decreases hi - lo
  {
    if r > 0 && lo < hi {
      var taken := Choose(lo + 1, hi, r - 1);
      var skipped := Choose(lo + 1, hi, r);
      ChooseShape(lo + 1, hi, r - 1);
      ChooseShape(lo + 1, hi, r);
      var all := Choose(lo, hi, r);
      assert all == Prepend(lo, taken) + skipped;
      forall k | 0 <= k < |all| ensures ValidChoice(all[k], lo, hi, r) {
        if k < |taken| {
          PrependValid(lo, hi, r, taken[k]);
        } else {
          assert all[k] == skipped[k - |taken|];
        }
      }
    }
  }

  lemma {:induction false} ChooseTooMany(lo: nat, hi: nat, r: nat)
    requires lo <= hi && r > hi - lo
    ensures Choose(lo, hi, r) == []
    decreases hi - lo
  {
    if lo < hi {
      ChooseTooMany(lo + 1, hi, r - 1);
      ChooseTooMany(lo + 1, hi, r);
    }
  }

  /** The indices `lo, ..., hi - 1`. */
  function Range(lo: nat, hi: nat): (r: seq<nat>)
    ensures |r| == if lo <= hi then hi - lo else 0
    ensures forall i :: 0 <= i < |r| ==> r[i] == lo + i
    decreases hi - lo
  {
    if hi <= lo then [] else [lo] + Range(lo + 1, hi)
  }

  /** Choosing everything gives the single list of all indices. */
  lemma {:induction false} ChooseAll(lo: nat, hi: nat)
    requires lo <= hi
    ensures Choose(lo, hi, hi - lo) == [Range(lo, hi)]
    decreases hi - lo
  {
    if lo < hi {
      ChooseAll(lo + 1, hi);
      ChooseTooMany(lo + 1, hi, hi - lo);
    }
  }

  // ---------------------------------------------------------------------
  // generate_combinations
  // ---------------------------------------------------------------------

  /** `p.rstrip("?")`. */
  function Stripped(p: string): string {
    RStrip(p, '?')
  }

  /** `p.endswith("?")`. */
  predicate IsOptional(p: string) {
    EndsWith(p, '?')
  }

  /** `[p.rstrip("?") for p in parts]`. */
  function StrippedAll(parts: seq<string>): (r: seq<string>)
    ensures |r| == |parts| && forall i :: 0 <= i < |parts| ==> r[i] == Stripped(parts[i])
  {
    seq(|parts|, i requires 0 <= i < |parts| => Stripped(parts[i]))
  }

  /** `required`: the stripped parts without a trailing "?", in order. */
  function RequiredOf(parts: seq<string>): seq<string> {
    if |parts| == 0 then []
    else (if IsOptional(parts[0]) then [] else [Stripped(parts[0])]) + RequiredOf(parts[1..])
  }

  /** `optional`: the stripped parts with a trailing "?", in order. */
  function OptionalOf(parts: seq<string>): seq<string> {
    if |parts| == 0 then []
    else (if IsOptional(parts[0]) then [Stripped(parts[0])] else []) + OptionalOf(parts[1..])
  }

  /** Each part lands in `optional` or `required` by its trailing "?", and
      the two together hold one name per part. */
  lemma {:induction false} PartsSorted(parts: seq<string>)
    ensures forall p :: p in parts && IsOptional(p) ==> Stripped(p) in OptionalOf(parts)
    ensures forall p :: p in parts && !IsOptional(p) ==> Stripped(p) in RequiredOf(parts)
    ensures |OptionalOf(parts)| + |RequiredOf(parts)| == |parts|
    decreases |parts|
  {
    if |parts| > 0 {
      PartsSorted(parts[1..]);
      forall p | p in parts && p != parts[0] ensures p in parts[1..] { }
    }
  }

  /** The elements of `pool` at the chosen indices. */
  function Pick(pool: seq<string>, idx: seq<nat>): (r: seq<string>)
    requires forall i :: 0 <= i < |idx| ==> idx[i] < |pool|
    ensures |r| == |idx| && forall i :: 0 <= i < |idx| ==> r[i] == pool[idx[i]]
  {
    seq(|idx|, i requires 0 <= i < |idx| => pool[idx[i]])
  }

  /** `ordered_combo`: the stripped parts, in rule order, whose name is
      among the chosen or the required ones. */
  function Ordered(parts: seq<string>, combo: seq<string>, required: seq<string>): seq<string> {
    if |parts| == 0 then []
    else
      var x := Stripped(parts[0]);
      (if x in combo || x in required then [x] else []) + Ordered(parts[1..], combo, required)
  }

  /** The chosen optional names of the `j`-th choice of `i` of them. */
  function Chosen(parts: seq<string>, i: nat, j: nat): seq<string>
    requires j < |Choose(0, |OptionalOf(parts)|, i)|
  {
    ChooseShape(0, |OptionalOf(parts)|, i);
    Pick(OptionalOf(parts), Choose(0, |OptionalOf(parts)|, i)[j])
  }

  /** The productions, as word lists, for the choices of `i` optional
      parts, in `combinations` order. */
  function Level(parts: seq<string>, i: nat): (ws: seq<seq<string>>)
    ensures |ws| == |Choose(0, |OptionalOf(parts)|, i)|
    ensures forall j :: 0 <= j < |ws| ==> ws[j] == Ordered(parts, Chosen(parts, i, j), RequiredOf(parts))
  {
    var n := |Choose(0, |OptionalOf(parts)|, i)|;
    seq(n, j requires 0 <= j < n => Ordered(parts, Chosen(parts, i, j), RequiredOf(parts)))
  }

  /** The productions for 0, 1, ..., m - 1 optional parts, in that order. */
  function Levels(parts: seq<string>, m: nat): seq<seq<string>> {
    if m == 0 then [] else Levels(parts, m - 1) + Level(parts, m - 1)
  }

  /** Every production of a rule split into `parts`, as its list of words. */
  function Words(parts: seq<string>): seq<seq<string>> {
    Levels(parts, |OptionalOf(parts)| + 1)
  }

  /** What `generate_combinations(rule)` returns. */
  function CombinationsOf(rule: string): (r: seq<string>)
    ensures |r| == |Words(Split(rule))|
    ensures forall k :: 0 <= k < |r| ==> r[k] == Join(Words(Split(rule))[k])
  {
    var ws := Words(Split(rule));
    seq(|ws|, k requires 0 <= k < |ws| => Join(ws[k]))
  }

  /** `generate_combinations(rule)`: for each number of optional parts,
      for each choice of that many, the rule's parts kept in order. */
  method GenerateCombinations(rule: string) returns (all: seq<string>)
    ensures all == CombinationsOf(rule)
  {
    var parts := Split(rule);
    var required := RequiredOf(parts);
    var optional := OptionalOf(parts);
    all := [];
    ghost var words: seq<seq<string>> := [];
    var i := 0;
    while i < |optional| + 1
      invariant 0 <= i <= |optional| + 1
      invariant words == Levels(parts, i)
      invariant |all| == |words| && forall k :: 0 <= k < |all| ==> all[k] == Join(words[k])
    {
      var combos := Choose(0, |optional|, i);
      ChooseShape(0, |optional|, i);
      ghost var level := Level(parts, i);
      var j := 0;
      while j < |combos|
        invariant 0 <= j <= |combos|
        invariant words == Levels(parts, i) + level[..j]
        invariant |all| == |words| && forall k :: 0 <= k < |all| ==> all[k] == Join(words[k])
      {
        var ordered := Ordered(parts, Pick(optional, combos[j]), required);
        assert ordered == level[j];
        assert level[..j + 1] == level[..j] + [ordered];
        all := all + [Join(ordered)];
        words := words + [ordered];
        j := j + 1;
      }
      assert level[..j] == level;
      i := i + 1;
    }
  }

  lemma {:induction false} LevelsCount(parts: seq<string>, m: nat)
    ensures |Levels(parts, m)| == BinomSum(|OptionalOf(parts)|, m)
    decreases m
  {
    if m > 0 {
      LevelsCount(parts, m - 1);
      ChooseCount(0, |OptionalOf(parts)|, m - 1);
    }
  }

  /** A rule with k optional parts stands for 2^k productions. */
  lemma CombinationCount(parts: seq<string>)
    ensures |Words(parts)| == Pow2(|OptionalOf(parts)|)
  {
    LevelsCount(parts, |OptionalOf(parts)| + 1);
    BinomSumAll(|OptionalOf(parts)|);
  }

  // ---------------------------------------------------------------------
  // Order by size, and no repeats
  // ---------------------------------------------------------------------

  /** The index choices behind `Levels(parts, m)`: every choice of no
      index out of `n`, then every choice of one, ..., of `m - 1`. */
  function Choices(n: nat, m: nat): seq<seq<nat>> {
    if m == 0 then [] else Choices(n, m - 1) + Choose(0, n, m - 1)
  }

  /** The lists in `cs` never get shorter. */
  predicate BySize(cs: seq<seq<nat>>) {
    forall a, b :: 0 <= a <= b < |cs| ==> |cs[a]| <= |cs[b]|
  }

  lemma {:induction false} ChoicesBySize(n: nat, m: nat)
    ensures forall k :: 0 <= k < |Choices(n, m)| ==>
      ValidChoice(Choices(n, m)[k], 0, n, |Choices(n, m)[k]|) && |Choices(n, m)[k]| < m
    ensures BySize(Choices(n, m))
    decreases m
  {
    if m > 0 {
      ChoicesBySize(n, m - 1);
      ChooseShape(0, n, m - 1);
      var before := Choices(n, m - 1);
      var level := Choose(0, n, m - 1);
      var all := Choices(n, m);
      forall k | 0 <= k < |all| ensures ValidChoice(all[k], 0, n, |all[k]|) && |all[k]| < m {
        if k < |before| {
          assert all[k] == before[k];
        } else {
          assert all[k] == level[k - |before|];
        }
      }
      forall a, b | 0 <= a <= b < |all| ensures |all[a]| <= |all[b]| {
        if b < |before| {
          assert all[a] == before[a] && all[b] == before[b];
        } else if a < |before| {
          assert all[a] == before[a] && all[b] == level[b - |before|];
        } else {
          assert all[a] == level[a - |before|] && all[b] == level[b - |before|];
        }
      }
    }
  }

  /** `combinations` never yields the same choice twice. */
  lemma {:induction false} ChooseDistinct(lo: nat, hi: nat, r: nat)
    ensures Structure.Distinct(Choose(lo, hi, r))
    decreases hi - lo
  {
    if r > 0 && lo < hi {
      var taken := Choose(lo + 1, hi, r - 1);
      var skipped := Choose(lo + 1, hi, r);
      ChooseDistinct(lo + 1, hi, r - 1);
      ChooseDistinct(lo + 1, hi, r);
      ChooseShape(lo + 1, hi, r);
      var front := Prepend(lo, taken);
      var all := Choose(lo, hi, r);
      assert all == front + skipped;
      forall i, j | 0 <= i < j < |all| ensures all[i] != all[j] {
        if j < |front| {
          assert all[i][1..] == taken[i] && all[j][1..] == taken[j];
        } else if i < |front| {
          assert all[j] == skipped[j - |front|];
          assert all[i][0] == lo < all[j][0];
        } else {
          assert all[i] == skipped[i - |front|] && all[j] == skipped[j - |front|];
        }
      }
    }
  }

  lemma {:induction false} ChoicesDistinct(n: nat, m: nat)
    ensures Structure.Distinct(Choices(n, m))
    decreases m
  {
    if m > 0 {
      ChoicesDistinct(n, m - 1);
      ChoicesBySize(n, m - 1);
      ChooseDistinct(0, n, m - 1);
      ChooseShape(0, n, m - 1);
      var before := Choices(n, m - 1);
      var level := Choose(0, n, m - 1);
      var all := Choices(n, m);
      forall i, j | 0 <= i < j < |all| ensures all[i] != all[j] {
        if j < |before| {
          assert all[i] == before[i] && all[j] == before[j];
        } else if i < |before| {
          assert all[i] == before[i] && all[j] == level[j - |before|];
        } else {
          assert all[i] == level[i - |before|] && all[j] == level[j - |before|];
        }
      }
    }
  }

  /** The `k`-th production of the first `m` rounds keeps the optional
      names at the `k`-th index choice. */
  lemma {:induction false} LevelsChoices(parts: seq<string>, m: nat)
    ensures |Levels(parts, m)| == |Choices(|OptionalOf(parts)|, m)|
    ensures forall k :: 0 <= k < |Levels(parts, m)| ==>
      && ValidChoice(Choices(|OptionalOf(parts)|, m)[k], 0, |OptionalOf(parts)|, |Choices(|OptionalOf(parts)|, m)[k]|)
      && Levels(parts, m)[k] == Ordered(parts, Pick(OptionalOf(parts), Choices(|OptionalOf(parts)|, m)[k]), RequiredOf(parts))
    decreases m
  {
    var n := |OptionalOf(parts)|;
    ChoicesBySize(n, m);
    if m > 0 {
      LevelsChoices(parts, m - 1);
      ChooseShape(0, n, m - 1);
      var before := Levels(parts, m - 1);
      var level := Level(parts, m - 1);
      var cs := Choices(n, m);
      forall k | 0 <= k < |Levels(parts, m)|
        ensures Levels(parts, m)[k] == Ordered(parts, Pick(OptionalOf(parts), cs[k]), RequiredOf(parts))
      {
        if k < |before| {
          assert Levels(parts, m)[k] == before[k] && cs[k] == Choices(n, m - 1)[k];
        } else {
          var j := k - |before|;
          assert Levels(parts, m)[k] == level[j] && cs[k] == Choose(0, n, m - 1)[j];
        }
      }
    }
  }

  /** The productions come by the number of optional parts they keep: the
      `k`-th one keeps the optional names at an increasing index choice
      `Choices(n, n + 1)[k]`, and the size of that choice never decreases
      with `k`. */
  lemma WordsBySize(parts: seq<string>)
    ensures |Words(parts)| == |Choices(|OptionalOf(parts)|, |OptionalOf(parts)| + 1)|
    ensures forall k :: 0 <= k < |Words(parts)| ==>
      && ValidChoice(Choices(|OptionalOf(parts)|, |OptionalOf(parts)| + 1)[k], 0, |OptionalOf(parts)|,
                     |Choices(|OptionalOf(parts)|, |OptionalOf(parts)| + 1)[k]|)
      && Words(parts)[k] == Ordered(parts, Pick(OptionalOf(parts), Choices(|OptionalOf(parts)|, |OptionalOf(parts)| + 1)[k]), RequiredOf(parts))
    ensures BySize(Choices(|OptionalOf(parts)|, |OptionalOf(parts)| + 1))
  {
    LevelsChoices(parts, |OptionalOf(parts)| + 1);
    ChoicesBySize(|OptionalOf(parts)|, |OptionalOf(parts)| + 1);
  }

  /** Two different increasing index lists differ in some index. */
  lemma {:induction false} IncreasingDiffer(a: seq<nat>, b: seq<nat>)
    requires Increasing(a) && Increasing(b) && a != b
    ensures exists t :: (t in a && t !in b) || (t in b && t !in a)
    decreases |a|
  {
    if |a| == 0 {
      assert b[0] in b;
    } else if |b| == 0 {
      assert a[0] in a;
    } else if a[0] < b[0] {
      assert a[0] in a && a[0] !in b;
    } else if b[0] < a[0] {
      assert b[0] in b && b[0] !in a;
    } else {
      assert a == [a[0]] + a[1..] && b == [b[0]] + b[1..];
      IncreasingDiffer(a[1..], b[1..]);
      var t :| (t in a[1..] && t !in b[1..]) || (t in b[1..] && t !in a[1..]);
      if t in a[1..] {
        assert t in a && t !in b;
      } else {
        assert t in b && t !in a;
      }
    }
  }

  /** Under distinct names, each name lands in exactly one of `optional`
      and `required`, once. */
  lemma {:induction false} NamesSplit(parts: seq<string>)
    requires Structure.Distinct(StrippedAll(parts))
    ensures Structure.Distinct(OptionalOf(parts))
    ensures forall y :: y in OptionalOf(parts) ==> y in StrippedAll(parts) && y !in RequiredOf(parts)
    ensures forall y :: y in RequiredOf(parts) ==> y in StrippedAll(parts)
    decreases |parts|
  {
    if |parts| > 0 {
      var all := StrippedAll(parts);
      var rest := StrippedAll(parts[1..]);
      var x := Stripped(parts[0]);
      assert all == [x] + rest;
      assert x !in rest by {
        forall i | 0 <= i < |rest| ensures rest[i] != x {
          assert all[i + 1] == rest[i] && all[0] == x;
        }
      }
      assert Structure.Distinct(rest) by {
        forall i, j | 0 <= i < j < |rest| ensures rest[i] != rest[j] {
          assert all[i + 1] == rest[i] && all[j + 1] == rest[j];
        }
      }
      NamesSplit(parts[1..]);
      var o := OptionalOf(parts[1..]);
      if IsOptional(parts[0]) {
        assert OptionalOf(parts) == [x] + o;
        forall i, j | 0 <= i < j < |[x] + o| ensures ([x] + o)[i] != ([x] + o)[j] {
          if i == 0 {
            assert ([x] + o)[j] == o[j - 1] && o[j - 1] in o;
          } else {
            assert ([x] + o)[i] == o[i - 1] && ([x] + o)[j] == o[j - 1];
          }
        }
      }
    }
  }

  /** A name is kept exactly when it is one of the rule's names and is
      chosen or required. */
  lemma {:induction false} OrderedMembers(parts: seq<string>, combo: seq<string>, required: seq<string>)
    ensures forall y :: y in Ordered(parts, combo, required) <==>
      y in StrippedAll(parts) && (y in combo || y in required)
    decreases |parts|
  {
    if |parts| > 0 {
      OrderedMembers(parts[1..], combo, required);
      assert StrippedAll(parts) == [Stripped(parts[0])] + StrippedAll(parts[1..]);
    }
  }

  lemma ChoiceKeepsName(parts: seq<string>, c1: seq<nat>, c2: seq<nat>, t: nat)
    requires Structure.Distinct(StrippedAll(parts))
    requires ValidChoice(c1, 0, |OptionalOf(parts)|, |c1|) && ValidChoice(c2, 0, |OptionalOf(parts)|, |c2|)
    requires t in c1 && t !in c2
    ensures Ordered(parts, Pick(OptionalOf(parts), c1), RequiredOf(parts))
      != Ordered(parts, Pick(OptionalOf(parts), c2), RequiredOf(parts))
  {
    var opt := OptionalOf(parts);
    NamesSplit(parts);
    var u :| 0 <= u < |c1| && c1[u] == t;
    var x := opt[t];
    var p1 := Pick(opt, c1);
    var p2 := Pick(opt, c2);
    assert p1[u] == x;
    assert x in opt;
    assert x !in p2 by {
      forall v | 0 <= v < |p2| ensures p2[v] != x {
        assert c2[v] != t && c2[v] in c2;
      }
    }
    OrderedMembers(parts, p1, RequiredOf(parts));
    OrderedMembers(parts, p2, RequiredOf(parts));
  }

  /** Different choices of optional parts give different productions when
      the rule's names are distinct. */
  lemma ChoicesInjective(parts: seq<string>, c1: seq<nat>, c2: seq<nat>)
    requires Structure.Distinct(StrippedAll(parts))
    requires ValidChoice(c1, 0, |OptionalOf(parts)|, |c1|) && ValidChoice(c2, 0, |OptionalOf(parts)|, |c2|)
    requires c1 != c2
    ensures Ordered(parts, Pick(OptionalOf(parts), c1), RequiredOf(parts))
      != Ordered(parts, Pick(OptionalOf(parts), c2), RequiredOf(parts))
  {
    IncreasingDiffer(c1, c2);
    var t :| (t in c1 && t !in c2) || (t in c2 && t !in c1);
    if t in c1 {
      ChoiceKeepsName(parts, c1, c2, t);
    } else {
      ChoiceKeepsName(parts, c2, c1, t);
    }
  }

  /** A rule whose parts have distinct names yields no word list twice. */
  lemma NoRepeatedWords(parts: seq<string>)
    requires Structure.Distinct(StrippedAll(parts))
    ensures Structure.Distinct(Words(parts))
  {
    var n := |OptionalOf(parts)|;
    LevelsChoices(parts, n + 1);
    ChoicesDistinct(n, n + 1);
    var ws := Levels(parts, n + 1);
    var cs := Choices(n, n + 1);
    forall i, j | 0 <= i < j < |ws| ensures ws[i] != ws[j] {
      ChoicesInjective(parts, cs[i], cs[j]);
    }
  }

  /** A rule whose parts have distinct, non-empty names yields no
      production twice. */
  lemma NoRepeatedCombinations(rule: string)
    requires Structure.Distinct(StrippedAll(Split(rule)))
    requires forall i :: 0 <= i < |Split(rule)| ==> IsWord(Stripped(Split(rule)[i]))
    ensures Structure.Distinct(CombinationsOf(rule))
  {
    var parts := Split(rule);
    var ws := Words(parts);
    var r := CombinationsOf(rule);
    var n := |OptionalOf(parts)|;
    NoRepeatedWords(parts);
    LevelsChoices(parts, n + 1);
    assert ws == Levels(parts, n + 1);
    forall k | 0 <= k < |ws| ensures forall i :: 0 <= i < |ws[k]| ==> IsWord(ws[k][i]) {
      var c := Choices(n, n + 1)[k];
      OrderedMembers(parts, Pick(OptionalOf(parts), c), RequiredOf(parts));
      forall i | 0 <= i < |ws[k]| ensures IsWord(ws[k][i]) {
        assert ws[k][i] in StrippedAll(parts);
      }
    }
    forall i, j | 0 <= i < j < |r| ensures r[i] != r[j] {
      if r[i] == r[j] {
        JoinInjective(ws[i], ws[j]);
      }
    }
  }

  /** `w` is `s` with some elements left out, the rest in order. */
  predicate SubsequenceOf(w: seq<string>, s: seq<string>)
    decreases |s|
  {
    if |w| == 0 then true
    else if |s| == 0 then false
    else (w[0] == s[0] && SubsequenceOf(w[1..], s[1..])) || SubsequenceOf(w, s[1..])
  }

  /** A kept part list is a subsequence of the stripped parts, and holds
      every required name that is also in `required`. */
  lemma {:induction false} OrderedSpec(parts: seq<string>, combo: seq<string>, required: seq<string>)
    ensures SubsequenceOf(Ordered(parts, combo, required), StrippedAll(parts))
    ensures forall x :: x in RequiredOf(parts) && x in required ==> x in Ordered(parts, combo, required)
    decreases |parts|
  {
    if |parts| > 0 {
      OrderedSpec(parts[1..], combo, required);
      var s := StrippedAll(parts);
      var x := Stripped(parts[0]);
      var rest := Ordered(parts[1..], combo, required);
      var w := Ordered(parts, combo, required);
      assert s[0] == x && s[1..] == StrippedAll(parts[1..]);
      if x in combo || x in required {
        assert w == [x] + rest;
        assert w[0] == s[0] && w[1..] == rest;
      } else {
        assert w == rest;
      }
    }
  }

  /** `w` keeps the order of `parts` and holds every required name. */
  predicate Keeps(parts: seq<string>, w: seq<string>) {
    SubsequenceOf(w, StrippedAll(parts)) && forall x :: x in RequiredOf(parts) ==> x in w
  }

  lemma {:induction false} LevelsKeep(parts: seq<string>, m: nat)
    ensures forall k :: 0 <= k < |Levels(parts, m)| ==> Keeps(parts, Levels(parts, m)[k])
    decreases m
  {
    if m > 0 {
      LevelsKeep(parts, m - 1);
      var before := Levels(parts, m - 1);
      var level := Level(parts, m - 1);
      forall k | 0 <= k < |Levels(parts, m)| ensures Keeps(parts, Levels(parts, m)[k]) {
        if k >= |before| {
          var j := k - |before|;
          assert Levels(parts, m)[k] == level[j];
          OrderedSpec(parts, Chosen(parts, m - 1, j), RequiredOf(parts));
        } else {
          assert Levels(parts, m)[k] == before[k];
        }
      }
    }
  }

  /** Every production of a rule keeps the rule's order and contains every
      required part. */
  lemma EveryCombinationKeepsRequired(parts: seq<string>)
    ensures forall k :: 0 <= k < |Words(parts)| ==>
      SubsequenceOf(Words(parts)[k], StrippedAll(parts)) && forall x :: x in RequiredOf(parts) ==> x in Words(parts)[k]
  {
    LevelsKeep(parts, |OptionalOf(parts)| + 1);
  }

  lemma {:induction false} OrderedRequiredOnly(parts: seq<string>, required: seq<string>)
    requires forall p :: p in parts && IsOptional(p) ==> Stripped(p) !in required
    requires forall p :: p in parts && !IsOptional(p) ==> Stripped(p) in required
    ensures Ordered(parts, [], required) == RequiredOf(parts)
    decreases |parts|
  {
    if |parts| > 0 {
      assert forall p :: p in parts[1..] ==> p in parts;
      OrderedRequiredOnly(parts[1..], required);
    }
  }

  lemma {:induction false} LevelsFirst(parts: seq<string>, m: nat)
    requires m >= 1
    ensures |Levels(parts, m)| > 0 && Levels(parts, m)[0] == Ordered(parts, [], RequiredOf(parts))
    decreases m
  {
    if m == 1 {
      assert Levels(parts, 1) == Level(parts, 0);
      assert Chosen(parts, 0, 0) == [];
    } else {
      LevelsFirst(parts, m - 1);
    }
  }

  /** With no name both optional and required, the first production is the
      required parts alone. */
  lemma FirstCombination(parts: seq<string>)
    requires forall p :: p in parts && IsOptional(p) ==> Stripped(p) !in RequiredOf(parts)
    ensures |Words(parts)| > 0 && Words(parts)[0] == RequiredOf(parts)
  {
    LevelsFirst(parts, |OptionalOf(parts)| + 1);
    PartsSorted(parts);
    OrderedRequiredOnly(parts, RequiredOf(parts));
  }

  lemma {:induction false} OrderedAll(parts: seq<string>, optional: seq<string>, required: seq<string>)
    requires forall p :: p in parts && IsOptional(p) ==> Stripped(p) in optional
    requires forall p :: p in parts && !IsOptional(p) ==> Stripped(p) in required
    ensures Ordered(parts, optional, required) == StrippedAll(parts)
    decreases |parts|
  {
    if |parts| > 0 {
      assert forall p :: p in parts[1..] ==> p in parts;
      OrderedAll(parts[1..], optional, required);
      assert StrippedAll(parts) == [Stripped(parts[0])] + StrippedAll(parts[1..]);
    }
  }

  /** The last production keeps every part. */
  lemma LastCombination(parts: seq<string>)
    ensures |Words(parts)| > 0 && Words(parts)[|Words(parts)| - 1] == StrippedAll(parts)
  {
    var optional := OptionalOf(parts);
    var k := |optional|;
    ChooseAll(0, k);
    var level := Level(parts, k);
    assert |level| == 1;
    assert Chosen(parts, k, 0) == Pick(optional, Range(0, k)) == optional;
    PartsSorted(parts);
    OrderedAll(parts, optional, RequiredOf(parts));
    assert Words(parts) == Levels(parts, k) + level;
  }

  lemma JoinCons(w: string, rest: seq<string>)
    requires |rest| > 0
    ensures Join([w] + rest) == w + " " + Join(rest)
  {
    assert ([w] + rest)[1..] == rest;
  }

  lemma ExampleSplit()
    ensures Split("X? Y Z?") == ExampleRule
  {
    var words := ExampleRule;
    assert IsWord("X?") && IsWord("Y") && IsWord("Z?");
    JoinCons("Y", ["Z?"]);
    JoinCons("X?", ["Y", "Z?"]);
    assert Join(words) == "X? Y Z?";
    SplitJoin(words);
  }

  lemma PrependOne(x: nat, c: seq<nat>)
    ensures Prepend(x, [c]) == [[x] + c]
  {
  }

  lemma ExampleChoices()
    ensures Choose(0, 2, 0) == [[]]
    ensures Choose(0, 2, 1) == [[0], [1]]
    ensures Choose(0, 2, 2) == [[0, 1]]
  {
    assert Choose(2, 2, 1) == [] && Choose(2, 2, 2) == [];
    assert Choose(1, 2, 0) == [[]];
    PrependOne(1, []);
    assert [1] + [] == [1];
    assert Choose(1, 2, 1) == [[1]];
    assert Choose(1, 2, 2) == [];
    PrependOne(0, []);
    PrependOne(0, [1]);
    assert [0] + [] == [0] && [0] + [1] == [0, 1];
  }

  /** The parts of the example rule. */
  const ExampleRule: seq<string> := ["X?", "Y", "Z?"]

  lemma ExampleParts()
    ensures OptionalOf(ExampleRule) == ["X", "Z"]
    ensures RequiredOf(ExampleRule) == ["Y"]
  {
    var parts := ExampleRule;
    assert Stripped("X?") == "X" && Stripped("Z?") == "Z" && Stripped("Y") == "Y";
    assert IsOptional("X?") && IsOptional("Z?") && !IsOptional("Y");
    assert parts[1..] == ["Y", "Z?"] && parts[2..] == ["Z?"] && parts[3..] == [];
  }

  lemma ExampleOrdered(combo: seq<string>)
    ensures Ordered(ExampleRule, combo, ["Y"])
      == (if "X" in combo then ["X"] else []) + ["Y"] + (if "Z" in combo then ["Z"] else [])
  {
    var parts := ExampleRule;
    assert Stripped("X?") == "X" && Stripped("Z?") == "Z" && Stripped("Y") == "Y";
    assert parts[1..] == ["Y", "Z?"] && parts[2..] == ["Z?"] && parts[3..] == [];
    assert Ordered(parts[2..], combo, ["Y"]) == (if "Z" in combo then ["Z"] else []);
  }

  lemma ExampleLevel0()
    ensures Level(ExampleRule, 0) == [["Y"]]
  {
    ExampleParts();
    ExampleChoices();
    ExampleOrdered([]);
    assert Chosen(ExampleRule, 0, 0) == [];
  }

  lemma ExampleLevel1()
    ensures Level(ExampleRule, 1) == [["X", "Y"], ["Y", "Z"]]
  {
    ExampleParts();
    ExampleChoices();
    assert Chosen(ExampleRule, 1, 0) == ["X"];
    assert Chosen(ExampleRule, 1, 1) == ["Z"];
    ExampleOrdered(["X"]);
    ExampleOrdered(["Z"]);
    var level := Level(ExampleRule, 1);
    assert |level| == 2 && level[0] == ["X", "Y"] && level[1] == ["Y", "Z"];
  }

  lemma ExampleLevel2()
    ensures Level(ExampleRule, 2) == [["X", "Y", "Z"]]
  {
    ExampleParts();
    ExampleChoices();
    assert Chosen(ExampleRule, 2, 0) == ["X", "Z"];
    ExampleOrdered(["X", "Z"]);
    var level := Level(ExampleRule, 2);
    assert |level| == 1 && level[0] == ["X", "Y", "Z"];
  }

  lemma ExampleWords()
    ensures Words(ExampleRule) == [["Y"], ["X", "Y"], ["Y", "Z"], ["X", "Y", "Z"]]
  {
    ExampleParts();
    ExampleLevel0();
    ExampleLevel1();
    ExampleLevel2();
    var parts := ExampleRule;
    assert Words(parts) == Levels(parts, 3);
    assert Levels(parts, 3) == Level(parts, 0) + Level(parts, 1) + Level(parts, 2);
  }

  /** The docstring's example: "X? Y Z?" stands for Y, X Y, Y Z and X Y Z
      (in that order). */
  lemma ExampleJoins()
    ensures Join(["Y"]) == "Y" && Join(["X", "Y"]) == "X Y"
    ensures Join(["Y", "Z"]) == "Y Z" && Join(["X", "Y", "Z"]) == "X Y Z"
  {
    JoinCons("X", ["Y"]);
    JoinCons("Y", ["Z"]);
    JoinCons("X", ["Y", "Z"]);
  }

  /** Four productions, written out. */
  lemma JoinedFour(r: seq<string>, ws: seq<seq<string>>)
    requires |r| == |ws| == 4 && forall k :: 0 <= k < 4 ==> r[k] == Join(ws[k])
    ensures r == [Join(ws[0]), Join(ws[1]), Join(ws[2]), Join(ws[3])]
  {
  }

  lemma DocstringExample()
    ensures CombinationsOf("X? Y Z?") == ["Y", "X Y", "Y Z", "X Y Z"]
  {
    ExampleSplit();
    ExampleWords();
    JoinedFour(CombinationsOf("X? Y Z?"), Words(ExampleRule));
    ExampleJoins();
  }

  /** The words of the bracket-atom rule of `src/validator/yacc.py`. */
  const BracketRule: seq<string> := ["isotope?", "symbol", "chiral?", "hcount?", "charge?", "map?"]

  /** The words of the root grammar's bracket-atom rule. */
  const RootBracketRule: seq<string> := ["isotope?", "hcount?", "symbol", "chiral?", "charge?", "map?"]

  lemma BracketSplit()
    ensures Split(Join(BracketRule)) == BracketRule
    ensures Split(Join(RootBracketRule)) == RootBracketRule
  {
    assert IsWord("isotope?") && IsWord("symbol") && IsWord("chiral?");
    assert IsWord("hcount?") && IsWord("charge?") && IsWord("map?");
    SplitJoin(BracketRule);
    SplitJoin(RootBracketRule);
  }

  /** A rule with five optional parts and a required `symbol` stands for
      32 productions, each holding `symbol`. */
  lemma BracketCombinations(parts: seq<string>)
    requires |OptionalOf(parts)| == 5 && "symbol" in RequiredOf(parts)
    ensures |Words(parts)| == 32
    ensures forall k :: 0 <= k < |Words(parts)| ==> "symbol" in Words(parts)[k]
  {
    CombinationCount(parts);
    assert Pow2(5) == 32;
    EveryCombinationKeepsRequired(parts);
  }

  /** The bracket-atom rule of `src/validator/yacc.py` and the root
      grammar's (which puts `hcount` before `symbol`) each stand for 32
      productions, each holding `symbol`. */
  lemma BracketRuleCombinations()
    ensures |CombinationsOf(Join(BracketRule))| == 32
    ensures forall k :: 0 <= k < 32 ==> "symbol" in Words(Split(Join(BracketRule)))[k]
    ensures |CombinationsOf(Join(RootBracketRule))| == 32
    ensures forall k :: 0 <= k < 32 ==> "symbol" in Words(Split(Join(RootBracketRule)))[k]
  {
    BracketSplit();
    var a, b := BracketRule, RootBracketRule;
    assert Stripped("symbol") == "symbol" && !IsOptional("symbol");
    assert IsOptional("isotope?") && IsOptional("chiral?") && IsOptional("hcount?");
    assert IsOptional("charge?") && IsOptional("map?");
    assert OptionalOf(a[5..]) == [Stripped("map?")];
    assert OptionalOf(a[4..]) == [Stripped("charge?"), Stripped("map?")];
    assert |OptionalOf(a[2..])| == 4 && |OptionalOf(a)| == 5;
    assert RequiredOf(a[2..]) == [] && RequiredOf(a) == ["symbol"];
    assert OptionalOf(b[5..]) == [Stripped("map?")];
    assert OptionalOf(b[4..]) == [Stripped("charge?"), Stripped("map?")];
    assert |OptionalOf(b[3..])| == 3 && |OptionalOf(b)| == 5;
    assert RequiredOf(b[3..]) == [] && RequiredOf(b) == ["symbol"];
    BracketCombinations(a);
    BracketCombinations(b);
  }

  // ---------------------------------------------------------------------
  // getAttributes
  // ---------------------------------------------------------------------

  /** The `properties` argument: one attribute name, or a list of them
      (possibly nested). */
  datatype Properties = Name(name: string) | Names(items: seq<Properties>)

  /** `getAttributes(rules, properties)` as a value: a name reads the
      attribute, `None` when the production has none; a list maps each
      element in order.  A production's attributes are a map from name to
      value. */
  function Attributes(rules: map<string, Value>, properties: Properties): Value {
    match properties
    case Name(n) => if n in rules then rules[n] else NoneValue
    case Names(items) => ListValue(seq(|items|, i requires 0 <= i < |items| => Attributes(rules, items[i])))
  }

  /** `getAttributes(rules, properties)`: the loop that appends one value
      per property. */
  method GetAttributes(rules: map<string, Value>, properties: Properties) returns (r: Value)
    ensures r == Attributes(rules, properties)
    ensures properties.Names? ==> r.ListValue? && |r.items| == |properties.items|
    ensures properties.Names? ==> forall i :: 0 <= i < |properties.items| && properties.items[i].Name? ==>
      r.items[i] == (if properties.items[i].name in rules then rules[properties.items[i].name] else NoneValue)
    decreases properties
  {
    if properties.Name? {
      return if properties.name in rules then rules[properties.name] else NoneValue;
    }
    var values: seq<Value> := [];
    var i := 0;
    while i < |properties.items|
      invariant 0 <= i <= |properties.items|
      invariant |values| == i && forall k :: 0 <= k < i ==> values[k] == Attributes(rules, properties.items[k])
    {
      var v := GetAttributes(rules, properties.items[i]);
      values := values + [v];
      i := i + 1;
    }
    return ListValue(values);
  }
}
