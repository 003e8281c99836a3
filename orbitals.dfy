/** Subshell occupancies and the orbital tokens they are read from.

    Both versions of `_parse_electron_configuration` build a dictionary from
    `(n, subshell letter)` to an electron count by matching each token
    against `(\d+)([spdf])(\d+)` at its start.  The dictionary (a frozenset
    of its items in `atomic.py`) is modelled as a `Config`: its entries
    strictly ordered by `n` and then by s < p < d < f.  That order is
    canonical, so two configurations are equal exactly when the Python
    dictionaries (or frozensets) are. */
module Orbitals {
  import opened Wrappers
  import opened PyStr

  datatype Letter = S | P | D | F

  /** The sort key `{'s': 0, 'p': 1, 'd': 2, 'f': 3}` of `atomic.py`. */
  function Rank(l: Letter): nat {
    match l
    case S => 0
    case P => 1
    case D => 2
    case F => 3
  }

  function LetterChar(l: Letter): char {
    match l
    case S => 's'
    case P => 'p'
    case D => 'd'
    case F => 'f'
  }

  /** The character class `[spdf]`. */
  function LetterOf(c: char): (r: Option<Letter>)
    ensures r.Some? ==> LetterChar(r.value) == c
    ensures r.None? ==> forall l: Letter :: LetterChar(l) != c
  {
    if c == 's' then Some(S)
    else if c == 'p' then Some(P)
    else if c == 'd' then Some(D)
    else if c == 'f' then Some(F)
    else None
  }

  /** The subshell a one-letter string such as "p" names, if any. */
  function SubshellOf(s: string): (r: Option<Letter>)
    ensures r.Some? ==> s == [LetterChar(r.value)]
    ensures r.None? ==> forall l: Letter :: s != [LetterChar(l)]
  {
    if |s| == 1 then LetterOf(s[0]) else None
  }

  /** One dictionary item `(n, letter) -> e`. */
  datatype Entry = Entry(n: nat, l: Letter, e: int)

  predicate KeyLess(a: Entry, b: Entry) {
    a.n < b.n || (a.n == b.n && Rank(a.l) < Rank(b.l))
  }

  type Config = seq<Entry>

  predicate Sorted(c: Config) {
    forall i, j :: 0 <= i < j < |c| ==> KeyLess(c[i], c[j])
  }

  predicate NonNeg(c: Config) {
    forall i :: 0 <= i < |c| ==> c[i].e >= 0
  }

  predicate Valid(c: Config) {
    Sorted(c) && NonNeg(c)
  }

  /** `d.get((n, l))`. */
  function Lookup(c: Config, n: nat, l: Letter): Option<int> {
    if |c| == 0 then None
    else if c[0].n == n && c[0].l == l then Some(c[0].e)
    else Lookup(c[1..], n, l)
  }

  lemma {:induction false} LookupIn(c: Config, x: Entry)
    requires Sorted(c)
    ensures Lookup(c, x.n, x.l) == Some(x.e) <==> x in c
    decreases |c|
  {
    if |c| > 0 {
      if !(c[0].n == x.n && c[0].l == x.l) {
        assert x in c <==> x in c[1..];
        LookupIn(c[1..], x);
      }
    }
  }

  lemma {:induction false} LookupNone(c: Config, n: nat, l: Letter)
    ensures Lookup(c, n, l).None? <==> forall i :: 0 <= i < |c| ==> !(c[i].n == n && c[i].l == l)
    decreases |c|
  {
    if |c| > 0 {
      LookupNone(c[1..], n, l);
      assert forall i :: 1 <= i < |c| ==> c[i] == c[1..][i - 1];
    }
  }

  /** `d[(n, l)] = v` on a canonical configuration. */
  function Upsert(c: Config, n: nat, l: Letter, v: int): (r: Config)
    requires Sorted(c)
    ensures Sorted(r)
    ensures forall i :: 0 <= i < |r| ==> r[i] in c || r[i] == Entry(n, l, v)
    ensures Lookup(r, n, l) == Some(v)
    ensures forall n': nat, l': Letter :: (n' != n || l' != l) ==> Lookup(r, n', l') == Lookup(c, n', l')
    decreases |c|
  {
    var x := Entry(n, l, v);
    if |c| == 0 then [x]
    else if c[0].n == n && c[0].l == l then [x] + c[1..]
    else if KeyLess(x, c[0]) then
      assert forall i :: 0 <= i < |c| ==> KeyLess(x, c[i]) by {
        forall i | 0 <= i < |c| ensures KeyLess(x, c[i]) {
          if i > 0 { assert KeyLess(c[0], c[i]); }
        }
      }
      [x] + c
    else
      var rest := Upsert(c[1..], n, l, v);
      assert forall i :: 0 <= i < |rest| ==> KeyLess(c[0], rest[i]) by {
        forall i | 0 <= i < |rest| ensures KeyLess(c[0], rest[i]) {
          if rest[i] in c[1..] {
            var j :| 0 <= j < |c[1..]| && c[1..][j] == rest[i];
            assert KeyLess(c[0], c[j + 1]);
          }
        }
      }
      [c[0]] + rest
  }

  /** Adding a key beyond every existing key appends it. */
  lemma {:induction false} UpsertAfterAll(c: Config, x: Entry)
    requires Sorted(c)
    requires forall i :: 0 <= i < |c| ==> KeyLess(c[i], x)
    ensures Upsert(c, x.n, x.l, x.e) == c + [x]
    decreases |c|
  {
    if |c| > 0 {
      assert KeyLess(c[0], x);
      UpsertAfterAll(c[1..], x);
      assert [c[0]] + (c[1..] + [x]) == c + [x];
    }
  }

  /** Length of the run of ASCII digits at the start of `s` (greedy `\d+`). */
  function DigitRun(s: string): (k: nat)
    ensures k <= |s|
    ensures AllDigits(s[..k])
    ensures k < |s| ==> !IsDigitChar(s[k])
  {
    if |s| == 0 || !IsDigitChar(s[0]) then 0
    else
      var k := 1 + DigitRun(s[1..]);
      assert s[..k] == [s[0]] + s[1..][..k - 1];
      k
  }

  /** `re.match(r'(\d+)([spdf])(\d+)', s)`: the entry its three groups
      describe, or None when the start of `s` does not match. */
  function ParseOrbital(s: string): (r: Option<Entry>)
    ensures r.Some? ==> r.value.e >= 0
    ensures |s| == 0 || !IsDigitChar(s[0]) ==> r.None?
  {
    var k := DigitRun(s);
    if k == 0 || k >= |s| then None
    else match LetterOf(s[k])
      case None => None
      case Some(l) =>
        var rest := s[k + 1..];
        var m := DigitRun(rest);
        if m == 0 then None
        else Some(Entry(DigitsValue(s[..k]), l, DigitsValue(rest[..m])))
  }

  /** The loop of `_parse_electron_configuration`: each token that matches
      writes its entry, later tokens overwriting earlier ones. */
  function ParseAll(tokens: seq<string>): (c: Config)
    ensures Valid(c)
    ensures forall i :: 0 <= i < |c| ==> exists t :: t in tokens && ParseOrbital(t) == Some(c[i])
  {
    if |tokens| == 0 then []
    else
      var c := ParseAll(tokens[..|tokens| - 1]);
      var t := tokens[|tokens| - 1];
      match ParseOrbital(t)
      case None => c
      case Some(x) =>
        var r := Upsert(c, x.n, x.l, x.e);
        assert forall i :: 0 <= i < |r| ==> exists t :: t in tokens && ParseOrbital(t) == Some(r[i]) by {
          forall i | 0 <= i < |r| ensures exists t :: t in tokens && ParseOrbital(t) == Some(r[i]) {
            if r[i] in c {
              var j :| 0 <= j < |c| && c[j] == r[i];
              var u :| u in tokens[..|tokens| - 1] && ParseOrbital(u) == Some(c[j]);
              assert u in tokens;
            } else {
              assert t in tokens;
            }
          }
        }
        r
  }

  /** `_parse_electron_configuration` of `chemistry.py`: the loop that
      writes each matching token's entry into the dictionary. */
  method ParseOrbitals(tokens: seq<string>) returns (c: Config)
    ensures c == ParseAll(tokens)
    ensures Valid(c)
  {
    c := [];
    var i := 0;
    while i < |tokens|
      invariant 0 <= i <= |tokens|
      invariant c == ParseAll(tokens[..i])
    {
      assert tokens[..i + 1][..i] == tokens[..i];
      match ParseOrbital(tokens[i]) {
        case Some(x) => c := Upsert(c, x.n, x.l, x.e);
        case None =>
      }
      i := i + 1;
    }
    assert tokens[..i] == tokens;
  }

  /** The count the last token naming `(n, l)` gives it, if any token does. */
  function LastMatch(tokens: seq<string>, n: nat, l: Letter): Option<int> {
    if |tokens| == 0 then None
    else
      var p := ParseOrbital(tokens[|tokens| - 1]);
      if p.Some? && p.value.n == n && p.value.l == l then Some(p.value.e)
      else LastMatch(tokens[..|tokens| - 1], n, l)
  }

  /** What the parsed mapping holds for each key: the count of the last
      matching token for that key; tokens that do not match leave no trace,
      and a key no token names is absent. */
  lemma {:induction false} ParseAllLookup(tokens: seq<string>, n: nat, l: Letter)
    ensures Lookup(ParseAll(tokens), n, l) == LastMatch(tokens, n, l)
    decreases |tokens|
  {
    if |tokens| > 0 {
      ParseAllLookup(tokens[..|tokens| - 1], n, l);
    }
  }

  /** A token that does not match is skipped. */
  lemma UnmatchedSkipped(tokens: seq<string>, t: string)
    requires ParseOrbital(t).None?
    ensures ParseAll(tokens + [t]) == ParseAll(tokens)
  {
    assert (tokens + [t])[..|tokens|] == tokens;
  }

  /** Decimal digits of a natural number, most significant first. */
  function ShowNat(x: nat): (s: string)
    ensures IsDigits(s)
    ensures DigitsValue(s) == x
    decreases x
  {
    var d := ['0' + ((x % 10) as char)];
    if x < 10 then d
    else
      var h := ShowNat(x / 10);
      var s := h + d;
      assert s[..|s| - 1] == h;
      s
  }

  /** The token `"{n}{letter}{e}"` of the periodic-table files. */
  function ShowEntry(x: Entry): string
    requires x.e >= 0
  {
    ShowNat(x.n) + [LetterChar(x.l)] + ShowNat(x.e)
  }

  lemma DigitRunOfDigits(d: string, t: string)
    requires IsDigits(d)
    requires |t| == 0 || !IsDigitChar(t[0])
    ensures DigitRun(d + t) == |d|
    ensures (d + t)[..|d|] == d && (d + t)[|d|..] == t
    decreases |d|
  {
    if |d| > 1 {
      assert (d + t)[1..] == d[1..] + t;
      DigitRunOfDigits(d[1..], t);
    } else {
      assert (d + t)[1..] == t;
    }
  }

  lemma LetterRoundTrip(l: Letter)
    ensures LetterOf(LetterChar(l)) == Some(l)
  {
  }

  /** A digit run, a subshell letter and a second digit run match, with
      their values; a non-digit after them is not read. */
  lemma ParseParts(a: string, l: Letter, b: string, t: string)
    requires IsDigits(a) && IsDigits(b)
    requires |t| == 0 || !IsDigitChar(t[0])
    ensures ParseOrbital(a + ([LetterChar(l)] + (b + t))) == Some(Entry(DigitsValue(a), l, DigitsValue(b)))
  {
    var tail := [LetterChar(l)] + (b + t);
    var s := a + tail;
    DigitRunOfDigits(a, tail);
    assert s[|a|] == tail[0] == LetterChar(l);
    LetterRoundTrip(l);
    assert s[|a| + 1..] == tail[1..] == b + t;
    DigitRunOfDigits(b, t);
  }

  /** `s` is the digits `a`, the letter `l`, the digits `b`, then a rest
      `t` that does not continue `b`. */
  predicate OrbitalSplit(s: string, a: string, l: Letter, b: string, t: string) {
    s == a + ([LetterChar(l)] + (b + t)) && IsDigits(a) && IsDigits(b) && (|t| == 0 || !IsDigitChar(t[0]))
  }

  /** The match succeeds exactly when the token splits that way, and its
      groups are then the split's values. */
  lemma ParseOrbitalSpec(s: string)
    ensures ParseOrbital(s).Some? <==> exists a, l, b, t :: OrbitalSplit(s, a, l, b, t)
    ensures forall a, l, b, t :: OrbitalSplit(s, a, l, b, t) ==>
      ParseOrbital(s) == Some(Entry(DigitsValue(a), l, DigitsValue(b)))
  {
    forall a, l, b, t | OrbitalSplit(s, a, l, b, t)
      ensures ParseOrbital(s) == Some(Entry(DigitsValue(a), l, DigitsValue(b)))
    {
      ParseParts(a, l, b, t);
    }
    if ParseOrbital(s).Some? {
      var k := DigitRun(s);
      var l := LetterOf(s[k]).value;
      var rest := s[k + 1..];
      var m := DigitRun(rest);
      var a, b, t := s[..k], rest[..m], rest[m..];
      assert s == a + ([LetterChar(l)] + (b + t));
      assert OrbitalSplit(s, a, l, b, t);
    }
  }

  /** A token whose digits are followed by a letter other than s, p, d or
      f does not match. */
  lemma UnknownLetterUnmatched()
    ensures ParseOrbital("12x3").None?
  {
    assert DigitRun("12x3"[2..]) == 0;
    assert DigitRun("12x3"[1..]) == 1;
  }

  /** Only a prefix has to match: whatever follows the count, unless it is
      a further digit, is ignored. */
  lemma ParseShowEntry(x: Entry, t: string)
    requires x.e >= 0
    requires |t| == 0 || !IsDigitChar(t[0])
    ensures ParseOrbital(ShowEntry(x) + t) == Some(x)
  {
    var a, b := ShowNat(x.n), ShowNat(x.e);
    assert ShowEntry(x) + t == a + ([LetterChar(x.l)] + (b + t));
    ParseParts(a, x.l, b, t);
  }

  /** The tokens of a configuration, in canonical order. */
  function Render(c: Config): (ts: seq<string>)
    requires NonNeg(c)
    ensures |ts| == |c|
  {
    if |c| == 0 then [] else Render(c[..|c| - 1]) + [ShowEntry(c[|c| - 1])]
  }

  /** Splitting off the last entry of a valid configuration: the rest is
      valid and every key in it comes before the last one. */
  lemma ValidLast(p: Config, x: Entry)
    requires Valid(p + [x])
    ensures Valid(p)
    ensures forall i :: 0 <= i < |p| ==> KeyLess(p[i], x)
  {
    var c := p + [x];
    forall i | 0 <= i < |p| ensures KeyLess(p[i], x) {
      assert c[i] == p[i] && c[|p|] == x;
    }
    forall i, j | 0 <= i < j < |p| ensures KeyLess(p[i], p[j]) {
      assert c[i] == p[i] && c[j] == p[j];
    }
    forall i | 0 <= i < |p| ensures p[i].e >= 0 {
      assert c[i] == p[i];
    }
  }

  /** Parsing one more token folds its entry into the parse of the
      others. */
  lemma ParseAllSnoc(ts: seq<string>, t: string, x: Entry)
    requires ParseOrbital(t) == Some(x)
    ensures ParseAll(ts + [t]) == Upsert(ParseAll(ts), x.n, x.l, x.e)
  {
    assert (ts + [t])[..|ts|] == ts;
  }

  /** Writing a configuration out as tokens and parsing them gives it back. */
  lemma {:induction false} ParseRender(c: Config)
    requires Valid(c)
    ensures ParseAll(Render(c)) == c
    decreases |c|
  {
    if |c| > 0 {
      var p, x := c[..|c| - 1], c[|c| - 1];
      assert c == p + [x];
      ValidLast(p, x);
      ParseRender(p);
      assert ShowEntry(x) + [] == ShowEntry(x);
      ParseShowEntry(x, []);
      ParseAllSnoc(Render(p), ShowEntry(x), x);
      UpsertAfterAll(p, x);
    }
  }

  /** The number of electrons in a configuration. */
  function Total(c: Config): int {
    if |c| == 0 then 0 else Total(c[..|c| - 1]) + c[|c| - 1].e
  }
}
