/** `Atom` of `src/smiles_checker/chem/atomic.py`: a chemical element built
    from its electron-configuration string, with the per-shell quantities
    `__post_init__` derives from it. */
module Atomic {
  import opened Wrappers
  import opened PyStr
  import opened Orbitals

  /** Length of the run of ASCII letters at the start of `s` (`[A-Za-z]+`). */
  function LetterRun(s: string): (k: nat)
    ensures k <= |s|
    ensures forall i :: 0 <= i < k ==> IsCased(s[i])
    ensures k < |s| ==> !IsCased(s[k])
  {
    if |s| == 0 || !IsCased(s[0]) then 0 else 1 + LetterRun(s[1..])
  }

  /** Length of the run of whitespace at the start of `s` (`\s*`). */
  function SpaceRun(s: string): (k: nat)
    ensures k <= |s|
    ensures forall i :: 0 <= i < k ==> IsSpace(s[i])
    ensures k < |s| ==> !IsSpace(s[k])
  {
    if |s| == 0 || !IsSpace(s[0]) then 0 else 1 + SpaceRun(s[1..])
  }

  /** Length of a match of `\[[A-Za-z]+\]\s*` at the start of `s`, or 0. */
  function NobleAt(s: string): (k: nat)
    ensures k <= |s|
    ensures k > 0 ==> s[0] == '['
  {
    if |s| == 0 || s[0] != '[' then 0
    else
      var m := LetterRun(s[1..]);
      if m == 0 || 1 + m >= |s| || s[1 + m] != ']' then 0
      else 2 + m + SpaceRun(s[2 + m..])
  }

  /** `s` starts with a core `[` + `m` letters + `]` followed by blanks,
      `k` characters in all, with no blank right after. */
  predicate CoreAt(s: string, m: nat, k: nat) {
    && 0 < m && m + 2 <= k <= |s|
    && s[0] == '[' && s[m + 1] == ']'
    && (forall i :: 1 <= i <= m ==> IsCased(s[i]))
    && (forall i :: m + 2 <= i < k ==> IsSpace(s[i]))
    && (k == |s| || !IsSpace(s[k]))
  }

  /** A core at the start is matched in full. */
  lemma CoreLength(s: string, m: nat, k: nat)
    requires CoreAt(s, m, k)
    ensures NobleAt(s) == k
  {
    var gas, spaces, t := s[1..m + 1], s[m + 2..k], s[k..];
    forall i | 0 <= i < |gas| ensures IsCased(gas[i]) {
      assert gas[i] == s[i + 1];
    }
    forall i | 0 <= i < |spaces| ensures IsSpace(spaces[i]) {
      assert spaces[i] == s[i + m + 2];
    }
    assert s == "[" + gas + "]" + spaces + t;
    RunsOfCore(gas, spaces, t);
  }

  /** `NobleAt` finds a core exactly when there is one, and then its
      whole length with the blanks after it. */
  lemma NobleAtSpec(s: string)
    ensures NobleAt(s) > 0 ==> exists m: nat :: CoreAt(s, m, NobleAt(s))
    ensures forall m: nat, k: nat :: CoreAt(s, m, k) ==> NobleAt(s) == k
  {
    forall m: nat, k: nat | CoreAt(s, m, k) ensures NobleAt(s) == k {
      CoreLength(s, m, k);
    }
    var k := NobleAt(s);
    if k > 0 {
      var m := LetterRun(s[1..]);
      forall i | 1 <= i <= m ensures IsCased(s[i]) {
        assert s[i] == s[1..][i - 1];
      }
      forall i | m + 2 <= i < k ensures IsSpace(s[i]) {
        assert s[i] == s[2 + m..][i - (m + 2)];
      }
      if k < |s| {
        assert s[k] == s[2 + m..][k - (m + 2)];
      }
      assert CoreAt(s, m, k);
    }
  }

  /** `re.sub(r'\[[A-Za-z]+\]\s*', '', s)`: every noble-gas core such as
      `[He]`, with the whitespace after it, removed. */
  function StripNoble(s: string): (r: string)
    ensures |r| <= |s|
    ensures '[' !in s ==> r == s
    decreases |s|
  {
    if |s| == 0 then ""
    else
      var k := NobleAt(s);
      if k > 0 then StripNoble(s[k..]) else [s[0]] + StripNoble(s[1..])
  }

  lemma RunsOfCore(gas: string, spaces: string, t: string)
    requires |gas| > 0 && forall i :: 0 <= i < |gas| ==> IsCased(gas[i])
    requires forall i :: 0 <= i < |spaces| ==> IsSpace(spaces[i])
    requires |t| == 0 || !IsSpace(t[0])
    ensures NobleAt("[" + gas + "]" + spaces + t) == |gas| + 2 + |spaces|
  {
    var s := "[" + gas + "]" + spaces + t;
    LetterRunOf(gas, "]" + spaces + t);
    assert s[1..] == gas + ("]" + spaces + t);
    assert s[2 + |gas|..] == spaces + t;
    SpaceRunOf(spaces, t);
  }

  lemma {:induction false} LetterRunOf(w: string, t: string)
    requires forall i :: 0 <= i < |w| ==> IsCased(w[i])
    requires |t| == 0 || !IsCased(t[0])
    ensures LetterRun(w + t) == |w|
    decreases |w|
  {
    if |w| > 0 {
      assert (w + t)[1..] == w[1..] + t;
      LetterRunOf(w[1..], t);
    } else {
      assert w + t == t;
    }
  }

  lemma {:induction false} SpaceRunOf(w: string, t: string)
    requires forall i :: 0 <= i < |w| ==> IsSpace(w[i])
    requires |t| == 0 || !IsSpace(t[0])
    ensures SpaceRun(w + t) == |w|
    decreases |w|
  {
    if |w| > 0 {
      assert (w + t)[1..] == w[1..] + t;
      SpaceRunOf(w[1..], t);
    } else {
      assert w + t == t;
    }
  }

  /** A leading noble-gas core and the whitespace after it are dropped. */
  lemma NobleCoreDropped(gas: string, spaces: string, t: string)
    requires |gas| > 0 && forall i :: 0 <= i < |gas| ==> IsCased(gas[i])
    requires forall i :: 0 <= i < |spaces| ==> IsSpace(spaces[i])
    requires |t| == 0 || !IsSpace(t[0])
    ensures StripNoble("[" + gas + "]" + spaces + t) == StripNoble(t)
  {
    var s := "[" + gas + "]" + spaces + t;
    RunsOfCore(gas, spaces, t);
    assert s[|gas| + 2 + |spaces|..] == t;
  }

  /** Text before the first `[` is kept as it is. */
  lemma {:induction false} StripNoblePlain(x: string, t: string)
    requires '[' !in x
    ensures StripNoble(x + t) == x + StripNoble(t)
    decreases |x|
  {
    if |x| == 0 {
      assert x + t == t && x + StripNoble(t) == StripNoble(t);
    } else {
      var x' := x[1..];
      var a, b, c := StripNoble(x + t), StripNoble(x' + t), StripNoble(t);
      assert a == [x[0]] + b by {
        assert x[0] in x;
        assert (x + t)[1..] == x' + t;
        PlainFirst(x + t);
      }
      assert b == x' + c by {
        assert '[' !in x' by {
          forall i | 0 <= i < |x'| ensures x'[i] != '[' {
            assert x'[i] == x[i + 1];
          }
        }
        StripNoblePlain(x', t);
      }
      ConsJoin(x, a, b, c);
    }
  }

  /** A first character other than `[` is kept. */
  lemma PlainFirst(s: string)
    requires |s| > 0 && s[0] != '['
    ensures StripNoble(s) == [s[0]] + StripNoble(s[1..])
  {
  }

  /** Putting the first character back in front. */
  lemma ConsJoin(x: string, a: string, b: string, c: string)
    requires |x| > 0 && a == [x[0]] + b && b == x[1..] + c
    ensures a == x + c
  {
    assert x == [x[0]] + x[1..];
  }

  /** A core anywhere after plain text is removed with its blanks. */
  lemma NobleCoreAfter(x: string, gas: string, spaces: string, t: string)
    requires '[' !in x
    requires |gas| > 0 && forall i :: 0 <= i < |gas| ==> IsCased(gas[i])
    requires forall i :: 0 <= i < |spaces| ==> IsSpace(spaces[i])
    requires |t| == 0 || !IsSpace(t[0])
    ensures StripNoble(x + "[" + gas + "]" + spaces + t) == x + StripNoble(t)
  {
    assert x + "[" + gas + "]" + spaces + t == x + ("[" + gas + "]" + spaces + t);
    StripNoblePlain(x, "[" + gas + "]" + spaces + t);
    NobleCoreDropped(gas, spaces, t);
  }

  /** A `[` that opens no core is kept, and the text after it is stripped
      in turn. */
  lemma BareBracketKept(s: string)
    requires |s| > 0 && s[0] == '['
    requires forall m: nat, k: nat :: !CoreAt(s, m, k)
    ensures StripNoble(s) == "[" + StripNoble(s[1..])
  {
    NobleAtSpec(s);
  }

  function TrimStart(s: string): (r: string)
    ensures |r| <= |s| && r == s[|s| - |r|..]
    ensures forall k :: 0 <= k < |s| - |r| ==> IsSpace(s[k])
    ensures |r| > 0 ==> !IsSpace(r[0])
    ensures |s| == 0 || !IsSpace(s[0]) ==> r == s
  {
    if |s| > 0 && IsSpace(s[0]) then
      var r := TrimStart(s[1..]);
      assert forall k :: 1 <= k < |s| - |r| ==> s[k] == s[1..][k - 1];
      r
    else s
  }

  function TrimEnd(s: string): (r: string)
    ensures |r| <= |s| && r == s[..|r|]
    ensures forall k :: |r| <= k < |s| ==> IsSpace(s[k])
    ensures |r| > 0 ==> !IsSpace(r[|r| - 1])
    ensures |s| == 0 || !IsSpace(s[|s| - 1]) ==> r == s
  {
    if |s| > 0 && IsSpace(s[|s| - 1]) then TrimEnd(s[..|s| - 1]) else s
  }

  /** `r` is the run of `s` starting at `i`, and everything of `s` before
      and after it is whitespace. */
  predicate Trimmed(s: string, i: nat, r: string) {
    && i + |r| <= |s|
    && r == s[i..i + |r|]
    && (forall k :: 0 <= k < i ==> IsSpace(s[k]))
    && (forall k :: i + |r| <= k < |s| ==> IsSpace(s[k]))
  }

  /** `str.strip()`: the text between the leading and the trailing
      whitespace, with none left at either end. */
  function Strip(s: string): (r: string)
    ensures exists i :: Trimmed(s, i, r)
    ensures |r| > 0 ==> !IsSpace(r[0]) && !IsSpace(r[|r| - 1])
  {
    var t := TrimStart(s);
    var r := TrimEnd(t);
    assert Trimmed(s, |s| - |t|, r) by {
      forall k | |s| - |t| + |r| <= k < |s| ensures IsSpace(s[k]) {
        assert s[k] == t[k - (|s| - |t|)];
      }
    }
    r
  }

  /** `_parse_electron_configuration` of `atomic.py`: noble-gas cores are
      removed, an all-blank remainder gives the empty mapping, and the
      remaining whitespace-separated tokens are parsed as in `chemistry.py`. */
  function ParseConfiguration(s: string): (c: Config)
    ensures Valid(c)
  {
    var cleaned := Strip(StripNoble(s));
    if |cleaned| == 0 then [] else ParseAll(Split(cleaned))
  }

  /** `_parse_electron_configuration` of `atomic.py`: strip the noble-gas
      prefixes and the surrounding space, then read the orbitals in a loop. */
  method ParseElectronConfiguration(s: string) returns (c: Config)
    ensures c == ParseConfiguration(s)
    ensures Valid(c)
  {
    var cleaned := Strip(StripNoble(s));
    if |cleaned| == 0 {
      return [];
    }
    c := ParseOrbitals(Split(cleaned));
  }

  lemma ShowEntryIsWord(x: Entry)
    requires x.e >= 0
    ensures IsWord(ShowEntry(x)) && '[' !in ShowEntry(x)
  {
    var s := ShowEntry(x);
    var a, b := ShowNat(x.n), ShowNat(x.e);
    assert s == a + [LetterChar(x.l)] + b;
    forall i | 0 <= i < |s| ensures !IsSpace(s[i]) && s[i] != '[' {
      if i < |a| { assert s[i] == a[i]; }
      else if i > |a| { assert s[i] == b[i - |a| - 1]; }
    }
  }

  /** A configuration written as the space-separated token string the
      periodic table stores parses back to itself. */
  lemma ParseConfigurationRender(c: Config)
    requires Valid(c)
    ensures ParseConfiguration(Join(Render(c))) == c
  {
    var ts := Render(c);
    var s := Join(ts);
    assert forall i :: 0 <= i < |ts| ==> IsWord(ts[i]) && '[' !in ts[i] by {
      forall i | 0 <= i < |ts| ensures IsWord(ts[i]) && '[' !in ts[i] {
        RenderAt(c, i);
        ShowEntryIsWord(c[i]);
      }
    }
    JoinAvoids(ts, '[');
    assert StripNoble(s) == s;
    if |ts| == 0 {
      assert s == "";
    } else {
      JoinEnds(ts);
      assert TrimStart(s) == s;
      assert Strip(s) == s;
      SplitJoin(ts);
      ParseRender(c);
    }
  }

  lemma {:induction false} RenderAt(c: Config, i: nat)
    requires NonNeg(c) && i < |c|
    ensures Render(c)[i] == ShowEntry(c[i])
    decreases |c|
  {
    if i < |c| - 1 {
      RenderAt(c[..|c| - 1], i);
    }
  }

  /** `max(n for (n, _), _ in subshells)`: the outermost shell. */
  function OuterShell(c: Config): (n: nat)
    requires Sorted(c) && |c| > 0
    ensures forall i :: 0 <= i < |c| ==> c[i].n <= n
    ensures exists i :: 0 <= i < |c| && c[i].n == n
  {
    assert forall i :: 0 <= i < |c| - 1 ==> KeyLess(c[i], c[|c| - 1]);
    c[|c| - 1].n
  }

  /** Electrons in the subshells of shell `n`. */
  function SumAt(c: Config, n: nat): int {
    if |c| == 0 then 0
    else SumAt(c[..|c| - 1], n) + (if c[|c| - 1].n == n then c[|c| - 1].e else 0)
  }

  predicate Increasing(s: seq<nat>) {
    forall i, j :: 0 <= i < j < |s| ==> s[i] < s[j]
  }

  /** The distinct shell numbers present, smallest first: the order in
      which CPython iterates a set of small non-negative integers. */
  function Layers(c: Config): (ls: seq<nat>)
    ensures forall m :: m in ls <==> exists i :: 0 <= i < |c| && c[i].n == m
    ensures Sorted(c) ==> Increasing(ls)
    ensures Sorted(c) && |c| > 0 ==> |ls| > 0 && ls[|ls| - 1] == c[|c| - 1].n
  {
    if |c| == 0 then []
    else
      var p := c[..|c| - 1];
      var x := c[|c| - 1];
      var ls := Layers(p);
      assert forall i :: 0 <= i < |p| ==> p[i] == c[i];
      assert Sorted(c) ==> Sorted(p);
      if |ls| > 0 && ls[|ls| - 1] == x.n then ls else ls + [x.n]
  }

  /** `[sum(e for (n, _), e in subshells if n == layer) for layer in layers]`. */
  function ElectronsOf(c: Config, ls: seq<nat>): (es: seq<int>)
    ensures |es| == |ls|
    ensures forall i :: 0 <= i < |ls| ==> es[i] == SumAt(c, ls[i])
  {
    if |ls| == 0 then [] else ElectronsOf(c, ls[..|ls| - 1]) + [SumAt(c, ls[|ls| - 1])]
  }

  function SumSeq(s: seq<int>): int {
    if |s| == 0 then 0 else SumSeq(s[..|s| - 1]) + s[|s| - 1]
  }

  lemma {:induction false} SumAtAbsent(c: Config, n: nat)
    requires forall i :: 0 <= i < |c| ==> c[i].n != n
    ensures SumAt(c, n) == 0
    decreases |c|
  {
    if |c| > 0 {
      SumAtAbsent(c[..|c| - 1], n);
    }
  }

  lemma {:induction false} ElectronsOfOtherShells(c: Config, ls: seq<nat>)
    requires |c| > 0 && c[|c| - 1].n !in ls
    ensures SumSeq(ElectronsOf(c, ls)) == SumSeq(ElectronsOf(c[..|c| - 1], ls))
    decreases |ls|
  {
    if |ls| > 0 {
      ElectronsOfOtherShells(c, ls[..|ls| - 1]);
    }
  }

  lemma SumSeqSnoc(s: seq<int>, v: int)
    ensures SumSeq(s + [v]) == SumSeq(s) + v
  {
    assert (s + [v])[..|s|] == s;
  }

  lemma ElectronsOfSnoc(c: Config, ls: seq<nat>, m: nat)
    ensures SumSeq(ElectronsOf(c, ls + [m])) == SumSeq(ElectronsOf(c, ls)) + SumAt(c, m)
  {
    assert (ls + [m])[..|ls|] == ls;
    SumSeqSnoc(ElectronsOf(c, ls), SumAt(c, m));
  }

  /** In a canonical configuration, the shells before the last entry's shell
      are all smaller, except for entries of that same shell at the end. */
  lemma ShellBelowLast(c: Config)
    requires Sorted(c) && |c| > 0
    ensures var p, x := c[..|c| - 1], c[|c| - 1];
      Sorted(p) && (Layers(p) == [] || Layers(p)[|Layers(p)| - 1] != x.n ==> forall i :: 0 <= i < |p| ==> p[i].n != x.n)
  {
    var p, x := c[..|c| - 1], c[|c| - 1];
    assert forall i :: 0 <= i < |p| ==> p[i] == c[i];
    assert Sorted(p);
    if |p| > 0 {
      assert KeyLess(c[|p| - 1], x);
      forall i | 0 <= i < |p| ensures p[i].n <= p[|p| - 1].n {
        if i < |p| - 1 { assert KeyLess(c[i], c[|p| - 1]); }
      }
    }
  }

  /** The per-layer totals add up to every electron of the atom. */
  lemma {:induction false} ElectronsByLayersTotal(c: Config)
    requires Sorted(c)
    ensures SumSeq(ElectronsOf(c, Layers(c))) == Total(c)
    decreases |c|
  {
    if |c| > 0 {
      var p, x := c[..|c| - 1], c[|c| - 1];
      ShellBelowLast(c);
      ElectronsByLayersTotal(p);
      var lp := Layers(p);
      assert SumAt(c, x.n) == SumAt(p, x.n) + x.e;
      if |lp| > 0 && lp[|lp| - 1] == x.n {
        var front := lp[..|lp| - 1];
        assert lp == front + [x.n];
        assert x.n !in front;
        ElectronsOfOtherShells(c, front);
        ElectronsOfSnoc(c, front, x.n);
        ElectronsOfSnoc(p, front, x.n);
      } else {
        SumAtAbsent(p, x.n);
        ElectronsOfOtherShells(c, lp);
        ElectronsOfSnoc(c, lp, x.n);
      }
    }
  }

  /** Electrons in the subshells of letter `l`, over every shell. */
  function SumLetter(c: Config, l: Letter): int {
    if |c| == 0 then 0
    else SumLetter(c[..|c| - 1], l) + (if c[|c| - 1].l == l then c[|c| - 1].e else 0)
  }

  /** The four per-letter totals account for every electron. */
  lemma {:induction false} LettersTotal(c: Config)
    ensures SumLetter(c, S) + SumLetter(c, P) + SumLetter(c, D) + SumLetter(c, F) == Total(c)
    decreases |c|
  {
    if |c| > 0 {
      LettersTotal(c[..|c| - 1]);
    }
  }

  /** The fields of `BracketAtom` beyond those of `Atom`.  `chiral` holds
      the string the parser produces ("clockwise" or "counterclockwise"). */
  datatype BracketFields = BracketFields(
    hidrogens: Option<int>,
    charge: Option<int>,
    isotope: Option<int>,
    chiral: Option<string>,
    molMap: Option<int>)

  /** Every dataclass field of `Atom`, and of `BracketAtom` when `bracket`
      is present.  Equality of values is the dataclass equality: an `Atom`
      never equals a `BracketAtom`, and two of the same class are equal when
      all their fields are. */
  datatype Atom = Atom(
    symbol: string,
    valencyLayer: nat,
    electronsInValency: int,
    layers: seq<nat>,
    electronsByLayers: seq<int>,
    electronConfiguration: string,
    aromatic: bool,
    subshells: Config,
    bracket: Option<BracketFields>)

  /** The valence fields agree with the subshells: all zero or empty for
      no subshells, otherwise `valency_layer` is the outermost shell present
      and `electrons_in_valency` the electrons in that shell. */
  predicate ValenceShell(a: Atom) {
    && (a.subshells == [] ==>
          a.valencyLayer == 0 && a.electronsInValency == 0 && a.layers == [] && a.electronsByLayers == [])
    && (forall i :: 0 <= i < |a.subshells| ==> a.subshells[i].n <= a.valencyLayer)
    && (a.subshells != [] ==>
          && (exists i :: 0 <= i < |a.subshells| && a.subshells[i].n == a.valencyLayer)
          && a.electronsInValency == SumAt(a.subshells, a.valencyLayer))
  }

  /** `Atom(symbol, electron_configuration, aromatic)` with `__post_init__`. */
  function MakeAtom(symbol: string, configuration: string, aromatic: bool): (a: Atom)
    ensures a.symbol == symbol && a.electronConfiguration == configuration && a.aromatic == aromatic
    ensures a.bracket.None?
    ensures a.subshells == ParseConfiguration(configuration)
    ensures ValenceShell(a)
    ensures a.subshells != [] ==>
      a.layers == Layers(a.subshells) && a.electronsByLayers == ElectronsOf(a.subshells, a.layers)
    ensures Increasing(a.layers) && |a.electronsByLayers| == |a.layers|
    ensures forall m :: m in a.layers <==> exists i :: 0 <= i < |a.subshells| && a.subshells[i].n == m
    ensures SumSeq(a.electronsByLayers) == Total(a.subshells)
    ensures a.layers != [] ==>
      a.layers[|a.layers| - 1] == a.valencyLayer
      && a.electronsByLayers[|a.layers| - 1] == a.electronsInValency
  {
    var c := ParseConfiguration(configuration);
    if |c| == 0 then
      Atom(symbol, 0, 0, [], [], configuration, aromatic, [], None)
    else
      var vl := OuterShell(c);
      ElectronsByLayersTotal(c);
      Atom(symbol, vl, SumAt(c, vl), Layers(c), ElectronsOf(c, Layers(c)), configuration, aromatic, c, None)
  }

  /** `get_total_electrons_in_subshell`: the electrons of one subshell
      letter over all shells; 0 for a string naming no subshell. */
  function TotalElectronsInSubshell(a: Atom, subshell: string): (r: int)
    ensures SubshellOf(subshell).None? ==> r == 0
    ensures SubshellOf(subshell).Some? ==> r == SumLetter(a.subshells, SubshellOf(subshell).value)
  {
    match SubshellOf(subshell)
    case Some(l) => SumLetter(a.subshells, l)
    case None => 0
  }

  predicate Names(x: Entry, n: int, subshell: string) {
    x.n == n && [LetterChar(x.l)] == subshell
  }

  /** `get_electrons_in_specific_subshell`: the count stored for `(n, s)`,
      found by a scan of the subshells, or 0 when there is none. */
  method ElectronsInSpecificSubshell(a: Atom, n: int, subshell: string) returns (e: int)
    ensures (forall i :: 0 <= i < |a.subshells| ==> !Names(a.subshells[i], n, subshell)) ==> e == 0
    ensures (exists i :: 0 <= i < |a.subshells| && Names(a.subshells[i], n, subshell))
      ==> exists i :: 0 <= i < |a.subshells| && Names(a.subshells[i], n, subshell) && e == a.subshells[i].e
  {
    var c := a.subshells;
    var i := 0;
    while i < |c|
      invariant 0 <= i <= |c|
      invariant forall j :: 0 <= j < i ==> !Names(c[j], n, subshell)
    {
      if Names(c[i], n, subshell) {
        return c[i].e;
      }
      i := i + 1;
    }
    return 0;
  }

  /** In a canonical configuration at most one entry names `(n, s)`, so the
      scan above returns exactly the dictionary's value. */
  lemma NamedEntryUnique(c: Config, i: nat, j: nat, n: int, subshell: string)
    requires Sorted(c) && i < |c| && j < |c|
    requires Names(c[i], n, subshell) && Names(c[j], n, subshell)
    ensures i == j
  {
  }
}
