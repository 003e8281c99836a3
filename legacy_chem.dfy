/** `src/chem/chem.py`: the older chemistry module.  An electron
    configuration is a list of orbital strings such as "2p4"; the shell is
    read from the first character and the electron count from the third,
    so only one-digit fields are understood.  The root-level `chem.py`
    (module `RootChem`) reads configurations with the same helpers. */
module LegacyChem {
  import opened Wrappers
  import opened PyStr
  import Atomic
  import Structure

  // ---------------------------------------------------------------------
  // Reading orbital strings
  // ---------------------------------------------------------------------

  /** `int(x[0])`: the shell an orbital string names. */
  function ShellOf(x: string): (r: Result<int>)
    ensures r.Ok? <==> |x| > 0 && IsDigitChar(x[0])
    ensures r.Ok? ==> 0 <= r.value <= 9
    ensures |x| == 0 ==> r == Err(Builtin("IndexError"))
  {
    if |x| == 0 then Err(Builtin("IndexError"))
    else if !IsDigitChar(x[0]) then Err(Builtin("ValueError"))
    else Ok(DigitValue(x[0]))
  }

  /** `int(x[2])`: the electron count an orbital string gives. */
  function CountOf(x: string): (r: Result<int>)
    ensures r.Ok? <==> |x| >= 3 && IsDigitChar(x[2])
    ensures r.Ok? ==> 0 <= r.value <= 9
    ensures |x| < 3 ==> r == Err(Builtin("IndexError"))
  {
    if |x| < 3 then Err(Builtin("IndexError"))
    else if !IsDigitChar(x[2]) then Err(Builtin("ValueError"))
    else Ok(DigitValue(x[2]))
  }

  /** Every orbital string names a shell. */
  predicate ShellsRead(ec: seq<string>) {
    forall i :: 0 <= i < |ec| ==> ShellOf(ec[i]).Ok?
  }

  /** `[int(x[0]) for x in ec]`. */
  function Shells(ec: seq<string>): (r: Result<seq<int>>)
    ensures r.Ok? <==> ShellsRead(ec)
    ensures r.Ok? ==> |r.value| == |ec| && forall i :: 0 <= i < |ec| ==> r.value[i] == ShellOf(ec[i]).value
  {
    if |ec| == 0 then Ok([])
    else
      var h :- ShellOf(ec[0]);
      var t :- Shells(ec[1..]);
      Ok([h] + t)
  }

  /** `max(...)` of a non-empty list. */
  function MaxOf(s: seq<int>): (m: int)
    requires |s| > 0
    ensures m in s && forall i :: 0 <= i < |s| ==> s[i] <= m
  {
    if |s| == 1 then s[0]
    else
      var m := MaxOf(s[1..]);
      assert m in s;
      if s[0] >= m then s[0] else m
  }

  /** `sum([int(x[2]) for x in ec if int(x[0]) == layer])`: the electrons
      of one shell; only the orbitals of that shell have their count read. */
  function LayerCount(ec: seq<string>, layer: int): (r: Result<int>)
    requires ShellsRead(ec)
    ensures r.Ok? <==> forall i :: 0 <= i < |ec| && ShellOf(ec[i]).value == layer ==> CountOf(ec[i]).Ok?
    ensures r.Ok? ==> r.value >= 0
  {
    if |ec| == 0 then Ok(0)
    else
      assert ShellsRead(ec[1..]) by {
        forall i | 0 <= i < |ec[1..]| ensures ShellOf(ec[1..][i]).Ok? {
          assert ec[1..][i] == ec[i + 1];
        }
      }
      var rest := LayerCount(ec[1..], layer);
      assert rest.Ok? <==> forall i :: 1 <= i < |ec| && ShellOf(ec[i]).value == layer ==> CountOf(ec[i]).Ok? by {
        forall i | 1 <= i < |ec| ensures ec[1..][i - 1] == ec[i] { }
      }
      if ShellOf(ec[0]).value == layer then
        var c :- CountOf(ec[0]);
        var t :- rest;
        Ok(c + t)
      else rest
  }

  /** The shells among `shells` from `k` down to 0, each once. */
  function LayersFrom(shells: seq<int>, k: int): seq<int>
    decreases k + 1
  {
    if k < 0 then [] else (if k in shells then [k] else []) + LayersFrom(shells, k - 1)
  }

  predicate StrictlyDescending(s: seq<int>) {
    forall i, j :: 0 <= i < j < |s| ==> s[i] > s[j]
  }

  /** `list(set(shells))` sorted with `reverse=True`: each shell once,
      largest first. */
  lemma {:induction false} LayersFromSpec(shells: seq<int>, k: int)
    ensures StrictlyDescending(LayersFrom(shells, k))
    ensures forall x :: x in LayersFrom(shells, k) <==> x in shells && 0 <= x <= k
    decreases k + 1
  {
    if k >= 0 {
      LayersFromSpec(shells, k - 1);
      var head: seq<int> := if k in shells then [k] else [];
      var tail := LayersFrom(shells, k - 1);
      var r := head + tail;
      forall i, j | 0 <= i < j < |r| ensures r[i] > r[j] {
        if |head| == 1 && i == 0 {
          assert r[j] == tail[j - 1] && r[j] in tail;
        } else {
          assert r[i] == tail[i - |head|] && r[j] == tail[j - |head|];
        }
      }
    }
  }

  // ---------------------------------------------------------------------
  // Atom
  // ---------------------------------------------------------------------

  /** `Atom` with the fields `__post_init__` derives. */
  datatype LegacyAtom = LegacyAtom(
    symbol: string,
    configuration: seq<string>,
    aromatic: bool,
    valencyLayer: int,
    electronsInValency: int,
    layers: seq<int>,
    electronsByLayers: seq<int>)

  /** Every entry of the list is 0. */
  predicate AllZero(s: seq<int>) {
    forall i :: 0 <= i < |s| ==> s[i] == 0
  }

  /** `Atom(symbol, configuration, aromatic).__post_init__()` on a list
      configuration.  The valence layer is the largest shell (an empty list
      makes `max` raise ValueError) and its electrons are summed; `layers`
      holds the distinct shells, largest first.  `electrons_by_layers`
      selects the orbitals whose first character equals the layer number,
      and a one-character string never equals an int, so every entry is 0. */
  function ParseAtom(symbol: string, configuration: seq<string>, aromatic: bool): (r: Result<LegacyAtom>)
    ensures !ShellsRead(configuration) ==> r.Err?
    ensures ShellsRead(configuration) && |configuration| == 0 ==> r == Err(Builtin("ValueError"))
    ensures r.Ok? ==> ShellsRead(configuration) && |configuration| > 0
    ensures r.Ok? ==> r.value.symbol == symbol && r.value.configuration == configuration && r.value.aromatic == aromatic
    ensures r.Ok? ==> r.value.valencyLayer == MaxOf(Shells(configuration).value)
    ensures r.Ok? ==> r.value.layers == LayersFrom(Shells(configuration).value, 9)
    ensures r.Ok? ==> LayerCount(configuration, r.value.valencyLayer) == Ok(r.value.electronsInValency)
    ensures r.Ok? ==> |r.value.electronsByLayers| == |r.value.layers| && AllZero(r.value.electronsByLayers)
  {
    var shells :- Shells(configuration);
    if |shells| == 0 then Err(Builtin("ValueError"))
    else
      var valencyLayer := MaxOf(shells);
      var electronsInValency :- LayerCount(configuration, valencyLayer);
      var layers := LayersFrom(shells, 9);
      Ok(LegacyAtom(symbol, configuration, aromatic, valencyLayer, electronsInValency, layers,
                    seq(|layers|, _ => 0)))
  }

  /** The layers of a parsed atom are its shells, each once, largest first,
      and the first of them is the valence layer. */
  lemma ParsedLayers(symbol: string, configuration: seq<string>, aromatic: bool)
    requires ParseAtom(symbol, configuration, aromatic).Ok?
    ensures var a := ParseAtom(symbol, configuration, aromatic).value;
      && StrictlyDescending(a.layers)
      && (forall x :: x in a.layers <==> x in Shells(configuration).value)
      && |a.layers| > 0 && a.layers[0] == a.valencyLayer
  {
    var a := ParseAtom(symbol, configuration, aromatic).value;
    var shells := Shells(configuration).value;
    ShellRange(configuration);
    LayersFromSpec(shells, 9);
    LayersHeadIsMax(shells, a.layers, a.valencyLayer);
  }

  lemma ShellRange(configuration: seq<string>)
    requires ShellsRead(configuration)
    ensures forall x :: x in Shells(configuration).value ==> 0 <= x <= 9
  {
    var shells := Shells(configuration).value;
    forall x | x in shells ensures 0 <= x <= 9 {
      var i :| 0 <= i < |shells| && shells[i] == x;
      assert x == ShellOf(configuration[i]).value;
    }
  }

  lemma LayersHeadIsMax(shells: seq<int>, layers: seq<int>, m: int)
    requires StrictlyDescending(layers) && m in shells
    requires forall x :: x in layers <==> x in shells
    requires forall i :: 0 <= i < |shells| ==> shells[i] <= m
    ensures |layers| > 0 && layers[0] == m
  {
    assert m in layers;
    var k :| 0 <= k < |layers| && layers[k] == m;
    assert layers[0] in shells;
    var i :| 0 <= i < |shells| && shells[i] == layers[0];
    assert layers[0] <= m;
    assert layers[0] >= layers[k];
  }

  /** A configuration written as a string is split on single spaces; the
      empty string splits into one empty orbital, whose first character
      does not exist. */
  lemma EmptyConfigurationString(symbol: string, aromatic: bool)
    ensures ParseAtom(symbol, SplitOn("", ' '), aromatic) == Err(Builtin("IndexError"))
  {
    assert SplitOn("", ' ') == [""];
  }

  /** `__eq__` and `__hash__` look only at the symbol. */
  predicate SameAtom(a: LegacyAtom, b: LegacyAtom) {
    a.symbol == b.symbol
  }

  /** Atoms parsed for the same symbol compare equal whatever their
      configuration and aromatic flag, while the dataclass fields differ. */
  lemma SameSymbolSameAtom(symbol: string, c1: seq<string>, c2: seq<string>, a1: bool, a2: bool)
    requires ParseAtom(symbol, c1, a1).Ok? && ParseAtom(symbol, c2, a2).Ok?
    ensures SameAtom(ParseAtom(symbol, c1, a1).value, ParseAtom(symbol, c2, a2).value)
    ensures a1 != a2 ==> ParseAtom(symbol, c1, a1).value != ParseAtom(symbol, c2, a2).value
  {
  }

  // ---------------------------------------------------------------------
  // Scanning layers
  // ---------------------------------------------------------------------

  /** Scanning from layer `x` with running total `acc`: the first layer
      that holds more than `-acc` electrons, each layer passed adding its
      electrons to `acc`. */
  function FirstAboveFrom(el: seq<int>, acc: int, x: nat): (r: Option<nat>)
    requires x <= |el|
    ensures r.Some? ==> x <= r.value < |el|
    decreases |el| - x
  {
    if x == |el| then None
    else if el[x] > -acc then Some(x)
    else FirstAboveFrom(el, acc + el[x], x + 1)
  }

  function FirstAbove(el: seq<int>, acc: int): (r: Option<nat>)
    ensures r.Some? ==> r.value < |el|
  {
    FirstAboveFrom(el, acc, 0)
  }

  /** Layer `j` does not hold more than `-acc` electrons once the layers
      before it have been added to `acc`. */
  predicate NotAbove(el: seq<int>, acc: int, j: nat)
    requires j < |el|
  {
    el[j] <= -(acc + Atomic.SumSeq(el[..j]))
  }

  lemma SumSeqSnoc(el: seq<int>, x: nat)
    requires x < |el|
    ensures Atomic.SumSeq(el[..x + 1]) == Atomic.SumSeq(el[..x]) + el[x]
  {
    assert el[..x + 1][..x] == el[..x];
  }

  lemma {:induction false} FirstAboveFromSpec(el: seq<int>, acc: int, x: nat)
    requires x <= |el|
    requires forall j :: 0 <= j < x ==> NotAbove(el, acc, j)
    ensures var r := FirstAboveFrom(el, acc + Atomic.SumSeq(el[..x]), x);
      && (r.Some? ==> !NotAbove(el, acc, r.value) && forall j :: 0 <= j < r.value ==> NotAbove(el, acc, j))
      && (r.None? ==> forall j :: 0 <= j < |el| ==> NotAbove(el, acc, j))
    decreases |el| - x
  {
    if x < |el| && NotAbove(el, acc, x) {
      SumSeqSnoc(el, x);
      FirstAboveFromSpec(el, acc, x + 1);
    }
  }

  /** The scan stops at the first layer holding more than `-acc` once the
      layers before it are added, and finds none only when no layer does. */
  lemma FirstAboveSpec(el: seq<int>, acc: int)
    ensures var r := FirstAbove(el, acc);
      && (r.Some? ==> !NotAbove(el, acc, r.value) && forall j :: 0 <= j < r.value ==> NotAbove(el, acc, j))
      && (r.None? ==> forall j :: 0 <= j < |el| ==> NotAbove(el, acc, j))
  {
    assert el[..0] == [];
    FirstAboveFromSpec(el, acc, 0);
  }

  lemma {:induction false} FirstAboveFromExists(el: seq<int>, acc: int, x: nat)
    requires x < |el| && acc + Atomic.SumSeq(el) > 0
    ensures FirstAboveFrom(el, acc + Atomic.SumSeq(el[..x]), x).Some?
    decreases |el| - x
  {
    SumSeqSnoc(el, x);
    if x + 1 == |el| {
      assert el[..x + 1] == el;
    } else if el[x] <= -(acc + Atomic.SumSeq(el[..x])) {
      FirstAboveFromExists(el, acc, x + 1);
    }
  }

  /** When the layers hold more electrons than `-acc`, the scan stops at
      some layer. */
  lemma FirstAboveExists(el: seq<int>, acc: int)
    requires |el| > 0 && acc + Atomic.SumSeq(el) > 0
    ensures FirstAbove(el, acc).Some?
  {
    assert el[..0] == [];
    FirstAboveFromExists(el, acc, 0);
  }

  /** Layers holding no electrons never stop a scan that starts at or
      below 0. */
  lemma {:induction false} ZeroLayersNeverAbove(el: seq<int>, acc: int, x: nat)
    requires AllZero(el) && acc <= 0 && x <= |el|
    ensures FirstAboveFrom(el, acc, x) == None
    decreases |el| - x
  {
    if x < |el| {
      ZeroLayersNeverAbove(el, acc, x + 1);
    }
  }

  lemma {:induction false} SumZero(el: seq<int>)
    requires AllZero(el)
    ensures Atomic.SumSeq(el) == 0
  {
    if |el| > 0 {
      SumZero(el[..|el| - 1]);
    }
  }

  /** `_octate_rule(layer)`: the layer holds eight electrons, or it is the
      last layer and holds two. */
  predicate Octet(el: seq<int>, layer: nat)
    requires layer < |el|
  {
    el[layer] == 8 || (layer == |el| - 1 && el[layer] == 2)
  }

  /** The first `k` layers emptied. */
  function ZeroPrefix(el: seq<int>, k: nat): (r: seq<int>)
    ensures |r| == |el|
    ensures forall i :: 0 <= i < |el| ==> r[i] == if i < k then 0 else el[i]
  {
    seq(|el|, i requires 0 <= i < |el| => if i < k then 0 else el[i])
  }

  /** `[x for x in el if x != 0]`. */
  function NonZero(el: seq<int>): (r: seq<int>)
    ensures AllZero(el) ==> r == []
  {
    if |el| == 0 then []
    else (if el[0] != 0 then [el[0]] else []) + NonZero(el[1..])
  }

  // ---------------------------------------------------------------------
  // Bracket atoms
  // ---------------------------------------------------------------------

  /** `max_valency_per_layer`. */
  const MaxPerLayer: seq<int> := [2, 8, 18, 32, 32, 18, 8, 2]

  /** `s[i]` with Python's negative indexing. */
  function PyIndex(s: seq<int>, i: int): (r: Result<int>)
    ensures r.Ok? <==> -|s| <= i < |s|
    ensures 0 <= i < |s| ==> r == Ok(s[i])
    ensures -|s| <= i < 0 ==> r == Ok(s[|s| + i])
    ensures r.Err? ==> r.error == Builtin("IndexError")
  {
    if 0 <= i < |s| then Ok(s[i])
    else if -|s| <= i < 0 then Ok(s[|s| + i])
    else Err(Builtin("IndexError"))
  }

  /** The first branch of `_handle_positive_acc`: when the valence layer
      can take `acc` more electrons it is stable exactly when that fills
      it.  The overflow loops after it are not modelled. */
  function PositiveOutcome(electronsInValency: int, valencyLayer: int, acc: int): (r: Result<bool>)
    ensures PyIndex(MaxPerLayer, valencyLayer - 1).Err? ==> r == Err(Builtin("IndexError"))
    ensures r.Ok? ==> var m := PyIndex(MaxPerLayer, valencyLayer - 1).value;
      electronsInValency + acc <= m && (r.value <==> electronsInValency + acc == m)
    ensures (PyIndex(MaxPerLayer, valencyLayer - 1).Ok? &&
             electronsInValency + acc > PyIndex(MaxPerLayer, valencyLayer - 1).value) ==> r == Err(NotModelled)
  {
    var m :- PyIndex(MaxPerLayer, valencyLayer - 1);
    if electronsInValency + acc <= m then Ok(electronsInValency + acc == m) else Err(NotModelled)
  }

  /** `BracketAtom`: an atom with optional hydrogen count and charge whose
      valency check rewrites its fields. */
  class LegacyBracketAtom {
    const symbol: string
    const aromatic: bool
    const layers: seq<int>
    var valencyLayer: int
    var electronsInValency: int
    var electronsByLayers: seq<int>
    var hidrogens: Option<int>
    var charge: Option<int>
    var soloValency: bool

    /** The dataclass fields, before `__post_init__` runs its check. */
    constructor (base: LegacyAtom, hidrogens: Option<int>, charge: Option<int>)
      ensures symbol == base.symbol && aromatic == base.aromatic && layers == base.layers
      ensures valencyLayer == base.valencyLayer && electronsInValency == base.electronsInValency
      ensures electronsByLayers == base.electronsByLayers
      ensures this.hidrogens == hidrogens && this.charge == charge && !soloValency
    {
      symbol, aromatic, layers := base.symbol, base.aromatic, base.layers;
      valencyLayer, electronsInValency := base.valencyLayer, base.electronsInValency;
      electronsByLayers := base.electronsByLayers;
      this.hidrogens, this.charge := hidrogens, charge;
      soloValency := false;
    }

    /** `_handle_negative_acc(acc)`: layers are emptied outermost-first
        while each holds no more than `-acc`, `acc` growing by each; the
        first layer holding more decides by the octet rule.  When no layer
        does, every layer has been emptied, the filtered list is empty and
        reading its first entry raises IndexError. */
    method HandleNegativeAcc(acc0: int) returns (r: Result<bool>)
      modifies this
      ensures var k := FirstAbove(old(electronsByLayers), acc0);
        && (k.Some? ==>
              && r == Ok(Octet(old(electronsByLayers), k.value))
              && electronsByLayers == ZeroPrefix(old(electronsByLayers), k.value)
              && valencyLayer == old(valencyLayer))
        && (k.None? ==>
              && r == Err(Builtin("IndexError"))
              && electronsByLayers == [] && valencyLayer == -1)
      ensures electronsInValency == old(electronsInValency)
      ensures hidrogens == old(hidrogens) && charge == old(charge) && soloValency == old(soloValency)
    {
      var acc := acc0;
      var x := 0;
      while x < |electronsByLayers|
        invariant 0 <= x <= |electronsByLayers| == |old(electronsByLayers)|
        invariant electronsByLayers == ZeroPrefix(old(electronsByLayers), x)
        invariant FirstAboveFrom(old(electronsByLayers), acc, x) == FirstAbove(old(electronsByLayers), acc0)
        invariant valencyLayer == old(valencyLayer) && electronsInValency == old(electronsInValency)
        invariant hidrogens == old(hidrogens) && charge == old(charge) && soloValency == old(soloValency)
        decreases |electronsByLayers| - x
      {
        var electron := electronsByLayers[x];
        if electron > -acc {
          return Ok(Octet(electronsByLayers, x));
        }
        electronsByLayers := electronsByLayers[x := 0];
        acc := acc + electron;
        x := x + 1;
      }
      assert AllZero(electronsByLayers);
      electronsByLayers := NonZero(electronsByLayers);
      valencyLayer := |electronsByLayers| - 1;
      // `electrons_by_layers[0]` on the emptied list
      return Err(Builtin("IndexError"));
    }

    /** `compute_valency()`: missing hydrogens and charge become 0, then
        `acc = hidrogens - charge`.  Fewer electrons in all layers than
        `-acc` is unstable; otherwise a negative `acc` removes electrons and
        a non-negative one adds them. */
    method ComputeValency() returns (r: Result<bool>)
      modifies this
      ensures hidrogens == Some(old(hidrogens).GetOr(0)) && charge == Some(old(charge).GetOr(0))
      ensures soloValency == old(soloValency) && electronsInValency == old(electronsInValency)
      ensures var acc := old(hidrogens).GetOr(0) - old(charge).GetOr(0);
        && (Atomic.SumSeq(old(electronsByLayers)) < -acc ==>
              r == Ok(false) && electronsByLayers == old(electronsByLayers) && valencyLayer == old(valencyLayer))
        && (Atomic.SumSeq(old(electronsByLayers)) >= -acc && acc < 0 ==>
              (var k := FirstAbove(old(electronsByLayers), acc);
               && (k.Some? ==>
                     && r == Ok(Octet(old(electronsByLayers), k.value))
                     && electronsByLayers == ZeroPrefix(old(electronsByLayers), k.value)
                     && valencyLayer == old(valencyLayer))
               && (k.None? ==> r == Err(Builtin("IndexError")) && electronsByLayers == [] && valencyLayer == -1)))
        && (Atomic.SumSeq(old(electronsByLayers)) >= -acc && acc >= 0 ==>
              r == PositiveOutcome(old(electronsInValency), old(valencyLayer), acc)
              && electronsByLayers == old(electronsByLayers) && valencyLayer == old(valencyLayer))
    {
      if hidrogens.None? {
        hidrogens := Some(0);
      }
      if charge.None? {
        charge := Some(0);
      }
      var acc := hidrogens.value - charge.value;
      if Atomic.SumSeq(electronsByLayers) < -acc {
        return Ok(false);
      }
      if acc < 0 {
        r := HandleNegativeAcc(acc);
        return;
      }
      return PositiveOutcome(electronsInValency, valencyLayer, acc);
    }
  }

  /** `BracketAtom(...)`: the dataclass is built and `__post_init__`
      records the first valency check, whose exception escapes. */
  method NewBracketAtom(base: LegacyAtom, hidrogens: Option<int>, charge: Option<int>)
    returns (r: Result<LegacyBracketAtom>)
    ensures r.Ok? ==> fresh(r.value)
    ensures r.Ok? ==> r.value.symbol == base.symbol && r.value.layers == base.layers
    ensures r.Ok? ==> r.value.hidrogens == Some(hidrogens.GetOr(0)) && r.value.charge == Some(charge.GetOr(0))
    ensures AllZero(base.electronsByLayers) ==>
      var acc := hidrogens.GetOr(0) - charge.GetOr(0);
      var p := PositiveOutcome(base.electronsInValency, base.valencyLayer, acc);
      && (acc < 0 ==> r.Ok? && !r.value.soloValency)
      && (acc >= 0 && p.Err? ==> r == Err(p.error))
      && (acc >= 0 && p.Ok? ==> r.Ok? && r.value.soloValency == p.value)
      && (r.Ok? ==> r.value.electronsByLayers == base.electronsByLayers
                    && r.value.valencyLayer == base.valencyLayer
                    && r.value.electronsInValency == base.electronsInValency)
  {
    var atom := new LegacyBracketAtom(base, hidrogens, charge);
    if AllZero(base.electronsByLayers) {
      SumZero(base.electronsByLayers);
    }
    var solo := atom.ComputeValency();
    if solo.Err? {
      return Err(solo.error);
    }
    atom.soloValency := solo.value;
    return Ok(atom);
  }

  /** `Chem.BracketAtom(symbol)`: the raw symbol must be a table symbol;
      a symbol that is not title-cased is title-cased and marks the atom
      aromatic.  The configuration is the table's, split on spaces. */
  function BracketBase(t: Structure.PeriodicTable, symbol: string): (r: Result<LegacyAtom>)
    ensures symbol !in t.symbols ==> r == Err(Raised("Invalid Symbol " + symbol))
    ensures symbol in t.symbols && symbol !in t.configurations ==> r == Err(Builtin("KeyError"))
    ensures r.Ok? ==> symbol in t.configurations
    ensures r.Ok? ==> r.value.symbol == TitleCase(symbol) && (r.value.aromatic <==> TitleCase(symbol) != symbol)
    ensures r.Ok? ==> JoinWith(r.value.configuration, ' ') == t.configurations[symbol]
    ensures r.Ok? ==> |r.value.electronsByLayers| == |r.value.layers| && AllZero(r.value.electronsByLayers)
  {
    if symbol !in t.symbols then Err(Raised("Invalid Symbol " + symbol))
    else if symbol !in t.configurations then Err(Builtin("KeyError"))
    else
      var configuration := SplitOn(t.configurations[symbol], ' ');
      JoinSplitOn(t.configurations[symbol], ' ');
      ParseAtom(TitleCase(symbol), configuration, TitleCase(symbol) != symbol)
  }

  /** `Chem.validate_valency_bracket`: a bracket atom with the given
      charge and hydrogens (0 when missing), checked again.  Because every
      layer of a parsed atom counts 0 electrons, a charge larger than the
      hydrogen count is always rejected and the electron-removing branch
      is never reached; otherwise only the first branch of the
      electron-adding path decides. */
  method ValidateValencyBracket(t: Structure.PeriodicTable, symbol: string, hcount: Option<int>, charge: Option<int>)
    returns (r: Result<bool>)
    ensures var b := BracketBase(t, symbol);
      var acc := hcount.GetOr(0) - charge.GetOr(0);
      && (b.Err? ==> r == Err(b.error))
      && (b.Ok? && acc < 0 ==> r == Ok(false))
      && (b.Ok? && acc >= 0 ==> r == PositiveOutcome(b.value.electronsInValency, b.value.valencyLayer, acc))
  {
    var base :- BracketBase(t, symbol);
    var atom :- NewBracketAtom(base, Some(hcount.GetOr(0)), Some(charge.GetOr(0)));
    SumZero(base.electronsByLayers);
    r := atom.ComputeValency();
  }
}
