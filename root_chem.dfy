/** The root-level `chem.py`: organic atoms, reading an element's electron
    configuration from the periodic table, and the valence check on
    bracket atoms.  Here the layer of an orbital is its first character
    and layers are compared as characters, so per-layer totals are real
    sums. */
module RootChem {
  import opened Wrappers
  import opened PyStr
  import Atomic
  import Lexer
  import opened LegacyChem

  // ---------------------------------------------------------------------
  // Organic atoms
  // ---------------------------------------------------------------------

  const UpperOrganicAtoms: seq<string> := ["N", "O", "P", "S", "F", "Cl", "Br", "I", "C", "B"]

  /** `organic_atoms`: the lower-case forms first, then the symbols. */
  const OrganicAtoms: seq<string> := Lexer.LowerAll(UpperOrganicAtoms) + UpperOrganicAtoms

  /** Twenty entries, the first ten the lower-case forms of the last ten,
      and hydrogen is not among them in either case. */
  lemma OrganicAtomsShape()
    ensures |OrganicAtoms| == 20
    ensures forall i :: 0 <= i < 10 ==> OrganicAtoms[i] == LowerStr(OrganicAtoms[i + 10])
    ensures "H" !in OrganicAtoms && "h" !in OrganicAtoms
  {
    forall k | 0 <= k < 10 ensures UpperOrganicAtoms[k] != "H" && UpperOrganicAtoms[k] != "h" {
      assert |UpperOrganicAtoms[k]| == 1 ==> UpperOrganicAtoms[k][0] != 'H' && UpperOrganicAtoms[k][0] != 'h';
    }
    forall k | 0 <= k < 10 ensures OrganicAtoms[k] != "H" && OrganicAtoms[k] != "h" {
      Lexer.LowerNotHydrogen(UpperOrganicAtoms[k]);
    }
    assert forall k :: 10 <= k < 20 ==> OrganicAtoms[k] == UpperOrganicAtoms[k - 10];
  }

  /** The same twenty symbols written out. */
  const OrganicSymbols: seq<string> := ["n", "o", "p", "s", "f", "cl", "br", "i", "c", "b",
                                        "N", "O", "P", "S", "F", "Cl", "Br", "I", "C", "B"]

  lemma LowerSymbol(u: string, l: string)
    requires |u| == |l| && forall i :: 0 <= i < |u| ==> Lower(u[i]) == l[i]
    ensures LowerStr(u) == l
  {
  }

  lemma {:induction false} OrganicAtomsSpelled()
    ensures OrganicAtoms == OrganicSymbols
  {
    var u := UpperOrganicAtoms;
    LowerSymbol(u[0], "n");
    LowerSymbol(u[1], "o");
    LowerSymbol(u[2], "p");
    LowerSymbol(u[3], "s");
    LowerSymbol(u[4], "f");
    LowerSymbol(u[5], "cl");
    LowerSymbol(u[6], "br");
    LowerSymbol(u[7], "i");
    LowerSymbol(u[8], "c");
    LowerSymbol(u[9], "b");
    assert Lexer.LowerAll(u) == OrganicSymbols[..10];
  }

  // ---------------------------------------------------------------------
  // get_electric_config
  // ---------------------------------------------------------------------

  /** `get_electric_config(symbol)` with the table as a parameter: the
      orbitals (the configuration split on spaces) and the electrons of the
      largest shell.  A symbol missing from the table raises KeyError. */
  function GetElectricConfig(table: map<string, string>, symbol: string): (r: Result<(seq<string>, int)>)
    ensures symbol !in table ==> r == Err(Builtin("KeyError"))
    ensures r.Ok? ==> symbol in table && JoinWith(r.value.0, ' ') == table[symbol]
    ensures r.Ok? ==> ShellsRead(r.value.0) && |r.value.0| > 0
    ensures r.Ok? ==> LayerCount(r.value.0, MaxOf(Shells(r.value.0).value)) == Ok(r.value.1)
  {
    if symbol !in table then Err(Builtin("KeyError"))
    else
      var orbitals := SplitOn(table[symbol], ' ');
      JoinSplitOn(table[symbol], ' ');
      var shells :- Shells(orbitals);
      var electrons :- LayerCount(orbitals, MaxOf(shells));
      Ok((orbitals, electrons))
  }

  /** This reading and the older `Atom` of `src/chem/chem.py` agree: both
      fail on the same configurations with the same error, and otherwise
      count the same valence electrons. */
  lemma ConfigReadersAgree(table: map<string, string>, symbol: string, aromatic: bool)
    requires symbol in table
    ensures var g := GetElectricConfig(table, symbol);
      var p := ParseAtom(symbol, SplitOn(table[symbol], ' '), aromatic);
      && (g.Ok? <==> p.Ok?)
      && (g.Err? ==> g.error == p.error)
      && (g.Ok? ==> g.value.0 == p.value.configuration && g.value.1 == p.value.electronsInValency)
  {
  }

  // ---------------------------------------------------------------------
  // check_valency
  // ---------------------------------------------------------------------

  /** `[x[0] for x in elect_config]`: an empty orbital raises IndexError. */
  function FirstChars(config: seq<string>): (r: Result<seq<char>>)
    ensures r.Ok? <==> forall i :: 0 <= i < |config| ==> |config[i]| > 0
    ensures r.Ok? ==> |r.value| == |config| && forall i :: 0 <= i < |config| ==> r.value[i] == config[i][0]
    ensures r.Err? ==> r.error == Builtin("IndexError")
  {
    if |config| == 0 then Ok([])
    else if |config[0]| == 0 then Err(Builtin("IndexError"))
    else
      var rest :- FirstChars(config[1..]);
      Ok([config[0][0]] + rest)
  }

  function MaxChar(cs: seq<char>): (m: char)
    requires |cs| > 0
    ensures m in cs && forall x :: x in cs ==> x <= m
  {
    if |cs| == 1 then cs[0]
    else
      var m := MaxChar(cs[1..]);
      assert forall x :: x in cs ==> x == cs[0] || x in cs[1..];
      if cs[0] >= m then cs[0] else m
  }

  /** `cs` without any copy of `m`. */
  function Without(cs: seq<char>, m: char): (r: seq<char>)
    ensures forall x :: x in r <==> x in cs && x != m
    ensures |r| <= |cs| && (m in cs ==> |r| < |cs|)
  {
    if |cs| == 0 then []
    else (if cs[0] == m then [] else [cs[0]]) + Without(cs[1..], m)
  }

  /** `list(set(cs))` sorted with `reverse=True`. */
  function DescChars(cs: seq<char>): seq<char>
    decreases |cs|
  {
    if |cs| == 0 then []
    else
      var m := MaxChar(cs);
      [m] + DescChars(Without(cs, m))
  }

  /** Exactly the characters of `cs`. */
  lemma {:induction false} DescCharsMembers(cs: seq<char>)
    ensures forall x :: x in DescChars(cs) <==> x in cs
    decreases |cs|
  {
    if |cs| > 0 {
      DescCharsMembers(Without(cs, MaxChar(cs)));
    }
  }

  /** Each character once, largest first. */
  lemma {:induction false} DescCharsSorted(cs: seq<char>)
    ensures forall i, j :: 0 <= i < j < |DescChars(cs)| ==> DescChars(cs)[i] > DescChars(cs)[j]
    decreases |cs|
  {
    if |cs| > 0 {
      var m := MaxChar(cs);
      var rest := Without(cs, m);
      DescCharsSorted(rest);
      MaxAboveRest(cs);
      var tail := DescChars(rest);
      var r := DescChars(cs);
      assert r == [m] + tail;
      forall i, j | 0 <= i < j < |r| ensures r[i] > r[j] {
        assert r[j] == tail[j - 1] && r[j] in tail;
        if i > 0 {
          assert r[i] == tail[i - 1];
        }
      }
    }
  }

  lemma MaxAboveRest(cs: seq<char>)
    requires |cs| > 0
    ensures forall x :: x in DescChars(Without(cs, MaxChar(cs))) ==> MaxChar(cs) > x
  {
    DescCharsMembers(Without(cs, MaxChar(cs)));
  }

  /** `sum([int(x[2]) for x in elect_config if x[0] == layer])`. */
  function LayerTotal(config: seq<string>, layer: char): (r: Result<int>)
    requires forall i :: 0 <= i < |config| ==> |config[i]| > 0
    ensures r.Ok? <==> forall i :: 0 <= i < |config| && config[i][0] == layer ==> CountOf(config[i]).Ok?
    ensures r.Ok? ==> r.value >= 0
  {
    if |config| == 0 then Ok(0)
    else
      var rest := LayerTotal(config[1..], layer);
      assert rest.Ok? <==> forall i :: 1 <= i < |config| && config[i][0] == layer ==> CountOf(config[i]).Ok? by {
        forall i | 1 <= i < |config| ensures config[1..][i - 1] == config[i] { }
      }
      if config[0][0] == layer then
        var c :- CountOf(config[0]);
        var t :- rest;
        Ok(c + t)
      else rest
  }

  /** `electron_layers`: the electrons of each layer, in the given order. */
  function ElectronLayers(config: seq<string>, layers: seq<char>): (r: Result<seq<int>>)
    requires forall i :: 0 <= i < |config| ==> |config[i]| > 0
    ensures r.Ok? ==> |r.value| == |layers|
    ensures r.Ok? ==> forall k :: 0 <= k < |layers| ==> LayerTotal(config, layers[k]) == Ok(r.value[k])
    ensures r.Ok? ==> forall k :: 0 <= k < |layers| ==> r.value[k] >= 0
    ensures r.Err? ==> exists k :: 0 <= k < |layers| && LayerTotal(config, layers[k]).Err?
  {
    if |layers| == 0 then Ok([])
    else
      var e :- LayerTotal(config, layers[0]);
      var rest :- ElectronLayers(config, layers[1..]);
      Ok([e] + rest)
  }

  /** The removing branch: the first layer holding more than `-acc` (once
      the layers before it are added to `acc`) decides, stable when the
      electrons left reach 8, or when it is the last layer and holds 2; no
      such layer is unstable. */
  function NegativeVerdict(el: seq<int>, acc: int): bool {
    match FirstAbove(el, acc)
    case None => false
    case Some(k) => el[k] + (acc + Atomic.SumSeq(el[..k])) == 8 || (k == |el| - 1 && el[k] == 2)
  }

  /** The adding branch as written: for eight rounds the first layer is
      compared with the capacity of the layer whose number is the list's
      length; a layer overflowing it ends the check, stable when it holds
      exactly 8 and otherwise reading the unbound loop variable `x`.  Each
      round fills the first layer to that capacity and puts an empty layer
      in front.  A list longer than the capacity table raises IndexError. */
  function PositiveScan(el: seq<int>, acc: int, rounds: nat): (r: Result<bool>)
    decreases rounds
  {
    if rounds == 0 then Ok(false)
    else if |el| == 0 then Err(Builtin("IndexError"))
    else
      var m :- PyIndex(MaxPerLayer, |el| - 1);
      if el[0] + acc > m then
        if el[0] + acc == 8 then Ok(true) else Err(Builtin("UnboundLocalError"))
      else PositiveScan([0] + el[0 := m], acc - el[0], rounds - 1)
  }

  /** `check_valency(elect_config, charge, hcount)` as a function of its
      inputs. */
  function CheckValencySpec(config: seq<string>, charge: Option<int>, hcount: Option<int>): Result<bool> {
    var acc := hcount.GetOr(0) - charge.GetOr(0);
    var firsts :- FirstChars(config);
    var el :- ElectronLayers(config, DescChars(firsts));
    FromLayers(el, acc)
  }

  /** The verdict once the layer totals are known: fewer electrons than
      the charge removes is unstable. */
  function FromLayers(el: seq<int>, acc: int): Result<bool> {
    if Atomic.SumSeq(el) < -acc then Ok(false)
    else if acc < 0 then Ok(NegativeVerdict(el, acc))
    else PositiveScan(el, acc, |MaxPerLayer|)
  }

  /** `check_valency`: the layer totals, largest layer first, then the
      removing scan for a negative `acc` and the adding rounds otherwise. */
  method CheckValency(config: seq<string>, charge: Option<int>, hcount: Option<int>) returns (r: Result<bool>)
    ensures r == CheckValencySpec(config, charge, hcount)
  {
    var h := hcount.GetOr(0);
    var c := charge.GetOr(0);
    var acc := h - c;
    var firsts := FirstChars(config);
    if firsts.Err? {
      return Err(firsts.error);
    }
    var layers := ElectronLayers(config, DescChars(firsts.value));
    if layers.Err? {
      return Err(layers.error);
    }
    var electronLayers := layers.value;
    assert CheckValencySpec(config, charge, hcount) == FromLayers(electronLayers, acc);
    if Atomic.SumSeq(electronLayers) < -acc {
      return Ok(false);
    }
    if acc < 0 {
      var stable := NegativeScan(electronLayers, acc);
      return Ok(stable);
    }
    r := PositiveRounds(electronLayers, acc);
  }

  /** The removing loop of `check_valency`. */
  method NegativeScan(electronLayers: seq<int>, acc0: int) returns (stable: bool)
    ensures stable == NegativeVerdict(electronLayers, acc0)
  {
    var acc := acc0;
    var x := 0;
    assert electronLayers[..0] == [];
    while x < |electronLayers|
      invariant 0 <= x <= |electronLayers|
      invariant acc == acc0 + Atomic.SumSeq(electronLayers[..x])
      invariant FirstAboveFrom(electronLayers, acc, x) == FirstAbove(electronLayers, acc0)
      decreases |electronLayers| - x
    {
      var electron := electronLayers[x];
      if electron > -acc {
        return electron + acc == 8 || (x == |electronLayers| - 1 && electron == 2);
      }
      SumSeqSnoc(electronLayers, x);
      acc := acc + electron;
      x := x + 1;
    }
    return false;
  }

  /** The adding loop of `check_valency`: eight rounds over the layers. */
  method PositiveRounds(electronLayers: seq<int>, acc0: int) returns (r: Result<bool>)
    ensures r == PositiveScan(electronLayers, acc0, |MaxPerLayer|)
  {
    var acc := acc0;
    var layers := electronLayers;
    for round := 0 to |MaxPerLayer|
      invariant PositiveScan(layers, acc, |MaxPerLayer| - round) == PositiveScan(electronLayers, acc0, |MaxPerLayer|)
    {
      if |layers| == 0 {
        return Err(Builtin("IndexError"));
      }
      var electron := layers[0];
      var m :- PyIndex(MaxPerLayer, |layers| - 1);
      if electron + acc > m {
        if electron + acc == 8 {
          return Ok(true);
        }
        return Err(Builtin("UnboundLocalError"));
      }
      acc := acc - electron;
      layers := layers[0 := m];
      layers := [0] + layers;
    }
    return Ok(false);
  }

  /** When the layers hold more electrons than the charge removes, the
      removing scan always reaches a deciding layer. */
  lemma NegativeScanDecides(el: seq<int>, acc: int)
    requires acc < 0 && Atomic.SumSeq(el) > -acc
    ensures FirstAbove(el, acc).Some?
  {
    FirstAboveExists(el, acc);
  }

  /** Removing exactly every electron is unstable: no layer is ever above
      what is still to be removed. */
  lemma {:induction false} DrainedScanFails(el: seq<int>, acc: int, x: nat)
    requires x <= |el| && forall k :: 0 <= k < |el| ==> el[k] >= 0
    requires acc + Atomic.SumSeq(el) == 0
    ensures FirstAboveFrom(el, acc + Atomic.SumSeq(el[..x]), x) == None
    decreases |el| - x
  {
    if x < |el| {
      SumSeqSnoc(el, x);
      SuffixNonNegative(el, x + 1);
      DrainedScanFails(el, acc, x + 1);
    }
  }

  lemma {:induction false} SuffixNonNegative(el: seq<int>, x: nat)
    requires x <= |el| && forall k :: 0 <= k < |el| ==> el[k] >= 0
    ensures Atomic.SumSeq(el[..x]) <= Atomic.SumSeq(el)
    decreases |el| - x
  {
    if x < |el| {
      SumSeqSnoc(el, x);
      SuffixNonNegative(el, x + 1);
    } else {
      assert el[..x] == el;
    }
  }

  /** With two or more layers the adding rounds never complete: they end
      by a decision, by the unbound variable, or by running off the
      capacity table. */
  lemma {:induction false} PositiveScanNeverCompletes(el: seq<int>, acc: int, rounds: nat)
    requires rounds > 0 && |el| + rounds >= 10
    ensures PositiveScan(el, acc, rounds) != Ok(false)
    decreases rounds
  {
    if |el| > 0 && |el| - 1 < |MaxPerLayer| {
      var m := MaxPerLayer[|el| - 1];
      if el[0] + acc <= m {
        PositiveScanNeverCompletes([0] + el[0 := m], acc - el[0], rounds - 1);
      }
    }
  }

  /** Once the first layer is empty the rounds compare only `acc` with the
      capacities they reach: they end with False exactly when `acc` fits
      every one of them. */
  lemma {:induction false} ZeroFrontScan(el: seq<int>, acc: int, rounds: nat)
    requires |el| > 0 && el[0] == 0 && |el| - 1 + rounds <= |MaxPerLayer|
    ensures PositiveScan(el, acc, rounds) == Ok(false) <==>
      forall j :: |el| - 1 <= j < |el| - 1 + rounds ==> acc <= MaxPerLayer[j]
    decreases rounds
  {
    if rounds > 0 {
      var m := MaxPerLayer[|el| - 1];
      if acc <= m {
        var next := [0] + el[0 := m];
        assert |next| == |el| + 1 && next[0] == 0;
        ZeroFrontScan(next, acc, rounds - 1);
      }
    }
  }

  /** A single layer ends the adding rounds with False exactly when it and
      `acc` fit the first shell (2) and `acc`, less the layer, fits the
      smallest capacity of the later rounds (also 2). */
  lemma OneLayerScan(e: int, acc: int)
    ensures PositiveScan([e], acc, |MaxPerLayer|) == Ok(false) <==> e + acc <= 2 && acc - e <= 2
  {
    if e + acc <= 2 {
      var next := [0] + [e][0 := 2];
      assert next == [0, 2];
      assert PositiveScan([e], acc, |MaxPerLayer|) == PositiveScan(next, acc - e, |MaxPerLayer| - 1);
      ZeroFrontScan(next, acc - e, |MaxPerLayer| - 1);
      assert MaxPerLayer[7] == 2;
      forall j | 1 <= j < 8 ensures 2 <= MaxPerLayer[j] { }
    }
  }

  /** Hydrogen, `1s1` with one hydrogen: the adding rounds end with False. */
  lemma HydrogenScan()
    ensures PositiveScan([1], 1, |MaxPerLayer|) == Ok(false)
  {
    OneLayerScan(1, 1);
  }

  /** `validate_valency_bracket`: without hydrogens and charge (missing or
      0) the atom is valid exactly when its valence shell holds 8 electrons
      or it is helium; otherwise `check_valency` decides. */
  method ValidateValencyBracket(table: map<string, string>, symbol: string, hcount: Option<int>, charge: Option<int>)
    returns (r: Result<bool>)
    ensures var g := GetElectricConfig(table, symbol);
      && (g.Err? ==> r == Err(g.error))
      && (g.Ok? && hcount.GetOr(0) == 0 && charge.GetOr(0) == 0 ==> r == Ok(g.value.1 == 8 || symbol == "He"))
      && (g.Ok? && !(hcount.GetOr(0) == 0 && charge.GetOr(0) == 0) ==> r == CheckValencySpec(g.value.0, charge, hcount))
  {
    var config :- GetElectricConfig(table, symbol);
    if hcount.GetOr(0) == 0 && charge.GetOr(0) == 0 {
      return Ok(config.1 == 8 || symbol == "He");
    }
    r := CheckValency(config.0, charge, hcount);
  }
}
