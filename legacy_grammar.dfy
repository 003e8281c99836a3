/** The value logic of the reduction rules of `src/validator/yacc.py`:
    `chains`, `chain` and `internal_bracket`.  A production is given by
    which alternative matched and the values of its symbols; the parsing
    machinery that matches them is not part of this model. */
module LegacyGrammar {
  import opened Wrappers
  import opened PyStr
  import opened Values
  import Structure
  import Combinations
  import LegacyChem
  import LegacyManager

  // ---------------------------------------------------------------------
  // chains
  // ---------------------------------------------------------------------

  /** `chains`: a lone chain unchanged; a chain before a list of chains in
      front of it; before any other value paired with it. */
  function ChainsRule(first: Value, rest: Option<Value>): (r: Value)
    ensures rest.None? ==> r == first
    ensures rest.Some? && rest.value.ListValue? ==> r == ListValue([first] + rest.value.items)
    ensures rest.Some? && !rest.value.ListValue? ==> r == ListValue([first, rest.value])
  {
    match rest
    case None => first
    case Some(v) => if v.ListValue? then ListValue([first] + v.items) else ListValue([first, v])
  }

  /** `chains` is `listify` except when the following chains reduced to
      `None`, which `chains` keeps as a second element and `listify`
      drops. */
  lemma ChainsIsListify(first: Value, rest: Option<Value>)
    ensures rest.None? ==> ChainsRule(first, rest) == LegacyManager.Listify(first, NoneValue)
    ensures rest.Some? && !rest.value.NoneValue? ==> ChainsRule(first, rest) == LegacyManager.Listify(first, rest.value)
    ensures rest == Some(NoneValue) ==> ChainsRule(first, rest) == ListValue([first, NoneValue])
  {
  }

  // ---------------------------------------------------------------------
  // chain
  // ---------------------------------------------------------------------

  /** Which alternative of `chain` matched: one symbol (`dot_proxy`,
      `atom` or `rnum`), `bond atom` or `bond rnum`. */
  datatype ChainProduction =
    | Single(v: Value)
    | BondAtom(bond: string, atom: Value)
    | BondRnum(bond: string, rnum: Value)

  /** `chain`: a one-symbol production passes its value; an aromatic bond
      before an upper-case atom raises; otherwise the atom is paired with
      the bond's electrons.  A `bond rnum` production has no `atom`
      attribute, so reading it raises AttributeError. */
  function ChainRule(p: ChainProduction): (r: Result<Value>)
    ensures p.Single? ==> r == Ok(p.v)
    ensures p.BondRnum? ==> r == Err(Builtin("AttributeError"))
    ensures p.BondAtom? && p.bond == ":" && p.atom.StrValue? && p.atom.s != "" && IsUpperChar(p.atom.s[0]) ==>
      r == Err(Raised("Aromatic bond cannot be use with Uppercase and collon " + p.atom.s))
    ensures p.BondAtom? && r.Ok? ==>
      && Structure.NumberOfElectronsPerBond(p.bond).Ok?
      && r.value == ListValue([p.atom, IntValue(Structure.NumberOfElectronsPerBond(p.bond).value)])
    ensures p.BondAtom? && p.bond != ":" ==>
      (r.Ok? <==> Structure.NumberOfElectronsPerBond(p.bond).Ok?)
  {
    match p
    case Single(v) => Ok(v)
    case BondRnum(_, _) => Err(Builtin("AttributeError"))
    case BondAtom(bond, atom) =>
      if bond == ":" && Truthy(atom) && atom.StrValue? && IsUpperChar(atom.s[0]) then
        Err(Raised("Aromatic bond cannot be use with Uppercase and collon " + atom.s))
      else
        var n :- Structure.NumberOfElectronsPerBond(bond);
        Ok(ListValue([atom, IntValue(n)]))
  }

  /** The rule and the parser manager's `chain` agree on `bond atom`,
      except that the manager's aromatic-bond message cannot be built and
      raises NameError instead. */
  lemma ChainRuleIsManagerChain(bond: string, atom: Value)
    ensures var rule := ChainRule(BondAtom(bond, atom));
      var manager := LegacyManager.Chain(Some(bond), atom, NoneValue, NoneValue);
      && (rule.Ok? ==> manager == rule)
      && (rule.Err? ==> manager.Err?)
      && (rule.Err? && !rule.error.Raised? ==> manager == rule)
  {
  }

  /** No bond can stand before a ring number, and no production with an
      aromatic bond passes. */
  lemma ChainBondFailures(bond: string, v: Value)
    ensures ChainRule(BondRnum(bond, v)).Err?
    ensures ChainRule(BondAtom(":", v)).Err?
  {
  }

  // ---------------------------------------------------------------------
  // internal_bracket
  // ---------------------------------------------------------------------

  /** The names `internal_bracket` reads, in the order it unpacks them. */
  const BracketNames: Combinations.Properties :=
    Combinations.Names([Combinations.Name("isotope"), Combinations.Name("symbol"), Combinations.Name("chiral"),
                        Combinations.Name("hcount"), Combinations.Name("charge"), Combinations.Name("map")])

  /** An optional count handed on to the valence check. */
  function OptionalInt(v: Value): (r: Result<Option<int>>)
    ensures v.NoneValue? ==> r == Ok(None)
    ensures v.IntValue? ==> r == Ok(Some(v.i))
    ensures !v.NoneValue? && !v.IntValue? ==> r == Err(NotModelled)
  {
    match v
    case NoneValue => Ok(None)
    case IntValue(i) => Ok(Some(i))
    case _ => Err(NotModelled)
  }

  /** The verdict of `Chem.validate_valency_bracket` as a function. */
  function ValencyVerdict(t: Structure.PeriodicTable, symbol: string, hcount: Option<int>, charge: Option<int>): Result<bool> {
    var base :- LegacyChem.BracketBase(t, symbol);
    var acc := hcount.GetOr(0) - charge.GetOr(0);
    if acc < 0 then Ok(false)
    else LegacyChem.PositiveOutcome(base.electronsInValency, base.valencyLayer, acc)
  }

  /** What `internal_bracket` does once past the grammar-only switch. */
  function BracketOutcome(t: Structure.PeriodicTable, rules: map<string, Value>): Result<Value> {
    var symbol := Combinations.Attributes(rules, Combinations.Name("symbol"));
    if !symbol.StrValue? then Err(Raised("Invalid Symbol"))
    else
      var hcount :- OptionalInt(Combinations.Attributes(rules, Combinations.Name("hcount")));
      var charge :- OptionalInt(Combinations.Attributes(rules, Combinations.Name("charge")));
      var valid :- ValencyVerdict(t, symbol.s, hcount, charge);
      if valid then Ok(NoneValue) else Err(Raised("Invalid valency in Bracket"))
  }

  /** `internal_bracket`: reads the six attributes; with only the grammar
      checked it returns `None`; otherwise a bracket atom that fails the
      valence check raises, and one that passes reduces to `None`. */
  method InternalBracketRule(useOnlyGrammar: bool, t: Structure.PeriodicTable, rules: map<string, Value>)
    returns (r: Result<Value>)
    ensures useOnlyGrammar ==> r == Ok(NoneValue)
    ensures !useOnlyGrammar ==> r == BracketOutcome(t, rules)
  {
    var mol := Combinations.GetAttributes(rules, BracketNames);
    if useOnlyGrammar {
      return Ok(NoneValue);
    }
    var symbol := mol.items[1];
    if !symbol.StrValue? {
      return Err(Raised("Invalid Symbol"));
    }
    var hcount :- OptionalInt(mol.items[3]);
    var charge :- OptionalInt(mol.items[4]);
    var valid :- LegacyChem.ValidateValencyBracket(t, symbol.s, hcount, charge);
    if !valid {
      return Err(Raised("Invalid valency in Bracket"));
    }
    return Ok(NoneValue);
  }

  /** A bracket rule never produces a value: it passes with `None` or
      raises. */
  lemma BracketOutcomeIsNone(t: Structure.PeriodicTable, rules: map<string, Value>)
    ensures BracketOutcome(t, rules).Ok? ==> BracketOutcome(t, rules).value == NoneValue
  {
  }

  /** Every bracket atom whose charge exceeds its hydrogen count is
      rejected, whatever the element: its layers all count zero
      electrons. */
  lemma ExcessChargeRejected(t: Structure.PeriodicTable, rules: map<string, Value>, s: string, h: int, c: int)
    requires rules.Keys >= {"symbol", "hcount", "charge"}
    requires rules["symbol"] == StrValue(s) && rules["hcount"] == IntValue(h) && rules["charge"] == IntValue(c)
    requires c > h
    requires LegacyChem.BracketBase(t, s).Ok?
    ensures BracketOutcome(t, rules) == Err(Raised("Invalid valency in Bracket"))
  {
  }
}
