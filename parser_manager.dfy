/** `src/smiles_checker/validator/parser_manager.py`: the state the grammar
    actions share while one SMILES string is parsed, and the small
    converters from tokens to values.

    The module-level `chem` object's `mol_graph` is never assigned, and its
    `add_edge` takes two atoms where `chain` and `inner_branch` pass three
    arguments.  The model passes the molecule's graph in explicitly and
    drops the bond label, which it still computes (`bondLabel`). */
module Manager {
  import opened Wrappers
  import opened PyStr
  import opened Atomic
  import opened Values
  import opened Structure

  // ---------------------------------------------------------------------
  // Ring-number bookkeeping
  // ---------------------------------------------------------------------

  /** `current_open_rnum`, `current_closed_rnum` and `ring_atoms`. */
  datatype RingState = RingState(open: seq<int>, closed: seq<int>, atoms: map<int, Atom>)

  /** No number is open twice, and an opening atom is remembered only for
      an open number. */
  predicate RingValid(s: RingState) {
    Distinct(s.open) && forall k :: k in s.atoms ==> k in s.open
  }

  /** `list.index(x)`: where `x` first occurs. */
  function IndexOf(s: seq<int>, x: int): (i: nat)
    requires x in s
    ensures i < |s| && s[i] == x && x !in s[..i]
  {
    if s[0] == x then 0
    else
      var i := IndexOf(s[1..], x);
      assert s[..i + 1] == [s[0]] + s[1..][..i];
      i + 1
  }

  /** `list.remove(x)`: the first occurrence of `x` goes. */
  function RemoveFirst(s: seq<int>, x: int): (r: seq<int>)
    requires x in s
  {
    s[..IndexOf(s, x)] + s[IndexOf(s, x) + 1..]
  }

  /** Removing a number from a list without repeats removes every copy and
      keeps the others, still without repeats. */
  lemma RemoveFirstDistinct(s: seq<int>, x: int)
    requires x in s && Distinct(s)
    ensures Distinct(RemoveFirst(s, x))
    ensures forall y :: y in RemoveFirst(s, x) <==> y in s && y != x
  {
    var i := IndexOf(s, x);
    var r := RemoveFirst(s, x);
    assert |r| == |s| - 1;
    assert forall j :: 0 <= j < i ==> r[j] == s[j];
    assert forall j :: i <= j < |r| ==> r[j] == s[j + 1];
    forall y ensures y in r <==> y in s && y != x {
      if y in s && y != x {
        var j :| 0 <= j < |s| && s[j] == y;
        if j < i { assert r[j] == y; } else { assert r[j - 1] == y; }
      }
    }
  }

  /** What a ring number token does to the ring bookkeeping in `chain`,
      given the last atom: an open number closes (its opening atom, when one
      was recorded, is the partner of the closing bond), any other number
      opens and records the last atom, if any.  A closed number may open
      again.  Closing a number that was opened with no atom before it pops a
      missing `ring_atoms` key. */
  function RingToken(s: RingState, rnum: int, last: Option<Atom>): (r: Result<(RingState, Option<Atom>)>)
    requires RingValid(s)
  {
    if rnum in s.open then
      if rnum !in s.atoms then Err(Builtin("KeyError"))
      else
        var partner := if last.Some? then Some(s.atoms[rnum]) else None;
        Ok((RingState(RemoveFirst(s.open, rnum), s.closed + [rnum], s.atoms - {rnum}), partner))
    else
      var atoms := if last.Some? then s.atoms[rnum := last.value] else s.atoms;
      Ok((RingState(s.open + [rnum], s.closed, atoms), None))
  }

  /** Every ring token keeps the bookkeeping valid; an opening token makes
      the number open, a closing one moves it from open to closed. */
  lemma RingTokenValid(s: RingState, rnum: int, last: Option<Atom>)
    requires RingValid(s) && RingToken(s, rnum, last).Ok?
    ensures RingValid(RingToken(s, rnum, last).value.0)
    ensures var t := RingToken(s, rnum, last).value.0;
      && (rnum in s.open ==> rnum !in t.open && t.closed == s.closed + [rnum] && rnum !in t.atoms)
      && (rnum !in s.open ==> rnum in t.open && t.closed == s.closed)
      && (forall k :: k != rnum ==> (k in t.open <==> k in s.open))
  {
    var t := RingToken(s, rnum, last).value.0;
    if rnum in s.open {
      RemoveFirstDistinct(s.open, rnum);
    } else {
      assert Distinct(t.open) by {
        forall i, j | 0 <= i < j < |t.open| ensures t.open[i] != t.open[j] {
          if j == |s.open| { assert t.open[i] in s.open; }
        }
      }
    }
  }

  /** The only failure: closing a number opened while there was no atom. */
  lemma RingTokenFails(s: RingState, rnum: int, last: Option<Atom>)
    requires RingValid(s)
    ensures RingToken(s, rnum, last).Err? <==> rnum in s.open && rnum !in s.atoms
  {
  }

  /** Opening a fresh number after atom `a` and closing it after atom `b`
      restores the open numbers and the recorded atoms, adds the number to
      the closed ones, and bonds `b` to `a`. */
  lemma {:induction false} RingOpenThenClose(s: RingState, rnum: int, a: Atom, b: Atom)
    requires RingValid(s) && rnum !in s.open
    ensures RingToken(s, rnum, Some(a)).Ok?
    ensures var t := RingToken(s, rnum, Some(a)).value.0;
      RingValid(t) && RingToken(t, rnum, Some(b)) == Ok((RingState(s.open, s.closed + [rnum], s.atoms), Some(a)))
  {
    RingTokenValid(s, rnum, Some(a));
    var t := RingToken(s, rnum, Some(a)).value.0;
    assert RemoveFirst(t.open, rnum) == s.open by {
      var i := IndexOf(t.open, rnum);
      assert t.open[..|s.open|] == s.open;
    }
    assert rnum !in s.atoms;
    assert t.atoms - {rnum} == s.atoms;
  }

  /** A number opened with no atom before it cannot be closed: the pop of
      its opening atom fails. */
  lemma RingOpenedWithoutAtom(s: RingState, rnum: int, last: Option<Atom>)
    requires RingValid(s) && rnum !in s.open
    ensures RingToken(s, rnum, None).Ok?
    ensures var t := RingToken(s, rnum, None).value.0;
      RingValid(t) && RingToken(t, rnum, last) == Err(Builtin("KeyError"))
  {
    RingTokenValid(s, rnum, None);
  }

  /** The label of a chain bond: the written bond, else single. */
  function ChainBondLabel(bond: Option<string>): (bondLabel: string)
    ensures bond.None? ==> bondLabel == "-"
    ensures bond.Some? ==> bondLabel == bond.value
  {
    bond.GetOr("-")
  }

  /** The label of a ring-closing bond: the written bond, else aromatic
      (":") when both atoms are aromatic, else single. */
  function RingBondLabel(bond: Option<string>, last: Atom, opening: Atom): (bondLabel: string)
    ensures bond.None? ==> (bondLabel == ":" <==> last.aromatic && opening.aromatic)
    ensures bond.None? ==> (bondLabel == "-" <==> !(last.aromatic && opening.aromatic))
    ensures bond.Some? ==> bondLabel == bond.value
  {
    if bond.Some? then bond.value
    else if last.aromatic && opening.aromatic then ":" else "-"
  }

  /** A chain bond and a ring-closing bond between the same atoms get the
      same label unless no bond is written and both atoms are aromatic:
      only a ring closure defaults to aromatic. */
  lemma BondLabelsAgree(bond: Option<string>, last: Atom, opening: Atom)
    ensures ChainBondLabel(bond) == RingBondLabel(bond, last, opening)
      <==> bond.Some? || !(last.aromatic && opening.aromatic)
  {
  }

  // ---------------------------------------------------------------------
  // The manager
  // ---------------------------------------------------------------------

  class ParserManager {
    var openRnum: seq<int>
    var closedRnum: seq<int>
    var chain: seq<Atom>
    var lastAtom: Option<Atom>
    var ringAtoms: map<int, Atom>

    function Rings(): RingState
      reads this
    {
      RingState(openRnum, closedRnum, ringAtoms)
    }

    ghost predicate Valid()
      reads this
    {
      RingValid(Rings())
    }

    /** `ParserManager()`: everything empty. */
    constructor ()
      ensures Valid()
      ensures openRnum == [] && closedRnum == [] && chain == [] && lastAtom == None && ringAtoms == map[]
    {
      openRnum, closedRnum, chain := [], [], [];
      lastAtom := None;
      ringAtoms := map[];
    }

    /** `_reset`: everything empty again. */
    method Reset()
      modifies this
      ensures Valid()
      ensures openRnum == [] && closedRnum == [] && chain == [] && lastAtom == None && ringAtoms == map[]
    {
      openRnum, closedRnum, chain := [], [], [];
      lastAtom := None;
      ringAtoms := map[];
    }

    /** `chain(bond, atom, rnum)`.  An atom wins over a ring number: it is
        bonded to the last atom, if any, and becomes the last atom.  A ring
        number goes through the ring bookkeeping; a closing number bonds
        the last atom, if any, to the opening atom.  Neither raises.  The
        atoms of `current_chain` do not change. */
    method Chain(g: Graph, bond: Option<string>, atom: Option<Atom>, rnum: Option<int>)
      returns (r: Result<Value>, ghost bondLabel: Option<string>)
      requires Valid() && g.Valid()
      modifies this, g
      ensures Valid() && g.Valid()
      ensures chain == old(chain) && g.cycles == old(g.cycles)
      ensures atom.Some? ==>
        && r == Ok(AtomValue(atom.value)) && lastAtom == atom && Rings() == old(Rings())
        && (old(lastAtom).Some? ==> g.Shape() == Connect(old(g.Shape()), old(lastAtom).value, atom.value)
                                    && bondLabel == Some(ChainBondLabel(bond)))
        && (old(lastAtom).None? ==> g.Shape() == old(g.Shape()) && bondLabel.None?)
      ensures atom.None? && rnum.Some? ==>
        var step := RingToken(old(Rings()), rnum.value, old(lastAtom));
        && lastAtom == old(lastAtom)
        && (step.Err? ==> r == Err(step.error) && Rings() == old(Rings()) && g.Shape() == old(g.Shape()))
        && (step.Ok? ==> r == Ok(IntValue(rnum.value)) && Rings() == step.value.0)
        && (step.Ok? && step.value.1.Some? ==>
              g.Shape() == Connect(old(g.Shape()), old(lastAtom).value, step.value.1.value)
              && bondLabel == Some(RingBondLabel(bond, old(lastAtom).value, step.value.1.value)))
        && (step.Ok? && step.value.1.None? ==> g.Shape() == old(g.Shape()) && bondLabel.None?)
      ensures atom.None? && rnum.None? ==>
        r == Err(ParserException("chain", "Invalid chain rule combination"))
        && lastAtom == old(lastAtom) && Rings() == old(Rings()) && g.Shape() == old(g.Shape())
    {
      bondLabel := None;
      if atom.Some? {
        if lastAtom.Some? {
          bondLabel := Some(ChainBondLabel(bond));
          g.AddEdge(lastAtom.value, atom.value);
        }
        lastAtom := atom;
        return Ok(AtomValue(atom.value)), bondLabel;
      } else if rnum.Some? {
        var n := rnum.value;
        if n in openRnum {
          if n !in ringAtoms {
            return Err(Builtin("KeyError")), bondLabel;
          }
          var opening := ringAtoms[n];
          ringAtoms := ringAtoms - {n};
          if lastAtom.Some? {
            bondLabel := Some(RingBondLabel(bond, lastAtom.value, opening));
            g.AddEdge(lastAtom.value, opening);
          }
          RingTokenValid(old(Rings()), n, lastAtom);
          openRnum := RemoveFirst(openRnum, n);
          closedRnum := closedRnum + [n];
        } else {
          if lastAtom.Some? {
            ringAtoms := ringAtoms[n := lastAtom.value];
          }
          RingTokenValid(old(Rings()), n, lastAtom);
          openRnum := openRnum + [n];
        }
        return Ok(IntValue(n)), bondLabel;
      } else {
        return Err(ParserException("chain", "Invalid chain rule combination")), bondLabel;
      }
    }

    /** `dot_proxy(atom)`: a dot disconnects, and the atom after it joins
        `current_chain`. */
    method DotProxy(atom: Atom) returns (r: Atom)
      modifies this
      ensures r == atom && lastAtom == None && chain == old(chain) + [atom] && Rings() == old(Rings())
    {
      lastAtom := None;
      chain := chain + [atom];
      return atom;
    }

    /** `inner_branch(bond_dot, line)`: after a branch the last atom and
        `current_chain` are what they were before it, and the branch's
        first element is bonded to the atom before the branch only when a
        bond other than a dot is written.  A first element that is a
        truthy non-atom (a ring number) is outside the graph's vertex type
        and reported as not modelled. */
    method InnerBranch(g: Graph, bondDot: Option<string>, line: seq<Value>) returns (r: Result<seq<Value>>)
      requires g.Valid()
      modifies this, g
      ensures g.Valid() && g.cycles == old(g.cycles)
      ensures lastAtom == old(lastAtom) && chain == old(chain) && Rings() == old(Rings())
      ensures var bonded := old(lastAtom).Some? && |line| > 0 && Truthy(line[0])
                            && bondDot.Some? && bondDot.value != "" && bondDot.value != ".";
        && (!bonded ==> r == Ok(line) && g.Shape() == old(g.Shape()))
        && (bonded && line[0].AtomValue? ==>
              r == Ok(line) && g.Shape() == Connect(old(g.Shape()), old(lastAtom).value, line[0].atom))
        && (bonded && !line[0].AtomValue? ==> r == Err(NotModelled) && g.Shape() == old(g.Shape()))
    {
      var originalLastAtom := lastAtom;
      var originalChain := chain;
      if bondDot == Some(".") {
        lastAtom := None;
      }
      if |line| > 0 {
        if originalLastAtom.Some? && Truthy(line[0]) && bondDot.Some? && bondDot.value != "" && bondDot.value != "." {
          if !line[0].AtomValue? {
            lastAtom := originalLastAtom;
            return Err(NotModelled);
          }
          g.AddEdge(originalLastAtom.value, line[0].atom);
        }
      }
      lastAtom := originalLastAtom;
      chain := originalChain;
      return Ok(line);
    }

    /** `validate_branch()`: open ring numbers are an error; an empty chain
        passes; otherwise the call to the graph's `validate_graph`, which
        the graph class does not define, raises. */
    function ValidateBranch(): (r: Result<bool>)
      reads this
      ensures |openRnum| > 0 ==> r == Err(ParserException("validate_branch", "Unclosed ring numbers"))
      ensures r.Ok? <==> |openRnum| == 0 && |chain| == 0
      ensures r.Ok? ==> r.value
      ensures |openRnum| == 0 && |chain| > 0 ==> r == Err(Builtin("AttributeError"))
    {
      if |openRnum| != 0 then Err(ParserException("validate_branch", "Unclosed ring numbers"))
      else if |chain| == 0 then Ok(true)
      else Err(Builtin("AttributeError"))
    }

    /** `internal_bracket(...)`: the bracket atom built from the fields is
        appended to `current_chain` and returned; it does not become the
        last atom. */
    method InternalBracket(t: PeriodicTable, isotope: Option<int>, symbol: string, chiral: Option<string>,
                           hcount: Option<int>, charge: Option<int>, molMap: Option<int>)
      returns (r: Result<Atom>)
      modifies this
      ensures r == ChemBracketAtom(t, symbol, false, BracketFields(hcount, charge, isotope, chiral, molMap))
      ensures r.Ok? ==> chain == old(chain) + [r.value]
      ensures r.Err? ==> chain == old(chain)
      ensures lastAtom == old(lastAtom) && Rings() == old(Rings())
    {
      r := ChemBracketAtom(t, symbol, false, BracketFields(hcount, charge, isotope, chiral, molMap));
      if r.Ok? {
        chain := chain + [r.value];
      }
    }

    /** `atom(symbol_or_bracket)`: a value that is not a string passes
        through untouched; a symbol becomes an atom, aromatic when written
        in lower case, which is appended to `current_chain` and becomes the
        last atom. */
    method Atom(t: PeriodicTable, symbolOrBracket: Value) returns (r: Result<Value>)
      modifies this
      ensures Rings() == old(Rings())
      ensures !symbolOrBracket.StrValue? ==> r == Ok(symbolOrBracket) && chain == old(chain) && lastAtom == old(lastAtom)
      ensures symbolOrBracket.StrValue? ==>
        var made := ChemAtom(t, symbolOrBracket.s, IsLowerStr(symbolOrBracket.s));
        && (made.Err? ==> r == Err(made.error) && chain == old(chain) && lastAtom == old(lastAtom))
        && (made.Ok? ==> r == Ok(AtomValue(made.value)) && chain == old(chain) + [made.value] && lastAtom == Some(made.value))
    {
      if !symbolOrBracket.StrValue? {
        return Ok(symbolOrBracket);
      }
      var symbol := symbolOrBracket.s;
      var made := ChemAtom(t, symbol, IsLowerStr(symbol));
      if made.Err? {
        return Err(made.error);
      }
      chain := chain + [made.value];
      lastAtom := Some(made.value);
      return Ok(AtomValue(made.value));
    }
  }

  // ---------------------------------------------------------------------
  // Converters
  // ---------------------------------------------------------------------

  /** `s or ""` for an optional string. */
  function OrEmpty(s: Option<string>): string {
    s.GetOr("")
  }

  /** The digits a ring number token spells: after "%", the next one or
      two digits; otherwise the leading digit and at most one more. */
  function RingDigits(first: string, digit1: Option<string>, digit2: Option<string>): string
    requires first == "%" ==> digit1.Some?
  {
    if first == "%" then digit1.value + OrEmpty(digit2) else first + OrEmpty(digit1)
  }

  /** `ring_number(first, digit1, digit2)`. */
  function RingNumber(first: string, digit1: Option<string>, digit2: Option<string>): (r: Result<int>)
    ensures r.Ok? ==> r.value >= 1
    ensures r.Ok? <==>
      && (first == "%" ==> digit1.Some?)
      && (first != "%" ==> IsDigits(first) && digit2.None?)
      && IsDigits(RingDigits(first, digit1, digit2))
      && DigitsValue(RingDigits(first, digit1, digit2)) >= 1
    ensures r.Ok? ==> r.value == DigitsValue(RingDigits(first, digit1, digit2))
    ensures first == "%" && digit1.None? ==> r == Err(ParserException("ring_number", "Ring number cannot be just '%'"))
    ensures first != "%" && IsDigits(first) && digit2.Some? ==>
      r == Err(ParserException("ring_number", "Ring number cannot have more than one digit after the first"))
  {
    var rnum: Result<int> :=
      if first == "%" then
        if digit1.None? then Err(ParserException("ring_number", "Ring number cannot be just '%'"))
        else if !IsDigits(RingDigits(first, digit1, digit2)) then
          Err(ParserException("ring_number", "Ring number must be a digit or '%'"))
        else Ok(DigitsValue(RingDigits(first, digit1, digit2)))
      else if IsDigits(first) then
        if digit2.Some? then
          Err(ParserException("ring_number", "Ring number cannot have more than one digit after the first"))
        else if !IsDigits(RingDigits(first, digit1, digit2)) then
          Err(ParserException("ring_number", "Ring number must be a digit or a number with a leading digit"))
        else Ok(DigitsValue(RingDigits(first, digit1, digit2)))
      else Err(ParserException("ring_number", "Ring number must be a digit or a number with a leading digit"));
    if rnum.Err? then rnum
    else if rnum.value < 1 then Err(ParserException("ring_number", "Ring number must be greater than 0"))
    else rnum
  }

  /** `int(digits)`: the digit strings joined, then converted. */
  function Int(digits: seq<string>): (r: Result<int>)
    ensures r.Ok? <==> IsDigits(Concat(digits))
    ensures r.Ok? ==> r.value == DigitsValue(Concat(digits))
  {
    PyInt(Concat(digits))
  }

  /** `hcount(_, digit)`: one hydrogen when no digit is written. */
  function HCount(digit: Option<string>): (r: Result<int>)
    ensures digit.None? ==> r == Ok(1)
    ensures digit.Some? ==> (r.Ok? <==> IsDigits(digit.value))
    ensures digit.Some? && r.Ok? ==> r.value == DigitsValue(digit.value)
    ensures r.Err? ==> r.error == ParserException("hcount", "Invalid hydrogen count")
  {
    if digit.None? then Ok(1)
    else if !IsDigits(digit.value) then Err(ParserException("hcount", "Invalid hydrogen count"))
    else Ok(DigitsValue(digit.value))
  }

  /** The second part of a charge: absent, a repeated sign, or a number. */
  datatype ChargeTail = NoTail | SignTail(sign: string) | CountTail(count: int)

  /** `charge(charge1, charge2)`, with `charge1` one of "+" and "-". */
  function Charge(sign: string, tail: ChargeTail): (r: Result<int>)
    requires sign == "+" || sign == "-"
    ensures tail.SignTail? ==> (r.Err? <==> tail.sign != sign)
    ensures r.Err? ==> r.error == ParserException("charge", "Charge mismatch")
    ensures r.Ok? ==> r.value == (if sign == "+" then 1 else -1) * (match tail case NoTail => 1 case SignTail(_) => 2 case CountTail(n) => n)
  {
    match tail
    case NoTail => if sign == "+" then Ok(1) else Ok(-1)
    case SignTail(s) =>
      if s != sign then Err(ParserException("charge", "Charge mismatch"))
      else if s == "-" then Ok(-2)
      else Ok(2)
    case CountTail(n) => if sign == "-" then Ok(-n) else Ok(n)
  }

  /** Only a repeated sign can fail: a count or a lone sign always gives a
      charge, and a charge never fails on matching signs. */
  lemma ChargeFailsOnlyOnMismatch(sign: string, tail: ChargeTail)
    requires sign == "+" || sign == "-"
    ensures Charge(sign, tail).Err? <==> tail.SignTail? && tail.sign != sign
  {
  }

  /** `chiral(chiral1, chiral2)`: "@@" is counterclockwise, anything else
      clockwise. */
  function Chiral(chiral1: string, chiral2: Option<string>): (r: string)
    ensures r == "counterclockwise" <==> chiral1 == "@" && chiral2 == Some("@")
    ensures r == "clockwise" <==> !(chiral1 == "@" && chiral2 == Some("@"))
  {
    if chiral1 == "@" && chiral2 == Some("@") then "counterclockwise" else "clockwise"
  }

  /** `fifteen(digit1, digit2)`: a two-digit value may not exceed 15. */
  function Fifteen(digit1: string, digit2: Option<string>): (r: Result<int>)
    ensures digit2.Some? && digit2.value != "" && IsDigits(digit1 + digit2.value) ==>
      (r.Ok? <==> DigitsValue(digit1 + digit2.value) <= 15)
    ensures r.Ok? && digit2.Some? && digit2.value != "" ==>
      IsDigits(digit1 + digit2.value) && r.value == DigitsValue(digit1 + digit2.value) && r.value <= 15
    ensures (digit2.None? || digit2 == Some("")) ==> r == PyInt(digit1)
  {
    if digit2.Some? && digit2.value != "" then
      var x :- PyInt(digit1 + digit2.value);
      if x > 15 then Err(ParserException("fifteen", "Cannot exceed 15")) else Ok(x)
    else PyInt(digit1)
  }

  /** `listify(base, recursion)`: the base in front of the recursion's
      list; a missing recursion gives a one-element list, any other value
      a pair. */
  function Listify(base: Value, recursion: Value): (r: Value)
    ensures r.ListValue? && |r.items| > 0 && r.items[0] == base
    ensures recursion.NoneValue? ==> r.items == [base]
    ensures recursion.ListValue? ==> r.items[1..] == recursion.items
    ensures !recursion.NoneValue? && !recursion.ListValue? ==> r.items == [base, recursion]
  {
    if recursion.NoneValue? then ListValue([base])
    else if recursion.ListValue? then ListValue([base] + recursion.items)
    else ListValue([base, recursion])
  }
}
