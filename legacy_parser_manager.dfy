/** `src/validator/parser_manager.py`: the older parser manager.  Its only
    state is the open and closed ring numbers; everything else converts
    tokens to values.  Its `chem` import supplies `organic_atoms` as in the
    root `chem.py` and the bond table of `Chem.number_of_electrons_per_bond`. */
module LegacyManager {
  import opened Wrappers
  import opened PyStr
  import opened Values
  import Structure
  import Manager
  import RootChem

  // ---------------------------------------------------------------------
  // fill_none
  // ---------------------------------------------------------------------

  /** `fill_none`: the positional arguments, padded with `None` up to the
      wrapped function's arity, extras dropped. */
  function FillNone(args: seq<Value>, needed: nat): (r: seq<Value>)
    ensures |r| == needed
    ensures forall i :: 0 <= i < needed ==> r[i] == if i < |args| then args[i] else NoneValue
  {
    (args + seq(needed, _ => NoneValue))[..needed]
  }

  /** Padding twice pads once, and arguments of the exact arity pass
      through unchanged. */
  lemma FillNoneIdempotent(args: seq<Value>, needed: nat)
    ensures FillNone(FillNone(args, needed), needed) == FillNone(args, needed)
    ensures |args| == needed ==> FillNone(args, needed) == args
  {
  }

  // ---------------------------------------------------------------------
  // Ring numbers
  // ---------------------------------------------------------------------

  /** No number is open twice or closed twice, and none is both. */
  predicate RingsValid(open: seq<int>, closed: seq<int>) {
    Structure.Distinct(open) && Structure.Distinct(closed) && forall x :: x in open ==> x !in closed
  }

  /** The bookkeeping of `ring_number` for the number `rnum`: an open
      number closes, a closed one raises, a new one opens. */
  function RingStep(open: seq<int>, closed: seq<int>, rnum: int): (r: Result<(seq<int>, seq<int>)>)
    ensures rnum in open ==> r == Ok((Manager.RemoveFirst(open, rnum), closed + [rnum]))
    ensures rnum !in open && rnum in closed ==> r == Err(ParserException("ring_number", "Ring number already closed"))
    ensures rnum !in open && rnum !in closed ==> r == Ok((open + [rnum], closed))
  {
    if rnum in open then Ok((Manager.RemoveFirst(open, rnum), closed + [rnum]))
    else if rnum in closed then Err(ParserException("ring_number", "Ring number already closed"))
    else Ok((open + [rnum], closed))
  }

  /** Every step keeps the lists valid, only ever adds to the closed list,
      and leaves `rnum` open exactly when it was new. */
  lemma RingStepValid(open: seq<int>, closed: seq<int>, rnum: int)
    requires RingsValid(open, closed)
    ensures var r := RingStep(open, closed, rnum);
      r.Ok? ==> (
        && RingsValid(r.value.0, r.value.1)
        && r.value.1[..|closed|] == closed
        && (rnum in r.value.0 <==> rnum !in open)
        && (rnum in r.value.1 <==> rnum in open))
  {
    var r := RingStep(open, closed, rnum);
    if rnum in open {
      Manager.RemoveFirstDistinct(open, rnum);
      assert (closed + [rnum])[..|closed|] == closed;
      Structure.DistinctAppend(closed, [rnum]);
    } else if rnum !in closed {
      Structure.DistinctAppend(open, [rnum]);
    }
  }

  /** A fresh number opens, closes on its second use and raises on its
      third. */
  lemma RingLifecycle(open: seq<int>, closed: seq<int>, rnum: int)
    requires RingsValid(open, closed) && rnum !in open && rnum !in closed
    ensures var s1 := RingStep(open, closed, rnum);
      && s1.Ok? && rnum in s1.value.0 && rnum !in s1.value.1
      && var s2 := RingStep(s1.value.0, s1.value.1, rnum);
      && s2.Ok? && rnum !in s2.value.0 && rnum in s2.value.1
      && RingStep(s2.value.0, s2.value.1, rnum) == Err(ParserException("ring_number", "Ring number already closed"))
  {
    RingStepValid(open, closed, rnum);
    var s1 := RingStep(open, closed, rnum);
    RingStepValid(s1.value.0, s1.value.1, rnum);
  }

  /** `int(digits)`: the digit strings joined and converted; a missing
      digit makes the join raise TypeError. */
  function LegacyInt(digits: seq<Option<string>>): (r: Result<int>)
    ensures (exists i :: 0 <= i < |digits| && digits[i].None?) ==> r == Err(Builtin("TypeError"))
    ensures (forall i :: 0 <= i < |digits| ==> digits[i].Some?) ==>
      r == Manager.Int(seq(|digits|, i requires 0 <= i < |digits| => digits[i].value))
  {
    if exists i :: 0 <= i < |digits| && digits[i].None? then Err(Builtin("TypeError"))
    else Manager.Int(seq(|digits|, i requires 0 <= i < |digits| => digits[i].value))
  }

  /** The number `ring_number` reads: after "%" both digits joined,
      otherwise the token itself. */
  function RingValue(first: string, digit1: Option<string>, digit2: Option<string>): (r: Result<int>)
    ensures first == "%" ==> r == LegacyInt([digit1, digit2])
    ensures first != "%" ==> r == PyInt(first)
  {
    if first == "%" then LegacyInt([digit1, digit2]) else PyInt(first)
  }

  /** Unlike the newer parser manager, a ring number here may be 0 and a
      second digit after a leading one is ignored. */
  lemma RingValueAcceptsZero()
    ensures RingValue("0", None, None) == Ok(0)
    ensures RingValue("1", Some("2"), None) == Ok(1)
    ensures Manager.RingNumber("0", None, None).Err?
  {
    assert IsDigits("1") && DigitsValue("1") == 1;
  }

  /** `ParserManager` of the older grammar.  The ring lists are class-level
      in the source and are modelled per instance. */
  class LegacyParserManager {
    var openRnum: seq<int>
    var closedRnum: seq<int>
    var currentChain: seq<Value>

    ghost predicate Valid()
      reads this
    {
      RingsValid(openRnum, closedRnum)
    }

    constructor ()
      ensures openRnum == [] && closedRnum == [] && currentChain == []
      ensures Valid()
    {
      openRnum := [];
      closedRnum := [];
      currentChain := [];
    }

    /** `_reset`: both ring lists emptied; the chain is left as it is. */
    method Reset()
      modifies this
      ensures openRnum == [] && closedRnum == []
      ensures currentChain == old(currentChain)
      ensures Valid()
    {
      openRnum := [];
      closedRnum := [];
    }

    /** `ring_number(first, digit1, digit2)`: reads the number, then opens,
        closes or rejects it.  A failed call changes nothing. */
    method RingNumber(first: string, digit1: Option<string>, digit2: Option<string>) returns (r: Result<int>)
      requires Valid()
      modifies this
      ensures Valid()
      ensures currentChain == old(currentChain)
      ensures var n := RingValue(first, digit1, digit2);
        && (n.Err? ==> r == Err(n.error) && openRnum == old(openRnum) && closedRnum == old(closedRnum))
        && (n.Ok? ==> var s := RingStep(old(openRnum), old(closedRnum), n.value);
          && (s.Err? ==> r == Err(s.error) && openRnum == old(openRnum) && closedRnum == old(closedRnum))
          && (s.Ok? ==> r == Ok(n.value) && openRnum == s.value.0 && closedRnum == s.value.1))
    {
      var n := RingValue(first, digit1, digit2);
      if n.Err? {
        return Err(n.error);
      }
      var rnum := n.value;
      if rnum in openRnum {
        RingStepValid(openRnum, closedRnum, rnum);
        openRnum := Manager.RemoveFirst(openRnum, rnum);
        closedRnum := closedRnum + [rnum];
      } else if rnum in closedRnum {
        return Err(ParserException("ring_number", "Ring number already closed"));
      } else {
        RingStepValid(openRnum, closedRnum, rnum);
        openRnum := openRnum + [rnum];
      }
      return Ok(rnum);
    }
  }

  // ---------------------------------------------------------------------
  // Value rules
  // ---------------------------------------------------------------------

  /** `chain(bond, atom, rnum, dot_proxy)`: without a bond the first value
      given; otherwise the atom paired with the bond's electrons.  An
      aromatic bond before an upper-case atom formats its message with the
      undefined name `rules`, so it raises NameError. */
  function Chain(bond: Option<string>, atom: Value, rnum: Value, dotProxy: Value): (r: Result<Value>)
    ensures bond.None? ==> r == Ok(if !atom.NoneValue? then atom else if !rnum.NoneValue? then rnum else dotProxy)
    ensures bond == Some(":") && atom.StrValue? && atom.s != "" && IsUpperChar(atom.s[0]) ==> r == Err(Builtin("NameError"))
    ensures bond.Some? && r.Ok? ==> exists n :: 0 <= n <= 4 && r.value == ListValue([atom, IntValue(n)])
    ensures bond.Some? && bond.value != ":" ==>
      r == (match Structure.NumberOfElectronsPerBond(bond.value)
            case Ok(n) => Ok(ListValue([atom, IntValue(n)]))
            case Err(e) => Err(e))
  {
    if bond.None? then
      if !atom.NoneValue? then Ok(atom) else if !rnum.NoneValue? then Ok(rnum) else Ok(dotProxy)
    else if bond.value == ":" && Truthy(atom) && atom.StrValue? && IsUpperChar(atom.s[0]) then
      Err(Builtin("NameError"))
    else
      var n :- Structure.NumberOfElectronsPerBond(bond.value);
      Ok(ListValue([atom, IntValue(n)]))
  }

  /** ":" is not in the bond table, so an aromatic bond never passes. */
  lemma AromaticBondFails(atom: Value, rnum: Value, dotProxy: Value)
    ensures Chain(Some(":"), atom, rnum, dotProxy).Err?
  {
  }

  /** `listify(base, recursion)`: the base alone when there is no
      recursion, in front of a list, or paired with any other value. */
  function Listify(base: Value, recursion: Value): (r: Value)
    ensures recursion.NoneValue? ==> r == base
    ensures recursion.ListValue? ==> r == ListValue([base] + recursion.items)
    ensures !recursion.NoneValue? && !recursion.ListValue? ==> r == ListValue([base, recursion])
  {
    if recursion.NoneValue? then base
    else if recursion.ListValue? then ListValue([base] + recursion.items)
    else ListValue([base, recursion])
  }

  /** The newer `listify` differs only without a recursion, where it wraps
      the base in a one-element list. */
  lemma ListifyVersions(base: Value, recursion: Value)
    ensures !recursion.NoneValue? ==> Listify(base, recursion) == Manager.Listify(base, recursion)
    ensures recursion.NoneValue? ==> Manager.Listify(base, recursion) == ListValue([Listify(base, recursion)])
  {
  }

  /** `atom(symbol_or_bracket)`: a non-string, a one-letter symbol or an
      organic symbol passes unchanged; a two-letter string of two organic
      letters becomes the pair of them.  Any other string fails: one not
      of length 2 cannot be unpacked (ValueError), and the message for the
      rest names the undefined `rules` (NameError). */
  function Atom(v: Value): (r: Result<Value>)
    ensures !v.StrValue? || |v.s| == 1 || v.s in RootChem.OrganicAtoms ==> r == Ok(v)
    ensures v.StrValue? && |v.s| != 1 && v.s !in RootChem.OrganicAtoms ==>
      && (|v.s| != 2 ==> r == Err(Builtin("ValueError")))
      && (|v.s| == 2 ==>
          (r.Ok? <==> [v.s[0]] in RootChem.OrganicAtoms && [v.s[1]] in RootChem.OrganicAtoms))
    ensures r.Ok? && r != Ok(v) ==>
      v.StrValue? && |v.s| == 2 && r.value == ListValue([StrValue([v.s[0]]), StrValue([v.s[1]])])
    ensures r.Err? ==> r.error == Builtin("ValueError") || r.error == Builtin("NameError")
  {
    if !v.StrValue? || |v.s| == 1 || v.s in RootChem.OrganicAtoms then Ok(v)
    else if |v.s| != 2 then Err(Builtin("ValueError"))
    else if [v.s[0]] in RootChem.OrganicAtoms && [v.s[1]] in RootChem.OrganicAtoms then
      Ok(ListValue([StrValue([v.s[0]]), StrValue([v.s[1]])]))
    else Err(Builtin("NameError"))
  }

  lemma OrganicMembers()
    ensures "c" in RootChem.OrganicAtoms && "Cl" in RootChem.OrganicAtoms
  {
    RootChem.OrganicAtomsSpelled();
    assert RootChem.OrganicSymbols[8] == "c" && RootChem.OrganicSymbols[15] == "Cl";
  }

  /** No organic symbol is, or ends in, the letter `a`. */
  lemma NoOrganicA(x: string)
    requires |x| > 0 && x[|x| - 1] == 'a'
    ensures x !in RootChem.OrganicAtoms
  {
    RootChem.OrganicAtomsSpelled();
    var o := RootChem.OrganicSymbols;
    forall k | 0 <= k < |o| ensures o[k][|o[k]| - 1] != 'a' {
    }
  }

  /** No organic symbol is a doubled letter. */
  lemma NoOrganicDouble(x: string)
    requires |x| == 2 && x[0] == x[1]
    ensures x !in RootChem.OrganicAtoms
  {
    RootChem.OrganicAtomsSpelled();
    var o := RootChem.OrganicSymbols;
    forall k | 0 <= k < |o| ensures |o[k]| == 2 ==> o[k][0] != o[k][1] {
    }
  }

  /** An aromatic pair splits into its two atoms, an organic two-letter
      symbol stays whole, and a pair with a non-organic letter fails. */
  lemma AtomExamples()
    ensures Atom(StrValue("cc")) == Ok(ListValue([StrValue("c"), StrValue("c")]))
    ensures Atom(StrValue("Cl")) == Ok(StrValue("Cl"))
    ensures Atom(StrValue("Na")) == Err(Builtin("NameError"))
    ensures Atom(StrValue("C")) == Ok(StrValue("C"))
  {
    OrganicMembers();
    NoOrganicA("a");
    NoOrganicA("Na");
    NoOrganicDouble("cc");
  }

  /** `hcount(_, digit)`: one hydrogen when the digit is missing or empty,
      else the digit's value. */
  function HCount(digit: Option<string>): (r: Result<int>)
    ensures digit.None? || digit == Some("") ==> r == Ok(1)
    ensures digit.Some? && digit.value != "" ==> r == PyInt(digit.value)
  {
    if digit.None? || digit.value == "" then Ok(1) else PyInt(digit.value)
  }

  /** The two versions agree on every digit string the newer one accepts;
      the older one raises ValueError where the newer one raises its own
      exception. */
  lemma HCountVersions(digit: Option<string>)
    requires digit != Some("")
    ensures HCount(digit).Ok? <==> Manager.HCount(digit).Ok?
    ensures HCount(digit).Ok? ==> HCount(digit) == Manager.HCount(digit)
  {
  }

  /** `charge(charge1, charge2)` without any mismatch check.  A string
      second part other than a sign comes back as a string (repeated -1
      times, hence empty, after "-"). */
  function Charge(charge1: string, tail: Manager.ChargeTail): (r: Value)
    ensures tail.NoTail? ==> r == IntValue(if charge1 == "+" then 1 else -1)
    ensures tail.SignTail? && tail.sign == "-" ==> r == IntValue(-2)
    ensures tail.SignTail? && tail.sign == "+" ==> r == IntValue(2)
    ensures tail.SignTail? && tail.sign != "-" && tail.sign != "+" ==>
      r == StrValue(if charge1 == "-" then "" else tail.sign)
    ensures tail.CountTail? ==> r == IntValue(if charge1 == "-" then -tail.count else tail.count)
  {
    match tail
    case NoTail => IntValue(if charge1 == "+" then 1 else -1)
    case SignTail(s) =>
      if s == "-" then IntValue(-2)
      else if s == "+" then IntValue(2)
      else StrValue(if charge1 == "-" then "" else s)
    case CountTail(n) => IntValue(if charge1 == "-" then -n else n)
  }

  /** Where the newer `charge` accepts, both give the same charge; where
      it reports a mismatch, the older one follows the second sign. */
  lemma ChargeVersions(sign: string, tail: Manager.ChargeTail)
    requires sign == "+" || sign == "-"
    requires tail.SignTail? ==> tail.sign == "+" || tail.sign == "-"
    ensures Manager.Charge(sign, tail).Ok? ==> Charge(sign, tail) == IntValue(Manager.Charge(sign, tail).value)
    ensures Manager.Charge(sign, tail).Err? ==>
      Charge(sign, tail) == IntValue(if tail.sign == "+" then 2 else -2)
  {
  }

  /** `chiral(chiral1, chiral2)`: counterclockwise exactly when a non-empty
      second symbol is given. */
  function Chiral(chiral1: string, chiral2: Option<string>): (r: string)
    ensures r == "counterclockwise" <==> chiral2.Some? && chiral2.value != ""
    ensures r == "clockwise" <==> !(chiral2.Some? && chiral2.value != "")
  {
    if chiral2.Some? && chiral2.value != "" then "counterclockwise" else "clockwise"
  }

  /** On the tokens the grammar can produce ("@" and "@@") both versions
      agree. */
  lemma ChiralVersions(chiral2: Option<string>)
    requires chiral2 == None || chiral2 == Some("@")
    ensures Chiral("@", chiral2) == Manager.Chiral("@", chiral2)
  {
  }

  /** `fifteen` is the same function as in the newer parser manager. */
  lemma FifteenExamples()
    ensures Manager.Fifteen("1", None) == Ok(1)
    ensures Manager.Fifteen("1", Some("2")) == Ok(12)
    ensures Manager.Fifteen("1", Some("7")) == Err(ParserException("fifteen", "Cannot exceed 15"))
  {
    assert IsDigits("1") && DigitsValue("1") == 1;
    assert "1" + "2" == "12" && IsDigits("12") && DigitsValue("12") == 12;
    assert "1" + "7" == "17" && IsDigits("17") && DigitsValue("17") == 17;
  }
}
