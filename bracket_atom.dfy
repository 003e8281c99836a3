/** `BracketAtom` of `src/smiles_checker/chem/atomic.py`: an atom written in
    brackets, whose charge moves electrons out of or into its subshells
    before the octet/duet rule is applied. */
module BracketAtoms {
  import opened Wrappers
  import opened Orbitals
  import opened Atomic

  /** `_max_electrons_in_subshell`: 2(2l + 1) electrons for the subshell of
      azimuthal number l, and 0 for a string naming no subshell. */
  function MaxElectronsInSubshell(subshell: string): (r: nat)
    ensures SubshellOf(subshell).Some? ==> r == 2 * (2 * Rank(SubshellOf(subshell).value) + 1)
    ensures SubshellOf(subshell).None? ==> r == 0
  {
    if subshell == "s" then 2
    else if subshell == "p" then 6
    else if subshell == "d" then 10
    else if subshell == "f" then 14
    else 0
  }

  /** The capacity of subshell `l`, as `_max_electrons_in_subshell` gives it. */
  function Capacity(l: Letter): (r: nat)
    ensures r == MaxElectronsInSubshell([LetterChar(l)])
  {
    assert SubshellOf([LetterChar(l)]) == Some(l);
    2 * (2 * Rank(l) + 1)
  }

  /** `_next_subshell`: the subshell after `s`, `p` or `d` in that order;
      "s" after `f` and for anything that is not a subshell. */
  function NextSubshell(subshell: string): (r: string)
    ensures SubshellOf(r).Some?
    ensures r == "s" <==> SubshellOf(subshell).None? || SubshellOf(subshell) == Some(F)
    ensures SubshellOf(subshell).Some? && SubshellOf(subshell) != Some(F) ==>
      Rank(SubshellOf(r).value) == Rank(SubshellOf(subshell).value) + 1
  {
    if subshell == "s" then "p"
    else if subshell == "d" then "f"
    else if subshell == "p" then "d"
    else "s"
  }

  /** `_octate_rule`: two electrons complete the first shell, eight any
      other. */
  function OctateRule(valencyLayer: int, electrons: int): bool {
    if valencyLayer == 1 then electrons == 2 else electrons == 8
  }

  lemma {:induction false} TotalNonNeg(c: Config)
    requires NonNeg(c)
    ensures Total(c) >= 0
    decreases |c|
  {
    if |c| > 0 {
      TotalNonNeg(c[..|c| - 1]);
    }
  }

  lemma {:induction false} TotalAppend(a: Config, b: Config)
    ensures Total(a + b) == Total(a) + Total(b)
    decreases |b|
  {
    if |b| == 0 {
      assert a + b == a;
    } else {
      assert (a + b)[..|a + b| - 1] == a + b[..|b| - 1];
      TotalAppend(a, b[..|b| - 1]);
    }
  }

  /** Removal of `q` electrons, outermost subshell first (highest n, and
      f before d before p before s within a shell); a subshell left with
      no electron is deleted, and the walk stops once `q` is used up. */
  function RemoveOutermost(c: Config, q: nat): Config
    decreases |c|
  {
    if |c| == 0 || q == 0 then c
    else
      var x := c[|c| - 1];
      var removed := Min(q, x.e);
      var rest := RemoveOutermost(c[..|c| - 1], q - removed);
      if x.e - removed == 0 then rest else rest + [x.(e := x.e - removed)]
  }

  /** `r` keeps an initial part of `c` unchanged, except that the last
      entry kept may hold fewer electrons. */
  predicate KeptInner(c: Config, r: Config) {
    |r| <= |c|
    && (forall i :: 0 <= i < |r| - 1 ==> r[i] == c[i])
    && (|r| > 0 ==> var k := |r| - 1;
          r[k].n == c[k].n && r[k].l == c[k].l && 0 <= r[k].e <= c[k].e)
  }

  /** A result that keeps an initial part of a canonical map, with the
      last kept subshell holding no more electrons, is canonical. */
  lemma KeptInnerValid(c: Config, r: Config)
    requires Valid(c) && KeptInner(c, r)
    ensures Valid(r)
  {
    forall i, j | 0 <= i < j < |r| ensures KeyLess(r[i], r[j]) {
      assert KeyLess(c[i], c[j]);
    }
  }

  /** The last entry of `r` was either left as it is in `c` or still
      holds electrons: a subshell the removal empties is deleted. */
  predicate EmptiedDeleted(c: Config, r: Config)
    requires |r| <= |c|
  {
    |r| > 0 && r[|r| - 1].e != c[|r| - 1].e ==> r[|r| - 1].e > 0
  }

  /** The removal keeps an initial part of the map, deletes what it
      empties and takes exactly min(q, total) electrons. */
  lemma {:induction false} RemoveOutermostKept(c: Config, q: nat)
    requires NonNeg(c)
    ensures var r := RemoveOutermost(c, q);
      KeptInner(c, r) && EmptiedDeleted(c, r) && Total(r) == Total(c) - Min(q, Total(c))
    decreases |c|
  {
    TotalNonNeg(c);
    if |c| > 0 && q > 0 {
      var p, x := c[..|c| - 1], c[|c| - 1];
      assert NonNeg(p);
      var removed := Min(q, x.e);
      var rest := RemoveOutermost(p, q - removed);
      RemoveOutermostKept(p, q - removed);
      TotalNonNeg(p);
      if x.e - removed != 0 {
        var r := p + [x.(e := x.e - removed)];
        assert rest == p;
        assert r[..|p|] == p;
      } else if |rest| > 0 {
        assert c[|rest| - 1] == p[|rest| - 1];
      }
    }
  }

  /** What a positive charge `q` does: min(q, total) electrons are taken,
      only from the outermost subshells, a subshell left with none is
      deleted, and the result is canonical. */
  lemma RemoveOutermostSpec(c: Config, q: nat)
    requires Valid(c)
    ensures var r := RemoveOutermost(c, q);
      Valid(r) && KeptInner(c, r) && EmptiedDeleted(c, r) && Total(r) == Total(c) - Min(q, Total(c))
  {
    RemoveOutermostKept(c, q);
    KeptInnerValid(c, RemoveOutermost(c, q));
  }

  /** One round of the removal loop, from the outside in: the subshell
      at `i - 1` gives up what it can of `t` and is kept only if it still
      holds electrons. */
  lemma RemoveStep(c: Config, i: nat, t: nat, done: Config)
    requires 0 < i <= |c| && t != 0
    ensures var x := c[i - 1];
      var removed := Min(t, x.e);
      var kept := if x.e - removed == 0 then [] else [x.(e := x.e - removed)];
      RemoveOutermost(c[..i], t) + done == RemoveOutermost(c[..i - 1], t - removed) + (kept + done)
  {
    assert c[..i][..i - 1] == c[..i - 1];
    assert c[..i][i - 1] == c[i - 1];
  }

  /** The outermost-first loop of `BracketAtom.__post_init__` for a
      positive charge; the subshells it has passed are collected in `done`
      rather than updated in place. */
  method RemoveElectrons(c: Config, q: nat) returns (r: Config)
    ensures r == RemoveOutermost(c, q)
  {
    var toRemove: nat := q;
    var i := |c|;
    var done: Config := [];
    assert c[..i] == c;
    assert RemoveOutermost(c, q) == RemoveOutermost(c[..i], toRemove) + done;
    while i > 0 && toRemove != 0
      invariant 0 <= i <= |c|
      invariant RemoveOutermost(c, q) == RemoveOutermost(c[..i], toRemove) + done
    {
      var x := c[i - 1];
      var removed := Min(toRemove, x.e);
      RemoveStep(c, i, toRemove, done);
      if x.e - removed != 0 {
        done := [x.(e := x.e - removed)] + done;
      }
      toRemove := toRemove - removed;
      i := i - 1;
    }
    r := c[..i] + done;
  }


  /** Adding `q` electrons to existing subshells, innermost first, each up
      to its capacity; the second component is what is left over. */
  function FillInnermost(c: Config, q: int): (res: (Config, int))
    ensures |res.0| == |c|
    decreases |c|
  {
    if |c| == 0 || q == 0 then (c, q)
    else
      var x := c[0];
      var add := Min(q, Capacity(x.l) - x.e);
      var rest := FillInnermost(c[1..], q - add);
      ([x.(e := x.e + add)] + rest.0, rest.1)
  }

  /** New `s` subshells at shells `from`, `from + 1`, ..., each taking at
      most two of the `q` electrons. */
  function NewShells(from: nat, q: int): (r: Config)
    decreases if q > 0 then q else 0
  {
    if q <= 0 then []
    else
      var add := Min(q, MaxElectronsInSubshell("s"));
      [Entry(from, S, add)] + NewShells(from + 1, q - add)
  }

  /** Adding `q` electrons: existing subshells are filled innermost first,
      then the rest overflows into new `s` subshells after the outermost
      shell (after a fresh empty `1s` when there was no subshell at all). */
  function AddInnermost(c: Config, q: int): Config {
    var f := FillInnermost(c, q);
    if f.1 > 0 then
      if |c| > 0 then f.0 + NewShells(c[|c| - 1].n + 1, f.1)
      else [Entry(1, S, 0)] + NewShells(2, f.1)
    else f.0
  }

  predicate SameKeys(c: Config, r: Config)
    requires |c| <= |r|
  {
    forall i :: 0 <= i < |c| ==> r[i].n == c[i].n && r[i].l == c[i].l
  }

  lemma TotalCons(x: Entry, c: Config)
    ensures Total([x] + c) == x.e + Total(c)
  {
    TotalAppend([x], c);
    assert [x][..0] == [];
  }

  lemma {:induction false} FillKeepsKeys(c: Config, q: int)
    requires NonNeg(c) && q >= 0
    ensures var f := FillInnermost(c, q);
      SameKeys(c, f.0) && NonNeg(f.0) && f.1 >= 0
    decreases |c|
  {
    if |c| > 0 && q != 0 {
      var add := Min(q, Capacity(c[0].l) - c[0].e);
      assert NonNeg(c[1..]);
      FillKeepsKeys(c[1..], q - add);
    }
  }

  lemma {:induction false} FillConserves(c: Config, q: int)
    ensures var f := FillInnermost(c, q); Total(f.0) + f.1 == Total(c) + q
    decreases |c|
  {
    if |c| > 0 && q != 0 {
      var x := c[0];
      var add := Min(q, Capacity(x.l) - x.e);
      var rest := FillInnermost(c[1..], q - add);
      FillConserves(c[1..], q - add);
      TotalCons(x.(e := x.e + add), rest.0);
      TotalCons(x, c[1..]);
      assert [x] + c[1..] == c;
    }
  }

  lemma {:induction false} FillFullBeforeLeftover(c: Config, q: int)
    ensures var f := FillInnermost(c, q);
      f.1 != 0 ==> forall i :: 0 <= i < |c| ==> f.0[i].e == Capacity(c[i].l)
    decreases |c|
  {
    if |c| > 0 && q != 0 {
      var x := c[0];
      var add := Min(q, Capacity(x.l) - x.e);
      var f := FillInnermost(c, q);
      var rest := FillInnermost(c[1..], q - add);
      FillFullBeforeLeftover(c[1..], q - add);
      if f.1 != 0 {
        assert q - add != 0;
        forall i | 0 <= i < |c| ensures f.0[i].e == Capacity(c[i].l) {
          if i > 0 { assert f.0[i] == rest.0[i - 1] && c[i] == c[1..][i - 1]; }
        }
      }
    }
  }

  lemma {:induction false} FillInnermostFirst(c: Config, q: int)
    ensures var f := FillInnermost(c, q);
      forall i, j :: 0 <= i < j < |c| && f.0[j].e != c[j].e ==> f.0[i].e == Capacity(c[i].l)
    decreases |c|
  {
    if |c| > 0 && q != 0 {
      var x := c[0];
      var add := Min(q, Capacity(x.l) - x.e);
      var f := FillInnermost(c, q);
      var rest := FillInnermost(c[1..], q - add);
      FillInnermostFirst(c[1..], q - add);
      forall i, j | 0 <= i < j < |c| && f.0[j].e != c[j].e ensures f.0[i].e == Capacity(c[i].l) {
        assert f.0[j] == rest.0[j - 1] && c[j] == c[1..][j - 1];
        if i > 0 {
          assert f.0[i] == rest.0[i - 1] && c[i] == c[1..][i - 1];
        } else {
          assert q - add != 0;
        }
      }
    }
  }

  lemma {:induction false} NewShellsSpec(from: nat, q: int)
    requires q >= 0
    ensures var r := NewShells(from, q);
      Total(r) == q
      && (forall i :: 0 <= i < |r| ==> r[i].n == from + i && r[i].l == S && 0 < r[i].e <= 2)
    decreases q
  {
    if q > 0 {
      var add := Min(q, 2);
      NewShellsSpec(from + 1, q - add);
      var rest := NewShells(from + 1, q - add);
      TotalAppend([Entry(from, S, add)], rest);
      assert [Entry(from, S, add)][..0] == [];
    }
  }

  lemma AppendShellsSorted(head: Config, shells: Config, from: nat)
    requires Sorted(head)
    requires forall i :: 0 <= i < |head| ==> head[i].n < from
    requires forall i :: 0 <= i < |shells| ==> shells[i].n == from + i && shells[i].l == S
    ensures Sorted(head + shells)
  {
    var r := head + shells;
    forall i, j | 0 <= i < j < |r| ensures KeyLess(r[i], r[j]) {
      if j < |head| {
        assert r[i] == head[i] && r[j] == head[j];
      } else if i < |head| {
        assert r[i] == head[i] && r[j] == shells[j - |head|];
      } else {
        assert r[i] == shells[i - |head|] && r[j] == shells[j - |head|];
      }
    }
  }

  lemma FilledSorted(c: Config, q: int)
    requires Valid(c) && q >= 0
    ensures Valid(FillInnermost(c, q).0)
  {
    var f := FillInnermost(c, q);
    FillKeepsKeys(c, q);
    forall i, j | 0 <= i < j < |f.0| ensures KeyLess(f.0[i], f.0[j]) {
      assert KeyLess(c[i], c[j]);
    }
  }

  /** The overflow part of `AddInnermost`: what precedes the new shells,
      and where they start. */
  function OverflowHead(c: Config, q: int): Config {
    if |c| > 0 then FillInnermost(c, q).0 else [Entry(1, S, 0)]
  }

  function OverflowFrom(c: Config): nat {
    if |c| > 0 then c[|c| - 1].n + 1 else 2
  }

  lemma OverflowSplit(c: Config, q: int)
    requires Valid(c) && q >= 0 && FillInnermost(c, q).1 > 0
    ensures var head, shells := OverflowHead(c, q), NewShells(OverflowFrom(c), FillInnermost(c, q).1);
      AddInnermost(c, q) == head + shells
      && Valid(head) && Total(head) + Total(shells) == Total(c) + q
      && (forall i :: 0 <= i < |head| ==> head[i].n < OverflowFrom(c))
      && (forall i :: 0 <= i < |shells| ==> shells[i].n == OverflowFrom(c) + i && shells[i].l == S && 0 < shells[i].e <= 2)
  {
    var f := FillInnermost(c, q);
    var head, from := OverflowHead(c, q), OverflowFrom(c);
    FilledSorted(c, q);
    FillConserves(c, q);
    NewShellsSpec(from, f.1);
    assert |c| == 0 ==> Total(head) == 0 by {
      assert [Entry(1, S, 0)][..0] == [];
    }
    forall i | 0 <= i < |head| ensures head[i].n < from {
      FillKeepsKeys(c, q);
      if |c| > 0 && i < |c| - 1 { assert KeyLess(c[i], c[|c| - 1]); }
    }
  }

  /** What adding `q` electrons innermost-first promises about the
      result `r`. */
  predicate AddedInnermost(c: Config, q: int, r: Config) {
    Valid(r) && Total(r) == Total(c) + q && |c| <= |r| && SameKeys(c, r)
    && (forall i, j :: 0 <= i < j < |c| && r[j].e != c[j].e ==> r[i].e == Capacity(c[i].l))
    && (|r| > |c| ==> forall i :: 0 <= i < |c| ==> r[i].e == Capacity(c[i].l))
    && (forall i :: |c| <= i < |r| ==> r[i].l == S && r[i].e <= 2)
  }

  /** What a negative charge -q does: exactly q electrons are added, the
      existing subshells keep their order and keys, a later subshell gains
      electrons only once every earlier one is full, and new subshells are
      opened only when all existing ones are full; each new one is an `s`
      subshell of the next shell holding at most two electrons. */
  lemma AddInnermostSpec(c: Config, q: int)
    requires Valid(c) && q >= 0
    ensures var r := AddInnermost(c, q);
      Valid(r) && Total(r) == Total(c) + q && |c| <= |r| && SameKeys(c, r)
      && (forall i, j :: 0 <= i < j < |c| && r[j].e != c[j].e ==> r[i].e == Capacity(c[i].l))
      && (|r| > |c| ==> forall i :: 0 <= i < |c| ==> r[i].e == Capacity(c[i].l))
      && (forall i :: |c| <= i < |r| ==> r[i].l == S && r[i].e <= 2)
  {
    if FillInnermost(c, q).1 > 0 {
      AddInnermostOverflow(c, q);
    } else {
      AddInnermostFits(c, q);
    }
  }

  lemma AddInnermostOverflow(c: Config, q: int)
    requires Valid(c) && q >= 0 && FillInnermost(c, q).1 > 0
    ensures AddedInnermost(c, q, AddInnermost(c, q))
  {
    OverflowValid(c, q);
    OverflowShape(c, q);
  }

  /** With overflow the result is valid and holds `q` more electrons. */
  lemma OverflowValid(c: Config, q: int)
    requires Valid(c) && q >= 0 && FillInnermost(c, q).1 > 0
    ensures Valid(AddInnermost(c, q)) && Total(AddInnermost(c, q)) == Total(c) + q
  {
    var f := FillInnermost(c, q);
    var head, shells := OverflowHead(c, q), NewShells(OverflowFrom(c), f.1);
    OverflowSplit(c, q);
    AppendShellsSorted(head, shells, OverflowFrom(c));
    TotalAppend(head, shells);
    var r := head + shells;
    forall i | 0 <= i < |r| ensures r[i].e >= 0 {
      if i < |head| { assert r[i] == head[i]; } else { assert r[i] == shells[i - |head|]; }
    }
  }

  /** With overflow every existing subshell is full, keeps its key, and
      only new `s` subshells follow. */
  lemma OverflowShape(c: Config, q: int)
    requires Valid(c) && q >= 0 && FillInnermost(c, q).1 > 0
    ensures var r := AddInnermost(c, q);
      && |c| <= |r| && SameKeys(c, r)
      && (forall i :: 0 <= i < |c| ==> r[i].e == Capacity(c[i].l))
      && (forall i :: |c| <= i < |r| ==> r[i].l == S && r[i].e <= 2)
  {
    OverflowExisting(c, q);
    OverflowNew(c, q);
  }

  lemma OverflowExisting(c: Config, q: int)
    requires Valid(c) && q >= 0 && FillInnermost(c, q).1 > 0
    ensures var r := AddInnermost(c, q);
      && |c| <= |r| && SameKeys(c, r)
      && (forall i :: 0 <= i < |c| ==> r[i].e == Capacity(c[i].l))
  {
    var f := FillInnermost(c, q);
    FillKeepsKeys(c, q);
    FillFullBeforeLeftover(c, q);
    var head, shells := OverflowHead(c, q), NewShells(OverflowFrom(c), f.1);
    assert AddInnermost(c, q) == head + shells;
    assert |head| == |c| || (|c| == 0 && head == [Entry(1, S, 0)]);
    var r := head + shells;
    forall i | 0 <= i < |c| ensures r[i] == f.0[i] {
      assert r[i] == head[i];
    }
  }

  lemma OverflowNew(c: Config, q: int)
    requires Valid(c) && q >= 0 && FillInnermost(c, q).1 > 0
    ensures var r := AddInnermost(c, q);
      forall i :: |c| <= i < |r| ==> r[i].l == S && r[i].e <= 2
  {
    var f := FillInnermost(c, q);
    FillKeepsKeys(c, q);
    var head, shells := OverflowHead(c, q), NewShells(OverflowFrom(c), f.1);
    OverflowSplit(c, q);
    var r := head + shells;
    forall i | |c| <= i < |r| ensures r[i].l == S && r[i].e <= 2 {
      if i < |head| { assert r[i] == head[i]; } else { assert r[i] == shells[i - |head|]; }
    }
  }

  lemma AddInnermostFits(c: Config, q: int)
    requires Valid(c) && q >= 0 && FillInnermost(c, q).1 <= 0
    ensures AddedInnermost(c, q, AddInnermost(c, q))
  {
    FillKeepsKeys(c, q);
    FillConserves(c, q);
    FillFullBeforeLeftover(c, q);
    FillInnermostFirst(c, q);
    FilledSorted(c, q);
  }

  /** One round of the filling: the first remaining subshell takes what
      it can hold of `t`, the rest take the remainder. */
  lemma FillStep(c: Config, i: nat, t: int)
    requires i < |c| && t != 0
    ensures var add := Min(t, Capacity(c[i].l) - c[i].e);
      var later := FillInnermost(c[i + 1..], t - add);
      FillInnermost(c[i..], t) == ([c[i].(e := c[i].e + add)] + later.0, later.1)
  {
    assert c[i..][0] == c[i];
    assert c[i..][1..] == c[i + 1..];
  }

  /** The loop invariant of `FillExisting` carried over one round. */
  lemma FillAdvance(c: Config, q: int, done: Config, i: nat, t: int)
    requires i < |c| && t != 0
    requires FillInnermost(c, q) == (done + FillInnermost(c[i..], t).0, FillInnermost(c[i..], t).1)
    ensures var add := Min(t, Capacity(c[i].l) - c[i].e);
      var later := FillInnermost(c[i + 1..], t - add);
      FillInnermost(c, q) == (done + [c[i].(e := c[i].e + add)] + later.0, later.1)
  {
    FillStep(c, i, t);
    var add := Min(t, Capacity(c[i].l) - c[i].e);
    var later := FillInnermost(c[i + 1..], t - add);
    assert done + ([c[i].(e := c[i].e + add)] + later.0) == done + [c[i].(e := c[i].e + add)] + later.0;
  }

  /** The innermost-first loop of `BracketAtom.__post_init__` for a
      negative charge: it fills the existing subshells in order and returns
      them with the electrons still to place; the filled ones are collected
      in `done` rather than updated in place. */
  method FillExisting(c: Config, q: int) returns (r: Config, toAdd: int)
    ensures (r, toAdd) == FillInnermost(c, q)
  {
    var done: Config := [];
    toAdd := q;
    var i := 0;
    assert c[0..] == c;
    assert done + FillInnermost(c, q).0 == FillInnermost(c, q).0;
    while i < |c| && toAdd != 0
      invariant 0 <= i <= |c|
      invariant FillInnermost(c, q) == (done + FillInnermost(c[i..], toAdd).0, FillInnermost(c[i..], toAdd).1)
    {
      var x := c[i];
      var add := Min(toAdd, Capacity(x.l) - x.e);
      FillAdvance(c, q, done, i, toAdd);
      done := done + [x.(e := x.e + add)];
      toAdd := toAdd - add;
      i := i + 1;
    }
    r := done + c[i..];
  }

  /** The whole negative-charge branch: fill the existing subshells, then
      open `s` subshells in the following shells for what is left. */
  method AddElectrons(c: Config, q: int) returns (r: Config)
    ensures r == AddInnermost(c, q)
  {
    var toAdd;
    r, toAdd := FillExisting(c, q);
    if toAdd > 0 {
      var n: nat;
      if |c| > 0 {
        n := c[|c| - 1].n;
      } else {
        r := r + [Entry(1, S, 0)];
        n := 1;
      }
      while toAdd > 0
        invariant AddInnermost(c, q) == r + NewShells(n + 1, toAdd)
        decreases toAdd
      {
        n := n + 1;
        var add := Min(toAdd, MaxElectronsInSubshell("s"));
        r := r + [Entry(n, S, add)];
        toAdd := toAdd - add;
      }
    }
  }

  /** The subshells after the charge effect: a positive charge removes,
      a negative one adds, zero changes nothing. */
  function AdjustForCharge(c: Config, charge: int): (r: Config)
    requires Valid(c)
    ensures Valid(r)
    ensures charge >= 0 ==> Total(r) == Total(c) - Min(charge, Total(c))
    ensures charge < 0 ==> Total(r) == Total(c) - charge
  {
    if charge > 0 then
      RemovedValid(c, charge);
      RemovedTotal(c, charge);
      RemoveOutermost(c, charge)
    else if charge < 0 then
      AddedValid(c, -charge);
      AddedTotal(c, -charge);
      AddInnermost(c, -charge)
    else
      TotalNonNeg(c);
      c
  }

  lemma RemovedValid(c: Config, q: nat)
    requires Valid(c)
    ensures Valid(RemoveOutermost(c, q))
  {
    RemoveOutermostSpec(c, q);
  }

  lemma AddedValid(c: Config, q: nat)
    requires Valid(c)
    ensures Valid(AddInnermost(c, q))
  {
    AddInnermostSpec(c, q);
  }

  /** `BracketAtom(symbol, electron_configuration, aromatic, ...)` with its
      `__post_init__`: when a charge is given, the subshells are adjusted
      and only `valency_layer` and `electrons_in_valency` are recomputed,
      unless no subshell is left. */
  function MakeBracketAtom(symbol: string, configuration: string, aromatic: bool, fields: BracketFields): (a: Atom)
    ensures a.bracket == Some(fields)
    ensures a.symbol == symbol && a.electronConfiguration == configuration && a.aromatic == aromatic
    ensures Valid(a.subshells)
    ensures var base := MakeAtom(symbol, configuration, aromatic);
      && (fields.charge.None? ==> a == base.(bracket := Some(fields)))
      && (fields.charge.Some? ==> a.subshells == AdjustForCharge(base.subshells, fields.charge.value))
      && (a.subshells != [] ==> a.layers == base.layers && a.electronsByLayers == base.electronsByLayers)
    ensures ValenceShell(a)
  {
    Bracketed(MakeAtom(symbol, configuration, aromatic), fields)
  }

  /** The `__post_init__` of a bracket atom applied to the plain atom
      `base`, which needs only a canonical map and its valence shell. */
  function Bracketed(base: Atom, fields: BracketFields): (a: Atom)
    requires Valid(base.subshells) && ValenceShell(base)
    ensures a.bracket == Some(fields)
    ensures a.symbol == base.symbol && a.electronConfiguration == base.electronConfiguration && a.aromatic == base.aromatic
    ensures Valid(a.subshells)
    ensures fields.charge.None? ==> a == base.(bracket := Some(fields))
    ensures fields.charge.Some? ==> a.subshells == AdjustForCharge(base.subshells, fields.charge.value)
    ensures a.subshells != [] ==> a.layers == base.layers && a.electronsByLayers == base.electronsByLayers
    ensures ValenceShell(a)
  {
    if fields.charge.None? then base.(bracket := Some(fields))
    else Recharged(base, AdjustForCharge(base.subshells, fields.charge.value), fields)
  }

  /** `base` with the adjusted subshells `c`: the valence shell and its
      electrons are recomputed, the layer lists kept unless no subshell is
      left. */
  function Recharged(base: Atom, c: Config, fields: BracketFields): (a: Atom)
    requires Sorted(c)
    ensures a.subshells == c && a.bracket == Some(fields)
    ensures a.symbol == base.symbol && a.electronConfiguration == base.electronConfiguration && a.aromatic == base.aromatic
    ensures c != [] ==> a.layers == base.layers && a.electronsByLayers == base.electronsByLayers
    ensures ValenceShell(a)
  {
    if |c| == 0 then
      base.(valencyLayer := 0, electronsInValency := 0, layers := [], electronsByLayers := [],
            subshells := c, bracket := Some(fields))
    else
      var vl := OuterShell(c);
      base.(valencyLayer := vl, electronsInValency := SumAt(c, vl), subshells := c, bracket := Some(fields))
  }

  /** The electron count of a bracket atom: a charge of +q removes
      min(q, total) electrons and a charge of -q adds q. */
  lemma BracketAtomElectrons(symbol: string, configuration: string, aromatic: bool, fields: BracketFields)
    ensures var base, a := MakeAtom(symbol, configuration, aromatic), MakeBracketAtom(symbol, configuration, aromatic, fields);
      && (fields.charge.None? ==> Total(a.subshells) == Total(base.subshells))
      && (fields.charge.Some? && fields.charge.value >= 0 ==>
            Total(a.subshells) == Total(base.subshells) - Min(fields.charge.value, Total(base.subshells)))
      && (fields.charge.Some? && fields.charge.value < 0 ==>
            Total(a.subshells) == Total(base.subshells) - fields.charge.value)
  {
    TotalNonNeg(MakeAtom(symbol, configuration, aromatic).subshells);
  }

  lemma RemovedTotal(c: Config, q: nat)
    requires Valid(c)
    ensures Total(RemoveOutermost(c, q)) == Total(c) - Min(q, Total(c))
  {
    RemoveOutermostKept(c, q);
  }

  lemma AddedTotal(c: Config, q: nat)
    requires Valid(c)
    ensures Total(AddInnermost(c, q)) == Total(c) + q
  {
    AddInnermostSpec(c, q);
  }

  /** `compute_valency(bonds)`: the valence electrons, the hydrogens (none
      when absent) and the bond electrons must complete the shell. */
  function ComputeValency(a: Atom, bonds: int): bool
    requires a.bracket.Some?
  {
    OctateRule(a.valencyLayer, a.electronsInValency + a.bracket.value.hidrogens.GetOr(0) + bonds)
  }

  /** Exactly one bond count satisfies the rule: the electrons still
      missing from a full first shell (2) or octet (8). */
  lemma ComputeValencyExactly(a: Atom, bonds: int)
    requires a.bracket.Some?
    ensures ComputeValency(a, bonds) <==>
      bonds == (if a.valencyLayer == 1 then 2 else 8) - a.electronsInValency - a.bracket.value.hidrogens.GetOr(0)
  {
  }
}
