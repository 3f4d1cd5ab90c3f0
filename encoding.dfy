/**
  The clause encoder `generate_cnf`: every numbered cell becomes an exact-k
  cardinality constraint over its neighbours' variables, written with the naive
  combinations encoding. Literals are non-zero integers: v for "cell v is a
  trap", -v for "cell v is not a trap".
 */
module Encoding {
  import opened Grid
  import opened Clues

  function Abs(x: int): nat { if x < 0 then -x else x }

  /** Literal l holds under assignment a: a positive literal names a trap, a
      negative one a cell of a that is not a trap. */
  predicate LitTrue(a: seq<int>, l: int) {
    Holds(a, Abs(l), l > 0)
  }

  /** A clause holds when one of its literals does; the empty clause never holds. */
  predicate ClauseSat(a: seq<int>, c: seq<int>) {
    exists l :: l in c && LitTrue(a, l)
  }

  predicate CnfSat(a: seq<int>, cnf: seq<seq<int>>) {
    forall c :: c in cnf ==> ClauseSat(a, c)
  }

  /** Every variable of vs is a cell of an assignment of length |a|. */
  predicate VarsInRange(a: seq<int>, vs: seq<int>) {
    forall v :: v in vs ==> 1 <= v <= |a|
  }

  /** Every literal of cnf names one of the variables 1 .. n. */
  predicate LiteralsInRange(cnf: seq<seq<int>>, n: nat) {
    forall c, l :: c in cnf && l in c ==> 1 <= Abs(l) <= n
  }

  // ---------------------------------------------------------------------------
  // itertools.combinations
  // ---------------------------------------------------------------------------

  function PrependAll(x: int, cs: seq<seq<int>>): seq<seq<int>> {
    seq(|cs|, k requires 0 <= k < |cs| => [x] + cs[k])
  }

  /** `combinations(vs, k)`: the k-element sub-sequences of vs in lexicographic
      order of positions; none when k > |vs|, one empty one when k == 0. */
  function Combinations(vs: seq<int>, k: nat): seq<seq<int>>
    decreases |vs|
  {
    if k == 0 then [[]]
    else if |vs| < k then []
    else PrependAll(vs[0], Combinations(vs[1..], k - 1)) + Combinations(vs[1..], k)
  }

  /** Every combination has k entries, all taken from vs. */
  lemma {:induction false} CombinationsShape(vs: seq<int>, k: nat)
    decreases |vs|
    ensures forall c :: c in Combinations(vs, k) ==> |c| == k && forall v :: v in c ==> v in vs
  {
    if k > 0 && |vs| >= k {
      var tail := vs[1..];
      var shorter := Combinations(tail, k - 1);
      var with := PrependAll(vs[0], shorter);
      CombinationsShape(tail, k - 1);
      CombinationsShape(tail, k);
      assert Combinations(vs, k) == with + Combinations(tail, k);
      forall c | c in Combinations(vs, k) ensures |c| == k && forall v :: v in c ==> v in vs {
        if c in with {
          var i :| 0 <= i < |with| && with[i] == c;
          assert shorter[i] in shorter;
          forall v | v in c ensures v in vs {
            if v != vs[0] { assert v in shorter[i]; }
          }
        } else {
          assert c in Combinations(tail, k);
          forall v | v in c ensures v in vs { assert v in tail; }
        }
      }
    }
  }

  /** `[-v for v in c]`. */
  function Negated(c: seq<int>): seq<int> {
    seq(|c|, k requires 0 <= k < |c| => -c[k])
  }

  function NegateAll(cs: seq<seq<int>>): seq<seq<int>> {
    seq(|cs|, k requires 0 <= k < |cs| => Negated(cs[k]))
  }

  /** One single-literal clause per literal of ls. */
  function Units(ls: seq<int>): seq<seq<int>> {
    seq(|ls|, k requires 0 <= k < |ls| => [ls[k]])
  }

  // ---------------------------------------------------------------------------
  // The encoder
  // ---------------------------------------------------------------------------

  /** The first family of a numbered cell's clauses: every subset of num + 1
      neighbour variables has a non-trap (emitted only when num + 1 <= |vs|). */
  function AtMostClauses(vs: seq<int>, num: nat): seq<seq<int>> {
    if num + 1 <= |vs| then NegateAll(Combinations(vs, num + 1)) else []
  }

  /** The second family: every subset of |vs| - num + 1 neighbour variables has
      a trap (emitted only when |vs| - num + 1 > 0). */
  function AtLeastClauses(vs: seq<int>, num: nat): seq<seq<int>> {
    if |vs| - num + 1 > 0 then Combinations(vs, |vs| - num + 1) else []
  }

  /** The clauses of one numbered cell with neighbour variables vs, each family
      guarded as `generate_cnf` guards it. */
  function ClueClauses(vs: seq<int>, num: nat): seq<seq<int>> {
    AtMostClauses(vs, num) + AtLeastClauses(vs, num)
  }

  /** The clauses `generate_cnf` appends for numbered cell c. */
  function ClueBlock(p: Puzzle, c: Clue): seq<seq<int>> {
    ClueClauses(NeighborVars(p, c), c.num)
  }

  /** The clause lists of several numbered cells, one after another. */
  function Flatten(blocks: seq<seq<seq<int>>>): seq<seq<int>> {
    if blocks == [] then [] else blocks[0] + Flatten(blocks[1..])
  }

  /** One clause block per numbered cell, in list order. */
  function ClueBlocks(p: Puzzle): seq<seq<seq<int>>> {
    seq(|p.clues|, k requires 0 <= k < |p.clues| => ClueBlock(p, p.clues[k]))
  }

  /** `generate_cnf`: the clauses of every numbered cell, in list order. */
  function GenerateCnf(p: Puzzle): seq<seq<int>> {
    Flatten(ClueBlocks(p))
  }

  /** No numbered cell asks for more traps than it has neighbours. */
  predicate CluesFit(p: Puzzle) {
    forall k :: 0 <= k < |p.clues| ==>
      p.clues[k].num <= |Neighbors(p.rows, p.cols, p.clues[k].row, p.clues[k].col)|
  }

  // ---------------------------------------------------------------------------
  // Counting and the combinations lemma
  // ---------------------------------------------------------------------------

  /** Variable v is a trap (pol) or a non-trap cell (!pol) under a. */
  predicate Holds(a: seq<int>, v: int, pol: bool) {
    if pol then IsTrap(a, v) else 1 <= v <= |a| && !IsTrap(a, v)
  }

  predicate AllHold(a: seq<int>, c: seq<int>, pol: bool) {
    forall v :: v in c ==> Holds(a, v, pol)
  }

  /** How many entries of vs satisfy Holds(a, _, pol). */
  function Matching(a: seq<int>, vs: seq<int>, pol: bool): (n: nat)
    ensures n <= |vs|
  {
    if vs == [] then 0 else (if Holds(a, vs[0], pol) then 1 else 0) + Matching(a, vs[1..], pol)
  }

  lemma {:induction false} MatchingCounts(a: seq<int>, vs: seq<int>)
    requires VarsInRange(a, vs)
    ensures Matching(a, vs, true) == TrapsAmong(a, vs)
    ensures Matching(a, vs, false) == |vs| - TrapsAmong(a, vs)
  {
    if vs != [] {
      assert vs[0] in vs;
      assert VarsInRange(a, vs[1..]) by {
        forall v | v in vs[1..] ensures 1 <= v <= |a| { assert v in vs; }
      }
      MatchingCounts(a, vs[1..]);
    }
  }

  /** One step of `combinations`: the subsets that take vs[0], then those that
      skip it. */
  lemma CombinationsStep(vs: seq<int>, m: nat)
    requires 0 < m <= |vs|
    ensures Combinations(vs, m) == PrependAll(vs[0], Combinations(vs[1..], m - 1)) + Combinations(vs[1..], m)
  {
  }

  lemma PrependMember(x: int, cs: seq<seq<int>>, c: seq<int>)
    requires c in cs
    ensures [x] + c in PrependAll(x, cs)
  {
    var i :| 0 <= i < |cs| && cs[i] == c;
    assert PrependAll(x, cs)[i] == [x] + c;
  }

  lemma PrependMemberInv(x: int, cs: seq<seq<int>>, d: seq<int>) returns (c: seq<int>)
    requires d in PrependAll(x, cs)
    ensures c in cs && d == [x] + c
  {
    var i :| 0 <= i < |cs| && PrependAll(x, cs)[i] == d;
    c := cs[i];
  }

  lemma AllHoldCons(a: seq<int>, x: int, c: seq<int>, pol: bool)
    ensures AllHold(a, [x] + c, pol) <==> Holds(a, x, pol) && AllHold(a, c, pol)
  {
    if Holds(a, x, pol) && AllHold(a, c, pol) {
      forall v | v in [x] + c ensures Holds(a, v, pol) {
        if v != x { assert v in c; }
      }
    }
    if AllHold(a, [x] + c, pol) {
      assert x in [x] + c;
      forall v | v in c ensures Holds(a, v, pol) { assert v in [x] + c; }
    }
  }

  /** An m-subset made only of cells satisfying Holds(a, _, pol) shows that at
      least m entries of vs do. */
  lemma {:induction false} AllHoldCount(a: seq<int>, vs: seq<int>, m: nat, pol: bool, c: seq<int>)
    requires c in Combinations(vs, m) && AllHold(a, c, pol)
    decreases |vs|
    ensures Matching(a, vs, pol) >= m
  {
    if m > 0 {
      var tail := vs[1..];
      var shorter := Combinations(tail, m - 1);
      CombinationsStep(vs, m);
      if c in PrependAll(vs[0], shorter) {
        var c' := PrependMemberInv(vs[0], shorter, c);
        AllHoldCons(a, vs[0], c', pol);
        AllHoldCount(a, tail, m - 1, pol, c');
      } else {
        AllHoldCount(a, tail, m, pol, c);
      }
    }
  }

  lemma MatchingStep(a: seq<int>, vs: seq<int>, pol: bool)
    requires vs != []
    ensures Matching(a, vs, pol) == (if Holds(a, vs[0], pol) then 1 else 0) + Matching(a, vs[1..], pol)
  {
  }

  /** A subset of vs[1..] is a subset of vs that skips vs[0]. */
  lemma CombinationsSkip(vs: seq<int>, m: nat, c: seq<int>)
    requires 0 < m <= |vs| && c in Combinations(vs[1..], m)
    ensures c in Combinations(vs, m)
  {
    CombinationsStep(vs, m);
  }

  /** A subset of vs[1..] with vs[0] in front is a subset of vs. */
  lemma CombinationsTake(vs: seq<int>, m: nat, c: seq<int>)
    requires 0 < m <= |vs| && c in Combinations(vs[1..], m - 1)
    ensures [vs[0]] + c in Combinations(vs, m)
  {
    CombinationsStep(vs, m);
    PrependMember(vs[0], Combinations(vs[1..], m - 1), c);
  }

  /** Conversely, when at least m entries of vs satisfy Holds(a, _, pol), some
      m-subset is made only of such cells. */
  lemma {:induction false} AllHoldWitness(a: seq<int>, vs: seq<int>, m: nat, pol: bool)
      returns (c: seq<int>)
    requires Matching(a, vs, pol) >= m
    decreases |vs|
    ensures c in Combinations(vs, m) && AllHold(a, c, pol)
  {
    if m == 0 {
      c := [];
    } else {
      assert vs != [] && m <= |vs|;
      MatchingStep(a, vs, pol);
      if Holds(a, vs[0], pol) {
        var c' := AllHoldWitness(a, vs[1..], m - 1, pol);
        c := [vs[0]] + c';
        assert c in Combinations(vs, m) by { CombinationsTake(vs, m, c'); }
        assert AllHold(a, c, pol) by { AllHoldCons(a, vs[0], c', pol); }
      } else {
        c := AllHoldWitness(a, vs[1..], m, pol);
        assert c in Combinations(vs, m) by { CombinationsSkip(vs, m, c); }
      }
    }
  }

  /** The at-most family: the negated m-subsets all hold exactly when fewer than
      m variables of vs are traps. */
  lemma AtMostMeaning(a: seq<int>, vs: seq<int>, m: nat)
    requires VarsInRange(a, vs)
    ensures CnfSat(a, NegateAll(Combinations(vs, m))) <==> Matching(a, vs, true) < m
  {
    var cs := Combinations(vs, m);
    CombinationsShape(vs, m);
    if Matching(a, vs, true) < m {
      forall d | d in NegateAll(cs) ensures ClauseSat(a, d) {
        var i :| 0 <= i < |cs| && NegateAll(cs)[i] == d;
        assert cs[i] in cs;
        NegatedClauseSat(a, cs[i]);
        if !ClauseSat(a, d) {
          AllHoldCount(a, vs, m, true, cs[i]);
        }
      }
    } else {
      var c := AllHoldWitness(a, vs, m, true);
      var i :| 0 <= i < |cs| && cs[i] == c;
      NegatedClauseSat(a, c);
      assert NegateAll(cs)[i] in NegateAll(cs);
    }
  }

  /** The at-least family: the m-subsets all hold exactly when fewer than m
      variables of vs are non-traps. */
  lemma AtLeastMeaning(a: seq<int>, vs: seq<int>, m: nat)
    requires VarsInRange(a, vs)
    ensures CnfSat(a, Combinations(vs, m)) <==> Matching(a, vs, false) < m
  {
    var cs := Combinations(vs, m);
    CombinationsShape(vs, m);
    if Matching(a, vs, false) < m {
      forall d | d in cs ensures ClauseSat(a, d) {
        PositiveClauseSat(a, d);
        if !ClauseSat(a, d) {
          AllHoldCount(a, vs, m, false, d);
        }
      }
    } else {
      var c := AllHoldWitness(a, vs, m, false);
      PositiveClauseSat(a, c);
    }
  }

  lemma CnfSatConcat(a: seq<int>, f: seq<seq<int>>, g: seq<seq<int>>)
    ensures CnfSat(a, f + g) <==> CnfSat(a, f) && CnfSat(a, g)
  {
    if CnfSat(a, f) && CnfSat(a, g) {
      forall c | c in f + g ensures ClauseSat(a, c) {
        assert c in f || c in g;
      }
    }
  }

  /** A clause of negated variables holds when one of them is not a trap. */
  lemma NegatedClauseSat(a: seq<int>, c: seq<int>)
    requires VarsInRange(a, c)
    ensures ClauseSat(a, Negated(c)) <==> !AllHold(a, c, true)
  {
    var n := Negated(c);
    if ClauseSat(a, n) {
      var l :| l in n && LitTrue(a, l);
      var k :| 0 <= k < |n| && n[k] == l;
      assert c[k] in c && !Holds(a, c[k], true);
    }
    if !AllHold(a, c, true) {
      var v :| v in c && !Holds(a, v, true);
      var k :| 0 <= k < |c| && c[k] == v;
      assert n[k] in n && LitTrue(a, n[k]);
    }
  }

  /** A clause of plain variables holds when one of them is a trap. */
  lemma PositiveClauseSat(a: seq<int>, c: seq<int>)
    requires VarsInRange(a, c)
    ensures ClauseSat(a, c) <==> !AllHold(a, c, false)
  {
    if !AllHold(a, c, false) {
      var v :| v in c && !Holds(a, v, false);
      assert LitTrue(a, v);
    }
  }

  lemma AtMostClausesMeaning(a: seq<int>, vs: seq<int>, num: nat)
    requires VarsInRange(a, vs)
    ensures CnfSat(a, AtMostClauses(vs, num)) <==> TrapsAmong(a, vs) <= num
  {
    MatchingCounts(a, vs);
    if num + 1 <= |vs| {
      AtMostMeaning(a, vs, num + 1);
    }
  }

  lemma AtLeastClausesMeaning(a: seq<int>, vs: seq<int>, num: nat)
    requires VarsInRange(a, vs)
    ensures CnfSat(a, AtLeastClauses(vs, num)) <==> (num <= |vs| ==> num <= TrapsAmong(a, vs))
  {
    MatchingCounts(a, vs);
    if |vs| - num + 1 > 0 {
      AtLeastMeaning(a, vs, |vs| - num + 1);
    }
  }

  /** What one numbered cell's clauses mean: never more than num traps among
      vs, and at least num of them whenever num <= |vs|. For num > |vs| both
      guards fail and the clue contributes nothing. */
  lemma ClueClausesMeaning(a: seq<int>, vs: seq<int>, num: nat)
    requires VarsInRange(a, vs)
    ensures CnfSat(a, ClueClauses(vs, num)) <==>
      TrapsAmong(a, vs) <= num && (num <= |vs| ==> num <= TrapsAmong(a, vs))
    ensures num > |vs| ==> ClueClauses(vs, num) == []
  {
    AtMostClausesMeaning(a, vs, num);
    AtLeastClausesMeaning(a, vs, num);
    CnfSatConcat(a, AtMostClauses(vs, num), AtLeastClauses(vs, num));
  }

  /** For num <= |vs| the clauses say exactly "num of vs are traps". */
  lemma ClueClausesExact(a: seq<int>, vs: seq<int>, num: nat)
    requires VarsInRange(a, vs)
    requires num <= |vs|
    ensures CnfSat(a, ClueClauses(vs, num)) <==> TrapsAmong(a, vs) == num
  {
    ClueClausesMeaning(a, vs, num);
  }

  /** `combinations(vs, 1)` yields one single-variable tuple per variable. */
  lemma {:induction false} CombinationsOfOne(vs: seq<int>)
    ensures Combinations(vs, 1) == Units(vs)
  {
    if vs != [] {
      CombinationsOfOne(vs[1..]);
      assert Combinations(vs[1..], 0) == [[]];
      assert [vs[0]] + [] == [vs[0]];
      assert PrependAll(vs[0], Combinations(vs[1..], 0)) == [[vs[0]]];
    }
  }

  /** num == |vs|: only unit clauses "v is a trap", one per neighbour. */
  lemma ClueClausesAllTraps(vs: seq<int>)
    ensures ClueClauses(vs, |vs|) == Units(vs)
  {
    CombinationsOfOne(vs);
  }

  /** num == 0: only unit clauses "v is not a trap", one per neighbour. */
  lemma ClueClausesNoTraps(vs: seq<int>)
    ensures ClueClauses(vs, 0) == Units(Negated(vs))
  {
    CombinationsOfOne(vs);
    assert Combinations(vs, |vs| + 1) == [];
    forall k | 0 <= k < |vs| ensures NegateAll(Units(vs))[k] == Units(Negated(vs))[k] {
      var n := Negated([vs[k]]);
      assert |n| == 1 && n[0] == -vs[k];
      assert n == [-vs[k]];
    }
    assert NegateAll(Units(vs)) == Units(Negated(vs));
  }

  // ---------------------------------------------------------------------------
  // The whole formula
  // ---------------------------------------------------------------------------

  /** What the as-written clauses of numbered cell c demand: at most c.num traps
      around it, and at least c.num when it has that many neighbours. */
  predicate ClueAccepts(p: Puzzle, a: seq<int>, c: Clue) {
    TrapCount(p, a, c) <= c.num &&
    (c.num <= |NeighborVars(p, c)| ==> c.num <= TrapCount(p, a, c))
  }

  /** Every board variable lies within an assignment of the board's size. */
  lemma NeighborVarsInRange(p: Puzzle, a: seq<int>, c: Clue)
    requires |a| == p.Size()
    ensures VarsInRange(a, NeighborVars(p, c))
  {
    NeighborVarsRange(p, c);
  }

  lemma ClueStep(p: Puzzle, a: seq<int>, c: Clue)
    requires |a| == p.Size()
    ensures CnfSat(a, ClueClauses(NeighborVars(p, c), c.num)) <==> ClueAccepts(p, a, c)
  {
    NeighborVarsInRange(p, a, c);
    ClueClausesMeaning(a, NeighborVars(p, c), c.num);
  }

  /** A list of clause blocks holds exactly when every block does. */
  lemma {:induction false} FlattenSat(a: seq<int>, blocks: seq<seq<seq<int>>>)
    ensures CnfSat(a, Flatten(blocks)) <==> forall i :: 0 <= i < |blocks| ==> CnfSat(a, blocks[i])
  {
    if blocks != [] {
      FlattenSat(a, blocks[1..]);
      CnfSatConcat(a, blocks[0], Flatten(blocks[1..]));
      assert forall i :: 1 <= i < |blocks| ==> blocks[i] == blocks[1..][i - 1];
    }
  }

  /** The as-written formula holds exactly when every numbered cell accepts. */
  lemma GenerateCnfMeaning(p: Puzzle, a: seq<int>)
    requires |a| == p.Size()
    ensures CnfSat(a, GenerateCnf(p)) <==> forall k :: 0 <= k < |p.clues| ==> ClueAccepts(p, a, p.clues[k])
  {
    var blocks := ClueBlocks(p);
    FlattenSat(a, blocks);
    forall k | 0 <= k < |p.clues| ensures CnfSat(a, blocks[k]) <==> ClueAccepts(p, a, p.clues[k]) {
      ClueStep(p, a, p.clues[k]);
    }
  }

  /** Every valid assignment satisfies the generated formula. */
  lemma GenerateCnfSound(p: Puzzle, a: seq<int>)
    requires |a| == p.Size()
    requires Satisfies(p, a)
    ensures CnfSat(a, GenerateCnf(p))
  {
    GenerateCnfMeaning(p, a);
  }

  /** When no numbered cell asks for more traps than it has neighbours, an
      assignment satisfies the generated formula exactly when it is valid. */
  lemma GenerateCnfExact(p: Puzzle, a: seq<int>)
    requires |a| == p.Size()
    requires CluesFit(p)
    ensures CnfSat(a, GenerateCnf(p)) <==> Satisfies(p, a)
  {
    GenerateCnfMeaning(p, a);
    forall k | 0 <= k < |p.clues|
      ensures ClueAccepts(p, a, p.clues[k]) <==> ClueHolds(p, a, p.clues[k])
    {
      assert p.clues[k].num <= |NeighborVars(p, p.clues[k])|;
    }
  }

  /** A numbered cell asking for more traps than it has neighbours adds no
      clause, so the formula accepts a board on which that clue fails: the
      1 x 2 board whose cell (0, 0) says 2, with both cells gems. */
  lemma OverfullClueAccepted()
    ensures GenerateCnf(Puzzle(1, 2, [Clue(0, 0, 2)])) == []
    ensures CnfSat([-1, -1], GenerateCnf(Puzzle(1, 2, [Clue(0, 0, 2)])))
    ensures !Satisfies(Puzzle(1, 2, [Clue(0, 0, 2)]), [-1, -1])
  {
    var p := Puzzle(1, 2, [Clue(0, 0, 2)]);
    var ns := Neighbors(1, 2, 0, 0);
    assert ns == RowScan(0, 0, 0, 1, 0, 2);
    assert Rect(1, 2) == 2;
    assert |ns| == 1;
    assert ns[0] in ns;
    assert ns[0] == (0, 1);
    var vs := NeighborVars(p, p.clues[0]);
    assert vs == [2];
    assert ClueClauses(vs, 2) == [];
    var blocks := ClueBlocks(p);
    assert blocks == [[]];
    assert Flatten(blocks) == [] + Flatten([]);
    assert GenerateCnf(p) == Flatten(blocks);
    assert TrapCount(p, [-1, -1], p.clues[0]) == 0;
  }

  /** The encoder with the missing case added: a numbered cell that asks for
      more traps than it has neighbours contributes the empty clause. */
  function ClueClausesChecked(vs: seq<int>, num: nat): seq<seq<int>> {
    if num > |vs| then [[]] else ClueClauses(vs, num)
  }

  function CheckedClueBlock(p: Puzzle, c: Clue): seq<seq<int>> {
    ClueClausesChecked(NeighborVars(p, c), c.num)
  }

  function CheckedClueBlocks(p: Puzzle): seq<seq<seq<int>>> {
    seq(|p.clues|, k requires 0 <= k < |p.clues| => CheckedClueBlock(p, p.clues[k]))
  }

  /** `generate_cnf` with the missing case added. */
  function GenerateCnfChecked(p: Puzzle): seq<seq<int>> {
    Flatten(CheckedClueBlocks(p))
  }

  /** With the missing case added, one numbered cell's clauses say exactly
      that it sees its number of traps. */
  lemma CheckedClueStep(p: Puzzle, a: seq<int>, c: Clue)
    requires |a| == p.Size()
    ensures CnfSat(a, ClueClausesChecked(NeighborVars(p, c), c.num)) <==> ClueHolds(p, a, c)
  {
    var vs := NeighborVars(p, c);
    NeighborVarsInRange(p, a, c);
    if c.num > |vs| {
      assert [] in ClueClausesChecked(vs, c.num) && !ClauseSat(a, []);
    } else {
      ClueClausesExact(a, vs, c.num);
    }
  }

  /** With the empty clause added, the formula is satisfied exactly by the valid
      assignments, whatever the numbers. */
  lemma GenerateCnfCheckedExact(p: Puzzle, a: seq<int>)
    requires |a| == p.Size()
    ensures CnfSat(a, GenerateCnfChecked(p)) <==> Satisfies(p, a)
  {
    var blocks := CheckedClueBlocks(p);
    FlattenSat(a, blocks);
    forall k | 0 <= k < |p.clues| ensures CnfSat(a, blocks[k]) <==> ClueHolds(p, a, p.clues[k]) {
      CheckedClueStep(p, a, p.clues[k]);
    }
  }

  /** The two encoders agree whenever no numbered cell is over-full. */
  lemma CheckedAgrees(p: Puzzle)
    requires CluesFit(p)
    ensures GenerateCnfChecked(p) == GenerateCnf(p)
  {
    var checked := CheckedClueBlocks(p);
    var plain := ClueBlocks(p);
    forall k | 0 <= k < |p.clues| ensures checked[k] == plain[k] {
      assert p.clues[k].num <= |NeighborVars(p, p.clues[k])|;
    }
    assert checked == plain;
  }

  lemma LiteralsInRangeConcat(f: seq<seq<int>>, g: seq<seq<int>>, n: nat)
    requires LiteralsInRange(f, n) && LiteralsInRange(g, n)
    ensures LiteralsInRange(f + g, n)
  {
    forall c, l | c in f + g && l in c ensures 1 <= Abs(l) <= n {
      assert c in f || c in g;
    }
  }

  lemma AtMostLiterals(vs: seq<int>, m: nat, n: nat)
    requires forall v :: v in vs ==> 1 <= v <= n
    ensures LiteralsInRange(NegateAll(Combinations(vs, m)), n)
  {
    var cs := Combinations(vs, m);
    CombinationsShape(vs, m);
    forall d, l | d in NegateAll(cs) && l in d ensures 1 <= Abs(l) <= n {
      var i :| 0 <= i < |cs| && NegateAll(cs)[i] == d;
      var k :| 0 <= k < |d| && d[k] == l;
      assert cs[i] in cs && cs[i][k] in cs[i];
    }
  }

  lemma AtLeastLiterals(vs: seq<int>, m: nat, n: nat)
    requires forall v :: v in vs ==> 1 <= v <= n
    ensures LiteralsInRange(Combinations(vs, m), n)
  {
    CombinationsShape(vs, m);
  }

  /** The clauses of one numbered cell only mention its neighbours' variables. */
  lemma ClueClausesLiterals(vs: seq<int>, num: nat, n: nat)
    requires forall v :: v in vs ==> 1 <= v <= n
    ensures LiteralsInRange(ClueClauses(vs, num), n)
    ensures LiteralsInRange(ClueClausesChecked(vs, num), n)
  {
    var atMost, atLeast := AtMostClauses(vs, num), AtLeastClauses(vs, num);
    if num + 1 <= |vs| {
      AtMostLiterals(vs, num + 1, n);
    }
    if |vs| - num + 1 > 0 {
      AtLeastLiterals(vs, |vs| - num + 1, n);
    }
    LiteralsInRangeConcat(atMost, atLeast, n);
  }

  lemma {:induction false} FlattenLiterals(blocks: seq<seq<seq<int>>>, n: nat)
    requires forall i :: 0 <= i < |blocks| ==> LiteralsInRange(blocks[i], n)
    ensures LiteralsInRange(Flatten(blocks), n)
  {
    if blocks != [] {
      assert forall i :: 0 <= i < |blocks[1..]| ==> blocks[1..][i] == blocks[i + 1];
      FlattenLiterals(blocks[1..], n);
      LiteralsInRangeConcat(blocks[0], Flatten(blocks[1..]), n);
    }
  }

  /** Every literal the encoders emit names a cell of the board. */
  lemma GenerateCnfLiterals(p: Puzzle)
    ensures LiteralsInRange(GenerateCnf(p), p.Size())
    ensures LiteralsInRange(GenerateCnfChecked(p), p.Size())
  {
    var checked := CheckedClueBlocks(p);
    var plain := ClueBlocks(p);
    forall k | 0 <= k < |p.clues|
      ensures LiteralsInRange(plain[k], p.Size()) && LiteralsInRange(checked[k], p.Size())
    {
      NeighborVarsRange(p, p.clues[k]);
      ClueClausesLiterals(NeighborVars(p, p.clues[k]), p.clues[k].num, p.Size());
    }
    FlattenLiterals(plain, p.Size());
    FlattenLiterals(checked, p.Size());
  }
}
