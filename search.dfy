/**
  The two exhaustive solvers, as specifications. Brute force numbers the
  complete assignments of n cells by the integers 0 .. 2^n - 1, least
  significant bit first for cell 0; backtracking explores the same tree depth
  first, trying a trap (1) before a gem (-1) at every cell.
 */
module Search {
  import opened Wrappers
  import opened Clues

  function Pow2(n: nat): (r: nat)
    ensures r >= 1
  {
    if n == 0 then 1 else 2 * Pow2(n - 1)
  }

  // ---------------------------------------------------------------------------
  // Brute force: integers as assignments
  // ---------------------------------------------------------------------------

  /** The assignment brute force builds from candidate i: cell j is a trap when
      bit j of i is set and a gem otherwise. */
  function Decode(i: nat, n: nat): (a: seq<int>)
    ensures |a| == n && Complete(a)
  {
    if n == 0 then [] else [if i % 2 == 1 then 1 else -1] + Decode(i / 2, n - 1)
  }

  /** The candidate number of a complete assignment (traps are set bits). */
  function Encode(a: seq<int>): nat {
    if a == [] then 0 else (if a[0] > 0 then 1 else 0) + 2 * Encode(a[1..])
  }

  /** `i >> k`: i halved k times, as the decoding loop's `temp //= 2` does. */
  function Shift(i: nat, k: nat): nat {
    if k == 0 then i else Shift(i / 2, k - 1)
  }

  /** One more halving of the shifted value is one more shift. */
  lemma {:induction false} ShiftStep(i: nat, k: nat)
    ensures Shift(i, k + 1) == Shift(i, k) / 2
  {
    if k > 0 {
      ShiftStep(i / 2, k - 1);
    }
  }

  /** Entry j of the decoded candidate is 1 exactly when bit j of i is set. */
  lemma {:induction false} DecodeBit(i: nat, n: nat, j: nat)
    requires j < n
    decreases j
    ensures Decode(i, n)[j] == 1 <==> Shift(i, j) % 2 == 1
    ensures Decode(i, n)[j] == -1 <==> Shift(i, j) % 2 == 0
  {
    if j > 0 {
      DecodeBit(i / 2, n - 1, j - 1);
    }
  }

  /** The rest of the decoding after k halvings is the decoding of the shifted
      value, which is what the loop's running `temp` holds. */
  lemma {:induction false} DecodeSuffix(i: nat, n: nat, k: nat)
    requires k <= n
    decreases k
    ensures Decode(i, n)[k..] == Decode(Shift(i, k), n - k)
  {
    if k > 0 {
      DecodeSuffix(i / 2, n - 1, k - 1);
      assert Decode(i, n)[k..] == Decode(i / 2, n - 1)[k - 1..];
    }
  }

  /** Candidates stay below 2^n. */
  lemma {:induction false} EncodeBound(a: seq<int>)
    ensures Encode(a) < Pow2(|a|)
  {
    if a != [] {
      EncodeBound(a[1..]);
    }
  }

  /** Every complete assignment is the decoding of its own candidate number. */
  lemma {:induction false} DecodeEncode(a: seq<int>)
    requires Complete(a)
    ensures Decode(Encode(a), |a|) == a
  {
    if a != [] {
      var t := a[1..];
      assert Complete(t) by {
        forall k | 0 <= k < |t| ensures t[k] == 1 || t[k] == -1 { assert t[k] == a[k + 1]; }
      }
      DecodeEncode(t);
      var i := Encode(a);
      assert i % 2 == (if a[0] > 0 then 1 else 0) && i / 2 == Encode(t);
      assert a == [a[0]] + t;
    }
  }

  /** Every candidate below 2^n is the number of its own decoding. */
  lemma {:induction false} EncodeDecode(i: nat, n: nat)
    requires i < Pow2(n)
    ensures Encode(Decode(i, n)) == i
  {
    if n > 0 {
      EncodeDecode(i / 2, n - 1);
      assert Decode(i, n)[1..] == Decode(i / 2, n - 1);
    }
  }

  /** Counting through 0 .. 2^n - 1 meets every complete assignment of n cells. */
  lemma EveryAssignmentDecoded(a: seq<int>)
    requires Complete(a)
    ensures Encode(a) < Pow2(|a|) && Decode(Encode(a), |a|) == a
  {
    EncodeBound(a);
    DecodeEncode(a);
  }

  // ---------------------------------------------------------------------------
  // Backtracking: the depth-first search tree
  // ---------------------------------------------------------------------------

  /** w completes prefix: it has one entry per cell, starts with prefix and
      sets every later cell to a trap or a gem. */
  predicate Extends(p: Puzzle, prefix: seq<int>, w: seq<int>) {
    |w| == p.Size() && |prefix| <= |w| && w[..|prefix|] == prefix && Complete(w[|prefix|..])
  }

  /** What `backtrack(pos)` finds from a board whose first |prefix| cells are
      set: at the last cell the validity check decides; elsewhere a trap is
      tried first, then a gem. */
  function FirstCompletion(p: Puzzle, prefix: seq<int>): Option<seq<int>>
    requires |prefix| <= p.Size()
    decreases p.Size() - |prefix|
  {
    if |prefix| == p.Size() then
      (if IsValidAssignment(p, prefix) then Some(prefix) else None)
    else
      var withTrap := FirstCompletion(p, prefix + [1]);
      if withTrap.Some? then withTrap else FirstCompletion(p, prefix + [-1])
  }

  lemma ExtendsStep(p: Puzzle, prefix: seq<int>, x: int, w: seq<int>)
    requires |prefix| < p.Size() && (x == 1 || x == -1)
    requires Extends(p, prefix + [x], w)
    ensures Extends(p, prefix, w)
  {
    var n := |prefix|;
    assert w[..n] == w[..n + 1][..n];
    forall k | 0 <= k < |w[n..]| ensures w[n..][k] == 1 || w[n..][k] == -1 {
      if k > 0 { assert w[n..][k] == w[n + 1..][k - 1]; }
    }
  }

  /** What the search returns is a valid completion of its prefix. */
  lemma {:induction false} FirstCompletionSound(p: Puzzle, prefix: seq<int>)
    requires |prefix| <= p.Size()
    decreases p.Size() - |prefix|
    ensures FirstCompletion(p, prefix).Some? ==>
      Extends(p, prefix, FirstCompletion(p, prefix).value) && Satisfies(p, FirstCompletion(p, prefix).value)
  {
    if |prefix| < p.Size() {
      FirstCompletionSound(p, prefix + [1]);
      FirstCompletionSound(p, prefix + [-1]);
      if FirstCompletion(p, prefix + [1]).Some? {
        ExtendsStep(p, prefix, 1, FirstCompletion(p, prefix + [1]).value);
      } else if FirstCompletion(p, prefix + [-1]).Some? {
        ExtendsStep(p, prefix, -1, FirstCompletion(p, prefix + [-1]).value);
      }
    } else {
      assert prefix[..|prefix|] == prefix;
    }
  }

  /** A completion of prefix is a completion of prefix + [w[|prefix|]]. */
  lemma ExtendsSplit(p: Puzzle, prefix: seq<int>, w: seq<int>)
    requires Extends(p, prefix, w) && |prefix| < p.Size()
    ensures w[|prefix|] == 1 || w[|prefix|] == -1
    ensures Extends(p, prefix + [w[|prefix|]], w)
  {
    var n := |prefix|;
    assert w[n..][0] == w[n];
    assert w[..n + 1] == w[..n] + [w[n]];
    var rest := w[n + 1..];
    forall k | 0 <= k < |rest| ensures rest[k] == 1 || rest[k] == -1 {
      assert rest[k] == w[n..][k + 1];
    }
  }

  /** The search reports failure only when no completion of the prefix is valid. */
  lemma {:induction false} FirstCompletionComplete(p: Puzzle, prefix: seq<int>)
    requires |prefix| <= p.Size()
    decreases p.Size() - |prefix|
    ensures FirstCompletion(p, prefix).None? <==>
      forall w :: Extends(p, prefix, w) ==> !Satisfies(p, w)
  {
    if |prefix| < p.Size() {
      FirstCompletionComplete(p, prefix + [1]);
      FirstCompletionComplete(p, prefix + [-1]);
      FirstCompletionSound(p, prefix);
      if FirstCompletion(p, prefix).None? {
        forall w | Extends(p, prefix, w) ensures !Satisfies(p, w) {
          ExtendsSplit(p, prefix, w);
        }
      }
    } else {
      forall w | Extends(p, prefix, w) ensures w == prefix {
        assert w == w[..|prefix|];
      }
      assert Extends(p, prefix, prefix) by { assert prefix[..|prefix|] == prefix; }
    }
  }

  /** u comes before v in the search order: at the first cell where they differ
      u has a trap and v a gem. */
  predicate TrapFirstBefore(u: seq<int>, v: seq<int>) {
    exists d :: 0 <= d < |u| && d < |v| && u[..d] == v[..d] && u[d] == 1 && v[d] == -1
  }

  /** No valid completion of prefix comes before the one the search returns. */
  lemma {:induction false} FirstCompletionFirst(p: Puzzle, prefix: seq<int>, w: seq<int>)
    requires |prefix| <= p.Size()
    requires FirstCompletion(p, prefix).Some?
    requires Extends(p, prefix, w) && Satisfies(p, w)
    decreases p.Size() - |prefix|
    ensures !TrapFirstBefore(w, FirstCompletion(p, prefix).value)
  {
    var v := FirstCompletion(p, prefix).value;
    var n := |prefix|;
    FirstCompletionSound(p, prefix);
    if n < p.Size() {
      ExtendsSplit(p, prefix, w);
      var next := prefix + [w[n]];
      FirstCompletionComplete(p, next);
      if w[n] == 1 || FirstCompletion(p, prefix + [1]).None? {
        FirstCompletionFirst(p, next, w);
      } else {
        // w takes the gem branch, v the trap branch: they part at cell n.
        FirstCompletionSound(p, prefix + [1]);
        assert v[n] == 1 by { assert v[..n + 1][n] == v[n]; }
        forall d | 0 <= d < |w| && d < |v| && w[..d] == v[..d] ensures !(w[d] == 1 && v[d] == -1) {
          if d < n {
            assert w[d] == w[..n][d] && v[d] == v[..n][d];
          }
        }
      }
    } else {
      forall d | 0 <= d < |w| && d < |v| && w[..d] == v[..d] ensures !(w[d] == 1 && v[d] == -1) {
        assert w[d] == w[..n][d] && v[d] == v[..n][d];
      }
    }
  }
}
