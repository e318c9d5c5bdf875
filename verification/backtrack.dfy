/** `_backtrack` (attacks/pseudoprimes/miller_rabin.py, lines 34-51): a
    depth-first search for one residue per base, each taken from that base's
    admissible set, such that the congruences collected so far stay solvable.
    The lists `rems` and `mods` are shared with the caller and mutated in place,
    so they are objects here. */
module Backtracking {
  import opened Arith
  import opened Gcds
  import opened ChineseRemainder
  import opened Lists

  /** The moduli `4*A[i]`, `4*A[i+1]`, ... that the search appends from level `i` on. */
  function Moduli(A: seq<int>, i: nat): (r: seq<int>)
    requires i <= |A|
    ensures |r| == |A| - i
    ensures forall j :: 0 <= j < |r| ==> r[j] == 4 * A[i + j]
    decreases |A| - i
  {
    if i == |A| then [] else [4 * A[i]] + Moduli(A, i + 1)
  }

  /** `c` picks one residue from each of `S[i..]`, and the congruences already
      collected together with `z ≡ c[j] (mod 4*A[i+j])` have a common solution. */
  ghost predicate Completes(S: seq<set<int>>, A: seq<int>, i: nat, rems: seq<int>, mods: seq<int>, c: seq<int>)
    requires |S| == |A| && i <= |S|
  {
    |c| == |S| - i &&
    (forall j :: 0 <= j < |c| ==> c[j] in S[i + j]) &&
    |rems| == |mods| &&
    Solvable(rems + c, mods + Moduli(A, i))
  }

  ghost predicate Completable(S: seq<set<int>>, A: seq<int>, i: nat, rems: seq<int>, mods: seq<int>)
    requires |S| == |A| && i <= |S|
  {
    exists c :: Completes(S, A, i, rems, mods, c)
  }

  /** `_backtrack(S, A, rems, mods, i)`. On success the lists are left extended by
      the chosen residues and moduli, and the result is the `crt` of the whole
      system with the `lcm` of its moduli; on failure the lists are as they were
      and no choice of residues completes the system. The caller guarantees that
      the system it passes at the last level is solvable (it has just checked it
      with `crt`), so the `crt` of line 36 does not raise. */
  method Backtrack(S: seq<set<int>>, A: seq<int>, rems: IntList, mods: IntList, i: nat)
    returns (res: Option<(int, int)>)
    requires rems != mods
    requires |S| == |A| && i <= |S| && AllPositive(A)
    requires |rems.items| == |mods.items| && AllPositive(mods.items)
    requires i < |S| || Solvable(rems.items, mods.items)
    modifies rems, mods
    ensures res.None? ==> rems.items == old(rems.items) && mods.items == old(mods.items)
    ensures res.None? ==> !Completable(S, A, i, old(rems.items), old(mods.items))
    ensures res.Some? ==> mods.items == old(mods.items) + Moduli(A, i)
    ensures res.Some? ==> exists c :: Completes(S, A, i, old(rems.items), old(mods.items), c) &&
                                      rems.items == old(rems.items) + c
    ensures res.Some? ==> AllPositive(mods.items) && |rems.items| == |mods.items|
    ensures res.Some? ==> Crt(rems.items, mods.items) == Some(res.value.0)
    ensures res.Some? ==> res.value.1 == Lcm(mods.items)
    decreases |S| - i
  {
    if i == |S| {
      assert rems.items + [] == rems.items && mods.items + Moduli(A, i) == mods.items;
      assert Completes(S, A, i, rems.items, mods.items, []);
      var z := Crt(rems.items, mods.items);
      return Some((z.value, Lcm(mods.items)));
    }
    ghost var rems0, mods0 := rems.items, mods.items;
    var m := 4 * A[i];
    mods.Append(m);
    var tried: set<int> := {};
    var remaining := S[i];
    // `for za in S[i]`: take untried members, in no particular order, until none is left
    while true
      invariant remaining <= S[i] && tried == S[i] - remaining
      invariant rems.items == rems0 && mods.items == mods0 + [m]
      invariant forall za :: za in tried ==> NoCompletionWith(S, A, i, rems0, mods0, za)
      decreases remaining
    {
      if za :| za in remaining {
        remaining := remaining - {za};
        tried := tried + {za};
        rems.Append(za);
        var c := Crt(rems.items, mods.items);
        if c.Some? {
          var r := Backtrack(S, A, rems, mods, i + 1);
          if r.Some? {
            ghost var c' :| Completes(S, A, i + 1, rems0 + [za], mods0 + [m], c') &&
                            rems.items == rems0 + [za] + c';
            CompletionExtends(S, A, i, rems0, mods0, za, c');
            assert mods.items == mods0 + Moduli(A, i) by {
              assert [m] + Moduli(A, i + 1) == Moduli(A, i);
            }
            return r;
          }
          NoCompletionBelow(S, A, i, rems0, mods0, za);
        } else {
          NoCompletionUnsolvable(S, A, i, rems0, mods0, za);
        }
        var _ := rems.Pop();
      } else {
        break;
      }
    }
    NoCompletionAtAll(S, A, i, rems0, mods0);
    var _ := mods.Pop();
    return None;
  }

  /** No completion from level `i` starts with the residue `za`. */
  ghost predicate NoCompletionWith(S: seq<set<int>>, A: seq<int>, i: nat, rems: seq<int>, mods: seq<int>, za: int)
    requires |S| == |A| && i < |S|
  {
    forall c :: Completes(S, A, i, rems, mods, c) ==> c[0] != za
  }

  /** The two views of a completion that starts with `za`: at level `i`, and at
      level `i + 1` once `za` and `4*A[i]` are appended to the lists. */
  lemma SplitCompletion(S: seq<set<int>>, A: seq<int>, i: nat, rems: seq<int>, mods: seq<int>, za: int, c: seq<int>)
    requires |S| == |A| && i < |S| && |rems| == |mods|
    requires |c| == |S| - i && c[0] == za
    ensures rems + c == (rems + [za]) + c[1..]
    ensures mods + Moduli(A, i) == (mods + [4 * A[i]]) + Moduli(A, i + 1)
    ensures Completes(S, A, i, rems, mods, c) <==>
              za in S[i] && Completes(S, A, i + 1, rems + [za], mods + [4 * A[i]], c[1..])
  {
    assert c == [za] + c[1..];
    assert Moduli(A, i) == [4 * A[i]] + Moduli(A, i + 1);
    if za in S[i] && Completes(S, A, i + 1, rems + [za], mods + [4 * A[i]], c[1..]) {
      forall j | 0 <= j < |c|
        ensures c[j] in S[i + j]
      {
        if j > 0 {
          assert c[j] == c[1..][j - 1];
        }
      }
    }
    if Completes(S, A, i, rems, mods, c) {
      forall j | 0 <= j < |c[1..]|
        ensures c[1..][j] in S[i + 1 + j]
      {
        assert c[1..][j] == c[j + 1];
      }
    }
  }

  /** A completion one level down, prefixed with `za`, completes this level. */
  lemma CompletionExtends(S: seq<set<int>>, A: seq<int>, i: nat, rems: seq<int>, mods: seq<int>, za: int, c': seq<int>)
    requires |S| == |A| && i < |S| && |rems| == |mods| && za in S[i]
    requires Completes(S, A, i + 1, rems + [za], mods + [4 * A[i]], c')
    ensures Completes(S, A, i, rems, mods, [za] + c')
    ensures rems + [za] + c' == rems + ([za] + c')
  {
    var c := [za] + c';
    assert c[1..] == c';
    SplitCompletion(S, A, i, rems, mods, za, c);
  }

  /** When the search below `za` fails, no completion starts with `za`. */
  lemma NoCompletionBelow(S: seq<set<int>>, A: seq<int>, i: nat, rems: seq<int>, mods: seq<int>, za: int)
    requires |S| == |A| && i < |S| && |rems| == |mods|
    requires !Completable(S, A, i + 1, rems + [za], mods + [4 * A[i]])
    ensures NoCompletionWith(S, A, i, rems, mods, za)
  {
    forall c | Completes(S, A, i, rems, mods, c)
      ensures c[0] != za
    {
      if c[0] == za {
        SplitCompletion(S, A, i, rems, mods, za, c);
      }
    }
  }

  /** When the congruences with `za` appended already contradict each other, no
      completion starts with `za`: more congruences cannot restore a solution. */
  lemma NoCompletionUnsolvable(S: seq<set<int>>, A: seq<int>, i: nat, rems: seq<int>, mods: seq<int>, za: int)
    requires |S| == |A| && i < |S| && |rems| == |mods|
    requires !Solvable(rems + [za], mods + [4 * A[i]])
    ensures NoCompletionWith(S, A, i, rems, mods, za)
  {
    forall c | Completes(S, A, i, rems, mods, c)
      ensures c[0] != za
    {
      if c[0] == za {
        SplitCompletion(S, A, i, rems, mods, za, c);
        SolvablePrefix(rems + [za], c[1..], mods + [4 * A[i]], Moduli(A, i + 1));
      }
    }
  }

  /** When every residue of `S[i]` has been ruled out, nothing completes level `i`. */
  lemma NoCompletionAtAll(S: seq<set<int>>, A: seq<int>, i: nat, rems: seq<int>, mods: seq<int>)
    requires |S| == |A| && i < |S|
    requires forall za :: za in S[i] ==> NoCompletionWith(S, A, i, rems, mods, za)
    ensures !Completable(S, A, i, rems, mods)
  {
    forall c | |c| == |S| - i
      ensures !Completes(S, A, i, rems, mods, c)
    {
      if c[0] in S[i] {
        assert NoCompletionWith(S, A, i, rems, mods, c[0]);
      }
    }
  }
}
