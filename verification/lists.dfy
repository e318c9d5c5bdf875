/** Python lists of integers as attacks/pseudoprimes/miller_rabin.py uses them:
    the bases `A`, sorted in place by `generate_pseudoprime` (line 62), and the
    `rems` and `mods` lists that `_backtrack` extends and shrinks in place. */
module Lists {
  import opened Arith

  predicate Sorted(s: seq<int>)
  {
    forall j, k :: 0 <= j < k < |s| ==> s[j] <= s[k]
  }

  /** `x` placed into the sorted `s` before the first element not below it. */
  function Insert(s: seq<int>, x: int): (r: seq<int>)
    requires Sorted(s)
    ensures Sorted(r)
    ensures multiset(r) == multiset(s) + multiset{x}
    ensures r[0] == x || (|s| > 0 && r[0] == s[0])
  {
    if |s| == 0 || x <= s[0] then [x] + s
    else
      assert s == [s[0]] + s[1..];
      [s[0]] + Insert(s[1..], x)
  }

  /** Reordering keeps every element positive. */
  lemma PermutationKeepsPositive(s: seq<int>, t: seq<int>)
    requires multiset(s) == multiset(t) && AllPositive(s)
    ensures AllPositive(t)
  {
    forall j | 0 <= j < |t|
      ensures t[j] > 0
    {
      assert t[j] in multiset(t);
      assert t[j] in multiset(s);
      var i :| 0 <= i < |s| && s[i] == t[j];
    }
  }

  /** A Python list of integers, updated in place. */
  class IntList {
    var items: seq<int>

    constructor (xs: seq<int>)
      ensures items == xs
    {
      items := xs;
    }

    /** `list.append(x)`. */
    method Append(x: int)
      modifies this
      ensures items == old(items) + [x]
    {
      items := items + [x];
    }

    /** `list.pop()`: removes and returns the last element. */
    method Pop() returns (x: int)
      requires |items| > 0
      modifies this
      ensures items == old(items)[..|old(items)| - 1]
      ensures x == old(items)[|old(items)| - 1]
    {
      x := items[|items| - 1];
      items := items[..|items| - 1];
    }

    /** `list.sort()`: the same elements, in ascending order. */
    method Sort()
      modifies this
      ensures Sorted(items)
      ensures multiset(items) == multiset(old(items))
    {
      var sorted: seq<int> := [];
      for j := 0 to |items|
        invariant Sorted(sorted)
        invariant multiset(sorted) == multiset(items[..j])
      {
        assert items[..j + 1] == items[..j] + [items[j]];
        sorted := Insert(sorted, items[j]);
      }
      assert items[..|items|] == items;
      items := sorted;
    }
  }
}
