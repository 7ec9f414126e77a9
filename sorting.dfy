/** The two primary-key sorts of the registry, the exchange (bubble) sort and
    the merge sort, both ordering records by `SortKeyOf` under Python's string
    order. Both are proved to return the one stable sorted permutation of
    their input, `Ranked`, so they agree on every input. */
module Sorting {
  import opened Text
  import opened Patients

  // ---------------------------------------------------------------------
  // Specification: sorted, permutation, stable
  // ---------------------------------------------------------------------

  /** Non-decreasing under `key`, compared as text. */
  predicate Sorted(s: seq<Patient>, key: Patient -> string)
  {
    forall i, j :: 0 <= i < j < |s| ==> LexLe(key(s[i]), key(s[j]))
  }

  /** The records of `s` whose key is `kv`, in their order in `s`. */
  function KeyGroup(s: seq<Patient>, key: Patient -> string, kv: string): seq<Patient>
  {
    if s == [] then []
    else (if key(s[0]) == kv then [s[0]] else []) + KeyGroup(s[1..], key, kv)
  }

  /** Records with equal keys appear in the same relative order in `a` and
      `b`: the stability condition. */
  ghost predicate SameKeyGroups(a: seq<Patient>, b: seq<Patient>, key: Patient -> string)
  {
    forall kv :: KeyGroup(a, key, kv) == KeyGroup(b, key, kv)
  }

  /** `r` is a stable sort of `s` under `key`. */
  ghost predicate IsStableSortOf(r: seq<Patient>, s: seq<Patient>, key: Patient -> string)
  {
    Sorted(r, key) && multiset(r) == multiset(s) && SameKeyGroups(r, s, key)
  }

  lemma {:induction false} KeyGroupAppend(a: seq<Patient>, b: seq<Patient>, key: Patient -> string, kv: string)
    ensures KeyGroup(a + b, key, kv) == KeyGroup(a, key, kv) + KeyGroup(b, key, kv)
  {
    if a == [] {
      assert a + b == b;
    } else {
      KeyGroupAppend(a[1..], b, key, kv);
      assert a + b == [a[0]] + (a[1..] + b);
      assert a == [a[0]] + a[1..];
      KeyGroupCons(a[0], a[1..] + b, key, kv);
      KeyGroupCons(a[0], a[1..], key, kv);
      var h, x, y := (if key(a[0]) == kv then [a[0]] else []), KeyGroup(a[1..], key, kv), KeyGroup(b, key, kv);
      assert h + (x + y) == (h + x) + y;
    }
  }

  lemma KeyGroupCons(x: Patient, t: seq<Patient>, key: Patient -> string, kv: string)
    ensures KeyGroup([x] + t, key, kv) == (if key(x) == kv then [x] else []) + KeyGroup(t, key, kv)
  {
    assert ([x] + t)[1..] == t;
  }

  lemma {:induction false} KeyGroupAbsent(s: seq<Patient>, key: Patient -> string, kv: string)
    requires forall i :: 0 <= i < |s| ==> key(s[i]) != kv
    ensures KeyGroup(s, key, kv) == []
  {
    if s != [] {
      KeyGroupAbsent(s[1..], key, kv);
    }
  }

  lemma {:induction false} KeyGroupAll(s: seq<Patient>, key: Patient -> string, kv: string)
    requires forall i :: 0 <= i < |s| ==> key(s[i]) == kv
    ensures KeyGroup(s, key, kv) == s
  {
    if s != [] {
      KeyGroupAll(s[1..], key, kv);
      assert s == [s[0]] + s[1..];
    }
  }

  /** A sorted sequence holds no record whose key is strictly below its head. */
  lemma NoKeyBelowHead(s: seq<Patient>, key: Patient -> string, kv: string)
    requires Sorted(s, key) && s != [] && LexLess(kv, key(s[0]))
    ensures KeyGroup(s, key, kv) == []
  {
    forall i | 0 <= i < |s|
      ensures key(s[i]) != kv
    {
      LexLeRefl(key(s[0]));
      LexLeAntisym(kv, key(s[0]));
    }
    KeyGroupAbsent(s, key, kv);
  }

  lemma SortedCons(x: Patient, t: seq<Patient>, key: Patient -> string)
    requires Sorted(t, key)
    requires forall y :: y in t ==> LexLe(key(x), key(y))
    ensures Sorted([x] + t, key)
  {
    var s := [x] + t;
    forall i, j | 0 <= i < j < |s|
      ensures LexLe(key(s[i]), key(s[j]))
    {
      if i == 0 {
        assert s[j] == t[j - 1] && s[j] in t;
      } else {
        assert s[i] == t[i - 1] && s[j] == t[j - 1];
      }
    }
  }

  /** The head of a sorted sequence is at or below every element of it. */
  lemma SortedHeadIsLeast(s: seq<Patient>, key: Patient -> string, y: Patient)
    requires Sorted(s, key) && s != [] && y in s
    ensures LexLe(key(s[0]), key(y))
  {
    var i :| 0 <= i < |s| && s[i] == y;
    LexLeRefl(key(s[0]));
  }

  lemma SortedTail(s: seq<Patient>, key: Patient -> string)
    requires Sorted(s, key) && s != []
    ensures Sorted(s[1..], key)
  {
    forall i, j | 0 <= i < j < |s| - 1
      ensures LexLe(key(s[1..][i]), key(s[1..][j]))
    {
      assert s[1..][i] == s[i + 1] && s[1..][j] == s[j + 1];
    }
  }

  /** Two sorted permutations with the same key groups start with the same
      record: both heads carry the least key, and the first record of that
      key group is the same in both. */
  lemma SameHeads(a: seq<Patient>, b: seq<Patient>, key: Patient -> string)
    requires a != [] && b != []
    requires Sorted(a, key) && Sorted(b, key)
    requires multiset(a) == multiset(b)
    requires SameKeyGroups(a, b, key)
    ensures a[0] == b[0]
  {
    assert b[0] in multiset(a) && a[0] in multiset(b);
    SortedHeadIsLeast(a, key, b[0]);
    SortedHeadIsLeast(b, key, a[0]);
    var ka := key(a[0]);
    LexLeAntisym(ka, key(b[0]));
    assert KeyGroup(a, key, ka) == KeyGroup(b, key, ka);
    assert KeyGroup(a, key, ka)[0] == a[0];
    assert KeyGroup(b, key, ka)[0] == b[0];
  }

  /** Dropping the same head from both sides keeps the key groups equal. */
  lemma SameTailGroups(a: seq<Patient>, b: seq<Patient>, key: Patient -> string)
    requires a != [] && b != [] && a[0] == b[0]
    requires SameKeyGroups(a, b, key)
    ensures SameKeyGroups(a[1..], b[1..], key)
  {
    forall kv
      ensures KeyGroup(a[1..], key, kv) == KeyGroup(b[1..], key, kv)
    {
      var p := if key(a[0]) == kv then [a[0]] else [];
      assert KeyGroup(a, key, kv) == p + KeyGroup(a[1..], key, kv);
      assert KeyGroup(b, key, kv) == p + KeyGroup(b[1..], key, kv);
      assert KeyGroup(a[1..], key, kv) == (p + KeyGroup(a[1..], key, kv))[|p|..];
      assert KeyGroup(b[1..], key, kv) == (p + KeyGroup(b[1..], key, kv))[|p|..];
    }
  }

  lemma SameTailMultiset(a: seq<Patient>, b: seq<Patient>)
    requires a != [] && b != [] && a[0] == b[0]
    requires multiset(a) == multiset(b)
    ensures multiset(a[1..]) == multiset(b[1..])
  {
    assert a == [a[0]] + a[1..];
    assert b == [b[0]] + b[1..];
    assert multiset(a[1..]) == multiset(a) - multiset{a[0]};
    assert multiset(b[1..]) == multiset(b) - multiset{a[0]};
  }

  /** Sorted, same multiset and same key groups leave no freedom: a stable
      sort has exactly one possible result. */
  lemma {:induction false} StableSortUnique(a: seq<Patient>, b: seq<Patient>, key: Patient -> string)
    requires Sorted(a, key) && Sorted(b, key)
    requires multiset(a) == multiset(b)
    requires SameKeyGroups(a, b, key)
    ensures a == b
    decreases |a|
  {
    assert |a| == |multiset(a)| == |multiset(b)| == |b|;
    if a != [] {
      SameHeads(a, b, key);
      SameTailGroups(a, b, key);
      SameTailMultiset(a, b);
      SortedTail(a, key);
      SortedTail(b, key);
      StableSortUnique(a[1..], b[1..], key);
      assert a == [a[0]] + a[1..] && b == [b[0]] + b[1..];
    }
  }

  // ---------------------------------------------------------------------
  // Reference definition: stable insertion sort
  // ---------------------------------------------------------------------

  /** Places `x` after every record whose key is at or below its own. */
  function Insert(x: Patient, s: seq<Patient>, key: Patient -> string): seq<Patient>
  {
    if s == [] then [x]
    else if LexLe(key(s[0]), key(x)) then [s[0]] + Insert(x, s[1..], key)
    else [x] + s
  }

  /** Inserting adds `x` and nothing else. */
  lemma {:induction false} InsertPermutation(x: Patient, s: seq<Patient>, key: Patient -> string)
    ensures multiset(Insert(x, s, key)) == multiset(s) + multiset{x}
  {
    if s != [] && LexLe(key(s[0]), key(x)) {
      InsertPermutation(x, s[1..], key);
      assert s == [s[0]] + s[1..];
      assert multiset(s) == multiset{s[0]} + multiset(s[1..]);
    }
  }

  /** The stable sort of `s` under `key`: insert the records one by one. */
  function Ranked(s: seq<Patient>, key: Patient -> string): seq<Patient>
  {
    if s == [] then [] else Insert(s[|s| - 1], Ranked(s[..|s| - 1], key), key)
  }

  lemma {:induction false} InsertSorted(x: Patient, s: seq<Patient>, key: Patient -> string)
    requires Sorted(s, key)
    ensures Sorted(Insert(x, s, key), key)
  {
    var kx := key(x);
    if s == [] {
    } else if LexLe(key(s[0]), kx) {
      SortedTail(s, key);
      InsertSorted(x, s[1..], key);
      InsertPermutation(x, s[1..], key);
      var t := Insert(x, s[1..], key);
      forall y | y in t
        ensures LexLe(key(s[0]), key(y))
      {
        assert y in multiset(t);
        if y != x {
          assert y in s[1..];
          SortedHeadIsLeast(s, key, y);
        }
      }
      SortedCons(s[0], t, key);
    } else {
      LexLeTotal(kx, key(s[0]));
      forall y | y in s
        ensures LexLe(kx, key(y))
      {
        SortedHeadIsLeast(s, key, y);
        LexLeTrans(kx, key(s[0]), key(y));
      }
      SortedCons(x, s, key);
    }
  }

  lemma {:induction false} InsertGroups(x: Patient, s: seq<Patient>, key: Patient -> string, kv: string)
    requires Sorted(s, key)
    ensures KeyGroup(Insert(x, s, key), key, kv) == KeyGroup(s, key, kv) + KeyGroup([x], key, kv)
  {
    if s == [] {
      assert Insert(x, s, key) == [x];
    } else if LexLe(key(s[0]), key(x)) {
      SortedTail(s, key);
      InsertGroups(x, s[1..], key, kv);
      assert Insert(x, s, key) == [s[0]] + Insert(x, s[1..], key);
      assert s == [s[0]] + s[1..];
      GroupsTakeFirst(s[0], Insert(x, s[1..], key), s[1..], [x], key, kv);
    } else {
      assert Insert(x, s, key) == [x] + s;
      if key(x) == kv {
        LexLeTotal(key(x), key(s[0]));
        NoKeyBelowHead(s, key, kv);
      }
      assert [x] + [] == [x];
      GroupsTakeSecond(x, s, s, [], key, kv);
    }
  }

  /** `Ranked` is a stable sort. */
  lemma {:induction false} RankedIsStableSort(s: seq<Patient>, key: Patient -> string)
    ensures IsStableSortOf(Ranked(s, key), s, key)
    decreases |s|
  {
    if s != [] {
      var init, x := s[..|s| - 1], s[|s| - 1];
      RankedIsStableSort(init, key);
      InsertSorted(x, Ranked(init, key), key);
      InsertPermutation(x, Ranked(init, key), key);
      assert s == init + [x];
      forall kv
        ensures KeyGroup(Ranked(s, key), key, kv) == KeyGroup(s, key, kv)
      {
        InsertGroups(x, Ranked(init, key), key, kv);
        KeyGroupAppend(init, [x], key, kv);
      }
    }
  }

  /** Any stable sort of `s` is `Ranked(s)`. */
  lemma StableSortIsRanked(r: seq<Patient>, s: seq<Patient>, key: Patient -> string)
    requires IsStableSortOf(r, s, key)
    ensures r == Ranked(s, key)
  {
    RankedIsStableSort(s, key);
    StableSortUnique(r, Ranked(s, key), key);
  }

  /** Sorting an already sorted sequence changes nothing; in particular the
      empty and one-element sequences are returned as they are. */
  lemma RankedOfSorted(s: seq<Patient>, key: Patient -> string)
    requires Sorted(s, key)
    ensures Ranked(s, key) == s
  {
    StableSortIsRanked(s, s, key);
  }

  // ---------------------------------------------------------------------
  // BubbleSort.sort
  // ---------------------------------------------------------------------

  /** Every element at index `m` or later is at or above everything before
      it: the last `|s| - m` places hold their final records. */
  predicate SettledFrom(s: seq<Patient>, m: int, key: Patient -> string)
  {
    forall p, q :: 0 <= p < q < |s| && m <= q ==> LexLe(key(s[p]), key(s[q]))
  }

  lemma SwapPairGroups(x: Patient, y: Patient, back: seq<Patient>, key: Patient -> string, kv: string)
    requires key(x) != key(y)
    ensures KeyGroup([x] + ([y] + back), key, kv) == KeyGroup([y] + ([x] + back), key, kv)
  {
    var px := if key(x) == kv then [x] else [];
    var py := if key(y) == kv then [y] else [];
    KeyGroupCons(x, [y] + back, key, kv);
    KeyGroupCons(y, back, key, kv);
    KeyGroupCons(y, [x] + back, key, kv);
    KeyGroupCons(x, back, key, kv);
    assert px == [] || py == [];
    assert px + (py + KeyGroup(back, key, kv)) == py + (px + KeyGroup(back, key, kv));
  }

  /** Exchanging two neighbours with different keys keeps every key group. */
  lemma SwapKeepsGroups(s: seq<Patient>, j: int, key: Patient -> string)
    requires 0 <= j < |s| - 1
    requires key(s[j]) != key(s[j + 1])
    ensures SameKeyGroups(s[j := s[j + 1]][j + 1 := s[j]], s, key)
  {
    var x, y := s[j], s[j + 1];
    var t := s[j := y][j + 1 := x];
    var front, back := s[..j], s[j + 2..];
    var u, v := [x] + ([y] + back), [y] + ([x] + back);
    assert s == front + u;
    assert t == front + v;
    forall kv
      ensures KeyGroup(t, key, kv) == KeyGroup(s, key, kv)
    {
      SwapPairGroups(x, y, back, key, kv);
      KeyGroupAppend(front, u, key, kv);
      KeyGroupAppend(front, v, key, kv);
    }
  }

  /** One comparison of the inner pass: exchange `s[j]` and `s[j + 1]` when
      the left key is strictly greater. */
  function BubbleStep(s: seq<Patient>, j: int, key: Patient -> string): (r: seq<Patient>)
    requires 0 <= j < |s| - 1
    ensures |r| == |s| && multiset(r) == multiset(s)
    ensures LexLe(key(r[j]), key(r[j + 1]))
    ensures r[..j] == s[..j] && r[j + 2..] == s[j + 2..]
  {
    LexLessIffNotLe(key(s[j]), key(s[j + 1]));
    if LexLess(key(s[j + 1]), key(s[j])) then s[j := s[j + 1]][j + 1 := s[j]] else s
  }

  lemma SameKeyGroupsTrans(a: seq<Patient>, b: seq<Patient>, c: seq<Patient>, key: Patient -> string)
    requires SameKeyGroups(a, b, key) && SameKeyGroups(b, c, key)
    ensures SameKeyGroups(a, c, key)
  {
    forall kv
      ensures KeyGroup(a, key, kv) == KeyGroup(c, key, kv)
    {
      assert KeyGroup(a, key, kv) == KeyGroup(b, key, kv);
    }
  }

  /** A comparison keeps the records, their key groups and the settled
      suffix, and leaves at `j + 1` a key at or above all keys before it. */
  lemma BubbleStepKeeps(s: seq<Patient>, input: seq<Patient>, j: int, m: int, key: Patient -> string)
    requires 0 <= j && j + 1 < m <= |s|
    requires multiset(s) == multiset(input) && SameKeyGroups(s, input, key)
    requires SettledFrom(s, m, key)
    requires forall p :: 0 <= p < j ==> LexLe(key(s[p]), key(s[j]))
    ensures multiset(BubbleStep(s, j, key)) == multiset(input)
    ensures SameKeyGroups(BubbleStep(s, j, key), input, key)
    ensures SettledFrom(BubbleStep(s, j, key), m, key)
    ensures forall p :: 0 <= p <= j ==>
      LexLe(key(BubbleStep(s, j, key)[p]), key(BubbleStep(s, j, key)[j + 1]))
  {
    var t := BubbleStep(s, j, key);
    var left, right := key(s[j]), key(s[j + 1]);
    LexLessIffNotLe(left, right);
    if LexLess(right, left) {
      SwapKeepsGroups(s, j, key);
      SameKeyGroupsTrans(t, s, input, key);
      assert t[j] == s[j + 1] && t[j + 1] == s[j];
      forall p, q | 0 <= p < q < |t| && m <= q
        ensures LexLe(key(t[p]), key(t[q]))
      {
        assert t[q] == s[q];
        if p == j {
          assert LexLe(key(s[j + 1]), key(s[q]));
        } else if p == j + 1 {
          assert LexLe(key(s[j]), key(s[q]));
        } else {
          assert t[p] == s[p];
        }
      }
    } else {
      LexLeRefl(right);
    }
    forall p | 0 <= p <= j
      ensures LexLe(key(t[p]), key(t[j + 1]))
    {
      if p < j {
        assert t[p] == s[p];
        LexLeTrans(key(s[p]), left, key(t[j + 1]));
      } else {
        LexLeRefl(left);
      }
    }
  }

  /** When the inner pass ends at `m - 1`, the record there is at or above
      everything before it, so one more place is settled. */
  lemma PassSettles(s: seq<Patient>, m: int, key: Patient -> string)
    requires 1 <= m <= |s|
    requires SettledFrom(s, m, key)
    requires forall p :: 0 <= p < m - 1 ==> LexLe(key(s[p]), key(s[m - 1]))
    ensures SettledFrom(s, m - 1, key)
  {
  }

  /** In-place exchange sort: pass `i` carries the largest key of the first
      `n - i` records to place `n - i - 1`, swapping neighbours only when the
      left key is strictly greater. */
  method BubbleSort(a: array<Patient>, key: Patient -> string)
    modifies a
    ensures IsStableSortOf(a[..], old(a[..]), key)
    ensures a[..] == Ranked(old(a[..]), key)
  {
    ghost var input := a[..];
    var n := a.Length;
    for i := 0 to n
      invariant multiset(a[..]) == multiset(input)
      invariant SameKeyGroups(a[..], input, key)
      invariant SettledFrom(a[..], n - i, key)
    {
      BubblePass(a, n - i, input, key);
    }
    assert Sorted(a[..], key);
    StableSortIsRanked(a[..], input, key);
  }

  /** The first `j` comparisons of a pass, at positions `0 .. j - 1`. */
  function PassSteps(s: seq<Patient>, j: int, key: Patient -> string): (r: seq<Patient>)
    requires 0 <= j < |s|
    ensures |r| == |s|
    ensures r[j + 1..] == s[j + 1..]
  {
    if j == 0 then s else BubbleStep(PassSteps(s, j - 1, key), j - 1, key)
  }

  /** The first `j` comparisons of a pass keep the records, their key
      groups and the settled suffix, and leave the largest key of
      `s[..j + 1]` at `j`. */
  lemma {:induction false} PassStepsKeep(s: seq<Patient>, input: seq<Patient>, j: int, m: int, key: Patient -> string)
    requires 0 <= j < m <= |s|
    requires multiset(s) == multiset(input) && SameKeyGroups(s, input, key)
    requires SettledFrom(s, m, key)
    ensures multiset(PassSteps(s, j, key)) == multiset(input)
    ensures SameKeyGroups(PassSteps(s, j, key), input, key)
    ensures SettledFrom(PassSteps(s, j, key), m, key)
    ensures forall p :: 0 <= p < j ==> LexLe(key(PassSteps(s, j, key)[p]), key(PassSteps(s, j, key)[j]))
  {
    if j > 0 {
      var t := PassSteps(s, j - 1, key);
      PassStepsKeep(s, input, j - 1, m, key);
      BubbleStepKeeps(t, input, j - 1, m, key);
      assert PassSteps(s, j, key) == BubbleStep(t, j - 1, key);
    }
  }

  /** One pass of the inner loop over the unsettled prefix `a[..m]`: the
      comparisons at `0 .. m - 2`, in order. The records after the prefix
      stay where they are, and the pass ends with the prefix's largest key
      at `m - 1`, so one more place is settled. */
  method BubblePass(a: array<Patient>, m: int, ghost input: seq<Patient>, key: Patient -> string)
    requires 1 <= m <= a.Length
    requires multiset(a[..]) == multiset(input) && SameKeyGroups(a[..], input, key)
    requires SettledFrom(a[..], m, key)
    modifies a
    ensures a[..] == PassSteps(old(a[..]), m - 1, key)
    ensures a[m..] == old(a[m..])
    ensures multiset(a[..]) == multiset(input) && SameKeyGroups(a[..], input, key)
    ensures SettledFrom(a[..], m - 1, key)
  {
    ghost var start := a[..];
    for j := 0 to m - 1
      invariant a[..] == PassSteps(start, j, key)
    {
      ghost var before := a[..];
      if LexLess(key(a[j + 1]), key(a[j])) {
        a[j], a[j + 1] := a[j + 1], a[j];
      }
      assert a[..] == BubbleStep(before, j, key);
    }
    PassStepsKeep(start, input, m - 1, m, key);
    PassSettles(a[..], m, key);
  }

  // ---------------------------------------------------------------------
  // MergeSort.sort
  // ---------------------------------------------------------------------

  /** What `merge(left, right)` returns: repeatedly the smaller head, the
      left one on equal keys, then whatever remains. */
  function Merged(left: seq<Patient>, right: seq<Patient>, key: Patient -> string): (r: seq<Patient>)
    ensures |r| == |left| + |right|
    decreases |left| + |right|
  {
    if left == [] then right
    else if right == [] then left
    else if LexLe(key(left[0]), key(right[0])) then
      [left[0]] + Merged(left[1..], right, key)
    else
      [right[0]] + Merged(left, right[1..], key)
  }

  /** The merge neither loses nor invents a record. */
  lemma {:induction false} MergedPermutation(left: seq<Patient>, right: seq<Patient>, key: Patient -> string)
    ensures multiset(Merged(left, right, key)) == multiset(left) + multiset(right)
    decreases |left| + |right|
  {
    if left != [] && right != [] {
      MergedStep(left, right, key);
      if LexLe(key(left[0]), key(right[0])) {
        MergedPermutation(left[1..], right, key);
        assert left == [left[0]] + left[1..];
        ConsMultiset(left[0], Merged(left[1..], right, key), left[1..], right);
      } else {
        MergedPermutation(left, right[1..], key);
        assert right == [right[0]] + right[1..];
        ConsMultiset(right[0], Merged(left, right[1..], key), right[1..], left);
      }
    }
  }

  /** Putting `h` in front of either side of a multiset split. */
  lemma ConsMultiset(h: Patient, t: seq<Patient>, u: seq<Patient>, v: seq<Patient>)
    requires multiset(t) == multiset(u) + multiset(v)
    ensures multiset([h] + t) == multiset([h] + u) + multiset(v)
  {
  }

  lemma {:induction false} MergedSorted(left: seq<Patient>, right: seq<Patient>, key: Patient -> string)
    requires Sorted(left, key) && Sorted(right, key)
    ensures Sorted(Merged(left, right, key), key)
    decreases |left| + |right|
  {
    if left != [] && right != [] {
      var kl, kr := key(left[0]), key(right[0]);
      if LexLe(kl, kr) {
        MergedSorted(left[1..], right, key);
        MergedPermutation(left[1..], right, key);
        var t := Merged(left[1..], right, key);
        forall y | y in t
          ensures LexLe(kl, key(y))
        {
          assert y in multiset(t);
          if y in left[1..] {
            SortedHeadIsLeast(left, key, y);
          } else {
            SortedHeadIsLeast(right, key, y);
            LexLeTrans(kl, kr, key(y));
          }
        }
        SortedCons(left[0], t, key);
      } else {
        LexLeTotal(kl, kr);
        MergedSorted(left, right[1..], key);
        MergedPermutation(left, right[1..], key);
        var t := Merged(left, right[1..], key);
        forall y | y in t
          ensures LexLe(kr, key(y))
        {
          assert y in multiset(t);
          if y in left {
            SortedHeadIsLeast(left, key, y);
            LexLeTrans(kr, kl, key(y));
          } else {
            SortedHeadIsLeast(right, key, y);
          }
        }
        SortedCons(right[0], t, key);
      }
    }
  }

  /** On equal keys the merge takes the left record first: every key group
      of the result is the left group followed by the right group. */
  lemma {:induction false} MergedGroups(left: seq<Patient>, right: seq<Patient>, key: Patient -> string, kv: string)
    requires Sorted(left, key)
    ensures KeyGroup(Merged(left, right, key), key, kv) == KeyGroup(left, key, kv) + KeyGroup(right, key, kv)
    decreases |left| + |right|
  {
    if left == [] {
      assert KeyGroup(left, key, kv) == [];
    } else if right == [] {
      assert KeyGroup(right, key, kv) == [];
    } else if LexLe(key(left[0]), key(right[0])) {
      SortedTail(left, key);
      MergedGroups(left[1..], right, key, kv);
      MergedStep(left, right, key);
      assert left == [left[0]] + left[1..];
      GroupsTakeFirst(left[0], Merged(left[1..], right, key), left[1..], right, key, kv);
    } else {
      MergedGroups(left, right[1..], key, kv);
      MergedStep(left, right, key);
      assert right == [right[0]] + right[1..];
      if key(right[0]) == kv {
        LexLeTotal(key(left[0]), key(right[0]));
        NoKeyBelowHead(left, key, kv);
      }
      GroupsTakeSecond(right[0], Merged(left, right[1..], key), left, right[1..], key, kv);
    }
  }

  /** Putting `h` in front of a sequence whose key groups are those of
      `u` followed by `v` puts it in front of `u`. */
  lemma GroupsTakeFirst(h: Patient, t: seq<Patient>, u: seq<Patient>, v: seq<Patient>,
                        key: Patient -> string, kv: string)
    requires KeyGroup(t, key, kv) == KeyGroup(u, key, kv) + KeyGroup(v, key, kv)
    ensures KeyGroup([h] + t, key, kv) == KeyGroup([h] + u, key, kv) + KeyGroup(v, key, kv)
  {
    KeyGroupCons(h, t, key, kv);
    KeyGroupCons(h, u, key, kv);
    var p := if key(h) == kv then [h] else [];
    var x, y := KeyGroup(u, key, kv), KeyGroup(v, key, kv);
    assert p + (x + y) == (p + x) + y;
  }

  /** Putting `h` in front of such a sequence puts it in front of `v` when
      `u` holds no record with the key of `h`. */
  lemma GroupsTakeSecond(h: Patient, t: seq<Patient>, u: seq<Patient>, v: seq<Patient>,
                         key: Patient -> string, kv: string)
    requires KeyGroup(t, key, kv) == KeyGroup(u, key, kv) + KeyGroup(v, key, kv)
    requires key(h) == kv ==> KeyGroup(u, key, kv) == []
    ensures KeyGroup([h] + t, key, kv) == KeyGroup(u, key, kv) + KeyGroup([h] + v, key, kv)
  {
    KeyGroupCons(h, t, key, kv);
    KeyGroupCons(h, v, key, kv);
    var p := if key(h) == kv then [h] else [];
    var x, y := KeyGroup(u, key, kv), KeyGroup(v, key, kv);
    if key(h) == kv {
      assert p + (x + y) == x + (p + y);
    }
  }

  /** One step of `Merged` on two non-empty inputs. */
  lemma MergedStep(left: seq<Patient>, right: seq<Patient>, key: Patient -> string)
    requires left != [] && right != []
    ensures LexLe(key(left[0]), key(right[0])) ==>
      Merged(left, right, key) == [left[0]] + Merged(left[1..], right, key)
    ensures !LexLe(key(left[0]), key(right[0])) ==>
      Merged(left, right, key) == [right[0]] + Merged(left, right[1..], key)
  {
  }

  /** Appending the left head keeps the loop's invariant of `merge`. */
  lemma MergeTakesLeft(result: seq<Patient>, left: seq<Patient>, right: seq<Patient>, i: int, j: int,
                       key: Patient -> string)
    requires 0 <= i < |left| && 0 <= j < |right|
    requires LexLe(key(left[i]), key(right[j]))
    requires result + Merged(left[i..], right[j..], key) == Merged(left, right, key)
    ensures (result + [left[i]]) + Merged(left[i + 1..], right[j..], key) == Merged(left, right, key)
  {
    var rest := Merged(left[i + 1..], right[j..], key);
    MergedStep(left[i..], right[j..], key);
    assert left[i..][1..] == left[i + 1..];
    assert (result + [left[i]]) + rest == result + ([left[i]] + rest);
  }

  /** Appending the right head keeps the loop's invariant of `merge`. */
  lemma MergeTakesRight(result: seq<Patient>, left: seq<Patient>, right: seq<Patient>, i: int, j: int,
                        key: Patient -> string)
    requires 0 <= i < |left| && 0 <= j < |right|
    requires !LexLe(key(left[i]), key(right[j]))
    requires result + Merged(left[i..], right[j..], key) == Merged(left, right, key)
    ensures (result + [right[j]]) + Merged(left[i..], right[j + 1..], key) == Merged(left, right, key)
  {
    var rest := Merged(left[i..], right[j + 1..], key);
    MergedStep(left[i..], right[j..], key);
    assert right[j..][1..] == right[j + 1..];
    assert (result + [right[j]]) + rest == result + ([right[j]] + rest);
  }

  /** Once one input is used up, the rest of both inputs completes the
      merge. */
  lemma MergeFinishes(result: seq<Patient>, left: seq<Patient>, right: seq<Patient>, i: int, j: int,
                      key: Patient -> string)
    requires 0 <= i <= |left| && 0 <= j <= |right| && (i == |left| || j == |right|)
    requires result + Merged(left[i..], right[j..], key) == Merged(left, right, key)
    ensures (result + left[i..]) + right[j..] == Merged(left, right, key)
  {
    var rest := Merged(left[i..], right[j..], key);
    if i == |left| {
      assert left[i..] == [] && rest == right[j..];
    } else {
      assert right[j..] == [] && rest == left[i..];
    }
    assert result + rest == (result + left[i..]) + right[j..];
  }

  /** The nested `merge`: a loop that appends the smaller head to `result`,
      the left one on equal keys, then the rest of both inputs. */
  method Merge(left: seq<Patient>, right: seq<Patient>, key: Patient -> string) returns (result: seq<Patient>)
    ensures result == Merged(left, right, key)
  {
    result := [];
    var i, j := 0, 0;
    while i < |left| && j < |right|
      invariant 0 <= i <= |left| && 0 <= j <= |right|
      invariant result + Merged(left[i..], right[j..], key) == Merged(left, right, key)
      decreases |left| - i + |right| - j
    {
      if LexLe(key(left[i]), key(right[j])) {
        MergeTakesLeft(result, left, right, i, j, key);
        result := result + [left[i]];
        i := i + 1;
      } else {
        MergeTakesRight(result, left, right, i, j, key);
        result := result + [right[j]];
        j := j + 1;
      }
    }
    MergeFinishes(result, left, right, i, j, key);
    result := result + left[i..];
    result := result + right[j..];
  }

  /** The nested `recursive_sort`: sequences of length 0 or 1 come back as
      they are, longer ones are split at `len // 2`, both halves sorted and
      merged. */
  method RecursiveSort(arr: seq<Patient>, key: Patient -> string) returns (r: seq<Patient>)
    ensures IsStableSortOf(r, arr, key)
    ensures |arr| <= 1 ==> r == arr
    decreases |arr|
  {
    if |arr| <= 1 {
      return arr;
    }
    var mid := |arr| / 2;
    var left := RecursiveSort(arr[..mid], key);
    var right := RecursiveSort(arr[mid..], key);
    r := Merge(left, right, key);
    MergedSorted(left, right, key);
    MergedPermutation(left, right, key);
    assert arr == arr[..mid] + arr[mid..];
    forall kv
      ensures KeyGroup(r, key, kv) == KeyGroup(arr, key, kv)
    {
      MergedGroups(left, right, key, kv);
      KeyGroupAppend(arr[..mid], arr[mid..], key, kv);
    }
  }

  /** `MergeSort.sort(data, key)`: the same ordering as the exchange sort. */
  method MergeSort(data: seq<Patient>, key: Patient -> string) returns (r: seq<Patient>)
    ensures IsStableSortOf(r, data, key)
    ensures r == Ranked(data, key)
  {
    r := RecursiveSort(data, key);
    StableSortIsRanked(r, data, key);
  }
}
