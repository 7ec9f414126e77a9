/** The secondary pass of the registry's ranking: a stable sort on the key
    "not logic result", which moves every record whose logic expression
    holds in front of every record whose expression does not, and keeps the
    primary-key order inside each of the two groups. The logic result of a
    record is a parameter `logic`; evaluating the expression is not part of
    this model. */
module Partition {
  import opened Text
  import opened Patients
  import opened Sorting

  /** The records of `s` whose logic result is `b`, in their order in `s`.
      This is `KeyGroup` under `NotLogicKey(logic)` (`SelectIsKeyGroup`); it
      is kept as its own filter on a `bool` so that the partition lemmas need
      not reason about the texts "0" and "1". */
  function Select(s: seq<Patient>, logic: Patient -> bool, b: bool): seq<Patient>
  {
    if s == [] then []
    else (if logic(s[0]) == b then [s[0]] else []) + Select(s[1..], logic, b)
  }

  /** The result of the secondary pass: the logic-true records, then the
      logic-false records, each group in its order in `s`. */
  function LogicFirst(s: seq<Patient>, logic: Patient -> bool): (r: seq<Patient>)
    ensures multiset(r) == multiset(s)
  {
    SelectSplit(s, logic);
    Select(s, logic, true) + Select(s, logic, false)
  }

  /** The key `not logic(p)` that the secondary sort compares, as text:
      False ("0") comes before True ("1"). */
  function NotLogicKey(logic: Patient -> bool): Patient -> string
  {
    p => if logic(p) then "0" else "1"
  }

  // ---------------------------------------------------------------------
  // Facts about Select
  // ---------------------------------------------------------------------

  lemma SelectCons(x: Patient, t: seq<Patient>, logic: Patient -> bool, b: bool)
    ensures Select([x] + t, logic, b) == (if logic(x) == b then [x] else []) + Select(t, logic, b)
  {
    assert ([x] + t)[1..] == t;
  }

  lemma {:induction false} SelectAppend(a: seq<Patient>, c: seq<Patient>, logic: Patient -> bool, b: bool)
    ensures Select(a + c, logic, b) == Select(a, logic, b) + Select(c, logic, b)
  {
    if a == [] {
      assert a + c == c;
    } else {
      SelectAppend(a[1..], c, logic, b);
      assert a + c == [a[0]] + (a[1..] + c);
      assert a == [a[0]] + a[1..];
      SelectCons(a[0], a[1..] + c, logic, b);
      SelectCons(a[0], a[1..], logic, b);
      var p := if logic(a[0]) == b then [a[0]] else [];
      var x, y := Select(a[1..], logic, b), Select(c, logic, b);
      assert p + (x + y) == (p + x) + y;
    }
  }

  /** Every selected record has logic result `b`. */
  lemma {:induction false} SelectLogic(s: seq<Patient>, logic: Patient -> bool, b: bool)
    ensures forall i :: 0 <= i < |Select(s, logic, b)| ==> logic(Select(s, logic, b)[i]) == b
  {
    if s != [] {
      SelectLogic(s[1..], logic, b);
      var p := if logic(s[0]) == b then [s[0]] else [];
      var t := Select(s[1..], logic, b);
      forall i | 0 <= i < |p + t|
        ensures logic((p + t)[i]) == b
      {
        if i >= |p| {
          assert (p + t)[i] == t[i - |p|];
        }
      }
    }
  }

  /** Selecting from records that all have logic result `b` keeps them all;
      selecting the other result keeps none. */
  lemma {:induction false} SelectUniform(s: seq<Patient>, logic: Patient -> bool, b: bool)
    requires forall i :: 0 <= i < |s| ==> logic(s[i]) == b
    ensures Select(s, logic, b) == s
    ensures Select(s, logic, !b) == []
  {
    if s != [] {
      SelectUniform(s[1..], logic, b);
      assert s == [s[0]] + s[1..];
    }
  }

  /** Each record occurs in the selection as often as in `s` when its logic
      result is `b`, and not at all otherwise. */
  lemma {:induction false} SelectCount(s: seq<Patient>, logic: Patient -> bool, b: bool, x: Patient)
    ensures multiset(Select(s, logic, b))[x] == if logic(x) == b then multiset(s)[x] else 0
  {
    if s != [] {
      SelectCount(s[1..], logic, b, x);
      assert s == [s[0]] + s[1..];
      assert multiset(s) == multiset{s[0]} + multiset(s[1..]);
    }
  }

  /** The two selections together hold exactly the records of `s`. */
  lemma SelectSplit(s: seq<Patient>, logic: Patient -> bool)
    ensures multiset(Select(s, logic, true)) + multiset(Select(s, logic, false)) == multiset(s)
  {
    forall x
      ensures (multiset(Select(s, logic, true)) + multiset(Select(s, logic, false)))[x] == multiset(s)[x]
    {
      SelectCount(s, logic, true, x);
      SelectCount(s, logic, false, x);
    }
  }

  /** Selection commutes with taking a key group: both keep a subsequence. */
  lemma {:induction false} SelectKeyGroup(s: seq<Patient>, logic: Patient -> bool, b: bool, key: Patient -> string, kv: string)
    ensures KeyGroup(Select(s, logic, b), key, kv) == Select(KeyGroup(s, key, kv), logic, b)
  {
    if s != [] {
      SelectKeyGroup(s[1..], logic, b, key, kv);
      var x := s[0];
      var px := if logic(x) == b then [x] else [];
      var kx := if key(x) == kv then [x] else [];
      KeyGroupAppend(px, Select(s[1..], logic, b), key, kv);
      SelectAppend(kx, KeyGroup(s[1..], key, kv), logic, b);
      assert KeyGroup(px, key, kv) == Select(kx, logic, b);
    }
  }

  /** A selection from a sorted sequence is sorted. */
  lemma {:induction false} SelectSorted(s: seq<Patient>, logic: Patient -> bool, b: bool, key: Patient -> string)
    requires Sorted(s, key)
    ensures Sorted(Select(s, logic, b), key)
  {
    if s != [] {
      SortedTail(s, key);
      SelectSorted(s[1..], logic, b, key);
      var t := Select(s[1..], logic, b);
      if logic(s[0]) == b {
        forall y | y in t
          ensures LexLe(key(s[0]), key(y))
        {
          assert y in multiset(t);
          SelectCount(s[1..], logic, b, y);
          assert y in multiset(s[1..]);
          SortedHeadIsLeast(s, key, y);
        }
        SortedCons(s[0], t, key);
      }
    }
  }

  // ---------------------------------------------------------------------
  // The secondary pass is the stable sort on `not logic`
  // ---------------------------------------------------------------------

  lemma KeyGroupOfUniform(s: seq<Patient>, key: Patient -> string, k: string, kv: string)
    requires forall i :: 0 <= i < |s| ==> key(s[i]) == k
    ensures KeyGroup(s, key, kv) == if k == kv then s else []
  {
    if k == kv {
      KeyGroupAll(s, key, kv);
    } else {
      KeyGroupAbsent(s, key, kv);
    }
  }

  /** Logic-true records come first, each group keeps the order of `s`, and
      no record is lost or added: the partition is a stable sort on
      `not logic`. */
  lemma LogicFirstIsStableSort(s: seq<Patient>, logic: Patient -> bool)
    ensures IsStableSortOf(LogicFirst(s, logic), s, NotLogicKey(logic))
  {
    var key := NotLogicKey(logic);
    var t, f := Select(s, logic, true), Select(s, logic, false);
    LogicFirstSorted(s, logic);
    SelectLogic(s, logic, true);
    SelectLogic(s, logic, false);
    forall kv
      ensures KeyGroup(t + f, key, kv) == KeyGroup(s, key, kv)
    {
      KeyGroupAppend(t, f, key, kv);
      KeyGroupOfUniform(t, key, "0", kv);
      KeyGroupOfUniform(f, key, "1", kv);
      SelectIsKeyGroup(s, logic, kv);
    }
  }

  /** The pass's result is ordered by the key `not logic`. */
  lemma LogicFirstSorted(s: seq<Patient>, logic: Patient -> bool)
    ensures Sorted(LogicFirst(s, logic), NotLogicKey(logic))
  {
    var key := NotLogicKey(logic);
    var t, f := Select(s, logic, true), Select(s, logic, false);
    var r := t + f;
    SelectLogic(s, logic, true);
    SelectLogic(s, logic, false);
    forall i, j | 0 <= i < j < |r|
      ensures LexLe(key(r[i]), key(r[j]))
    {
      assert key(r[i]) == "0" || key(r[i]) == "1";
      assert key(r[j]) == "0" || key(r[j]) == "1";
      assert i >= |t| ==> r[i] == f[i - |t|] && r[j] == f[j - |t|];
      assert "0"[1..] == [] && "1"[1..] == [];
    }
  }

  /** The records of `s` with `not logic` key `kv` are the logic-true ones
      for "0", the logic-false ones for "1", and none for any other text. */
  lemma {:induction false} SelectIsKeyGroup(s: seq<Patient>, logic: Patient -> bool, kv: string)
    ensures KeyGroup(s, NotLogicKey(logic), kv) ==
      if kv == "0" then Select(s, logic, true)
      else if kv == "1" then Select(s, logic, false)
      else []
  {
    if s != [] {
      SelectIsKeyGroup(s[1..], logic, kv);
    }
  }

  /** The secondary pass is `list.sort(key=not logic)`: the unique stable
      sort on that key. */
  lemma LogicFirstIsRanked(s: seq<Patient>, logic: Patient -> bool)
    ensures LogicFirst(s, logic) == Ranked(s, NotLogicKey(logic))
  {
    LogicFirstIsStableSort(s, logic);
    StableSortIsRanked(LogicFirst(s, logic), s, NotLogicKey(logic));
  }

  /** No logic-false record precedes a logic-true one. */
  predicate TrueBeforeFalse(r: seq<Patient>, logic: Patient -> bool)
  {
    forall i, j :: 0 <= i < j < |r| && logic(r[j]) ==> logic(r[i])
  }

  lemma LogicTrueFirst(s: seq<Patient>, logic: Patient -> bool)
    ensures TrueBeforeFalse(LogicFirst(s, logic), logic)
  {
    var t, f := Select(s, logic, true), Select(s, logic, false);
    var r := t + f;
    SelectLogic(s, logic, true);
    SelectLogic(s, logic, false);
    forall k | 0 <= k < |r|
      ensures logic(r[k]) <==> k < |t|
    {
      if k < |t| {
        assert r[k] == t[k];
      } else {
        assert r[k] == f[k - |t|];
      }
    }
  }

  /** Taking one logic group out of the pass's result gives that group of
      its input, in the input's order. */
  lemma SelectOfLogicFirst(s: seq<Patient>, logic: Patient -> bool, b: bool)
    ensures Select(LogicFirst(s, logic), logic, b) == Select(s, logic, b)
  {
    var t, f := Select(s, logic, true), Select(s, logic, false);
    SelectAppend(t, f, logic, b);
    SelectLogic(s, logic, true);
    SelectLogic(s, logic, false);
    SelectUniform(t, logic, true);
    SelectUniform(f, logic, false);
  }

  // ---------------------------------------------------------------------
  // The full ranking: primary sort, then the secondary pass
  // ---------------------------------------------------------------------

  /** After the primary sort and the secondary pass, the records whose logic
      result is `b` appear exactly as the primary sort would order them on
      their own: the pass keeps the primary-key order inside each group. */
  lemma GroupsKeepPrimaryOrder(s: seq<Patient>, key: Patient -> string, logic: Patient -> bool, b: bool)
    ensures Select(LogicFirst(Ranked(s, key), logic), logic, b) == Ranked(Select(s, logic, b), key)
  {
    var r := Ranked(s, key);
    RankedIsStableSort(s, key);
    SelectOfLogicFirst(r, logic, b);
    var x, y := Select(r, logic, b), Select(s, logic, b);
    SelectSorted(r, logic, b, key);
    forall p
      ensures multiset(x)[p] == multiset(y)[p]
    {
      SelectCount(r, logic, b, p);
      SelectCount(s, logic, b, p);
    }
    assert multiset(x) == multiset(y);
    forall kv
      ensures KeyGroup(x, key, kv) == KeyGroup(y, key, kv)
    {
      SelectKeyGroup(r, logic, b, key, kv);
      SelectKeyGroup(s, logic, b, key, kv);
      assert KeyGroup(r, key, kv) == KeyGroup(s, key, kv);
    }
    StableSortIsRanked(x, y, key);
  }

  /** The ranking shown by the sort menu holds every record once, puts the
      logic-true records first, and orders each group by the primary key. */
  lemma RankingProperties(s: seq<Patient>, key: Patient -> string, logic: Patient -> bool)
    ensures multiset(LogicFirst(Ranked(s, key), logic)) == multiset(s)
    ensures TrueBeforeFalse(LogicFirst(Ranked(s, key), logic), logic)
    ensures Sorted(Select(LogicFirst(Ranked(s, key), logic), logic, true), key)
    ensures Sorted(Select(LogicFirst(Ranked(s, key), logic), logic, false), key)
  {
    var r := Ranked(s, key);
    RankedIsStableSort(s, key);
    SelectSplit(r, logic);
    LogicTrueFirst(r, logic);
    SelectOfLogicFirst(r, logic, true);
    SelectOfLogicFirst(r, logic, false);
    SelectSorted(r, logic, true, key);
    SelectSorted(r, logic, false, key);
  }
}
