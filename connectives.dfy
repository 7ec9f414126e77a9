/** The rewriting of logical connectives in a record's logic expression
    before it is evaluated: each of the five symbols is replaced, one
    `str.replace` after another, by Python's operator for it. */
module Connectives {

  const AND: char := '∧'
  const OR: char := '∨'
  const NOT: char := '¬'
  const IMPLIES: char := '→'
  const IFF: char := '⇔'

  /** `s.replace(c, rep)` for a one-character pattern: every occurrence of
      `c` becomes `rep`, every other character stays. */
  function ReplaceChar(s: string, c: char, rep: string): (r: string)
  {
    if s == [] then []
    else (if s[0] == c then rep else [s[0]]) + ReplaceChar(s[1..], c, rep)
  }

  /** No occurrence of `c` survives unless `rep` brings it back, and no
      character appears that was neither in `s` nor in `rep`. */
  lemma {:induction false} ReplaceCharRemoves(s: string, c: char, rep: string, d: char)
    ensures d in ReplaceChar(s, c, rep) ==> (d in s && d != c) || d in rep
  {
    if s != [] {
      ReplaceCharRemoves(s[1..], c, rep, d);
      var head := if s[0] == c then rep else [s[0]];
      if d in ReplaceChar(s, c, rep) && d !in head {
        assert d in ReplaceChar(s[1..], c, rep);
      }
    }
  }

  /** A string without `c` comes back unchanged. */
  lemma {:induction false} ReplaceCharAbsent(s: string, c: char, rep: string)
    ensures c !in s ==> ReplaceChar(s, c, rep) == s
  {
    if s != [] {
      ReplaceCharAbsent(s[1..], c, rep);
      assert s == [s[0]] + s[1..];
    }
  }

  /** Replacing works piece by piece. */
  lemma {:induction false} ReplaceCharAppend(a: string, b: string, c: char, rep: string)
    ensures ReplaceChar(a + b, c, rep) == ReplaceChar(a, c, rep) + ReplaceChar(b, c, rep)
  {
    if a == [] {
      assert a + b == b;
    } else {
      ReplaceCharAppend(a[1..], b, c, rep);
      var head := if a[0] == c then rep else [a[0]];
      assert (a + b)[0] == a[0];
      assert (a + b)[1..] == a[1..] + b;
      var x, y := ReplaceChar(a[1..], c, rep), ReplaceChar(b, c, rep);
      assert head + (x + y) == (head + x) + y;
    }
  }

  /** The chain of replacements `evaluate_logic` applies. None of the five
      symbols survives it: each replacement removes its symbol, and every
      replacement text is plain ASCII, so no later step brings an earlier
      symbol back. */
  function Translate(s: string): (r: string)
    ensures AND !in r && OR !in r && NOT !in r && IMPLIES !in r && IFF !in r
  {
    var s1 := ReplaceChar(s, AND, "and");
    var s2 := ReplaceChar(s1, OR, "or");
    var s3 := ReplaceChar(s2, NOT, "not ");
    var s4 := ReplaceChar(s3, IMPLIES, "<=");
    ReplaceCharRemoves(s, AND, "and", AND);
    ReplaceCharRemoves(s1, OR, "or", AND);
    ReplaceCharRemoves(s1, OR, "or", OR);
    ReplaceCharRemoves(s2, NOT, "not ", AND);
    ReplaceCharRemoves(s2, NOT, "not ", OR);
    ReplaceCharRemoves(s2, NOT, "not ", NOT);
    ReplaceCharRemoves(s3, IMPLIES, "<=", AND);
    ReplaceCharRemoves(s3, IMPLIES, "<=", OR);
    ReplaceCharRemoves(s3, IMPLIES, "<=", NOT);
    ReplaceCharRemoves(s3, IMPLIES, "<=", IMPLIES);
    ReplaceCharRemoves(s4, IFF, "==", AND);
    ReplaceCharRemoves(s4, IFF, "==", OR);
    ReplaceCharRemoves(s4, IFF, "==", NOT);
    ReplaceCharRemoves(s4, IFF, "==", IMPLIES);
    ReplaceCharRemoves(s4, IFF, "==", IFF);
    ReplaceChar(s4, IFF, "==")
  }

  /** An expression already written with Python's operators is left as it
      is. */
  lemma TranslatePlain(s: string)
    requires AND !in s && OR !in s && NOT !in s && IMPLIES !in s && IFF !in s
    ensures Translate(s) == s
  {
    ReplaceCharAbsent(s, AND, "and");
    ReplaceCharAbsent(s, OR, "or");
    ReplaceCharAbsent(s, NOT, "not ");
    ReplaceCharAbsent(s, IMPLIES, "<=");
    ReplaceCharAbsent(s, IFF, "==");
  }

  /** Between two plain operands, the conjunction symbol becomes the word
      `and`, as in the add dialog's example `age > 50 ∧ score > 7`. */
  lemma TranslateConjunction(left: string, right: string)
    requires AND !in left && OR !in left && NOT !in left && IMPLIES !in left && IFF !in left
    requires AND !in right && OR !in right && NOT !in right && IMPLIES !in right && IFF !in right
    ensures Translate(left + [AND] + right) == left + "and" + right
  {
    var t := left + "and" + right;
    ReplaceCharAbsent(left, AND, "and");
    ReplaceCharAbsent(right, AND, "and");
    assert ReplaceChar([AND], AND, "and") == "and";
    ReplaceCharAppend(left + [AND], right, AND, "and");
    ReplaceCharAppend(left, [AND], AND, "and");
    assert ReplaceChar(left + [AND] + right, AND, "and") == t;
    assert OR !in t && NOT !in t && IMPLIES !in t && IFF !in t;
    TranslatePlainRest(t);
  }

  /** The last four replacements leave a string without their symbols
      alone. */
  lemma TranslatePlainRest(t: string)
    requires OR !in t && NOT !in t && IMPLIES !in t && IFF !in t
    ensures ReplaceChar(ReplaceChar(ReplaceChar(ReplaceChar(t, OR, "or"), NOT, "not "), IMPLIES, "<="), IFF, "==") == t
  {
    ReplaceCharAbsent(t, OR, "or");
    ReplaceCharAbsent(t, NOT, "not ");
    ReplaceCharAbsent(t, IMPLIES, "<=");
    ReplaceCharAbsent(t, IFF, "==");
  }
}
