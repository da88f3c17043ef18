/**
 * Collision-free names. Both the word-table creation and the "new group"
 * button try `base`, then `base2`, `base3`, ... (the base followed by the
 * decimal rendering of a counter that starts at 1 and is bumped before its
 * first use) until a name is found that is not in use.
 */
module Naming {

  /** The decimal digit character for `d`. */
  function Digit(d: nat): (c: char)
    requires d < 10
    ensures '0' <= c <= '9'
    ensures c as int - '0' as int == d
  {
    (('0' as int) + d) as char
  }

  /** The number a string of decimal digits denotes, most significant digit first. */
  ghost function DigitsValue(s: string): int
  {
    if s == [] then 0 else 10 * DigitsValue(s[..|s| - 1]) + (s[|s| - 1] as int - '0' as int)
  }

  /**
   * Decimal rendering of a non-negative integer, as `format!("{}", n)` prints
   * it: digits only, denoting `n`, with no leading zero.
   */
  function Decimal(n: nat): (s: string)
    ensures 1 <= |s|
    ensures forall i :: 0 <= i < |s| ==> '0' <= s[i] <= '9'
    ensures DigitsValue(s) == n
    ensures 1 < |s| ==> s[0] != '0'
    ensures n < 10 <==> |s| == 1
  {
    if n < 10 then
      [Digit(n)]
    else
      var s := Decimal(n / 10) + [Digit(n % 10)];
      assert s[..|s| - 1] == Decimal(n / 10);
      s
  }

  /** Different numbers render differently. */
  lemma DecimalInjective(a: nat, b: nat)
    requires Decimal(a) == Decimal(b)
    ensures a == b
  {
    assert DigitsValue(Decimal(a)) == a && DigitsValue(Decimal(b)) == b;
  }

  /** The k-th name tried for `base`: `base` itself, then `base2`, `base3`, ... */
  function Candidate(base: string, k: nat): (name: string)
    requires 1 <= k
  {
    if k == 1 then base else base + Decimal(k)
  }

  /** The first attempt is `base` itself; a later one is `base` followed by the counter in decimal. */
  lemma CandidateShape(base: string, k: nat)
    requires 1 <= k
    ensures k == 1 ==> Candidate(base, k) == base
    ensures 2 <= k ==> var name := Candidate(base, k);
      |base| < |name| && name[..|base|] == base && name[|base|..] == Decimal(k)
  {
  }

  /** Distinct attempts give distinct names, so every attempt is new. */
  lemma CandidateInjective(base: string, j: nat, k: nat)
    requires 1 <= j && 1 <= k
    requires Candidate(base, j) == Candidate(base, k)
    ensures j == k
  {
    if j != 1 && k != 1 {
      var n := Candidate(base, j);
      assert Decimal(j) == n[|base|..] == Decimal(k);
      DecimalInjective(j, k);
    }
  }

  /** `k` is the first attempt whose name is not in `used`. */
  ghost predicate FirstFree(base: string, used: set<string>, k: nat)
  {
    && 1 <= k
    && Candidate(base, k) !in used
    && forall j :: 1 <= j < k ==> Candidate(base, j) in used
  }

  /** At most one attempt is the first free one. */
  lemma FirstFreeUnique(base: string, used: set<string>, j: nat, k: nat)
    requires FirstFree(base, used, j) && FirstFree(base, used, k)
    ensures j == k
  {
  }

  /** `s` is one of the names tried before attempt `k`. */
  ghost predicate TriedBefore(base: string, s: string, k: nat)
  {
    exists j :: 1 <= j < k && s == Candidate(base, j)
  }

  lemma NotTriedBefore(base: string, k: nat)
    requires 1 <= k
    ensures !TriedBefore(base, Candidate(base, k), k)
  {
    if TriedBefore(base, Candidate(base, k), k) {
      var j :| 1 <= j < k && Candidate(base, k) == Candidate(base, j);
      CandidateInjective(base, j, k);
    }
  }

  /** Attempt `k` is new, and once tried every name seen so far was tried before attempt `k + 1`. */
  lemma TriedGrows(base: string, tried: set<string>, k: nat)
    requires 1 <= k
    requires forall s :: s in tried ==> TriedBefore(base, s, k)
    ensures Candidate(base, k) !in tried
    ensures forall s :: s in tried + {Candidate(base, k)} ==> TriedBefore(base, s, k + 1)
  {
    NotTriedBefore(base, k);
    assert TriedBefore(base, Candidate(base, k), k + 1);
    forall s | s in tried
      ensures TriedBefore(base, s, k + 1)
    {
      var j :| 1 <= j < k && s == Candidate(base, j);
      assert 1 <= j < k + 1;
    }
  }

  /** A subset is no larger than its superset. */
  lemma {:induction false} SubsetCard<T>(a: set<T>, b: set<T>)
    requires a <= b
    ensures |a| <= |b|
    decreases a
  {
    if a != {} {
      var x :| x in a;
      SubsetCard(a - {x}, b - {x});
    }
  }

  /**
   * The naming loop: start from `base` with counter 1; while the name is in
   * use, bump the counter and try `base` followed by the counter. Returns the
   * name and the counter. The counter never exceeds the number of names in
   * use plus one.
   */
  method FirstFreeName(base: string, used: set<string>) returns (name: string, k: nat)
    ensures FirstFree(base, used, k) && name == Candidate(base, k)
    ensures k <= |used| + 1
  {
    name := base;
    k := 1;
    ghost var tried: set<string> := {};
    while name in used
      invariant 1 <= k && name == Candidate(base, k)
      invariant forall j :: 1 <= j < k ==> Candidate(base, j) in used
      invariant tried <= used && |tried| == k - 1
      invariant forall s :: s in tried ==> TriedBefore(base, s, k)
      decreases used - tried
    {
      TriedGrows(base, tried, k);
      tried := tried + {name};
      k := k + 1;
      name := base + Decimal(k);
    }
    SubsetCard(tried, used);
  }
}
