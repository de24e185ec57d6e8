/**
 Linear probing on a ring of `n` slots. Both hash tables of the program (the cache index and the
 blocklist index) walk the ring from a home slot; distances along the ring replace index masks.
 */
module Probing {
  import opened Basics

  /** Home slot of a hash. Table lengths are powers of two, so the program's mask is this remainder. */
  function Home(hash: nat, n: nat): (h: nat)
    requires n > 0
    ensures h < n
  {
    hash % n
  }

  function Next(i: nat, n: nat): (r: nat)
    requires i < n
    ensures r < n
  {
    if i + 1 == n then 0 else i + 1
  }

  /** Steps from `a` to `b` along the ring. */
  function Dist(a: nat, b: nat, n: nat): (d: nat)
    requires a < n && b < n
    ensures d < n
    ensures d == 0 <==> a == b
  {
    if a <= b then b - a else n - a + b
  }

  /** One step forward is one more step from home, until the ring closes. */
  lemma NextDist(home: nat, slot: nat, stop: nat, n: nat)
    requires home < n && slot < n && stop < n
    requires Dist(home, slot, n) < Dist(home, stop, n)
    ensures Dist(home, Next(slot, n), n) == Dist(home, slot, n) + 1
  {
  }

  /** Slots at equal distance are equal, so the visited slots are exactly the nearer ones. */
  lemma DistInjective(home: nat, x: nat, y: nat, n: nat)
    requires home < n && x < n && y < n && Dist(home, x, n) == Dist(home, y, n)
    ensures x == y
  {
  }

  function CountIf<T>(s: seq<T>, f: T -> bool): (c: nat)
    ensures c <= |s|
  {
    if s == [] then 0 else (if f(s[0]) then 1 else 0) + CountIf(s[1..], f)
  }

  lemma {:induction false} CountUpdate<T>(s: seq<T>, f: T -> bool, i: nat, v: T)
    requires i < |s|
    ensures CountIf(s[i := v], f) + (if f(s[i]) then 1 else 0) == CountIf(s, f) + (if f(v) then 1 else 0)
  {
    if i == 0 {
      assert s[i := v][1..] == s[1..];
    } else {
      assert s[i := v][1..] == s[1..][i - 1 := v];
      CountUpdate(s[1..], f, i - 1, v);
    }
  }

  lemma {:induction false} CountAll<T>(s: seq<T>, f: T -> bool)
    requires forall i :: 0 <= i < |s| ==> f(s[i])
    ensures CountIf(s, f) == |s|
  {
    if s != [] { CountAll(s[1..], f); }
  }

  lemma {:induction false} CountNone<T>(s: seq<T>, f: T -> bool)
    requires forall i :: 0 <= i < |s| ==> !f(s[i])
    ensures CountIf(s, f) == 0
  {
    if s != [] { CountNone(s[1..], f); }
  }

  /** A positive count has a witness: with fewer occupied slots than slots, one is empty. */
  lemma {:induction false} CountWitness<T>(s: seq<T>, f: T -> bool) returns (i: nat)
    requires CountIf(s, f) > 0
    ensures i < |s| && f(s[i])
  {
    if f(s[0]) {
      i := 0;
    } else {
      i := CountWitness(s[1..], f);
      i := i + 1;
    }
  }

  lemma {:induction false} CountPositive<T>(s: seq<T>, f: T -> bool, i: nat)
    requires i < |s| && f(s[i])
    ensures CountIf(s, f) > 0
  {
    if i > 0 { CountPositive(s[1..], f, i - 1); }
  }

  /** A set of naturals below `n` has at most `n` elements. */
  lemma {:induction false} BoundedSet(s: set<nat>, n: nat)
    requires forall x :: x in s ==> x < n
    ensures |s| <= n
  {
    if n > 0 {
      BoundedSet(s - {n - 1}, n - 1);
    } else {
      assert s == {};
    }
  }

  predicate PowerOfTwo(n: nat) {
    n == 1 || (n > 1 && n % 2 == 0 && PowerOfTwo(n / 2))
  }

  function NextPowerOfTwo(n: nat): (p: nat)
    ensures PowerOfTwo(p) && p >= n && (n > 1 ==> p < 2 * n)
  {
    if n <= 1 then 1 else 2 * NextPowerOfTwo((n + 1) / 2)
  }
}
