/** Machine integers, Option, and the one counting principle the other modules share. */
module Base {

  type u8 = x: int | 0 <= x < 0x100
  type u16 = x: int | 0 <= x < 0x1_0000
  type u32 = x: int | 0 <= x < 0x1_0000_0000

  const TWO16 := 0x1_0000
  const TWO32 := 0x1_0000_0000

  /** Unsigned 16-bit increment. */
  function Inc16(x: u16): u16 {
    if x == 0xFFFF then 0 else x + 1
  }

  /** Unsigned 32-bit subtraction a - b. */
  function Sub32(a: u32, b: u32): u32 {
    if a >= b then a - b else a - b + TWO32
  }

  /** The 32 bits a tick counter keeps of an unbounded tick. */
  function Tick(n: nat): u32 {
    if n < TWO32 then n else Tick(n - TWO32)
  }

  lemma {:induction false} TickIsMod(n: nat)
    ensures Tick(n) == n % TWO32
  {
    if n >= TWO32 { TickIsMod(n - TWO32); }
  }

  /** Modular age is true age as long as less than 2^32 ticks have passed. */
  lemma ModularAge(a: nat, b: nat)
    requires b <= a < b + TWO32
    ensures Sub32(Tick(a), Tick(b)) == a - b
  {
    TickIsMod(a);
    TickIsMod(b);
  }

  datatype Option<+T> = None | Some(value: T)

  /** Pairwise distinct elements. */
  ghost predicate Distinct<T>(s: seq<T>) {
    forall i, j :: 0 <= i < j < |s| ==> s[i] != s[j]
  }

  /** The numbers 0 .. n-1. */
  ghost function Below(n: nat): (r: set<nat>)
    ensures forall x: nat :: x in r <==> x < n
    ensures |r| == n
  {
    if n == 0 then {} else Below(n - 1) + {n - 1}
  }

  ghost function Elems<T>(s: seq<T>): set<T>
  {
    set x | x in s
  }

  lemma {:induction false} DistinctSize<T>(s: seq<T>)
    requires Distinct(s)
    ensures |Elems(s)| == |s|
  {
    if s != [] {
      var t := s[1..];
      DistinctSize(t);
      assert s[0] !in t;
      assert Elems(s) == Elems(t) + {s[0]};
    }
  }

  lemma SubsetSize<T>(a: set<T>, b: set<T>)
    requires a <= b
    ensures |a| <= |b|
  {
    assert b == a + (b - a);
  }

  /** Distinct numbers below n that avoid one of them are fewer than n. */
  lemma Pigeonhole(s: seq<nat>, n: nat, hole: nat)
    requires Distinct(s)
    requires forall i :: 0 <= i < |s| ==> s[i] < n && s[i] != hole
    requires hole < n
    ensures |s| < n
  {
    DistinctSize(s);
    SubsetSize(Elems(s) + {hole}, Below(n));
  }

  lemma Scale(d: int, p: nat)
    ensures d >= 1 ==> d * p >= p
    ensures d <= -1 ==> d * p + p <= 0
  {
    if d >= 1 { assert (d - 1) * p >= 0; }
    if d <= -1 { assert (-1 - d) * p >= 0; }
  }

  /** Quotient and remainder are determined by the division equation. */
  lemma DivUnique(x: nat, p: nat, q: nat, m: nat)
    requires 0 < p && m < p && x == q * p + m
    ensures x / p == q && x % p == m
  {
    var d := x / p - q;
    assert x == (x / p) * p + x % p;
    assert d * p == (x / p) * p - q * p;
    Scale(d, p);
  }
}
