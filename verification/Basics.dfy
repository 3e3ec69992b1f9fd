/** What several modules share. */
module Basics {
  datatype Option<+T> = None | Some(value: T)

  /** The greatest number of links. */
  const MAX_LINKS: nat := 64

  const IDS: nat := 65536

  type uint16 = x: int | 0 <= x < IDS

  function Min(a: int, b: int): int {
    if a < b then a else b
  }

  function Max(a: int, b: int): int {
    if a < b then b else a
  }

  lemma {:induction false} RangeCard(n: nat, s: set<nat>)
    requires forall b: nat :: b in s <==> b < n
    ensures |s| == n
    decreases n
  {
    if n > 0 {
      RangeCard(n - 1, s - {n - 1});
    } else {
      assert s == {};
    }
  }

  lemma CardMonotone(a: set<nat>, b: set<nat>)
    requires a <= b
    ensures |a| <= |b|
  {
    assert b == a + (b - a);
  }

  lemma SameCard(a: set<nat>, b: set<nat>)
    requires a <= b && |a| == |b|
    ensures a == b
  {
    var d := b - a;
    assert b == a + d && a !! d;
    assert |d| == 0 && d == {};
  }

  lemma Assoc<T>(a: seq<T>, b: seq<T>, c: seq<T>)
    ensures (a + b) + c == a + (b + c)
  {
  }

  lemma DivUnique(a: int, b: int, q: int, r: int)
    requires b > 0 && 0 <= r < b && a == q * b + r
    ensures a / b == q
  {
    QuotientAtLeast(a, b, q);
    QuotientAtLeast(a, b, q + 1);
  }

  lemma MulMonotone(x: int, y: int, b: int)
    requires x <= y && b > 0
    ensures x * b <= y * b
  {
    assert y * b - x * b == (y - x) * b;
  }

  lemma QuotientAtLeast(a: int, b: int, q: int)
    requires b > 0
    ensures a / b >= q <==> a >= q * b
  {
    var p := a / b;
    assert p * b <= a < p * b + b;
    if p >= q {
      MulMonotone(q, p, b);
    } else {
      MulMonotone(p + 1, q, b);
      assert (p + 1) * b == p * b + b;
    }
  }
}
