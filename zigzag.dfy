/**
 * The zig-zag walk shared by encryption and decryption, in closed form.
 *
 * Both routines start on rail 0 heading down (`row = 0, dir = 1`), move one
 * rail per character and reverse direction whenever the new row is 0 or
 * `key - 1`. The walk repeats every `2 * (key - 1)` characters, so the rail
 * of position `i` is a function of `i` alone. On top of it, `Count`, `Offset`
 * and `Pos` say where the character written at position `i` ends up once the
 * rails are read out one after the other.
 */
module ZigZag {

  /** Length of one full down-and-up sweep over `key` rails. */
  function Period(key: int): (p: nat)
    requires key >= 2
    ensures p >= key
  {
    2 * (key - 1)
  }

  /**
   * How far position `i` is into its sweep: 0 at the top going down,
   * `key - 1` at the bottom, back to 0 after `Period(key)` steps.
   */
  function Phase(i: nat, key: int): (m: nat)
    requires key >= 2
    ensures m < Period(key)
  {
    if i == 0 then 0
    else if Phase(i - 1, key) + 1 == Period(key) then 0
    else Phase(i - 1, key) + 1
  }

  /** The rail that position `i` of the plain text is written on. */
  function RailOf(i: nat, key: int): (r: nat)
    requires key >= 2
    ensures r < key
  {
    var m := Phase(i, key);
    if m < key then m else Period(key) - m
  }

  /** The direction held after visiting position `i`: +1 downwards, -1 upwards. */
  function Dir(i: nat, key: int): int
    requires key >= 2
  {
    if Phase(i, key) < key - 1 then 1 else -1
  }

  /** The phase is the position modulo the period: the walk is periodic. */
  lemma {:induction false} PhaseIsMod(i: nat, key: int)
    requires key >= 2
    ensures Phase(i, key) == i % Period(key)
  {
    if i > 0 {
      PhaseIsMod(i - 1, key);
      ModNext(i - 1, Period(key));
    }
  }

  lemma ModNext(i: nat, p: nat)
    requires p > 0
    ensures (i + 1) % p == if i % p + 1 == p then 0 else i % p + 1
  {
    var q, m := i / p, i % p;
    assert i == q * p + m;
    if m + 1 == p {
      assert i + 1 == (q + 1) * p;
      ModOfMultiple(q + 1, p);
    } else {
      ModUnique(i + 1, p, q, m + 1);
    }
  }

  lemma ModOfMultiple(q: nat, p: nat)
    requires p > 0
    ensures (q * p) % p == 0
  {
    ModUnique(q * p, p, q, 0);
  }

  lemma ModUnique(x: nat, p: nat, q: nat, r: nat)
    requires p > 0 && r < p && x == q * p + r
    ensures x % p == r
  {
    var q', r' := x / p, x % p;
    assert q' * p + r' == q * p + r;
    if q' > q {
      MulMonotone(q + 1, q', p);
    } else if q' < q {
      MulMonotone(q' + 1, q, p);
    }
  }

  lemma {:induction false} MulMonotone(a: nat, b: nat, p: nat)
    requires a <= b
    ensures a * p <= b * p
  {
    if a < b {
      MulMonotone(a, b - 1, p);
      assert b * p == (b - 1) * p + p;
    }
  }

  /**
   * One step of the walk as the source writes it: the row moves by `dir`,
   * and `dir` flips when the new row is the top or the bottom rail.
   */
  lemma Step(i: nat, key: int)
    requires key >= 2
    ensures RailOf(i + 1, key) == RailOf(i, key) + Dir(i, key)
    ensures Dir(i + 1, key) ==
      if RailOf(i + 1, key) == 0 || RailOf(i + 1, key) == key - 1 then -Dir(i, key) else Dir(i, key)
  {
  }

  /** How many of the positions `0 .. n-1` are written on rail `r`. */
  function Count(n: nat, key: int, r: int): (c: nat)
    requires key >= 2
    ensures c <= n
  {
    if n == 0 then 0 else Count(n - 1, key, r) + (if RailOf(n - 1, key) == r then 1 else 0)
  }

  /** How many of the positions `0 .. n-1` are written on the rails above rail `r`. */
  function Offset(n: nat, key: int, r: nat): (o: nat)
    requires key >= 2
  {
    if r == 0 then 0 else Offset(n, key, r - 1) + Count(n, key, r - 1)
  }

  /**
   * Where the character written at position `i` of an `n`-character text
   * stands once the rails are read out top to bottom: after every character
   * of the rails above its own, and after the characters written before it
   * on its own rail.
   */
  function Pos(n: nat, key: int, i: nat): (p: nat)
    requires key >= 2 && i < n
    ensures p < n
  {
    var r := RailOf(i, key);
    CountMonotone(i, n, key, r);
    OffsetMonotone(n, key, r + 1, key);
    OffsetTotal(n, key);
    Offset(n, key, r) + Count(i, key, r)
  }

  lemma {:induction false} CountMonotone(i: nat, n: nat, key: int, r: int)
    requires key >= 2 && i <= n
    ensures Count(i, key, r) <= Count(n, key, r)
    ensures i < n && RailOf(i, key) == r ==> Count(i, key, r) < Count(n, key, r)
  {
    if i < n {
      CountMonotone(i, n - 1, key, r);
    }
  }

  lemma {:induction false} OffsetMonotone(n: nat, key: int, r: nat, s: nat)
    requires key >= 2 && r <= s
    ensures Offset(n, key, r) <= Offset(n, key, s)
  {
    if r < s {
      OffsetMonotone(n, key, r, s - 1);
    }
  }

  /** Writing one more character adds one to the rails below its own. */
  lemma {:induction false} OffsetGrow(n: nat, key: int, r: nat)
    requires key >= 2
    ensures Offset(n + 1, key, r) == Offset(n, key, r) + (if RailOf(n, key) < r then 1 else 0)
  {
    if r > 0 {
      OffsetGrow(n, key, r - 1);
    }
  }

  /** Every position lies on one of the `key` rails. */
  lemma {:induction false} OffsetTotal(n: nat, key: int)
    requires key >= 2
    ensures Offset(n, key, key) == n
  {
    if n > 0 {
      OffsetTotal(n - 1, key);
      OffsetGrow(n - 1, key, key);
      assert RailOf(n - 1, key) < key;
    } else {
      OffsetOfEmpty(key, key);
    }
  }

  lemma {:induction false} OffsetOfEmpty(key: int, r: nat)
    requires key >= 2
    ensures Offset(0, key, r) == 0
  {
    if r > 0 {
      OffsetOfEmpty(key, r - 1);
    }
  }

  /** No two positions are sent to the same place. */
  lemma PosInjective(n: nat, key: int, i: nat, j: nat)
    requires key >= 2 && i < n && j < n
    requires Pos(n, key, i) == Pos(n, key, j)
    ensures i == j
  {
    var ri, rj := RailOf(i, key), RailOf(j, key);
    CountMonotone(i, n, key, ri);
    CountMonotone(j, n, key, rj);
    if ri < rj {
      OffsetMonotone(n, key, ri + 1, rj);
    } else if rj < ri {
      OffsetMonotone(n, key, rj + 1, ri);
    } else if i < j {
      CountMonotone(i, j, key, ri);
    } else if j < i {
      CountMonotone(j, i, key, ri);
    }
  }

  /** Every place of the cipher text receives some position. */
  lemma PosOnto(n: nat, key: int, p: nat) returns (i: nat)
    requires key >= 2 && p < n
    ensures i < n && Pos(n, key, i) == p
  {
    OffsetTotal(n, key);
    var r := RailHolding(n, key, p, key);
    i := NthOnRail(n, key, r, p - Offset(n, key, r));
  }

  /** The rail whose block of the cipher text contains place `p`. */
  lemma {:induction false} RailHolding(n: nat, key: int, p: nat, s: nat) returns (r: nat)
    requires key >= 2 && s <= key && p < Offset(n, key, s)
    ensures r < s && Offset(n, key, r) <= p < Offset(n, key, r) + Count(n, key, r)
  {
    if Offset(n, key, s - 1) <= p {
      r := s - 1;
    } else {
      r := RailHolding(n, key, p, s - 1);
    }
  }

  /** The position written as the `j`-th character of rail `r`. */
  lemma {:induction false} NthOnRail(n: nat, key: int, r: nat, j: nat) returns (i: nat)
    requires key >= 2 && j < Count(n, key, r)
    ensures i < n && RailOf(i, key) == r && Count(i, key, r) == j
  {
    if j < Count(n - 1, key, r) {
      i := NthOnRail(n - 1, key, r, j);
    } else {
      i := n - 1;
    }
  }
}
