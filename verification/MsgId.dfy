/**
 Message ids: a linear congruential generator on 16 bits that is seeded again whenever it
 has reached 0.  For a multiplier that is 1 modulo 4 and an odd increment, the generator
 modulo any power of two runs through all residues in one cycle.
 */
module MsgId {
  import opened Power

  // ----- the generator over the integers

  /** `n` steps of x -> a*x + c. */
  function Iterate(a: nat, c: nat, x: nat, n: nat): nat {
    if n == 0 then x else a * Iterate(a, c, x, n - 1) + c
  }

  /** 1 + a + ... + a^(n-1) */
  function Sum(a: nat, n: nat): nat {
    if n == 0 then 0 else a * Sum(a, n - 1) + 1
  }

  lemma MulAdd(a: int, x: int, y: int)
    ensures a * (x + y) == a * x + a * y
  {
  }

  lemma MulAssoc(a: int, x: int, y: int)
    ensures a * (x * y) == (a * x) * y && a * x == x * a
  {
  }

  /** After n steps the value has moved by Sum(a, n) times the first move. */
  lemma {:induction false} StepsMove(a: nat, c: nat, x: nat, n: nat)
    requires a >= 1
    ensures Iterate(a, c, x, n) == x + Sum(a, n) * ((a - 1) * x + c)
  {
    if n > 0 {
      StepsMove(a, c, x, n - 1);
      MoveOnce(a, c, x, Sum(a, n - 1));
    }
  }

  lemma MoveOnce(a: int, c: int, x: int, s: int)
    ensures a * (x + s * ((a - 1) * x + c)) + c == x + (a * s + 1) * ((a - 1) * x + c)
  {
    var e := (a - 1) * x + c;
    MulAdd(a, x, s * e);
    MulAssoc(a, s, e);
    assert (a * s + 1) * e == (a * s) * e + e;
    assert (a - 1) * x == a * x - x;
  }

  lemma {:induction false} SumAdd(a: nat, m: nat, n: nat)
    requires a >= 1
    ensures Sum(a, m + n) == Sum(a, n) + Sum(a, m) * ((a - 1) * Sum(a, n) + 1)
  {
    if n > 0 {
      SumAdd(a, m, n - 1);
      AddOnce(a, Sum(a, m), Sum(a, n - 1));
    }
  }

  lemma AddOnce(a: int, s: int, t: int)
    ensures a * (t + s * ((a - 1) * t + 1)) + 1 == (a * t + 1) + s * ((a - 1) * (a * t + 1) + 1)
  {
    var u := (a - 1) * t + 1;
    MulAdd(a, t, s * u);
    MulAssoc(a, s, u);
    MulAssoc(s, a, u);
    MulAdd(a - 1, a * t, 1);
    MulAdd(a, (a - 1) * t, 1);
    MulAssoc(a - 1, a, t);
    MulAssoc(a, a - 1, t);
    assert (a - 1) * (a * t + 1) + 1 == a * u;
  }

  lemma {:induction false} SumParity(a: nat, n: nat)
    requires a % 2 == 1
    ensures Sum(a, n) % 2 == n % 2
  {
    if n > 0 {
      var s := Sum(a, n - 1);
      SumParity(a, n - 1);
      OddTimes(a, s);
      Successors(a * s, s, n - 1);
    }
  }

  lemma Successors(m: int, s: int, n: int)
    requires m % 2 == s % 2 == n % 2
    ensures (m + 1) % 2 == (n + 1) % 2
  {
  }

  lemma OddTimes(odd: nat, n: nat)
    requires odd % 2 == 1
    ensures (odd * n) % 2 == n % 2
  {
    var h := odd / 2;
    assert odd * n == 2 * (h * n) + n by { assert odd == 2 * h + 1; assert (2 * h + 1) * n == 2 * (h * n) + n; }
  }

  // ----- divisibility by a power of two

  predicate TwoToThe(k: nat, n: nat) {
    k == 0 || (n % 2 == 0 && TwoToThe(k - 1, n / 2))
  }

  /** An odd factor does not matter. */
  lemma {:induction false} OddFactor(k: nat, odd: nat, n: nat)
    requires odd % 2 == 1
    ensures TwoToThe(k, odd * n) <==> TwoToThe(k, n)
  {
    if k > 0 {
      OddTimes(odd, n);
      if n % 2 == 0 {
        MulAssoc(odd, 2, n / 2);
        assert odd * n == 2 * (odd * (n / 2)) by { MulAssoc(2, odd, n / 2); }
        OddFactor(k - 1, odd, n / 2);
      }
    }
  }

  /** Sum(a, n) has exactly as many factors of two as n. */
  lemma {:induction false} SumFactors(a: nat, k: nat, n: nat)
    requires a % 4 == 1
    ensures TwoToThe(k, Sum(a, n)) <==> TwoToThe(k, n)
  {
    if k > 0 {
      SumParity(a, n);
      if n % 2 == 0 {
        hide Sum;
        var m := n / 2;
        var s := Sum(a, m);
        SumAdd(a, m, m);
        var odd := HalfOfDouble(a, s);
        OddFactor(k - 1, odd, s);
        SumFactors(a, k - 1, m);
      }
    }
  }

  lemma HalfOfDouble(a: nat, s: nat) returns (odd: nat)
    requires a % 4 == 1
    ensures odd % 2 == 1 && s + s * ((a - 1) * s + 1) == 2 * (odd * s)
  {
    var t := (a / 4) * s;
    odd := 2 * t + 1;
    assert (a - 1) * s == 4 * t by { assert a - 1 == 4 * (a / 4); MulAssoc(4, a / 4, s); }
    MulAdd(s, 4 * t, 1);
    MulAssoc(s, 4, t);
    MulAdd(s, 2 * t, 1);
    MulAssoc(s, 2, t);
  }

  lemma {:induction false} TwoToTheIsMod(k: nat, n: nat)
    ensures TwoToThe(k, n) <==> n % Pow2(k) == 0
  {
    if k > 0 {
      TwoToTheIsMod(k - 1, n / 2);
      HalveMod(n, Pow2(k - 1));
    }
  }

  lemma HalveMod(n: nat, p: nat)
    requires p > 0
    ensures n % (2 * p) == 0 <==> n % 2 == 0 && (n / 2) % p == 0
  {
    var h := n / 2;
    if n % 2 == 0 && h % p == 0 {
      var q := h / p;
      assert n == (2 * p) * q by { MulAssoc(2, p, q); }
      ModIs(n, 2 * p, q, 0);
    }
    if n % (2 * p) == 0 {
      var q := n / (2 * p);
      assert n == 2 * (p * q) by { MulAssoc(2, p, q); }
      ModIs(h, p, q, 0);
    }
  }

  lemma ModIs(n: int, m: nat, q: int, r: nat)
    requires n == m * q + r && r < m
    ensures n % m == r && n / m == q
  {
    var d := q - n / m;
    assert m * d == n % m - r by { MulAdd(m, n / m, d); }
    if d > 0 { MulAdd(m, 1, d - 1); } else if d < 0 { MulAdd(m, -1, d + 1); }
    NoSmallMultiple(m, d);
  }

  lemma NoSmallMultiple(m: int, d: int)
    requires m > 0 && -m < m * d < m
    ensures d == 0
  {
    if d > 0 { MulAdd(m, 1, d - 1); } else if d < 0 { MulAdd(m, -1, d + 1); }
  }

  // ----- the generator modulo m

  /** One step of the generator, cut to its width. */
  function Step(a: nat, c: nat, m: nat, x: nat): (y: nat)
    requires m > 0
    ensures y < m
  {
    (a * x + c) % m
  }

  /** `n` steps. */
  function Cycle(a: nat, c: nat, m: nat, x: nat, n: nat): (y: nat)
    requires m > 0
    ensures y < m
  {
    if n == 0 then x % m else Step(a, c, m, Cycle(a, c, m, x, n - 1))
  }

  lemma Regroup(a: int, m: int, q: int)
    ensures a * (m * q) == m * (a * q)
  {
    MulAssoc(a, m, q);
    MulAssoc(m, a, q);
  }

  lemma ModStep(a: nat, c: nat, m: nat, v: nat)
    requires m > 0
    ensures Step(a, c, m, v % m) == (a * v + c) % m
  {
    var q, r := v / m, v % m;
    var p, s := a * q, a * r;
    Regroup(a, m, q);
    MulAdd(a, m * q, r);
    Combined(a * v, m * p, s, c, m, p);
  }

  lemma Combined(v: int, w: int, s: nat, c: nat, m: nat, p: nat)
    requires m > 0 && w == m * p && v == w + s
    ensures (s + c) % m == (v + c) % m
  {
    AddMultiple(s + c, m, p);
  }

  lemma AddMultiple(n: nat, m: nat, q: nat)
    requires m > 0
    ensures (m * q + n) % m == n % m
  {
    MulAdd(m, q, n / m);
    ModIs(m * q + n, m, q + n / m, n % m);
  }

  lemma {:induction false} CycleIsIterate(a: nat, c: nat, m: nat, x: nat, n: nat)
    requires m > 0
    ensures Cycle(a, c, m, x, n) == Iterate(a, c, x, n) % m
  {
    if n > 0 {
      CycleIsIterate(a, c, m, x, n - 1);
      ModStep(a, c, m, Iterate(a, c, x, n - 1));
    }
  }

  lemma {:induction false} CycleOn(a: nat, c: nat, m: nat, x: nat, i: nat, n: nat)
    requires m > 0
    ensures Cycle(a, c, m, x, i + n) == Cycle(a, c, m, Cycle(a, c, m, x, i), n)
  {
    hide Step;
    if n > 0 {
      CycleOn(a, c, m, x, i, n - 1);
    }
  }

  lemma SameResidue(y: nat, d: nat, m: nat)
    requires m > 0
    ensures (y + d) % m == y % m <==> d % m == 0
  {
    if d % m == 0 {
      AddMultiple(y, m, d / m);
    }
    if (y + d) % m == y % m {
      Difference((y + d) / m, y / m, d, m, (y + d) % m);
    }
  }

  lemma Difference(p: int, q: int, d: nat, m: nat, r: int)
    requires m > 0 && m * p + r == m * q + r + d
    ensures d % m == 0
  {
    MulAdd(m, q, p - q);
    ModIs(d, m, p - q, 0);
  }

  /** The generator modulo 2^k comes back to a value after n steps exactly when 2^k divides n. */
  lemma {:induction false} ReturnsAfter(a: nat, c: nat, k: nat, x: nat, n: nat)
    requires a % 4 == 1 && c % 2 == 1
    ensures Cycle(a, c, Pow2(k), x, n) == x % Pow2(k) <==> n % Pow2(k) == 0
  {
    hide Cycle, Iterate, Sum, TwoToThe, Pow2;
    var m, s, odd := Pow2(k), Sum(a, n), (a - 1) * x + c;
    CycleIsIterate(a, c, m, x, n);
    StepsMove(a, c, x, n);
    OddMove(a - 1, x, c);
    assert Iterate(a, c, x, n) == x + s * odd;
    MulAssoc(s, odd, 1);
    SameResidue(x, s * odd, m);
    OddFactor(k, odd, s);
    TwoToTheIsMod(k, odd * s);
    SumFactors(a, k, n);
    TwoToTheIsMod(k, n);
  }

  lemma OddMove(even: nat, x: nat, c: nat)
    requires even % 2 == 0 && c % 2 == 1
    ensures (even * x + c) % 2 == 1
  {
    MulAssoc(2, even / 2, x);
  }

  /** Modulo 2^k the generator takes the same value at two steps exactly when their distance is a multiple of 2^k. */
  lemma {:induction false} FullPeriod(a: nat, c: nat, k: nat, x: nat, i: nat, j: nat)
    requires a % 4 == 1 && c % 2 == 1 && i <= j
    ensures Cycle(a, c, Pow2(k), x, i) == Cycle(a, c, Pow2(k), x, j) <==> (j - i) % Pow2(k) == 0
  {
    hide Cycle, Pow2;
    var m := Pow2(k);
    var y := Cycle(a, c, m, x, i);
    ModIs(y, m, 0, y);
    CycleOn(a, c, m, x, i, j - i);
    ReturnsAfter(a, c, k, y, j - i);
  }

  // ----- every residue is reached

  function Below(n: nat): (s: set<nat>)
    ensures |s| == n
    ensures forall i: nat :: i in s <==> i < n
  {
    if n == 0 then {} else {n - 1} + Below(n - 1)
  }

  function Seen(a: nat, c: nat, m: nat, x: nat, n: nat): set<nat>
    requires m > 0
  {
    if n == 0 then {} else {Cycle(a, c, m, x, n - 1)} + Seen(a, c, m, x, n - 1)
  }

  lemma {:induction false} SeenHas(a: nat, c: nat, m: nat, x: nat, n: nat, i: nat)
    requires m > 0 && i < n
    ensures Cycle(a, c, m, x, i) in Seen(a, c, m, x, n)
  {
    hide Cycle;
    if i < n - 1 {
      SeenHas(a, c, m, x, n - 1, i);
    }
  }

  lemma {:induction false} SeenOnly(a: nat, c: nat, m: nat, x: nat, n: nat, y: nat) returns (i: nat)
    requires m > 0 && y in Seen(a, c, m, x, n)
    ensures i < n && Cycle(a, c, m, x, i) == y
  {
    hide Cycle;
    if y == Cycle(a, c, m, x, n - 1) {
      i := n - 1;
    } else {
      i := SeenOnly(a, c, m, x, n - 1, y);
    }
  }

  lemma {:induction false} AllDifferent(a: nat, c: nat, k: nat, x: nat, n: nat)
    requires a % 4 == 1 && c % 2 == 1 && n <= Pow2(k)
    ensures |Seen(a, c, Pow2(k), x, n)| == n
    ensures Seen(a, c, Pow2(k), x, n) <= Below(Pow2(k))
  {
    var m := Pow2(k);
    if n > 0 {
      AllDifferent(a, c, k, x, n - 1);
      var y := Cycle(a, c, m, x, n - 1);
      if y in Seen(a, c, m, x, n - 1) {
        var i := SeenOnly(a, c, m, x, n - 1, y);
        FullPeriod(a, c, k, x, i, n - 1);
        ModIs(n - 1 - i, m, 0, n - 1 - i);
        assert false;
      }
    }
  }

  lemma SubsetAll(s: set<nat>, t: set<nat>)
    requires s <= t && |s| == |t|
    ensures s == t
  {
    assert |t - s| == |t| - |s|;
    assert t - s == {};
  }

  /** The generator modulo 2^k takes every value below 2^k within 2^k steps. */
  lemma {:induction false} FullCycle(a: nat, c: nat, k: nat, x: nat, y: nat)
    requires a % 4 == 1 && c % 2 == 1 && y < Pow2(k)
    ensures exists i: nat :: i < Pow2(k) && Cycle(a, c, Pow2(k), x, i) == y
  {
    var m := Pow2(k);
    AllDifferent(a, c, k, x, m);
    SubsetAll(Seen(a, c, m, x, m), Below(m));
    var i := SeenOnly(a, c, m, x, m, y);
  }

  // ----- the message ids of an instance

  type uint16 = n: int | 0 <= n < 0x1_0000
  type uint32 = n: int | 0 <= n < 0x1_0000_0000

  const MULTIPLIER: nat := 23873
  const INCREMENT: nat := 41

  /** The id that follows `last`: an id of 0 makes the generator start at the low half of `random`. */
  function NextId(last: uint16, random: uint32): uint16 {
    var seed := if last == 0 then random % 0x1_0000 else last;
    (seed * MULTIPLIER + INCREMENT) % 0x1_0000
  }

  class Ids {
    var last: uint16

    constructor ()
      ensures last == 0
    {
      last := 0;
    }

    /** The product fits the 32-bit int it is computed in, so only the assignment cuts it. */
    method Next(random: uint32) returns (id: uint16)
      modifies this`last
      ensures id == last == NextId(old(last), random)
      ensures id == ((if old(last) == 0 then random % 65536 else old(last)) * 23873 + 41) % 65536
    {
      if last == 0 {
        last := random % 0x1_0000;
      }
      assert 0 <= last * 23873 + 41 <= 0x7fff_ffff;
      last := (last * 23873 + 41) % 0x1_0000;
      id := last;
    }

    /** A run of calls: between two seeds no id comes twice. */
    method Take(randoms: seq<uint32>) returns (ids: seq<uint16>)
      modifies this`last
      ensures IsRun(old(last), randoms, ids) && |ids| == |randoms|
      ensures last == if ids == [] then old(last) else ids[|ids| - 1]
      ensures forall i, j | 0 <= i < j < |ids| && NoZero(ids, i, j) :: ids[i] != ids[j]
    {
      hide IsRun, NextId;
      ids := [];
      NoIds(last, randoms);
      while |ids| < |randoms|
        invariant |ids| <= |randoms|
        invariant last == if ids == [] then old(last) else ids[|ids| - 1]
        invariant IsRun(old(last), randoms, ids)
      {
        var id := Next(randoms[|ids|]);
        RunGrows(old(last), randoms, ids, id);
        ids := ids + [id];
      }
      forall i, j | 0 <= i < j < |ids| && NoZero(ids, i, j)
        ensures ids[i] != ids[j]
      {
        IdsBetweenSeedsDiffer(old(last), randoms, ids, i, j);
      }
    }
  }

  /** No seed was taken behind id i before id j was made. */
  predicate NoZero(ids: seq<uint16>, i: nat, j: nat)
    requires j <= |ids|
  {
    forall k | i <= k < j :: ids[k] != 0
  }

  /** The ids that the first calls with these random numbers return. */
  predicate IsRun(last: uint16, randoms: seq<uint32>, ids: seq<uint16>) {
    |ids| <= |randoms|
    && forall i | 0 <= i < |ids| :: ids[i] == NextId(IdBefore(last, ids, i), randoms[i])
  }

  function IdBefore(last: uint16, ids: seq<uint16>, i: nat): uint16
    requires i <= |ids|
  {
    if i == 0 then last else ids[i - 1]
  }

  lemma NoIds(last: uint16, randoms: seq<uint32>)
    ensures IsRun(last, randoms, [])
  {
  }

  lemma RunGrows(last: uint16, randoms: seq<uint32>, ids: seq<uint16>, id: uint16)
    requires |ids| < |randoms| && IsRun(last, randoms, ids)
    requires id == NextId(IdBefore(last, ids, |ids|), randoms[|ids|])
    ensures IsRun(last, randoms, ids + [id])
  {
    hide NextId;
    var more := ids + [id];
    forall i | 0 <= i < |more|
      ensures more[i] == NextId(IdBefore(last, more, i), randoms[i])
    {
      assert IdBefore(last, more, i) == IdBefore(last, ids, i);
      assert i < |ids| ==> more[i] == ids[i];
    }
  }

  lemma WidthIs16()
    ensures Pow2(16) == 0x1_0000
  {
    assert Pow2(8) == 256;
  }

  lemma NextIsStep(last: uint16, random: uint32)
    requires last != 0
    ensures NextId(last, random) == Step(MULTIPLIER, INCREMENT, 0x1_0000, last)
  {
  }

  /** While the generator is not seeded again, the ids follow one cycle. */
  lemma {:induction false} RunFollowsCycle(last: uint16, randoms: seq<uint32>, ids: seq<uint16>, i: nat, n: nat)
    requires IsRun(last, randoms, ids) && i + n < |ids|
    requires forall k | i <= k < i + n :: ids[k] != 0
    ensures ids[i + n] == Cycle(MULTIPLIER, INCREMENT, 0x1_0000, ids[i], n)
  {
    hide Step, NextId;
    if n > 0 {
      RunFollowsCycle(last, randoms, ids, i, n - 1);
      NextIsStep(ids[i + n - 1], randoms[i + n]);
    }
  }

  lemma {:induction false} ZeroComes(last: uint16, randoms: seq<uint32>, ids: seq<uint16>, i: nat, n: nat)
    requires IsRun(last, randoms, ids) && i + n < |ids|
    requires forall k | i <= k < i + n :: ids[k] != 0
    ensures n < 0x1_0000
  {
    hide Cycle, Pow2, IsRun;
    WidthIs16();
    if n >= 0x1_0000 {
      FullCycle(MULTIPLIER, INCREMENT, 16, ids[i], 0);
      var d: nat :| d < Pow2(16) && Cycle(MULTIPLIER, INCREMENT, Pow2(16), ids[i], d) == 0;
      RunFollowsCycle(last, randoms, ids, i, d);
      assert false;
    }
  }

  lemma CycleMoves(x: uint16, n: nat)
    requires 0 < n < 0x1_0000
    ensures Cycle(MULTIPLIER, INCREMENT, 0x1_0000, x, n) != x
  {
    hide Cycle, Pow2;
    WidthIs16();
    ReturnsAfter(MULTIPLIER, INCREMENT, 16, x, n);
  }

  /** Two equal ids have a zero id, and so a new seed, between them (the first included, the last not). */
  lemma {:induction false} IdsBetweenSeedsDiffer(last: uint16, randoms: seq<uint32>, ids: seq<uint16>, i: nat, j: nat)
    requires IsRun(last, randoms, ids) && i < j < |ids|
    requires forall k | i <= k < j :: ids[k] != 0
    ensures ids[i] != ids[j] && j - i < 0x1_0000
  {
    hide Cycle, IsRun;
    ZeroComes(last, randoms, ids, i, j - i);
    RunFollowsCycle(last, randoms, ids, i, j - i);
    CycleMoves(ids[i], j - i);
  }

  /** ... and the ids from one seed on do use every value: among any 65536 in a row there is a zero. */
  lemma {:induction false} EveryIdIsUsed(last: uint16, randoms: seq<uint32>, ids: seq<uint16>, i: nat, id: uint16)
    requires IsRun(last, randoms, ids) && i + 0xffff < |ids|
    requires forall k | i <= k < i + 0xffff :: ids[k] != 0
    ensures exists k | i <= k < i + 0x1_0000 :: ids[k] == id
  {
    WidthIs16();
    FullCycle(MULTIPLIER, INCREMENT, 16, ids[i], id);
    var d: nat :| d < Pow2(16) && Cycle(MULTIPLIER, INCREMENT, Pow2(16), ids[i], d) == id;
    RunFollowsCycle(last, randoms, ids, i, d);
  }
}
