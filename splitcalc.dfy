/**
 * The weighted bill split of src/utils/splitCalc.ts.
 *
 * Light, normal and heavy payers are weighted 0.8 / 1.0 / 1.2; each group's
 * per-person base is rounded to 100 yen, and the whole rounding error is
 * handed to one non-empty target group, where it is dealt out round-robin
 * in 100-yen steps.  Amounts are then grouped into ascending buckets.
 *
 * Floating point is replaced by exact reals: the weights are the exact
 * rationals 4/5, 1 and 6/5.
 */
module SplitCalc {
  import opened MinMax

  // ---------------------------------------------------------------------
  // Data model
  // ---------------------------------------------------------------------

  /** `count` members of a group each pay `amount` yen. */
  datatype GroupBreakdown = GroupBreakdown(amount: int, count: int)

  /** One weight class: its head count and its buckets. */
  datatype SplitGroup = SplitGroup(count: int, breakdown: seq<GroupBreakdown>)

  datatype SplitResult = SplitResult(
    total: int,
    people: int,
    low: SplitGroup,
    normal: SplitGroup,
    high: SplitGroup)

  /** The group that absorbs the rounding error. */
  datatype Target = Low | Normal | High

  /** The rounding unit and the size of one round-robin adjustment, in yen. */
  const Step: int := 100

  const LowWeight: real := 0.8
  const NormalWeight: real := 1.0
  const HighWeight: real := 1.2

  // ---------------------------------------------------------------------
  // Sums over sequences
  // ---------------------------------------------------------------------

  function Sum(s: seq<int>): int
  {
    if |s| == 0 then 0 else Sum(s[..|s| - 1]) + s[|s| - 1]
  }

  /** Number of occurrences of `x` in `s`. */
  function Occ(s: seq<int>, x: int): nat
  {
    if |s| == 0 then 0 else Occ(s[..|s| - 1], x) + (if s[|s| - 1] == x then 1 else 0)
  }

  /** What the buckets stand for: sum of amount * count. */
  function WeightedSum(b: seq<GroupBreakdown>): int
  {
    if b == [] then 0 else b[0].amount * b[0].count + WeightedSum(b[1..])
  }

  /** Total number of members the buckets stand for. */
  function CountSum(b: seq<GroupBreakdown>): int
  {
    if b == [] then 0 else b[0].count + CountSum(b[1..])
  }

  /** Number of members the buckets say pay `x`. */
  function CountOf(b: seq<GroupBreakdown>, x: int): int
  {
    if b == [] then 0 else (if b[0].amount == x then b[0].count else 0) + CountOf(b[1..], x)
  }


  function Abs(x: int): nat { if x < 0 then -x else x }

  lemma {:induction false} OccIsMultiplicity(s: seq<int>, x: int)
    ensures Occ(s, x) == multiset(s)[x]
  {
    if |s| > 0 {
      var init := s[..|s| - 1];
      OccIsMultiplicity(init, x);
      assert s == init + [s[|s| - 1]];
    }
  }

  // ---------------------------------------------------------------------
  // roundTo100 (line 19)
  // ---------------------------------------------------------------------

  /**
   * `Math.round(value / 100) * 100`: the multiple of 100 nearest to
   * `value`, with exact halves going up (toward +infinity).
   */
  function RoundTo100(value: real): (r: int)
    ensures r % Step == 0
    ensures (r as real) - 50.0 <= value < (r as real) + 50.0
  {
    Step * (value / (Step as real) + 0.5).Floor
  }

  /** The ensures of RoundTo100 determine its result. */
  lemma RoundTo100Unique(value: real, m: int)
    requires m % Step == 0
    requires (m as real) - 50.0 <= value < (m as real) + 50.0
    ensures RoundTo100(value) == m
  {
    var r := RoundTo100(value);
    var d := r - m;
    assert -100 < d < 100;
    assert d % Step == 0 by {
      assert r == Step * (r / Step) && m == Step * (m / Step);
      assert d == Step * (r / Step - m / Step);
    }
  }

  /** A value of exactly 50 above a multiple of 100 rounds up. */
  lemma RoundTo100HalfUp(k: int)
    ensures RoundTo100((Step * k + 50) as real) == Step * (k + 1)
  {
    RoundTo100Unique((Step * k + 50) as real, Step * (k + 1));
  }

  // ---------------------------------------------------------------------
  // distributeDiff (lines 21-37)
  // ---------------------------------------------------------------------

  function Sign(diff: int): int { if diff > 0 then 1 else -1 }

  /** Whole 100-yen steps in |diff|. */
  function Units(diff: int): nat { Abs(diff) / Step }

  /** The sub-100 leftover of |diff| that member 0 takes. */
  function Leftover(diff: int): nat { Abs(diff) % Step }

  /**
   * How many of the `units` round-robin steps, dealt to members
   * 0, 1, ..., count - 1, 0, 1, ... in turn, land on member `j`.
   */
  function Steps(units: nat, count: int, j: int): nat
    requires count > 0
  {
    units / count + (if j < units % count then 1 else 0)
  }

  /** What member `j` of a group of `count` pays after absorbing `diff`. */
  function Share(base: int, count: int, diff: int, j: int): int
    requires count > 0
  {
    base + Sign(diff) * Step * Steps(Units(diff), count, j)
    + (if j == 0 then Sign(diff) * Leftover(diff) else 0)
  }

  /** The amounts `distributeDiff(base, count, diff)` returns, member by member. */
  function Distribute(base: int, count: int, diff: int): (r: seq<int>)
    ensures |r| == if count <= 0 then 0 else count
  {
    if count <= 0 then [] else seq(count, j => Share(base, count, diff, j))
  }

  /** Euclidean division is determined by quotient and remainder. */
  lemma DivDecomp(q: int, c: int, r: int)
    requires c > 0 && 0 <= r < c
    ensures (q * c + r) / c == q && (q * c + r) % c == r
  {
    var x := q * c + r;
    var d := x / c - q;
    assert c * d == r - x % c;
  }

  lemma AddOneStep(delta: int, k: int)
    ensures delta * k + delta == delta * (k + 1)
  {
  }

  /**
   * The round-robin loop of distributeDiff (lines 29-31): for each whole
   * step `i`, add `delta` to member `i % count`.
   */
  method DealSteps(a: array<int>, units: nat, delta: int)
    requires a.Length > 0
    modifies a
    ensures forall j :: 0 <= j < a.Length ==> a[j] == old(a[j]) + delta * Steps(units, a.Length, j)
  {
    var count := a.Length;
    ghost var q, r := 0, 0;
    for i := 0 to units
      invariant 0 <= r < count && i == q * count + r
      invariant forall j :: 0 <= j < count ==> a[j] == old(a[j]) + delta * (q + if j < r then 1 else 0)
    {
      DivDecomp(q, count, r);
      AddOneStep(delta, q);
      a[i % count] := a[i % count] + delta;
      if r + 1 == count {
        q, r := q + 1, 0;
      } else {
        r := r + 1;
      }
    }
    DivDecomp(q, count, r);
  }

  /**
   * distributeDiff: start every member at `base`, deal the whole
   * `sign * 100` steps round-robin, then give member 0 the sub-100
   * leftover.
   */
  method DistributeDiff(base: int, count: int, diff: int) returns (amounts: seq<int>)
    ensures amounts == Distribute(base, count, diff)
  {
    if count <= 0 {
      return [];
    }
    var a := new int[count](_ => base);
    if diff == 0 {
      amounts := a[..];
      assert forall j :: 0 <= j < count ==> amounts[j] == Share(base, count, diff, j);
      return;
    }
    var sign := if diff > 0 then 1 else -1;
    var remaining := Abs(diff);
    var units := remaining / Step;
    DealSteps(a, units, sign * Step);
    remaining := remaining - units * Step;
    if remaining > 0 {
      a[0] := a[0] + sign * remaining;
    }
    amounts := a[..];
    assert forall j :: 0 <= j < count ==> amounts[j] == Share(base, count, diff, j);
  }

  /** With nothing to absorb, every member pays the base. */
  lemma DistributeNoDiff(base: int, count: int)
    ensures forall j :: 0 <= j < |Distribute(base, count, 0)| ==> Distribute(base, count, 0)[j] == base
  {
  }

  lemma PrefixStep(n: int, b: int, g: int, q: int, m1: int, e: int, c: int)
    ensures ((n - 1) * b + g * ((n - 1) * q + m1) + c) + (b + g * (q + e))
            == n * b + g * (n * q + (m1 + e)) + c
  {
  }

  lemma SumSnoc(s: seq<int>, n: nat)
    requires 0 < n <= |s|
    ensures Sum(s[..n]) == Sum(s[..n - 1]) + s[n - 1]
  {
    assert s[..n][..n - 1] == s[..n - 1];
  }

  lemma {:induction false} DistributePrefixSum(base: int, count: int, diff: int, n: nat)
    requires 0 < n <= count
    ensures Sum(Distribute(base, count, diff)[..n])
            == n * base + (Sign(diff) * Step) * (n * (Units(diff) / count) + Min(n, Units(diff) % count))
               + Sign(diff) * Leftover(diff)
  {
    var s := Distribute(base, count, diff);
    var q, rr, g := Units(diff) / count, Units(diff) % count, Sign(diff) * Step;
    var l := Leftover(diff);
    if n == 1 {
      SumSnoc(s, 1);
      assert s[..0] == [];
      assert s[0] == base + g * (q + (if 0 < rr then 1 else 0)) + Sign(diff) * l;
    } else {
      DistributePrefixSum(base, count, diff, n - 1);
      SumSnoc(s, n);
      var e := if n - 1 < rr then 1 else 0;
      assert s[n - 1] == base + g * (q + e);
      assert Min(n, rr) == Min(n - 1, rr) + e;
      PrefixStep(n, base, g, q, Min(n - 1, rr), e, Sign(diff) * l);
    }
  }

  /** The amounts absorb `diff` exactly. */
  lemma DistributeSum(base: int, count: int, diff: int)
    ensures Sum(Distribute(base, count, diff)) == if count <= 0 then 0 else base * count + diff
  {
    var s := Distribute(base, count, diff);
    if count > 0 {
      DistributePrefixSum(base, count, diff, count);
      assert s[..count] == s;
      var u := Units(diff);
      assert count * (u / count) + u % count == u;
      assert Min(count, u % count) == u % count;
      assert Step * u + Leftover(diff) == Abs(diff);
      assert Sign(diff) * Abs(diff) == diff;
      calc {
        Sum(s);
        count * base + Sign(diff) * Step * (count * (u / count) + u % count) + Sign(diff) * Leftover(diff);
        count * base + Sign(diff) * (Step * u + Leftover(diff));
      }
    }
  }

  /** Ceiling division for a positive divisor. */
  function CeilDiv(u: nat, c: int): nat
    requires c > 0
  {
    (u + c - 1) / c
  }

  /** Every member takes floor(units/count) or ceil(units/count) steps, member 0 the most. */
  lemma StepsBalanced(u: nat, count: int, j: int)
    requires count > 0 && 0 <= j < count
    ensures u / count <= Steps(u, count, j) <= CeilDiv(u, count)
    ensures Steps(u, count, j) <= Steps(u, count, 0)
  {
    var q, rr := u / count, u % count;
    if rr == 0 {
      DivDecomp(q, count, count - 1);
      assert u + count - 1 == q * count + (count - 1);
    } else {
      DivDecomp(q + 1, count, rr - 1);
      assert u + count - 1 == (q + 1) * count + (rr - 1);
    }
  }

  /**
   * Round-robin fairness of distributeDiff: every member takes
   * floor(units/count) or ceil(units/count) steps of sign * 100, member 0
   * takes the most, only member 0 takes the sub-100 leftover, and
   * members 1..count-1 end up within one step of each other.
   */
  lemma DistributeFair(base: int, count: int, diff: int)
    requires count > 0
    ensures forall j :: 0 <= j < count ==>
      Units(diff) / count <= Steps(Units(diff), count, j) <= CeilDiv(Units(diff), count)
    ensures forall j :: 0 <= j < count ==> Steps(Units(diff), count, j) <= Steps(Units(diff), count, 0)
    ensures forall j :: 1 <= j < count ==>
      Distribute(base, count, diff)[j] == base + Sign(diff) * Step * Steps(Units(diff), count, j)
    ensures forall j :: 1 <= j < count ==> (Distribute(base, count, diff)[j] - base) % Step == 0
    ensures forall j, k :: 1 <= j < count && 1 <= k < count ==>
      -Step <= Distribute(base, count, diff)[j] - Distribute(base, count, diff)[k] <= Step
  {
    var u := Units(diff);
    forall j | 0 <= j < count
      ensures u / count <= Steps(u, count, j) <= CeilDiv(u, count)
      ensures Steps(u, count, j) <= Steps(u, count, 0)
    {
      StepsBalanced(u, count, j);
    }
    var s := Distribute(base, count, diff);
    forall j | 1 <= j < count
      ensures (s[j] - base) % Step == 0
    {
      MultipleOfStep(Sign(diff) * Steps(u, count, j));
    }
    forall j, k | 1 <= j < count && 1 <= k < count
      ensures -Step <= s[j] - s[k] <= Step
    {
      var sj, sk := Steps(u, count, j), Steps(u, count, k);
      SpreadOneStep(Sign(diff), sj, sk);
    }
  }

  /**
   * The "within 100" bound holds only for members 1..count-1: member 0 also
   * takes the sub-100 leftover, so it can be up to 199 away from the others: above them for a
   * positive error, below them for a negative one.
   */
  lemma LeaderOffByLeftover()
    ensures Distribute(0, 2, 199) == [199, 0]
    ensures Distribute(0, 2, -199) == [-199, 0]
  {
    assert Units(199) == 1 && Leftover(199) == 99;
    assert Units(-199) == 1 && Leftover(-199) == 99;
    assert Steps(1, 2, 0) == 1 && Steps(1, 2, 1) == 0;
  }

  lemma MultipleOfStep(k: int)
    ensures (Step * k) % Step == 0
  {
    DivDecomp(k, Step, 0);
  }

  lemma SpreadOneStep(sg: int, a: int, b: int)
    requires sg == 1 || sg == -1
    requires -1 <= a - b <= 1
    ensures -Step <= sg * Step * a - sg * Step * b <= Step
  {
    assert sg * Step * a - sg * Step * b == sg * Step * (a - b);
  }

  // ---------------------------------------------------------------------
  // toBreakdown (lines 39-47)
  // ---------------------------------------------------------------------

  /**
   * `map.set(amount, (map.get(amount) ?? 0) + 1)` on a JavaScript Map,
   * modelled as an association list in insertion order.
   */
  function Bump(entries: seq<GroupBreakdown>, amount: int): (r: seq<GroupBreakdown>)
    ensures |r| >= 1
  {
    if entries == [] then [GroupBreakdown(amount, 1)]
    else if entries[0].amount == amount then [GroupBreakdown(amount, entries[0].count + 1)] + entries[1..]
    else [entries[0]] + Bump(entries[1..], amount)
  }

  /** The Map built by `amounts.forEach(...)`. */
  function Tally(amounts: seq<int>): seq<GroupBreakdown>
  {
    if |amounts| == 0 then [] else Bump(Tally(amounts[..|amounts| - 1]), amounts[|amounts| - 1])
  }

  /** Index of the first entry with the least amount. */
  function MinIndex(e: seq<GroupBreakdown>): (m: nat)
    requires |e| > 0
    ensures m < |e| && forall k :: 0 <= k < |e| ==> e[m].amount <= e[k].amount
  {
    if |e| == 1 then 0
    else
      var m := MinIndex(e[1..]) + 1;
      if e[0].amount <= e[m].amount then 0 else m
  }

  /** `.sort((a, b) => a[0] - b[0])`: selection sort by amount. */
  function SortByAmount(e: seq<GroupBreakdown>): (r: seq<GroupBreakdown>)
    decreases |e|
  {
    if e == [] then []
    else
      var m := MinIndex(e);
      [e[m]] + SortByAmount(e[..m] + e[m + 1..])
  }

  /** The value of `toBreakdown(amounts)`. */
  function Breakdown(amounts: seq<int>): seq<GroupBreakdown>
  {
    SortByAmount(Tally(amounts))
  }

  /** toBreakdown: tally the amounts in a Map, then emit its entries sorted. */
  method ToBreakdown(amounts: seq<int>) returns (b: seq<GroupBreakdown>)
    ensures b == Breakdown(amounts)
  {
    var tally := [];
    for i := 0 to |amounts|
      invariant tally == Tally(amounts[..i])
    {
      assert amounts[..i + 1][..i] == amounts[..i];
      tally := Bump(tally, amounts[i]);
    }
    assert amounts[..|amounts|] == amounts;
    b := SortByAmount(tally);
  }

  ghost predicate StrictlyAscending(b: seq<GroupBreakdown>)
  {
    forall i, j :: 0 <= i < j < |b| ==> b[i].amount < b[j].amount
  }

  ghost predicate Distinct(b: seq<GroupBreakdown>)
  {
    forall i, j :: 0 <= i < |b| && 0 <= j < |b| && i != j ==> b[i].amount != b[j].amount
  }

  ghost predicate Absent(b: seq<GroupBreakdown>, x: int)
  {
    forall k :: 0 <= k < |b| ==> b[k].amount != x
  }

  ghost predicate AllPositive(b: seq<GroupBreakdown>)
  {
    forall k :: 0 <= k < |b| ==> b[k].count >= 1
  }

  lemma {:induction false} ConcatSums(a: seq<GroupBreakdown>, b: seq<GroupBreakdown>, x: int)
    ensures WeightedSum(a + b) == WeightedSum(a) + WeightedSum(b)
    ensures CountSum(a + b) == CountSum(a) + CountSum(b)
    ensures CountOf(a + b, x) == CountOf(a, x) + CountOf(b, x)
  {
    if a != [] {
      assert (a + b)[1..] == a[1..] + b;
      ConcatSums(a[1..], b, x);
    } else {
      assert a + b == b;
    }
  }

  lemma {:induction false} BumpFacts(e: seq<GroupBreakdown>, v: int, x: int)
    ensures WeightedSum(Bump(e, v)) == WeightedSum(e) + v
    ensures CountSum(Bump(e, v)) == CountSum(e) + 1
    ensures CountOf(Bump(e, v), x) == CountOf(e, x) + (if x == v then 1 else 0)
    ensures Absent(Bump(e, v), x) <==> Absent(e, x) && x != v
    ensures AllPositive(e) ==> AllPositive(Bump(e, v))
  {
    if e == [] {
    } else if e[0].amount == v {
      var r := Bump(e, v);
      assert r[1..] == e[1..];
      assert Absent(e, x) <==> e[0].amount != x && Absent(e[1..], x) by {
        if Absent(e[1..], x) && e[0].amount != x {
          forall k | 0 <= k < |e| ensures e[k].amount != x { if k > 0 { assert e[k] == e[1..][k - 1]; } }
        }
      }
      assert Absent(r, x) <==> r[0].amount != x && Absent(r[1..], x) by {
        if Absent(r[1..], x) && r[0].amount != x {
          forall k | 0 <= k < |r| ensures r[k].amount != x { if k > 0 { assert r[k] == r[1..][k - 1]; } }
        }
      }
    } else {
      var r := Bump(e, v);
      BumpFacts(e[1..], v, x);
      assert r[1..] == Bump(e[1..], v);
      assert Absent(e, x) <==> e[0].amount != x && Absent(e[1..], x) by {
        if Absent(e[1..], x) && e[0].amount != x {
          forall k | 0 <= k < |e| ensures e[k].amount != x { if k > 0 { assert e[k] == e[1..][k - 1]; } }
        }
      }
      assert Absent(r, x) <==> r[0].amount != x && Absent(r[1..], x) by {
        if Absent(r[1..], x) && r[0].amount != x {
          forall k | 0 <= k < |r| ensures r[k].amount != x { if k > 0 { assert r[k] == r[1..][k - 1]; } }
        }
      }
      if AllPositive(e) {
        assert AllPositive(e[1..]);
      }
    }
  }

  lemma DistinctCons(h: GroupBreakdown, t: seq<GroupBreakdown>)
    ensures Distinct([h] + t) <==> Absent(t, h.amount) && Distinct(t)
  {
    var s := [h] + t;
    if Absent(t, h.amount) && Distinct(t) {
      forall i, j | 0 <= i < |s| && 0 <= j < |s| && i != j ensures s[i].amount != s[j].amount {
        if i > 0 && j > 0 { assert s[i] == t[i - 1] && s[j] == t[j - 1]; }
      }
    }
    if Distinct(s) {
      forall k | 0 <= k < |t| ensures t[k].amount != h.amount { assert s[0] == h && s[k + 1] == t[k]; }
      forall i, j | 0 <= i < |t| && 0 <= j < |t| && i != j ensures t[i].amount != t[j].amount {
        assert s[i + 1] == t[i] && s[j + 1] == t[j];
      }
    }
  }

  lemma {:induction false} BumpDistinct(e: seq<GroupBreakdown>, v: int)
    requires Distinct(e)
    ensures Distinct(Bump(e, v))
  {
    if e == [] {
    } else if e[0].amount == v {
      DistinctCons(e[0], e[1..]);
      assert e == [e[0]] + e[1..];
      DistinctCons(GroupBreakdown(v, e[0].count + 1), e[1..]);
    } else {
      assert e == [e[0]] + e[1..];
      DistinctCons(e[0], e[1..]);
      BumpDistinct(e[1..], v);
      BumpFacts(e[1..], v, e[0].amount);
      DistinctCons(e[0], Bump(e[1..], v));
    }
  }

  /** The Map's entries: distinct keys, positive counts that are occurrences. */
  lemma {:induction false} TallyFacts(a: seq<int>, x: int)
    ensures Distinct(Tally(a)) && AllPositive(Tally(a))
    ensures WeightedSum(Tally(a)) == Sum(a)
    ensures CountSum(Tally(a)) == |a|
    ensures CountOf(Tally(a), x) == Occ(a, x)
  {
    if |a| > 0 {
      var init, v := a[..|a| - 1], a[|a| - 1];
      TallyFacts(init, x);
      BumpFacts(Tally(init), v, x);
      BumpDistinct(Tally(init), v);
    }
  }

  /** The selection step of SortByAmount splits the sums. */
  lemma SelectSums(e: seq<GroupBreakdown>, x: int)
    requires |e| > 0
    ensures var m := MinIndex(e); var rest := e[..m] + e[m + 1..];
      && WeightedSum(e) == WeightedSum([e[m]]) + WeightedSum(rest)
      && CountSum(e) == CountSum([e[m]]) + CountSum(rest)
      && CountOf(e, x) == CountOf([e[m]], x) + CountOf(rest, x)
  {
    var m := MinIndex(e);
    var pre, post := e[..m], e[m + 1..];
    assert e == pre + ([e[m]] + post);
    ConcatSums(pre, [e[m]] + post, x);
    ConcatSums([e[m]], post, x);
    ConcatSums(pre, post, x);
  }

  /** The entries left after the selection step keep positivity and distinctness. */
  lemma SelectRest(e: seq<GroupBreakdown>)
    requires |e| > 0
    ensures var m := MinIndex(e); var rest := e[..m] + e[m + 1..];
      && (AllPositive(e) ==> AllPositive(rest))
      && (forall y :: Absent(e, y) ==> Absent(rest, y))
      && (Distinct(e) ==> Distinct(rest) && forall k :: 0 <= k < |rest| ==> e[m].amount < rest[k].amount)
  {
    var m := MinIndex(e);
    var rest := e[..m] + e[m + 1..];
    assert forall k :: 0 <= k < |rest| ==> rest[k] == e[if k < m then k else k + 1];
  }

  /** Sorting keeps the sums and the count of every amount. */
  lemma {:induction false} SortSums(e: seq<GroupBreakdown>, x: int)
    ensures WeightedSum(SortByAmount(e)) == WeightedSum(e)
    ensures CountSum(SortByAmount(e)) == CountSum(e)
    ensures CountOf(SortByAmount(e), x) == CountOf(e, x)
    decreases |e|
  {
    if e != [] {
      var m := MinIndex(e);
      var rest := e[..m] + e[m + 1..];
      SelectSums(e, x);
      SortSums(rest, x);
      ConcatSums([e[m]], SortByAmount(rest), x);
    }
  }

  /** Sorting adds no amount and keeps counts positive. */
  lemma {:induction false} SortKeeps(e: seq<GroupBreakdown>)
    ensures AllPositive(e) ==> AllPositive(SortByAmount(e))
    ensures forall y :: Absent(e, y) ==> Absent(SortByAmount(e), y)
    decreases |e|
  {
    if e != [] {
      var m := MinIndex(e);
      var rest := e[..m] + e[m + 1..];
      var t := SortByAmount(rest);
      var r := SortByAmount(e);
      assert r == [e[m]] + t;
      SelectRest(e);
      SortKeeps(rest);
      assert forall k :: 0 <= k < |r| ==> r[k] == if k == 0 then e[m] else t[k - 1];
    }
  }

  /** Sorting entries with distinct amounts orders them strictly. */
  lemma {:induction false} SortAscending(e: seq<GroupBreakdown>)
    requires Distinct(e)
    ensures StrictlyAscending(SortByAmount(e))
    decreases |e|
  {
    if e != [] {
      var m := MinIndex(e);
      var rest := e[..m] + e[m + 1..];
      var t := SortByAmount(rest);
      var r := SortByAmount(e);
      assert r == [e[m]] + t;
      SelectRest(e);
      SortAscending(rest);
      SortKeeps(rest);
      forall k | 0 <= k < |t| ensures e[m].amount < t[k].amount {
        var y := t[k].amount;
        assert !Absent(t, y);
        assert !Absent(rest, y);
        var idx :| 0 <= idx < |rest| && rest[idx].amount == y;
      }
      forall i, j | 0 <= i < j < |r| ensures r[i].amount < r[j].amount {
        if i > 0 { assert r[i] == t[i - 1] && r[j] == t[j - 1]; }
        else { assert r[j] == t[j - 1]; }
      }
    }
  }

  lemma {:induction false} CountOfDistinct(b: seq<GroupBreakdown>, k: nat)
    requires Distinct(b) && k < |b|
    ensures CountOf(b, b[k].amount) == b[k].count
  {
    assert b == [b[0]] + b[1..];
    DistinctCons(b[0], b[1..]);
    if k == 0 {
      AbsentCountOf(b[1..], b[0].amount);
    } else {
      assert b[k] == b[1..][k - 1];
      CountOfDistinct(b[1..], k - 1);
    }
  }

  lemma {:induction false} AbsentCountOf(b: seq<GroupBreakdown>, x: int)
    requires Absent(b, x)
    ensures CountOf(b, x) == 0
  {
    if b != [] {
      assert Absent(b[1..], x) by {
        forall k | 0 <= k < |b[1..]| ensures b[1..][k].amount != x { assert b[1..][k] == b[k + 1]; }
      }
      AbsentCountOf(b[1..], x);
    }
  }

  /**
   * toBreakdown conserves its input: the buckets are strictly ascending,
   * every count is positive and is the number of occurrences of its
   * amount, the counts add up to the input length and the buckets add up
   * to the input's sum.
   */
  lemma BreakdownSpec(a: seq<int>)
    ensures StrictlyAscending(Breakdown(a))
    ensures forall k :: 0 <= k < |Breakdown(a)| ==> Breakdown(a)[k].count >= 1
    ensures forall k :: 0 <= k < |Breakdown(a)| ==>
      Breakdown(a)[k].count == multiset(a)[Breakdown(a)[k].amount]
    ensures forall x :: CountOf(Breakdown(a), x) == multiset(a)[x]
    ensures CountSum(Breakdown(a)) == |a|
    ensures WeightedSum(Breakdown(a)) == Sum(a)
  {
    var b := Breakdown(a);
    TallyFacts(a, 0);
    SortSums(Tally(a), 0);
    SortKeeps(Tally(a));
    SortAscending(Tally(a));
    forall x ensures CountOf(b, x) == multiset(a)[x] {
      TallyFacts(a, x);
      SortSums(Tally(a), x);
      OccIsMultiplicity(a, x);
    }
    assert Distinct(b);
    forall k | 0 <= k < |b| ensures b[k].count == multiset(a)[b[k].amount] {
      CountOfDistinct(b, k);
    }
  }

  /** The breakdown of a group of `n` members who all pay `base`. */
  function Single(base: int, n: int): seq<GroupBreakdown>
  {
    if n <= 0 then [] else [GroupBreakdown(base, n)]
  }

  /** A group whose members all pay `base` has the single bucket (base, count). */
  lemma {:induction false} UniformBreakdown(base: int, n: nat)
    ensures Tally(seq(n, _ => base)) == Single(base, n)
    ensures Breakdown(seq(n, _ => base)) == Single(base, n)
  {
    var s := seq(n, _ => base);
    if n > 0 {
      assert s[..n - 1] == seq(n - 1, _ => base);
      UniformBreakdown(base, n - 1);
      var e := [GroupBreakdown(base, n)];
      assert MinIndex(e) == 0;
      assert e[..0] + e[1..] == [];
    }
  }

  // ---------------------------------------------------------------------
  // calcSplit (lines 49-81)
  // ---------------------------------------------------------------------

  /** What the caller guarantees (the input checks of the form). */
  predicate ValidCounts(people: int, low: int, high: int)
  {
    people >= 1 && low >= 0 && high >= 0 && low + high <= people
  }

  function NormalCount(people: int, low: int, high: int): int
  {
    people - low - high
  }

  function WeightSum(people: int, low: int, high: int): real
  {
    (low as real) * LowWeight + (NormalCount(people, low, high) as real) * NormalWeight
    + (high as real) * HighWeight
  }

  /** The group that absorbs the whole rounding error. */
  function TargetOf(normal: int, high: int): Target
  {
    if high > 0 then High else if normal > 0 then Normal else Low
  }

  function GroupCount(t: Target, low: int, normal: int, high: int): int
  {
    match t
    case Low => low
    case Normal => normal
    case High => high
  }

  /**
   * Lines 55 and 61-80 for given per-person bases: the error diff goes to
   * the target group, the others keep their base.
   */
  function Assemble(total: int, people: int, low: int, high: int,
                    baseLow: int, baseNormal: int, baseHigh: int): (r: SplitResult)
    ensures r.total == total && r.people == people
    ensures r.low.count + r.normal.count + r.high.count == people
    ensures r.normal.count == people - low - high
  {
    var normal := NormalCount(people, low, high);
    var baseTotal := baseLow * low + baseNormal * normal + baseHigh * high;
    var diff := total - baseTotal;
    var target := TargetOf(normal, high);
    SplitResult(
      total,
      people,
      SplitGroup(low, Breakdown(Distribute(baseLow, low, if target == Low then diff else 0))),
      SplitGroup(normal, Breakdown(Distribute(baseNormal, normal, if target == Normal then diff else 0))),
      SplitGroup(high, Breakdown(Distribute(baseHigh, high, if target == High then diff else 0))))
  }

  /**
   * The per-person base of a group of the given weight (lines 57-60):
   * `roundTo100(total / weightSum * weight)`, within 50 yen of the exact
   * weighted share.
   */
  function BaseFor(total: int, people: int, low: int, high: int, weight: real): (b: int)
    requires WeightSum(people, low, high) != 0.0
    ensures b % Step == 0
    ensures var share := (total as real) / WeightSum(people, low, high) * weight;
      (b as real) - 50.0 <= share < (b as real) + 50.0
  {
    RoundTo100((total as real) / WeightSum(people, low, high) * weight)
  }

  /** `calcSplit(total, people, low, high)` with exact weights. */
  function CalcSplit(total: int, people: int, low: int, high: int): (r: SplitResult)
    requires WeightSum(people, low, high) != 0.0
    ensures r.total == total && r.people == people
    ensures r.low.count == low && r.high.count == high
    ensures r.normal.count == people - low - high
  {
    Assemble(total, people, low, high,
             BaseFor(total, people, low, high, LowWeight),
             BaseFor(total, people, low, high, NormalWeight),
             BaseFor(total, people, low, high, HighWeight))
  }

  /**
   * In calcSplit's own terms: the groups other than the target keep the
   * rounded weighted share of `total / weightSum` as a single bucket.
   */
  lemma CalcSplitShape(total: int, people: int, low: int, high: int)
    requires ValidCounts(people, low, high)
    ensures WeightSum(people, low, high) > 0.0
    ensures var r := CalcSplit(total, people, low, high);
      var normal := NormalCount(people, low, high);
      var t := TargetOf(normal, high);
      && (t != Low ==> r.low.breakdown == Single(BaseFor(total, people, low, high, LowWeight), low))
      && (t != Normal ==> r.normal.breakdown == Single(BaseFor(total, people, low, high, NormalWeight), normal))
      && (t != High ==> r.high.breakdown == Single(BaseFor(total, people, low, high, HighWeight), high))
  {
    TargetNonEmpty(people, low, high);
    AssembleShape(total, people, low, high,
                  BaseFor(total, people, low, high, LowWeight),
                  BaseFor(total, people, low, high, NormalWeight),
                  BaseFor(total, people, low, high, HighWeight));
  }

  /** Under the caller's guarantees the target group is non-empty and the weights are positive. */
  lemma TargetNonEmpty(people: int, low: int, high: int)
    requires ValidCounts(people, low, high)
    ensures GroupCount(TargetOf(NormalCount(people, low, high), high), low, NormalCount(people, low, high), high) > 0
    ensures WeightSum(people, low, high) > 0.0
  {
  }

  function ResultTotal(r: SplitResult): int
  {
    WeightedSum(r.low.breakdown) + WeightedSum(r.normal.breakdown) + WeightedSum(r.high.breakdown)
  }

  lemma GroupAbsorbs(base: int, count: int, diff: int)
    requires count >= 0
    ensures WeightedSum(Breakdown(Distribute(base, count, diff))) == base * count + (if count > 0 then diff else 0)
    ensures CountSum(Breakdown(Distribute(base, count, diff))) == count
  {
    BreakdownSpec(Distribute(base, count, diff));
    DistributeSum(base, count, diff);
  }

  /**
   * Exactness for ANY integer bases: when the target group is non-empty,
   * the buckets of the three groups add up to `total` and each group's
   * bucket counts add up to its head count.
   */
  lemma AssembleExact(total: int, people: int, low: int, high: int,
                      baseLow: int, baseNormal: int, baseHigh: int)
    requires low >= 0 && high >= 0 && NormalCount(people, low, high) >= 0
    requires GroupCount(TargetOf(NormalCount(people, low, high), high), low, NormalCount(people, low, high), high) > 0
    ensures ResultTotal(Assemble(total, people, low, high, baseLow, baseNormal, baseHigh)) == total
    ensures var r := Assemble(total, people, low, high, baseLow, baseNormal, baseHigh);
      CountSum(r.low.breakdown) == r.low.count && CountSum(r.normal.breakdown) == r.normal.count
      && CountSum(r.high.breakdown) == r.high.count
  {
    var normal := NormalCount(people, low, high);
    var diff := total - (baseLow * low + baseNormal * normal + baseHigh * high);
    var target := TargetOf(normal, high);
    var dl, dn, dh := if target == Low then diff else 0, if target == Normal then diff else 0,
                      if target == High then diff else 0;
    var r := Assemble(total, people, low, high, baseLow, baseNormal, baseHigh);
    assert r.low.breakdown == Breakdown(Distribute(baseLow, low, dl));
    assert r.normal.breakdown == Breakdown(Distribute(baseNormal, normal, dn));
    assert r.high.breakdown == Breakdown(Distribute(baseHigh, high, dh));
    GroupAbsorbs(baseLow, low, dl);
    GroupAbsorbs(baseNormal, normal, dn);
    GroupAbsorbs(baseHigh, high, dh);
    assert (if low > 0 then dl else 0) + (if normal > 0 then dn else 0) + (if high > 0 then dh else 0) == diff;
  }

  /** A non-target group has at most one bucket, and its amount is the group's base. */
  lemma AssembleShape(total: int, people: int, low: int, high: int,
                      baseLow: int, baseNormal: int, baseHigh: int)
    requires low >= 0 && high >= 0 && NormalCount(people, low, high) >= 0
    ensures var r := Assemble(total, people, low, high, baseLow, baseNormal, baseHigh);
      var t := TargetOf(NormalCount(people, low, high), high);
      && (t != Low ==> r.low.breakdown == Single(baseLow, low))
      && (t != Normal ==> r.normal.breakdown == Single(baseNormal, NormalCount(people, low, high)))
      && (t != High ==> r.high.breakdown == Single(baseHigh, high))
  {
    var normal := NormalCount(people, low, high);
    assert Distribute(baseLow, low, 0) == seq(low, _ => baseLow);
    assert Distribute(baseNormal, normal, 0) == seq(normal, _ => baseNormal);
    assert Distribute(baseHigh, high, 0) == seq(high, _ => baseHigh);
    UniformBreakdown(baseLow, low);
    UniformBreakdown(baseNormal, normal);
    UniformBreakdown(baseHigh, high);
  }

  /**
   * The central promise of calcSplit: under the caller's guarantees the
   * buckets of the three groups add up to `total` exactly, and the head
   * counts and bucket counts add up to `people`.
   */
  lemma CalcSplitExact(total: int, people: int, low: int, high: int)
    requires ValidCounts(people, low, high)
    ensures WeightSum(people, low, high) > 0.0
    ensures ResultTotal(CalcSplit(total, people, low, high)) == total
    ensures var r := CalcSplit(total, people, low, high);
      CountSum(r.low.breakdown) + CountSum(r.normal.breakdown) + CountSum(r.high.breakdown) == people
  {
    TargetNonEmpty(people, low, high);
    AssembleExact(total, people, low, high,
                  BaseFor(total, people, low, high, LowWeight),
                  BaseFor(total, people, low, high, NormalWeight),
                  BaseFor(total, people, low, high, HighWeight));
  }

  /** 10000 yen among three normal payers: two pay 3300 and one pays 3400. */
  lemma CalcSplitExampleEqual()
    ensures CalcSplit(10000, 3, 0, 0).normal.breakdown == [GroupBreakdown(3300, 2), GroupBreakdown(3400, 1)]
    ensures CalcSplit(10000, 3, 0, 0).low.breakdown == []
    ensures CalcSplit(10000, 3, 0, 0).high.breakdown == []
  {
    assert WeightSum(3, 0, 0) == 3.0;
    var bn := BaseFor(10000, 3, 0, 0, NormalWeight);
    RoundTo100Unique(10000.0 / 3.0 * NormalWeight, 3300);
    assert bn == 3300;
    var d := Distribute(3300, 3, 100);
    assert d == [3400, 3300, 3300];
    assert d[..2] == [3400, 3300] && d[..2][..1] == [3400] && d[..2][..1][..0] == [];
    assert Tally(d[..2][..1]) == [GroupBreakdown(3400, 1)];
    assert Tally(d[..2]) == Bump([GroupBreakdown(3400, 1)], 3300);
    assert Bump([GroupBreakdown(3400, 1)], 3300) == [GroupBreakdown(3400, 1)] + Bump([], 3300);
    assert Tally(d[..2]) == [GroupBreakdown(3400, 1), GroupBreakdown(3300, 1)];
    assert Tally(d) == Bump([GroupBreakdown(3400, 1), GroupBreakdown(3300, 1)], 3300);
    assert [GroupBreakdown(3400, 1), GroupBreakdown(3300, 1)][1..] == [GroupBreakdown(3300, 1)];
    assert Tally(d) == [GroupBreakdown(3400, 1), GroupBreakdown(3300, 2)];
    var e := Tally(d);
    assert MinIndex(e) == 1;
    assert e[..1] + e[2..] == [GroupBreakdown(3400, 1)];
    var e1 := [GroupBreakdown(3400, 1)];
    assert MinIndex(e1) == 0 && e1[..0] + e1[1..] == [];
    assert Breakdown(d) == [GroupBreakdown(3300, 2), GroupBreakdown(3400, 1)];
  }

  /** 5000 yen between one light and one normal payer: 2200 and 2800, no adjustment. */
  lemma CalcSplitExampleWeighted()
    ensures CalcSplit(5000, 2, 1, 0).low.breakdown == [GroupBreakdown(2200, 1)]
    ensures CalcSplit(5000, 2, 1, 0).normal.breakdown == [GroupBreakdown(2800, 1)]
    ensures CalcSplit(5000, 2, 1, 0).high.breakdown == []
  {
    assert WeightSum(2, 1, 0) == 1.8;
    RoundTo100Unique(5000.0 / 1.8 * LowWeight, 2200);
    RoundTo100Unique(5000.0 / 1.8 * NormalWeight, 2800);
    assert BaseFor(5000, 2, 1, 0, LowWeight) == 2200;
    assert BaseFor(5000, 2, 1, 0, NormalWeight) == 2800;
    CalcSplitShape(5000, 2, 1, 0);
    assert Distribute(2800, 1, 0) == [2800];
    UniformBreakdown(2800, 1);
    assert [2800] == seq(1, _ => 2800);
  }
}
