/**
 * Lesson-completion flags and the percentage `progressFor` derives from them:
 * `Math.round(done / completed.length * 100)`, computed here in integers.
 */
module Progress {

  /** `flags.filter(Boolean).length`. */
  function CountTrue(flags: seq<bool>): (n: nat)
    ensures n <= |flags|
  {
    if flags == [] then 0 else (if flags[0] then 1 else 0) + CountTrue(flags[1..])
  }

  /** `Math.round(done / total * 100)` for non-negative operands: floor(100 * done / total + 1/2). */
  function Percent(done: nat, total: nat): (p: nat)
    requires 0 < total && done <= total
    ensures p <= 100
    ensures 2 * total * p <= 200 * done + total < 2 * total * (p + 1)
  {
    var x, d := 200 * done + total, 2 * total;
    var p := x / d;
    assert d * p <= x < d * (p + 1) by {
      assert x == d * p + x % d;
    }
    MulMono(d, 101, p);
    p
  }

  /** Multiplying by a non-negative factor keeps the order. */
  lemma MulMono(t: nat, a: int, b: int)
    ensures a <= b ==> t * a <= t * b
  {
    if a <= b {
      assert t * b - t * a == t * (b - a);
    }
  }

  /** Rounding is monotone: more completed lessons never give a smaller percentage. */
  lemma PercentMonotone(d1: nat, d2: nat, total: nat)
    requires 0 < total && d1 <= d2 <= total
    ensures Percent(d1, total) <= Percent(d2, total)
  {
    var p1, p2 := Percent(d1, total), Percent(d2, total);
    MulMono(2 * total, p2 + 1, p1);
  }

  /** Nothing done rounds to 0; for at most 200 lessons that is the only way to get 0. */
  lemma PercentZeroIff(done: nat, total: nat)
    requires 0 < total <= 200 && done <= total
    ensures Percent(done, total) == 0 <==> done == 0
  {
    var p := Percent(done, total);
    MulMono(2 * total, 1, p);
    MulMono(2 * total, p + 1, 1);
    MulMono(200, 1, done);
  }

  /** Everything done rounds to 100; for fewer than 200 lessons that is the only way to get 100. */
  lemma PercentFullIff(done: nat, total: nat)
    requires 0 < total < 200 && done <= total
    ensures Percent(done, total) == 100 <==> done == total
  {
    var p := Percent(done, total);
    MulMono(2 * total, p + 1, 100);
    MulMono(2 * total, 100, p);
    MulMono(200, done + 1, total);
  }

  /** `Array(n).fill(v)`: `n` flags, all equal to `v`. */
  function AllOf(n: nat, v: bool): (r: seq<bool>)
    ensures |r| == n
    ensures forall k :: 0 <= k < n ==> r[k] == v
  {
    seq(n, _ => v)
  }

  /** `flags.map(() => v)`: every flag replaced by `v`, length kept. */
  function Fill(flags: seq<bool>, v: bool): (r: seq<bool>)
    ensures |r| == |flags|
    ensures forall k :: 0 <= k < |r| ==> r[k] == v
  {
    AllOf(|flags|, v)
  }

  /** Mark-all and reset are idempotent, and either one wipes out the other. */
  lemma FillLaws(flags: seq<bool>, v: bool, w: bool)
    ensures Fill(Fill(flags, v), v) == Fill(flags, v)
    ensures Fill(Fill(flags, v), w) == Fill(flags, w)
  {
  }

  /** `CountTrue` reaches the length exactly when every flag is set. */
  lemma {:induction false} CountAll(flags: seq<bool>)
    ensures CountTrue(flags) == |flags| <==> forall k :: 0 <= k < |flags| ==> flags[k]
  {
    if flags != [] {
      CountAll(flags[1..]);
      assert forall k :: 1 <= k < |flags| ==> flags[k] == flags[1..][k - 1];
    }
  }

  /** `CountTrue` is zero exactly when no flag is set. */
  lemma {:induction false} CountNone(flags: seq<bool>)
    ensures CountTrue(flags) == 0 <==> forall k :: 0 <= k < |flags| ==> !flags[k]
  {
    if flags != [] {
      CountNone(flags[1..]);
      assert forall k :: 1 <= k < |flags| ==> flags[k] == flags[1..][k - 1];
    }
  }

  /** Setting one flag changes the count by that flag's change only. */
  lemma {:induction false} CountUpdate(flags: seq<bool>, i: nat, v: bool)
    requires i < |flags|
    ensures CountTrue(flags[i := v]) == CountTrue(flags) - (if flags[i] then 1 else 0) + (if v then 1 else 0)
  {
    if i > 0 {
      CountUpdate(flags[1..], i - 1, v);
      assert flags[i := v][1..] == flags[1..][i - 1 := v];
    }
  }

  /** Turning flags on (and none off) never lowers the count. */
  lemma {:induction false} CountPointwise(a: seq<bool>, b: seq<bool>)
    requires |a| == |b|
    requires forall k :: 0 <= k < |a| ==> a[k] ==> b[k]
    ensures CountTrue(a) <= CountTrue(b)
  {
    if a != [] {
      CountPointwise(a[1..], b[1..]);
    }
  }

  /** Rounding on a six-lesson course: 2 of 6 lessons give 33%, 3 give 50%, 1 gives 17%. */
  lemma PercentExamples()
    ensures Percent(CountTrue([true, true, false, false, false, false]), 6) == 33
    ensures Percent(CountTrue([true, true, true, false, false, false]), 6) == 50
    ensures Percent(1, 6) == 17
  {
    assert CountTrue([true, true, false, false, false, false]) == 2 by {
      CountUpdate([true, false, false, false, false, false], 1, true);
      CountUpdate([false, false, false, false, false, false], 0, true);
      CountNone([false, false, false, false, false, false]);
      assert [true, false, false, false, false, false][1 := true] == [true, true, false, false, false, false];
      assert [false, false, false, false, false, false][0 := true] == [true, false, false, false, false, false];
    }
    assert CountTrue([true, true, true, false, false, false]) == 3 by {
      CountUpdate([true, true, false, false, false, false], 2, true);
      assert [true, true, false, false, false, false][2 := true] == [true, true, true, false, false, false];
    }
  }
}
