/** The checkout progress throttle of `clone_with_progress` (src/git_ops.rs
    and src/main.rs). The callback receives `(completed, total)` as `usize`
    values and reports a step only when it has advanced far enough since
    the last report, or when it is the final step. The subtraction is on
    `usize`; it is modelled with the wrap-around of a release build. */
module Progress {

  const UsizeModulus: nat := 0x1_0000_0000_0000_0000

  /** Steps between two intermediate reports. */
  const ReportEvery: nat := 1000

  predicate IsUsize(n: int) {
    0 <= n < UsizeModulus
  }

  /** `a - b` on `usize` without the overflow check. */
  function WrappingSub(a: nat, b: nat): (r: nat)
    requires IsUsize(a) && IsUsize(b)
    ensures IsUsize(r)
    ensures a >= b ==> r == a - b
    ensures a < b ==> r + b == a + UsizeModulus
  {
    (a - b) % UsizeModulus
  }

  /** The callback's captured state: the last step it reported. */
  datatype Throttle = Throttle(lastReported: nat)

  const InitialThrottle: Throttle := Throttle(0)

  predicate Valid(t: Throttle) {
    IsUsize(t.lastReported)
  }

  /** One call of the progress callback: the new state, and whether it
      reports this step. */
  function OnProgress(t: Throttle, completed: nat, total: nat): (r: (Throttle, bool))
    requires Valid(t) && IsUsize(completed) && IsUsize(total)
    ensures Valid(r.0)
    ensures total == 0 ==> !r.1
    ensures t.lastReported <= completed ==>
      (r.1 <==> total > 0 && (completed - t.lastReported >= ReportEvery || completed == total))
    ensures 0 < total == completed ==> r.1
    ensures 0 < total && completed < t.lastReported <= completed + UsizeModulus - ReportEvery ==> r.1
    ensures r.1 ==> r.0.lastReported == completed
    ensures !r.1 ==> r.0 == t
  {
    if total > 0 && (WrappingSub(completed, t.lastReported) >= ReportEvery || completed == total) then
      (Throttle(completed), true)
    else (t, false)
  }

  predicate AllUsize(steps: seq<nat>) {
    forall i :: 0 <= i < |steps| ==> IsUsize(steps[i])
  }

  predicate NonDecreasing(steps: seq<nat>) {
    forall i, j :: 0 <= i < j < |steps| ==> steps[i] <= steps[j]
  }

  lemma AllUsizeTail(steps: seq<nat>)
    requires |steps| > 0 && AllUsize(steps)
    ensures AllUsize(steps[1..]) && IsUsize(steps[0])
  {
    forall i | 0 <= i < |steps[1..]| ensures IsUsize(steps[1..][i]) {
      assert steps[1..][i] == steps[i + 1];
    }
  }

  lemma NonDecreasingTail(steps: seq<nat>)
    requires |steps| > 0 && NonDecreasing(steps)
    ensures NonDecreasing(steps[1..])
    ensures |steps| > 1 ==> steps[0] <= steps[1..][0]
  {
    forall i, j | 0 <= i < j < |steps[1..]| ensures steps[1..][i] <= steps[1..][j] {
      assert steps[1..][i] == steps[i + 1] && steps[1..][j] == steps[j + 1];
    }
  }

  /** A whole checkout: the state after the last call and the steps
      reported, in order. */
  function Replay(t: Throttle, steps: seq<nat>, total: nat): (r: (Throttle, seq<nat>))
    requires Valid(t) && AllUsize(steps) && IsUsize(total)
    ensures Valid(r.0)
    ensures total == 0 ==> r.0 == t && r.1 == []
    ensures forall x :: x in r.1 ==> x in steps
    decreases |steps|
  {
    if |steps| == 0 then (t, [])
    else
      AllUsizeTail(steps);
      var step := OnProgress(t, steps[0], total);
      var rest := Replay(step.0, steps[1..], total);
      var out := (if step.1 then [steps[0]] else []) + rest.1;
      assert forall x :: x in out ==> x in steps by {
        forall x | x in out ensures x in steps {
          if x !in rest.1 {
            assert x == steps[0];
          } else {
            assert x in steps[1..];
          }
        }
      }
      assert total == 0 ==> out == rest.1;
      (rest.0, out)
  }

  /** Consecutive reports, starting from `prev`, are at least `ReportEvery`
      apart unless the later one is the final step. */
  predicate Spaced(prev: nat, reported: seq<nat>, total: nat) {
    forall i :: 0 <= i < |reported| ==>
      reported[i] == total || reported[i] >= (if i == 0 then prev else reported[i - 1]) + ReportEvery
  }

  /** A report far enough from `prev`, followed by reports spaced from it,
      is spaced from `prev`. */
  lemma SpacedCons(prev: nat, x: nat, rest: seq<nat>, total: nat)
    requires x == total || x >= prev + ReportEvery
    requires Spaced(x, rest, total)
    ensures Spaced(prev, [x] + rest, total)
  {
    var out := [x] + rest;
    forall i | 0 <= i < |out|
      ensures out[i] == total || out[i] >= (if i == 0 then prev else out[i - 1]) + ReportEvery
    {
      if i > 0 {
        assert out[i] == rest[i - 1];
        assert rest[i - 1] == total || rest[i - 1] >= (if i - 1 == 0 then x else rest[i - 2]) + ReportEvery;
        if i == 1 {
          assert out[0] == x;
        } else {
          assert out[i - 1] == rest[i - 2];
        }
      }
    }
  }

  /** The last report of a replay, or the starting state when nothing is reported. */
  predicate RemembersLast(t: Throttle, r: (Throttle, seq<nat>)) {
    if |r.1| == 0 then r.0 == t else r.0.lastReported == r.1[|r.1| - 1]
  }

  /** With steps that never go backwards, intermediate reports are at least
      `ReportEvery` steps apart, and the state remembers the last report. */
  lemma {:induction false} ReplaySpaced(t: Throttle, steps: seq<nat>, total: nat)
    requires Valid(t) && AllUsize(steps) && IsUsize(total)
    requires NonDecreasing(steps)
    requires |steps| > 0 ==> t.lastReported <= steps[0]
    ensures Spaced(t.lastReported, Replay(t, steps, total).1, total)
    ensures RemembersLast(t, Replay(t, steps, total))
    decreases |steps|
  {
    if |steps| > 0 {
      AllUsizeTail(steps);
      NonDecreasingTail(steps);
      var step := OnProgress(t, steps[0], total);
      var rest := Replay(step.0, steps[1..], total);
      var r := Replay(t, steps, total);
      ReplaySpaced(step.0, steps[1..], total);
      if step.1 {
        assert r == (rest.0, [steps[0]] + rest.1);
        SpacedCons(t.lastReported, steps[0], rest.1, total);
      } else {
        assert r == (rest.0, [] + rest.1);
        assert [] + rest.1 == rest.1;
      }
    }
  }

  /** When the last step is the total, the last report is the total. */
  lemma {:induction false} ReplayEndsWithTotal(t: Throttle, steps: seq<nat>, total: nat)
    requires Valid(t) && AllUsize(steps) && IsUsize(total)
    requires total > 0 && |steps| > 0 && steps[|steps| - 1] == total
    ensures |Replay(t, steps, total).1| > 0
    ensures Replay(t, steps, total).1[|Replay(t, steps, total).1| - 1] == total
    decreases |steps|
  {
    AllUsizeTail(steps);
    var step := OnProgress(t, steps[0], total);
    var rest := Replay(step.0, steps[1..], total);
    if |steps| > 1 {
      assert steps[1..][|steps[1..]| - 1] == total;
      ReplayEndsWithTotal(step.0, steps[1..], total);
    } else {
      assert step.1;
      assert rest.1 == [];
    }
  }
}
