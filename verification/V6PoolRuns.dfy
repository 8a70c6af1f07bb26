/**
 Sequences of pool operations: every pool answers as one finite map would, and while no client
 holds two addresses the map alone decides every answer, so the storage mode cannot be observed.
 */
module DhcpV6PoolRuns {
  import opened Wrappers
  import opened Leases
  import opened DhcpV6Pool

  datatype PoolOp =
    | Insert(duid: Duid, addr: Addr6, expiry: Option<Time>)
    | Discover(duid: Duid, now: Time)
    | Request(duid: Duid, addr: Addr6, now: Time)
    | Release(duid: Duid)

  datatype Answer =
    | Inserted
    | Offer(ip: Option<nat>)
    | Commit(granted: Result<nat, PoolError>)
    | Freed(released: bool)

  ghost function Apply(p: Policy, duration: nat, t: Table6, cur: Option<nat>, op: PoolOp): (Table6, Answer) {
    match op
    case Insert(d, a, e) => (InsertSpec(t, a, d, e), Inserted)
    case Discover(_, now) => var (t', r) := DiscoverSpec(p, t, cur, now); (t', Offer(r))
    case Request(d, a, now) => var (t', r) := RequestSpec(p, duration, t, cur, d, a, now); (t', Commit(r))
    case Release(_) => var (t', r) := ReleaseSpec(t, cur); (t', Freed(r))
  }

  /** `ans` and `t'` are what the one map gives for `op`, whichever lease of the client the lookup finds. */
  ghost predicate PoolStep(p: Policy, duration: nat, t: Table6, op: PoolOp, t': Table6, ans: Answer) {
    exists cur :: IsCurrent(t.leases, op.duid, cur) && (t', ans) == Apply(p, duration, t, cur, op)
  }

  ghost predicate PoolRun(p: Policy, duration: nat, ts: seq<Table6>, ops: seq<PoolOp>, answers: seq<Answer>) {
    && |ts| == |ops| + 1 && |answers| == |ops|
    && forall i :: 0 <= i < |ops| ==> PoolStep(p, duration, ts[i], ops[i], ts[i + 1], answers[i])
  }

  /** Commit, offer and release keep one address per client. */
  lemma StepKeepsOneEach(p: Policy, duration: nat, t: Table6, op: PoolOp, t': Table6, ans: Answer)
    requires PoolStep(p, duration, t, op, t', ans) && OneEach(t.leases) && !op.Insert?
    ensures OneEach(t'.leases)
  {
  }

  lemma StepIsDecided(
      p: Policy, duration: nat, t: Table6, op: PoolOp, t1: Table6, ans1: Answer, t2: Table6, ans2: Answer)
    requires PoolStep(p, duration, t, op, t1, ans1) && PoolStep(p, duration, t, op, t2, ans2)
    requires OneEach(t.leases)
    ensures t1 == t2 && ans1 == ans2
  {
    var cur1 :| IsCurrent(t.leases, op.duid, cur1) && (t1, ans1) == Apply(p, duration, t, cur1, op);
    var cur2 :| IsCurrent(t.leases, op.duid, cur2) && (t2, ans2) == Apply(p, duration, t, cur2, op);
    CurrentIsUnique(t.leases, op.duid, cur1, cur2);
  }

  lemma SplitLast<T>(s: seq<T>, t: seq<T>)
    requires |s| == |t| > 0 && s[..|s| - 1] == t[..|t| - 1] && s[|s| - 1] == t[|t| - 1]
    ensures s == t
  {
    assert s == s[..|s| - 1] + [s[|s| - 1]] && t == t[..|t| - 1] + [t[|t| - 1]];
  }

  /** Two pools with the same contents give the same answers to the same operations. */
  lemma {:induction false} RunsAgree(
      p: Policy, duration: nat, ops: seq<PoolOp>,
      ts: seq<Table6>, answers: seq<Answer>, us: seq<Table6>, replies: seq<Answer>)
    requires PoolRun(p, duration, ts, ops, answers) && PoolRun(p, duration, us, ops, replies)
    requires ts[0] == us[0] && OneEach(ts[0].leases)
    requires forall i :: 0 <= i < |ops| ==> !ops[i].Insert?
    ensures ts == us && answers == replies
    ensures forall i :: 0 <= i < |ts| ==> OneEach(ts[i].leases)
  {
    hide OneEach, PoolStep;
    if ops != [] {
      var n := |ops| - 1;
      RunsAgree(p, duration, ops[..n], ts[..n + 1], answers[..n], us[..n + 1], replies[..n]);
      assert ts[..n + 1][n] == us[..n + 1][n];
      StepIsDecided(p, duration, ts[n], ops[n], ts[n + 1], answers[n], us[n + 1], replies[n]);
      StepKeepsOneEach(p, duration, ts[n], ops[n], ts[n + 1], answers[n]);
      SplitLast(ts, us);
      SplitLast(answers, replies);
      forall i | 0 <= i < |ts|
        ensures OneEach(ts[i].leases)
      {
        assert i <= n ==> ts[i] == ts[..n + 1][i];
      }
    }
  }

  method Do(pool: V6Pool, op: PoolOp) returns (ans: Answer)
    requires pool.Valid()
    modifies pool, pool.slots
    ensures pool.Valid()
    ensures PoolStep(pool.Managed(), pool.leaseDuration, old(pool.Contents()), op, pool.Contents(), ans)
  {
    hide V6Pool.Sound, V6Pool.CurrentOf, IsCurrent;
    ghost var cur, t := pool.CurrentOf(op.duid), pool.Contents();
    assert IsCurrent(t.leases, op.duid, cur);
    match op {
      case Insert(d, a, e) => pool.Insert(a, d, e); ans := Inserted;
      case Discover(d, now) => var r := pool.Discover(d, now); ans := Offer(r);
      case Request(d, a, now) => var r := pool.Request(d, a, now); ans := Commit(r);
      case Release(d) => var r, _ := pool.Release(d); ans := Freed(r);
    }
    assert (pool.Contents(), ans) == Apply(pool.Managed(), pool.leaseDuration, t, cur, op);
  }

  /** Any sequence of operations on a pool is a run of the one-map machine. */
  method DoAll(pool: V6Pool, ops: seq<PoolOp>) returns (answers: seq<Answer>, ghost ts: seq<Table6>)
    requires pool.Valid()
    modifies pool, pool.slots
    ensures pool.Valid()
    ensures PoolRun(pool.Managed(), pool.leaseDuration, ts, ops, answers)
    ensures ts[0] == old(pool.Contents()) && ts[|ops|] == pool.Contents()
  {
    hide V6Pool.Valid, PoolStep;
    answers, ts := [], [pool.Contents()];
    for i := 0 to |ops|
      invariant pool.Valid() && |ts| == i + 1 && |answers| == i
      invariant ts[0] == old(pool.Contents()) && ts[i] == pool.Contents()
      invariant forall k :: 0 <= k < i ==>
                  PoolStep(pool.Managed(), pool.leaseDuration, ts[k], ops[k], ts[k + 1], answers[k])
    {
      var ans := Do(pool, ops[i]);
      answers, ts := answers + [ans], ts + [pool.Contents()];
    }
  }

  /** A slot-backed and a hash-only pool over the same range cannot be told apart. */
  method DoOnBoth(p: V6Pool, q: V6Pool, ops: seq<PoolOp>) returns (answers: seq<Answer>, replies: seq<Answer>)
    requires p.Valid() && q.Valid() && p != q && p.slots != q.slots
    requires p.useSlots && !q.useSlots
    requires p.Managed() == q.Managed() && p.leaseDuration == q.leaseDuration
    requires p.Contents() == q.Contents() && OneEach(p.leases)
    requires forall i :: 0 <= i < |ops| ==> !ops[i].Insert?
    modifies p, p.slots, q, q.slots
    ensures p.Valid() && q.Valid()
    ensures answers == replies
    ensures p.Contents() == q.Contents() && OneEach(p.leases)
  {
    hide V6Pool.Valid, PoolStep, OneEach;
    ghost var ts, us;
    answers, ts := DoAll(p, ops);
    replies, us := DoAll(q, ops);
    RunsAgree(p.Managed(), p.leaseDuration, ops, ts, answers, us, replies);
  }
}
