/**
 The remote side of a tag or label reconcile: a key-value store that changes by
 single-key puts and deletes. Everything here is about arbitrary scripts; the
 diff functions of the provider are judged against it.
 */
module EditScripts {
  import opened GoValues

  type Store = map<Str, Str>

  datatype Op = Put(key: Str, value: Str) | Delete(key: Str) {
    /** What a lookup of `key` gives right after this operation. */
    function Leaves(): Option<Str> {
      if Put? then Some(value) else None
    }
  }

  function Apply(s: Store, op: Op): Store {
    match op
    case Put(k, v) => s[k := v]
    case Delete(k) => s - {k}
  }

  function Run(s: Store, ops: seq<Op>): Store {
    if ops == [] then s else Apply(Run(s, ops[..|ops| - 1]), ops[|ops| - 1])
  }

  function Lookup(s: Store, k: Str): Option<Str> {
    if k in s then Some(s[k]) else None
  }

  /** The keys on which the store differs from the goal. */
  function Wrong(goal: Store, s: Store): set<Str> {
    set k | k in goal.Keys + s.Keys && Lookup(goal, k) != Lookup(s, k)
  }

  /** The one operation that makes key `k` agree with the goal. */
  function Fix(goal: Store, k: Str): Op {
    if k in goal then Put(k, goal[k]) else Delete(k)
  }

  function Fixes(goal: Store, keys: set<Str>): (ops: set<Op>)
    ensures forall op :: op in ops <==> op.key in keys && op == Fix(goal, op.key)
  {
    set k | k in keys :: Fix(goal, k)
  }

  /** One fix for every wrong key. */
  function Plan(goal: Store, s: Store): set<Op> {
    Fixes(goal, Wrong(goal, s))
  }

  function KeysOf(ops: seq<Op>): set<Str> {
    set op | op in ops :: op.key
  }

  ghost predicate Distinct<T>(xs: seq<T>) {
    forall i, j :: 0 <= i < j < |xs| ==> xs[i] != xs[j]
  }

  /** `xs` lists the elements of `members`, each exactly once, in some order. */
  ghost predicate Arranges<T(!new)>(xs: seq<T>, members: set<T>) {
    && Distinct(xs)
    && (forall x :: x in xs <==> x in members)
  }

  lemma InitOrLast<T>(xs: seq<T>)
    requires xs != []
    ensures forall x :: x in xs <==> x in xs[..|xs| - 1] || x == xs[|xs| - 1]
  {
    assert xs == xs[..|xs| - 1] + [xs[|xs| - 1]];
  }

  lemma DistinctFromInit<T>(xs: seq<T>)
    requires xs != [] && xs[|xs| - 1] !in xs[..|xs| - 1]
    requires Distinct(xs[..|xs| - 1])
    ensures Distinct(xs)
  {
    var n := |xs| - 1;
    assert forall i :: 0 <= i < n ==> xs[..n][i] == xs[i];
  }

  // ----- What a script does to a single key

  lemma ApplyAt(s: Store, op: Op, k: Str)
    ensures Lookup(Apply(s, op), k) == if op.key == k then op.Leaves() else Lookup(s, k)
  {
  }

  /** Keys a script does not mention keep their value. */
  lemma {:induction false} RunElsewhere(s: Store, ops: seq<Op>, k: Str)
    requires forall op :: op in ops ==> op.key != k
    ensures Lookup(Run(s, ops), k) == Lookup(s, k)
  {
    if ops != [] {
      RunElsewhere(s, ops[..|ops| - 1], k);
      ApplyAt(Run(s, ops[..|ops| - 1]), ops[|ops| - 1], k);
    }
  }

  /** The last operation on a key decides its value. */
  lemma {:induction false} RunAtLast(s: Store, ops: seq<Op>, last: nat)
    requires last < |ops|
    requires forall m :: last < m < |ops| ==> ops[m].key != ops[last].key
    ensures Lookup(Run(s, ops), ops[last].key) == ops[last].Leaves()
    decreases |ops|
  {
    var n := |ops| - 1;
    ApplyAt(Run(s, ops[..n]), ops[n], ops[last].key);
    if last < n {
      assert ops[..n][last] == ops[last];
      RunAtLast(s, ops[..n], last);
    }
  }

  /** When all operations on a key agree, their order does not matter. */
  lemma {:induction false} RunAgreed(s: Store, ops: seq<Op>, some: Op)
    requires some in ops
    requires forall op :: op in ops && op.key == some.key ==> op.Leaves() == some.Leaves()
    ensures Lookup(Run(s, ops), some.key) == some.Leaves()
    decreases |ops|
  {
    var n := |ops| - 1;
    InitOrLast(ops);
    ApplyAt(Run(s, ops[..n]), ops[n], some.key);
    if ops[n].key != some.key {
      RunAgreed(s, ops[..n], some);
    }
  }

  lemma SameLookups(a: Store, b: Store)
    requires forall k :: Lookup(a, k) == Lookup(b, k)
    ensures a == b
  {
    forall k
      ensures k in a <==> k in b
      ensures k in a && k in b ==> a[k] == b[k]
    {
      assert Lookup(a, k) == Lookup(b, k);
    }
    assert a.Keys == b.Keys;
  }

  lemma WrongAt(goal: Store, s: Store, k: Str)
    ensures k in Wrong(goal, s) <==> Lookup(goal, k) != Lookup(s, k)
  {
  }

  lemma NothingWrong(goal: Store, s: Store)
    ensures Wrong(goal, s) == {} <==> s == goal
  {
    if Wrong(goal, s) == {} {
      forall k ensures Lookup(s, k) == Lookup(goal, k) {
        WrongAt(goal, s, k);
      }
      SameLookups(s, goal);
    }
  }

  // ----- Lower bound and uniqueness of shortest scripts

  /** An operation settles its own key, rightly exactly when it is that key's fix. */
  lemma WrongAfterApply(goal: Store, s: Store, op: Op)
    ensures Wrong(goal, Apply(s, op)) ==
            (Wrong(goal, s) - {op.key}) + (if op == Fix(goal, op.key) then {} else {op.key})
  {
    forall k
      ensures k in Wrong(goal, Apply(s, op)) <==>
              if k == op.key then op != Fix(goal, k) else k in Wrong(goal, s)
    {
      ApplyAt(s, op, k);
      WrongAt(goal, s, k);
      WrongAt(goal, Apply(s, op), k);
    }
  }

  /** One operation repairs at most one key, and only when it is that key's fix. */
  lemma ApplyRepairsAtMostOne(goal: Store, s: Store, op: Op)
    ensures |Wrong(goal, Apply(s, op))| >= |Wrong(goal, s)| - 1
    ensures |Wrong(goal, Apply(s, op))| == |Wrong(goal, s)| - 1 ==>
              && op.key in Wrong(goal, s) && op == Fix(goal, op.key)
              && Wrong(goal, Apply(s, op)) == Wrong(goal, s) - {op.key}
  {
    WrongAfterApply(goal, s, op);
  }

  /** No script repairs more keys than it has operations. */
  lemma {:induction false} RunRepairsAtMostLength(goal: Store, s: Store, ops: seq<Op>)
    ensures |Wrong(goal, Run(s, ops))| >= |Wrong(goal, s)| - |ops|
  {
    if ops != [] {
      var init := ops[..|ops| - 1];
      RunRepairsAtMostLength(goal, s, init);
      ApplyRepairsAtMostOne(goal, Run(s, init), ops[|ops| - 1]);
    }
  }

  lemma KeysOfLast(ops: seq<Op>)
    requires ops != []
    ensures KeysOf(ops) == KeysOf(ops[..|ops| - 1]) + {ops[|ops| - 1].key}
  {
    var n := |ops| - 1;
    assert ops == ops[..n] + [ops[n]];
  }

  /** The last operation of a script that wastes none fixes a key still wrong. */
  lemma ThriftyLast(goal: Store, s: Store, ops: seq<Op>)
    requires ops != []
    requires |Wrong(goal, Run(s, ops))| == |Wrong(goal, s)| - |ops|
    ensures var t := Run(s, ops[..|ops| - 1]); var op := ops[|ops| - 1];
            && |Wrong(goal, t)| == |Wrong(goal, s)| - (|ops| - 1)
            && op.key in Wrong(goal, t) && op == Fix(goal, op.key)
            && Wrong(goal, Run(s, ops)) == Wrong(goal, t) - {op.key}
  {
    var n := |ops| - 1;
    RunRepairsAtMostLength(goal, s, ops[..n]);
    ApplyRepairsAtMostOne(goal, Run(s, ops[..n]), ops[n]);
  }

  /** A script that wastes no operation repairs every key it names. */
  lemma {:induction false} ThriftyRepairs(goal: Store, s: Store, ops: seq<Op>)
    requires |Wrong(goal, Run(s, ops))| == |Wrong(goal, s)| - |ops|
    ensures Wrong(goal, Run(s, ops)) == Wrong(goal, s) - KeysOf(ops)
    decreases |ops|
  {
    if ops != [] {
      ThriftyLast(goal, s, ops);
      ThriftyRepairs(goal, s, ops[..|ops| - 1]);
      KeysOfLast(ops);
    }
  }

  /** ... consists of planned fixes, and has each of them once. */
  lemma {:induction false} ThriftyScript(goal: Store, s: Store, ops: seq<Op>)
    requires |Wrong(goal, Run(s, ops))| == |Wrong(goal, s)| - |ops|
    ensures Distinct(ops) && forall op :: op in ops ==> op in Plan(goal, s)
    decreases |ops|
  {
    if ops != [] {
      var n := |ops| - 1;
      ThriftyLast(goal, s, ops);
      ThriftyScript(goal, s, ops[..n]);
      ThriftyRepairs(goal, s, ops[..n]);
      InitOrLast(ops);
      assert ops[n].key !in KeysOf(ops[..n]);
      DistinctFromInit(ops);
    }
  }

  /** A script made of fixes repairs exactly the keys it names. */
  lemma {:induction false} FixesRepairTheirKeys(goal: Store, s: Store, ops: seq<Op>)
    requires forall op :: op in ops ==> op == Fix(goal, op.key)
    ensures Wrong(goal, Run(s, ops)) == Wrong(goal, s) - KeysOf(ops)
  {
    if ops != [] {
      var n := |ops| - 1;
      var init := ops[..n];
      FixesRepairTheirKeys(goal, s, init);
      KeysOfLast(ops);
      WrongAfterApply(goal, Run(s, init), ops[n]);
    }
  }

  /**
   The shortest scripts from `s` to `goal` are exactly the orderings of the plan:
   a script reaches the goal in as few operations as there are wrong keys if and
   only if it lists every planned fix once, in any order.
   */
  lemma ShortestScriptsArrangeThePlan(goal: Store, s: Store, ops: seq<Op>)
    ensures Run(s, ops) == goal && |ops| == |Wrong(goal, s)| <==> Arranges(ops, Plan(goal, s))
  {
    NothingWrong(goal, Run(s, ops));
    if Run(s, ops) == goal && |ops| == |Wrong(goal, s)| {
      ThriftyScript(goal, s, ops);
      ThriftyRepairs(goal, s, ops);
      forall op | op in Plan(goal, s)
        ensures op in ops
      {
        assert op.key in KeysOf(ops);
      }
    }
    if Arranges(ops, Plan(goal, s)) {
      forall k | k in Wrong(goal, s)
        ensures k in KeysOf(ops)
      {
        assert Fix(goal, k) in Plan(goal, s);
        assert Fix(goal, k) in ops;
      }
      FixesRepairTheirKeys(goal, s, ops);
      PlanSize(goal, Wrong(goal, s), ops);
    }
  }

  /** A duplicate-free list of the fixes of a key set is as long as the set is large. */
  lemma {:induction false} PlanSize(goal: Store, keys: set<Str>, ops: seq<Op>)
    requires Arranges(ops, Fixes(goal, keys))
    ensures |ops| == |keys|
    decreases |ops|
  {
    if ops == [] {
      assert forall k :: k in keys ==> Fix(goal, k) in Fixes(goal, keys);
    } else {
      var n := |ops| - 1;
      assert ops == ops[..n] + [ops[n]];
      assert ops[n] in ops;
      PlanSize(goal, keys - {ops[n].key}, ops[..n]);
    }
  }
}
