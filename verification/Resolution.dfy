/**
 Reference resolution as a pass over slots: every slot holds a value, a reference and
 a selector; a pass asks an external resolver about the slots in order, writes each
 answer back, and stops at the first failure.
 */
module Resolution {
  import opened GoValues

  /** The kind of resource a reference points to. */
  datatype Target = VPC | InternetGateway | NATGateway | Subnet

  datatype Reference = Reference(name: Str)

  datatype Selector = Selector(matchLabels: map<Str, Str>, matchControllerRef: Option<bool>)

  datatype Request = Request(currentValue: Str, reference: Option<Reference>, selector: Option<Selector>, to: Target)

  datatype Answer = Answer(resolvedValue: Str, resolvedReference: Option<Reference>)

  datatype Reply = Resolved(answer: Answer) | Failed(error: Str)

  /**
   The resolver during one pass: its reply to the n-th request. It stands for the
   state of the API server, so it may differ from call to call and pass to pass.
   */
  type Resolver = (nat, Request) -> Reply

  /** How a resolved string becomes a pointer: `aws.String`, or `reference.ToPtrValue`, which maps "" to nil. */
  datatype Encoding = KeepEmpty | EmptyIsNil

  function ToPtr(e: Encoding, v: Str): Option<Str> {
    if e == EmptyIsNil && v == EMPTY then None else Some(v)
  }

  datatype Slot = Slot(value: Option<Str>, reference: Option<Reference>, selector: Option<Selector>,
                       to: Target, encoding: Encoding)
  {
    function Ask(): Request {
      Request(StringValue(value), reference, selector, to)
    }

    function Fill(a: Answer): Slot {
      this.(value := ToPtr(encoding, a.resolvedValue), reference := a.resolvedReference)
    }
  }

  // ----- One pass

  function ReplyTo(r: Resolver, slots: seq<Slot>, i: nat): Reply
    requires i < |slots|
  {
    r(i, slots[i].Ask())
  }

  /** The first slot, from `i` on, whose request fails; the number of slots when none does. */
  function FirstFailure(r: Resolver, slots: seq<Slot>, i: nat := 0): (n: nat)
    requires i <= |slots|
    ensures i <= n <= |slots|
    ensures forall j :: i <= j < n ==> ReplyTo(r, slots, j).Resolved?
    ensures n < |slots| ==> ReplyTo(r, slots, n).Failed?
    decreases |slots| - i
  {
    if i == |slots| || ReplyTo(r, slots, i).Failed? then i else FirstFailure(r, slots, i + 1)
  }

  /** The first `n` slots hold the answers to their own original requests; the rest are as they were. */
  function Filled(r: Resolver, slots: seq<Slot>, n: nat): (s: seq<Slot>)
    requires n <= |slots| && forall j :: 0 <= j < n ==> ReplyTo(r, slots, j).Resolved?
    ensures |s| == |slots|
    ensures forall j :: 0 <= j < n ==> s[j] == slots[j].Fill(ReplyTo(r, slots, j).answer)
    ensures forall j :: n <= j < |slots| ==> s[j] == slots[j]
  {
    seq(|slots|, j requires 0 <= j < |slots| => if j < n then slots[j].Fill(ReplyTo(r, slots, j).answer) else slots[j])
  }

  function Pass(r: Resolver, slots: seq<Slot>): seq<Slot> {
    Filled(r, slots, FirstFailure(r, slots))
  }

  /** Asking at slot `n` after filling the slots before it asks the original question; filling it extends the pass. */
  lemma FillNext(r: Resolver, slots: seq<Slot>, n: nat)
    requires n < |slots| && forall j :: 0 <= j < n ==> ReplyTo(r, slots, j).Resolved?
    ensures Filled(r, slots, n)[n] == slots[n]
    ensures ReplyTo(r, slots, n).Resolved? ==>
              Filled(r, slots, n + 1) == Filled(r, slots, n)[n := slots[n].Fill(ReplyTo(r, slots, n).answer)]
  {
  }

  /** A pass that has answered the slots before `n` and fails there is the whole pass. */
  lemma StopsAt(r: Resolver, slots: seq<Slot>, n: nat)
    requires n <= |slots| && forall j :: 0 <= j < n ==> ReplyTo(r, slots, j).Resolved?
    requires n < |slots| ==> ReplyTo(r, slots, n).Failed?
    ensures FirstFailure(r, slots) == n
  {
  }

  /** A resource as a pass sees it: the slots, and everything a pass must not touch. */
  datatype View<F> = View(slots: seq<Slot>, frame: F)

  /** The first `n` slots of `v0` have been resolved, giving `v`. */
  ghost predicate Progress<F>(r: Resolver, v0: View<F>, v: View<F>, n: nat) {
    && n <= |v0.slots| && v.frame == v0.frame
    && (forall j :: 0 <= j < n ==> ReplyTo(r, v0.slots, j).Resolved?)
    && v.slots == Filled(r, v0.slots, n)
  }

  /** `v'` is `v` with answer `a` written to slot `n` and nothing else changed. */
  ghost predicate Writes<F>(v: View<F>, v': View<F>, n: nat, a: Answer) {
    && n < |v.slots| && v'.frame == v.frame
    && v'.slots == v.slots[n := v.slots[n].Fill(a)]
  }

  /** `v` is what a pass over `v0` leaves. */
  ghost predicate Passed<F>(r: Resolver, v0: View<F>, v: View<F>) {
    v.slots == Pass(r, v0.slots) && v.frame == v0.frame
  }

  lemma Starts<F>(r: Resolver, v: View<F>)
    ensures Progress(r, v, v, 0)
  {
    assert Filled(r, v.slots, 0) == v.slots;
  }

  /** A reply either ends the pass or advances it by one slot. */
  lemma Step<F>(r: Resolver, v0: View<F>, v: View<F>, v': View<F>, n: nat, reply: Reply)
    requires Progress(r, v0, v, n) && n < |v.slots| && reply == r(n, v.slots[n].Ask())
    requires reply.Resolved? ==> Writes(v, v', n, reply.answer)
    ensures reply == ReplyTo(r, v0.slots, n)
    ensures reply.Failed? ==> Passed(r, v0, v) && FirstFailure(r, v0.slots) == n
    ensures reply.Resolved? ==> Progress(r, v0, v', n + 1)
  {
    FillNext(r, v0.slots, n);
  }

  lemma Finishes<F>(r: Resolver, v0: View<F>, v: View<F>)
    requires Progress(r, v0, v, |v0.slots|)
    ensures Passed(r, v0, v) && Succeeds(r, v0.slots)
  {
  }

  // ----- Many passes

  /** The request that follows when the answer to `q` has been written back. */
  function Again(q: Request, a: Answer): Request {
    q.(currentValue := a.resolvedValue, reference := a.resolvedReference)
  }

  /** Asked again about a value that `earlier` has resolved, `later` fails or gives the same answer. */
  ghost predicate Respects(earlier: Resolver, later: Resolver) {
    forall i, q :: earlier(i, q).Resolved? ==>
      SameIfResolved(earlier(i, q).answer, later(i, Again(q, earlier(i, q).answer)))
  }

  ghost predicate SameIfResolved(a: Answer, reply: Reply) {
    reply.Resolved? ==> reply.answer == a
  }

  /** Each resolver leaves the answers of those before it unchanged. Their own answers may differ freely. */
  ghost predicate Consistent(rs: seq<Resolver>) {
    forall i, j :: 0 <= i < j < |rs| ==> Respects(rs[i], rs[j])
  }

  lemma FilledSlotAsksAgain(s: Slot, a: Answer)
    ensures s.Fill(a).Ask() == Again(s.Ask(), a)
    ensures s.Fill(a).Fill(a) == s.Fill(a)
  {
  }

  ghost predicate Succeeds(r: Resolver, slots: seq<Slot>) {
    FirstFailure(r, slots) == |slots|
  }

  ghost function AfterPasses(rs: seq<Resolver>, slots: seq<Slot>): (s: seq<Slot>)
    ensures |s| == |slots|
    decreases |rs|
  {
    if rs == [] then slots
    else Pass(rs[|rs| - 1], AfterPasses(rs[..|rs| - 1], slots))
  }

  /** The first pass that gets to slot `k`; the number of passes when none does. */
  ghost function Winner(rs: seq<Resolver>, slots: seq<Slot>, k: nat): (w: nat)
    ensures w <= |rs|
    decreases |rs|
  {
    if rs == [] then 0
    else
      var n := |rs| - 1;
      var w := Winner(rs[..n], slots, k);
      if w < n then w
      else if k < FirstFailure(rs[n], AfterPasses(rs[..n], slots)) then n
      else n + 1
  }

  /**
   Retrying never loses or redoes work: after any passes, failed or not, every slot
   holds the first answer it was ever given, to its original request, or is untouched
   when no pass got to it.
   */
  lemma {:induction false} RetriesKeepFirstAnswers(rs: seq<Resolver>, slots: seq<Slot>, k: nat)
    requires Consistent(rs) && k < |slots|
    ensures var w := Winner(rs, slots, k);
            if w == |rs| then AfterPasses(rs, slots)[k] == slots[k]
            else
              && ReplyTo(rs[w], slots, k).Resolved?
              && AfterPasses(rs, slots)[k] == slots[k].Fill(ReplyTo(rs[w], slots, k).answer)
    decreases |rs|
  {
    if rs != [] {
      var n := |rs| - 1;
      var w := Winner(rs[..n], slots, k);
      RetriesKeepFirstAnswers(rs[..n], slots, k);
      var before := AfterPasses(rs[..n], slots);
      if k < FirstFailure(rs[n], before) {
        assert ReplyTo(rs[n], before, k).Resolved?;
        if w < n {
          assert rs[..n][w] == rs[w];
          KeepsAnswer(rs[w], rs[n], slots[k], k);
        }
      }
    }
  }

  lemma KeepsAnswer(earlier: Resolver, later: Resolver, s: Slot, k: nat)
    requires Respects(earlier, later) && earlier(k, s.Ask()).Resolved?
    ensures var filled := s.Fill(earlier(k, s.Ask()).answer); var reply := later(k, filled.Ask());
            reply.Resolved? ==> filled.Fill(reply.answer) == filled
  {
    var a := earlier(k, s.Ask()).answer;
    FilledSlotAsksAgain(s, a);
    assert SameIfResolved(a, later(k, Again(s.Ask(), a)));
  }

  /** The resolver that answers each slot as the first pass to get there did. */
  ghost function Merged(rs: seq<Resolver>, slots: seq<Slot>): Resolver {
    (i: nat, q: Request) => if Winner(rs, slots, i) < |rs| then rs[Winner(rs, slots, i)](i, q) else Failed(EMPTY)
  }

  /** Two resolvers give the same answer wherever both give one. */
  ghost predicate Agrees(r: Resolver, r': Resolver) {
    forall i, q :: r(i, q).Resolved? && r'(i, q).Resolved? ==> r(i, q) == r'(i, q)
  }

  /** After a success every slot has been reached, and each holds its first answer. */
  lemma SuccessReachesAll(rs: seq<Resolver>, slots: seq<Slot>, k: nat)
    requires Consistent(rs) && rs != [] && k < |slots|
    requires Succeeds(rs[|rs| - 1], AfterPasses(rs[..|rs| - 1], slots))
    ensures var w := Winner(rs, slots, k);
            && w < |rs| && ReplyTo(rs[w], slots, k).Resolved?
            && AfterPasses(rs, slots)[k] == slots[k].Fill(ReplyTo(rs[w], slots, k).answer)
  {
    RetriesKeepFirstAnswers(rs, slots, k);
  }

  /**
   Passes that end in a success leave what one successful pass over the original
   slots would: the pass in which each slot is answered as it first was, and so the
   pass of any successful resolver that agrees with all of them. No further pass,
   failing or not, changes anything.
   */
  lemma RetriesConverge(rs: seq<Resolver>, slots: seq<Slot>, r: Resolver)
    requires Consistent(rs) && rs != []
    requires Succeeds(rs[|rs| - 1], AfterPasses(rs[..|rs| - 1], slots))
    ensures Succeeds(Merged(rs, slots), slots) && AfterPasses(rs, slots) == Pass(Merged(rs, slots), slots)
    ensures Succeeds(r, slots) && (forall x :: x in rs ==> Agrees(x, r)) ==> AfterPasses(rs, slots) == Pass(r, slots)
    ensures (forall x :: x in rs ==> Respects(x, r)) ==> Pass(r, AfterPasses(rs, slots)) == AfterPasses(rs, slots)
  {
    var m, end := Merged(rs, slots), AfterPasses(rs, slots);
    forall k | 0 <= k < |slots|
      ensures ReplyTo(m, slots, k).Resolved? && end[k] == slots[k].Fill(ReplyTo(m, slots, k).answer)
    {
      SuccessReachesAll(rs, slots, k);
    }
    StopsAt(m, slots, |slots|);
    if Succeeds(r, slots) && forall x :: x in rs ==> Agrees(x, r) {
      forall k | 0 <= k < |slots| ensures end[k] == Pass(r, slots)[k] {
        assert ReplyTo(r, slots, k).Resolved?;
        assert rs[Winner(rs, slots, k)] in rs;
      }
    }
    if forall x :: x in rs ==> Respects(x, r) {
      forall k | 0 <= k < |slots| ensures Pass(r, end)[k] == end[k] {
        SuccessReachesAll(rs, slots, k);
        var w := rs[Winner(rs, slots, k)];
        assert w in rs;
        KeepsAnswer(w, r, slots[k], k);
      }
    }
  }

  ghost predicate Total(r: Resolver) {
    forall i, q :: r(i, q).Resolved?
  }

  /**
   The assumption is needed: for resolvers that never fail, a second pass leaves every
   result of the first alone if and only if it respects the first one's answers.
   */
  lemma StableIffRespected(r: Resolver, r': Resolver)
    requires Total(r) && Total(r')
    ensures (forall slots :: Pass(r', Pass(r, slots)) == Pass(r, slots)) <==> Respects(r, r')
  {
    if Respects(r, r') {
      forall slots ensures Pass(r', Pass(r, slots)) == Pass(r, slots) {
        StopsAt(r, slots, |slots|);
        forall k | 0 <= k < |slots| ensures Pass(r', Pass(r, slots))[k] == Pass(r, slots)[k] {
          KeepsAnswer(r, r', slots[k], k);
        }
      }
    } else {
      var i, q :| r(i, q).Resolved? && !SameIfResolved(r(i, q).answer, r'(i, Again(q, r(i, q).answer)));
      SecondPassChanges(r, r', i, q);
    }
  }

  lemma SecondPassChanges(r: Resolver, r': Resolver, i: nat, q: Request)
    requires Total(r) && Total(r')
    requires !SameIfResolved(r(i, q).answer, r'(i, Again(q, r(i, q).answer)))
    ensures exists slots :: Pass(r', Pass(r, slots)) != Pass(r, slots)
  {
    var s := Slot(Some(q.currentValue), q.reference, q.selector, q.to, KeepEmpty);
    var slots := seq(i + 1, _ => s);
    var once := Pass(r, slots);
    StopsAt(r, slots, i + 1);
    StopsAt(r', once, i + 1);
    FilledSlotAsksAgain(s, r(i, q).answer);
    assert once[i] == s.Fill(r(i, q).answer);
    assert Pass(r', once)[i] != once[i];
  }

  // ----- Many passes over a resource

  /** `vs` are the views before, between and after passes by `rs`. */
  ghost predicate Attempts<F>(rs: seq<Resolver>, vs: seq<View<F>>) {
    |vs| == |rs| + 1 && forall i :: 0 <= i < |rs| ==> Passed(rs[i], vs[i], vs[i + 1])
  }

  lemma {:induction false} AttemptsArePasses<F>(rs: seq<Resolver>, vs: seq<View<F>>, n: nat)
    requires Attempts(rs, vs) && n <= |rs|
    ensures vs[n].slots == AfterPasses(rs[..n], vs[0].slots) && vs[n].frame == vs[0].frame
    decreases n
  {
    if n > 0 {
      AttemptsArePasses(rs, vs, n - 1);
      assert Passed(rs[n - 1], vs[n - 1], vs[n]);
      assert rs[..n][..n - 1] == rs[..n - 1];
    }
  }

  lemma AttemptsConverge<F>(rs: seq<Resolver>, vs: seq<View<F>>, r: Resolver, v: View<F>)
    requires Attempts(rs, vs) && Consistent(rs) && rs != []
    requires Succeeds(rs[|rs| - 1], vs[|rs| - 1].slots)
    ensures var m := Merged(rs, vs[0].slots); Succeeds(m, vs[0].slots) && Passed(m, vs[0], vs[|rs|])
    ensures (forall x :: x in rs ==> Agrees(x, r)) && Succeeds(r, vs[0].slots) && Passed(r, vs[0], v) ==> v == vs[|rs|]
    ensures (forall x :: x in rs ==> Respects(x, r)) && Passed(r, vs[|rs|], v) ==> v == vs[|rs|]
  {
    var n := |rs| - 1;
    AttemptsArePasses(rs, vs, n);
    AttemptsArePasses(rs, vs, n + 1);
    assert rs[..n + 1] == rs;
    RetriesConverge(rs, vs[0].slots, r);
  }

  // ----- Calls on a resource
  //
  // A kind of resource is a type `P` with a view, and a type `E` of error paths of which
  // `names` says which slot they name.

  datatype PathError<E> = PathError(path: E, cause: Str)

  /** What a call on `p0` must leave behind, and the error it must return. */
  ghost predicate LeftBy<P, F, E>(view: P -> View<F>, names: (P, nat, E) -> bool,
                                  r: Resolver, p0: P, p: P, err: Option<PathError<E>>)
  {
    var slots := view(p0).slots;
    var n := FirstFailure(r, slots);
    && Passed(r, view(p0), view(p))
    && if n == |slots| then err.None?
       else err.Some? && names(p0, n, err.value.path) && err.value.cause == ReplyTo(r, slots, n).error
  }

  /** `ps` are the resources before, between and after calls with resolvers `rs`, which report `errs`. */
  ghost predicate Calls<P, F, E>(view: P -> View<F>, names: (P, nat, E) -> bool,
                                 rs: seq<Resolver>, ps: seq<P>, errs: seq<Option<PathError<E>>>)
  {
    && |ps| == |rs| + 1 && |errs| == |rs|
    && forall i :: 0 <= i < |rs| ==> LeftBy(view, names, rs[i], ps[i], ps[i + 1], errs[i])
  }

  /** The slots and the frame together are the whole of the resource. */
  ghost predicate Determines<P(!new), F>(view: P -> View<F>) {
    forall p, p' :: view(p) == view(p') ==> p == p'
  }

  /**
   However many calls fail, and wherever, one that succeeds leaves the resource that one
   successful call on the original would have left, with the resolver that answers each
   slot as it was first answered, and so with any successful resolver that agrees with
   all of them. No later call by a resolver that respects their answers changes
   anything, even one that fails.
   */
  lemma RetriedResolutionConverges<P(!new), F, E>(
    view: P -> View<F>, names: (P, nat, E) -> bool, rs: seq<Resolver>, ps: seq<P>, errs: seq<Option<PathError<E>>>,
    r: Resolver, p: P, err: Option<PathError<E>>)
    requires Determines(view) && Calls(view, names, rs, ps, errs)
    requires Consistent(rs) && rs != [] && errs[|rs| - 1].None?
    ensures LeftBy(view, names, Merged(rs, view(ps[0]).slots), ps[0], ps[|rs|], None)
    ensures (forall x :: x in rs ==> Agrees(x, r)) && LeftBy(view, names, r, ps[0], p, None) ==> p == ps[|rs|]
    ensures (forall x :: x in rs ==> Respects(x, r)) && LeftBy(view, names, r, ps[|rs|], p, err) ==> p == ps[|rs|]
  {
    var n, vs := |rs| - 1, Map(view, ps);
    forall i | 0 <= i < |rs| ensures Passed(rs[i], vs[i], vs[i + 1]) {
      assert LeftBy(view, names, rs[i], ps[i], ps[i + 1], errs[i]);
    }
    assert LeftBy(view, names, rs[n], ps[n], ps[n + 1], errs[n]);
    AttemptsConverge(rs, vs, r, view(p));
  }
}
