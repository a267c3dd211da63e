/** What a stream returns over a whole R session (src/zucrypt_crypt.c): the digest or MAC of exactly the
    data that was fed to it, whatever else the session did in between. */
module Streams {
  import opened Bytes
  import opened Options
  import opened Statuses
  import opened Digest
  import opened RHeap
  import opened Glue

  predicate Updates(act: Action, ptr: nat) {
    act.DoStreamUpdate? && act.ptr == ptr
  }

  predicate Finishes(act: Action, ptr: nat) {
    act.DoStreamFinish? && act.ptr == ptr
  }

  /** R keeps the pointer. */
  predicate KeepsAll(actions: seq<Action>, from: nat, end: nat, ptr: nat)
    requires from <= end <= |actions|
  {
    forall k :: from <= k < end ==> !(actions[k].DoForget? && actions[k].ptr == ptr)
  }

  /** The data of the updates on a pointer, in order. */
  function DataOn(actions: seq<Action>, from: nat, end: nat, ptr: nat): bytes
    requires from <= end <= |actions|
    decreases end
  {
    if from == end then []
    else DataOn(actions, from, end - 1, ptr) + if Updates(actions[end - 1], ptr) then actions[end - 1].data else []
  }

  /** The backend accepted every update on it that had data. */
  predicate AllAccepted(actions: seq<Action>, from: nat, end: nat, ptr: nat)
    requires from <= end <= |actions|
  {
    forall k :: from <= k < end && Updates(actions[k], ptr) ==> actions[k].data == [] || actions[k].last == Ok
  }

  /** A finish on the pointer got its output allocated. */
  ghost predicate Finished(jumps: nat -> bool, actions: seq<Action>, trace: seq<Snapshot>, from: nat, end: nat, ptr: nat)
    requires from <= end <= |actions| < |trace|
  {
    exists k :: from <= k < end && Finishes(actions[k], ptr) && !jumps(trace[k].calls)
  }

  /** The updates as calls on the handle. */
  function CallsOn(actions: seq<Action>, from: nat, end: nat, ptr: nat): seq<Call>
    requires from <= end <= |actions|
    decreases end
  {
    if from == end then []
    else CallsOn(actions, from, end - 1, ptr) + CallOf(actions[end - 1], ptr)
  }

  function CallOf(act: Action, ptr: nat): seq<Call> {
    if Updates(act, ptr) then [Update(Given(act.data), act.last)] else []
  }

  /** R's pointer holds a handle that has seen these calls, or it is empty because it was finished. */
  ghost predicate IsAt(a: Snapshot, ptr: nat, f: Function, finished: bool, calls: seq<Call>) {
    && ptr in a.roots && ptr in a.heap.objects
    && if finished then a.heap.objects[ptr] == ExtPtr(None, true)
       else
         && a.heap.objects[ptr].ExtPtr? && a.heap.objects[ptr].addr.Some?
         && var c := a.heap.objects[ptr].addr.value;
            c in a.heap.native && a.heap.native[c].DigestCtx? && a.heap.native[c].f == f && a.heap.native[c].state == After(f, calls)
  }

  lemma AfterMore(f: Function, calls: seq<Call>, call: Call)
    ensures After(f, calls + [call]) == Step(f, After(f, calls), call).0
  {
    assert (calls + [call])[..|calls|] == calls;
  }

  /** An object that is the same is at the same point. */
  lemma StaysAt(b: Snapshot, a: Snapshot, ps: set<nat>, ptr: nat, f: Function, finished: bool, calls: seq<Call>)
    requires IsAt(b, ptr, f, finished, calls) && Same(b.heap, a.heap, ps) && ptr in ps && ptr in a.roots
    ensures IsAt(a, ptr, f, finished, calls)
  {
    hide After;
  }

  lemma UpdateAdvances(jumps: nat -> bool, b: Snapshot, a: Snapshot, data: bytes, ps: Status, r: Outcome, ptr: nat, f: Function,
                       finished: bool, calls: seq<Call>)
    requires IsAt(b, ptr, f, finished, calls) && HasStream(b, ptr) && UpdateDid(jumps, b, a, ptr, data, ps, r)
    ensures IsAt(a, ptr, f, finished, calls + [Update(Given(data), ps)])
  {
    hide After, Step, Undisturbed, Well, Quiet;
    AfterMore(f, calls, Update(Given(data), ps));
  }

  lemma FinishAdvances(jumps: nat -> bool, b: Snapshot, a: Snapshot, last: Status, r: Outcome, ptr: nat, f: Function,
                       finished: bool, calls: seq<Call>)
    requires IsAt(b, ptr, f, finished, calls) && HasStream(b, ptr) && FinishDid(jumps, b, a, ptr, last, r)
    ensures IsAt(a, ptr, f, finished || !jumps(b.calls), calls)
  {
    hide After, Step, Undisturbed, Well, Quiet, Same, Gives;
    if finished || jumps(b.calls) {
      StaysAt(b, a, {ptr}, ptr, f, finished, calls);
    }
  }

  lemma OthersLeaveIt(jumps: nat -> bool, b: Snapshot, a: Snapshot, act: Action, r: Outcome, ptr: nat, f: Function,
                      finished: bool, calls: seq<Call>)
    requires Proper(act) && ActDid(jumps, b, a, act, r) && IsAt(b, ptr, f, finished, calls)
    requires !Updates(act, ptr) && !Finishes(act, ptr) && !(act.DoForget? && act.ptr == ptr)
    ensures IsAt(a, ptr, f, finished, calls)
  {
    hide After, Step, Well, Quiet, Same, Gives, IsAt, DigestStatus;
    assert ptr in b.roots by {
      AtRoot(b, ptr, f, finished, calls);
    }
    match act {
      case DoForget(p) => StillAt(b, a, ptr, f, finished, calls);
      case DoStreamUpdate(p, _, _) =>
        if HasStream(b, p) {
          StaysAt(b, a, b.roots - {p}, ptr, f, finished, calls);
        }
      case DoStreamFinish(p, _) =>
        if HasStream(b, p) {
          StaysAt(b, a, b.roots - {p}, ptr, f, finished, calls);
        }
      case _ => StaysAt(b, a, b.roots - {}, ptr, f, finished, calls);
    }
  }

  lemma AtRoot(b: Snapshot, ptr: nat, f: Function, finished: bool, calls: seq<Call>)
    requires IsAt(b, ptr, f, finished, calls)
    ensures ptr in b.roots
  {
  }

  lemma StillAt(b: Snapshot, a: Snapshot, ptr: nat, f: Function, finished: bool, calls: seq<Call>)
    requires IsAt(b, ptr, f, finished, calls) && a.heap == b.heap && ptr in a.roots
    ensures IsAt(a, ptr, f, finished, calls)
  {
  }

  /** One action of a session advances a kept stream by what it does to that stream, and by nothing else. */
  lemma ActAdvances(jumps: nat -> bool, b: Snapshot, a: Snapshot, act: Action, r: Outcome, ptr: nat, f: Function,
                    finished: bool, calls: seq<Call>)
    requires Proper(act) && Well(b) && ActDid(jumps, b, a, act, r) && IsAt(b, ptr, f, finished, calls)
    requires !(act.DoForget? && act.ptr == ptr)
    ensures IsAt(a, ptr, f, finished || (Finishes(act, ptr) && !jumps(b.calls)), calls + CallOf(act, ptr))
  {
    hide IsAt, Well, UpdateDid, FinishDid, DigestDid, AesDid, ConstructorDid, CollectDid;
    if Updates(act, ptr) || Finishes(act, ptr) {
      AtStream(b, ptr, f, finished, calls);
    }
    if Updates(act, ptr) {
      UpdateAdvances(jumps, b, a, act.data, act.last, r, ptr, f, finished, calls);
    } else {
      assert calls + CallOf(act, ptr) == calls;
      if Finishes(act, ptr) {
        FinishAdvances(jumps, b, a, act.last, r, ptr, f, finished, calls);
      } else {
        OthersLeaveIt(jumps, b, a, act, r, ptr, f, finished, calls);
      }
    }
  }

  lemma AtStream(b: Snapshot, ptr: nat, f: Function, finished: bool, calls: seq<Call>)
    requires IsAt(b, ptr, f, finished, calls)
    ensures HasStream(b, ptr)
  {
  }

  /** A stream that R was given and kept is, at every later point of the session, a handle that has seen
      exactly the updates on it, in order; or it was finished. */
  lemma {:induction false} StreamState(jumps: nat -> bool, actions: seq<Action>, outcomes: seq<Outcome>, trace: seq<Snapshot>,
                                       i: nat, k: nat, ptr: nat)
    requires (forall m :: 0 <= m < |actions| ==> Proper(actions[m])) && Went(jumps, actions, outcomes, trace)
    requires i < k <= |actions| && actions[i].DoStreamNew? && outcomes[i] == Returned(Ok, Some(ptr))
    requires KeepsAll(actions, i + 1, k, ptr)
    ensures IsAt(trace[k], ptr, actions[i].f, Finished(jumps, actions, trace, i + 1, k, ptr), CallsOn(actions, i + 1, k, ptr))
    decreases k
  {
    hide IsAt, Well, ActDid, Proper, Went, Finished, CallsOn;
    var f := actions[i].f;
    WentAt(jumps, actions, outcomes, trace, k - 1);
    NoneYet(jumps, actions, trace, i + 1, ptr);
    if k == i + 1 {
      NewIsAt(jumps, trace[i], trace[k], actions[i], outcomes[i], ptr);
    } else {
      StreamState(jumps, actions, outcomes, trace, i, k - 1, ptr);
      var finished, calls := Finished(jumps, actions, trace, i + 1, k - 1, ptr), CallsOn(actions, i + 1, k - 1, ptr);
      ActAdvances(jumps, trace[k - 1], trace[k], actions[k - 1], outcomes[k - 1], ptr, f, finished, calls);
      FinishedStep(jumps, actions, trace, i + 1, k, ptr);
      CallsStep(actions, i + 1, k, ptr);
    }
  }

  lemma WentAt(jumps: nat -> bool, actions: seq<Action>, outcomes: seq<Outcome>, trace: seq<Snapshot>, k: nat)
    requires (forall m :: 0 <= m < |actions| ==> Proper(actions[m])) && Went(jumps, actions, outcomes, trace) && k < |actions|
    ensures |trace| == |actions| + 1 && |outcomes| == |actions|
    ensures Well(trace[k]) && ActDid(jumps, trace[k], trace[k + 1], actions[k], outcomes[k])
  {
    hide Well, ActDid, Proper;
  }

  lemma NoneYet(jumps: nat -> bool, actions: seq<Action>, trace: seq<Snapshot>, from: nat, ptr: nat)
    requires from <= |actions| < |trace|
    ensures !Finished(jumps, actions, trace, from, from, ptr) && CallsOn(actions, from, from, ptr) == []
  {
  }

  lemma CallsStep(actions: seq<Action>, from: nat, end: nat, ptr: nat)
    requires from < end <= |actions|
    ensures CallsOn(actions, from, end, ptr) == CallsOn(actions, from, end - 1, ptr) + CallOf(actions[end - 1], ptr)
  {
  }

  lemma FinishedStep(jumps: nat -> bool, actions: seq<Action>, trace: seq<Snapshot>, from: nat, end: nat, ptr: nat)
    requires from < end <= |actions| < |trace|
    ensures Finished(jumps, actions, trace, from, end, ptr) <==>
            || Finished(jumps, actions, trace, from, end - 1, ptr)
            || (Finishes(actions[end - 1], ptr) && !jumps(trace[end - 1].calls))
  {
  }

  lemma NewIsAt(jumps: nat -> bool, b: Snapshot, a: Snapshot, act: Action, r: Outcome, ptr: nat)
    requires Proper(act) && ActDid(jumps, b, a, act, r) && act.DoStreamNew? && r == Returned(Ok, Some(ptr))
    ensures IsAt(a, ptr, act.f, false, [])
  {
    hide Well, Undisturbed, Quiet;
  }

  /** The calls on the handle carry the data of the updates, and leave it usable if they were accepted. */
  lemma {:induction false} CallsCarryData(f: Function, actions: seq<Action>, from: nat, end: nat, ptr: nat)
    requires from <= end <= |actions|
    ensures Since(CallsOn(actions, from, end, ptr)) == DataOn(actions, from, end, ptr)
    ensures Usable(f, CallsOn(actions, from, end, ptr)) <==> AllAccepted(actions, from, end, ptr)
    decreases end
  {
    if from < end {
      hide Since, Usable, AllAccepted;
      CallsCarryData(f, actions, from, end - 1, ptr);
      AcceptedStep(actions, from, end, ptr);
      var before, act := CallsOn(actions, from, end - 1, ptr), actions[end - 1];
      if Updates(act, ptr) {
        UpdateCarries(f, before, act.data, act.last);
      } else {
        assert CallsOn(actions, from, end, ptr) == before;
        assert DataOn(actions, from, end, ptr) == DataOn(actions, from, end - 1, ptr);
      }
    }
  }

  lemma UpdateCarries(f: Function, calls: seq<Call>, data: bytes, ps: Status)
    ensures var more := calls + [Update(Given(data), ps)];
            && Since(more) == Since(calls) + data
            && (Usable(f, more) <==> Usable(f, calls) && (data == [] || ps == Ok))
  {
    var more := calls + [Update(Given(data), ps)];
    assert more[..|more| - 1] == calls;
  }

  lemma AcceptedStep(actions: seq<Action>, from: nat, end: nat, ptr: nat)
    requires from < end <= |actions|
    ensures AllAccepted(actions, from, end, ptr) <==>
            && AllAccepted(actions, from, end - 1, ptr)
            && (Updates(actions[end - 1], ptr) ==> actions[end - 1].data == [] || actions[end - 1].last == Ok)
  {
  }

  /** What finish returns on a handle that has seen these calls, the size checked as the glue checks it. */
  lemma FinishReply(f: Function, calls: seq<Call>, last: Status)
    ensures var reply := Step(f, After(f, calls), Digest.Finish(false, f.size, last)).1;
            && (SizeChecked(f, reply) == Ok <==> Usable(f, calls) && last == Ok && |f.of(Since(calls))| == f.size)
            && (SizeChecked(f, reply) == Ok ==> reply.out == f.of(Since(calls)))
  {
    FinishIff(f, calls, false, f.size, last);
  }

  lemma FinishGives(jumps: nat -> bool, b: Snapshot, a: Snapshot, last: Status, r: Outcome, ptr: nat, f: Function,
                    finished: bool, calls: seq<Call>)
    requires IsAt(b, ptr, f, finished, calls) && HasStream(b, ptr) && FinishDid(jumps, b, a, ptr, last, r) && r.Returned?
    ensures r.st == Ok <==> !finished && Usable(f, calls) && last == Ok && |f.of(Since(calls))| == f.size
    ensures r.st == Ok ==> Gives(a, r, f.of(Since(calls)))
  {
    hide After, Step, Undisturbed, Well, Quiet, Same, Gives, Usable, Since;
    FinishReply(f, calls, last);
  }

  /** For every session and every stream R was given and kept until its finish, with any other actions,
      longjmps and collections in between: unless R jumps out of it, finish returns OK exactly when it is
      the first to get that far, the backend accepted every update and the finish, and the size is right;
      and then its value is the function of the data of all updates on that stream, in order. */
  lemma StreamGives(jumps: nat -> bool, actions: seq<Action>, outcomes: seq<Outcome>, trace: seq<Snapshot>,
                    i: nat, j: nat, ptr: nat)
    requires (forall m :: 0 <= m < |actions| ==> Proper(actions[m])) && Went(jumps, actions, outcomes, trace)
    requires i < j < |actions| && actions[i].DoStreamNew? && outcomes[i] == Returned(Ok, Some(ptr))
    requires KeepsAll(actions, i + 1, j, ptr) && Finishes(actions[j], ptr) && outcomes[j].Returned?
    ensures var f, data, r := actions[i].f, DataOn(actions, i + 1, j, ptr), outcomes[j];
            && (r.st == Ok <==>
                  && !Finished(jumps, actions, trace, i + 1, j, ptr) && AllAccepted(actions, i + 1, j, ptr)
                  && actions[j].last == Ok && |f.of(data)| == f.size)
            && (r.st == Ok ==> Gives(trace[j + 1], r, f.of(data)))
  {
    hide IsAt, Well, Proper, FinishDid, Gives, AllAccepted, Finished, Went, CallsOn, DataOn, Usable, Since;
    var f, calls := actions[i].f, CallsOn(actions, i + 1, j, ptr);
    WentAt(jumps, actions, outcomes, trace, j);
    StreamState(jumps, actions, outcomes, trace, i, j, ptr);
    CallsCarryData(f, actions, i + 1, j, ptr);
    var finished := Finished(jumps, actions, trace, i + 1, j, ptr);
    AtStream(trace[j], ptr, f, finished, calls);
    FinishGives(jumps, trace[j], trace[j + 1], actions[j].last, outcomes[j], ptr, f, finished, calls);
  }
}
