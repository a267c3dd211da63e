/** The incremental handles of src/zuc_hash.c. `struct zuc_hash` and `struct zuc_hmac` go through the
    same five calls; they differ in the function of the absorbed bytes that finish returns, so that
    function is a parameter here: the hash, or the MAC under the stored key. */
module Digest {
  import opened Bytes
  import opened Statuses

  /** The function a handle computes, and the size of its result. */
  datatype Function = Function(of: bytes -> bytes, size: nat)

  /** The backend's multipart operation. A step that fails leaves it unusable until set up again. */
  datatype Operation = Unusable | Absorbing(data: bytes)

  datatype State = State(active: bool, op: Operation)

  const FRESH := State(true, Absorbing([]))

  /** A buffer argument: a NULL pointer with a length, or bytes. */
  datatype Input = NullInput(len: nat) | Given(data: bytes)

  /** A call and, in `ps`, what the backend answers if it is asked. */
  datatype Call =
    | Update(input: Input, ps: Status)
    | Finish(nullOut: bool, outSize: nat, ps: Status)
    | Reset(ps: Status)

  datatype Reply = Reply(st: Status, out: bytes)

  // --- the backend ------------------------------------------------------

  function PsaUpdate(op: Operation, data: bytes, ps: Status): (Operation, Status) {
    if op.Unusable? then (Unusable, Internal)
    else if ps != Ok then (Unusable, ps)
    else (Absorbing(op.data + data), Ok)
  }

  function PsaFinish(f: Function, op: Operation, ps: Status): Reply {
    if op.Unusable? then Reply(Internal, [])
    else if ps != Ok then Reply(ps, [])
    else Reply(Ok, f.of(op.data))
  }

  function PsaSetup(ps: Status): Operation {
    if ps == Ok then Absorbing([]) else Unusable
  }

  // --- the handle -------------------------------------------------------

  function Step(f: Function, s: State, call: Call): (State, Reply) {
    match call
    case Update(NullInput(len), _) =>
      (s, Reply(if len == 0 && s.active then Ok else InvalidArgument, []))
    case Update(Given(data), ps) =>
      if !s.active then (s, Reply(InvalidArgument, []))
      else if data == [] then (s, Reply(Ok, []))
      else
        var (op, st) := PsaUpdate(s.op, data, ps);
        (s.(op := op), Reply(st, []))
    case Finish(nullOut, outSize, ps) =>
      if nullOut || !s.active then (s, Reply(InvalidArgument, []))
      else if outSize < f.size then (s, Reply(BadLength, []))
      else (State(false, Unusable), PsaFinish(f, s.op, ps))
    case Reset(ps) =>
      (State(ps == Ok, PsaSetup(ps)), Reply(ps, []))
  }

  class Handle {
    const f: Function
    var active: bool
    var op: Operation

    function Model(): State
      reads this
    {
      State(active, op)
    }

    /** What `zuc_hash_new` and `zuc_hmac_new` hand out. */
    constructor (f: Function)
      ensures this.f == f && Model() == FRESH
    {
      this.f, active, op := f, true, Absorbing([]);
    }

    /** `zuc_hash_update`, `zuc_hmac_update` */
    method DoUpdate(input: Input, ps: Status) returns (st: Status)
      modifies this
      ensures Model() == Step(f, old(Model()), Update(input, ps)).0
      ensures st == Step(f, old(Model()), Update(input, ps)).1.st
    {
      if input.NullInput? && input.len != 0 {
        return InvalidArgument;
      }
      if !active {
        return InvalidArgument;
      }
      if input.NullInput? || input.data == [] {
        return Ok;
      }
      if op.Unusable? {
        return Internal;
      }
      if ps != Ok {
        op := Unusable;
        return ps;
      }
      op := Absorbing(op.data + input.data);
      return Ok;
    }

    /** `zuc_hash_finish`, `zuc_hmac_finish` */
    method DoFinish(nullOut: bool, outSize: nat, ps: Status) returns (st: Status, out: bytes)
      modifies this
      ensures Model() == Step(f, old(Model()), Finish(nullOut, outSize, ps)).0
      ensures Reply(st, out) == Step(f, old(Model()), Finish(nullOut, outSize, ps)).1
    {
      if nullOut || !active {
        return InvalidArgument, [];
      }
      if outSize < f.size {
        return BadLength, [];
      }
      var r := PsaFinish(f, op, ps);
      op := Unusable;
      active := false;
      return r.st, r.out;
    }

    /** `zuc_hash_reset`, `zuc_hmac_reset` */
    method DoReset(ps: Status) returns (st: Status)
      modifies this
      ensures Model() == Step(f, old(Model()), Reset(ps)).0 && st == ps
    {
      if active {
        op := Unusable;
        active := false;
      }
      op := PsaSetup(ps);
      if ps != Ok {
        return ps;
      }
      active := true;
      return Ok;
    }
  }

  // --- whole runs -------------------------------------------------------

  /** A new handle after a run of calls. */
  function After(f: Function, calls: seq<Call>): State {
    if calls == [] then FRESH
    else Step(f, After(f, calls[..|calls| - 1]), calls[|calls| - 1]).0
  }

  /** The data of all updates since the handle was new or last reset. */
  function Since(calls: seq<Call>): bytes {
    if calls == [] then []
    else
      var before, last := calls[..|calls| - 1], calls[|calls| - 1];
      match last
      case Reset(_) => []
      case Update(Given(data), _) => Since(before) + data
      case _ => Since(before)
  }

  /** Since the handle was new or last reset: that went well, every update the backend saw went
      well, and no finish got as far as the backend. */
  predicate Usable(f: Function, calls: seq<Call>) {
    if calls == [] then true
    else
      var before, last := calls[..|calls| - 1], calls[|calls| - 1];
      match last
      case Reset(ps) => ps == Ok
      case Update(Given(data), ps) => Usable(f, before) && (data == [] || ps == Ok)
      case Update(NullInput(_), _) => Usable(f, before)
      case Finish(nullOut, outSize, _) => Usable(f, before) && (nullOut || outSize < f.size)
  }

  /** The state of a handle, from the history of its calls alone. */
  lemma {:induction false} StateOfRun(f: Function, calls: seq<Call>)
    ensures Usable(f, calls) ==> After(f, calls) == State(true, Absorbing(Since(calls)))
    ensures !Usable(f, calls) ==> !After(f, calls).active || After(f, calls).op == Unusable
  {
    if calls != [] {
      StateOfRun(f, calls[..|calls| - 1]);
      var last := calls[|calls| - 1];
      if last.Update? && last.input == Given([]) {
        assert Since(calls[..|calls| - 1]) + [] == Since(calls[..|calls| - 1]);
      }
    }
  }

  /** For every run of calls: finish returns OK exactly when nothing went wrong since the handle was
      new or last reset, and then it returns the function of all the data since. */
  lemma FinishIff(f: Function, calls: seq<Call>, nullOut: bool, outSize: nat, ps: Status)
    ensures var r := Step(f, After(f, calls), Finish(nullOut, outSize, ps)).1;
            if Usable(f, calls) && !nullOut && outSize >= f.size && ps == Ok
            then r == Reply(Ok, f.of(Since(calls)))
            else r.st != Ok
  {
    StateOfRun(f, calls);
  }

  /** Which status each call returns: a NULL pointer with a length, and any use of a handle that is not active,
      are argument errors; a short buffer is a length; an operation that failed before is an internal error;
      and otherwise the backend's answer. Nothing but an update that the backend accepts adds data. */
  lemma RepliesExactly(f: Function, s: State, input: Input, nullOut: bool, outSize: nat, ps: Status)
    ensures var (t, r) := Step(f, s, Update(input, ps));
            && (input.NullInput? && input.len > 0 ==> r.st == InvalidArgument && t == s)
            && (!s.active ==> r.st == InvalidArgument && t == s)
            && (s.active && (input == NullInput(0) || input == Given([])) ==> r.st == Ok && t == s)
            && (s.active && input.Given? && input.data != [] && s.op == Unusable ==> r.st == Internal && t == s)
            && (s.active && input.Given? && input.data != [] && s.op.Absorbing? ==>
                  r.st == ps && t == State(true, if ps == Ok then Absorbing(s.op.data + input.data) else Unusable))
    ensures var (t, r) := Step(f, s, Finish(nullOut, outSize, ps));
            && (nullOut || !s.active ==> r.st == InvalidArgument && t == s)
            && (!nullOut && s.active && outSize < f.size ==> r.st == BadLength && t == s)
            && (!nullOut && s.active && outSize >= f.size ==>
                  !t.active && r.st == if s.op == Unusable then Internal else ps)
    ensures var (t, r) := Step(f, s, Reset(ps));
            r.st == ps && (t.active <==> ps == Ok) && (ps == Ok ==> t.op == Absorbing([]))
  {
  }

  /** A refused update need not make finish fail: one with a NULL pointer is an error, and yet finish then
      returns the function of the data before it. */
  lemma NullUpdateIsForgotten(f: Function)
    ensures var call := Update(NullInput(1), Ok);
            && Step(f, FRESH, call).1.st == InvalidArgument
            && Step(f, After(f, [call]), Finish(false, f.size, Ok)).1 == Reply(Ok, f.of([]))
  {
    var calls := [Update(NullInput(1), Ok)];
    assert calls[..0] == [] && After(f, calls[..0]) == FRESH;
    assert Since(calls[..0]) == [] && Usable(f, calls[..0]);
    FinishIff(f, calls, false, f.size, Ok);
  }

  /** A handle that was reset behaves as a new one, whatever came before. */
  lemma {:induction false} ResetIsFresh(f: Function, before: seq<Call>, after: seq<Call>)
    ensures After(f, before + [Reset(Ok)] + after) == After(f, after)
    decreases |after|
  {
    var all := before + [Reset(Ok)] + after;
    if after == [] {
      assert all == before + [Reset(Ok)];
      assert all[..|all| - 1] == before;
    } else {
      var most := after[..|after| - 1];
      assert all[..|all| - 1] == before + [Reset(Ok)] + most;
      ResetIsFresh(f, before, most);
    }
  }

  /** A finish refused for a short buffer, or for a NULL one, changes nothing. */
  lemma ShortFinishChangesNothing(f: Function, s: State, nullOut: bool, outSize: nat, ps: Status)
    requires nullOut || outSize < f.size
    ensures Step(f, s, Finish(nullOut, outSize, ps)).0 == s
    ensures Step(f, s, Finish(nullOut, outSize, ps)).1.st != Ok
  {
  }

  /** The updates that feed a message in the given parts. */
  function Feed(parts: seq<bytes>): (calls: seq<Call>)
    ensures |calls| == |parts|
  {
    seq(|parts|, i requires 0 <= i < |parts| => Update(Given(parts[i]), Ok))
  }

  lemma OneMore(f: Function, calls: seq<Call>, data: bytes)
    ensures Since(calls + [Update(Given(data), Ok)]) == Since(calls) + data
    ensures Usable(f, calls + [Update(Given(data), Ok)]) == Usable(f, calls)
  {
    var more := calls + [Update(Given(data), Ok)];
    assert more[..|more| - 1] == calls;
  }

  lemma {:induction false} FedIsWhole(f: Function, before: seq<Call>, parts: seq<bytes>)
    requires Usable(f, before)
    ensures Usable(f, before + Feed(parts)) && Since(before + Feed(parts)) == Since(before) + Flatten(parts)
    decreases |parts|
  {
    if parts == [] {
      assert before + Feed(parts) == before;
      assert Since(before) + [] == Since(before);
    } else {
      hide Since, Usable, Flatten;
      var most, last := parts[..|parts| - 1], parts[|parts| - 1];
      FedIsWhole(f, before, most);
      FlattenSnoc(most, last);
      assert parts == most + [last];
      OneMore(f, before + Feed(most), last);
      assert before + Feed(parts) == before + Feed(most) + [Update(Given(last), Ok)];
      assert Since(before) + Flatten(most) + last == Since(before) + (Flatten(most) + last);
    }
  }

  /** Any split of a message gives what the one-shot function gives, on a new handle and on one that
      was used before and then reset. */
  lemma AnySplit(f: Function, before: seq<Call>, parts: seq<bytes>, outSize: nat)
    requires outSize >= f.size
    requires before == [] || before[|before| - 1] == Reset(Ok)
    ensures Step(f, After(f, before + Feed(parts)), Finish(false, outSize, Ok)).1 == Reply(Ok, f.of(Flatten(parts)))
  {
    FedIsWhole(f, before, parts);
    FinishIff(f, before + Feed(parts), false, outSize, Ok);
    assert [] + Flatten(parts) == Flatten(parts);
  }
}
