/** Resource lifetimes in the adapter: the reference count and the live counter of
    src/zuc_backend.c, the backend's key store, and the handles that own keys in it. */
module Lifetimes {

  /** The count's ceiling, 0xFFFFFFFF. */
  const MAX_COUNT: nat := 0xFFFF_FFFF

  /** A handle that has been handed out; HMAC and AES handles own a key in the store. */
  datatype Handle = HashHandle | HmacHandle(key: nat) | AesHandle(key: nat) | PkeyHandle

  predicate Keyed(h: Handle) {
    h.HmacHandle? || h.AesHandle?
  }

  /** `handles` are the ones not yet freed, by address. */
  datatype State = State(refcount: nat, up: bool, store: set<nat>, handles: map<nat, Handle>, live: int)

  const INITIAL := State(0, false, {}, map[], 0)

  function KeysOf(handles: map<nat, Handle>): set<nat> {
    set a | a in handles && Keyed(handles[a]) :: handles[a].key
  }

  /** The store holds exactly the keys of unfreed AES and HMAC handles, no two of which share one,
      and the live counter is the number of unfreed handles. */
  ghost predicate Consistent(s: State) {
    s.store == KeysOf(s.handles) && Distinct(s.handles) && s.live == |s.handles|
  }

  ghost predicate Distinct(handles: map<nat, Handle>) {
    forall a, b :: a in handles && b in handles && a != b && Keyed(handles[a]) && Keyed(handles[b]) ==>
      handles[a].key != handles[b].key
  }

  // --- what an operation amounts to -------------------------------------

  datatype Event =
    | Init(started: bool)
    | Shutdown
    | New(addr: nat, handle: Handle)
    | Free(addr: nat)
    | Nothing

  /** A new handle is at an unused address with an unused key; only an unfreed handle is freed. */
  predicate Enabled(s: State, e: Event) {
    match e
    case New(addr, h) => s.refcount > 0 && addr !in s.handles && (Keyed(h) ==> h.key !in s.store)
    case Free(addr) => addr in s.handles
    case _ => true
  }

  function Added(s: State, addr: nat, h: Handle): State {
    s.(store := s.store + (if Keyed(h) then {h.key} else {}), handles := s.handles[addr := h], live := s.live + 1)
  }

  function Removed(s: State, addr: nat): State
    requires addr in s.handles
  {
    var h := s.handles[addr];
    s.(store := s.store - (if Keyed(h) then {h.key} else {}), handles := s.handles - {addr}, live := s.live - 1)
  }

  function Next(s: State, e: Event): State {
    if !Enabled(s, e) then s
    else match e
    case Init(started) =>
      if s.refcount > 0 then (if s.refcount == MAX_COUNT then s else s.(refcount := s.refcount + 1))
      else if started then s.(refcount := 1, up := true)
      else s
    case Shutdown =>
      if s.refcount == 0 then s
      else if s.refcount == 1 then s.(refcount := 0, up := false, store := {})
      else s.(refcount := s.refcount - 1)
    case New(addr, h) => Added(s, addr, h)
    case Free(addr) => Removed(s, addr)
    case Nothing => s
  }

  /** Whether an init or shutdown returns OK. */
  predicate Succeeds(s: State, e: Event) {
    match e
    case Init(started) => if s.refcount > 0 then s.refcount != MAX_COUNT else started
    case Shutdown => s.refcount != 0
    case _ => true
  }

  lemma KeysOfAdded(handles: map<nat, Handle>, addr: nat, h: Handle)
    requires addr !in handles
    ensures KeysOf(handles[addr := h]) == KeysOf(handles) + (if Keyed(h) then {h.key} else {})
  {
    var more := handles[addr := h];
    forall k ensures k in KeysOf(more) <==> k in KeysOf(handles) || (Keyed(h) && k == h.key) {
      if k in KeysOf(handles) {
        var a :| a in handles && Keyed(handles[a]) && handles[a].key == k;
        assert a in more && more[a].key == k;
      }
      if Keyed(h) && k == h.key {
        assert more[addr].key == k;
      }
    }
  }

  lemma DistinctAdded(handles: map<nat, Handle>, addr: nat, h: Handle)
    requires Distinct(handles) && addr !in handles && (Keyed(h) ==> h.key !in KeysOf(handles))
    ensures Distinct(handles[addr := h])
  {
    hide KeysOf;
    forall a | a in handles && Keyed(handles[a]) ensures handles[a].key in KeysOf(handles) {
      KeyInStore(handles, a);
    }
  }

  lemma AddKeeps(s: State, addr: nat, h: Handle)
    requires Consistent(s) && Enabled(s, New(addr, h))
    ensures Consistent(Added(s, addr, h))
  {
    hide KeysOf, Distinct;
    KeysOfAdded(s.handles, addr, h);
    DistinctAdded(s.handles, addr, h);
    OneLarger(s.handles, addr, h);
  }

  lemma OneLarger(handles: map<nat, Handle>, addr: nat, h: Handle)
    requires addr !in handles
    ensures |handles[addr := h]| == |handles| + 1
  {
    assert handles[addr := h].Keys == handles.Keys + {addr};
  }

  lemma KeyInStore(handles: map<nat, Handle>, a: nat)
    requires a in handles && Keyed(handles[a])
    ensures handles[a].key in KeysOf(handles)
  {
  }

  lemma RemoveKeeps(s: State, addr: nat)
    requires Consistent(s) && addr in s.handles
    ensures Consistent(Removed(s, addr))
  {
    var t := Removed(s, addr);
    assert t.handles.Keys == s.handles.Keys - {addr};
    forall k ensures k in t.store <==> k in KeysOf(t.handles) {
      if k in t.store {
        var a :| a in s.handles && Keyed(s.handles[a]) && s.handles[a].key == k;
        assert a in t.handles && t.handles[a].key == k;
      }
    }
  }

  /** Every event keeps the invariant, with one exact exception: the last shutdown while a handle
      still owns a key, which empties the store under it. */
  lemma EventKeepsIff(s: State, e: Event)
    requires Consistent(s) && Enabled(s, e)
    ensures Consistent(Next(s, e)) <==>
            !(e.Shutdown? && s.refcount == 1 && exists a :: a in s.handles && Keyed(s.handles[a]))
  {
    match e {
      case New(addr, h) => AddKeeps(s, addr, h);
      case Free(addr) => RemoveKeeps(s, addr);
      case Shutdown =>
        if s.refcount == 1 {
          if a :| a in s.handles && Keyed(s.handles[a]) {
            assert s.handles[a].key in KeysOf(s.handles);
          }
        }
      case _ =>
    }
  }

  // --- whole runs -------------------------------------------------------

  /** Every event of the run was possible when it happened. */
  predicate Possible(events: seq<Event>) {
    events == [] ||
    (Possible(events[..|events| - 1]) && Enabled(Run(events[..|events| - 1]), events[|events| - 1]))
  }

  function Run(events: seq<Event>): State {
    if events == [] then INITIAL else Next(Run(events[..|events| - 1]), events[|events| - 1])
  }

  lemma RunExtends(events: seq<Event>, e: Event)
    ensures Run(events + [e]) == Next(Run(events), e)
    ensures Possible(events + [e]) <==> Possible(events) && Enabled(Run(events), e)
  {
    var more := events + [e];
    assert more[..|more| - 1] == events;
  }

  /** The reference count never drops to zero under a handle that owns a key. */
  predicate Supported(events: seq<Event>) {
    events == [] ||
    var before := events[..|events| - 1];
    && Supported(before)
    && !(events[|events| - 1].Shutdown? && Run(before).refcount == 1 && KeysOf(Run(before).handles) != {})
  }

  /** Over every run, with arbitrary failures, key store, live counter and handles agree. */
  lemma {:induction false} RunIsConsistent(events: seq<Event>)
    requires Possible(events) && Supported(events)
    ensures Consistent(Run(events))
  {
    if events != [] {
      var before := events[..|events| - 1];
      RunIsConsistent(before);
      var s := Run(before);
      EventKeepsIff(s, events[|events| - 1]);
      if a :| a in s.handles && Keyed(s.handles[a]) {
        assert s.handles[a].key in KeysOf(s.handles);
      }
    }
  }

  /** At every point of a run they agree exactly when the run is a supported one. */
  lemma {:induction false} AgreesThroughoutIff(events: seq<Event>)
    requires Possible(events)
    ensures Supported(events) <==> forall k :: 0 <= k <= |events| ==> Consistent(Run(events[..k]))
  {
    if events == [] {
      RunIsConsistent([]);
    } else {
      hide Next, Enabled, Consistent, KeysOf;
      var before, e := events[..|events| - 1], events[|events| - 1];
      var s := Run(before);
      AgreesThroughoutIff(before);
      assert forall k :: 0 <= k <= |before| ==> events[..k] == before[..k];
      assert events[..|events|] == events && events[..|before|] == before;
      if Supported(events) {
        RunIsConsistent(events);
      } else if Supported(before) {
        RunIsConsistent(before);
        LastShutdownBreaks(s);
      }
    }
  }

  lemma LastShutdownBreaks(s: State)
    requires Consistent(s) && s.refcount == 1 && KeysOf(s.handles) != {}
    ensures !Consistent(Next(s, Shutdown))
  {
    var k :| k in KeysOf(s.handles);
    var a :| a in s.handles && Keyed(s.handles[a]) && s.handles[a].key == k;
    EventKeepsIff(s, Shutdown);
  }

  /** The count stops at 2^32 - 1, the largest unsigned int: one more init is refused there and nowhere below. */
  lemma CountCeiling(s: State, started: bool)
    requires s.refcount > 0
    ensures s.refcount == 4294967295 ==> !Succeeds(s, Init(started)) && Next(s, Init(started)) == s
    ensures s.refcount < 4294967295 ==> Succeeds(s, Init(started)) && Next(s, Init(started)) == s.(refcount := s.refcount + 1)
  {
  }

  /** How many inits, and how many shutdowns, of a run returned OK. */
  function OkInits(events: seq<Event>): nat {
    if events == [] then 0
    else
      var before, e := events[..|events| - 1], events[|events| - 1];
      OkInits(before) + if e.Init? && Succeeds(Run(before), e) then 1 else 0
  }

  function OkShutdowns(events: seq<Event>): nat {
    if events == [] then 0
    else
      var before, e := events[..|events| - 1], events[|events| - 1];
      OkShutdowns(before) + if e.Shutdown? && Succeeds(Run(before), e) then 1 else 0
  }

  /** How often the backend was torn down: how often `up` went from true to false. */
  function Teardowns(events: seq<Event>): nat {
    if events == [] then 0
    else
      var before := events[..|events| - 1];
      Teardowns(before) + if Run(before).up && !Run(events).up then 1 else 0
  }

  /** How often a shutdown matched the last open init. */
  function LastShutdowns(events: seq<Event>): nat {
    if events == [] then 0
    else
      var before, e := events[..|events| - 1], events[|events| - 1];
      LastShutdowns(before) + if e.Shutdown? && OkInits(before) == OkShutdowns(before) + 1 then 1 else 0
  }

  /** The count is successful inits minus successful shutdowns and never wraps, the backend is up
      exactly while it is positive, and teardown happens exactly on each last matching shutdown. */
  lemma {:induction false} CountIsBalance(events: seq<Event>)
    ensures Run(events).refcount == OkInits(events) - OkShutdowns(events)
    ensures 0 <= Run(events).refcount <= MAX_COUNT
    ensures Run(events).up <==> OkInits(events) > OkShutdowns(events)
    ensures Teardowns(events) == LastShutdowns(events)
  {
    if events != [] {
      CountIsBalance(events[..|events| - 1]);
    }
  }

  /** How many handles were handed out, and how many freed. */
  function Count(events: seq<Event>, which: Event -> bool): nat {
    if events == [] then 0
    else Count(events[..|events| - 1], which) + if which(events[|events| - 1]) then 1 else 0
  }

  /** The places of a run where such an event happened. */
  ghost function Places(events: seq<Event>, which: Event -> bool): set<nat> {
    set i: nat | i < |events| && which(events[i])
  }

  lemma {:induction false} CountExactly(events: seq<Event>, which: Event -> bool)
    ensures Count(events, which) == |Places(events, which)|
  {
    if events == [] {
      assert Places(events, which) == {};
    } else {
      var n := |events| - 1;
      var before := events[..n];
      CountExactly(before, which);
      assert Places(events, which) == Places(before, which) + if which(events[n]) then {n} else {};
    }
  }

  /** The live counter is handles handed out minus handles freed, over every run whatever. */
  lemma {:induction false} LiveIsBalance(events: seq<Event>)
    requires Possible(events)
    ensures Run(events).live == Count(events, (e: Event) => e.New?) - Count(events, (e: Event) => e.Free?)
  {
    if events != [] {
      LiveIsBalance(events[..|events| - 1]);
    }
  }
}
