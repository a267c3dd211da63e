/** The part of R that src/zucrypt_crypt.c depends on: objects, the PROTECT stack, garbage collection
    with finalizers, and calls that may longjmp out of the C code. */
module RHeap {
  import opened Bytes
  import opened Options
  import opened Digest
  import L = Lifetimes

  /** An R object: an external pointer (its address and whether its finalizer is registered), or a
      raw vector. */
  datatype Object = ExtPtr(addr: Option<nat>, finalizer: bool) | RawVec(data: bytes)

  /** A native context: a digest or (`mac`) MAC handle with its state, an AES handle with its key and chaining
      value, or a public or private key. */
  datatype Native = DigestCtx(mac: bool, f: Function, state: State) | AesCtx(key: bytes, chain: bytes) | PkeyCtx

  /** Unfreed native contexts, R objects, and for every context the pointer that holds it. */
  datatype Heap = Heap(native: map<nat, Native>, objects: map<nat, Object>, owner: map<nat, nat>)

  /** All of R's state between two statements: `created` are the contexts ever made, in order, `freed`
      every call of a native destructor, `events` what the adapter has seen of it, and `calls` how many
      R calls there have been. */
  datatype Snapshot = Snapshot(heap: Heap, protect: seq<nat>, roots: set<nat>, next: nat, calls: nat,
                               created: seq<nat>, freed: multiset<nat>, events: seq<L.Event>)

  /** R_init_zucrypt takes one reference on the backend, which is never released. */
  const EMPTY := Snapshot(Heap(map[], map[], map[]), [], {}, 0, 0, [], multiset{}, [L.Init(true)])

  /** The adapter's handle for a context; its key, if it has one, has an id that no other key has. */
  function HandleOf(c: nat, x: Native): L.Handle {
    match x
    case DigestCtx(mac, _, _) => if mac then L.HmacHandle(c) else L.HashHandle
    case AesCtx(_, _) => L.AesHandle(c)
    case PkeyCtx => L.PkeyHandle
  }

  ghost function HandlesOf(native: map<nat, Native>): map<nat, L.Handle> {
    map c | c in native :: HandleOf(c, native[c])
  }

  /** The adapter's state while these are the unfreed contexts: one reference, their keys in the store,
      and as many live handles. */
  ghost function AdapterOf(native: map<nat, Native>): L.State {
    L.State(1, true, L.KeysOf(HandlesOf(native)), HandlesOf(native), |native|)
  }

  /** No R call numbered from `from` to before `to` longjmps. */
  ghost predicate Quiet(jumps: nat -> bool, from: nat, to: nat) {
    forall i: nat :: from <= i < to ==> !jumps(i)
  }

  /** Every context that was made, each once, is alive or was freed, and it was freed at most once; and
      what the adapter has seen is a possible run that has left it with exactly these contexts. */
  ghost predicate Accounted(native: map<nat, Native>, created: seq<nat>, freed: multiset<nat>, next: nat, events: seq<L.Event>) {
    && multiset(created) == freed + multiset(native.Keys)
    && (forall c :: c in created ==> c < next && multiset(created)[c] == 1)
    && L.Possible(events) && L.Run(events) == AdapterOf(native)
  }

  lemma CreatedCount(alive: set<nat>, created: seq<nat>, freed: multiset<nat>, next: nat)
    requires multiset(created) == freed + multiset(alive)
    requires forall c :: c in created ==> c < next && multiset(created)[c] == 1
    ensures next !in alive
    ensures multiset(created + [next]) == freed + multiset(alive + {next})
    ensures forall c :: c in created + [next] ==> c < next + 1 && multiset(created + [next])[c] == 1
  {
    assert next !in created && next !in multiset(created);
    assert next !in multiset(alive);
    assert multiset(alive + {next}) == multiset(alive) + multiset{next};
    assert multiset(created + [next]) == multiset(created) + multiset{next};
  }

  lemma HandlesMade(native: map<nat, Native>, c: nat, x: Native)
    requires c !in native
    ensures HandlesOf(native[c := x]) == HandlesOf(native)[c := HandleOf(c, x)] && |native[c := x]| == |native| + 1
  {
    assert native[c := x].Keys == native.Keys + {c};
  }

  lemma AdapterMade(native: map<nat, Native>, c: nat, x: Native)
    requires c !in native
    ensures L.Enabled(AdapterOf(native), L.New(c, HandleOf(c, x)))
    ensures L.Next(AdapterOf(native), L.New(c, HandleOf(c, x))) == AdapterOf(native[c := x])
  {
    hide L.KeysOf, HandlesOf;
    KeysAreContexts(native);
    HandlesMade(native, c, x);
    HandlesAreContexts(native);
    L.KeysOfAdded(HandlesOf(native), c, HandleOf(c, x));
  }

  lemma HandlesAreContexts(native: map<nat, Native>)
    ensures HandlesOf(native).Keys == native.Keys
    ensures forall c :: c in native ==> HandlesOf(native)[c] == HandleOf(c, native[c])
  {
  }

  /** A context's key has the context's number. */
  lemma KeysAreContexts(native: map<nat, Native>)
    ensures forall k :: k in L.KeysOf(HandlesOf(native)) <==> k in native && L.Keyed(HandleOf(k, native[k]))
  {
    var handles := HandlesOf(native);
    forall k | k in native && L.Keyed(HandleOf(k, native[k])) ensures k in L.KeysOf(handles) {
      assert k in handles && L.Keyed(handles[k]) && handles[k].key == k;
    }
  }

  lemma AdapterFreed(native: map<nat, Native>, c: nat)
    requires c in native
    ensures L.Enabled(AdapterOf(native), L.Free(c)) && L.Next(AdapterOf(native), L.Free(c)) == AdapterOf(native - {c})
  {
    hide L.KeysOf;
    KeysAreContexts(native);
    KeysAreContexts(native - {c});
    assert HandlesOf(native) - {c} == HandlesOf(native - {c});
    assert (native - {c}).Keys == native.Keys - {c};
    var h := HandleOf(c, native[c]);
    assert L.KeysOf(HandlesOf(native - {c})) == L.KeysOf(HandlesOf(native)) - (if L.Keyed(h) then {h.key} else {});
  }

  lemma StartsAccounted()
    ensures Accounted(map[], [], multiset{}, 0, [L.Init(true)])
  {
    var events := [L.Init(true)];
    assert events[..0] == [] && L.Run(events[..0]) == L.INITIAL;
    assert L.Run(events) == L.Next(L.INITIAL, L.Init(true));
    assert L.KeysOf(HandlesOf(map[])) == {};
  }

  /** The adapter agrees with itself whatever the contexts are. */
  lemma AdapterAgrees(native: map<nat, Native>)
    ensures L.Consistent(AdapterOf(native))
  {
    assert HandlesOf(native).Keys == native.Keys;
  }

  lemma AccountsMade(native: map<nat, Native>, created: seq<nat>, freed: multiset<nat>, next: nat, events: seq<L.Event>, x: Native)
    requires Accounted(native, created, freed, next, events)
    ensures Accounted(native[next := x], created + [next], freed, next + 1, events + [L.New(next, HandleOf(next, x))])
  {
    hide L.Run, L.Possible, L.Next, L.Enabled, AdapterOf;
    CreatedCount(native.Keys, created, freed, next);
    AdapterMade(native, next, x);
    L.RunExtends(events, L.New(next, HandleOf(next, x)));
    assert native[next := x].Keys == native.Keys + {next};
  }

  lemma AccountsLater(native: map<nat, Native>, created: seq<nat>, freed: multiset<nat>, next: nat, events: seq<L.Event>)
    requires Accounted(native, created, freed, next, events)
    ensures Accounted(native, created, freed, next + 1, events)
  {
    hide L.Run, L.Possible, AdapterOf;
  }

  lemma AccountsFreed(native: map<nat, Native>, created: seq<nat>, freed: multiset<nat>, next: nat, events: seq<L.Event>, c: nat)
    requires Accounted(native, created, freed, next, events) && c in native
    ensures Accounted(native - {c}, created, freed + multiset{c}, next, events + [L.Free(c)])
  {
    hide L.Run, L.Possible, L.Next, L.Enabled, AdapterOf;
    AdapterFreed(native, c);
    L.RunExtends(events, L.Free(c));
    assert (native - {c}).Keys == native.Keys - {c};
    assert multiset(native.Keys) == multiset(native.Keys - {c}) + multiset{c};
  }

  /** A context that only changes its state is the same handle to the adapter. */
  lemma AccountsTouched(native: map<nat, Native>, created: seq<nat>, freed: multiset<nat>, next: nat, events: seq<L.Event>,
                        c: nat, x: Native)
    requires Accounted(native, created, freed, next, events) && c in native && HandleOf(c, x) == HandleOf(c, native[c])
    ensures Accounted(native[c := x], created, freed, next, events)
  {
    hide L.Run, L.Possible;
    assert native[c := x].Keys == native.Keys;
    assert HandlesOf(native[c := x]) == HandlesOf(native);
  }

  /** Each unfreed context is held by exactly one external pointer, and that pointer has its finalizer
      registered; no pointer holds anything else. */
  ghost predicate Owned(h: Heap) {
    && h.owner.Keys == h.native.Keys
    && (forall c :: c in h.owner ==> h.owner[c] in h.objects && h.objects[h.owner[c]] == ExtPtr(Some(c), true))
    && (forall p :: p in h.objects && h.objects[p].ExtPtr? && h.objects[p].addr.Some? ==>
          h.objects[p].addr.value in h.owner && h.owner[h.objects[p].addr.value] == p)
  }

  /** What garbage collection may do: objects in `keep` stay as they are, others may go, and contexts
      go only with the pointer that held them. */
  ghost predicate Kept(b: Heap, a: Heap, keep: set<nat>) {
    && a.objects.Keys <= b.objects.Keys && a.native.Keys <= b.native.Keys
    && (forall p :: p in keep && p in b.objects ==> p in a.objects)
    && (forall p :: p in a.objects ==> a.objects[p] == b.objects[p])
    && (forall c :: c in a.native ==> a.native[c] == b.native[c])
  }

  lemma KeptTwice(a: Heap, b: Heap, c: Heap, keep: set<nat>)
    requires Kept(a, b, keep) && Kept(b, c, keep)
    ensures Kept(a, c, keep)
  {
  }

  lemma KeptFewer(b: Heap, a: Heap, keep: set<nat>)
    requires Kept(b, a, keep)
    ensures a.native.Keys <= b.native.Keys
  {
  }

  lemma KeptSame(a: Heap, keep: set<nat>)
    ensures Kept(a, a, keep)
  {
  }

  /** The contexts that R variables hold. */
  ghost function HeldBy(h: Heap, roots: set<nat>): set<nat>
    requires Owned(h)
  {
    set c | c in h.native && h.owner[c] in roots
  }

  /** Where a .Call began: the heap, the PROTECT stack and the R variables then, the first id that was
      not in use, the pointer and context the call was given to work on, and how many R calls there
      had been. */
  datatype Frame = Frame(start: Heap, stack: seq<nat>, roots: set<nat>, limit: nat, mine: set<nat>, calls: nat)

  function Keep(fr: Frame): set<nat> {
    fr.roots + (set p | p in fr.stack)
  }

  /** An object or context that is none of the call's business. */
  predicate Foreign(fr: Frame, i: nat) {
    i < fr.limit && i !in fr.mine
  }

  /** Since the call began, foreign objects and contexts have not changed, except that unreachable
      ones may be gone. */
  ghost predicate Grown(fr: Frame, a: Heap) {
    && (forall p :: p in Keep(fr) ==> p in a.objects)
    && (forall p :: p in a.objects && Foreign(fr, p) ==> p in fr.start.objects && a.objects[p] == fr.start.objects[p])
    && (forall c :: c in a.native && Foreign(fr, c) ==> c in fr.start.native && a.native[c] == fr.start.native[c])
  }

  lemma GrownKept(fr: Frame, m: Heap, a: Heap, reach: set<nat>)
    requires Grown(fr, m) && Kept(m, a, reach) && Keep(fr) <= reach
    ensures Grown(fr, a)
  {
  }

  /** These objects, and the contexts they hold, are as they were. */
  ghost predicate Same(b: Heap, a: Heap, ps: set<nat>) {
    forall p :: p in ps ==>
      && p in b.objects && p in a.objects && a.objects[p] == b.objects[p]
      && (b.objects[p].ExtPtr? && b.objects[p].addr.Some? ==>
            var c := b.objects[p].addr.value;
            c in a.native && c in b.native && a.native[c] == b.native[c])
  }

  lemma SameSelf(h: Heap, reach: set<nat>, next: nat)
    requires Owned(h) && Sane(h, reach, next)
    ensures Same(h, h, reach)
  {
  }

  lemma SameTwice(a: Heap, b: Heap, c: Heap, ps: set<nat>)
    requires Same(a, b, ps) && Same(b, c, ps)
    ensures Same(a, c, ps)
  {
  }

  lemma SameSome(b: Heap, a: Heap, ps: set<nat>, some: set<nat>)
    requires Same(b, a, ps) && some <= ps
    ensures Same(b, a, some)
  {
  }

  /** Objects that are the same hold the same contexts. */
  lemma SameHeld(b: Heap, a: Heap, ps: set<nat>)
    requires Owned(b) && Owned(a)
    requires forall p :: p in ps ==> p in b.objects && p in a.objects && a.objects[p] == b.objects[p]
    ensures HeldBy(a, ps) == HeldBy(b, ps)
  {
    forall c ensures c in HeldBy(a, ps) <==> c in HeldBy(b, ps) {
      if c in HeldBy(b, ps) {
        var p := b.owner[c];
        assert a.objects[p] == b.objects[p] == ExtPtr(Some(c), true);
      }
      if c in HeldBy(a, ps) {
        var p := a.owner[c];
        assert a.objects[p] == b.objects[p] == ExtPtr(Some(c), true);
      }
    }
  }

  /** A call that is given a context is given the pointer that holds it. */
  ghost predicate Gathered(h: Heap, mine: set<nat>) {
    forall c :: c in h.owner && c in mine ==> h.owner[c] in mine
  }

  /** Whatever a call does to what is its own, every other R variable is the same object after it, and
      the context it holds is in the same state. */
  lemma GrownSame(fr: Frame, a: Heap)
    requires Owned(fr.start) && Owned(a) && Grown(fr, a) && Gathered(fr.start, fr.mine) && fr.roots <= fr.start.objects.Keys
    requires (forall p :: p in fr.start.objects ==> p < fr.limit) && (forall c :: c in fr.start.native ==> c < fr.limit)
    ensures Same(fr.start, a, fr.roots - fr.mine)
  {
    var b := fr.start;
    forall p | p in fr.roots - fr.mine ensures Same(b, a, {p}) {
      assert Foreign(fr, p) && p in Keep(fr);
      assert a.objects[p] == b.objects[p];
      if b.objects[p].ExtPtr? && b.objects[p].addr.Some? {
        var c := b.objects[p].addr.value;
        assert b.owner[c] == p && Foreign(fr, c);
      }
    }
    SameEach(b, a, fr.roots - fr.mine);
  }

  /** What the collector keeps is the same, and so is what it holds. */
  lemma KeptIsSame(b: Heap, a: Heap, keep: set<nat>)
    requires Owned(b) && Owned(a) && Kept(b, a, keep) && keep <= b.objects.Keys
    ensures Same(b, a, keep)
  {
    hide Same, Owned, Kept;
    forall p | p in keep ensures Same(b, a, {p}) {
      KeptOneIsSame(b, a, keep, p);
    }
    SameEach(b, a, keep);
  }

  lemma SameEach(b: Heap, a: Heap, ps: set<nat>)
    requires forall p :: p in ps ==> Same(b, a, {p})
    ensures Same(b, a, ps)
  {
  }

  lemma KeptOneIsSame(b: Heap, a: Heap, keep: set<nat>, p: nat)
    requires Owned(b) && Owned(a) && Kept(b, a, keep) && p in keep && p in b.objects
    ensures Same(b, a, {p})
  {
  }

  /** Ids are fresh, contexts and objects do not share any, and nothing reachable is gone. */
  ghost predicate Sane(h: Heap, reach: set<nat>, next: nat) {
    && (forall p :: p in h.objects ==> p < next)
    && (forall c :: c in h.native ==> c < next && c !in h.objects)
    && reach <= h.objects.Keys
  }

  predicate HoldsNothing(x: Object) {
    x.ExtPtr? ==> x.addr.None?
  }

  lemma FreshId(h: Heap, reach: set<nat>, next: nat)
    requires Sane(h, reach, next)
    ensures next !in h.objects && next !in h.native && next !in reach
  {
  }

  lemma ReachIsThere(h: Heap, reach: set<nat>, next: nat)
    requires Sane(h, reach, next)
    ensures reach <= h.objects.Keys
  {
  }

  /** Making, or changing, an object of the call's own that holds no context. */
  lemma PutObject(fr: Frame, h: Heap, reach: set<nat>, next: nat, p: nat, x: Object, next': nat)
    requires Owned(h) && Grown(fr, h) && Sane(h, reach, next) && p < next' && next <= next'
    requires p >= fr.limit && HoldsNothing(x) && p !in h.native
    requires p in h.objects ==> HoldsNothing(h.objects[p])
    ensures var h' := h.(objects := h.objects[p := x]);
            Owned(h') && Grown(fr, h') && Sane(h', reach + {p}, next')
  {
  }

  /** A new context, and a pointer of the call's own that was empty and now holds it. */
  lemma Adopt(fr: Frame, h: Heap, reach: set<nat>, c: nat, p: nat, x: Native)
    requires Owned(h) && Grown(fr, h) && Sane(h, reach, c) && fr.limit <= c
    requires p >= fr.limit && p in h.objects && h.objects[p] == ExtPtr(None, true)
    ensures var h' := Heap(h.native[c := x], h.objects[p := ExtPtr(Some(c), true)], h.owner[c := p]);
            Owned(h') && Grown(fr, h') && Sane(h', reach, c + 1)
  {
  }

  /** Clearing a pointer of the call's own and freeing what it held. */
  lemma LetGo(fr: Frame, h: Heap, reach: set<nat>, next: nat, p: nat, c: nat)
    requires Owned(h) && Grown(fr, h) && Sane(h, reach, next)
    requires !Foreign(fr, p) && p in h.objects && h.objects[p].ExtPtr? && h.objects[p].addr == Some(c)
    ensures var h' := Heap(h.native - {c}, h.objects[p := h.objects[p].(addr := None)], h.owner - {c});
            c in h.native && Owned(h') && Grown(fr, h') && Sane(h', reach, next)
  {
  }

  /** An object that holds nothing, and that nothing reaches, goes. */
  lemma Collected(b: Heap, m: Heap, reach: set<nat>, next: nat, p: nat)
    requires Sane(b, reach, next) && Owned(m) && p in m.objects && HoldsNothing(m.objects[p]) && p !in reach
    requires m.objects.Keys == b.objects.Keys && m.native.Keys <= b.native.Keys
    requires forall q :: q in m.objects && q != p ==> m.objects[q] == b.objects[q]
    requires forall c :: c in m.native ==> m.native[c] == b.native[c]
    ensures var a := m.(objects := m.objects - {p});
            Owned(a) && Sane(a, reach, next) && Kept(b, a, reach)
  {
  }

  lemma UnfinalizedIsEmpty(h: Heap, p: nat)
    requires Owned(h) && p in h.objects && !(h.objects[p].ExtPtr? && h.objects[p].finalizer)
    ensures HoldsNothing(h.objects[p])
  {
  }

  /** A context of the call's own changes. */
  lemma Touched(fr: Frame, h: Heap, reach: set<nat>, next: nat, c: nat, x: Native)
    requires Owned(h) && Grown(fr, h) && Sane(h, reach, next) && c in h.native && !Foreign(fr, c)
    ensures var h' := h.(native := h.native[c := x]); Owned(h') && Grown(fr, h') && Sane(h', reach, next)
    ensures h.native[c := x].Keys == h.native.Keys
  {
  }

  lemma SameAdded(b: Heap, a: Heap, ps: set<nat>, v: nat, x: Object)
    requires Same(b, a, ps) && v !in ps
    ensures Same(b, a.(objects := a.objects[v := x]), ps)
  {
  }

  /** `jumps` says which R calls longjmp. */
  class Session {
    const jumps: nat -> bool
    var native: map<nat, Native>
    var objects: map<nat, Object>
    var protect: seq<nat>
    var roots: set<nat>
    var next: nat
    var calls: nat
    ghost var owner: map<nat, nat>
    ghost var created: seq<nat>
    ghost var freed: multiset<nat>
    ghost var events: seq<L.Event>

    ghost function Now(): Snapshot
      reads this
    {
      Snapshot(View(), protect, roots, next, calls, created, freed, events)
    }

    ghost function View(): Heap
      reads this
    {
      Heap(native, objects, owner)
    }

    /** The objects the collector must keep. */
    function Reach(): set<nat>
      reads this
    {
      roots + (set p | p in protect)
    }

    /** The state between any two C statements. */
    ghost predicate Wf()
      reads this
    {
      Sane(View(), Reach(), next) && Accounted(native, created, freed, next, events)
    }

    constructor (jumps: nat -> bool)
      ensures Wf() && Owned(View()) && Now() == EMPTY && this.jumps == jumps
    {
      this.jumps := jumps;
      native, objects, protect, roots, next, owner := map[], map[], [], {}, 0, map[];
      calls, created, freed, events := 0, [], multiset{}, [L.Init(true)];
      StartsAccounted();
    }

    /** The finalizers of src/zucrypt_crypt.c, run on a pointer that is being collected. */
    method Finalize(p: nat)
      requires p in objects && objects[p].ExtPtr? && Owned(View()) && Accounted(native, created, freed, next, events)
      modifies this`native, this`objects, this`owner, this`freed, this`events
      ensures Accounted(native, created, freed, next, events)
      ensures Owned(View()) && p in objects && objects[p].ExtPtr? && objects[p].addr.None?
      ensures objects.Keys == old(objects.Keys) && native.Keys <= old(native.Keys)
      ensures forall q :: q in objects && q != p ==> objects[q] == old(objects)[q]
      ensures forall c :: c in native ==> native[c] == old(native)[c]
    {
      hide Accounted;
      var ptr := objects[p];
      if ptr.addr.Some? {
        assert ptr.addr.value in owner;
        AccountsFreed(native, created, freed, next, events, ptr.addr.value);
        FreeNative(ptr.addr.value);
        objects := objects[p := ptr.(addr := None)];
      }
    }

    /** `zuc_hash_free` and the like. That nothing is freed twice is for the accounts to show. */
    method FreeNative(c: nat)
      modifies this`native, this`owner, this`freed, this`events
      ensures native == old(native) - {c} && owner == old(owner) - {c} && freed == old(freed) + multiset{c}
      ensures events == old(events) + [L.Free(c)]
    {
      native := native - {c};
      owner := owner - {c};
      freed, events := freed + multiset{c}, events + [L.Free(c)];
    }

    /** Collecting one unreachable object: its finalizer runs, and it is gone. */
    method CollectOne(p: nat)
      requires Wf() && Owned(View()) && p in objects && p !in Reach()
      modifies this`native, this`objects, this`owner, this`freed, this`events
      ensures Wf() && Owned(View()) && Kept(old(View()), View(), Reach())
      ensures objects.Keys == old(objects.Keys) - {p}
    {
      hide Owned, Kept, Sane, Accounted;
      ghost var before := View();
      if objects[p].ExtPtr? && objects[p].finalizer {
        Finalize(p);
      } else {
        UnfinalizedIsEmpty(View(), p);
      }
      Collected(before, View(), Reach(), next, p);
      objects := objects - {p};
    }

    /** Garbage collection of some unreachable objects. */
    method Collect(dead: set<nat>)
      requires Wf() && Owned(View()) && dead <= objects.Keys - Reach()
      modifies this`native, this`objects, this`owner, this`freed, this`events
      ensures Wf() && Owned(View()) && Kept(old(View()), View(), Reach())
      ensures objects.Keys == old(objects.Keys) - dead
    {
      hide Owned, Kept, Wf;
      var left := dead;
      ghost var start := View();
      KeptSame(start, Reach());
      while left != {}
        invariant left <= dead && left <= objects.Keys - Reach()
        invariant Wf() && Owned(View()) && Kept(start, View(), Reach())
        invariant objects.Keys == start.objects.Keys - (dead - left)
        decreases |left|
      {
        var p :| p in left;
        ghost var before := View();
        CollectOne(p);
        left := left - {p};
        KeptTwice(start, before, View(), Reach());
      }
    }

    /** Any R call that allocates or checks for an interrupt: the collector may run first, and then
        the call may longjmp, which unwinds the PROTECT stack to where the .Call began. `jumps` decides
        whether it does. */
    method RCall(base: nat) returns (jumped: bool)
      requires Wf() && Owned(View()) && base <= |protect|
      modifies this`native, this`objects, this`owner, this`freed, this`events, this`protect, this`calls
      ensures Wf() && Owned(View()) && Kept(old(View()), View(), old(Reach()))
      ensures protect == if jumped then old(protect)[..base] else old(protect)
      ensures calls == old(calls) + 1 && jumped == jumps(old(calls))
    {
      hide Owned, Kept, Accounted;
      assert {} <= objects.Keys - Reach();
      var dead: set<nat> :| dead <= objects.Keys - Reach();
      Collect(dead);
      jumped := jumps(calls);
      calls := calls + 1;
      if jumped {
        protect := protect[..base];
      }
    }

    /** R drops a variable. */
    method Forget(p: nat)
      requires Wf() && Owned(View())
      modifies this`roots
      ensures Wf() && Owned(View()) && roots == old(roots) - {p}
    {
      roots := roots - {p};
    }

    method ForgetAll()
      requires Wf() && Owned(View())
      modifies this`roots
      ensures Wf() && Owned(View()) && roots == {}
    {
      roots := {};
    }

    // --- inside a .Call --------------------------------------------------

    /** The state at a point of the call that `fr` describes where R may run. */
    ghost predicate In(fr: Frame)
      reads this
    {
      Wf() && fr.limit <= next && roots == fr.roots && fr.stack <= protect && Grown(fr, View()) && fr.calls <= calls
    }

    /** No R call since then has jumped. */
    ghost predicate Calm(fr: Frame)
      reads this
    {
      Quiet(jumps, fr.calls, calls)
    }

    /** Pointer p holds context c. */
    ghost predicate Holds(p: nat, c: nat)
      reads this
    {
      p in objects && objects[p] == ExtPtr(Some(c), true) && c in native
    }

    /** An allocation or an interrupt check. This is where R may longjmp: every context must have its
        owner. What is reachable is still there afterwards, and so is what it holds. */
    method MayJump(base: nat, ghost fr: Frame) returns (jumped: bool)
      requires In(fr) && Owned(View()) && Calm(fr) && base == |fr.stack|
      modifies this`native, this`objects, this`owner, this`freed, this`events, this`protect, this`calls
      ensures In(fr) && Owned(View()) && native.Keys <= old(native.Keys) && (jumped <==> !Calm(fr))
      ensures protect == if jumped then fr.stack else old(protect)
      ensures Same(old(View()), View(), old(Reach()))
      ensures calls == old(calls) + 1 && jumped == jumps(old(calls))
    {
      hide Owned, Kept, Grown, Accounted, Sane, Same;
      ghost var before, reach := View(), Reach();
      ReachIsThere(before, reach, next);
      jumped := RCall(base);
      GrownKept(fr, before, View(), reach);
      KeptFewer(before, View(), reach);
      KeptIsSame(before, View(), reach);
    }

    /** PROTECT(R_MakeExternalPtr(NULL, ...)) */
    method MakeExternalPtr(base: nat, ghost fr: Frame) returns (jumped: bool, p: nat)
      requires In(fr) && Owned(View()) && Calm(fr) && base == |fr.stack|
      modifies this`native, this`objects, this`owner, this`freed, this`events, this`protect, this`calls, this`next
      ensures In(fr) && Owned(View()) && native.Keys <= old(native.Keys) && (jumped <==> !Calm(fr))
      ensures calls == old(calls) + 1
      ensures jumped ==> protect == fr.stack
      ensures !jumped ==> p >= fr.limit && p in objects && objects[p] == ExtPtr(None, false) && protect == old(protect) + [p]
    {
      hide Owned, Grown, Same, Sane, Accounted, Quiet;
      jumped := MayJump(base, fr);
      p := next;
      if !jumped {
        FreshId(View(), Reach(), next);
        PutObject(fr, View(), Reach(), next, p, ExtPtr(None, false), next + 1);
        AccountsLater(native, created, freed, next, events);
        ghost var reach := Reach() + {p};
        objects := objects[p := ExtPtr(None, false)];
        protect := protect + [p];
        next := next + 1;
        assert Reach() == reach;
      }
    }

    /** R_RegisterCFinalizerEx(p, ..., TRUE), which allocates. */
    method RegisterFinalizer(p: nat, base: nat, ghost fr: Frame) returns (jumped: bool)
      requires In(fr) && Owned(View()) && Calm(fr) && base == |fr.stack|
      requires p >= fr.limit && p in protect && p in objects && objects[p] == ExtPtr(None, false)
      modifies this`native, this`objects, this`owner, this`freed, this`events, this`protect, this`calls
      ensures In(fr) && Owned(View()) && native.Keys <= old(native.Keys) && (jumped <==> !Calm(fr))
      ensures protect == if jumped then fr.stack else old(protect)
      ensures calls == old(calls) + 1
      ensures !jumped ==> p in objects && objects[p] == ExtPtr(None, true)
    {
      hide Owned, Grown, Accounted;
      jumped := MayJump(base, fr);
      if !jumped {
        assert p in Reach();
        PutObject(fr, View(), Reach(), next, p, ExtPtr(None, true), next);
        assert Reach() + {p} == Reach();
        objects := objects[p := ExtPtr(None, true)];
      }
    }

    /** PROTECT(Rf_allocVector(RAWSXP, n)) */
    method AllocRaw(n: nat, base: nat, ghost fr: Frame) returns (jumped: bool, v: nat)
      requires In(fr) && Owned(View()) && Calm(fr) && base == |fr.stack|
      modifies this`native, this`objects, this`owner, this`freed, this`events, this`protect, this`calls, this`next
      ensures In(fr) && Owned(View()) && native.Keys <= old(native.Keys) && (jumped <==> !Calm(fr))
      ensures calls == old(calls) + 1 && jumped == jumps(old(calls))
      ensures jumped ==> protect == fr.stack
      ensures !jumped ==> v >= fr.limit && v in objects && objects[v].RawVec? && |objects[v].data| == n
      ensures !jumped ==> protect == old(protect) + [v]
      ensures Same(old(View()), View(), old(Reach())) && (!jumped ==> v !in old(objects))
    {
      hide Owned, Grown, Same, Sane, Accounted, Quiet;
      ghost var start, kept := View(), Reach();
      FreshId(start, kept, next);
      jumped := MayJump(base, fr);
      v := next;
      if !jumped {
        FreshId(View(), Reach(), next);
        SameAdded(start, View(), kept, v, RawVec(Zeros(n)));
        PutObject(fr, View(), Reach(), next, v, RawVec(Zeros(n)), next + 1);
        AccountsLater(native, created, freed, next, events);
        ghost var reach := Reach() + {v};
        objects := objects[v := RawVec(Zeros(n))];
        protect := protect + [v];
        next := next + 1;
        assert Reach() == reach;
      }
    }

    /** A native constructor and R_SetExternalPtrAddr right after it: R cannot run in between, so the
        context is never without an owner at a point where it could be lost. */
    method CreateInto(p: nat, x: Native, ghost fr: Frame) returns (c: nat)
      requires In(fr) && Owned(View())
      requires p >= fr.limit && p in objects && objects[p] == ExtPtr(None, true)
      modifies this`native, this`objects, this`owner, this`created, this`events, this`next
      ensures In(fr) && Owned(View()) && Holds(p, c) && native[c] == x && c >= fr.limit
      ensures native.Keys == old(native.Keys) + {c} && c !in old(native) && created == old(created) + [c]
    {
      hide Owned, Grown, Sane, Accounted, Quiet;
      FreshId(View(), Reach(), next);
      Adopt(fr, View(), Reach(), next, p, x);
      AccountsMade(native, created, freed, next, events, x);
      c := next;
      created, events := created + [c], events + [L.New(c, HandleOf(c, x))];
      next := next + 1;
      native, objects, owner := native[c := x], objects[p := ExtPtr(Some(c), true)], owner[c := p];
    }

    /** An operation on a digest or MAC context; R does not run. */
    method DigestCall(c: nat, call: Call, ghost fr: Frame) returns (r: Reply)
      requires In(fr) && Owned(View()) && c in native && native[c].DigestCtx? && !Foreign(fr, c)
      modifies this`native
      ensures In(fr) && Owned(View())
      ensures var f, state := old(native)[c].f, old(native)[c].state;
              r == Step(f, state, call).1 && native == old(native)[c := old(native)[c].(state := Step(f, state, call).0)]
    {
      hide Owned, Grown, Sane, Accounted, Step;
      var x := native[c];
      ghost var y := x.(state := Step(x.f, x.state, call).0);
      Touched(fr, View(), Reach(), next, c, y);
      AccountsTouched(native, created, freed, next, events, c, y);
      r := Step(x.f, x.state, call).1;
      native := native[c := x.(state := Step(x.f, x.state, call).0)];
    }

    /** A native call changes the state of a context of the call's own; R does not run. */
    method SetNative(c: nat, x: Native, ghost fr: Frame)
      requires In(fr) && Owned(View()) && c in native && !Foreign(fr, c) && HandleOf(c, x) == HandleOf(c, native[c])
      modifies this`native
      ensures In(fr) && Owned(View()) && native == old(native)[c := x]
    {
      hide Owned, Grown, Sane, Accounted;
      Touched(fr, View(), Reach(), next, c, x);
      AccountsTouched(native, created, freed, next, events, c, x);
      native := native[c := x];
    }

    /** Bytes written into a raw vector of the call's own. */
    method FillRaw(v: nat, data: bytes, ghost fr: Frame)
      requires In(fr) && Owned(View()) && v >= fr.limit && v in objects && objects[v].RawVec? && |data| == |objects[v].data|
      modifies this`objects
      ensures In(fr) && Owned(View()) && objects == old(objects)[v := RawVec(data)]
    {
      hide Owned, Grown;
      PutObject(fr, View(), Reach(), next, v, RawVec(data), next);
      assert Sane(View().(objects := objects[v := RawVec(data)]), Reach(), next);
      objects := objects[v := RawVec(data)];
    }

    /** `release_ptr`: the pointer is cleared first, then the context is freed. */
    method ReleasePtr(p: nat, ghost fr: Frame)
      requires In(fr) && Owned(View()) && p in objects && objects[p].ExtPtr? && !Foreign(fr, p)
      requires objects[p].addr.Some? ==> !Foreign(fr, objects[p].addr.value)
      modifies this`native, this`objects, this`owner, this`freed, this`events
      ensures In(fr) && Owned(View())
      ensures objects == old(objects)[p := old(objects)[p].(addr := None)]
      ensures native == if old(objects)[p].addr.Some? then old(native) - {old(objects)[p].addr.value} else old(native)
    {
      hide Owned, Grown, Sane, Accounted;
      var x := objects[p];
      if x.addr.Some? {
        LetGo(fr, View(), Reach(), next, p, x.addr.value);
        AccountsFreed(native, created, freed, next, events, x.addr.value);
        objects := objects[p := x.(addr := None)];
        FreeNative(x.addr.value);
      } else {
        assert x == x.(addr := None);
      }
    }

    /** `result`: it allocates six times (two vectors, an integer, two strings and an attribute), with `value` protected by its caller throughout. */
    method Result(value: Option<nat>, base: nat, ghost fr: Frame) returns (jumped: bool)
      requires In(fr) && Owned(View()) && Calm(fr) && base == |fr.stack|
      requires value.Some? ==> value.value in protect
      modifies this`native, this`objects, this`owner, this`freed, this`events, this`protect, this`calls
      ensures In(fr) && Owned(View()) && native.Keys <= old(native.Keys) && (jumped <==> !Calm(fr))
      ensures protect == if jumped then fr.stack else old(protect)
      ensures Same(old(View()), View(), old(Reach()))
      ensures calls <= old(calls) + 6 && (!jumped ==> calls == old(calls) + 6)
    {
      hide Owned, Grown, Accounted, Sane, Same;
      jumped := false;
      ghost var reach := Reach();
      SameSelf(View(), reach, next);
      var i := 0;
      ghost var start := View();
      while i < 6 && !jumped
        invariant In(fr) && Owned(View()) && native.Keys <= old(native.Keys) && (jumped <==> !Calm(fr))
        invariant protect == if jumped then fr.stack else old(protect)
        invariant Same(start, View(), reach) && (!jumped ==> Reach() == reach)
        invariant i <= 6 && calls == old(calls) + i
        decreases 6 - i
      {
        ghost var middle := View();
        jumped := MayJump(base, fr);
        SameTwice(start, middle, View(), reach);
        i := i + 1;
      }
    }

    /** UNPROTECT of all that the call protected, and the return to R with `value` in the result. */
    method Return(value: Option<nat>, base: nat, ghost fr: Frame)
      requires In(fr) && base == |fr.stack| && (value.Some? ==> value.value in objects)
      modifies this`protect, this`roots
      ensures Wf() && protect == fr.stack
      ensures roots == if value.Some? then fr.roots + {value.value} else fr.roots
    {
      protect := protect[..base];
      if value.Some? {
        roots := roots + {value.value};
      }
    }
  }
}
