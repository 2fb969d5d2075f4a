/** `base/ref_counted`: intrusive counts and `scoped_ref_ptr`, as a machine over a heap of
    objects that may themselves own pointers. */
module RefCounts {
  import opened Bytes

  type Obj = nat

  /** Where a `scoped_ref_ptr` lives: a variable, or a member of an object. */
  datatype Loc = Var(id: nat) | Member(owner: Obj, index: nat)

  type Slots = map<Loc, Option<Obj>>

  /** `arity` gives the number of pointer members of each live object, `adopted` the
      objects a pointer has ever been made for, `deleted` the deletions in order. */
  datatype Heap = Heap(counts: map<Obj, int>, arity: map<Obj, nat>, slots: Slots,
                       adopted: set<Obj>, deleted: seq<Obj>, next: Obj)

  function Pointers(slots: Slots, o: Obj): set<Loc> {
    set l | l in slots && slots[l] == Some(o)
  }

  ghost predicate WellFormed(h: Heap) {
    && h.counts.Keys == h.arity.Keys
    && (forall o, i: nat :: o in h.arity && i < h.arity[o] ==> Member(o, i) in h.slots)
    && (forall l :: l in h.slots && l.Member? ==> l.owner in h.arity && l.index < h.arity[l.owner])
    && (forall l :: l in h.slots && h.slots[l].Some? ==> h.slots[l].value in h.counts && h.slots[l].value in h.adopted)
    && (forall o: Obj :: o < h.next <==> o in h.counts || o in h.deleted)
    && (forall o :: o in h.deleted ==> o !in h.counts)
    && (forall o :: o in h.adopted ==> o < h.next)
    && (forall i, j :: 0 <= i < j < |h.deleted| ==> h.deleted[i] != h.deleted[j])
  }

  /** The counting invariant while `pending` references are still to be released: each
      count is the number of pointers to the object plus its pending releases, and no
      adopted object stays at zero. */
  ghost predicate Inv(h: Heap, pending: multiset<Obj>) {
    && WellFormed(h)
    && Counted(h, pending)
    && InHand(h, pending)
  }

  ghost predicate Counted(h: Heap, pending: multiset<Obj>) {
    && (forall o :: o in h.counts ==> h.counts[o] == |Pointers(h.slots, o)| + pending[o])
    && (forall o :: o in h.counts && o in h.adopted ==> h.counts[o] > 0)
  }

  ghost predicate InHand(h: Heap, pending: multiset<Obj>) {
    forall o :: o in pending ==> o in h.counts && o in h.adopted
  }

  // -------------------------------------------------------------- releasing

  /** The members `0..n` of `o` taken out, last first, and what they pointed to. */
  function TakeMembers(slots: Slots, o: Obj, n: nat): (r: (Slots, seq<Obj>)) {
    if n == 0 then (slots, [])
    else
      var l := Member(o, n - 1);
      var (rest, targets) := TakeMembers(slots - {l}, o, n - 1);
      (rest, if l in slots && slots[l].Some? then [slots[l].value] + targets else targets)
  }

  /** `Release` of the first pending reference; at zero the object is deleted, and
      destroying its members makes their references pending. */
  function ReleaseStep(h: Heap, pending: seq<Obj>): (Heap, seq<Obj>)
    requires pending != [] && pending[0] in h.counts && pending[0] in h.arity
  {
    var o := pending[0];
    if h.counts[o] - 1 != 0 then (h.(counts := h.counts[o := h.counts[o] - 1]), pending[1..])
    else
      var (h', targets) := Delete(h, o);
      (h', targets + pending[1..])
  }

  lemma PointersRemove(slots: Slots, l: Loc, o: Obj)
    ensures |Pointers(slots - {l}, o)| == |Pointers(slots, o)| - if l in slots && slots[l] == Some(o) then 1 else 0
  {
    if l in slots && slots[l] == Some(o) {
      assert Pointers(slots - {l}, o) == Pointers(slots, o) - {l};
    } else {
      assert Pointers(slots - {l}, o) == Pointers(slots, o);
    }
  }

  lemma PointersUpdate(slots: Slots, l: Loc, p: Option<Obj>, o: Obj)
    ensures |Pointers(slots[l := p], o)|
         == |Pointers(slots, o)| - (if l in slots && slots[l] == Some(o) then 1 else 0) + (if p == Some(o) then 1 else 0)
  {
    PointersRemove(slots, l, o);
    if p == Some(o) {
      assert Pointers(slots[l := p], o) == Pointers(slots - {l}, o) + {l};
    } else {
      assert Pointers(slots[l := p], o) == Pointers(slots - {l}, o);
    }
  }

  /** Destroying members turns pointers into pending releases one for one. */
  lemma {:induction false} TakeMembersCounts(slots: Slots, o: Obj, n: nat, x: Obj)
    ensures var (rest, targets) := TakeMembers(slots, o, n);
            && |Pointers(slots, x)| == |Pointers(rest, x)| + multiset(targets)[x]
            && (forall l :: l in rest <==> l in slots && !(l.Member? && l.owner == o && l.index < n))
            && (forall l :: l in rest ==> rest[l] == slots[l])
            && (x in targets ==> exists l :: l in slots && slots[l] == Some(x))
  {
    TakeMembersSlots(slots, o, n);
    TakeMembersTargets(slots, o, n, x);
  }

  lemma {:induction false} TakeMembersSlots(slots: Slots, o: Obj, n: nat)
    ensures var rest := TakeMembers(slots, o, n).0;
            && (forall l :: l in rest <==> l in slots && !(l.Member? && l.owner == o && l.index < n))
            && (forall l :: l in rest ==> rest[l] == slots[l])
  {
    if n > 0 {
      TakeMembersSlots(slots - {Member(o, n - 1)}, o, n - 1);
    }
  }

  lemma {:induction false} TakeMembersTargets(slots: Slots, o: Obj, n: nat, x: Obj)
    ensures var (rest, targets) := TakeMembers(slots, o, n);
            && |Pointers(slots, x)| == |Pointers(rest, x)| + multiset(targets)[x]
            && (x in targets ==> exists l :: l in slots && slots[l] == Some(x))
  {
    if n > 0 {
      hide Pointers;
      var l := Member(o, n - 1);
      var (rest, targets) := TakeMembers(slots - {l}, o, n - 1);
      TakeMembersTargets(slots - {l}, o, n - 1, x);
      PointersRemove(slots, l, x);
      if l in slots && slots[l].Some? {
        assert multiset([slots[l].value] + targets) == multiset{slots[l].value} + multiset(targets);
      }
    }
  }

  lemma ReleaseStepKeepsInv(h: Heap, pending: seq<Obj>, rest: multiset<Obj>)
    requires pending != [] && Inv(h, multiset(pending) + rest)
    ensures pending[0] in h.counts && pending[0] in h.arity
    ensures var (h', pending') := ReleaseStep(h, pending);
            && Inv(h', multiset(pending') + rest)
            && ((h'.counts.Keys == h.counts.Keys && |pending'| < |pending|) || h'.counts.Keys < h.counts.Keys)
  {
    var o := pending[0];
    FirstPending(pending, rest);
    if h.counts[o] - 1 != 0 {
      var (h', pending') := ReleaseStep(h, pending);
      forall x | x in h'.counts
        ensures h'.counts[x] == |Pointers(h'.slots, x)| + (multiset(pending') + rest)[x]
      {
      }
    } else {
      DeletionKeepsInv(h, pending, rest);
    }
  }

  lemma FirstPending(pending: seq<Obj>, rest: multiset<Obj>)
    requires pending != []
    ensures pending[0] in multiset(pending) + rest
    ensures multiset(pending) + rest == multiset{pending[0]} + (multiset(pending[1..]) + rest)
  {
    assert pending == [pending[0]] + pending[1..];
  }

  /** The heap and the new pending references right after `o` is deleted. */
  function Delete(h: Heap, o: Obj): (Heap, seq<Obj>)
    requires o in h.counts && o in h.arity
  {
    var (rest, targets) := TakeMembers(h.slots, o, h.arity[o]);
    (h.(counts := h.counts - {o}, arity := h.arity - {o}, slots := rest, deleted := h.deleted + [o]), targets)
  }

  lemma NoPointers(slots: Slots, o: Obj, l: Loc)
    requires |Pointers(slots, o)| == 0
    ensures !(l in slots && slots[l] == Some(o))
  {
    assert l in slots && slots[l] == Some(o) ==> l in Pointers(slots, o);
  }

  lemma DeleteKeepsWellFormed(h: Heap, o: Obj)
    requires WellFormed(h) && o in h.counts && |Pointers(h.slots, o)| == 0
    ensures WellFormed(Delete(h, o).0)
  {
    var h' := Delete(h, o).0;
    TakeMembersCounts(h.slots, o, h.arity[o], o);
    forall l | l in h'.slots && h'.slots[l].Some?
      ensures h'.slots[l].value in h'.counts
    {
      NoPointers(h.slots, o, l);
    }
    assert h'.counts.Keys == h.counts.Keys - {o} == h'.arity.Keys;
    assert forall x :: x in h'.deleted <==> x in h.deleted || x == o;
  }

  lemma DeletionKeepsInv(h: Heap, pending: seq<Obj>, rest: multiset<Obj>)
    requires pending != [] && Inv(h, multiset(pending) + rest)
    requires pending[0] in h.counts && pending[0] in h.arity && h.counts[pending[0]] == 1
    ensures var (h', pending') := ReleaseStep(h, pending);
            Inv(h', multiset(pending') + rest) && h'.counts.Keys < h.counts.Keys
  {
    var o := pending[0];
    FirstPending(pending, rest);
    var others := multiset(pending[1..]) + rest;
    DeleteKeepsInv(h, others, o);
    hide Inv, WellFormed, Counted, InHand, Delete;
    TargetsFirst(Delete(h, o).1, pending, rest);
  }

  lemma TargetsFirst(targets: seq<Obj>, pending: seq<Obj>, rest: multiset<Obj>)
    requires pending != []
    ensures multiset(targets + pending[1..]) + rest == multiset(targets) + (multiset(pending[1..]) + rest)
  {
  }

  lemma DeleteKeepsInv(h: Heap, others: multiset<Obj>, o: Obj)
    requires Inv(h, multiset{o} + others)
    requires o in h.counts && o in h.arity && h.counts[o] == 1
    ensures var (h', targets) := Delete(h, o);
            Inv(h', multiset(targets) + others) && h'.counts.Keys < h.counts.Keys
  {
    var (h', targets) := Delete(h, o);
    assert |Pointers(h.slots, o)| == 0 by {
      assert (multiset{o} + others)[o] >= 1;
    }
    DeleteKeepsWellFormed(h, o);
    DeletionKeepsCounted(h, others, o);
    assert o in h.counts.Keys && h'.counts.Keys == h.counts.Keys - {o};
    hide WellFormed, Counted, Delete;
    forall x | x in multiset(targets) + others
      ensures x in h'.counts && x in h'.adopted
    {
      PendingIsLive(h, others, o, x);
    }
  }

  lemma DeletionKeepsCounted(h: Heap, others: multiset<Obj>, o: Obj)
    requires Inv(h, multiset{o} + others)
    requires o in h.counts && o in h.arity && h.counts[o] == 1
    ensures Counted(Delete(h, o).0, multiset(Delete(h, o).1) + others)
  {
    hide WellFormed, InHand;
    var (h', targets) := Delete(h, o);
    forall x | x in h'.counts
      ensures h'.counts[x] == |Pointers(h'.slots, x)| + (multiset(targets) + others)[x]
    {
      TakeMembersCounts(h.slots, o, h.arity[o], x);
    }
  }

  lemma PendingIsLive(h: Heap, others: multiset<Obj>, o: Obj, x: Obj)
    requires Inv(h, multiset{o} + others)
    requires o in h.counts && o in h.arity && h.counts[o] == 1
    requires x in Delete(h, o).1 || x in others
    ensures x in h.counts && x in h.adopted && x != o
  {
    TakeMembersCounts(h.slots, o, h.arity[o], x);
    if x in others {
      assert x in multiset{o} + others;
    } else {
      var l :| l in h.slots && h.slots[l] == Some(x);
      NoPointers(h.slots, o, l);
    }
  }

  /** `Release` of every reference in `pending`, deletions cascading, while the references
      in `rest` stay in hand. */
  ghost function ReleaseAll(h: Heap, pending: seq<Obj>, rest: multiset<Obj>): (h': Heap)
    requires Inv(h, multiset(pending) + rest)
    ensures Inv(h', rest)
    decreases h.counts.Keys, |pending|
  {
    if pending == [] then
      assert multiset(pending) + rest == rest;
      h
    else
      ReleaseStepKeepsInv(h, pending, rest);
      var (h1, pending1) := ReleaseStep(h, pending);
      ReleaseAll(h1, pending1, rest)
  }

  /** Releasing depth first: one reference with its whole cascade, then the others. */
  lemma {:induction false} ReleaseInTurn(h: Heap, a: seq<Obj>, b: seq<Obj>, rest: multiset<Obj>)
    requires Inv(h, multiset(a + b) + rest)
    ensures multiset(a + b) + rest == multiset(a) + (multiset(b) + rest)
    ensures ReleaseAll(h, a + b, rest) == ReleaseAll(ReleaseAll(h, a, multiset(b) + rest), b, rest)
    decreases h.counts.Keys, |a|
  {
    hide Inv, WellFormed, ReleaseStep;
    assert multiset(a + b) + rest == multiset(a) + (multiset(b) + rest);
    if a == [] {
      assert a + b == b;
    } else {
      ReleaseStepKeepsInv(h, a + b, rest);
      ReleaseStepKeepsInv(h, a, multiset(b) + rest);
      StepOnConcat(h, a, b);
      var (h1, a1) := ReleaseStep(h, a);
      ReleaseInTurn(h1, a1, b, rest);
    }
  }

  lemma StepOnConcat(h: Heap, a: seq<Obj>, b: seq<Obj>)
    requires a != [] && a[0] in h.counts && a[0] in h.arity
    ensures ReleaseStep(h, a + b) == (ReleaseStep(h, a).0, ReleaseStep(h, a).1 + b)
  {
    assert (a + b)[1..] == a[1..] + b;
    var targets := Delete(h, a[0]).1;
    assert targets + (a[1..] + b) == (targets + a[1..]) + b;
  }

  // ------------------------------------------------- exactly what is deleted

  /** A set of live objects each of which is pointed to from a variable or from a member
      of the set (or was never adopted by a pointer). */
  ghost predicate Supported(h: Heap, keep: set<Obj>) {
    forall o :: o in keep ==>
      && o in h.counts
      && (o in h.adopted ==> exists l :: SupportedBy(h.slots, keep, o, l))
  }

  ghost predicate SupportedBy(slots: Slots, keep: set<Obj>, o: Obj, l: Loc) {
    l in slots && slots[l] == Some(o) && (l.Member? ==> l.owner in keep)
  }

  lemma SupportedHasPointer(h: Heap, keep: set<Obj>, o: Obj)
    requires Supported(h, keep) && o in h.adopted
    ensures o in keep ==> |Pointers(h.slots, o)| >= 1
  {
    if o in keep {
      var l :| SupportedBy(h.slots, keep, o, l);
      assert l in Pointers(h.slots, o);
    }
  }

  lemma ReleaseStepKeepsSupported(h: Heap, pending: seq<Obj>, rest: multiset<Obj>, keep: set<Obj>)
    requires pending != [] && Inv(h, multiset(pending) + rest) && Supported(h, keep)
    requires pending[0] in h.counts && pending[0] in h.arity
    ensures Supported(ReleaseStep(h, pending).0, keep)
  {
    var o := pending[0];
    FirstPending(pending, rest);
    if h.counts[o] == 1 {
      SupportedHasPointer(h, keep, o);
      TakeMembersCounts(h.slots, o, h.arity[o], o);
      var h' := ReleaseStep(h, pending).0;
      forall k | k in keep && k in h'.adopted
        ensures exists l :: SupportedBy(h'.slots, keep, k, l)
      {
        var l :| SupportedBy(h.slots, keep, k, l);
        assert SupportedBy(h'.slots, keep, k, l);
      }
    }
  }

  lemma {:induction false} SupportedSurvives(h: Heap, pending: seq<Obj>, rest: multiset<Obj>, keep: set<Obj>)
    requires Inv(h, multiset(pending) + rest) && Supported(h, keep)
    ensures Supported(ReleaseAll(h, pending, rest), keep)
    decreases h.counts.Keys, |pending|
  {
    if pending != [] {
      ReleaseStepKeepsInv(h, pending, rest);
      ReleaseStepKeepsSupported(h, pending, rest, keep);
      var (h1, pending1) := ReleaseStep(h, pending);
      SupportedSurvives(h1, pending1, rest, keep);
    }
  }

  /** Releasing touches nothing but counts, dead objects and their members. */
  ghost predicate Shrunk(h: Heap, h': Heap) {
    && h'.counts.Keys <= h.counts.Keys && h'.adopted == h.adopted && h'.next == h.next
    && h.deleted <= h'.deleted
    && (forall o :: o in h'.arity ==> o in h.arity && h'.arity[o] == h.arity[o])
    && (forall l :: l in h'.slots <==> l in h.slots && (l.Member? ==> l.owner in h'.counts))
    && (forall l :: l in h'.slots ==> h'.slots[l] == h.slots[l])
  }

  lemma {:induction false} ReleaseAllShrinks(h: Heap, pending: seq<Obj>, rest: multiset<Obj>)
    requires Inv(h, multiset(pending) + rest)
    ensures Shrunk(h, ReleaseAll(h, pending, rest))
    decreases h.counts.Keys, |pending|
  {
    if pending != [] {
      ReleaseStepKeepsInv(h, pending, rest);
      var (h1, pending1) := ReleaseStep(h, pending);
      ReleaseStepShrinks(h, pending);
      ReleaseAllShrinks(h1, pending1, rest);
      ShrunkTransitive(h, h1, ReleaseAll(h1, pending1, rest));
    }
  }

  lemma ReleaseStepShrinks(h: Heap, pending: seq<Obj>)
    requires WellFormed(h) && pending != [] && pending[0] in h.counts && pending[0] in h.arity
    ensures Shrunk(h, ReleaseStep(h, pending).0)
  {
    TakeMembersCounts(h.slots, pending[0], h.arity[pending[0]], 0);
  }

  lemma ShrunkTransitive(a: Heap, b: Heap, c: Heap)
    requires Shrunk(a, b) && Shrunk(b, c)
    ensures Shrunk(a, c)
  {
  }

  lemma SurvivorsAreSupported(h: Heap, h': Heap)
    requires Inv(h', multiset{}) && Shrunk(h, h')
    ensures Supported(h, h'.counts.Keys)
  {
    forall o | o in h'.counts && o in h.adopted
      ensures exists l :: SupportedBy(h.slots, h'.counts.Keys, o, l)
    {
      assert |Pointers(h'.slots, o)| > 0;
      var l :| l in Pointers(h'.slots, o);
      assert SupportedBy(h.slots, h'.counts.Keys, o, l);
    }
  }

  /** Main result: whatever the order in which they are released, the objects that survive
      are the largest supported set. Everything else is deleted; cycles keep themselves. */
  lemma SurvivorsAreGreatestSupported(h: Heap, pending: seq<Obj>, keep: set<Obj>)
    requires Inv(h, multiset(pending))
    ensures multiset(pending) + multiset{} == multiset(pending)
    ensures var survivors := ReleaseAll(h, pending, multiset{}).counts.Keys;
            && Supported(h, survivors)
            && (Supported(h, keep) ==> keep <= survivors)
  {
    assert multiset(pending) + multiset{} == multiset(pending);
    ReleaseAllShrinks(h, pending, multiset{});
    SurvivorsAreSupported(h, ReleaseAll(h, pending, multiset{}));
    if Supported(h, keep) {
      SupportedSurvives(h, pending, multiset{}, keep);
    }
  }

  // ------------------------------------------------------------ operations

  /** The reference held by a pointer value, if it is not null. */
  function Hand(p: Option<Obj>): seq<Obj> {
    if p.Some? then [p.value] else []
  }

  function At(h: Heap, l: Loc): Option<Obj> {
    if l in h.slots then h.slots[l] else None
  }

  function AddRef(h: Heap, p: Option<Obj>): Heap
    requires p.Some? ==> p.value in h.counts
  {
    if p.None? then h
    else h.(counts := h.counts[p.value := h.counts[p.value] + 1], adopted := h.adopted + {p.value})
  }

  function Store(h: Heap, l: Loc, p: Option<Obj>): Heap {
    h.(slots := h.slots[l := p])
  }

  function Drop(h: Heap, l: Loc): Heap {
    h.(slots := h.slots - {l})
  }

  lemma AddRefKeepsInv(h: Heap, p: Option<Obj>, rest: multiset<Obj>)
    requires Inv(h, rest) && (p.Some? ==> p.value in h.counts)
    ensures Inv(AddRef(h, p), multiset(Hand(p)) + rest)
  {
    if p.None? {
      assert multiset(Hand(p)) + rest == rest;
    }
  }

  /** Exchanging a reference in hand for the one in a slot. */
  lemma StoreKeepsInv(h: Heap, l: Loc, p: Option<Obj>, rest: multiset<Obj>)
    requires Inv(h, multiset(Hand(p)) + rest) && (l in h.slots || l.Var?)
    ensures Inv(Store(h, l, p), multiset(Hand(At(h, l))) + rest)
  {
    var before := multiset(Hand(p)) + rest;
    assert p.Some? ==> p.value in before;
    StoreKeepsWellFormed(h, l, p);
    StoreKeepsCounted(h, l, p, rest);
    hide WellFormed, Counted;
    forall o | o in multiset(Hand(At(h, l))) + rest
      ensures o in h.counts && o in h.adopted
    {
      HandCounts(p, rest, o);
      HandCounts(At(h, l), rest, o);
    }
  }

  lemma StoreKeepsCounted(h: Heap, l: Loc, p: Option<Obj>, rest: multiset<Obj>)
    requires Counted(h, multiset(Hand(p)) + rest)
    ensures Counted(Store(h, l, p), multiset(Hand(At(h, l))) + rest)
  {
    forall o | o in h.counts
      ensures h.counts[o] == |Pointers(h.slots[l := p], o)| + (multiset(Hand(At(h, l))) + rest)[o]
    {
      PointersUpdate(h.slots, l, p, o);
      HandCounts(p, rest, o);
      HandCounts(At(h, l), rest, o);
    }
  }

  lemma HandCounts(p: Option<Obj>, rest: multiset<Obj>, o: Obj)
    ensures (multiset(Hand(p)) + rest)[o] == rest[o] + if p == Some(o) then 1 else 0
  {
  }

  lemma StoreKeepsWellFormed(h: Heap, l: Loc, p: Option<Obj>)
    requires WellFormed(h) && (l in h.slots || l.Var?)
    requires p.Some? ==> p.value in h.counts && p.value in h.adopted
    ensures WellFormed(Store(h, l, p))
    ensures At(h, l).Some? ==> At(h, l).value in h.counts && At(h, l).value in h.adopted
  {
  }

  lemma DropKeepsInv(h: Heap, l: Loc, rest: multiset<Obj>)
    requires Inv(h, rest) && l in h.slots && l.Var?
    ensures Inv(Drop(h, l), multiset(Hand(h.slots[l])) + rest)
  {
    var h' := Drop(h, l);
    var after := multiset(Hand(h.slots[l])) + rest;
    forall o | o in h'.counts
      ensures h'.counts[o] == |Pointers(h'.slots, o)| + after[o]
    {
      PointersRemove(h.slots, l, o);
    }
  }

  /** `Create` is a `new` expression; `Construct` covers the default, raw and copy
      constructors, `AssignRaw` assignment from a raw or a counted pointer. */
  datatype Op =
    | Create(members: nat)
    | Construct(v: nat, p: Option<Obj>)
    | MoveConstruct(v: nat, src: Loc)
    | AssignRaw(dst: Loc, p: Option<Obj>)
    | MoveAssign(dst: Loc, src: Loc)
    | Swap(a: Loc, b: Loc)
    | Destroy(v: nat)

  predicate Enabled(h: Heap, op: Op) {
    match op
    case Create(_) => true
    case Construct(v, p) => Var(v) !in h.slots && (p.Some? ==> p.value in h.counts)
    case MoveConstruct(v, src) => Var(v) !in h.slots && src in h.slots
    case AssignRaw(dst, p) => dst in h.slots && (p.Some? ==> p.value in h.counts)
    case MoveAssign(dst, src) => dst in h.slots && src in h.slots
    case Swap(a, b) => a in h.slots && b in h.slots
    case Destroy(v) => Var(v) in h.slots
  }

  function Allocate(h: Heap, n: nat): Heap {
    h.(counts := h.counts[h.next := 0], arity := h.arity[h.next := n],
       slots := h.slots + (map i: nat | i < n :: Member(h.next, i) := None), next := h.next + 1)
  }

  lemma AllocateKeepsInv(h: Heap, n: nat)
    requires Inv(h, multiset{})
    ensures Inv(Allocate(h, n), multiset{})
  {
    var h' := Allocate(h, n);
    assert h.next !in h.counts && h.next !in h.deleted;
    AllocateKeepsWellFormed(h, n);
    forall o | o in h'.counts
      ensures h'.counts[o] == |Pointers(h'.slots, o)|
    {
      assert forall l :: l in h'.slots && h'.slots[l] == Some(o) ==> l in h.slots;
      assert forall l :: l in h.slots && l.Member? ==> l.owner != h.next;
      assert Pointers(h'.slots, o) == Pointers(h.slots, o);
      if o == h.next {
        assert Pointers(h.slots, o) == {};
      }
    }
  }

  lemma AllocateKeepsWellFormed(h: Heap, n: nat)
    requires WellFormed(h) && h.next !in h.counts && h.next !in h.deleted
    ensures WellFormed(Allocate(h, n))
  {
    var h' := Allocate(h, n);
    forall l | l in h'.slots && l.Member?
      ensures l.owner in h'.arity && l.index < h'.arity[l.owner]
    {
      assert l in h.slots || l.owner == h.next;
    }
  }

  lemma SwapKeepsInv(h: Heap, a: Loc, b: Loc)
    requires Inv(h, multiset{}) && a in h.slots && b in h.slots
    ensures Inv(h.(slots := h.slots[a := h.slots[b]][b := h.slots[a]]), multiset{})
  {
    var h' := h.(slots := h.slots[a := h.slots[b]][b := h.slots[a]]);
    assert WellFormed(h');
    hide WellFormed;
    forall o | o in h'.counts
      ensures h'.counts[o] == |Pointers(h'.slots, o)|
    {
      PointersUpdate(h.slots, a, h.slots[b], o);
      PointersUpdate(h.slots[a := h.slots[b]], b, h.slots[a], o);
    }
  }

  ghost predicate Sound(h: Heap) {
    Inv(h, multiset{})
  }

  lemma NothingElseInHand(p: Option<Obj>)
    ensures multiset(Hand(p)) + multiset{} == multiset(Hand(p))
    ensures multiset(Hand(None)) + multiset{} == multiset{}
  {
  }

  /** The state an operation leaves before the reference it took out of a slot is released. */
  function Detach(h: Heap, op: Op): (r: (Heap, Option<Obj>))
    requires Enabled(h, op)
  {
    match op
    case Create(n) => (Allocate(h, n), None)
    case Construct(v, p) => (Store(AddRef(h, p), Var(v), p), None)
    case MoveConstruct(v, src) => (Store(Store(h, src, None), Var(v), h.slots[src]), None)
    case AssignRaw(dst, p) => (Store(AddRef(h, p), dst, p), h.slots[dst])
    case MoveAssign(dst, src) =>
      var emptied := Store(h, src, None);
      (Store(emptied, dst, h.slots[src]), emptied.slots[dst])
    case Swap(a, b) => (h.(slots := h.slots[a := h.slots[b]][b := h.slots[a]]), None)
    case Destroy(v) => (Drop(h, Var(v)), h.slots[Var(v)])
  }

  lemma DetachKeepsInv(h: Heap, op: Op)
    requires Sound(h) && Enabled(h, op)
    ensures Inv(Detach(h, op).0, multiset(Hand(Detach(h, op).1)) + multiset{})
  {
    NothingElseInHand(Detach(h, op).1);
    hide WellFormed, Counted, InHand;
    match op
    case Create(n) => AllocateKeepsInv(h, n);
    case Construct(v, p) =>
      AddRefKeepsInv(h, p, multiset{});
      StoreKeepsInv(AddRef(h, p), Var(v), p, multiset{});
    case MoveConstruct(v, src) =>
      StoreKeepsInv(h, src, None, multiset{});
      StoreKeepsInv(Store(h, src, None), Var(v), h.slots[src], multiset{});
    case AssignRaw(dst, p) =>
      AddRefKeepsInv(h, p, multiset{});
      StoreKeepsInv(AddRef(h, p), dst, p, multiset{});
    case MoveAssign(dst, src) =>
      StoreKeepsInv(h, src, None, multiset{});
      StoreKeepsInv(Store(h, src, None), dst, h.slots[src], multiset{});
    case Swap(a, b) => SwapKeepsInv(h, a, b);
    case Destroy(v) => DropKeepsInv(h, Var(v), multiset{});
  }

  /** One operation: detach, then release what was taken out, with all its cascade. */
  ghost function Step(h: Heap, op: Op): (h': Heap)
    requires Sound(h) && Enabled(h, op)
    ensures Sound(h')
  {
    DetachKeepsInv(h, op);
    var (detached, old_) := Detach(h, op);
    ReleaseAll(detached, Hand(old_), multiset{})
  }

  /** Main result on deletion: an operation deletes exactly the objects outside the largest
      set that, once the old pointer is out of its slot, still supports itself. */
  lemma StepKeepsGreatestSupported(h: Heap, op: Op, keep: set<Obj>)
    requires Sound(h) && Enabled(h, op)
    ensures Supported(Detach(h, op).0, Step(h, op).counts.Keys)
    ensures Supported(Detach(h, op).0, keep) ==> keep <= Step(h, op).counts.Keys
  {
    DetachKeepsInv(h, op);
    var (detached, old_) := Detach(h, op);
    NothingElseInHand(old_);
    SurvivorsAreGreatestSupported(detached, Hand(old_), keep);
  }

  // What the slots hold after an operation.

  /** The slots left by an operation: those of `slots` whose owner, if they have one, is live,
      each with its value. */
  ghost predicate Surviving(slots: Slots, h': Heap) {
    && (forall l :: l in h'.slots <==> l in slots && (l.Member? ==> l.owner in h'.counts))
    && (forall l :: l in h'.slots ==> h'.slots[l] == slots[l])
  }

  lemma StepShrinks(h: Heap, op: Op)
    requires Sound(h) && Enabled(h, op)
    ensures Surviving(Detach(h, op).0.slots, Step(h, op))
  {
    DetachKeepsInv(h, op);
    hide Inv, Detach;
    ReleaseAllShrinks(Detach(h, op).0, Hand(Detach(h, op).1), multiset{});
  }

  /** Main result on values: an assigned slot holds what was assigned, and no other slot changes. */
  lemma AssignStores(h: Heap, dst: Loc, p: Option<Obj>)
    requires Sound(h) && Enabled(h, AssignRaw(dst, p))
    ensures Surviving(h.slots[dst := p], Step(h, AssignRaw(dst, p)))
  {
    StepShrinks(h, AssignRaw(dst, p));
  }

  /** The destination of a move holds what the source held, and the source holds nothing unless
      it is the destination. */
  lemma MoveAssignStores(h: Heap, dst: Loc, src: Loc)
    requires Sound(h) && Enabled(h, MoveAssign(dst, src))
    ensures Surviving(h.slots[src := None][dst := h.slots[src]], Step(h, MoveAssign(dst, src)))
  {
    StepShrinks(h, MoveAssign(dst, src));
  }

  lemma SwapStores(h: Heap, a: Loc, b: Loc)
    requires Sound(h) && Enabled(h, Swap(a, b))
    ensures var s := Step(h, Swap(a, b)).slots;
            && a in s && b in s && s[a] == h.slots[b] && s[b] == h.slots[a]
            && (forall l :: l in s <==> l in h.slots)
            && (forall l :: l in s && l != a && l != b ==> s[l] == h.slots[l])
  {
  }

  /** A new variable holds what it was constructed from. */
  lemma ConstructStores(h: Heap, v: nat, p: Option<Obj>)
    requires Sound(h) && Enabled(h, Construct(v, p))
    ensures Step(h, Construct(v, p)).slots == h.slots[Var(v) := p]
  {
  }

  lemma MoveConstructStores(h: Heap, v: nat, src: Loc)
    requires Sound(h) && Enabled(h, MoveConstruct(v, src))
    ensures Step(h, MoveConstruct(v, src)).slots == h.slots[src := None][Var(v) := h.slots[src]]
  {
  }

  lemma DestroyStores(h: Heap, v: nat)
    requires Sound(h) && Enabled(h, Destroy(v))
    ensures Surviving(h.slots - {Var(v)}, Step(h, Destroy(v)))
  {
    StepShrinks(h, Destroy(v));
  }

  /** A new object has no references yet, and its members point nowhere. */
  lemma CreateStores(h: Heap, n: nat)
    requires Sound(h)
    ensures var h' := Step(h, Create(n));
            && h.next !in h.counts && h'.counts == h.counts[h.next := 0] && h'.arity == h.arity[h.next := n] && h'.next == h.next + 1
            && (forall l :: l in h'.slots <==> l in h.slots || (l.Member? && l.owner == h.next && l.index < n))
            && (forall l :: l in h'.slots ==> h'.slots[l] == if l in h.slots then h.slots[l] else None)
  {
  }

  /** A run of operations, each enabled when its turn comes. */
  ghost predicate EnabledRun(h: Heap, ops: seq<Op>)
    requires Sound(h)
    decreases |ops|
  {
    ops == [] || (Enabled(h, ops[0]) && EnabledRun(Step(h, ops[0]), ops[1..]))
  }

  ghost function Run(h: Heap, ops: seq<Op>): (h': Heap)
    requires Sound(h) && EnabledRun(h, ops)
    ensures Sound(h')
    decreases |ops|
  {
    if ops == [] then h else Run(Step(h, ops[0]), ops[1..])
  }

  function EmptyHeap(): Heap { Heap(map[], map[], map[], {}, [], 0) }

  lemma EmptyHeapIsSound()
    ensures Sound(EmptyHeap())
  {
  }

  /** Main result: after any run, every live object's count is the number of pointers to
      it, no pointer targets a deleted object, no object is deleted twice, and an object
      that ever had a pointer is live exactly while it has one. */
  lemma RunCountsPointers(ops: seq<Op>, o: Obj, l: Loc)
    requires Sound(EmptyHeap()) && EnabledRun(EmptyHeap(), ops)
    ensures var h := Run(EmptyHeap(), ops);
            && (o in h.counts ==> h.counts[o] == |Pointers(h.slots, o)|)
            && (l in h.slots && h.slots[l].Some? ==> h.slots[l].value in h.counts && h.slots[l].value !in h.deleted)
            && (forall i, j :: 0 <= i < j < |h.deleted| ==> h.deleted[i] != h.deleted[j])
            && (o < h.next <==> o in h.counts || o in h.deleted)
            && (o in h.adopted ==> (o in h.counts <==> Pointers(h.slots, o) != {}))
  {
    var h := Run(EmptyHeap(), ops);
    assert Inv(h, multiset{});
    if o in h.adopted && Pointers(h.slots, o) != {} {
      var m :| m in Pointers(h.slots, o);
      assert h.slots[m].value == o;
    }
  }

  lemma StepDeletes(h: Heap, op: Op)
    requires Sound(h) && Enabled(h, op)
    ensures h.deleted <= Step(h, op).deleted
  {
    DetachKeepsInv(h, op);
    var (detached, old_) := Detach(h, op);
    ReleaseAllShrinks(detached, Hand(old_), multiset{});
  }

  /** Deletion is final. */
  lemma {:induction false} DeletedForever(h: Heap, ops: seq<Op>)
    requires Sound(h) && EnabledRun(h, ops)
    ensures h.deleted <= Run(h, ops).deleted
    decreases |ops|
  {
    if ops != [] {
      StepDeletes(h, ops[0]);
      DeletedForever(Step(h, ops[0]), ops[1..]);
    }
  }

  /** Releasing a reference that is not the last only counts down. */
  lemma ReleaseNotLast(h: Heap, o: Obj)
    requires Inv(h, multiset([o]) + multiset{}) && o in h.counts && h.counts[o] > 1
    ensures ReleaseAll(h, [o], multiset{}) == h.(counts := h.counts[o := h.counts[o] - 1])
  {
    ReleaseStepKeepsInv(h, [o], multiset{});
    var h1 := h.(counts := h.counts[o := h.counts[o] - 1]);
    assert [o][1..] == [];
    assert ReleaseStep(h, [o]) == (h1, []);
    assert ReleaseAll(h1, [], multiset{}) == h1;
  }

  /** Self-assignment, from the pointer itself or from the raw pointer it holds, even of
      the last reference, changes nothing. */
  lemma SelfAssignment(h: Heap, l: Loc)
    requires Sound(h) && l in h.slots
    ensures Enabled(h, AssignRaw(l, h.slots[l])) && Step(h, AssignRaw(l, h.slots[l])) == h
  {
    var p := h.slots[l];
    var op := AssignRaw(l, p);
    DetachKeepsInv(h, op);
    assert h.slots[l := p] == h.slots;
    if p.Some? {
      var h1 := AddRef(h, p);
      assert Store(h1, l, p) == h1;
      PointedToOnce(h, l, p.value);
      ReleaseNotLast(h1, p.value);
      assert h1.counts[p.value := h.counts[p.value]] == h.counts;
      assert h1.adopted == h.adopted;
    }
  }

  /** Moving a pointer onto itself, and swapping it with itself, change nothing. */
  lemma SelfMoveAndSwap(h: Heap, l: Loc)
    requires Sound(h) && l in h.slots
    ensures Step(h, MoveAssign(l, l)) == h && Step(h, Swap(l, l)) == h
  {
    assert h.slots[l := None][l := h.slots[l]] == h.slots;
    assert h.slots[l := h.slots[l]][l := h.slots[l]] == h.slots;
  }

  /** Destroying a fresh copy undoes the copy. */
  lemma CopyThenDestroy(h: Heap, v: nat, src: Loc)
    requires Sound(h) && Var(v) !in h.slots && src in h.slots
    ensures Enabled(h, Construct(v, h.slots[src]))
    ensures Enabled(Step(h, Construct(v, h.slots[src])), Destroy(v))
    ensures Step(Step(h, Construct(v, h.slots[src])), Destroy(v)) == h
  {
    var p := h.slots[src];
    var h1 := Store(AddRef(h, p), Var(v), p);
    ConstructOnly(h, v, p);
    assert h1.slots - {Var(v)} == h.slots;
    if p.Some? {
      PointedToOnce(h, src, p.value);
      assert AddRef(h, p).adopted == h.adopted;
    }
    DestroyCopied(h, h1, v, p);
  }

  lemma DestroyCopied(h: Heap, h1: Heap, v: nat, p: Option<Obj>)
    requires Sound(h) && Sound(h1) && Var(v) in h1.slots && h1.slots[Var(v)] == p
    requires p.Some? ==> p.value in h.counts && h.counts[p.value] >= 1 && p.value in h.adopted
    requires p.Some? ==> h1.counts == h.counts[p.value := h.counts[p.value] + 1]
    requires h1.(counts := h.counts, slots := h1.slots - {Var(v)}) == h
    requires p.None? ==> h1.counts == h.counts
    ensures Step(h1, Destroy(v)) == h
  {
    DetachKeepsInv(h1, Destroy(v));
    hide WellFormed, Counted, InHand;
    if p.Some? {
      var h2 := Drop(h1, Var(v));
      ReleaseNotLast(h2, p.value);
      assert h2.counts[p.value := h.counts[p.value]] == h.counts;
    }
  }

  lemma ConstructOnly(h: Heap, v: nat, p: Option<Obj>)
    requires Sound(h) && Enabled(h, Construct(v, p))
    ensures Step(h, Construct(v, p)) == Store(AddRef(h, p), Var(v), p)
  {
    DetachKeepsInv(h, Construct(v, p));
  }

  lemma PointedToOnce(h: Heap, l: Loc, o: Obj)
    requires Sound(h) && l in h.slots && h.slots[l] == Some(o)
    ensures o in h.counts && h.counts[o] >= 1 && o in h.adopted
  {
    assert l in Pointers(h.slots, o);
  }

  /** Main result on leaks: if no variable points anywhere and member pointers strictly
      descend in some rank, every object that was ever adopted has been deleted. */
  lemma NoCyclesNoLeaks(h: Heap, rank: Obj -> nat)
    requires Sound(h)
    requires forall l :: l in h.slots && l.Var? ==> h.slots[l].None?
    requires forall l :: l in h.slots && l.Member? && h.slots[l].Some? ==> rank(h.slots[l].value) < rank(l.owner)
    requires forall o :: o in h.counts ==> o in h.adopted
    ensures h.counts == map[]
  {
    hide WellFormed, Counted, InHand;
    forall o | o in h.counts.Keys
      ensures exists owner :: owner in h.counts.Keys && rank(o) < rank(owner)
    {
      var l := PointerTo(h, o);
      assert l.owner in h.counts.Keys && rank(o) < rank(l.owner);
    }
    assert h.counts.Keys == {} by {
      NoHighest(h.counts.Keys, rank);
    }
  }

  lemma PointerTo(h: Heap, o: Obj) returns (l: Loc)
    requires Sound(h) && o in h.counts && o in h.adopted
    ensures l in h.slots && h.slots[l] == Some(o)
    ensures l.Member? ==> l.owner in h.counts
  {
    assert |Pointers(h.slots, o)| > 0;
    l :| l in Pointers(h.slots, o);
  }

  lemma NoHighest(s: set<Obj>, rank: Obj -> nat)
    requires forall o :: o in s ==> exists other :: other in s && rank(o) < rank(other)
    ensures s == {}
  {
    if s != {} {
      var top := Highest(s, rank);
      assert false;
    }
  }

  lemma {:induction false} Highest(s: set<Obj>, rank: Obj -> nat) returns (top: Obj)
    requires s != {}
    ensures top in s && forall o :: o in s ==> rank(o) <= rank(top)
  {
    top :| top in s;
    if s != {top} {
      var other := Highest(s - {top}, rank);
      if rank(other) > rank(top) {
        top := other;
      }
    }
  }

  // -------------------------------------------------- the code on a mutable heap

  /** All intrusively counted objects and all `scoped_ref_ptr`s of a program. */
  class PointerHeap {
    var counts: map<Obj, int>          // ref_count_ of each live object
    var arity: map<Obj, nat>
    var slots: Slots                   // ptr_ of each scoped_ref_ptr
    var next: Obj
    ghost var adopted: set<Obj>
    ghost var deleted: seq<Obj>

    ghost function Abstract(): Heap
      reads this
    {
      Heap(counts, arity, slots, adopted, deleted, next)
    }

    constructor ()
      ensures Abstract() == EmptyHeap() && Sound(Abstract())
    {
      counts, arity, slots, next, adopted, deleted := map[], map[], map[], 0, {}, [];
      EmptyHeapIsSound();
    }

    method AddReference(p: Option<Obj>)
      requires p.Some? ==> p.value in counts
      modifies this
      ensures Abstract() == AddRef(old(Abstract()), p)
    {
      if p.Some? {
        counts := counts[p.value := counts[p.value] + 1];
        adopted := adopted + {p.value};
      }
    }

    /** `Release`: counts down and deletes at zero, which releases what the members held,
        while other references `rest` are still in the caller's hands. */
    method Release(o: Obj, ghost rest: multiset<Obj>)
      requires Inv(Abstract(), multiset([o]) + rest)
      modifies this
      ensures Abstract() == ReleaseAll(old(Abstract()), [o], rest)
      decreases counts.Keys, 0
    {
      ghost var h := Abstract();
      ReleaseStepKeepsInv(h, [o], rest);
      assert [o][1..] == [];
      var n := counts[o] - 1;
      if n != 0 {
        counts := counts[o := n];
        assert ReleaseStep(h, [o]) == (Abstract(), []);
        return;
      }
      var targets := DeleteObject(o);
      assert targets + [o][1..] == targets;
      ReleaseTargets(targets, rest);
    }

    /** The members released in the order in which they were destroyed. */
    method ReleaseTargets(targets: seq<Obj>, ghost rest: multiset<Obj>)
      requires Inv(Abstract(), multiset(targets) + rest)
      modifies this
      ensures Abstract() == ReleaseAll(old(Abstract()), targets, rest)
      decreases counts.Keys, |targets| + 1
    {
      hide WellFormed, Counted, InHand, ReleaseStep, Pointers;
      if targets != [] {
        ghost var h := Abstract();
        assert targets == [targets[0]] + targets[1..];
        ReleaseInTurn(h, [targets[0]], targets[1..], rest);
        ReleaseAllShrinks(h, [targets[0]], multiset(targets[1..]) + rest);
        Release(targets[0], multiset(targets[1..]) + rest);
        ReleaseTargets(targets[1..], rest);
      } else {
        assert multiset(targets) + rest == rest;
      }
    }

    /** `delete`: destroys the members, last first, and forgets the object. */
    method DeleteObject(o: Obj) returns (targets: seq<Obj>)
      requires o in counts && o in arity
      modifies this
      ensures (Abstract(), targets) == Delete(old(Abstract()), o)
    {
      var n := arity[o];
      targets := [];
      ghost var start, total := slots, n;
      while n > 0
        invariant TakeMembers(start, o, total).0 == TakeMembers(slots, o, n).0
        invariant TakeMembers(start, o, total).1 == targets + TakeMembers(slots, o, n).1
        invariant counts == old(counts) && arity == old(arity) && next == old(next)
        invariant adopted == old(adopted) && deleted == old(deleted)
      {
        var l := Member(o, n - 1);
        if l in slots && slots[l].Some? {
          targets := targets + [slots[l].value];
        }
        slots := slots - {l};
        n := n - 1;
      }
      assert targets + [] == targets;
      counts, arity := counts - {o}, arity - {o};
      deleted := deleted + [o];
    }

    /** Releases the reference an operation took out of a slot. */
    method ReleaseOld(p: Option<Obj>)
      requires Inv(Abstract(), multiset(Hand(p)) + multiset{})
      modifies this
      ensures Abstract() == ReleaseAll(old(Abstract()), Hand(p), multiset{})
    {
      if p.Some? {
        Release(p.value, multiset{});
      }
    }

    method CreateObject(members: nat) returns (o: Obj)
      requires Sound(Abstract())
      modifies this
      ensures o == old(next) && Abstract() == Step(old(Abstract()), Create(members))
    {
      DetachKeepsInv(Abstract(), Create(members));
      o := next;
      counts, arity := counts[o := 0], arity[o := members];
      slots := slots + (map i: nat | i < members :: Member(o, i) := None);
      next := next + 1;
    }

    method ConstructFrom(v: nat, p: Option<Obj>)
      requires Sound(Abstract()) && Enabled(Abstract(), Construct(v, p))
      modifies this
      ensures Abstract() == Step(old(Abstract()), Construct(v, p))
      ensures slots == old(slots)[Var(v) := p]
    {
      DetachKeepsInv(Abstract(), Construct(v, p));
      ConstructStores(Abstract(), v, p);
      AddReference(p);
      slots := slots[Var(v) := p];
    }

    method MoveConstructFrom(v: nat, src: Loc)
      requires Sound(Abstract()) && Enabled(Abstract(), MoveConstruct(v, src))
      modifies this
      ensures Abstract() == Step(old(Abstract()), MoveConstruct(v, src))
      ensures slots == old(slots)[src := None][Var(v) := old(slots[src])]
    {
      DetachKeepsInv(Abstract(), MoveConstruct(v, src));
      MoveConstructStores(Abstract(), v, src);
      var p := slots[src];
      slots := slots[src := None][Var(v) := p];
    }

    /** References are added before the old one is released, and the slot is updated
        first, so that a cascade may delete the object the slot is a member of. */
    method Assign(dst: Loc, p: Option<Obj>)
      requires Sound(Abstract()) && Enabled(Abstract(), AssignRaw(dst, p))
      modifies this
      ensures Abstract() == Step(old(Abstract()), AssignRaw(dst, p))
      ensures Surviving(old(slots)[dst := p], Abstract())
    {
      DetachKeepsInv(Abstract(), AssignRaw(dst, p));
      AssignStores(Abstract(), dst, p);
      AddReference(p);
      var oldPtr := slots[dst];
      slots := slots[dst := p];
      ReleaseOld(oldPtr);
    }

    method MoveAssignFrom(dst: Loc, src: Loc)
      requires Sound(Abstract()) && Enabled(Abstract(), MoveAssign(dst, src))
      modifies this
      ensures Abstract() == Step(old(Abstract()), MoveAssign(dst, src))
      ensures Surviving(old(slots)[src := None][dst := old(slots[src])], Abstract())
    {
      DetachKeepsInv(Abstract(), MoveAssign(dst, src));
      MoveAssignStores(Abstract(), dst, src);
      var temp := slots[src];
      slots := slots[src := None];
      var p := temp;
      temp := slots[dst];
      slots := slots[dst := p];
      ReleaseOld(temp);
    }

    method SwapWith(a: Loc, b: Loc)
      requires Sound(Abstract()) && Enabled(Abstract(), Swap(a, b))
      modifies this
      ensures Abstract() == Step(old(Abstract()), Swap(a, b))
      ensures slots == old(slots)[a := old(slots[b])][b := old(slots[a])]
    {
      DetachKeepsInv(Abstract(), Swap(a, b));
      SwapStores(Abstract(), a, b);
      var p := slots[a];
      slots := slots[a := slots[b]];
      slots := slots[b := p];
    }

    method DestroyVariable(v: nat)
      requires Sound(Abstract()) && Enabled(Abstract(), Destroy(v))
      modifies this
      ensures Abstract() == Step(old(Abstract()), Destroy(v))
      ensures Surviving(old(slots) - {Var(v)}, Abstract())
    {
      DetachKeepsInv(Abstract(), Destroy(v));
      DestroyStores(Abstract(), v);
      var p := slots[Var(v)];
      slots := slots - {Var(v)};
      ReleaseOld(p);
    }
  }
}
