/**
  Who destroys a frame: the owning, move-only return objects.

  A heap frame is owned by the object that holds its handle — `task`
  (src/task.h), the heap `unified_generator` (src/unified_generator.h) and
  the older `generator` (src/generator.h). An inline frame is owned by the
  `InlineHandle` that holds it by value (src/inline_handle.h), which marks a
  moved-from handle invalid instead of nulling a pointer. The
  `stackful_coroutine_handle` of src/util/coroutine_handle.h never destroys
  its frame.

  Every owner is abstracted to the frame it is responsible for
  (`Option<nat>`); the owners' operations are shown to be the abstract ones,
  and the abstract ones are shown to destroy every created frame exactly
  once, whatever the sequence of moves.
 */
module Ownership {
  import opened Wrappers
  import opened Handles
  import opened Storage

  // ----- The abstract owner -----

  /** Moving out: the new owner takes the frame, the source holds none. */
  function AbsMoveConstruct(src: Option<nat>): (r: (Option<nat>, Option<nat>))
    ensures r.0 == src && r.1 == None
  {
    (src, None)
  }

  /** What destroying an owner destroys. */
  function AbsDestruct(o: Option<nat>): (log: seq<nat>)
    ensures o.None? ==> log == []
    ensures o.Some? ==> log == [o.value]
  {
    if o.Some? then [o.value] else []
  }

  /** Move assignment between two distinct owners: the target's frame is
      destroyed first, then the target takes the source's frame. */
  function AbsMoveAssign(dst: Option<nat>, src: Option<nat>): (r: (Option<nat>, Option<nat>, seq<nat>))
    ensures r.0 == src && r.1 == None && r.2 == AbsDestruct(dst)
  {
    (src, None, AbsDestruct(dst))
  }

  // ----- Heap owners: task, unified_generator (heap), generator -----

  /** An owner of a heap frame: its handle is null or points at a frame. */
  datatype HeapOwner = HeapOwner(h: Handle)

  predicate HeapOwnerValid(o: HeapOwner)
  {
    !o.h.Noop?
  }

  function HeapHeld(o: HeapOwner): Option<nat>
  {
    if o.h.Ptr? then Some(o.h.addr) else None
  }

  /** The move constructor: take the handle, null the source. */
  function HeapMoveConstruct(src: HeapOwner): (r: (HeapOwner, HeapOwner))
    ensures r.0.h == src.h && !IsTrue(r.1.h)
  {
    (src, HeapOwner(AssignNull(src.h)))
  }

  /** Move assignment from another object: destroy the previous frame if the
      handle is non-null, take the source's handle, null the source. The
      third component lists the frames destroyed. */
  function HeapMoveAssign(dst: HeapOwner, src: HeapOwner): (r: (HeapOwner, HeapOwner, seq<nat>))
    requires HeapOwnerValid(dst)
    ensures r.0.h == src.h && !IsTrue(r.1.h)
    ensures |r.2| == (if IsTrue(dst.h) then 1 else 0)
  {
    (src, HeapOwner(Null), if IsTrue(dst.h) then [dst.h.addr] else [])
  }

  /** The destructor: destroy the frame iff the handle is non-null. */
  function HeapDestruct(o: HeapOwner): (log: seq<nat>)
    requires HeapOwnerValid(o)
    ensures |log| == (if IsTrue(o.h) then 1 else 0)
  {
    if IsTrue(o.h) then [o.h.addr] else []
  }

  /** `generator::operator=(generator other)`: the argument is move
      constructed from the source, swapped with the target, and destroyed
      at the end of the call, taking the target's old frame with it. */
  function LegacySwapAssign(dst: HeapOwner, src: HeapOwner): (r: (HeapOwner, HeapOwner, seq<nat>))
    requires HeapOwnerValid(dst)
  {
    var (other, src') := HeapMoveConstruct(src);
    var (dst', other') := (other, dst);
    (dst', src', HeapDestruct(other'))
  }

  /** The heap owners perform the abstract operations, and the older
      generator's assignment by swap has exactly the effect of the move
      assignment of `task` and `unified_generator`. */
  lemma HeapOwnersRefine(dst: HeapOwner, src: HeapOwner)
    requires HeapOwnerValid(dst) && HeapOwnerValid(src)
    ensures var (d, s) := HeapMoveConstruct(src); (HeapHeld(d), HeapHeld(s)) == AbsMoveConstruct(HeapHeld(src))
    ensures var (d, s, l) := HeapMoveAssign(dst, src); (HeapHeld(d), HeapHeld(s), l) == AbsMoveAssign(HeapHeld(dst), HeapHeld(src))
    ensures HeapDestruct(dst) == AbsDestruct(HeapHeld(dst))
    ensures LegacySwapAssign(dst, src) == HeapMoveAssign(dst, src)
  {
  }

  // ----- InlineHandle -----

  /** An `InlineHandle`: the frame it holds by value, and `m_valid`. */
  datatype InlineOwner = InlineOwner(frame: nat, valid: bool)

  function InlineHeld(o: InlineOwner): Option<nat>
  {
    if o.valid then Some(o.frame) else None
  }

  /** The constructor from a frame: valid. */
  function NewInlineOwner(frame: nat): (o: InlineOwner)
    ensures InlineIsTrue(o) && InlineHeld(o) == Some(frame)
  {
    InlineOwner(frame, true)
  }

  /** `explicit operator bool`. */
  predicate InlineIsTrue(o: InlineOwner)
  {
    o.valid
  }

  /** The move constructor: the frame and the validity move, the source
      becomes invalid. */
  function InlineMoveConstruct(src: InlineOwner): (r: (InlineOwner, InlineOwner))
    ensures r.0 == src && !InlineIsTrue(r.1)
  {
    (src, src.(valid := false))
  }

  /** Move assignment from another object: destroy the target's frame if it
      is valid, then take the source's frame and validity, and invalidate
      the source. */
  function InlineMoveAssign(dst: InlineOwner, src: InlineOwner): (r: (InlineOwner, InlineOwner, seq<nat>))
    ensures r.0 == src && !InlineIsTrue(r.1)
    ensures |r.2| == (if InlineIsTrue(dst) then 1 else 0)
  {
    (src, src.(valid := false), if dst.valid then [dst.frame] else [])
  }

  /** The destructor: destroy the frame iff valid. */
  function InlineDestruct(o: InlineOwner): (log: seq<nat>)
    ensures |log| == (if InlineIsTrue(o) then 1 else 0)
  {
    if o.valid then [o.frame] else []
  }

  /** The inline handle performs the same abstract operations as the heap
      owners: `m_valid` plays the part of a non-null pointer. */
  lemma InlineOwnersRefine(dst: InlineOwner, src: InlineOwner)
    ensures var (d, s) := InlineMoveConstruct(src); (InlineHeld(d), InlineHeld(s)) == AbsMoveConstruct(InlineHeld(src))
    ensures var (d, s, l) := InlineMoveAssign(dst, src); (InlineHeld(d), InlineHeld(s), l) == AbsMoveAssign(InlineHeld(dst), InlineHeld(src))
    ensures InlineDestruct(dst) == AbsDestruct(InlineHeld(dst))
  {
  }

  /** `stackful_coroutine_handle`: always true, and destroying the handle
      object destroys no frame. */
  function StackfulIsTrue(frame: nat): (b: bool)
    ensures b
  {
    true
  }

  function StackfulDestruct(frame: nat): (log: seq<nat>)
    ensures log == []
  {
    []
  }

  // ----- Exactly-once destruction -----

  /** Program-level operations on a collection of owners, by position. */
  datatype Op =
    | Create(id: nat)                 // a ramp hands a new frame to a new owner
    | MoveNew(src: nat)               // a new owner is move constructed from `src`
    | MoveAssign(src: nat, dst: nat)  // `owners[dst] = std::move(owners[src])`
    | Destruct(i: nat)                // `owners[i]` goes out of scope

  /** The owners, the frames destroyed so far in order, and every frame
      ever created. */
  datatype World = World(owners: seq<Option<nat>>, log: seq<nat>, created: set<nat>)

  function HeldSet(owners: seq<Option<nat>>): set<nat>
  {
    set i | 0 <= i < |owners| && owners[i].Some? :: owners[i].value
  }

  /** No frame has two owners. */
  predicate UniqueHolders(owners: seq<Option<nat>>)
  {
    forall i, j | 0 <= i < j < |owners| && owners[i].Some? && owners[j].Some? :: owners[i].value != owners[j].value
  }

  /** Every created frame is either held by exactly one owner or has been
      destroyed exactly once, and not both. */
  predicate Accounted(w: World)
  {
    && UniqueHolders(w.owners)
    && Distinct(w.log)
    && HeldSet(w.owners) !! Elems(w.log)
    && w.created == HeldSet(w.owners) + Elems(w.log)
  }

  /** One operation. An operation naming a position that does not exist, or
      creating a frame that already exists, changes nothing; a
      self-assignment changes nothing, as the `this != &other` checks
      ensure. */
  function Apply(w: World, op: Op): World
  {
    match op
    case Create(id) =>
      if id in w.created then w else World(w.owners + [Some(id)], w.log, w.created + {id})
    case MoveNew(src) =>
      if src >= |w.owners| then w
      else
        var (d, s) := AbsMoveConstruct(w.owners[src]);
        World(w.owners[src := s] + [d], w.log, w.created)
    case MoveAssign(src, dst) =>
      if src >= |w.owners| || dst >= |w.owners| || src == dst then w
      else
        var (d, s, l) := AbsMoveAssign(w.owners[dst], w.owners[src]);
        World(w.owners[dst := d][src := s], w.log + l, w.created)
    case Destruct(i) =>
      if i >= |w.owners| then w
      else World(w.owners[i := None], w.log + AbsDestruct(w.owners[i]), w.created)
  }

  function Run(w: World, ops: seq<Op>): World
    decreases |ops|
  {
    if |ops| == 0 then w else Run(Apply(w, ops[0]), ops[1..])
  }

  /** Every owner goes out of scope, first to last. */
  function DestructAll(w: World, i: nat): (r: World)
    ensures r.created == w.created
    decreases |w.owners| - i
  {
    if i >= |w.owners| then w else DestructAll(Apply(w, Destruct(i)), i + 1)
  }

  /** Removing the frame of one owner and giving it another value. */
  lemma HeldSetUpdate(owners: seq<Option<nat>>, i: nat, v: Option<nat>)
    requires i < |owners| && UniqueHolders(owners)
    ensures HeldSet(owners[i := v]) == HeldSet(owners) - AbsSet(owners[i]) + AbsSet(v)
  {
    var lhs, rhs := HeldSet(owners[i := v]), HeldSet(owners) - AbsSet(owners[i]) + AbsSet(v);
    forall x | x in lhs ensures x in rhs {
      var k :| 0 <= k < |owners| && owners[i := v][k].Some? && owners[i := v][k].value == x;
      if k != i {
        assert owners[k].Some? && owners[k].value == x;
      }
    }
    forall x | x in rhs ensures x in lhs {
      if x !in AbsSet(v) {
        var k :| 0 <= k < |owners| && owners[k].Some? && owners[k].value == x;
        assert k != i;
        assert owners[i := v][k] == owners[k];
      } else {
        assert owners[i := v][i] == v;
      }
    }
  }

  function AbsSet(o: Option<nat>): (s: set<nat>)
    ensures s == Elems(AbsDestruct(o))
  {
    var l := AbsDestruct(o);
    assert o.Some? ==> l[0] == o.value;
    if o.Some? then {o.value} else {}
  }

  lemma HeldSetAppend(owners: seq<Option<nat>>, v: Option<nat>)
    ensures HeldSet(owners + [v]) == HeldSet(owners) + AbsSet(v)
  {
    var lhs, rhs := HeldSet(owners + [v]), HeldSet(owners) + AbsSet(v);
    forall x | x in lhs ensures x in rhs {
      var k :| 0 <= k < |owners + [v]| && (owners + [v])[k].Some? && (owners + [v])[k].value == x;
      if k < |owners| {
        assert owners[k] == (owners + [v])[k];
      }
    }
    forall x | x in rhs ensures x in lhs {
      if x in HeldSet(owners) {
        var k :| 0 <= k < |owners| && owners[k].Some? && owners[k].value == x;
        assert (owners + [v])[k] == owners[k];
      } else {
        assert (owners + [v])[|owners|] == v;
      }
    }
  }

  lemma ElemsAppend(a: seq<nat>, b: seq<nat>)
    ensures Elems(a + b) == Elems(a) + Elems(b)
  {
    var lhs := Elems(a + b);
    forall x | x in lhs ensures x in Elems(a) + Elems(b) {
      var k :| 0 <= k < |a + b| && (a + b)[k] == x;
      if k >= |a| {
        assert b[k - |a|] == x;
      }
    }
    forall x | x in Elems(a) + Elems(b) ensures x in lhs {
      if x in Elems(a) {
        var k :| 0 <= k < |a| && a[k] == x;
        assert (a + b)[k] == x;
      } else {
        var k :| 0 <= k < |b| && b[k] == x;
        assert (a + b)[|a| + k] == x;
      }
    }
  }

  /** Appending destroyed frames that are held by nobody else keeps the log
      free of repeats. */
  lemma DistinctAppend(a: seq<nat>, o: Option<nat>)
    requires Distinct(a) && AbsSet(o) !! Elems(a)
    ensures Distinct(a + AbsDestruct(o))
  {
    var b := AbsDestruct(o);
    forall i, j | 0 <= i < j < |a + b| ensures (a + b)[i] != (a + b)[j] {
      if j >= |a| {
        assert (a + b)[j] == o.value;
        assert (a + b)[i] == a[i];
      }
    }
  }

  /** Clearing a position keeps frames unique. */
  lemma UniqueUpdate(owners: seq<Option<nat>>, i: nat, v: Option<nat>)
    requires i < |owners| && UniqueHolders(owners)
    requires v.Some? ==> v.value !in HeldSet(owners) - AbsSet(owners[i])
    ensures UniqueHolders(owners[i := v])
  {
    var o := owners[i := v];
    forall p, q | 0 <= p < q < |o| && o[p].Some? && o[q].Some? ensures o[p].value != o[q].value {
      if p == i {
        assert o[q] == owners[q];
        assert o[q].value in HeldSet(owners);
      } else if q == i {
        assert o[p] == owners[p];
        assert o[p].value in HeldSet(owners);
      }
    }
  }

  /** A ramp handing a new frame to a new owner keeps every frame accounted for. */
  lemma CreateKeepsAccounted(w: World, id: nat)
    requires Accounted(w)
    ensures Accounted(Apply(w, Create(id))) && Apply(w, Create(id)).created == w.created + {id}
  {
    if id !in w.created {
      HeldSetAppend(w.owners, Some(id));
      var o := w.owners + [Some(id)];
      forall p, q | 0 <= p < q < |o| && o[p].Some? && o[q].Some? ensures o[p].value != o[q].value {
        if q == |w.owners| {
          assert o[p] == w.owners[p];
          assert o[p].value in HeldSet(w.owners);
        } else {
          assert o[p] == w.owners[p] && o[q] == w.owners[q];
        }
      }
    }
  }

  /** Move construction keeps every frame accounted for. */
  lemma MoveNewKeepsAccounted(w: World, src: nat)
    requires Accounted(w)
    ensures Accounted(Apply(w, MoveNew(src))) && Apply(w, MoveNew(src)).created == w.created
  {
    if src < |w.owners| {
      var d := w.owners[src];
      HeldSetUpdate(w.owners, src, None);
      UniqueUpdate(w.owners, src, None);
      var o1 := w.owners[src := None];
      HeldSetAppend(o1, d);
      var o := o1 + [d];
      forall p, q | 0 <= p < q < |o| && o[p].Some? && o[q].Some? ensures o[p].value != o[q].value {
        if q == |o1| {
          assert o[p] == o1[p];
          assert o[p].value in HeldSet(o1);
        } else {
          assert o[p] == o1[p] && o[q] == o1[q];
        }
      }
    }
  }

  /** Move assignment, which destroys the frame the target held keeps every frame accounted for. */
  lemma MoveAssignKeepsAccounted(w: World, src: nat, dst: nat)
    requires Accounted(w)
    ensures Accounted(Apply(w, MoveAssign(src, dst))) && Apply(w, MoveAssign(src, dst)).created == w.created
  {
    if src < |w.owners| && dst < |w.owners| && src != dst {
      var d, s := w.owners[dst], w.owners[src];
      HeldSetUpdate(w.owners, src, None);
      UniqueUpdate(w.owners, src, None);
      var o1 := w.owners[src := None];
      assert o1[dst] == d;
      HeldSetUpdate(o1, dst, s);
      if s.Some? {
        assert s.value in AbsSet(w.owners[src]);
        assert s.value !in HeldSet(o1);
      }
      UniqueUpdate(o1, dst, s);
      assert w.owners[dst := s][src := None] == o1[dst := s];
      assert HeldSet(o1[dst := s]) == HeldSet(w.owners) - AbsSet(d);
      ElemsAppend(w.log, AbsDestruct(d));
      if d.Some? {
        assert d.value in HeldSet(w.owners);
      }
      DistinctAppend(w.log, d);
    }
  }

  /** An owner going out of scope keeps every frame accounted for. */
  lemma DestructKeepsAccounted(w: World, i: nat)
    requires Accounted(w)
    ensures Accounted(Apply(w, Destruct(i))) && Apply(w, Destruct(i)).created == w.created
  {
    if i < |w.owners| {
      var d := w.owners[i];
      HeldSetUpdate(w.owners, i, None);
      UniqueUpdate(w.owners, i, None);
      ElemsAppend(w.log, AbsDestruct(d));
      if d.Some? {
        assert d.value in HeldSet(w.owners);
      }
      DistinctAppend(w.log, d);
    }
  }

  /** Each operation keeps every frame accounted for. */
  lemma ApplyKeepsAccounted(w: World, op: Op)
    requires Accounted(w)
    ensures Accounted(Apply(w, op)) && Apply(w, op).created == w.created + (if op.Create? then {op.id} else {})
  {
    match op
    case Create(id) => CreateKeepsAccounted(w, id);
    case MoveNew(src) => MoveNewKeepsAccounted(w, src);
    case MoveAssign(src, dst) => MoveAssignKeepsAccounted(w, src, dst);
    case Destruct(i) => DestructKeepsAccounted(w, i);
  }

  lemma {:induction false} RunKeepsAccounted(w: World, ops: seq<Op>)
    requires Accounted(w)
    ensures Accounted(Run(w, ops))
    decreases |ops|
  {
    if |ops| > 0 {
      ApplyKeepsAccounted(w, ops[0]);
      RunKeepsAccounted(Apply(w, ops[0]), ops[1..]);
    }
  }

  lemma {:induction false} DestructAllEmpties(w: World, i: nat)
    requires Accounted(w)
    requires forall k | 0 <= k < i && k < |w.owners| :: w.owners[k].None?
    ensures Accounted(DestructAll(w, i)) && HeldSet(DestructAll(w, i).owners) == {}
    decreases |w.owners| - i
  {
    if i >= |w.owners| {
      assert HeldSet(w.owners) == {};
    } else {
      ApplyKeepsAccounted(w, Destruct(i));
      DestructAllEmpties(Apply(w, Destruct(i)), i + 1);
    }
  }

  /** Whatever sequence of creations, moves, move assignments and
      destructions a program performs, once every owner has gone out of
      scope each created frame has been destroyed exactly once: the log has
      no repeats and holds every created frame. */
  lemma DestroyedExactlyOnce(ops: seq<Op>)
    ensures var w := DestructAll(Run(World([], [], {}), ops), 0);
            Distinct(w.log) && Elems(w.log) == w.created
  {
    var w0 := World([], [], {});
    assert HeldSet(w0.owners) == {};
    assert Elems(w0.log) == {};
    RunKeepsAccounted(w0, ops);
    DestructAllEmpties(Run(w0, ops), 0);
  }

  // ----- Why a stackful handle is no owner -----

  /** The frame a stackful handle stands for under the owners' rule
      "destroy iff the handle is true". */
  function StackfulHeld(frame: nat): Option<nat>
  {
    if StackfulIsTrue(frame) then Some(frame) else None
  }

  /** `stackful_coroutine_handle(stackful_coroutine_handle&&) = default`
      applied to the handle at `src`, for the reference instantiation
      `stackful_coroutine_handle<Frame&>`: the new handle refers to the same
      frame, and the source still refers to it and still converts to true.
      (With a frame held by value the defaulted move moves the frame object
      itself, which is what `InlineHandle` wraps.) */
  function StackfulMoveNew(w: World, src: nat): World
  {
    if src >= |w.owners| then w
    else w.(owners := w.owners + [if w.owners[src].Some? then StackfulHeld(w.owners[src].value) else None])
  }

  /** Every handle from position `i` on goes out of scope with the stackful
      destructor, which leaves the frame alone. */
  function StackfulDestructAll(w: World, i: nat): (r: World)
    ensures r.log == w.log
    decreases |w.owners| - i
  {
    if i >= |w.owners| then w
    else
      var frames := if w.owners[i].Some? then StackfulDestruct(w.owners[i].value) else [];
      StackfulDestructAll(World(w.owners[i := None], w.log + frames, w.created), i + 1)
  }

  /** The frames held from position `i` on, with multiplicity. */
  function HeldBag(owners: seq<Option<nat>>, i: nat): multiset<nat>
    decreases |owners| - i
  {
    if i >= |owners| then multiset{} else multiset(AbsDestruct(owners[i])) + HeldBag(owners, i + 1)
  }

  lemma {:induction false} HeldBagSkipsUpdate(owners: seq<Option<nat>>, k: nat, v: Option<nat>, i: nat)
    requires k < i && k < |owners|
    ensures HeldBag(owners[k := v], i) == HeldBag(owners, i)
    decreases |owners| - i
  {
    if i < |owners| {
      assert owners[k := v][i] == owners[i];
      HeldBagSkipsUpdate(owners, k, v, i + 1);
    }
  }

  /** Destroying every owner from position `i` on logs each frame as often
      as it is held. */
  lemma {:induction false} DestructAllLogsHeld(w: World, i: nat)
    ensures multiset(DestructAll(w, i).log) == multiset(w.log) + HeldBag(w.owners, i)
    decreases |w.owners| - i
  {
    if i < |w.owners| {
      var w' := Apply(w, Destruct(i));
      DestructAllLogsHeld(w', i + 1);
      HeldBagSkipsUpdate(w.owners, i, None, i + 1);
    }
  }

  /** A frame held at position `p` counts once more from any `k <= p` than
      from `p + 1`. */
  lemma {:induction false} HeldBagCounts(owners: seq<Option<nat>>, k: nat, p: nat, x: nat)
    requires k <= p < |owners| && owners[p] == Some(x)
    ensures HeldBag(owners, k)[x] >= 1 + HeldBag(owners, p + 1)[x]
    decreases p - k
  {
    if k < p {
      HeldBagCounts(owners, k + 1, p, x);
    } else {
      assert multiset(AbsDestruct(owners[p]))[x] == 1;
    }
  }

  /** A log without repeats names each frame at most once. */
  lemma {:induction false} DistinctCountsOnce(s: seq<nat>, x: nat)
    requires Distinct(s)
    ensures multiset(s)[x] <= 1
    decreases |s|
  {
    if |s| > 0 {
      var t := s[..|s| - 1];
      assert s == t + [s[|s| - 1]];
      assert Distinct(t) by {
        forall i, j | 0 <= i < j < |t| ensures t[i] != t[j] {
          assert t[i] == s[i] && t[j] == s[j];
        }
      }
      DistinctCountsOnce(t, x);
    }
  }

  /** Moving a held frame with the owners' move keeps every frame
      accounted for, and once every owner is destroyed that frame has been
      destroyed exactly once. */
  lemma OwnerMoveDestroysOnce(w: World, src: nat)
    requires Accounted(w) && src < |w.owners| && w.owners[src].Some?
    ensures var moved := Apply(w, MoveNew(src));
            var end := DestructAll(moved, 0);
            && Accounted(moved)
            && Distinct(end.log) && w.owners[src].value in Elems(end.log)
  {
    assert w.owners[src].value in HeldSet(w.owners);
    var moved := Apply(w, MoveNew(src));
    ApplyKeepsAccounted(w, MoveNew(src));
    DestructAllEmpties(moved, 0);
  }

  /** Moving a held frame with the stackful handle's defaulted move leaves
      two true handles on it: destroying them under "destroy iff true"
      destroys the frame twice. */
  lemma StackfulMoveDestroysTwice(w: World, src: nat)
    requires src < |w.owners| && w.owners[src].Some?
    ensures var dup := StackfulMoveNew(w, src);
            && !UniqueHolders(dup.owners)
            && multiset(DestructAll(dup, 0).log)[w.owners[src].value] >= 2
            && !Distinct(DestructAll(dup, 0).log)
  {
    var x := w.owners[src].value;
    var dup := StackfulMoveNew(w, src);
    var last := |w.owners|;
    assert dup.owners[src] == Some(x) && dup.owners[last] == Some(x);
    var end := DestructAll(dup, 0);
    DestructAllLogsHeld(dup, 0);
    HeldBagCounts(dup.owners, 0, src, x);
    HeldBagCounts(dup.owners, src + 1, last, x);
    if Distinct(end.log) {
      DistinctCountsOnce(end.log, x);
    }
  }

  /** Why a `stackful_coroutine_handle` is no owner, and why `InlineHandle`
      keeps `m_valid`. From any accounted world, moving a held frame with
      the owners' move keeps every frame accounted for, and once every owner
      is destroyed that frame has been destroyed exactly once. Moving it with
      the stackful handle's defaulted move instead leaves two true handles
      on the frame: destroying them under "destroy iff true" destroys it
      twice, and destroying them with the stackful destructor never destroys
      it at all. */
  lemma StackfulHandleIsNoOwner(w: World, src: nat)
    requires Accounted(w) && src < |w.owners| && w.owners[src].Some?
    ensures var moved := Apply(w, MoveNew(src));
            var end := DestructAll(moved, 0);
            && Accounted(moved)
            && Distinct(end.log) && w.owners[src].value in Elems(end.log)
    ensures var dup := StackfulMoveNew(w, src);
            && !UniqueHolders(dup.owners)
            && !Distinct(DestructAll(dup, 0).log)
            && w.owners[src].value !in Elems(StackfulDestructAll(dup, 0).log)
  {
    OwnerMoveDestroysOnce(w, src);
    StackfulMoveDestroysTwice(w, src);
    assert w.owners[src].value in HeldSet(w.owners);
  }
}
