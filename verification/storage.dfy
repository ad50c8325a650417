/**
  The storage cell of a coroutine frame (`coro_storage` in
  src/util/coro_storage.h).

  A cell is a buffer for one local variable that lives across a suspension
  point. It starts empty, is filled by `CO_STORAGE_CONSTRUCT`, read through
  `get()` and emptied by `destroy()`. An owning cell keeps the object in its
  buffer; a referencing cell keeps only the address of an object owned
  elsewhere, which is how references bound to temporaries get their
  lifetime extended across a suspension.

  A frame has many cells. It tracks which of them are engaged as a set of
  names; `Engage`, `Release` and `ReleaseAll` are the cell operations lifted
  to that set, and `Tracks` ties the two views together.
 */
module Storage {
  import opened Wrappers

  /** The address of an object. */
  type Addr = nat

  /** The objects that referencing cells may point at. */
  type Memory<T> = map<Addr, T>

  /** Fixed per cell when the frame type is defined (`isOwningV`). */
  datatype Mode = Owning | Referencing

  /** The contents of an engaged buffer: `Storage` is the object itself for an
      owning cell and a pointer to it for a referencing one. */
  datatype Stored<T> = Object(obj: T) | Pointer(addr: Addr)

  datatype Cell<T> = Cell(mode: Mode, content: Option<Stored<T>>) {
    predicate Engaged() {
      content.Some?
    }

    /** The buffer holds the kind of `Storage` its mode selects. */
    predicate Valid() {
      content.Some? ==> (mode == Owning <==> content.value.Object?)
    }
  }

  function EmptyCell<T>(mode: Mode): (c: Cell<T>)
    ensures c.Valid() && !c.Engaged() && c.mode == mode
  {
    Cell(mode, None)
  }

  /** `get().ref_`: the stored object for an owning cell, the referenced
      object for a referencing one. Reading an empty cell is undefined. */
  function Get<T>(c: Cell<T>, mem: Memory<T>): T
    requires c.Engaged() && c.Valid()
    requires c.content.value.Pointer? ==> c.content.value.addr in mem
  {
    match c.content.value
    case Object(v) => v
    case Pointer(a) => mem[a]
  }

  /** `CO_STORAGE_CONSTRUCT(cell, (expr))` on an owning cell. Constructing
      into an engaged buffer is a defect. */
  function Construct<T(!new)>(c: Cell<T>, v: T): (r: Outcome<Cell<T>>)
    requires c.mode == Owning
    ensures r.Ok? <==> !c.Engaged()
    ensures r.Ok? ==> r.value.Valid() && r.value.Engaged() && r.value.mode == c.mode
    ensures r.Ok? ==> forall mem: Memory<T> :: Get(r.value, mem) == v
  {
    if c.Engaged() then Fault(DoubleConstruct) else Ok(Cell(Owning, Some(Object(v))))
  }

  /** `CO_STORAGE_CONSTRUCT(cell, (lvalue))` on a referencing cell: only the
      address of the lvalue is stored. */
  function ConstructRef<T(!new)>(c: Cell<T>, a: Addr): (r: Outcome<Cell<T>>)
    requires c.mode == Referencing
    ensures r.Ok? <==> !c.Engaged()
    ensures r.Ok? ==> r.value.Valid() && r.value.Engaged() && r.value.mode == c.mode
    ensures r.Ok? ==> r.value.content == Some(Pointer(a))
    ensures r.Ok? ==> forall mem: Memory<T> | a in mem :: Get(r.value, mem) == mem[a]
  {
    if c.Engaged() then Fault(DoubleConstruct) else Ok(Cell(Referencing, Some(Pointer(a))))
  }

  /** `destroy()`: tears down exactly the stored `Storage` and leaves the cell
      empty. For a referencing cell what is torn down is the pointer, never
      the referenced object (no memory is involved). Destroying an empty cell
      is a defect. */
  function Destroy<T>(c: Cell<T>): (r: Outcome<(Cell<T>, Stored<T>)>)
    requires c.Valid()
    ensures r.Ok? <==> c.Engaged()
    ensures r.Ok? ==> r.value.0 == EmptyCell(c.mode)
    ensures r.Ok? ==> Some(r.value.1) == c.content
    ensures r.Ok? && c.mode == Referencing ==> r.value.1.Pointer?
  {
    if c.Engaged() then Ok((Cell(c.mode, None), c.content.value)) else Fault(DoubleDestroy)
  }

  /** Construct then destroy returns an owning cell to empty, handing back the
      constructed object, and the cell can be constructed again: this is how
      one awaiter buffer is reused at every `co_yield` of a loop. */
  lemma ReuseAfterDestroy<T(!new)>(mode: Mode, v: T, w: T)
    requires mode == Owning
    ensures var c := Construct(EmptyCell<T>(mode), v);
            c.Ok? && Destroy(c.value) == Ok((EmptyCell(mode), Object(v)))
            && Construct(Destroy(c.value).value.0, w).Ok?
  {
  }

  /** Lifetime extension through a referencing cell: every read goes to the
      object whose address was taken at construction, so it sees that object
      as it is at the time of the read, and destroying the cell yields only
      the pointer. */
  lemma ReferenceSeesReferent<T(!new)>(a: Addr, mem: Memory<T>, v: T)
    ensures var c := ConstructRef(EmptyCell<T>(Referencing), a);
            c.Ok? && Get(c.value, mem[a := v]) == v
            && Destroy(c.value) == Ok((EmptyCell(Referencing), Pointer(a)))
  {
  }

  // ----- The frame's view: the set of engaged cells -----

  /** `cells` and `live` agree on which cells are engaged. */
  ghost predicate Tracks<L, T>(cells: map<L, Cell<T>>, live: set<L>)
  {
    && live <= cells.Keys
    && forall l | l in cells :: cells[l].Valid() && (cells[l].Engaged() <==> l in live)
  }

  /** Constructing the local `l`: a defect when it is already engaged. */
  function Engage<L(==)>(live: set<L>, l: L): (r: Outcome<set<L>>)
    ensures r.Ok? <==> l !in live
    ensures r.Ok? ==> r.value == live + {l}
  {
    if l in live then Fault(DoubleConstruct) else Ok(live + {l})
  }

  /** Destroying the local `l`: a defect when it is not engaged. */
  function Release<L(==)>(live: set<L>, l: L): (r: Outcome<set<L>>)
    ensures r.Ok? <==> l in live
    ensures r.Ok? ==> r.value == live - {l}
  {
    if l in live then Ok(live - {l}) else Fault(DoubleDestroy)
  }

  /** `Engage` and `Release` are `Construct` and `Destroy` seen through the set
      of engaged names: they succeed exactly when the cell operations do, and
      the updated set still tracks the updated cells. */
  lemma EngageReleaseMirrorCells<L, T(!new)>(cells: map<L, Cell<T>>, live: set<L>, l: L, v: T)
    requires Tracks(cells, live) && l in cells && cells[l].mode == Owning
    ensures Engage(live, l).Ok? <==> Construct(cells[l], v).Ok?
    ensures Release(live, l).Ok? <==> Destroy(cells[l]).Ok?
    ensures Engage(live, l).Ok? ==> Tracks(cells[l := Construct(cells[l], v).value], Engage(live, l).value)
    ensures Release(live, l).Ok? ==> Tracks(cells[l := Destroy(cells[l]).value.0], Release(live, l).value)
  {
  }

  predicate Distinct<L(==)>(ops: seq<L>)
  {
    forall i, j | 0 <= i < j < |ops| :: ops[i] != ops[j]
  }

  function Elems<L(==)>(ops: seq<L>): set<L>
  {
    set i | 0 <= i < |ops| :: ops[i]
  }

  /** Destroying the locals `ops` in order, as a cleanup table does. It
      succeeds exactly when `ops` names engaged cells, each once, and then
      leaves precisely the other cells engaged. */
  function ReleaseAll<L(==)>(live: set<L>, ops: seq<L>): (r: Outcome<set<L>>)
    ensures r.Ok? <==> Distinct(ops) && Elems(ops) <= live
    ensures r.Ok? ==> r.value == live - Elems(ops)
    decreases |ops|
  {
    if |ops| == 0 then
      Ok(live)
    else
      var rest :- Release(live, ops[0]);
      var r := ReleaseAll(rest, ops[1..]);
      assert Elems(ops) == {ops[0]} + Elems(ops[1..]) by {
        forall x | x in Elems(ops) ensures x == ops[0] || x in Elems(ops[1..]) {
          var i :| 0 <= i < |ops| && ops[i] == x;
          if i > 0 { assert ops[1..][i - 1] == x; }
        }
      }
      assert Distinct(ops) <==> ops[0] !in Elems(ops[1..]) && Distinct(ops[1..]) by {
        if Distinct(ops) {
          forall i, j | 0 <= i < j < |ops[1..]| ensures ops[1..][i] != ops[1..][j] {
            assert ops[1..][i] == ops[i + 1] && ops[1..][j] == ops[j + 1];
          }
        }
        if ops[0] !in Elems(ops[1..]) && Distinct(ops[1..]) {
          forall i, j | 0 <= i < j < |ops| ensures ops[i] != ops[j] {
            if i == 0 {
              assert ops[1..][j - 1] == ops[j];
            } else {
              assert ops[1..][i - 1] == ops[i] && ops[1..][j - 1] == ops[j];
            }
          }
        }
      }
      r
  }

  /** A cleanup table leaves no engaged cell behind, without a double destroy,
      exactly when it lists every engaged cell once. */
  lemma CleanupEmptiesIff<L>(live: set<L>, ops: seq<L>)
    ensures ReleaseAll(live, ops) == Ok({}) <==> Distinct(ops) && Elems(ops) == live
  {
    var r := ReleaseAll(live, ops);
    if r == Ok({}) {
      assert live - Elems(ops) == {} && Elems(ops) <= live;
      assert Elems(ops) == live;
    }
    if Distinct(ops) && Elems(ops) == live {
      assert r.Ok? && r.value == live - live;
      assert live - live == {};
      assert r == Ok({});
    }
  }
}
