/** Whole runs of a program on the heap: what it reads back is what it wrote. */
module HeapRuns {
  import opened HeapShape
  import opened HeapHeaders
  import opened HeapPayloads
  import opened HeapLists
  import opened HeapState
  import opened Malloc
  import opened Powers

  /** A call of a program that keeps its pointers in numbered variables. */
  datatype Call =
    | Allocate(v: nat, n: nat)
    | AllocateAligned(v: nat, alignment: nat, n: nat)
    | Resize(v: nat, n: nat)
    | Release(v: nat)
    | Store(v: nat, k: nat, x: nat)

  /** What the program thinks a pointer variable holds: nothing, or a string of bytes. */
  datatype Slot = Empty | Bytes(s: seq<nat>)

  /** What a call may do to the variables, with no heap in sight: allocation may fail, and hands out any bytes. */
  ghost predicate Follows(c: seq<Slot>, call: Call, c2: seq<Slot>)
  {
    |c2| == |c| && if call.v >= |c| then c2 == c else
      var v := call.v;
      match call
      case Allocate(_, n) => c2 == c || (c[v].Empty? && Gave(c2[v], n) && c2 == c[v := c2[v]])
      case AllocateAligned(_, _, n) => c2 == c || (c[v].Empty? && Gave(c2[v], n) && c2 == c[v := c2[v]])
      case Resize(_, n) =>
        if c[v].Empty? then c2 == c || (Gave(c2[v], n) && c2 == c[v := c2[v]])
        else if n == 0 then c2 == c[v := Empty]
        else c2 == c || (Gave(c2[v], n) && Begins(c2[v].s, c[v].s, n) && c2 == c[v := c2[v]])
      case Release(_) => c2 == c[v := Empty]
      case Store(_, k, x) => c2 == if c[v].Bytes? && k < |c[v].s| then c[v := Bytes(c[v].s[k := x])] else c
  }

  ghost predicate Gave(slot: Slot, n: nat)
  {
    slot.Bytes? && n > 0 && |slot.s| >= n
  }

  /** The first n bytes, or as many as there were, are the old ones. */
  ghost predicate Begins(s: seq<nat>, was: seq<nat>, n: nat)
  {
    var k := Min(|was|, n);
    k <= |s| && s[..k] == was[..k]
  }

  /** Pointer p is what the slot says. */
  ghost predicate SlotIs(m: seq<nat>, h: Shape, p: nat, slot: Slot)
  {
    match slot
    case Empty => p == 0
    case Bytes(s) =>
      p >= 8 && p - 8 in h.Used() && p - 8 in h.size && h.size[p - 8] == |s| && p + |s| <= |m| && m[p..p + |s|] == s
  }

  ghost function Pointed(slots: seq<nat>): set<nat>
  {
    set v | 0 <= v < |slots| && slots[v] != 0 :: Of(slots[v])
  }

  /** Every variable holds what the program thinks, no two the same block, and no block is used that none holds. */
  ghost predicate Agrees(m: seq<nat>, h: Shape, slots: seq<nat>, c: seq<Slot>)
  {
    && |slots| == |c| && (forall v :: 0 <= v < |c| ==> SlotIs(m, h, slots[v], c[v]))
    && (forall v, w :: 0 <= v < w < |slots| && slots[v] != 0 ==> slots[v] != slots[w])
    && h.Used() == Pointed(slots)
  }

  /** A kept block still is what the slot says. */
  lemma SlotKept(m: seq<nat>, h: Shape, m2: seq<nat>, g: Shape, K: set<nat>, p: nat, slot: Slot)
    requires SlotIs(m, h, p, slot) && Keeps(m, h, m2, g, K) && (p != 0 ==> Of(p) in K)
    ensures SlotIs(m2, g, p, slot)
  {
    if slot.Bytes? {
      KeptBlock(m, h, m2, g, K, p - 8);
      assert m2[p..p + |slot.s|] == m[p..p + |slot.s|];
    }
  }

  /** The blocks held when variable v changes from one pointer to another. */
  lemma PointedSet(slots: seq<nat>, v: nat, q: nat)
    requires v < |slots| && (forall i, j :: 0 <= i < j < |slots| && slots[i] != 0 ==> slots[i] != slots[j])
    requires (forall i :: 0 <= i < |slots| && slots[i] != 0 ==> slots[i] > 8) && (q != 0 ==> q > 8)
    ensures Pointed(slots[v := q]) == Pointed(slots) - {Of(slots[v])} + if q != 0 then {Of(q)} else {}
  {
    var t := slots[v := q];
    forall b | b in Pointed(slots) - {Of(slots[v])} ensures b in Pointed(t) {
      var i :| 0 <= i < |slots| && slots[i] != 0 && Of(slots[i]) == b;
      assert t[i] == slots[i];
    }
    if q != 0 { assert t[v] == q; }
    forall b | b in Pointed(t) ensures b in Pointed(slots) - {Of(slots[v])} || (q != 0 && b == Of(q)) {
      var i :| 0 <= i < |t| && t[i] != 0 && Of(t[i]) == b;
      if i != v { assert slots[i] == t[i]; }
    }
  }

  lemma NoneAtZero(m: seq<nat>, h: Shape, slots: seq<nat>, c: seq<Slot>)
    requires Agrees(m, h, slots, c) && 0 !in h.Used()
    ensures forall i :: 0 <= i < |slots| && slots[i] != 0 ==> slots[i] > 8 && slots[i] - 8 in h.Used()
  {
    forall i | 0 <= i < |slots| && slots[i] != 0 ensures slots[i] > 8 && slots[i] - 8 in h.Used() {
      assert SlotIs(m, h, slots[i], c[i]);
    }
  }

  /** Variable v is given pointer q, every other block being kept. */
  lemma AgreesSet(m: seq<nat>, h: Shape, slots: seq<nat>, c: seq<Slot>, m2: seq<nat>, g: Shape, v: nat, q: nat,
                  slot: Slot)
    requires Agrees(m, h, slots, c) && v < |slots| && 0 !in h.Used() && (q != 0 ==> q > 8)
    requires Keeps(m, h, m2, g, h.Used() - {Of(slots[v])}) && SlotIs(m2, g, q, slot)
    requires g.Used() == h.Used() - {Of(slots[v])} + if q != 0 then {Of(q)} else {}
    requires q != 0 ==> Of(q) !in h.Used() - {Of(slots[v])}
    ensures Agrees(m2, g, slots[v := q], c[v := slot])
  {
    hide Keeps, SlotIs, Shape.Used, Pointed;
    var K := h.Used() - {Of(slots[v])};
    NoneAtZero(m, h, slots, c);
    PointedSet(slots, v, q);
    var t, d := slots[v := q], c[v := slot];
    forall w | 0 <= w < |c| ensures SlotIs(m2, g, t[w], d[w]) {
      if w != v {
        assert slots[w] != 0 ==> Of(slots[w]) in K;
        SlotKept(m, h, m2, g, K, slots[w], c[w]);
      }
    }
  }

  // ---- the calls ---------------------------------------------------------------------------------------

  /** Whether heap and program agree. */
  ghost predicate InStep(a: Heap, slots: seq<nat>, c: seq<Slot>)
    reads a, a.mem, a.bins, a.slMap
  {
    a.Valid() && Agrees(a.mem[..], a.h, slots, c)
  }

  /** A new block's slot, whatever bytes it holds. */
  lemma NewSlot(a: Heap, p: nat, n: nat) returns (slot: Slot)
    requires a.Valid() && a.Live(p) && p - 8 in a.h.size && n > 0 && a.h.size[p - 8] >= n
    ensures SlotIs(a.mem[..], a.h, p, slot) && Gave(slot, n) && p > 8
    ensures p + a.h.size[p - 8] <= a.mem.Length && slot == Bytes(a.mem[p..p + a.h.size[p - 8]])
  {
    hide Sound, Tiles, Linked, Mapped, Filed, Apart, Head, SizeIn, FreeIn, PrevFreeIn;
    LiveInHeap(a, p);
    BlockReads(a.Now(), 0, a.h.free, p - 8);
    slot := Bytes(a.mem[p..p + a.h.size[p - 8]]);
    assert a.mem[..][p..p + a.h.size[p - 8]] == a.mem[p..p + a.h.size[p - 8]];
  }

  lemma NoBlock(used: set<nat>)
    requires 0 !in used
    ensures used - {Of(0)} == used
  {
  }

  method DoAllocate(a: Heap, slots: seq<nat>, v: nat, n: nat, limit: nat, ghost c: seq<Slot>)
    returns (t: seq<nat>, ghost c2: seq<Slot>)
    requires InStep(a, slots, c) && limit <= a.mem.Length && v < |slots|
    modifies a, a.mem, a.bins, a.slMap
    ensures InStep(a, t, c2) && Follows(c, Allocate(v, n), c2)
  {
    hide Keeps, SlotIs, Agrees, Heap.Room, Heap.Valid, Shape.Used;
    t, c2 := slots, c;
    ghost var m, h := a.mem[..], a.h;
    NoZero(a);
    NoBlock(h.Used());
    SameSize(m, h, slots, c);
    if slots[v] == 0 {
      IsEmpty(m, h, slots, c, v);
      var p, errno := a.Malloc(n, limit);
      t := slots[v := p];
      if p == 0 {
        EmptyIs(a.mem[..], a.h);
        AgreesSet(m, h, slots, c, a.mem[..], a.h, v, 0, Empty);
        assert t == slots && c[v := Empty] == c;
      } else {
        ghost var slot := NewSlot(a, p, n);
        AgreesSet(m, h, slots, c, a.mem[..], a.h, v, p, slot);
        c2 := c[v := slot];
      }
    }
  }

  lemma SameSize(m: seq<nat>, h: Shape, slots: seq<nat>, c: seq<Slot>)
    requires Agrees(m, h, slots, c)
    ensures |slots| == |c|
  {
    hide SlotIs;
  }

  lemma IsEmpty(m: seq<nat>, h: Shape, slots: seq<nat>, c: seq<Slot>, v: nat)
    requires Agrees(m, h, slots, c) && v < |slots| && slots[v] == 0
    ensures c[v] == Empty
  {
    assert SlotIs(m, h, slots[v], c[v]);
  }

  lemma EmptyIs(m: seq<nat>, h: Shape)
    ensures SlotIs(m, h, 0, Empty)
  {
  }

  method DoAligned(a: Heap, slots: seq<nat>, v: nat, alignment: nat, n: nat, limit: nat, ghost c: seq<Slot>)
    returns (t: seq<nat>, ghost c2: seq<Slot>)
    requires InStep(a, slots, c) && limit <= a.mem.Length && v < |slots|
    modifies a, a.mem, a.bins, a.slMap
    ensures InStep(a, t, c2) && Follows(c, AllocateAligned(v, alignment, n), c2)
    ensures t[v] != slots[v] ==> IsMultiple(t[v], alignment)
  {
    hide Keeps, SlotIs, Agrees, Heap.Room, Heap.Valid, Shape.Used, PowerOfTwo, IsMultiple;
    t, c2 := slots, c;
    ghost var m, h := a.mem[..], a.h;
    NoZero(a);
    NoBlock(h.Used());
    SameSize(m, h, slots, c);
    if slots[v] == 0 {
      IsEmpty(m, h, slots, c, v);
      var p, errno := a.AlignedAlloc(alignment, n, limit);
      t := slots[v := p];
      if p == 0 {
        EmptyIs(a.mem[..], a.h);
        AgreesSet(m, h, slots, c, a.mem[..], a.h, v, 0, Empty);
        assert t == slots && c[v := Empty] == c;
      } else {
        ghost var slot := NewSlot(a, p, n);
        AgreesSet(m, h, slots, c, a.mem[..], a.h, v, p, slot);
        c2 := c[v := slot];
      }
    }
  }

  /** A variable that is not empty holds a live pointer. */
  lemma IsLive(a: Heap, slots: seq<nat>, c: seq<Slot>, v: nat)
    requires InStep(a, slots, c) && v < |slots| && slots[v] != 0
    ensures |slots| == |c| && c[v].Bytes? && a.Live(slots[v]) && slots[v] > 8 && a.Askable(slots[v])
    ensures slots[v] - 8 in a.h.size && a.h.size[slots[v] - 8] == |c[v].s|
    ensures slots[v] + |c[v].s| <= a.mem.Length && a.mem[slots[v]..slots[v] + |c[v].s|] == c[v].s
    ensures SlotIs(a.mem[..], a.h, slots[v], c[v])
  {
    hide Heap.Valid, Pointed;
    NoZero(a);
    assert SlotIs(a.mem[..], a.h, slots[v], c[v]);
  }

  /** What realloc leaves at the new place begins like the old. */
  lemma BeginsSame(m: seq<nat>, p: nat, was: seq<nat>, m2: seq<nat>, q: nat, n: nat, size: nat)
    requires p + |was| <= |m| && m[p..p + |was|] == was && size >= n && q + size <= |m2|
    requires SameBytes(m, p, m2, q, Min(|was|, n))
    ensures Begins(m2[q..q + size], was, n)
  {
    var k := Min(|was|, n);
    assert m2[q..q + size][..k] == m2[q..q + k] == m[p..p + k] == was[..k];
  }

  lemma Unchanged(m: seq<nat>, h: Shape, slots: seq<nat>, c: seq<Slot>, m2: seq<nat>, g: Shape)
    requires Agrees(m, h, slots, c) && Keeps(m, h, m2, g, h.Used()) && g.Used() == h.Used() && 0 !in h.Used()
    ensures Agrees(m2, g, slots, c)
  {
    hide Keeps, SlotIs, Shape.Used, Pointed;
    NoneAtZero(m, h, slots, c);
    forall w | 0 <= w < |c| ensures SlotIs(m2, g, slots[w], c[w]) {
      assert slots[w] != 0 ==> Of(slots[w]) in h.Used();
      SlotKept(m, h, m2, g, h.Used(), slots[w], c[w]);
    }
  }

  method DoResize(a: Heap, slots: seq<nat>, v: nat, n: nat, limit: nat, ghost c: seq<Slot>)
    returns (t: seq<nat>, ghost c2: seq<Slot>)
    requires InStep(a, slots, c) && limit <= a.mem.Length && v < |slots|
    modifies a, a.mem, a.bins, a.slMap
    ensures InStep(a, t, c2) && Follows(c, Resize(v, n), c2)
  {
    hide Keeps, SlotIs, Agrees, Heap.Room, Heap.Valid, Shape.Used, Heap.Resizable, SameBytes, Begins;
    ghost var m, h := a.mem[..], a.h;
    var p := slots[v];
    NoZero(a);
    NoBlock(h.Used());
    SameSize(m, h, slots, c);
    NoneAtZero(m, h, slots, c);
    if p == 0 { IsEmpty(m, h, slots, c, v); NullAskable(a); } else { IsLive(a, slots, c, v); }
    var q, errno, outcome := a.Realloc(p, n, limit);
    if q != 0 {
      t := slots[v := q];
      ghost var slot := NewSlot(a, q, n);
      if p != 0 {
        BeginsSame(m, p, c[v].s, a.mem[..], q, n, a.h.size[q - 8]);
      }
      AgreesSet(m, h, slots, c, a.mem[..], a.h, v, q, slot);
      c2 := c[v := slot];
    } else if p != 0 && n == 0 {
      t := slots[v := 0];
      EmptyIs(a.mem[..], a.h);
      AgreesSet(m, h, slots, c, a.mem[..], a.h, v, 0, Empty);
      c2 := c[v := Empty];
    } else {
      t, c2 := slots, c;
      Unchanged(m, h, slots, c, a.mem[..], a.h);
    }
  }

  lemma NullAskable(a: Heap)
    ensures a.Askable(0)
  {
  }

  method DoRelease(a: Heap, slots: seq<nat>, v: nat, ghost c: seq<Slot>) returns (t: seq<nat>, ghost c2: seq<Slot>)
    requires InStep(a, slots, c) && v < |slots|
    modifies a, a.mem, a.bins, a.slMap
    ensures InStep(a, t, c2) && Follows(c, Release(v), c2)
  {
    hide Keeps, SlotIs, Agrees, Heap.Valid, Shape.Used;
    ghost var m, h := a.mem[..], a.h;
    NoZero(a);
    NoBlock(h.Used());
    SameSize(m, h, slots, c);
    if slots[v] == 0 { IsEmpty(m, h, slots, c, v); NullAskable(a); } else { IsLive(a, slots, c, v); }
    var outcome := a.Free(slots[v]);
    t, c2 := slots[v := 0], c[v := Empty];
    EmptyIs(a.mem[..], a.h);
    AgreesSet(m, h, slots, c, a.mem[..], a.h, v, 0, Empty);
  }

  method DoStore(a: Heap, slots: seq<nat>, v: nat, k: nat, x: nat, ghost c: seq<Slot>) returns (ghost c2: seq<Slot>)
    requires InStep(a, slots, c) && v < |slots|
    modifies a.mem
    ensures InStep(a, slots, c2) && Follows(c, Store(v, k, x), c2)
  {
    hide Keeps, SlotIs, Agrees, Heap.Valid, Shape.Used;
    ghost var m, h, p := a.mem[..], a.h, slots[v];
    NoZero(a);
    SameSize(m, h, slots, c);
    c2 := c;
    if slots[v] == 0 { IsEmpty(m, h, slots, c, v); NullAskable(a); } else { IsLive(a, slots, c, v); }
    var room := a.UsableSize(slots[v]);
    if k < room {
      a.Write(slots[v], k, x);
      ghost var slot := Bytes(c[v].s[k := x]);
      StoredSlot(m, h, p, c[v], k, x);
      AgreesSet(m, h, slots, c, a.mem[..], h, v, p, slot);
      assert slots[v := p] == slots;
      c2 := c[v := slot];
    }
  }

  lemma StoredSlot(m: seq<nat>, h: Shape, p: nat, slot: Slot, k: nat, x: nat)
    requires slot.Bytes? && SlotIs(m, h, p, slot) && k < |slot.s|
    ensures p + k < |m| && SlotIs(m[p + k := x], h, p, Bytes(slot.s[k := x]))
    ensures h.Used() == h.Used() - {Of(p)} + {Of(p)}
  {
  }

  // ---- whole runs ----------------------------------------------------------------------------------------

  /** One call, with the heap's limit at that moment. */
  method Step(a: Heap, slots: seq<nat>, call: Call, limit: nat, ghost c: seq<Slot>)
    returns (t: seq<nat>, ghost c2: seq<Slot>)
    requires InStep(a, slots, c) && limit <= a.mem.Length
    modifies a, a.mem, a.bins, a.slMap
    ensures InStep(a, t, c2) && Follows(c, call, c2) && |t| == |slots|
  {
    hide Agrees, Heap.Valid;
    t, c2 := slots, c;
    SameSize(a.mem[..], a.h, slots, c);
    if call.v < |slots| {
      match call
      case Allocate(v, n) => t, c2 := DoAllocate(a, slots, v, n, limit, c);
      case AllocateAligned(v, alignment, n) => t, c2 := DoAligned(a, slots, v, alignment, n, limit, c);
      case Resize(v, n) => t, c2 := DoResize(a, slots, v, n, limit, c);
      case Release(v) => t, c2 := DoRelease(a, slots, v, c);
      case Store(v, k, x) => c2 := DoStore(a, slots, v, k, x, c);
    }
    SameSize(a.mem[..], a.h, t, c2);
  }

  /** Every step of the trace follows from the one before. */
  ghost predicate IsTrace(trace: seq<seq<Slot>>, calls: seq<Call>)
  {
    |trace| == |calls| + 1 && forall i :: 0 <= i < |calls| ==> Follows(trace[i], calls[i], trace[i + 1])
  }

  /**
   * Any run: whatever the calls and whatever the limits, the heap stays valid and passes its own check, and every
   * variable holds what a memory of separate, unlimited byte strings would hold.
   */
  method Run(a: Heap, vars: nat, calls: seq<Call>, limits: seq<nat>)
    returns (slots: seq<nat>, ghost trace: seq<seq<Slot>>, bad: nat)
    requires a.Valid() && a.h.Used() == {} && |limits| == |calls|
    requires forall i :: 0 <= i < |limits| ==> limits[i] <= a.mem.Length
    modifies a, a.mem, a.bins, a.slMap
    ensures IsTrace(trace, calls) && trace[0] == seq(vars, i => Empty)
    ensures InStep(a, slots, trace[|calls|])
    ensures bad == 0
  {
    hide Agrees, Heap.Valid, Follows;
    slots := seq(vars, i => 0);
    trace := [seq(vars, i => Empty)];
    NothingHeldYet(a.mem[..], a.h, vars);
    var i := 0;
    while i < |calls|
      invariant i <= |calls| && |trace| == i + 1 && trace[0] == seq(vars, j => Empty)
      invariant forall j :: 0 <= j < i ==> Follows(trace[j], calls[j], trace[j + 1])
      invariant InStep(a, slots, trace[i])
    {
      ghost var c;
      slots, c := Step(a, slots, calls[i], limits[i], trace[i]);
      trace := trace + [c];
      i := i + 1;
    }
    ValidForms(a);
    bad := a.HeapCheck();
  }

  lemma NothingHeldYet(m: seq<nat>, h: Shape, vars: nat)
    requires h.Used() == {}
    ensures Agrees(m, h, seq(vars, i => 0), seq(vars, i => Empty))
  {
  }
}
