/** The slab allocator of utils/cache_alloc.c. `Pool` says what is free and what is handed out;
    `CacheAllocator` keeps the free list as the C code does, in the first bytes of the free slots. */
module CacheAlloc {
  import opened Bytes

  /** sizeof(struct node). */
  const NODE_SIZE := 8

  // -------------------------------------------------------------------------------------------
  // The pool as a state machine
  // -------------------------------------------------------------------------------------------

  /** `free` lists the free slots in the order they will be handed out, `out` holds the slots in the
      hands of clients, and `big` the live blocks that came from malloc, with their sizes. */
  datatype Pool = Pool(base: nat, size: nat, capacity: nat, free: seq<nat>, out: set<nat>, big: map<nat, nat>)

  /** `answer` is what malloc would return, 0 when it fails. */
  datatype Op = Alloc(size: nat, answer: nat) | Free(ptr: nat)

  function AddressOf(p: Pool, slot: nat): nat {
    p.base + slot * p.size
  }

  predicate InSlab(p: Pool, ptr: nat) {
    p.base <= ptr < p.base + p.capacity * p.size
  }

  /** Two blocks that share no address; a block of size 0 still has an address of its own. */
  predicate Apart(a: nat, aSize: nat, b: nat, bSize: nat) {
    a + Extent(aSize) <= b || b + Extent(bSize) <= a
  }

  function Extent(size: nat): nat {
    if size == 0 then 1 else size
  }

  /** No slot is listed twice or is both free and out, and together they are all the slots. */
  predicate SlotsPartitioned(free: seq<nat>, out: set<nat>, capacity: nat) {
    && (forall i, j :: 0 <= i < j < |free| ==> free[i] != free[j])
    && (forall i :: 0 <= i < |free| ==> free[i] < capacity && free[i] !in out)
    && (forall slot <- out :: slot < capacity)
    && |free| + |out| == capacity
  }

  predicate BlocksApart(big: map<nat, nat>, base: nat, slab: nat) {
    && (forall a <- big :: a != 0 && Apart(a, big[a], base, slab))
    && (forall a <- big, b <- big :: a != b ==> Apart(a, big[a], b, big[b]))
  }

  predicate Inv(p: Pool) {
    && 0 < p.base && NODE_SIZE <= p.size
    && SlotsPartitioned(p.free, p.out, p.capacity)
    && BlocksApart(p.big, p.base, p.capacity * p.size)
  }

  /** malloc's promise, and the client's: a pointer is given back only while it is out. */
  predicate Legal(p: Pool, op: Op) {
    match op
    case Alloc(size, answer) =>
      answer == 0
      || (&& Apart(answer, size, p.base, p.capacity * p.size)
          && forall a <- p.big :: Apart(answer, size, a, p.big[a]))
    case Free(ptr) =>
      ptr == 0 || ptr in p.big || exists slot <- p.out :: ptr == AddressOf(p, slot)
  }

  function Step(p: Pool, op: Op): (q: Pool)
    requires 0 < p.size
    ensures q.base == p.base && q.size == p.size && q.capacity == p.capacity
  {
    match op
    case Alloc(size, answer) =>
      if p.size < size || p.free == [] then if answer == 0 then p else p.(big := p.big[answer := size])
      else p.(free := p.free[1..], out := p.out + {p.free[0]})
    case Free(ptr) =>
      if ptr == 0 then p
      else if InSlab(p, ptr) then
        var slot := (ptr - p.base) / p.size;
        p.(free := [slot] + p.free, out := p.out - {slot})
      else p.(big := p.big - {ptr})
  }

  /** The address an allocation answers. */
  function Returned(p: Pool, size: nat, answer: nat): nat {
    if p.size < size || p.free == [] then answer else AddressOf(p, p.free[0])
  }

  function Run(p: Pool, ops: seq<Op>): Pool
    requires 0 < p.size
    decreases |ops|
  {
    if ops == [] then p else Run(Step(p, ops[0]), ops[1..])
  }

  predicate LegalRun(p: Pool, ops: seq<Op>)
    requires 0 < p.size
    decreases |ops|
  {
    ops == [] || (Legal(p, ops[0]) && LegalRun(Step(p, ops[0]), ops[1..]))
  }

  /** The blocks in clients' hands: pool slots and malloc blocks, each with its size. */
  ghost predicate Live(p: Pool, addr: nat, size: nat) {
    (addr in p.big && size == p.big[addr]) || (size == p.size && exists slot <- p.out :: addr == AddressOf(p, slot))
  }

  lemma SlotsApart(i: nat, j: nat, size: nat)
    requires i < j
    ensures i * size + size <= j * size
  {
    assert (j - i - 1) * size >= 0;
    assert j * size == i * size + size + (j - i - 1) * size;
  }

  /** Slot addresses are found again from the address, and lie in the slab with their whole slot. */
  lemma SlotOfAddress(p: Pool, slot: nat)
    requires slot < p.capacity && 0 < p.size
    ensures InSlab(p, AddressOf(p, slot))
    ensures (AddressOf(p, slot) - p.base) / p.size == slot
    ensures AddressOf(p, slot) + p.size <= p.base + p.capacity * p.size
  {
    SlotsApart(slot, p.capacity, p.size);
    DivideBack(slot, p.size);
  }

  lemma DivideBack(k: nat, d: nat)
    requires 0 < d
    ensures k * d / d == k
  {
    var q, r := k * d / d, k * d % d;
    assert q * d + r == k * d;
    if q < k {
      SlotsApart(q, k, d);
    } else if k < q {
      SlotsApart(k, q, d);
    }
  }

  /** The address test tells the two kinds of outstanding pointer apart. */
  lemma Classified(p: Pool, ptr: nat)
    requires Inv(p) && Legal(p, Free(ptr)) && ptr != 0
    ensures InSlab(p, ptr) <==> exists slot <- p.out :: ptr == AddressOf(p, slot)
    ensures !InSlab(p, ptr) <==> ptr in p.big
  {
    if slot :| slot in p.out && ptr == AddressOf(p, slot) {
      SlotOfAddress(p, slot);
    } else {
      assert Apart(ptr, p.big[ptr], p.base, p.capacity * p.size);
    }
  }

  /** What an allocation answers is apart from every block in clients' hands, and big enough. */
  lemma AllocatedApart(p: Pool, size: nat, answer: nat, addr: nat, other: nat)
    requires Inv(p) && Legal(p, Alloc(size, answer)) && Live(p, addr, other)
    requires Returned(p, size, answer) != 0
    ensures Apart(Returned(p, size, answer), size, addr, other)
    ensures exists k :: size <= k && Live(Step(p, Alloc(size, answer)), Returned(p, size, answer), k)
  {
    var q := Step(p, Alloc(size, answer));
    var r := Returned(p, size, answer);
    if p.size < size || p.free == [] {
      assert Live(q, r, size);
      if slot :| slot in p.out && addr == AddressOf(p, slot) && other == p.size {
        SlotOfAddress(p, slot);
      }
    } else {
      assert p.free[0] in q.out && Live(q, r, p.size);
      SlotOfAddress(p, p.free[0]);
      if slot :| slot in p.out && addr == AddressOf(p, slot) && other == p.size {
        if slot < p.free[0] {
          SlotsApart(slot, p.free[0], p.size);
        } else {
          SlotsApart(p.free[0], slot, p.size);
        }
      } else {
        assert Apart(addr, p.big[addr], p.base, p.capacity * p.size);
      }
    }
  }

  /** Any two blocks in clients' hands are apart. */
  lemma LiveApart(p: Pool, a: nat, aSize: nat, b: nat, bSize: nat)
    requires Inv(p) && Live(p, a, aSize) && Live(p, b, bSize) && a != b
    ensures Apart(a, aSize, b, bSize)
  {
    if a in p.big && aSize == p.big[a] {
      if b in p.big && bSize == p.big[b] {
        assert Apart(a, p.big[a], b, p.big[b]);
      } else {
        var j :| j in p.out && b == AddressOf(p, j);
        SlotApartFromBig(p, j, a);
      }
    } else {
      var i :| i in p.out && a == AddressOf(p, i);
      if b in p.big && bSize == p.big[b] {
        SlotApartFromBig(p, i, b);
      } else {
        var j :| j in p.out && b == AddressOf(p, j);
        if i < j {
          SlotsApart(i, j, p.size);
        } else {
          SlotsApart(j, i, p.size);
        }
      }
    }
  }

  lemma SlotApartFromBig(p: Pool, slot: nat, addr: nat)
    requires Inv(p) && slot in p.out && addr in p.big
    ensures Apart(AddressOf(p, slot), p.size, addr, p.big[addr])
    ensures Apart(addr, p.big[addr], AddressOf(p, slot), p.size)
  {
    SlotOfAddress(p, slot);
    assert Apart(addr, p.big[addr], p.base, p.capacity * p.size);
  }

  /** A pool slot in clients' hands begins at `addr`. */
  ghost predicate OutAt(p: Pool, addr: nat) {
    exists slot <- p.out :: addr == AddressOf(p, slot)
  }

  lemma LiveCases(p: Pool, addr: nat, n: nat)
    ensures Live(p, addr, n) <==> (addr in p.big && n == p.big[addr]) || (n == p.size && OutAt(p, addr))
  {
  }

  lemma OneMoreOut(p: Pool, q: Pool, slot: nat, addr: nat)
    requires q.out == p.out + {slot} && q.base == p.base && q.size == p.size
    ensures OutAt(q, addr) <==> OutAt(p, addr) || addr == AddressOf(p, slot)
  {
    hide AddressOf;
    SameAddresses(p, q);
    if t :| t in q.out && addr == AddressOf(q, t) {
      assert addr == AddressOf(p, t) && (t in p.out || t == slot);
    }
    if t :| t in p.out && addr == AddressOf(p, t) {
      assert t in q.out && addr == AddressOf(q, t);
    }
    assert slot in q.out && AddressOf(q, slot) == AddressOf(p, slot);
  }

  lemma OneLessOut(p: Pool, q: Pool, slot: nat, addr: nat)
    requires Inv(p) && slot in p.out && q.out == p.out - {slot} && q.base == p.base && q.size == p.size
    ensures OutAt(q, addr) <==> OutAt(p, addr) && addr != AddressOf(p, slot)
  {
    SameAddresses(p, q);
    OutSlots(p);
    SlotOfAddress(p, slot);
    if t :| t in p.out && addr == AddressOf(p, t) && addr != AddressOf(p, slot) {
      assert t in q.out && addr == AddressOf(q, t);
    }
    if t :| t in q.out && addr == AddressOf(q, t) {
      SlotOfAddress(p, t);
      assert t in p.out && addr == AddressOf(p, t);
    }
  }

  lemma SameAddresses(p: Pool, q: Pool)
    requires q.base == p.base && q.size == p.size
    ensures forall slot :: AddressOf(q, slot) == AddressOf(p, slot)
  {
  }

  lemma SameOut(p: Pool, q: Pool, addr: nat)
    requires q.out == p.out && q.base == p.base && q.size == p.size
    ensures OutAt(q, addr) <==> OutAt(p, addr)
  {
    hide AddressOf;
    SameAddresses(p, q);
    if t :| t in q.out && addr == AddressOf(q, t) {
      assert addr == AddressOf(p, t);
    }
    if t :| t in p.out && addr == AddressOf(p, t) {
      assert addr == AddressOf(q, t);
    }
  }

  /** An allocation puts exactly the answered block into clients' hands. */
  lemma AllocLive(p: Pool, size: nat, answer: nat, addr: nat, n: nat)
    requires Inv(p) && Legal(p, Alloc(size, answer))
    ensures var r := Returned(p, size, answer); var pooled := size <= p.size && p.free != [];
            (Live(Step(p, Alloc(size, answer)), addr, n)
             <==> Live(p, addr, n) || (r != 0 && addr == r && n == if pooled then p.size else size))
  {
    var q := Step(p, Alloc(size, answer));
    LiveCases(p, addr, n);
    LiveCases(q, addr, n);
    hide Live, OutAt;
    if size <= p.size && p.free != [] {
      OneMoreOut(p, q, p.free[0], addr);
      AddressIsStart(p, p.free[0]);
    } else {
      assert answer != 0 ==> answer !in p.big;
      SameOut(p, q, addr);
    }
  }

  /** Giving a block back takes exactly that block out of clients' hands. */
  lemma FreeLive(p: Pool, ptr: nat, addr: nat, n: nat)
    requires Inv(p) && Legal(p, Free(ptr)) && ptr != 0
    ensures Live(Step(p, Free(ptr)), addr, n) <==> Live(p, addr, n) && addr != ptr
  {
    var q := Step(p, Free(ptr));
    Classified(p, ptr);
    LiveCases(p, addr, n);
    LiveCases(q, addr, n);
    if InSlab(p, ptr) {
      var gone :| gone in p.out && ptr == AddressOf(p, gone);
      OutSlots(p);
      SlotOfAddress(p, gone);
      assert q.out == p.out - {gone} && q.big == p.big && ptr !in p.big;
      hide Live, OutAt, Inv, Legal, AddressOf, InSlab;
      OneLessOut(p, q, gone, addr);
    } else {
      assert q.out == p.out && q.big == p.big - {ptr} && !OutAt(p, ptr);
      hide Live, OutAt, Inv, Legal, AddressOf, InSlab;
      SameOut(p, q, addr);
    }
  }

  lemma TakeSlot(free: seq<nat>, out: set<nat>, capacity: nat)
    requires SlotsPartitioned(free, out, capacity) && free != []
    ensures SlotsPartitioned(free[1..], out + {free[0]}, capacity)
  {
    var rest := free[1..];
    forall i | 0 <= i < |rest| ensures rest[i] < capacity && rest[i] !in out + {free[0]} {
      assert rest[i] == free[i + 1];
    }
  }

  lemma GiveSlot(free: seq<nat>, out: set<nat>, capacity: nat, slot: nat)
    requires SlotsPartitioned(free, out, capacity) && slot in out
    ensures SlotsPartitioned([slot] + free, out - {slot}, capacity)
  {
  }

  lemma StepKeepsInv(p: Pool, op: Op)
    requires Inv(p) && Legal(p, op)
    ensures Inv(Step(p, op))
  {
    hide SlotsPartitioned;
    match op
    case Alloc(size, answer) =>
      if p.size >= size && p.free != [] {
        TakeSlot(p.free, p.out, p.capacity);
      }
    case Free(ptr) =>
      if ptr != 0 {
        Classified(p, ptr);
        if InSlab(p, ptr) {
          var slot :| slot in p.out && ptr == AddressOf(p, slot);
          OutInRange(p, slot);
          SlotOfAddress(p, slot);
          GiveSlot(p.free, p.out, p.capacity, slot);
        }
      }
  }

  lemma OutInRange(p: Pool, slot: nat)
    requires Inv(p) && slot in p.out
    ensures slot < p.capacity
  {
  }

  /** In every run of allocations and frees the invariant holds: no slot is listed twice or both
      free and out, and free and outstanding slots add up to the capacity. */
  lemma {:induction false} RunKeepsInv(p: Pool, ops: seq<Op>)
    requires Inv(p) && LegalRun(p, ops)
    ensures var q := Run(p, ops); Inv(q) && |q.free| + |q.out| == p.capacity == q.capacity
    decreases |ops|
  {
    CountsOf(p);
    hide Inv, Legal, Step;
    if ops != [] {
      StepKeepsInv(p, ops[0]);
      RunKeepsInv(Step(p, ops[0]), ops[1..]);
    }
  }

  lemma CountsOf(p: Pool)
    requires Inv(p)
    ensures 0 < p.size && |p.free| + |p.out| == p.capacity
  {
  }

  /** Giving back a slot and asking again answers the same slot and restores the pool. */
  lemma FreeThenAlloc(p: Pool, slot: nat, size: nat, answer: nat)
    requires Inv(p) && slot in p.out && size <= p.size
    ensures var q := Step(p, Free(AddressOf(p, slot)));
            Returned(q, size, answer) == AddressOf(p, slot) && Step(q, Alloc(size, answer)) == p
  {
    SlotOfAddress(p, slot);
    var q := Step(p, Free(AddressOf(p, slot)));
    assert q.free[1..] == p.free;
    assert q.out + {slot} == p.out;
  }

  /** A slot may be given back exactly while it is out: freeing a free slot breaks the pool. */
  lemma FreeExact(p: Pool, slot: nat)
    requires Inv(p) && slot < p.capacity
    ensures Inv(Step(p, Free(AddressOf(p, slot)))) <==> slot in p.out
  {
    SlotOfAddress(p, slot);
    var q := Step(p, Free(AddressOf(p, slot)));
    if slot in p.out {
      StepKeepsInv(p, Free(AddressOf(p, slot)));
    } else {
      assert |q.free| == |p.free| + 1 && q.out == p.out;
    }
  }

  // -------------------------------------------------------------------------------------------
  // Runs in which clients also write
  // -------------------------------------------------------------------------------------------

  /** A call of the allocator, or a client writing a byte into a pool slot. */
  datatype Action = Call(op: Op) | Write(slot: nat, offset: nat, value: byte)

  /** The pool, and for each outstanding slot the bytes its client has written since it got it. */
  datatype Used = Used(pool: Pool, written: map<(nat, nat), byte>)

  /** Clients write only into slots they hold. */
  predicate Allowed(p: Pool, a: Action) {
    match a
    case Call(op) => Legal(p, op)
    case Write(slot, offset, _) => slot in p.out && offset < p.size
  }

  function Act(u: Used, a: Action): Used
    requires 0 < u.pool.size
  {
    match a
    case Call(op) =>
      var q := Step(u.pool, op);
      Used(q, map k | k in u.written && k.0 in q.out :: u.written[k])
    case Write(slot, offset, value) => u.(written := u.written[(slot, offset) := value])
  }

  predicate AllowedRun(u: Used, actions: seq<Action>)
    requires 0 < u.pool.size
    decreases |actions|
  {
    actions == [] || (Allowed(u.pool, actions[0]) && AllowedRun(Act(u, actions[0]), actions[1..]))
  }

  function ActAll(u: Used, actions: seq<Action>): Used
    requires 0 < u.pool.size
    decreases |actions|
  {
    if actions == [] then u else ActAll(Act(u, actions[0]), actions[1..])
  }

  // -------------------------------------------------------------------------------------------
  // The allocator in memory
  // -------------------------------------------------------------------------------------------

  function SlotStart(slot: nat, size: nat): nat {
    slot * size
  }

  lemma SlotBounds(slot: nat, size: nat, capacity: nat)
    requires slot < capacity
    ensures SlotStart(slot, size) + size <= SlotStart(capacity, size)
  {
    SlotsApart(slot, capacity, size);
  }

  lemma OtherSlot(slot: nat, other: nat, size: nat, capacity: nat)
    requires slot < capacity && other < capacity && slot != other
    ensures SlotStart(slot, size) + size <= SlotStart(other, size)
         || SlotStart(other, size) + size <= SlotStart(slot, size)
    ensures SlotStart(slot, size) + size <= SlotStart(capacity, size)
    ensures SlotStart(other, size) + size <= SlotStart(capacity, size)
  {
    SlotBounds(slot, size, capacity);
    SlotBounds(other, size, capacity);
    if other < slot {
      SlotBounds(other, size, slot);
    } else {
      SlotBounds(slot, size, other);
    }
  }

  /** The address of the `k`-th free slot; 0 behind the last. */
  function ListAddress(base: nat, size: nat, free: seq<nat>, k: nat): nat {
    if k < |free| then base + SlotStart(free[k], size) else 0
  }

  lemma OutSlots(p: Pool)
    requires Inv(p)
    ensures forall slot <- p.out :: slot < p.capacity && slot !in p.free
  {
  }

  lemma ListEnd(base: nat, size: nat, free: seq<nat>)
    requires 0 < base
    ensures ListAddress(base, size, free, 0) == 0 <==> free == []
  {
  }

  lemma AddressIsStart(p: Pool, slot: nat)
    ensures AddressOf(p, slot) == p.base + SlotStart(slot, p.size)
  {
  }

  class CacheAllocator {
    /** The address of the first byte of `cacheMem`. */
    const base: nat
    const capacity: nat
    const elementSize: nat
    const cacheMem: array<byte>
    /** The address of the first free slot, 0 when there is none. */
    var freeList: nat
    ghost var free: seq<nat>
    ghost var out: set<nat>
    ghost var big: map<nat, nat>

    ghost function Model(): Pool
      reads this
    {
      Pool(base, elementSize, capacity, free, out, big)
    }

    ghost predicate Shape() {
      && 0 < base && NODE_SIZE <= elementSize
      && cacheMem.Length == SlotStart(capacity, elementSize)
      && base + cacheMem.Length <= Power256(NODE_SIZE)
    }

    /** The bytes of one slot. */
    ghost function Slot(slot: nat): (s: seq<byte>)
      requires Shape() && slot < capacity
      reads cacheMem
      ensures |s| == elementSize
    {
      SlotBounds(slot, elementSize, capacity);
      cacheMem[SlotStart(slot, elementSize)..SlotStart(slot, elementSize) + elementSize]
    }

    /** The pointer in the first bytes of a slot. */
    ghost function Link(slot: nat): nat
      requires Shape() && slot < capacity
      reads cacheMem
    {
      FromBigEndian(Slot(slot)[..NODE_SIZE])
    }

    ghost predicate Linked(k: nat)
      requires Shape()
      reads this`free, cacheMem
    {
      k < |free| && free[k] < capacity && Link(free[k]) == ListAddress(base, elementSize, free, k + 1)
    }

    /** Following the links from `freeList` visits exactly the free slots, in order, and ends. */
    ghost predicate Chain()
      reads this`free, this`freeList, cacheMem
    {
      && Shape() && freeList == ListAddress(base, elementSize, free, 0)
      && forall k :: 0 <= k < |free| ==> Linked(k)
    }

    ghost predicate Valid()
      reads this, cacheMem
    {
      Chain() && Inv(Model())
    }

    /** `n->next = target`. */
    method WriteLink(slot: nat, target: nat)
      requires Shape() && slot < capacity && target < Power256(NODE_SIZE)
      modifies cacheMem
      ensures Link(slot) == target
      ensures forall other :: 0 <= other < capacity && other != slot ==> Slot(other) == old(Slot(other))
    {
      SlotBounds(slot, elementSize, capacity);
      var at := SlotStart(slot, elementSize);
      forall i | 0 <= i < NODE_SIZE {
        cacheMem[at + i] := BigEndian(target, NODE_SIZE)[i];
      }
      assert Slot(slot)[..NODE_SIZE] == BigEndian(target, NODE_SIZE);
      BigEndianRoundTrip(target, NODE_SIZE);
      forall other | 0 <= other < capacity && other != slot ensures Slot(other) == old(Slot(other)) {
        OtherSlot(slot, other, elementSize, capacity);
      }
    }

    /** `n->next = free_list; free_list = n`. */
    method Push(slot: nat)
      requires Chain() && slot < capacity && slot !in free
      modifies this`freeList, this`free, cacheMem
      ensures Chain() && free == [slot] + old(free)
      ensures forall other :: 0 <= other < capacity && other != slot ==> Slot(other) == old(Slot(other))
    {
      ghost var was := Model();
      SlotOfAddress(was, slot);
      assert freeList < Power256(NODE_SIZE) by {
        if free != [] {
          assert Linked(0);
          SlotOfAddress(was, free[0]);
        }
      }
      WriteLink(slot, freeList);
      freeList := base + slot * elementSize;
      free := [slot] + free;
      AddressIsStart(was, slot);
      assert freeList == ListAddress(base, elementSize, free, 0);
      hide AddressOf, SlotStart;
      forall k | 0 <= k < |free| ensures Linked(k) {
        if 0 < k {
          assert old(Linked(k - 1));
          assert free[k] == was.free[k - 1] && was.free[k - 1] in was.free;
        }
      }
    }

    /** `n = free_list; free_list = n->next`. */
    method Pop() returns (ptr: nat)
      requires Chain() && free != []
      modifies this`freeList, this`free
      ensures Chain() && free == old(free)[1..]
      ensures ptr == AddressOf(Model(), old(free)[0])
    {
      assert Linked(0);
      AddressIsStart(Model(), free[0]);
      SlotBounds(free[0], elementSize, capacity);
      hide AddressOf, SlotStart;
      ptr := freeList;
      var at := ptr - base;
      assert cacheMem[at..at + NODE_SIZE] == Slot(free[0])[..NODE_SIZE];
      freeList := FromBigEndian(cacheMem[at..at + NODE_SIZE]);
      free := free[1..];
      forall k | 0 <= k < |free| ensures Linked(k) {
        assert old(Linked(k + 1));
      }
    }

    /** `cache_alloc`; `answer` is what malloc would return. */
    method Alloc(elemSize: nat, answer: nat) returns (ptr: nat)
      requires Valid() && Legal(Model(), Op.Alloc(elemSize, answer))
      modifies this
      ensures Valid()
      ensures ptr == Returned(old(Model()), elemSize, answer)
      ensures Model() == Step(old(Model()), Op.Alloc(elemSize, answer))
    {
      ghost var was := Model();
      StepKeepsInv(was, Op.Alloc(elemSize, answer));
      ListEnd(base, elementSize, free);
      hide Inv, AddressOf, SlotStart, Legal;
      if elementSize < elemSize || freeList == 0 {
        if answer != 0 {
          big := big[answer := elemSize];
        }
        return answer;
      }
      ptr := Pop();
      out := out + {was.free[0]};
    }

    /** `cache_free`. The bytes of every block that stays in clients' hands are untouched. */
    method Free(ptr: nat)
      requires Valid() && Legal(Model(), Op.Free(ptr))
      modifies this, cacheMem
      ensures Valid()
      ensures Model() == Step(old(Model()), Op.Free(ptr))
      ensures forall slot <- out :: slot < capacity && Slot(slot) == old(Slot(slot))
    {
      ghost var was := Model();
      StepKeepsInv(was, Op.Free(ptr));
      if ptr == 0 {
        return;
      }
      Classified(was, ptr);
      OutSlots(was);
      if base <= ptr < base + capacity * elementSize {
        ghost var slot := (ptr - base) / elementSize;
        var at := ptr - base;
        SlotOfAddress(was, slot);
        hide Inv;
        Push(at / elementSize);
        out := out - {slot};
      } else {
        hide Inv;
        big := big - {ptr};
      }
    }

    /** A client writes into a slot it holds: nothing the allocator relies on changes, nor any other
        slot. */
    method ClientWrite(slot: nat, offset: nat, value: byte)
      requires Valid() && slot in out && slot < capacity && offset < elementSize
      modifies cacheMem
      ensures Valid()
      ensures Slot(slot) == old(Slot(slot))[offset := value]
      ensures forall other :: 0 <= other < capacity && other != slot ==> Slot(other) == old(Slot(other))
    {
      SlotBounds(slot, elementSize, capacity);
      OutSlots(Model());
      hide Inv, SlotStart, AddressOf;
      cacheMem[SlotStart(slot, elementSize) + offset] := value;
      forall other | 0 <= other < capacity && other != slot ensures Slot(other) == old(Slot(other)) {
        OtherSlot(slot, other, elementSize, capacity);
      }
      forall k | 0 <= k < |free| ensures Linked(k) {
        assert old(Linked(k));
        assert free[k] in free;
      }
    }

    /** What clients wrote stands in their slots. */
    ghost predicate Holds(written: map<(nat, nat), byte>)
      requires Shape()
      reads this, cacheMem
    {
      forall k <- written :: k.0 in out && k.0 < capacity && k.1 < elementSize && Slot(k.0)[k.1] == written[k]
    }

    method Perform(a: Action, ghost u: Used)
      requires Valid() && u.pool == Model() && Holds(u.written) && Allowed(u.pool, a)
      modifies this, cacheMem
      ensures Valid()
      ensures Act(u, a).pool == Model() && Holds(Act(u, a).written)
    {
      OutSlots(Model());
      hide Inv, SlotStart, AddressOf, Legal, Chain;
      match a
      case Call(Alloc(size, answer)) =>
        var _ := Alloc(size, answer);
      case Call(Free(ptr)) =>
        Free(ptr);
      case Write(slot, offset, value) =>
        ClientWrite(slot, offset, value);
    }

    /** A whole run of allocations, frees and clients writing into the slots they hold: the free list and
        the outstanding blocks are those of the pool's run, whose invariant holds, and every byte a
        client wrote into a slot it still has stands where it was written. */
    method PerformAll(actions: seq<Action>)
      requires Valid() && AllowedRun(Used(Model(), map[]), actions)
      modifies this, cacheMem
      ensures Valid()
      ensures ActAll(Used(old(Model()), map[]), actions).pool == Model()
      ensures Holds(ActAll(Used(old(Model()), map[]), actions).written)
    {
      hide Act, Allowed, Step;
      ghost var u := Used(Model(), map[]);
      assert actions[0..] == actions;
      for i := 0 to |actions|
        invariant Valid() && u.pool == Model() && Holds(u.written)
        invariant AllowedRun(u, actions[i..])
        invariant ActAll(u, actions[i..]) == ActAll(Used(old(Model()), map[]), actions)
      {
        assert actions[i..][0] == actions[i] && actions[i..][1..] == actions[i + 1..];
        Perform(actions[i], u);
        u := Act(u, actions[i]);
      }
    }

    /** `create_cache_allocator`: every slot is free. Slots smaller than a link are made that large. */
    constructor (capacity: nat, elementSize: nat, base: nat)
      requires 0 < base
      requires base + SlotStart(capacity, if elementSize < NODE_SIZE then NODE_SIZE else elementSize) <= Power256(NODE_SIZE)
      ensures Valid() && fresh(cacheMem)
      ensures |free| == capacity && out == {} && big == map[]
      ensures this.capacity == capacity && this.base == base
      ensures this.elementSize == if elementSize < NODE_SIZE then NODE_SIZE else elementSize
    {
      this.base, this.capacity := base, capacity;
      var size := if elementSize < NODE_SIZE then NODE_SIZE else elementSize;
      this.elementSize := size;
      cacheMem := new byte[SlotStart(capacity, size)](i => 0);
      freeList := 0;
      free, out, big := [], {}, map[];
      new;
      for i := 0 to capacity
        invariant out == {} && big == map[] && Shape()
        invariant |free| == i && forall k :: 0 <= k < i ==> free[k] == i - 1 - k
        invariant Chain()
      {
        Push(i);
      }
    }
  }
}
