/** Blocks of memory, who owns them, and the move-only wiping buffer of
    src/crypt/secure_buffer.cc.

    The first half is the specification: a heap as a value, the six buffer
    operations as functions on it, and arbitrary runs of them over any number of
    buffers.  The second half is the class, whose methods are proved to perform
    exactly those functions, and commands on real buffers, which are proved to
    make exactly those runs. */
module Memory {
  import opened Wire

  /** A block given back to the allocator, with the bytes it held at that moment. */
  datatype Freed<B> = Freed(block: B, image: Bytes)

  /** `live` maps each block in use to its length; `released` holds the blocks
      handed to a caller, who took over the duty to wipe them. */
  datatype Heap<!B(==)> = Heap(live: map<B, nat>, released: set<B>, freed: seq<Freed<B>>)

  /** The two fields of a SecureBuffer. */
  datatype Handle<+B> = Handle(data: Option<B>, size: nat)

  ghost function FreedBlocks<B>(h: Heap<B>): set<B> {
    set f | f in h.freed :: f.block
  }

  /** Every block ever handed out by the allocator. */
  ghost function Known<B>(h: Heap<B>): set<B> {
    h.live.Keys + h.released + FreedBlocks(h)
  }

  ghost predicate AllWiped<B>(h: Heap<B>) {
    forall f | f in h.freed :: AllZero(f.image)
  }

  /** What `contents` looks like after its first n bytes have been wiped. */
  function Wiped(contents: Bytes, n: nat): (image: Bytes)
    ensures |image| == |contents|
    ensures n >= |contents| ==> AllZero(image)
  {
    if n >= |contents| then Zeros(|contents|) else Zeros(n) + contents[n..]
  }

  /** operator new[], when it succeeds with block b. */
  function Malloc<B(==)>(h: Heap<B>, b: B, n: nat): Heap<B> {
    h.(live := h.live[b := n])
  }

  /** delete[] of a block that holds `image`. */
  function Free<B(==)>(h: Heap<B>, b: B, image: Bytes): Heap<B> {
    h.(live := h.live - {b}, freed := h.freed + [Freed(b, image)])
  }

  /** WipeAndFree on a buffer whose block holds `contents`. */
  function HeapAfterWipe<B(==)>(h: Heap<B>, s: Handle<B>, contents: Bytes): Heap<B> {
    match s.data
    case None => h
    case Some(b) => Free(h, b, Wiped(contents, s.size))
  }

  /** Release: the block leaves the buffer's care without being wiped. */
  function HeapAfterRelease<B(==)>(h: Heap<B>, s: Handle<B>): Heap<B> {
    match s.data
    case None => h
    case Some(b) => h.(live := h.live - {b}, released := h.released + {b})
  }

  function NullHandle<B>(): Handle<B> {
    Handle(None, 0)
  }

  /** The allocating half of Reset; `block` is what the allocator answers. */
  function Acquire<B(==)>(h: Heap<B>, n: nat, block: Option<B>): (Heap<B>, Handle<B>, bool) {
    if n == 0 then (h, NullHandle(), true)
    else match block
         case None => (h, NullHandle(), false)
         case Some(b) => (Malloc(h, b, n), Handle(Some(b), n), true)
  }

  // ---- Runs over any number of buffers ----

  /** A buffer is None before construction and after destruction. */
  datatype World<!B(==)> = World(heap: Heap<B>, bufs: seq<Option<Handle<B>>>)

  /** One operation of the class.  `block` is the allocator's answer, `held` the
      bytes the wiped block holds when the operation starts: clients write
      through data() as they please, so any bytes of the right length. */
  datatype Op<+B> =
    | Construct(size: nat, block: Option<B>)
    | Reset(i: nat, size: nat, block: Option<B>, held: Bytes)
    | MoveConstruct(src: nat)
    | MoveAssign(dst: nat, src: nat, held: Bytes)
    | Release(i: nat)
    | Destroy(i: nat, held: Bytes)

  ghost predicate Alive<B>(w: World<B>, i: nat) {
    i < |w.bufs| && w.bufs[i].Some?
  }

  /** The allocator answers with a block it never answered before. */
  ghost predicate FreshBlock<B>(h: Heap<B>, block: Option<B>) {
    block.Some? ==> block.value !in Known(h)
  }

  ghost predicate Holds<B>(w: World<B>, i: nat, held: Bytes)
    requires Alive(w, i)
  {
    var s := w.bufs[i].value;
    s.data.Some? && s.data.value in w.heap.live ==> |held| == w.heap.live[s.data.value]
  }

  ghost predicate Enabled<B>(w: World<B>, op: Op<B>) {
    match op
    case Construct(_, block) => FreshBlock(w.heap, block)
    case Reset(i, _, block, held) => Alive(w, i) && Holds(w, i, held) && FreshBlock(w.heap, block)
    case MoveConstruct(src) => Alive(w, src)
    case MoveAssign(dst, src, held) => Alive(w, dst) && Alive(w, src) && Holds(w, dst, held)
    case Release(i) => Alive(w, i)
    case Destroy(i, held) => Alive(w, i) && Holds(w, i, held)
  }

  ghost function Step<B>(w: World<B>, op: Op<B>): World<B>
    requires Enabled(w, op)
  {
    match op
    case Construct(n, block) =>
      var (h, s, _) := Acquire(w.heap, n, block);
      World(h, w.bufs + [Some(s)])
    case Reset(i, n, block, held) =>
      var (h, s, _) := Acquire(HeapAfterWipe(w.heap, w.bufs[i].value, held), n, block);
      World(h, w.bufs[i := Some(s)])
    case MoveConstruct(src) =>
      World(w.heap, w.bufs[src := Some(NullHandle())] + [w.bufs[src]])
    case MoveAssign(dst, src, held) =>
      if dst == src then w
      else
        World(HeapAfterWipe(w.heap, w.bufs[dst].value, held),
              w.bufs[dst := w.bufs[src]][src := Some(NullHandle())])
    case Release(i) =>
      World(HeapAfterRelease(w.heap, w.bufs[i].value), w.bufs[i := Some(NullHandle())])
    case Destroy(i, held) =>
      World(HeapAfterWipe(w.heap, w.bufs[i].value, held), w.bufs[i := None])
  }

  /** A buffer owns nothing and says so, or owns a live block of exactly its size. */
  ghost predicate HandleOk<B>(h: Heap<B>, s: Handle<B>) {
    match s.data
    case None => s.size == 0
    case Some(b) => b in h.live && h.live[b] == s.size && s.size > 0
  }

  ghost predicate Owns<B>(w: World<B>, b: B, i: nat) {
    Alive(w, i) && w.bufs[i].value.data == Some(b)
  }

  /** The three fates of a block exclude one another, and no block is freed twice. */
  ghost predicate FatesExclusive<B>(h: Heap<B>) {
    && h.live.Keys !! h.released
    && h.live.Keys !! FreedBlocks(h)
    && h.released !! FreedBlocks(h)
    && forall i, j | 0 <= i < j < |h.freed| :: h.freed[i].block != h.freed[j].block
  }

  /** No buffer is confused about what it owns, and no block has two owners. */
  ghost predicate HandlesOk<B>(w: World<B>) {
    && (forall i: nat | Alive(w, i) :: HandleOk(w.heap, w.bufs[i].value))
    && (forall i: nat, j: nat | Alive(w, i) && Alive(w, j) && i != j && w.bufs[i].value.data.Some? ::
          w.bufs[i].value.data != w.bufs[j].value.data)
  }

  /** Every live block has an owner among the living buffers. */
  ghost predicate AllOwned<B>(w: World<B>) {
    forall b | b in w.heap.live :: exists i: nat :: Owns(w, b, i)
  }

  ghost predicate Ownership<B>(w: World<B>) {
    HandlesOk(w) && AllOwned(w)
  }

  ghost predicate Inv<B>(w: World<B>) {
    Ownership(w) && FatesExclusive(w.heap) && AllWiped(w.heap)
  }

  function Start<B>(): World<B> {
    World(Heap(map[], {}, []), [])
  }

  lemma StartInv<B>()
    ensures Inv(Start<B>()) && Known(Start<B>().heap) == {}
  {
  }

  lemma FreeKeepsFates<B>(h: Heap<B>, b: B, image: Bytes)
    requires FatesExclusive(h) && AllWiped(h) && b in h.live && AllZero(image)
    ensures FatesExclusive(Free(h, b, image)) && AllWiped(Free(h, b, image))
    ensures Known(Free(h, b, image)) == Known(h)
  {
    var h' := Free(h, b, image);
    assert h'.freed[|h.freed|] == Freed(b, image);
    assert FreedBlocks(h') == FreedBlocks(h) + {b} by {
      forall x | x in FreedBlocks(h) ensures x in FreedBlocks(h') {
        var f :| f in h.freed && f.block == x;
        assert f in h'.freed;
      }
    }
    forall i, j | 0 <= i < j < |h'.freed| ensures h'.freed[i].block != h'.freed[j].block {
      if j == |h.freed| {
        assert h.freed[i].block in FreedBlocks(h);
      }
    }
  }

  lemma WipeKeepsFates<B>(h: Heap<B>, s: Handle<B>, held: Bytes)
    requires FatesExclusive(h) && AllWiped(h) && HandleOk(h, s)
    requires s.data.Some? ==> |held| == h.live[s.data.value]
    ensures FatesExclusive(HeapAfterWipe(h, s, held)) && AllWiped(HeapAfterWipe(h, s, held))
    ensures Known(HeapAfterWipe(h, s, held)) == Known(h)
  {
    if s.data.Some? {
      FreeKeepsFates(h, s.data.value, Wiped(held, s.size));
    }
  }

  lemma AcquireKeepsFates<B>(h: Heap<B>, n: nat, block: Option<B>)
    requires FatesExclusive(h) && AllWiped(h) && FreshBlock(h, block)
    ensures FatesExclusive(Acquire(h, n, block).0) && AllWiped(Acquire(h, n, block).0)
    ensures HandleOk(Acquire(h, n, block).0, Acquire(h, n, block).1)
  {
  }

  lemma ReleaseKeepsFates<B>(h: Heap<B>, s: Handle<B>)
    requires FatesExclusive(h) && HandleOk(h, s)
    ensures FatesExclusive(HeapAfterRelease(h, s))
    ensures Known(HeapAfterRelease(h, s)) == Known(h)
  {
  }

  /** The blocks the allocator granted during an operation. */
  ghost function Granted<B>(op: Op<B>): set<B> {
    match op
    case Construct(n, Some(b)) => if n > 0 then {b} else {}
    case Reset(_, n, Some(b), _) => if n > 0 then {b} else {}
    case _ => {}
  }

  lemma AcquireKeepsHandles<B>(w: World<B>, i: nat, h: Heap<B>, n: nat, block: Option<B>, w': World<B>)
    requires HandlesOk(w) && i <= |w.bufs| && FreshBlock(w.heap, block) && FreshBlock(h, block)
    requires forall j: nat | Alive(w, j) && j != i :: HandleOk(h, w.bufs[j].value)
    requires w'.heap == Acquire(h, n, block).0
    requires |w'.bufs| >= |w.bufs| && i < |w'.bufs| && w'.bufs[i] == Some(Acquire(h, n, block).1)
    requires forall j: nat | j < |w'.bufs| && j != i :: j < |w.bufs| && w'.bufs[j] == w.bufs[j]
    ensures HandlesOk(w')
  {
  }

  lemma MoveKeepsHandles<B>(w: World<B>, src: nat, dst: nat, w': World<B>)
    requires HandlesOk(w) && Alive(w, src) && src != dst
    requires |w.bufs| <= |w'.bufs| && dst < |w'.bufs|
    requires w'.bufs[src] == Some(NullHandle()) && w'.bufs[dst] == w.bufs[src]
    requires forall j: nat | j < |w'.bufs| && j != src && j != dst :: j < |w.bufs| && w'.bufs[j] == w.bufs[j]
    requires forall j: nat | Alive(w, j) && j != dst :: HandleOk(w'.heap, w.bufs[j].value)
    ensures HandlesOk(w')
  {
  }

  lemma LossKeepsHandles<B>(w: World<B>, i: nat, w': World<B>)
    requires HandlesOk(w) && Alive(w, i)
    requires w'.bufs == w.bufs[i := None] || w'.bufs == w.bufs[i := Some(NullHandle())]
    requires forall j: nat | Alive(w, j) && j != i :: HandleOk(w'.heap, w.bufs[j].value)
    ensures HandlesOk(w')
  {
  }

  lemma OthersKeepTheirBlock<B>(w: World<B>, i: nat, held: Bytes)
    requires HandlesOk(w) && Alive(w, i)
    ensures forall j: nat | Alive(w, j) && j != i ::
      && HandleOk(HeapAfterWipe(w.heap, w.bufs[i].value, held), w.bufs[j].value)
      && HandleOk(HeapAfterRelease(w.heap, w.bufs[i].value), w.bufs[j].value)
  {
  }

  lemma StepKeepsHandles<B>(w: World<B>, op: Op<B>)
    requires HandlesOk(w) && FatesExclusive(w.heap) && AllWiped(w.heap) && Enabled(w, op)
    ensures HandlesOk(Step(w, op))
  {
    match op
    case Construct(n, block) =>
      AcquireKeepsHandles(w, |w.bufs|, w.heap, n, block, Step(w, op));
    case Reset(i, n, block, held) =>
      OthersKeepTheirBlock(w, i, held);
      WipeKeepsFates(w.heap, w.bufs[i].value, held);
      AcquireKeepsHandles(w, i, HeapAfterWipe(w.heap, w.bufs[i].value, held), n, block, Step(w, op));
    case MoveConstruct(src) =>
      MoveKeepsHandles(w, src, |w.bufs|, Step(w, op));
    case MoveAssign(dst, src, held) =>
      if dst != src {
        OthersKeepTheirBlock(w, dst, held);
        MoveKeepsHandles(w, src, dst, Step(w, op));
      }
    case Release(i) =>
      OthersKeepTheirBlock(w, i, []);
      LossKeepsHandles(w, i, Step(w, op));
    case Destroy(i, held) =>
      OthersKeepTheirBlock(w, i, held);
      LossKeepsHandles(w, i, Step(w, op));
  }

  /** The buffer that owns after `op` what buffer i owned before. */
  ghost function Heir<B>(w: World<B>, op: Op<B>, i: nat): nat {
    match op
    case MoveConstruct(src) => if i == src then |w.bufs| else i
    case MoveAssign(dst, src, _) => if i == src then dst else i
    case _ => i
  }

  lemma HeirOwns<B>(w: World<B>, op: Op<B>, b: B, i: nat)
    requires HandlesOk(w) && Enabled(w, op) && Owns(w, b, i)
    requires b in Step(w, op).heap.live && b !in Granted(op)
    ensures Owns(Step(w, op), b, Heir(w, op, i))
  {
  }

  lemma StepKeepsOwned<B>(w: World<B>, op: Op<B>)
    requires Ownership(w) && Enabled(w, op)
    ensures AllOwned(Step(w, op))
  {
    var w' := Step(w, op);
    forall b | b in w'.heap.live ensures exists j: nat :: Owns(w', b, j) {
      if b in Granted(op) {
        assert Owns(w', b, if op.Reset? then op.i else |w.bufs|);
      } else {
        var i: nat :| Owns(w, b, i);
        HeirOwns(w, op, b, i);
      }
    }
  }

  lemma StepKeepsFates<B>(w: World<B>, op: Op<B>)
    requires HandlesOk(w) && FatesExclusive(w.heap) && AllWiped(w.heap) && Enabled(w, op)
    ensures FatesExclusive(Step(w, op).heap) && AllWiped(Step(w, op).heap)
    ensures Known(Step(w, op).heap) == Known(w.heap) + Granted(op)
  {
    match op {
      case Construct(n, block) =>
        AcquireKeepsFates(w.heap, n, block);
      case Reset(i, n, block, held) =>
        WipeKeepsFates(w.heap, w.bufs[i].value, held);
        AcquireKeepsFates(HeapAfterWipe(w.heap, w.bufs[i].value, held), n, block);
      case MoveConstruct(_) =>
      case MoveAssign(dst, src, held) =>
        WipeKeepsFates(w.heap, w.bufs[dst].value, held);
      case Release(i) =>
        ReleaseKeepsFates(w.heap, w.bufs[i].value);
      case Destroy(i, held) =>
        WipeKeepsFates(w.heap, w.bufs[i].value, held);
    }
  }

  /** Every operation keeps the ownership invariant and loses track of no block. */
  lemma StepKeepsInv<B>(w: World<B>, op: Op<B>)
    requires Inv(w) && Enabled(w, op)
    ensures Inv(Step(w, op))
    ensures Known(Step(w, op).heap) == Known(w.heap) + Granted(op)
  {
    StepKeepsHandles(w, op);
    StepKeepsOwned(w, op);
    StepKeepsFates(w, op);
  }

  ghost predicate CanRun<B>(w: World<B>, ops: seq<Op<B>>)
    decreases |ops|
  {
    ops == [] || (Enabled(w, ops[0]) && CanRun(Step(w, ops[0]), ops[1..]))
  }

  ghost function Run<B>(w: World<B>, ops: seq<Op<B>>): World<B>
    requires CanRun(w, ops)
    decreases |ops|
  {
    if ops == [] then w else Run(Step(w, ops[0]), ops[1..])
  }

  ghost function GrantedIn<B>(ops: seq<Op<B>>): set<B> {
    if ops == [] then {} else Granted(ops[0]) + GrantedIn(ops[1..])
  }

  lemma {:induction false} RunThenStep<B>(w: World<B>, ops: seq<Op<B>>, op: Op<B>)
    requires CanRun(w, ops) && Enabled(Run(w, ops), op)
    ensures CanRun(w, ops + [op]) && Run(w, ops + [op]) == Step(Run(w, ops), op)
    decreases |ops|
  {
    if ops == [] {
      assert [] + [op] == [op] && [op][1..] == [];
    } else {
      RunThenStep(Step(w, ops[0]), ops[1..], op);
      assert (ops + [op])[1..] == ops[1..] + [op];
    }
  }

  /** Over every run: each live block has one living owner, each block ever
      granted is live, released or freed, and each freed one was freed once,
      with every byte wiped. */
  lemma {:induction false} RunKeepsInv<B>(w: World<B>, ops: seq<Op<B>>)
    requires Inv(w) && CanRun(w, ops)
    ensures Inv(Run(w, ops))
    ensures Known(Run(w, ops).heap) == Known(w.heap) + GrantedIn(ops)
    decreases |ops|
  {
    if ops != [] {
      StepKeepsInv(w, ops[0]);
      RunKeepsInv(Step(w, ops[0]), ops[1..]);
    }
  }

  /** The operation moves what buffer `src` owns into buffer `dst`. */
  ghost predicate Moves<B>(w: World<B>, op: Op<B>, src: nat, dst: nat) {
    match op
    case MoveConstruct(s) => s == src && dst == |w.bufs|
    case MoveAssign(d, s, _) => s == src && d == dst && src != dst
    case _ => false
  }

  /** One living owner, or released, or freed once and wiped: one of the three. */
  ghost predicate OneFate<B>(w: World<B>, b: B) {
    var h := w.heap;
    && (b in h.live || b in h.released || b in FreedBlocks(h))
    && (b in h.live ==> b !in h.released && b !in FreedBlocks(h))
    && (b in h.released ==> b !in FreedBlocks(h))
    && (b in h.live <==> exists i: nat :: Owns(w, b, i))
    && (forall i: nat, j: nat | Owns(w, b, i) && Owns(w, b, j) :: i == j)
    && (forall i, j | 0 <= i < j < |h.freed| && h.freed[i].block == b :: h.freed[j].block != b)
    && (forall f | f in h.freed && f.block == b :: AllZero(f.image))
  }

  lemma KnownHasOneFate<B>(w: World<B>, b: B)
    requires Inv(w) && b in Known(w.heap)
    ensures OneFate(w, b)
  {
    forall i: nat | Owns(w, b, i) ensures b in w.heap.live {
      assert HandleOk(w.heap, w.bufs[i].value);
    }
  }

  /** Ownership across a move, by construction or assignment, anywhere in a run:
      the source is left with nothing, its block has the destination for its only
      owner, what the destination held before is freed, and however the run goes
      on the block comes to exactly one end. */
  lemma MoveTransfersOwnership<B>(ops: seq<Op<B>>, op: Op<B>, later: seq<Op<B>>, src: nat, dst: nat, b: B)
    requires CanRun(Start<B>(), ops)
    requires var w := Run(Start<B>(), ops);
      Enabled(w, op) && Moves(w, op, src, dst) && Owns(w, b, src) && CanRun(Step(w, op), later)
    ensures var w := Run(Start<B>(), ops);
      var w' := Step(w, op);
      && (forall c :: !Owns(w', c, src))
      && (forall i: nat :: Owns(w', b, i) <==> i == dst)
      && (forall c | Owns(w, c, dst) :: c in FreedBlocks(w'.heap))
      && OneFate(Run(w', later), b)
  {
    hide Inv, Run, CanRun;
    StartInv<B>();
    RunKeepsInv(Start<B>(), ops);
    var w := Run(Start<B>(), ops);
    MoveStep(w, op, src, dst, b);
    RunKeepsInv(Step(w, op), later);
    KnownHasOneFate(Run(Step(w, op), later), b);
  }

  lemma MoveStep<B>(w: World<B>, op: Op<B>, src: nat, dst: nat, b: B)
    requires Inv(w) && Enabled(w, op) && Moves(w, op, src, dst) && Owns(w, b, src)
    ensures Inv(Step(w, op)) && b in Known(Step(w, op).heap)
    ensures var w' := Step(w, op);
      && (forall c :: !Owns(w', c, src))
      && (forall i: nat :: Owns(w', b, i) <==> i == dst)
      && (forall c | Owns(w, c, dst) :: c in FreedBlocks(w'.heap))
  {
    hide FatesExclusive, AllWiped;
    StepKeepsInv(w, op);
    assert HandleOk(w.heap, w.bufs[src].value);
    var w' := Step(w, op);
    assert Owns(w', b, dst);
    forall c | Owns(w, c, dst) ensures c in FreedBlocks(w'.heap) {
      assert w'.heap.freed[|w.heap.freed|].block == c;
    }
  }

  /** When the last buffer is gone nothing has leaked: whatever the run was
      granted was released to a caller or freed wiped. */
  lemma NoLeak<B>(ops: seq<Op<B>>)
    requires CanRun(Start<B>(), ops)
    requires forall i: nat :: !Alive(Run(Start<B>(), ops), i)
    ensures var h := Run(Start<B>(), ops).heap;
      && h.live == map[]
      && h.released + FreedBlocks(h) == GrantedIn(ops)
      && AllWiped(h)
  {
    StartInv<B>();
    RunKeepsInv(Start<B>(), ops);
    var w := Run(Start<B>(), ops);
    assert forall b | b in w.heap.live :: !exists i: nat :: Owns(w, b, i);
    assert w.heap.live.Keys == {};
  }

  // ---- The class ----

  /** What a run of the library did, as far as the claims about it need. */
  datatype Event =
    | Alloc(size: nat, granted: bool)
    | Opened(payload: Bytes)      // the AEAD accepted a chunk and yielded this payload
    | Rejected                    // the AEAD refused a chunk
    | Inflating(stream: Bytes)    // the bytes handed to inflate
    | Fault(status: Status)       // a library primitive failed, which is reported as this status

  /** The allocator and the ghost record of a run. */
  class Machine {
    const sizeMax: nat  // SIZE_MAX of the host
    ghost var heap: Heap<array<byte>>
    ghost var trace: seq<Event>

    constructor (sizeMax: nat)
      ensures this.sizeMax == sizeMax && heap == Heap(map[], {}, []) && trace == []
    {
      this.sizeMax := sizeMax;
      heap := Heap(map[], {}, []);
      trace := [];
    }

    /** new (std::nothrow) uint8_t[size]() */
    method Allocate(size: nat) returns (block: array?<byte>)
      modifies this
      ensures block == null ==> heap == old(heap)
      ensures block != null ==> fresh(block) && block[..] == Zeros(size) && heap == Malloc(old(heap), block, size)
      ensures trace == old(trace) + [Alloc(size, block != null)]
    {
      var granted: bool := *;
      trace := trace + [Alloc(size, granted)];
      if !granted {
        return null;
      }
      block := new byte[size](_ => 0);
      heap := Malloc(heap, block, size);
      assert block[..] == Zeros(size);
    }

    /** delete[] block */
    method Deallocate(block: array<byte>)
      modifies this
      ensures heap == Free(old(heap), block, block[..])
      ensures trace == old(trace)
    {
      heap := Free(heap, block, block[..]);
    }
  }

  /** SecureWipe: zero the first `size` bytes at `block + off`. */
  method SecureWipe(block: array?<byte>, off: nat, size: nat)
    requires block != null ==> off + size <= block.Length
    modifies block
    ensures block != null ==> Wrote(old(block[..]), block[..], off, Zeros(size))
  {
    if block == null || size == 0 {
      return;
    }
    Fill(block, off, size);
  }

  class SecureBuffer {
    var data: array?<byte>
    var size: nat

    ghost function AsHandle(): Handle<array<byte>>
      reads this
    {
      Handle(if data == null then None else Some(data), size)
    }

    ghost function Contents(): Bytes
      reads this, data
    {
      if data == null then [] else data[..]
    }

    /** The class invariant: size_ is the length of the block. */
    ghost predicate Valid()
      reads this
    {
      if data == null then size == 0 else size == data.Length && size > 0
    }

    constructor ()
      ensures Valid() && data == null
    {
      data, size := null, 0;
    }

    /** Move construction. */
    constructor From(other: SecureBuffer)
      requires other.Valid()
      modifies other
      ensures Valid() && other.Valid()
      ensures AsHandle() == old(other.AsHandle()) && other.AsHandle() == NullHandle()
    {
      data, size := other.data, other.size;
      new;
      other.data, other.size := null, 0;
    }

    /** WipeAndFree; also the destructor. */
    method WipeAndFree(m: Machine)
      requires Valid()
      modifies this, m, data
      ensures Valid() && AsHandle() == NullHandle()
      ensures m.heap == HeapAfterWipe(old(m.heap), old(AsHandle()), old(Contents()))
      ensures m.trace == old(m.trace)
      ensures AllWiped(old(m.heap)) ==> AllWiped(m.heap)
      ensures m.heap.live.Keys == old(m.heap.live).Keys - (if old(data) == null then {} else {old(data)})
    {
      if data == null {
        return;
      }
      SecureWipe(data, 0, size);
      assert data[..] == data[0..data.Length] == Wiped(old(data[..]), size);
      m.Deallocate(data);
      data, size := null, 0;
    }

    method Reset(m: Machine, n: nat) returns (ok: bool)
      requires Valid()
      modifies this, m, data
      ensures Valid()
      ensures ok <==> size == n
      ensures data != null ==> fresh(data) && data[..] == Zeros(n)
      ensures var h := HeapAfterWipe(old(m.heap), old(AsHandle()), old(Contents()));
              (m.heap, AsHandle(), ok) == Acquire(h, n, AsHandle().data)
      ensures m.trace == old(m.trace) + if n == 0 then [] else [Alloc(n, ok)]
      ensures !ok ==> Blamed(m.trace, MEMORY)
      ensures AllWiped(old(m.heap)) ==> AllWiped(m.heap)
      ensures m.heap.live.Keys == old(m.heap.live).Keys - (if old(data) == null then {} else {old(data)})
                                + (if data == null then {} else {data})
    {
      WipeAndFree(m);
      if n == 0 {
        return true;
      }
      data := m.Allocate(n);
      if data == null {
        return false;
      }
      size := n;
      return true;
    }

    /** Move assignment. */
    method MoveFrom(m: Machine, other: SecureBuffer)
      requires Valid() && other.Valid()
      requires this != other && data != null ==> other.data != data
      modifies this, other, m, data
      ensures Valid() && other.Valid()
      ensures this == other ==> AsHandle() == old(AsHandle()) && m.heap == old(m.heap)
      ensures this != other ==> AsHandle() == old(other.AsHandle()) && other.AsHandle() == NullHandle()
      ensures this != other ==> m.heap == HeapAfterWipe(old(m.heap), old(AsHandle()), old(Contents()))
      ensures Contents() == old(other.Contents())
      ensures m.trace == old(m.trace)
      ensures AllWiped(old(m.heap)) ==> AllWiped(m.heap)
      ensures this != other ==> m.heap.live.Keys == old(m.heap.live).Keys - (if old(data) == null then {} else {old(data)})
    {
      if this != other {
        WipeAndFree(m);
        data := other.data;
        size := other.size;
        other.data, other.size := null, 0;
      }
    }

    /** Release: the caller now owns the block and the duty to wipe it. */
    method Release(m: Machine) returns (released: array?<byte>)
      requires Valid()
      modifies this, m
      ensures Valid() && AsHandle() == NullHandle()
      ensures released == old(data)
      ensures m.heap == HeapAfterRelease(old(m.heap), old(AsHandle())) && m.trace == old(m.trace)
    {
      released := data;
      m.heap := HeapAfterRelease(m.heap, AsHandle());
      data, size := null, 0;
    }
  }

  /** The status a failure of the machine has to be reported as: a refused
      allocation, or a library primitive that failed. */
  function Blame(e: Event): Option<Status> {
    match e
    case Alloc(_, granted) => if granted then None else Some(MEMORY)
    case Fault(status) => Some(status)
    case _ => None
  }

  ghost predicate Clean(trace: seq<Event>) {
    forall e | e in trace :: Blame(e) == None
  }

  /** The last thing that happened is a failure of the machine, and `rc` is its status. */
  ghost predicate Blamed(trace: seq<Event>, rc: Status) {
    trace != [] && Blame(trace[|trace| - 1]) == Some(rc)
  }

  lemma CleanIsNotBlamed(trace: seq<Event>)
    ensures Clean(trace) ==> forall rc :: !Blamed(trace, rc)
  {
    if trace != [] {
      assert trace[|trace| - 1] in trace;
    }
  }

  /** A size_t the caller owns. */
  class SizeCell {
    var value: nat

    constructor ()
      ensures value == 0
    {
      value := 0;
    }
  }

  ghost function Data(b: SecureBuffer): set<array<byte>>
    reads b
  {
    if b.data == null then {} else {b.data}
  }

  /** Two buffers are different objects and share no block. */
  ghost predicate Apart(a: SecureBuffer, b: SecureBuffer)
    reads a, b
  {
    a != b && (a.data != null ==> a.data != b.data)
  }

  /** The blocks in use. */
  ghost function Live(m: Machine): set<array<byte>>
    reads m`heap
  {
    m.heap.live.Keys
  }

  /** A valid buffer whose block is all that is live besides `base`. */
  ghost predicate Holds1(m: Machine, base: set<array<byte>>, a: SecureBuffer)
    reads m`heap, a
  {
    a.Valid() && base !! Data(a) && Live(m) == base + Data(a) && AllWiped(m.heap)
  }

  /** Three valid, separate buffers, and their blocks are all that is live
      besides `base`. */
  ghost predicate Holds3(m: Machine, base: set<array<byte>>, a: SecureBuffer, b: SecureBuffer, c: SecureBuffer)
    reads m`heap, a, b, c
  {
    && a.Valid() && b.Valid() && c.Valid()
    && Apart(a, b) && Apart(a, c) && Apart(b, c)
    && base !! Data(a) + Data(b) + Data(c)
    && Live(m) == base + Data(a) + Data(b) + Data(c)
    && AllWiped(m.heap)
  }

  /** Reset of an empty buffer beside two others. */
  method Obtain(m: Machine, ghost base: set<array<byte>>, a: SecureBuffer, b: SecureBuffer, c: SecureBuffer, n: nat)
    returns (ok: bool)
    requires Holds3(m, base, a, b, c) && a.data == null
    modifies m, a
    ensures Holds3(m, base, a, b, c)
    ensures ok <==> a.size == n
    ensures a.data != null ==> fresh(a.data) && a.data.Length == n && a.data[..] == Zeros(n)
    ensures ok && n > 0 ==> a.data != null
    ensures m.trace == old(m.trace) + if n == 0 then [] else [Alloc(n, ok)]
    ensures !ok ==> Blamed(m.trace, MEMORY)
  {
    hide Acquire, HeapAfterWipe, AllWiped;
    ok := a.Reset(m, n);
  }

  /** The destructor of b, counted in `base` while a was worked on. */
  method EndOne(m: Machine, ghost base: set<array<byte>>, a: SecureBuffer, b: SecureBuffer)
    requires b.Valid() && a != b && base !! Data(b)
    requires Holds1(m, base + Data(b), a)
    modifies m, b, b.data
    ensures Holds1(m, base, a) && m.trace == old(m.trace)
  {
    b.WipeAndFree(m);
  }

  /** Reset of an empty buffer. */
  method ObtainOnly(m: Machine, ghost base: set<array<byte>>, a: SecureBuffer, n: nat)
    returns (ok: bool)
    requires Holds1(m, base, a) && a.data == null
    modifies m, a
    ensures Holds1(m, base, a)
    ensures ok <==> a.size == n
    ensures a.data != null ==> fresh(a.data) && a.data.Length == n && a.data[..] == Zeros(n)
    ensures ok && n > 0 ==> a.data != null
    ensures m.trace == old(m.trace) + if n == 0 then [] else [Alloc(n, ok)]
    ensures !ok ==> Blamed(m.trace, MEMORY)
  {
    hide Acquire, HeapAfterWipe, AllWiped;
    ok := a.Reset(m, n);
  }

  /** The destructor of a buffer that goes out of scope. */
  method EndScope(m: Machine, ghost base: set<array<byte>>, a: SecureBuffer)
    requires Holds1(m, base, a)
    modifies m, a, a.data
    ensures Live(m) == base && AllWiped(m.heap) && m.trace == old(m.trace)
  {
    a.WipeAndFree(m);
  }

  /** The destructors of b and c, when a outlives them. */
  method EndInnerScope(m: Machine, ghost base: set<array<byte>>, a: SecureBuffer, b: SecureBuffer, c: SecureBuffer)
    requires Holds3(m, base, a, b, c)
    modifies m, b, c, b.data, c.data
    ensures Holds1(m, base, a) && m.trace == old(m.trace)
  {
    c.WipeAndFree(m);
    b.WipeAndFree(m);
  }

  /** `*out = std::move(a)` at the end of a successful call, and the end of a's scope. */
  method HandOver(m: Machine, ghost base: set<array<byte>>, out: SecureBuffer, a: SecureBuffer)
    requires Holds1(m, base, a) && out.Valid() && out != a && Data(out) <= base
    modifies m, out, a, out.data
    ensures Live(m) == base - old(Data(out)) + Data(out) && AllWiped(m.heap)
    ensures out.Valid() && out.AsHandle() == old(a.AsHandle()) && out.Contents() == old(a.Contents())
    ensures m.trace == old(m.trace)
  {
    out.MoveFrom(m, a);
    a.WipeAndFree(m);
  }

  // ---- Commands on real buffers ----

  /** What a client of the class can ask for; buffers are numbered in the order
      they were made. */
  datatype Command =
    | Make(size: nat)
    | Resize(i: nat, size: nat)
    | MoveNew(src: nat)
    | MoveOver(dst: nat, src: nat)
    | GiveUp(i: nat)
    | End(i: nat)

  /** The operation a command turns into; the allocator's answer and the bytes
      the buffer held are for the run to say. */
  ghost predicate Becomes<B>(c: Command, op: Op<B>) {
    match c
    case Make(n) => op.Construct? && op.size == n
    case Resize(i, n) => op.Reset? && op.i == i && op.size == n
    case MoveNew(src) => op.MoveConstruct? && op.src == src
    case MoveOver(dst, src) => op.MoveAssign? && op.dst == dst && op.src == src
    case GiveUp(i) => op.Release? && op.i == i
    case End(i) => op.Destroy? && op.i == i
  }

  /** The buffers as the specification sees them. */
  ghost function Handles(bufs: seq<SecureBuffer?>): (hs: seq<Option<Handle<array<byte>>>>)
    reads bufs
    ensures |hs| == |bufs|
    ensures forall i | 0 <= i < |bufs| :: hs[i] == if bufs[i] == null then None else Some(bufs[i].AsHandle())
  {
    seq(|bufs|, i requires 0 <= i < |bufs| reads bufs => if bufs[i] == null then None else Some(bufs[i].AsHandle()))
  }

  ghost function WorldOf(m: Machine, bufs: seq<SecureBuffer?>): World<array<byte>>
    reads m, bufs
  {
    World(m.heap, Handles(bufs))
  }

  /** Different living buffers are different objects, valid, and keep the invariant. */
  ghost predicate Fleet(m: Machine, bufs: seq<SecureBuffer?>)
    reads m, bufs
  {
    && (forall i, j | 0 <= i < j < |bufs| && bufs[i] != null :: bufs[i] != bufs[j])
    && (forall i | 0 <= i < |bufs| && bufs[i] != null :: bufs[i].Valid())
    && Inv(WorldOf(m, bufs))
  }

  predicate Names(c: Command, bufs: seq<SecureBuffer?>) {
    match c
    case Make(_) => true
    case Resize(i, _) => i < |bufs| && bufs[i] != null
    case MoveNew(src) => src < |bufs| && bufs[src] != null
    case MoveOver(dst, src) => dst < |bufs| && bufs[dst] != null && src < |bufs| && bufs[src] != null
    case GiveUp(i) => i < |bufs| && bufs[i] != null
    case End(i) => i < |bufs| && bufs[i] != null
  }

  ghost function Blocks(bufs: seq<SecureBuffer?>): set<array?<byte>>
    reads bufs
  {
    set b | b in bufs && b != null :: b.data
  }

  /** Buffers that came from `bufs` or were made since, with blocks likewise. */
  twostate predicate Grown(bufs: seq<SecureBuffer?>, new after: seq<SecureBuffer?>)
    reads after
  {
    && (forall b | b in after && b != null :: b in bufs || fresh(b))
    && (forall b | b in after && b != null && b.data != null :: b.data in old(Blocks(bufs)) || fresh(b.data))
  }

  /** What an operation asks of the allocator, and what it is answered. */
  function Requests<B>(op: Op<B>): seq<Event> {
    match op
    case Construct(n, block) => if n == 0 then [] else [Alloc(n, block.Some?)]
    case Reset(_, n, block, _) => if n == 0 then [] else [Alloc(n, block.Some?)]
    case _ => []
  }

  function RequestsOf<B>(ops: seq<Op<B>>): seq<Event> {
    if ops == [] then [] else Requests(ops[0]) + RequestsOf(ops[1..])
  }

  lemma {:induction false} RequestsSnoc<B>(ops: seq<Op<B>>, op: Op<B>)
    ensures RequestsOf(ops + [op]) == RequestsOf(ops) + Requests(op)
  {
    if ops == [] {
      assert [] + [op] == [op] && [op][1..] == [];
    } else {
      RequestsSnoc(ops[1..], op);
      assert (ops + [op])[1..] == ops[1..] + [op];
    }
  }

  method MakeBuffer(m: Machine, bufs: seq<SecureBuffer?>, n: nat)
    returns (after: seq<SecureBuffer?>, ghost op: Op<array<byte>>)
    requires Fleet(m, bufs)
    modifies m
    ensures op.Construct? && op.size == n && Enabled(old(WorldOf(m, bufs)), op)
    ensures WorldOf(m, after) == Step(old(WorldOf(m, bufs)), op)
    ensures m.trace == old(m.trace) + if n == 0 then [] else [Alloc(n, op.block.Some?)]
    ensures Fleet(m, after) && Grown(bufs, after)
  {
    hide Inv, Acquire, AllWiped;
    ghost var before := WorldOf(m, bufs);
    var b := new SecureBuffer();
    var ok := b.Reset(m, n);
    after := bufs + [b];
    op := Construct(n, b.AsHandle().data);
    assert FreshBlock(before.heap, op.block);
    assert Handles(after) == before.bufs + [Some(b.AsHandle())];
    StepKeepsInv(before, op);
  }

  lemma FleetApart(m: Machine, bufs: seq<SecureBuffer?>, i: nat, j: nat)
    requires Fleet(m, bufs) && i < |bufs| && j < |bufs| && bufs[i] != null && bufs[j] != null
    ensures Alive(WorldOf(m, bufs), i) && Holds(WorldOf(m, bufs), i, bufs[i].Contents())
    ensures i != j ==> bufs[i] != bufs[j] && (bufs[i].data != null ==> bufs[i].data != bufs[j].data)
  {
    hide FatesExclusive, AllWiped;
    var w := WorldOf(m, bufs);
    assert Alive(w, i) && Alive(w, j);
    assert HandleOk(w.heap, w.bufs[i].value);
  }

  method ResizeBuffer(m: Machine, bufs: seq<SecureBuffer?>, i: nat, n: nat)
    returns (after: seq<SecureBuffer?>, ghost op: Op<array<byte>>)
    requires Fleet(m, bufs) && i < |bufs| && bufs[i] != null
    modifies m, bufs[i], bufs[i].data
    ensures op.Reset? && op.i == i && op.size == n && Enabled(old(WorldOf(m, bufs)), op)
    ensures WorldOf(m, after) == Step(old(WorldOf(m, bufs)), op)
    ensures m.trace == old(m.trace) + if n == 0 then [] else [Alloc(n, op.block.Some?)]
    ensures Fleet(m, after) && Grown(bufs, after)
  {
    hide Inv, Acquire, HeapAfterWipe, AllWiped, Holds;
    FleetApart(m, bufs, i, i);
    ghost var held := bufs[i].Contents();
    var ok := bufs[i].Reset(m, n);
    after := bufs;
    op := Op.Reset(i, n, bufs[i].AsHandle().data, held);
    StepKeepsInv(old(WorldOf(m, bufs)), op);
  }

  method MoveToNew(m: Machine, bufs: seq<SecureBuffer?>, src: nat)
    returns (after: seq<SecureBuffer?>, ghost op: Op<array<byte>>)
    requires Fleet(m, bufs) && src < |bufs| && bufs[src] != null
    modifies bufs[src]
    ensures op == MoveConstruct(src) && Enabled(old(WorldOf(m, bufs)), op)
    ensures WorldOf(m, after) == Step(old(WorldOf(m, bufs)), op)
    ensures Fleet(m, after) && Grown(bufs, after)
  {
    hide Inv;
    var b := new SecureBuffer.From(bufs[src]);
    after := bufs + [b];
    op := MoveConstruct(src);
    StepKeepsInv(old(WorldOf(m, bufs)), op);
  }

  method MoveBetween(m: Machine, bufs: seq<SecureBuffer?>, dst: nat, src: nat)
    returns (after: seq<SecureBuffer?>, ghost op: Op<array<byte>>)
    requires Fleet(m, bufs) && dst < |bufs| && bufs[dst] != null && src < |bufs| && bufs[src] != null
    modifies m, bufs[dst], bufs[src], bufs[dst].data
    ensures op.MoveAssign? && op.dst == dst && op.src == src && Enabled(old(WorldOf(m, bufs)), op)
    ensures WorldOf(m, after) == Step(old(WorldOf(m, bufs)), op)
    ensures Fleet(m, after) && Grown(bufs, after) && m.trace == old(m.trace)
  {
    hide Inv, HeapAfterWipe, AllWiped, Holds;
    FleetApart(m, bufs, dst, src);
    ghost var held := bufs[dst].Contents();
    bufs[dst].MoveFrom(m, bufs[src]);
    after := bufs;
    op := MoveAssign(dst, src, held);
    StepKeepsInv(old(WorldOf(m, bufs)), op);
  }

  method ReleaseBuffer(m: Machine, bufs: seq<SecureBuffer?>, i: nat)
    returns (after: seq<SecureBuffer?>, ghost op: Op<array<byte>>)
    requires Fleet(m, bufs) && i < |bufs| && bufs[i] != null
    modifies m, bufs[i]
    ensures op == Op.Release(i) && Enabled(old(WorldOf(m, bufs)), op)
    ensures WorldOf(m, after) == Step(old(WorldOf(m, bufs)), op)
    ensures Fleet(m, after) && Grown(bufs, after) && m.trace == old(m.trace)
  {
    hide Inv, HeapAfterRelease;
    var block := bufs[i].Release(m);
    after := bufs;
    op := Op.Release(i);
    StepKeepsInv(old(WorldOf(m, bufs)), op);
  }

  method EndBuffer(m: Machine, bufs: seq<SecureBuffer?>, i: nat)
    returns (after: seq<SecureBuffer?>, ghost op: Op<array<byte>>)
    requires Fleet(m, bufs) && i < |bufs| && bufs[i] != null
    modifies m, bufs[i], bufs[i].data
    ensures op.Destroy? && op.i == i && Enabled(old(WorldOf(m, bufs)), op)
    ensures WorldOf(m, after) == Step(old(WorldOf(m, bufs)), op)
    ensures Fleet(m, after) && Grown(bufs, after) && m.trace == old(m.trace)
  {
    hide Inv, HeapAfterWipe, AllWiped, Holds;
    FleetApart(m, bufs, i, i);
    ghost var held := bufs[i].Contents();
    bufs[i].WipeAndFree(m);
    after := bufs[i := null];
    op := Destroy(i, held);
    StepKeepsInv(old(WorldOf(m, bufs)), op);
  }

  /** One command, on the objects: exactly a step of the specification. */
  method Perform(m: Machine, bufs: seq<SecureBuffer?>, c: Command)
    returns (after: seq<SecureBuffer?>, ghost op: Op<array<byte>>)
    requires Fleet(m, bufs) && Names(c, bufs)
    modifies m, bufs, Blocks(bufs)
    ensures Becomes(c, op) && Enabled(old(WorldOf(m, bufs)), op)
    ensures WorldOf(m, after) == Step(old(WorldOf(m, bufs)), op)
    ensures Fleet(m, after) && Grown(bufs, after) && m.trace == old(m.trace) + Requests(op)
  {
    hide Fleet, Step, Enabled, WorldOf;
    match c
    case Make(n) => after, op := MakeBuffer(m, bufs, n);
    case Resize(i, n) => after, op := ResizeBuffer(m, bufs, i, n);
    case MoveNew(src) => after, op := MoveToNew(m, bufs, src);
    case MoveOver(dst, src) => after, op := MoveBetween(m, bufs, dst, src);
    case GiveUp(i) => after, op := ReleaseBuffer(m, bufs, i);
    case End(i) => after, op := EndBuffer(m, bufs, i);
  }

  /** Which buffers are alive once the command is done, given which were before. */
  function AliveAfter(alive: seq<bool>, c: Command): seq<bool> {
    match c
    case Make(_) => alive + [true]
    case MoveNew(_) => alive + [true]
    case End(i) => if i < |alive| then alive[i := false] else alive
    case _ => alive
  }

  /** Every command names buffers that are alive when its turn comes. */
  predicate Sound(alive: seq<bool>, commands: seq<Command>)
    decreases |commands|
  {
    commands == [] || (
    && (match commands[0]
        case Make(_) => true
        case Resize(i, _) => i < |alive| && alive[i]
        case MoveNew(src) => src < |alive| && alive[src]
        case MoveOver(dst, src) => dst < |alive| && alive[dst] && src < |alive| && alive[src]
        case GiveUp(i) => i < |alive| && alive[i]
        case End(i) => i < |alive| && alive[i])
    && Sound(AliveAfter(alive, commands[0]), commands[1..]))
  }

  /** Between two commands a client may leave any bytes whatever in its buffers. */
  method ClientWrites(bufs: seq<SecureBuffer?>)
    modifies Blocks(bufs)
  {
    for i := 0 to |bufs| {
      if bufs[i] != null && bufs[i].data != null {
        for j := 0 to bufs[i].data.Length {
          bufs[i].data[j] := *;
        }
      }
    }
  }

  ghost function Living<B>(w: World<B>): seq<bool> {
    seq(|w.bufs|, i requires 0 <= i < |w.bufs| => w.bufs[i].Some?)
  }

  lemma StepLiving<B>(w: World<B>, op: Op<B>, c: Command)
    requires Enabled(w, op) && Becomes(c, op)
    ensures Living(Step(w, op)) == AliveAfter(Living(w), c)
  {
  }

  /** The buffers stand where the operations lead. */
  ghost predicate Follows(m: Machine, bufs: seq<SecureBuffer?>, ops: seq<Op<array<byte>>>)
    reads m, bufs
  {
    CanRun(Start(), ops) && WorldOf(m, bufs) == Run(Start(), ops) && Fleet(m, bufs)
  }

  /** What a client writes, and then one command. */
  method PerformNext(m: Machine, bufs: seq<SecureBuffer?>, ghost ops: seq<Op<array<byte>>>, commands: seq<Command>)
    returns (after: seq<SecureBuffer?>, ghost op: Op<array<byte>>)
    requires Follows(m, bufs, ops) && commands != [] && Sound(Living(WorldOf(m, bufs)), commands)
    modifies m, bufs, Blocks(bufs)
    ensures Becomes(commands[0], op) && Follows(m, after, ops + [op]) && Grown(bufs, after)
    ensures m.trace == old(m.trace) + Requests(op)
    ensures Sound(Living(WorldOf(m, after)), commands[1..])
  {
    hide Step, Enabled, Run, CanRun, Inv;
    ClientWrites(bufs);
    after, op := Perform(m, bufs, commands[0]);
    RunThenStep(Start(), ops, op);
    StepLiving(old(WorldOf(m, bufs)), op, commands[0]);
  }

  /** Any sequence of commands, on real buffers and from an empty heap, is a run
      of the specification, command by command, and the allocator is asked exactly
      what the operations say; when no buffer is left behind, nothing has leaked
      and nothing was freed unwiped. */
  method PerformAll(m: Machine, commands: seq<Command>)
    returns (bufs: seq<SecureBuffer?>, ghost ops: seq<Op<array<byte>>>)
    requires Sound([], commands) && m.heap == Heap(map[], {}, [])
    modifies m
    ensures |ops| == |commands| && forall k | 0 <= k < |ops| :: Becomes(commands[k], ops[k])
    ensures Follows(m, bufs, ops) && m.trace == old(m.trace) + RequestsOf(ops)
    ensures (forall b | b in bufs :: b == null) ==>
      m.heap.live == map[] && m.heap.released + FreedBlocks(m.heap) == GrantedIn(ops) && AllWiped(m.heap)
  {
    hide Sound, Living, WorldOf, Becomes, FreedBlocks, GrantedIn, AllWiped;
    bufs, ops := [], [];
    NothingYet(m);
    assert commands[0..] == commands;
    for k := 0 to |commands|
      invariant |ops| == k && forall n | 0 <= n < k :: Becomes(commands[n], ops[n])
      invariant m.trace == old(m.trace) + RequestsOf(ops)
      invariant Follows(m, bufs, ops) && Sound(Living(WorldOf(m, bufs)), commands[k..])
      invariant forall b | b in bufs && b != null :: fresh(b) && (b.data != null ==> fresh(b.data))
    {
      ghost var op;
      bufs, op := PerformNext(m, bufs, ops, commands[k..]);
      assert commands[k..][1..] == commands[k + 1..];
      RequestsSnoc(ops, op);
      ops := ops + [op];
    }
    if forall b | b in bufs :: b == null {
      NothingLeft(m, bufs, ops);
    }
  }

  lemma NothingYet(m: Machine)
    requires m.heap == Heap(map[], {}, [])
    ensures Follows(m, [], []) && Living(WorldOf(m, [])) == []
  {
    StartInv<array<byte>>();
    RunNothing(Start<array<byte>>());
  }

  lemma NothingLeft(m: Machine, bufs: seq<SecureBuffer?>, ops: seq<Op<array<byte>>>)
    requires Follows(m, bufs, ops) && forall b | b in bufs :: b == null
    ensures m.heap.live == map[] && m.heap.released + FreedBlocks(m.heap) == GrantedIn(ops) && AllWiped(m.heap)
  {
    hide Run, CanRun, Inv;
    forall i: nat ensures !Alive(WorldOf(m, bufs), i) {
      if i < |bufs| {
        assert bufs[i] in bufs;
      }
    }
    NoLeak(ops);
  }

  lemma RunNothing<B>(w: World<B>)
    ensures CanRun(w, []) && Run(w, []) == w
  {
  }
}
