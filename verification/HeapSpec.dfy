/** What the kernel heap does to its list of blocks, as functions on values.
  * A block is a 24-byte header followed by its payload; the list order is the order of the `next` links. */
module HeapSpec {
  import opened Machine

  const HEADER_SIZE: nat := 24
  const MAX_ALLOWED: nat := PAGE_2M_SIZE - HEADER_SIZE - 128

  datatype Block = Block(addr: nat, size: nat, free: bool) {
    function Payload(): nat { addr + HEADER_SIZE }
    function End(): nat { addr + HEADER_SIZE + size }
  }

  /** The heap: the header list, the 2 MiB frames of the machine in the order the page list hands them out,
    * how many of them are taken, the address range `free` accepts, and the two running totals. */
  datatype Heap = Heap(blocks: seq<Block>, pool: seq<nat>, taken: nat, lo: nat, hi: nat,
                       totalAllocated: nat, totalFreed: nat)

  function Rounded(n: nat): nat {
    (n + 7) / 8 * 8
  }

  // ---- malloc ----

  predicate Fits(b: Block, r: nat) {
    b.free && b.size >= r + HEADER_SIZE
  }

  /** Index of the first block that fits, or |bs|. */
  function FirstFit(bs: seq<Block>, r: nat): (k: nat)
    ensures k <= |bs|
    ensures k < |bs| ==> Fits(bs[k], r)
    ensures forall i :: 0 <= i < k ==> !Fits(bs[i], r)
  {
    if bs == [] then 0
    else if Fits(bs[0], r) then 0
    else 1 + FirstFit(bs[1..], r)
  }

  predicate Splits(b: Block, r: nat) {
    b.size > r + HEADER_SIZE + HEADER_SIZE + 8
  }

  /** The block or blocks that replace `b` once `r` bytes of it are handed out. */
  function Carve(b: Block, r: nat): seq<Block>
    requires b.size >= r + HEADER_SIZE
  {
    if Splits(b, r) then
      [Block(b.addr, r, false), Block(b.addr + r + HEADER_SIZE, b.size - (r + HEADER_SIZE), true)]
    else
      [b.(free := false)]
  }

  function Replace(bs: seq<Block>, k: nat, width: nat, cs: seq<Block>): seq<Block>
    requires k + width <= |bs|
  {
    bs[..k] + cs + bs[k + width..]
  }

  function Fresh(frame: nat): Block {
    Block(PhyToVirt(frame), PAGE_2M_SIZE - HEADER_SIZE, true)
  }

  /** `malloc(n)`: the new heap and the pointer returned, 0 for NULL. */
  function Malloc(h: Heap, n: nat): (Heap, nat) {
    if n == 0 || n > MAX_ALLOWED then (h, 0)
    else
      var r := Rounded(n);
      var k := FirstFit(h.blocks, r);
      if k < |h.blocks| then
        (h.(blocks := Replace(h.blocks, k, 1, Carve(h.blocks[k], r)), totalAllocated := h.totalAllocated + r),
         h.blocks[k].Payload())
      else if h.taken >= |h.pool| then (h, 0)
      else
        var b := Fresh(h.pool[h.taken]);
        (h.(blocks := h.blocks + Carve(b, r), taken := h.taken + 1, totalAllocated := h.totalAllocated + r),
         b.Payload())
  }

  // ---- free ----

  function Merge(a: Block, b: Block): Block {
    Block(a.addr, a.size + HEADER_SIZE + b.size, true)
  }

  /** One pass from the head of the list that merges every run of neighbouring free blocks. */
  function Coalesce(bs: seq<Block>): seq<Block>
    decreases |bs|
  {
    if |bs| <= 1 then bs
    else if bs[0].free && bs[1].free then Coalesce([Merge(bs[0], bs[1])] + bs[2..])
    else [bs[0]] + Coalesce(bs[1..])
  }

  /** Index of the block whose payload starts at `p`, or |bs|. */
  function IndexOf(bs: seq<Block>, p: nat): (k: nat)
    ensures k <= |bs|
    ensures k < |bs| ==> bs[k].Payload() == p
    ensures forall i :: 0 <= i < k ==> bs[i].Payload() != p
  {
    if bs == [] then 0
    else if bs[0].Payload() == p then 0
    else 1 + IndexOf(bs[1..], p)
  }

  predicate InRange(h: Heap, p: nat) {
    PhyToVirt(h.lo) <= p < PhyToVirt(h.hi)
  }

  predicate Listed(h: Heap, p: nat) {
    IndexOf(h.blocks, p) < |h.blocks|
  }

  function Release(bs: seq<Block>, k: nat): seq<Block>
    requires k < |bs|
  {
    Coalesce(bs[k := bs[k].(free := true)])
  }

  /** `free(p)` for NULL, for an address outside the heap range, and for the payload of a listed block. */
  function Free(h: Heap, p: nat): Heap
    requires p == 0 || !InRange(h, p) || Listed(h, p)
  {
    if p == 0 || !InRange(h, p) then h
    else
      var k := IndexOf(h.blocks, p);
      if h.blocks[k].size > PAGE_2M_SIZE then h
      else h.(blocks := Release(h.blocks, k), totalFreed := h.totalFreed + h.blocks[k].size)
  }

  // ---- what a well-formed heap is ----

  /** Each block starts where its predecessor ends; together they cover exactly [lo, hi). */
  ghost predicate Tiles(bs: seq<Block>, lo: nat, hi: nat) {
    if bs == [] then lo == hi
    else bs[0].addr == lo && bs[|bs| - 1].End() == hi &&
         forall i :: 0 <= i < |bs| - 1 ==> bs[i].End() == bs[i + 1].addr
  }

  ghost predicate NoFreeNeighbours(bs: seq<Block>) {
    forall i :: 0 <= i < |bs| - 1 ==> !(bs[i].free && bs[i + 1].free)
  }

  ghost predicate BlockOk(b: Block) {
    b.addr % 8 == 0 && b.size % 8 == 0 && b.size > 0 && (!b.free ==> b.size < PAGE_2M_SIZE)
  }

  ghost predicate BlocksOk(bs: seq<Block>) {
    forall i :: 0 <= i < |bs| ==> BlockOk(bs[i])
  }

  ghost function Used(bs: seq<Block>): set<Block> {
    set b | b in bs && !b.free
  }

  ghost predicate Contiguous(pool: seq<nat>) {
    forall i :: 0 <= i < |pool| - 1 ==> pool[i + 1] == pool[i] + PAGE_2M_SIZE
  }

  /** Frames are 2 MiB-aligned, lie in the range `free` accepts, and have 64-bit virtual addresses. */
  ghost predicate PoolOk(pool: seq<nat>, lo: nat, hi: nat) {
    && PhyToVirt(hi) <= W64
    && forall i :: 0 <= i < |pool| ==> pool[i] % PAGE_2M_SIZE == 0 && lo <= pool[i] && pool[i] + PAGE_2M_SIZE <= hi
  }

  // First byte of the heap, and one past the last byte of the frames taken so far.
  ghost function Base(h: Heap): nat {
    if h.pool == [] then 0 else PhyToVirt(h.pool[0])
  }

  ghost function Limit(h: Heap): nat {
    Base(h) + h.taken * PAGE_2M_SIZE
  }

  ghost predicate HeapOk(h: Heap) {
    && h.taken <= |h.pool|
    && PoolOk(h.pool, h.lo, h.hi)
    && Contiguous(h.pool)
    && Tiles(h.blocks, Base(h), Limit(h))
    && NoFreeNeighbours(h.blocks)
    && BlocksOk(h.blocks)
  }
}
