/** Fixed parameters of the block file system and the arithmetic that turns a
    byte offset into chain coordinates (node hops, slot, offset in block). */
module Layout {

  const BLOCK_SIZE: int := 4096
  const BLOCK_NR: int := 1024 * 1024
  /** Number of data-block slots in one index node. */
  const DATA_BLOCKS_NUM: int := 100
  /** Marks an empty slot in an index node. */
  const EMPTY: int := -1

  /** Largest value of a C `int`; offsets and sizes are cast to it. */
  const INT_MAX: int := 0x7fff_ffff

  const ENOENT: int := 2
  const ENOSPC: int := 28

  const S_IFDIR: int := 0x4000
  const S_IFREG: int := 0x8000
  const DIR_MODE: int := S_IFDIR + 0x1ed   // S_IFDIR | 0755
  const FILE_MODE: int := S_IFREG + 0x1a4  // S_IFREG | 0644

  /** Chain coordinates of a byte offset, as lfs_write computes them. */
  datatype Coord = Coord(hops: nat, slot: nat, off: nat)

  /** Coordinates by division: node hops, slot in that node, byte in the block. */
  function Split(offset: nat): (c: Coord)
    ensures c.slot < DATA_BLOCKS_NUM && c.off < BLOCK_SIZE
  {
    var usedBlock := offset / BLOCK_SIZE;
    Coord(usedBlock / DATA_BLOCKS_NUM, usedBlock % DATA_BLOCKS_NUM, offset % BLOCK_SIZE)
  }

  /** The linear position a set of coordinates denotes. */
  function Linear(c: Coord): nat {
    (c.hops * DATA_BLOCKS_NUM + c.slot) * BLOCK_SIZE + c.off
  }

  /** Logical block number of a set of coordinates. */
  function LogicalBlock(c: Coord): nat {
    c.hops * DATA_BLOCKS_NUM + c.slot
  }

  /** The decomposition is exact. */
  lemma SplitExact(offset: nat)
    ensures Linear(Split(offset)) == offset
    ensures LogicalBlock(Split(offset)) == offset / BLOCK_SIZE
  {
    var b := offset / BLOCK_SIZE;
    assert b * BLOCK_SIZE + offset % BLOCK_SIZE == offset;
    assert (b / DATA_BLOCKS_NUM) * DATA_BLOCKS_NUM + b % DATA_BLOCKS_NUM == b;
  }

  /** No other in-range coordinates denote the same offset. */
  lemma SplitUnique(offset: nat, c: Coord)
    requires c.slot < DATA_BLOCKS_NUM && c.off < BLOCK_SIZE
    requires Linear(c) == offset
    ensures c == Split(offset)
  {
    var b := LogicalBlock(c);
    assert offset == b * BLOCK_SIZE + c.off;
    DivModUnique(offset, BLOCK_SIZE, b, c.off);
    DivModUnique(b, DATA_BLOCKS_NUM, c.hops, c.slot);
  }

  lemma DivModUnique(x: nat, d: nat, q: nat, r: nat)
    requires 0 < d && r < d && x == q * d + r
    ensures x / d == q && x % d == r
  {
    var q0, r0 := x / d, x % d;
    assert (q - q0) * d == r0 - r;
    MulAwayFromZero(q - q0, d);
  }

  /** Byte r of logical block L sits at linear offset L * BLOCK_SIZE + r. */
  lemma InBlock(L: nat, r: nat)
    requires r < BLOCK_SIZE
    ensures (L * BLOCK_SIZE + r) / BLOCK_SIZE == L && (L * BLOCK_SIZE + r) % BLOCK_SIZE == r
  {
    DivModUnique(L * BLOCK_SIZE + r, BLOCK_SIZE, L, r);
  }

  /** Slot s of node h is logical block h * DATA_BLOCKS_NUM + s. */
  lemma InNode(h: nat, s: nat)
    requires s < DATA_BLOCKS_NUM
    ensures (h * DATA_BLOCKS_NUM + s) / DATA_BLOCKS_NUM == h && (h * DATA_BLOCKS_NUM + s) % DATA_BLOCKS_NUM == s
  {
    DivModUnique(h * DATA_BLOCKS_NUM + s, DATA_BLOCKS_NUM, h, s);
  }

  /** Division by a positive number is monotonic. */
  lemma DivMono(a: nat, b: nat, d: nat)
    requires a <= b && 0 < d
    ensures a / d <= b / d
  {
    var qa, qb := a / d, b / d;
    MulAwayFromZero(qa - qb, d);
    assert (qa - qb) * d == qa * d - qb * d;
  }

  /** The slot after u, wrapping to 0 after the last one. */
  lemma NextSlot(u: nat)
    requires u < DATA_BLOCKS_NUM
    ensures (u + 1) % DATA_BLOCKS_NUM == if u == DATA_BLOCKS_NUM - 1 then 0 else u + 1
  {
    if u == DATA_BLOCKS_NUM - 1 {
      DivModUnique(u + 1, DATA_BLOCKS_NUM, 1, 0);
    } else {
      DivModUnique(u + 1, DATA_BLOCKS_NUM, 0, u + 1);
    }
  }

  /** Offsets below logical block L lie in blocks before L. */
  lemma BelowBlock(x: nat, L: nat)
    requires x < L * BLOCK_SIZE
    ensures x / BLOCK_SIZE < L
  {
    MulAwayFromZero(x / BLOCK_SIZE - L + 1, BLOCK_SIZE);
  }

  /** Coordinates at or below an offset have no more node hops than the
      offset itself. */
  lemma HopsBound(offset: nat, c: Coord)
    requires c.slot < DATA_BLOCKS_NUM && Linear(c) <= offset
    ensures c.hops <= Split(offset).hops
  {
    var lb := LogicalBlock(c);
    InBlock(lb, 0);
    DivMono(lb * BLOCK_SIZE, offset, BLOCK_SIZE);
    InNode(c.hops, c.slot);
    DivMono(lb, offset / BLOCK_SIZE, DATA_BLOCKS_NUM);
  }

  lemma MulAwayFromZero(k: int, d: nat)
    ensures k >= 1 ==> k * d >= d
    ensures k <= -1 ==> k * d <= 0 - d
  {
  }

  /** The subtraction walk of lfs_read and lfs_truncate: each stride removes one
      block from the offset and advances the slot, wrapping to the next node. */
  function Walk(c: Coord): (n: Coord)
    requires c.slot < DATA_BLOCKS_NUM
    ensures n.slot < DATA_BLOCKS_NUM
    ensures LogicalBlock(n) == LogicalBlock(c) + 1
  {
    var s := (c.slot + 1) % DATA_BLOCKS_NUM;
    Coord(if s == 0 then c.hops + 1 else c.hops, s, c.off)
  }

  /** Walking down one block while the remaining offset is at least a block keeps
      the linear position: the walk ends at exactly the coordinates of Split. */
  lemma WalkPreserves(c: Coord)
    requires c.slot < DATA_BLOCKS_NUM && c.off >= BLOCK_SIZE
    ensures Linear(Walk(c).(off := c.off - BLOCK_SIZE)) == Linear(c)
  {
    var n := Walk(c);
    assert Linear(n.(off := c.off - BLOCK_SIZE)) == LogicalBlock(n) * BLOCK_SIZE + c.off - BLOCK_SIZE;
    assert Linear(c) == LogicalBlock(c) * BLOCK_SIZE + c.off;
  }
}
