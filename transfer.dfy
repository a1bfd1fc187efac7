/** The block walks of lfs_read: from a byte offset to the node and slot that
    hold it, and the copy of the following blocks into the caller's buffer. */
module Transfer {
  import opened Layout
  import opened Bytes
  import opened Chains

  /** Byte x of the file whose chain is c: byte x % BLOCK_SIZE of the block in
      logical slot x / BLOCK_SIZE, 0 where no block is attached. */
  ghost function FileByte(mem: map<int, seq<Byte>>, nodes: map<int, INode>, c: seq<int>, x: int): Byte {
    var b := LogicalSlot(nodes, c, x / BLOCK_SIZE);
    if b in mem && 0 <= x % BLOCK_SIZE < |mem[b]| then mem[b][x % BLOCK_SIZE] else 0
  }

  /** What lfs_read dereferences: the node holding the first byte is on the
      chain and, when the first block is attached and the read runs past it,
      every later block up to the last byte is attached too. */
  ghost predicate ReadReaches(nodes: map<int, INode>, c: seq<int>, size: int, offset: int)
    requires 0 <= offset && 0 <= size
  {
    && Split(offset).hops < |c|
    && (LogicalSlot(nodes, c, offset / BLOCK_SIZE) != EMPTY && size > BLOCK_SIZE - offset % BLOCK_SIZE ==>
          forall L :: offset / BLOCK_SIZE < L <= (offset + size - 1) / BLOCK_SIZE ==> LogicalSlot(nodes, c, L) != EMPTY)
  }

  /** The copying part of lfs_read on the chain c of file e whose first node
      is head: the walk to the block holding the first byte; an EMPTY slot
      there leaves buf as it is; otherwise the size bytes from offset are
      copied, the first block's part and then whole blocks. */
  method ReadChain(mem: map<int, seq<Byte>>, nodes: map<int, INode>, ghost owner: map<int, Owner>,
                   ghost e: int, ghost c: seq<int>, head: int, buf: seq<Byte>, size: int, offset: int)
    returns (out: seq<Byte>)
    requires ChainOk(nodes, owner, e, c) && c[0] == head
    requires forall b :: b in owner ==> b in mem && |mem[b]| == BLOCK_SIZE
    requires |buf| == size && 0 <= offset && ReadReaches(nodes, c, size, offset)
    ensures |out| == size
    ensures LogicalSlot(nodes, c, offset / BLOCK_SIZE) == EMPTY ==> out == buf
    ensures LogicalSlot(nodes, c, offset / BLOCK_SIZE) != EMPTY ==>
      forall i :: 0 <= i < size ==> out[i] == FileByte(mem, nodes, c, offset + i)
  {
    hide ChainOk, NodeOk, LogicalSlot, FileByte, CopyInto;
    var inode, blockNum, off;
    ghost var h;
    inode, blockNum, off, h := Seek(nodes, owner, e, c, head, offset);
    var d := nodes[inode].slots[blockNum];
    if d == EMPTY {
      return buf;
    }
    assert SlotOk(owner, e, h, blockNum, d);
    ghost var first := offset / BLOCK_SIZE;
    if size > BLOCK_SIZE - off {
      out := CopyInto(buf, 0, mem[d][off..]);
      BlockCopied(mem, nodes, c, offset, first, off, 0, mem[d][off..], buf, out);
    } else {
      out := CopyInto(buf, 0, mem[d][off..off + size]);
      BlockCopied(mem, nodes, c, offset, first, off, 0, mem[d][off..off + size], buf, out);
      return;
    }
    ReadNext(offset, h, blockNum, off);
    out := ReadRest(mem, nodes, owner, e, c, inode, (blockNum + 1) % DATA_BLOCKS_NUM, h,
                    offset, size, BLOCK_SIZE - off, out);
  }

  /** After the first block of a read at offset, with coordinates
      (h, s, off), the next byte starts logical block offset / BLOCK_SIZE + 1,
      which is slot (s + 1) % DATA_BLOCKS_NUM counted from node h (slot 0
      counting as a full node). */
  lemma ReadNext(offset: nat, h: nat, s: nat, off: nat)
    requires Coord(h, s, off) == Split(offset)
    ensures (offset + (BLOCK_SIZE - off)) % BLOCK_SIZE == 0
    ensures (offset + (BLOCK_SIZE - off)) / BLOCK_SIZE == offset / BLOCK_SIZE + 1
    ensures var s' := (s + 1) % DATA_BLOCKS_NUM;
      h * DATA_BLOCKS_NUM + (if s' == 0 then DATA_BLOCKS_NUM else s') == offset / BLOCK_SIZE + 1
  {
    SplitExact(offset);
    DivModUnique(offset + (BLOCK_SIZE - off), BLOCK_SIZE, offset / BLOCK_SIZE + 1, 0);
    NextSlot(s);
  }

  /** A block copy of lfs_read: bytes [off, off + n) of the block in logical
      slot L land at [at, at + n) of the buffer, which then agrees with the file
      up to at + n when it agreed up to at. */
  lemma BlockCopied(mem: map<int, seq<Byte>>, nodes: map<int, INode>, c: seq<int>, offset: nat,
                    L: nat, off: nat, at: nat, src: seq<Byte>, out: seq<Byte>, out': seq<Byte>)
    requires offset + at == L * BLOCK_SIZE + off && off + |src| <= BLOCK_SIZE && at + |src| <= |out|
    requires LogicalSlot(nodes, c, L) in mem && |mem[LogicalSlot(nodes, c, L)]| == BLOCK_SIZE
    requires forall i :: 0 <= i < |src| ==> src[i] == mem[LogicalSlot(nodes, c, L)][off + i]
    requires forall i :: 0 <= i < at ==> out[i] == FileByte(mem, nodes, c, offset + i)
    requires out' == CopyInto(out, at, src)
    ensures |out'| == |out|
    ensures forall i :: 0 <= i < at + |src| ==> out'[i] == FileByte(mem, nodes, c, offset + i)
  {
    forall i | at <= i < at + |src| ensures out'[i] == FileByte(mem, nodes, c, offset + i) {
      InBlock(L, off + i - at);
    }
  }

  /** The first loop of lfs_read: one stride per block, a hop to the next node
      each time the slot wraps; it ends at the coordinates of the offset. */
  method Seek(nodes: map<int, INode>, ghost owner: map<int, Owner>, ghost e: int, ghost c: seq<int>,
              head: int, offset: int) returns (inode: int, blockNum: int, off: int, ghost h: nat)
    requires ChainOk(nodes, owner, e, c) && c[0] == head
    requires 0 <= offset && Split(offset).hops < |c|
    ensures 0 <= blockNum && 0 <= off
    ensures Coord(h, blockNum, off) == Split(offset) && h < |c| && inode == c[h]
    ensures inode in nodes && |nodes[inode].slots| == DATA_BLOCKS_NUM
    ensures LogicalSlot(nodes, c, offset / BLOCK_SIZE) == nodes[inode].slots[blockNum]
    ensures forall s :: 0 <= s < DATA_BLOCKS_NUM ==> SlotOk(owner, e, h, s, nodes[inode].slots[s])
  {
    blockNum, inode, off, h := 0, head, offset, 0;
    while off >= BLOCK_SIZE
      invariant 0 <= blockNum < DATA_BLOCKS_NUM && 0 <= off
      invariant Linear(Coord(h, blockNum, off)) == offset
      invariant h < |c| && inode == c[h]
    {
      WalkPreserves(Coord(h, blockNum, off));
      blockNum := (blockNum + 1) % DATA_BLOCKS_NUM;
      off := off - BLOCK_SIZE;
      if blockNum == 0 {
        HopsBound(offset, Coord(h + 1, 0, off));
        assert NodeOk(nodes, owner, e, c, h);
        inode := nodes[inode].next.value;
        h := h + 1;
      }
    }
    SplitUnique(offset, Coord(h, blockNum, off));
    SplitExact(offset);
    assert NodeOk(nodes, owner, e, c, h);
    InNode(h, blockNum);
  }

  /** The second loop of lfs_read: each following block is copied whole, the
      last one only up to size; a hop happens when the slot wraps. */
  method ReadRest(mem: map<int, seq<Byte>>, nodes: map<int, INode>, ghost owner: map<int, Owner>,
                  ghost e: int, ghost c: seq<int>, inode0: int, blockNum0: int, ghost h0: nat,
                  offset: int, size: int, usedSize0: int, out0: seq<Byte>) returns (out: seq<Byte>)
    requires ChainOk(nodes, owner, e, c)
    requires forall b :: b in owner ==> b in mem && |mem[b]| == BLOCK_SIZE
    requires 0 <= offset && 0 < usedSize0 < size && |out0| == size
    requires 0 <= blockNum0 < DATA_BLOCKS_NUM && h0 < |c| && inode0 == c[h0]
    requires (offset + usedSize0) % BLOCK_SIZE == 0
    requires h0 * DATA_BLOCKS_NUM + (if blockNum0 == 0 then DATA_BLOCKS_NUM else blockNum0) ==
             (offset + usedSize0) / BLOCK_SIZE
    requires forall L :: (offset + usedSize0) / BLOCK_SIZE <= L <= (offset + size - 1) / BLOCK_SIZE ==>
               LogicalSlot(nodes, c, L) != EMPTY
    requires forall i :: 0 <= i < usedSize0 ==> out0[i] == FileByte(mem, nodes, c, offset + i)
    ensures |out| == size
    ensures forall i :: 0 <= i < size ==> out[i] == FileByte(mem, nodes, c, offset + i)
  {
    out := out0;
    var inode, blockNum, usedSize := inode0, blockNum0, usedSize0;
    var restSize := size - usedSize0;
    ghost var h := h0;
    ghost var L := (offset + usedSize0) / BLOCK_SIZE;
    assert offset + usedSize == L * BLOCK_SIZE;
    BeyondChain(nodes, c);
    hide ChainOk, NodeOk, LogicalSlot, FileByte, CopyInto;
    while restSize > 0
      invariant 0 <= blockNum < DATA_BLOCKS_NUM && 0 <= h < |c| && inode == c[h]
      invariant 0 < usedSize <= size && |out| == size
      invariant restSize > 0 ==>
        && h * DATA_BLOCKS_NUM + (if blockNum == 0 then DATA_BLOCKS_NUM else blockNum) == L
        && offset + usedSize == L * BLOCK_SIZE && (offset + usedSize0) / BLOCK_SIZE <= L
        && usedSize + restSize == size
      invariant forall i :: 0 <= i < (if restSize > 0 then usedSize else size) ==>
        out[i] == FileByte(mem, nodes, c, offset + i)
    {
      InBlock(L, 0);
      DivMono(L * BLOCK_SIZE, offset + size - 1, BLOCK_SIZE);
      assert LogicalSlot(nodes, c, L) != EMPTY;
      if blockNum == 0 {
        NodeAt(nodes, owner, e, c, h);
        inode := nodes[inode].next.value;
        h := h + 1;
      }
      if restSize < BLOCK_SIZE {
        out := CopyBlock(mem, nodes, owner, e, c, h, inode, blockNum, offset, usedSize, restSize, out);
      } else {
        out := CopyBlock(mem, nodes, owner, e, c, h, inode, blockNum, offset, usedSize, BLOCK_SIZE, out);
        usedSize := usedSize + BLOCK_SIZE;
        blockNum := (blockNum + 1) % DATA_BLOCKS_NUM;
        L := L + 1;
      }
      restSize := restSize - BLOCK_SIZE;
    }
  }

  /** One memcpy of lfs_read's second loop: the first n bytes of the block in
      slot s of node h land at buf + usedSize. */
  method CopyBlock(mem: map<int, seq<Byte>>, nodes: map<int, INode>, ghost owner: map<int, Owner>,
                   ghost e: int, ghost c: seq<int>, ghost h: nat, inode: int, s: int,
                   offset: int, usedSize: int, n: int, out: seq<Byte>) returns (out': seq<Byte>)
    requires ChainOk(nodes, owner, e, c)
    requires forall b :: b in owner ==> b in mem && |mem[b]| == BLOCK_SIZE
    requires h < |c| && inode == c[h] && 0 <= s < DATA_BLOCKS_NUM
    requires LogicalSlot(nodes, c, h * DATA_BLOCKS_NUM + s) != EMPTY
    requires 0 <= offset && 0 <= usedSize && offset + usedSize == (h * DATA_BLOCKS_NUM + s) * BLOCK_SIZE
    requires 0 <= n <= BLOCK_SIZE && usedSize + n <= |out|
    requires forall i :: 0 <= i < usedSize ==> out[i] == FileByte(mem, nodes, c, offset + i)
    ensures |out'| == |out|
    ensures forall i :: 0 <= i < usedSize + n ==> out'[i] == FileByte(mem, nodes, c, offset + i)
  {
    hide ChainOk, NodeOk, LogicalSlot, FileByte, CopyInto;
    SlotAt(nodes, owner, e, c, h, s);
    var d := nodes[inode].slots[s];
    out' := CopyInto(out, usedSize, mem[d][..n]);
    BlockCopied(mem, nodes, c, offset, h * DATA_BLOCKS_NUM + s, 0, usedSize, mem[d][..n], out, out');
  }

  /** The byte lfs_write leaves at x: bytes of the first block come from buf in
      order, every later block restarts at buf[0], since the source pointer is
      never advanced. */
  function WriteByte(buf: seq<Byte>, offset: nat, x: nat): (r: Byte)
    requires offset <= x < offset + |buf|
  {
    if x / BLOCK_SIZE == offset / BLOCK_SIZE then buf[x - offset]
    else
      LaterIndex(offset, x);
      buf[x % BLOCK_SIZE]
  }

  /** In a block after the first, the position within the block is below the
      distance from the offset. */
  lemma LaterIndex(offset: nat, x: nat)
    requires offset <= x && x / BLOCK_SIZE != offset / BLOCK_SIZE
    ensures x % BLOCK_SIZE < x - offset
  {
    DivMono(offset, x, BLOCK_SIZE);
    var q, q0 := x / BLOCK_SIZE, offset / BLOCK_SIZE;
    MulAwayFromZero(q - q0, BLOCK_SIZE);
    assert q * BLOCK_SIZE - q0 * BLOCK_SIZE == (q - q0) * BLOCK_SIZE;
  }

  /** A write that fits in the block holding its offset leaves buf, byte for
      byte, at [offset, offset + |buf|). */
  lemma WriteInBlock(buf: seq<Byte>, offset: nat)
    requires offset % BLOCK_SIZE + |buf| <= BLOCK_SIZE
    ensures forall x :: offset <= x < offset + |buf| ==> WriteByte(buf, offset, x) == buf[x - offset]
  {
    forall x | offset <= x < offset + |buf| ensures x / BLOCK_SIZE == offset / BLOCK_SIZE {
      DivModUnique(x, BLOCK_SIZE, offset / BLOCK_SIZE, offset % BLOCK_SIZE + (x - offset));
    }
  }

  /** In every block after the one holding the offset, a write leaves
      buf[x % BLOCK_SIZE] at x; in particular the first byte of the second
      block is buf[0], not buf[BLOCK_SIZE - offset % BLOCK_SIZE]. */
  lemma WriteRestarts(buf: seq<Byte>, offset: nat)
    requires |buf| > BLOCK_SIZE - offset % BLOCK_SIZE
    ensures forall x :: offset + (BLOCK_SIZE - offset % BLOCK_SIZE) <= x < offset + |buf| ==>
      x % BLOCK_SIZE < |buf| && WriteByte(buf, offset, x) == buf[x % BLOCK_SIZE]
    ensures WriteByte(buf, offset, offset + (BLOCK_SIZE - offset % BLOCK_SIZE)) == buf[0]
  {
    var next := offset + (BLOCK_SIZE - offset % BLOCK_SIZE);
    DivModUnique(next, BLOCK_SIZE, offset / BLOCK_SIZE + 1, 0);
    forall x | next <= x < offset + |buf|
      ensures x / BLOCK_SIZE != offset / BLOCK_SIZE && x % BLOCK_SIZE < |buf|
    {
      DivMono(next, x, BLOCK_SIZE);
      LaterIndex(offset, x);
    }
  }

  /** Reading back a written range: when the bytes of the file are those the
      write left and the read copied the file's bytes, a write that fits in
      one block reads back as buf, and a longer one has buf[0] again at the
      start of its second block. */
  lemma ReadBack(mem: map<int, seq<Byte>>, nodes: map<int, INode>, c: seq<int>,
                 buf: seq<Byte>, offset: nat, out: seq<Byte>)
    requires |out| == |buf|
    requires forall x :: offset <= x < offset + |buf| ==> FileByte(mem, nodes, c, x) == WriteByte(buf, offset, x)
    requires forall i :: 0 <= i < |out| ==> out[i] == FileByte(mem, nodes, c, offset + i)
    ensures offset % BLOCK_SIZE + |buf| <= BLOCK_SIZE ==> out == buf
    ensures |buf| > BLOCK_SIZE - offset % BLOCK_SIZE ==> out[BLOCK_SIZE - offset % BLOCK_SIZE] == buf[0]
  {
    if offset % BLOCK_SIZE + |buf| <= BLOCK_SIZE {
      WriteInBlock(buf, offset);
      forall i | 0 <= i < |out| ensures out[i] == buf[i] {
        assert out[i] == FileByte(mem, nodes, c, offset + i);
      }
    } else {
      WriteRestarts(buf, offset);
      var i := BLOCK_SIZE - offset % BLOCK_SIZE;
      assert out[i] == FileByte(mem, nodes, c, offset + i);
    }
  }

  /** The file's bytes below logical block lmax are the same in two states
      that attach the same blocks there and whose memories agree on every
      block of the first. */
  lemma ViewKeep(mem: map<int, seq<Byte>>, nodes: map<int, INode>, c: seq<int>,
                 mem': map<int, seq<Byte>>, nodes': map<int, INode>, c': seq<int>, lmax: int)
    requires forall L :: 0 <= L < lmax ==> LogicalSlot(nodes', c', L) == LogicalSlot(nodes, c, L)
    requires forall L :: 0 <= L < lmax ==> LogicalSlot(nodes, c, L) == EMPTY || LogicalSlot(nodes, c, L) in mem
    requires forall b :: b in mem ==> b in mem' && mem'[b] == mem[b]
    requires EMPTY !in mem'
    ensures forall x :: 0 <= x && x / BLOCK_SIZE < lmax ==> FileByte(mem', nodes', c', x) == FileByte(mem, nodes, c, x)
  {
  }

  /** Another file's bytes are what they were when the index nodes and blocks
      file e does not own are unchanged. */
  lemma OtherFileKept(mem: map<int, seq<Byte>>, nodes: map<int, INode>, owner: map<int, Owner>,
                      mem': map<int, seq<Byte>>, nodes': map<int, INode>, e: int, e2: int, c2: seq<int>)
    requires ChainOk(nodes, owner, e2, c2) && e2 != e
    requires NodesKept(nodes, owner, nodes', e)
    requires forall b :: b in owner ==> b in mem
    requires forall b :: b in owner && !OwnedBy(owner[b], e) ==> b in mem' && mem'[b] == mem[b]
    requires EMPTY !in mem && EMPTY !in mem'
    ensures forall x :: 0 <= x ==> FileByte(mem', nodes', c2, x) == FileByte(mem, nodes, c2, x)
  {
    forall x | 0 <= x ensures FileByte(mem', nodes', c2, x) == FileByte(mem, nodes, c2, x) {
      var L := x / BLOCK_SIZE;
      var j := L / DATA_BLOCKS_NUM;
      if j < |c2| {
        assert NodeOk(nodes, owner, e2, c2, j);
        assert nodes'[c2[j]] == nodes[c2[j]];
        assert SlotOk(owner, e2, j, L % DATA_BLOCKS_NUM, nodes[c2[j]].slots[L % DATA_BLOCKS_NUM]);
      }
    }
  }

  /** Every attached block of a well-formed chain is mapped when every owned
      block is. */
  lemma Attached(nodes: map<int, INode>, owner: map<int, Owner>, mem: map<int, seq<Byte>>, e: int, c: seq<int>)
    requires ChainOk(nodes, owner, e, c)
    requires forall b :: b in owner ==> b in mem
    ensures forall L :: 0 <= L ==> LogicalSlot(nodes, c, L) == EMPTY || LogicalSlot(nodes, c, L) in mem
  {
    forall L | 0 <= L ensures LogicalSlot(nodes, c, L) == EMPTY || LogicalSlot(nodes, c, L) in mem {
      SlotOwned(nodes, owner, e, c, L);
    }
  }

  /** Attaching a zero-filled block where none was leaves every byte of the
      file as it was. */
  lemma FillView(mem: map<int, seq<Byte>>, nodes: map<int, INode>, c: seq<int>,
                 mem': map<int, seq<Byte>>, nodes': map<int, INode>, c': seq<int>, L: int)
    requires 0 <= L && LogicalSlot(nodes, c, L) == EMPTY
    requires LogicalSlot(nodes', c', L) in mem' && mem'[LogicalSlot(nodes', c', L)] == ZeroBlock()
    requires forall L' :: 0 <= L' && L' != L ==> LogicalSlot(nodes', c', L') == LogicalSlot(nodes, c, L')
    requires forall L' :: 0 <= L' ==> LogicalSlot(nodes, c, L') == EMPTY || LogicalSlot(nodes, c, L') in mem
    requires forall b :: b in mem ==> b in mem' && mem'[b] == mem[b]
    requires EMPTY !in mem && EMPTY !in mem'
    ensures forall x :: 0 <= x ==> FileByte(mem', nodes', c', x) == FileByte(mem, nodes, c, x)
  {
  }

  /** A memcpy into the block attached at logical position L changes the
      file's bytes in that range only, when no other position holds it. */
  lemma CopyView(mem: map<int, seq<Byte>>, nodes: map<int, INode>, c: seq<int>, L: nat, at: nat, src: seq<Byte>)
    requires LogicalSlot(nodes, c, L) in mem && |mem[LogicalSlot(nodes, c, L)]| == BLOCK_SIZE
    requires at + |src| <= BLOCK_SIZE
    requires forall L' :: 0 <= L' && L' != L ==> LogicalSlot(nodes, c, L') != LogicalSlot(nodes, c, L)
    ensures var d := LogicalSlot(nodes, c, L);
      forall x :: 0 <= x ==>
        FileByte(mem[d := CopyInto(mem[d], at, src)], nodes, c, x) ==
          if x / BLOCK_SIZE == L && at <= x % BLOCK_SIZE < at + |src| then src[x % BLOCK_SIZE - at]
          else FileByte(mem, nodes, c, x)
  {
    var d := LogicalSlot(nodes, c, L);
    var mem' := mem[d := CopyInto(mem[d], at, src)];
    forall x | 0 <= x
      ensures FileByte(mem', nodes, c, x) ==
        if x / BLOCK_SIZE == L && at <= x % BLOCK_SIZE < at + |src| then src[x % BLOCK_SIZE - at]
        else FileByte(mem, nodes, c, x)
    {
      if x / BLOCK_SIZE != L {
        assert LogicalSlot(nodes, c, x / BLOCK_SIZE) != d;
      }
    }
  }
}
