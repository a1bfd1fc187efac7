/** The in-memory block file system of lfs.c: the block store (bitmap, mapped
    blocks, super-node counters), the per-file index chains, the flat
    directory list and the read/write/truncate/unlink algorithms. */
module Lfs {
  import opened Layout
  import opened Bitmap
  import opened Bytes
  import opened Chains
  import opened Transfer

  /** The fields of `struct stat` the file system sets or reads. */
  datatype Stat = Stat(mode: int, uid: int, gid: int, nlink: int, size: int, blksize: int, blocks: int)

  /** A `filenode`: its name, the block that holds it, the block of its first
      index node and its attributes. Its place in `dir` stands for its
      next/last links. */
  datatype FileEntry = FileEntry(name: string, blockNum: int, inode: int, st: Stat)

  /** What get_filenode returns: the root node, an entry of the list, or NULL. */
  datatype Found = RootNode | FileAt(index: nat) | NotFound

  /** The root's name: its block is zero-filled, so the name is empty. */
  const ROOT_NAME: string := ""

  /** Index of the first entry called name. */
  function FirstIndex(dir: seq<FileEntry>, name: string): (r: Option<nat>)
    ensures r.Some? ==> r.value < |dir| && dir[r.value].name == name
    ensures r.Some? ==> forall j :: 0 <= j < r.value ==> dir[j].name != name
    ensures r.None? <==> forall j :: 0 <= j < |dir| ==> dir[j].name != name
  {
    if dir == [] then None
    else if dir[0].name == name then Some(0)
    else match FirstIndex(dir[1..], name)
      case None => None
      case Some(k) => Some(k + 1)
  }

  /** What get_filenode(path) finds: the walk starts at the root, whose name is
      empty, and compares each name with the path minus its first character. */
  function Lookup(dir: seq<FileEntry>, path: string): (r: Found)
    requires |path| >= 1
    ensures r.RootNode? <==> path[1..] == ROOT_NAME
    ensures r.FileAt? ==> r.index < |dir| && dir[r.index].name == path[1..]
    ensures r.FileAt? ==> forall j :: 0 <= j < r.index ==> dir[j].name != path[1..]
    ensures r.NotFound? <==> path[1..] != ROOT_NAME && forall j :: 0 <= j < |dir| ==> dir[j].name != path[1..]
  {
    if path[1..] == ROOT_NAME then RootNode
    else match FirstIndex(dir, path[1..])
      case None => NotFound
      case Some(k) => FileAt(k)
  }

  /** A change that keeps every index node and block file e does not own, and
      every chain but e's, keeps the bytes of every other file of the
      directory. */
  lemma OtherEntriesKept(mem: map<int, seq<Byte>>, nodes: map<int, INode>, owner: map<int, Owner>,
                         chains: map<int, seq<int>>, dir: seq<FileEntry>,
                         mem': map<int, seq<Byte>>, nodes': map<int, INode>, chains': map<int, seq<int>>, e: int)
    requires DirOk(nodes, owner, chains, dir)
    requires forall b :: b in owner ==> b in mem
    requires EMPTY !in mem && EMPTY !in mem'
    requires NodesKept(nodes, owner, nodes', e)
    requires forall b :: b in owner && !OwnedBy(owner[b], e) ==> b in mem' && mem'[b] == mem[b]
    requires e in chains' && chains' == chains[e := chains'[e]]
    ensures forall k2 :: 0 <= k2 < |dir| && dir[k2].blockNum != e ==>
      var e2 := dir[k2].blockNum;
      && e2 in chains && e2 in chains' && chains'[e2] == chains[e2]
      && forall x :: 0 <= x ==> FileByte(mem', nodes', chains'[e2], x) == FileByte(mem, nodes, chains[e2], x)
  {
    forall k2 | 0 <= k2 < |dir| && dir[k2].blockNum != e
      ensures var e2 := dir[k2].blockNum;
        && e2 in chains && e2 in chains' && chains'[e2] == chains[e2]
        && forall x :: 0 <= x ==> FileByte(mem', nodes', chains'[e2], x) == FileByte(mem, nodes, chains[e2], x)
    {
      var e2 := dir[k2].blockNum;
      EntryChain(nodes, owner, chains, dir, k2);
      OtherFileKept(mem, nodes, owner, mem', nodes', e, e2, chains[e2]);
    }
  }

  /** Changing entries without changing their names leaves every lookup as it
      was. */
  lemma LookupSameNames(dir: seq<FileEntry>, dir2: seq<FileEntry>, path: string)
    requires |path| >= 1 && |dir2| == |dir|
    requires forall j :: 0 <= j < |dir| ==> dir2[j].name == dir[j].name
    ensures Lookup(dir2, path) == Lookup(dir, path)
  {
    if Lookup(dir, path).FileAt? {
      assert dir2[Lookup(dir, path).index].name == path[1..];
    }
  }

  /** A new entry inserted right after root is what a lookup of its name
      finds. */
  lemma LookupFront(dir: seq<FileEntry>, f: FileEntry, path: string)
    requires |path| >= 1 && path[1..] == f.name && f.name != ROOT_NAME
    ensures Lookup([f] + dir, path) == FileAt(0)
  {
    assert ([f] + dir)[0] == f;
  }

  /** Once the entry found for a name is unlinked, the name is not found
      again unless a later entry carries it too. */
  lemma LookupWithout(dir: seq<FileEntry>, k: int, path: string)
    requires |path| >= 1 && 0 <= k < |dir| && Lookup(dir, path) == FileAt(k)
    requires forall j :: k < j < |dir| ==> dir[j].name != path[1..]
    ensures Lookup(Without(dir, k), path).NotFound?
  {
    var d := Without(dir, k);
    forall i | 0 <= i < |d| ensures d[i].name != path[1..] {
      if i >= k {
        assert d[i] == dir[i + 1];
      }
    }
  }

  /** The first clear bit at cyclic distance d or more from p, or -1. */
  function NextFreeFrom(bits: seq<bool>, p: int, d: int): int
    requires |bits| == BLOCK_NR && 0 <= p < BLOCK_NR && 0 <= d <= BLOCK_NR
    decreases BLOCK_NR - d
  {
    if d == BLOCK_NR then -1
    else if !bits[Cyc(p, d)] then Cyc(p, d)
    else NextFreeFrom(bits, p, d + 1)
  }

  /** The search from distance d finds nothing exactly when every bit from
      there on is set, and otherwise stops at the first clear one. */
  lemma {:induction false} NextFreeFromFacts(bits: seq<bool>, p: int, d: int)
    requires |bits| == BLOCK_NR && 0 <= p < BLOCK_NR && 0 <= d <= BLOCK_NR
    ensures var r := NextFreeFrom(bits, p, d);
      && (r == -1 <==> forall k :: d <= k < BLOCK_NR ==> bits[Cyc(p, k)])
      && (r != -1 ==> exists k :: d <= k < BLOCK_NR && r == Cyc(p, k) && !bits[r] &&
                        forall k' :: d <= k' < k ==> bits[Cyc(p, k')])
    decreases BLOCK_NR - d
  {
    if d < BLOCK_NR && bits[Cyc(p, d)] {
      NextFreeFromFacts(bits, p, d + 1);
      var r := NextFreeFrom(bits, p, d);
      if r != -1 {
        var k :| d + 1 <= k < BLOCK_NR && r == Cyc(p, k) && !bits[r] &&
                 forall k' :: d + 1 <= k' < k ==> bits[Cyc(p, k')];
        assert forall k' :: d <= k' < k ==> bits[Cyc(p, k')];
      }
    } else if d < BLOCK_NR {
      assert !bits[Cyc(p, d)];
    }
  }

  /** The block lfs_find_free_block picks: the first clear bit cyclically from
      p, -1 exactly when the bitmap is full. */
  function NextFree(bits: seq<bool>, p: int): (r: int)
    requires |bits| == BLOCK_NR && 0 <= p < BLOCK_NR
    ensures r == -1 <==> Count(bits) == BLOCK_NR
    ensures r != -1 ==> 0 <= r < BLOCK_NR && !bits[r]
  {
    NextFreeFacts(bits, p);
    CountFull(bits);
    NextFreeFrom(bits, p, 0)
  }

  /** The search finds nothing only on a full bitmap, and otherwise every bit
      it passed over on the way from p is set. */
  lemma NextFreeFacts(bits: seq<bool>, p: int)
    requires |bits| == BLOCK_NR && 0 <= p < BLOCK_NR
    ensures var r := NextFreeFrom(bits, p, 0);
      && (r == -1 <==> forall i :: 0 <= i < BLOCK_NR ==> bits[i])
      && (r != -1 ==> 0 <= r < BLOCK_NR && !bits[r])
      && (r != -1 ==> forall k :: 0 <= k < (r - p) % BLOCK_NR ==> bits[Cyc(p, k)])
  {
    NextFreeFromFacts(bits, p, 0);
    var r := NextFreeFrom(bits, p, 0);
    if r == -1 {
      forall i | 0 <= i < BLOCK_NR ensures bits[i] {
        CycOf(p, i);
      }
    } else {
      var k :| 0 <= k < BLOCK_NR && r == Cyc(p, k) && !bits[r] && forall k' :: 0 <= k' < k ==> bits[Cyc(p, k')];
      CycDistance(p, k);
    }
  }

  /** Position at cyclic distance k from p. */
  function Cyc(p: int, k: int): int {
    (p + k) % BLOCK_NR
  }

  lemma CycNext(p: int, k: int)
    requires 0 <= p < BLOCK_NR && 0 <= k
    ensures Cyc(p, k + 1) == (Cyc(p, k) + 1) % BLOCK_NR
  {
    var a := p + k;
    var q, r := a / BLOCK_NR, a % BLOCK_NR;
    if r + 1 < BLOCK_NR {
      DivModUnique(a + 1, BLOCK_NR, q, r + 1);
    } else {
      DivModUnique(a + 1, BLOCK_NR, q + 1, 0);
    }
  }

  /** A full turn comes back to the start. */
  lemma CycFull(p: int)
    requires 0 <= p < BLOCK_NR
    ensures Cyc(p, BLOCK_NR) == p
  {
    DivModUnique(p + BLOCK_NR, BLOCK_NR, 1, p);
  }

  lemma CycOf(p: int, i: int)
    requires 0 <= p < BLOCK_NR && 0 <= i < BLOCK_NR
    ensures 0 <= (i - p) % BLOCK_NR < BLOCK_NR && Cyc(p, (i - p) % BLOCK_NR) == i
  {
  }

  lemma CycDistance(p: int, k: int)
    requires 0 <= p < BLOCK_NR && 0 <= k < BLOCK_NR
    ensures (Cyc(p, k) - p) % BLOCK_NR == k
  {
  }

  /** Entry f is well formed: it owns its block, its chain is well formed and
      starts at f.inode, and its block count follows its size. */
  ghost predicate EntryOk(nodes: map<int, INode>, owner: map<int, Owner>,
                          chains: map<int, seq<int>>, f: FileEntry)
  {
    && f.blockNum in owner && owner[f.blockNum] == EntryBlock(f.blockNum)
    && f.blockNum in chains && ChainOk(nodes, owner, f.blockNum, chains[f.blockNum])
    && chains[f.blockNum][0] == f.inode
    && 0 <= f.st.size && f.st.blocks == f.st.size / BLOCK_SIZE
  }

  /** Every entry is well formed and no two entries share a block. */
  ghost predicate DirOk(nodes: map<int, INode>, owner: map<int, Owner>,
                        chains: map<int, seq<int>>, dir: seq<FileEntry>)
  {
    && (forall k :: 0 <= k < |dir| ==> EntryOk(nodes, owner, chains, dir[k]))
    && (forall k, k' :: 0 <= k < k' < |dir| ==> dir[k].blockNum != dir[k'].blockNum)
  }

  /** Entries whose own blocks, chains and owned records are kept stay well formed. */
  lemma DirFrame(nodes: map<int, INode>, owner: map<int, Owner>, chains: map<int, seq<int>>,
                 nodes': map<int, INode>, owner': map<int, Owner>, chains': map<int, seq<int>>,
                 dir: seq<FileEntry>)
    requires DirOk(nodes, owner, chains, dir)
    requires forall k :: 0 <= k < |dir| ==> Keeps(nodes, owner, nodes', owner', dir[k].blockNum)
    requires forall k :: 0 <= k < |dir| ==>
      dir[k].blockNum in chains' && chains'[dir[k].blockNum] == chains[dir[k].blockNum]
    ensures DirOk(nodes', owner', chains', dir)
  {
    forall k | 0 <= k < |dir| ensures EntryOk(nodes', owner', chains', dir[k]) {
      var f := dir[k];
      assert EntryOk(nodes, owner, chains, f);
      assert OwnedBy(owner[f.blockNum], f.blockNum);
      ChainFrame(nodes, owner, nodes', owner', f.blockNum, chains[f.blockNum]);
    }
  }

  /** A new entry on fresh blocks, with a fresh empty first node, keeps the
      directory well formed. */
  lemma AddEntry(nodes: map<int, INode>, owner: map<int, Owner>, chains: map<int, seq<int>>,
                 dir: seq<FileEntry>, f: FileEntry)
    requires DirOk(nodes, owner, chains, dir)
    requires f.blockNum !in owner && f.inode !in owner && f.blockNum != f.inode
    requires 0 <= f.st.size && f.st.blocks == f.st.size / BLOCK_SIZE
    ensures DirOk(nodes[f.inode := INode(None, EmptySlots())],
                  owner[f.blockNum := EntryBlock(f.blockNum)][f.inode := IndexNode(f.blockNum, 0)],
                  chains[f.blockNum := [f.inode]], [f] + dir)
  {
    var nodes' := nodes[f.inode := INode(None, EmptySlots())];
    var owner' := owner[f.blockNum := EntryBlock(f.blockNum)][f.inode := IndexNode(f.blockNum, 0)];
    var chains' := chains[f.blockNum := [f.inode]];
    forall k | 0 <= k < |dir| ensures dir[k].blockNum != f.blockNum {
      assert EntryOk(nodes, owner, chains, dir[k]);
    }
    DirFrame(nodes, owner, chains, nodes', owner', chains', dir);
    assert NodeOk(nodes', owner', f.blockNum, [f.inode], 0);
    assert EntryOk(nodes', owner', chains', f);
    var d' := [f] + dir;
    forall k | 0 <= k < |d'| ensures EntryOk(nodes', owner', chains', d'[k]) {
      if k > 0 {
        assert d'[k] == dir[k - 1];
      }
    }
  }

  /** What a release of entry k's whole chain may rely on: the chain is well
      formed from its first node, and the entry block is not part of it. */
  lemma EntryFacts(nodes: map<int, INode>, owner: map<int, Owner>, chains: map<int, seq<int>>,
                   dir: seq<FileEntry>, k: int)
    requires DirOk(nodes, owner, chains, dir) && 0 <= k < |dir|
    ensures var f := dir[k]; var e := f.blockNum;
      && e in chains && e in owner && owner[e] == EntryBlock(e)
      && TailOk(nodes, owner, e, chains[e], 0) && chains[e][0] == f.inode
      && NodeOk(nodes, owner, e, chains[e], 0)
      && e !in ReleasedNodes(chains[e], 0, 0) + ReleasedData(nodes, chains[e], 0, 0)
  {
    var f := dir[k];
    var e, c := f.blockNum, chains[f.blockNum];
    assert EntryOk(nodes, owner, chains, f);
    ReleasedOwned(nodes, owner, e, c, 0, 0);
  }

  /** What a cut of entry k's chain at node h may rely on. */
  lemma EntryAt(nodes: map<int, INode>, owner: map<int, Owner>, chains: map<int, seq<int>>,
                dir: seq<FileEntry>, k: int, h: int)
    requires DirOk(nodes, owner, chains, dir) && 0 <= k < |dir| && 0 <= h
    ensures var e := dir[k].blockNum;
      && e in chains && |chains[e]| > 0 && chains[e][0] == dir[k].inode
      && var c := chains[e];
      && c[0] in nodes && |nodes[c[0]].slots| == DATA_BLOCKS_NUM
      && LogicalSlot(nodes, c, 0) == nodes[c[0]].slots[0]
      && SlotOk(owner, e, 0, 0, nodes[c[0]].slots[0])
      && (h < |chains[e]| ==>
            var c := chains[e];
            && TailOk(nodes, owner, e, c, h) && NodeOk(nodes, owner, e, c, h)
            && c[h] in nodes && |nodes[c[h]].slots| == DATA_BLOCKS_NUM
            && nodes[c[h]].next == (if h + 1 < |c| then Some(c[h + 1]) else None)
            && (h + 1 < |c| ==>
                  TailOk(nodes, owner, e, c, h + 1) && NodeOk(nodes, owner, e, c, h + 1) &&
                  c[h] !in ReleasedNodes(c, h + 1, 0)))
  {
    var e, c := dir[k].blockNum, chains[dir[k].blockNum];
    assert EntryOk(nodes, owner, chains, dir[k]);
    assert NodeOk(nodes, owner, e, c, 0);
    if h + 1 < |c| {
      assert NodeOk(nodes, owner, e, c, h);
      ReleasedOwned(nodes, owner, e, c, h + 1, 0);
    }
  }

  /** The list with entry k unlinked: the entries before it, then the ones
      after it, in order. */
  function Without(dir: seq<FileEntry>, k: int): (d: seq<FileEntry>)
    requires 0 <= k < |dir|
    ensures |d| == |dir| - 1
    ensures forall i :: 0 <= i < |d| ==> d[i] == dir[if i < k then i else i + 1]
  {
    dir[..k] + dir[k + 1..]
  }

  /** Releasing file e's whole chain and its entry block, then unlinking its
      entry, leaves the remaining list well formed. */
  lemma UnlinkDirOk(nodes: map<int, INode>, owner: map<int, Owner>, chains: map<int, seq<int>>,
                    dir: seq<FileEntry>, k: int,
                    nodes': map<int, INode>, owner': map<int, Owner>, chains': map<int, seq<int>>)
    requires DirOk(nodes, owner, chains, dir) && 0 <= k < |dir|
    requires var e := dir[k].blockNum; var c := chains[e];
      && nodes' == nodes - ReleasedNodes(c, 0, 0)
      && owner' == owner - (ReleasedNodes(c, 0, 0) + ReleasedData(nodes, c, 0, 0) + {e})
      && chains' == chains - {e}
    ensures DirOk(nodes', owner', chains', Without(dir, k))
    ensures var e := dir[k].blockNum; var c := chains[e];
      forall b :: b in owner && !OwnedBy(owner[b], e) ==>
        b !in ReleasedNodes(c, 0, 0) + ReleasedData(nodes, c, 0, 0) + {e} && b in owner' && owner'[b] == owner[b]
  {
    var e, c := dir[k].blockNum, chains[dir[k].blockNum];
    var gone := ReleasedNodes(c, 0, 0) + ReleasedData(nodes, c, 0, 0) + {e};
    assert EntryOk(nodes, owner, chains, dir[k]);
    assert NodeOk(nodes, owner, e, c, 0);
    ReleasedOwned(nodes, owner, e, c, 0, 0);
    var d := Without(dir, k);
    assert DirOk(nodes, owner, chains, d);
    forall i | 0 <= i < |d| ensures Keeps(nodes, owner, nodes', owner', d[i].blockNum) {
      ReleaseKeeps(nodes, owner, nodes', owner', gone, e, d[i].blockNum);
    }
    DirFrame(nodes, owner, chains, nodes', owner', chains', d);
  }

  /** New attributes for entry k, with the block count following the size,
      keep the list well formed. */
  lemma StatUpdate(nodes: map<int, INode>, owner: map<int, Owner>, chains: map<int, seq<int>>,
                   dir: seq<FileEntry>, k: int, st: Stat)
    requires DirOk(nodes, owner, chains, dir) && 0 <= k < |dir|
    requires 0 <= st.size && st.blocks == st.size / BLOCK_SIZE
    ensures DirOk(nodes, owner, chains, dir[k := dir[k].(st := st)])
  {
    var d := dir[k := dir[k].(st := st)];
    forall i | 0 <= i < |d| ensures EntryOk(nodes, owner, chains, d[i]) {
      assert EntryOk(nodes, owner, chains, dir[i]);
    }
  }

  /** Cutting entry k's chain after slot flag - 1 of node h keeps every entry
      well formed: the cut file's chain becomes its first h + 1 nodes, the
      others own nothing that was released. */
  lemma TruncDirOk(nodes: map<int, INode>, owner: map<int, Owner>, chains: map<int, seq<int>>,
                   dir: seq<FileEntry>, k: int, h: int, flag: int)
    requires DirOk(nodes, owner, chains, dir) && 0 <= k < |dir|
    requires dir[k].blockNum in chains && 0 <= h < |chains[dir[k].blockNum]| && 0 < flag <= DATA_BLOCKS_NUM
    ensures var e := dir[k].blockNum; var c := chains[e];
      && c[h] in nodes && |nodes[c[h]].slots| == DATA_BLOCKS_NUM
      && DirOk(Truncated(nodes, c, h, flag),
               owner - ReleasedNodes(c, h, flag) - ReleasedData(nodes, c, h, flag),
               chains[e := c[..h + 1]], dir)
  {
    var e, c := dir[k].blockNum, chains[dir[k].blockNum];
    assert EntryOk(nodes, owner, chains, dir[k]);
    TruncChainOk(nodes, owner, e, c, h, flag);
    var rn, rd := ReleasedNodes(c, h, flag), ReleasedData(nodes, c, h, flag);
    var nodes', owner', chains' := Truncated(nodes, c, h, flag), owner - rn - rd, chains[e := c[..h + 1]];
    ReleasedOwned(nodes, owner, e, c, h, flag);
    assert NodeOk(nodes, owner, e, c, h);
    assert owner' == owner - (rn + rd);
    forall i | 0 <= i < |dir| ensures EntryOk(nodes', owner', chains', dir[i]) {
      if i != k {
        var e' := dir[i].blockNum;
        assert EntryOk(nodes, owner, chains, dir[i]);
        ReleaseKeeps(nodes, owner, nodes', owner', rn + rd, e, e');
        ChainFrame(nodes, owner, nodes', owner', e', chains[e']);
        assert !Beyond(owner[e'], e, h, flag);
      } else {
        assert !Beyond(owner[e], e, h, flag);
      }
    }
  }

  /** The memory after the memset of lfs_truncate: when size is not a block
      multiple, the chain's first block is zeroed from byte size % BLOCK_SIZE
      on. */
  ghost function TruncMem(mem: map<int, seq<Byte>>, nodes: map<int, INode>, c: seq<int>, size: int): map<int, seq<Byte>> {
    var d0 := LogicalSlot(nodes, c, 0);
    if size % BLOCK_SIZE != 0 && d0 in mem && size % BLOCK_SIZE <= |mem[d0]|
    then mem[d0 := ZeroFrom(mem[d0], size % BLOCK_SIZE)]
    else mem
  }

  lemma TruncMemIs(mem: map<int, seq<Byte>>, nodes: map<int, INode>, c: seq<int>, size: int, d: int)
    requires size % BLOCK_SIZE != 0 ==> d == LogicalSlot(nodes, c, 0) && d in mem && |mem[d]| == BLOCK_SIZE
    ensures size % BLOCK_SIZE == 0 ==> TruncMem(mem, nodes, c, size) == mem
    ensures size % BLOCK_SIZE != 0 ==> TruncMem(mem, nodes, c, size) == mem[d := ZeroFrom(mem[d], size % BLOCK_SIZE)]
  {
  }

  /** One byte below the new size that lfs_truncate keeps: in a block other
      than the first, or before size % BLOCK_SIZE in the first. */
  lemma TruncByte(mem: map<int, seq<Byte>>, nodes: map<int, INode>, owner: map<int, Owner>,
                  e: int, c: seq<int>, size: int, x: int)
    requires ChainOk(nodes, owner, e, c) && 0 < size && Split(size - 1).hops < |c|
    requires EMPTY !in mem
    requires 0 <= x < size && (size % BLOCK_SIZE == 0 || x / BLOCK_SIZE != 0 || x % BLOCK_SIZE < size % BLOCK_SIZE)
    ensures var h, flag := Split(size - 1).hops, Split(size - 1).slot + 1;
      && c[h] in nodes && |nodes[c[h]].slots| == DATA_BLOCKS_NUM
      && FileByte(TruncMem(mem, nodes, c, size) - ReleasedNodes(c, h, flag) - ReleasedData(nodes, c, h, flag),
                  Truncated(nodes, c, h, flag), c[..h + 1], x) == FileByte(mem, nodes, c, x)
  {
    var co := Split(size - 1);
    var h, flag := co.hops, co.slot + 1;
    SplitExact(size - 1);
    var L := x / BLOCK_SIZE;
    DivMono(x, size - 1, BLOCK_SIZE);
    assert L < h * DATA_BLOCKS_NUM + flag;
    TruncKeeps(nodes, owner, e, c, h, flag, L);
    var nodes', c' := Truncated(nodes, c, h, flag), c[..h + 1];
    var rn, rd := ReleasedNodes(c, h, flag), ReleasedData(nodes, c, h, flag);
    var tm := TruncMem(mem, nodes, c, size);
    var b := LogicalSlot(nodes, c, L);
    assert LogicalSlot(nodes', c', L) == b;
    if b != EMPTY {
      ReleasedOwned(nodes, owner, e, c, h, flag);
      SlotOwned(nodes, owner, e, c, L);
      assert L == L / DATA_BLOCKS_NUM * DATA_BLOCKS_NUM + L % DATA_BLOCKS_NUM;
      assert L / DATA_BLOCKS_NUM < h || (L / DATA_BLOCKS_NUM == h && L % DATA_BLOCKS_NUM < flag);
      assert !Beyond(owner[b], e, h, flag);
      assert b !in rn && b !in rd;
      if L != 0 {
        SlotUnique(nodes, owner, e, c, L, 0);
      }
      assert b in tm <==> b in mem;
      assert b in mem ==> |tm[b]| == |mem[b]| && (x % BLOCK_SIZE < |mem[b]| ==> tm[b][x % BLOCK_SIZE] == mem[b][x % BLOCK_SIZE]);
    } else {
      assert b !in tm;
    }
  }

  /** What lfs_truncate to a positive size keeps: every logical block up to
      the one holding byte size - 1 stays attached where it was, and every
      byte below size keeps its value except those of the file's first block
      from size % BLOCK_SIZE on, which the memset zeroes. */
  lemma TruncView(mem: map<int, seq<Byte>>, nodes: map<int, INode>, owner: map<int, Owner>,
                  e: int, c: seq<int>, size: int)
    requires ChainOk(nodes, owner, e, c) && 0 < size && Split(size - 1).hops < |c|
    requires EMPTY !in mem
    ensures var h, flag := Split(size - 1).hops, Split(size - 1).slot + 1;
      && c[h] in nodes && |nodes[c[h]].slots| == DATA_BLOCKS_NUM
      && (forall L :: 0 <= L <= (size - 1) / BLOCK_SIZE ==>
            LogicalSlot(Truncated(nodes, c, h, flag), c[..h + 1], L) == LogicalSlot(nodes, c, L))
      && forall x :: 0 <= x < size && (size % BLOCK_SIZE == 0 || x / BLOCK_SIZE != 0 || x % BLOCK_SIZE < size % BLOCK_SIZE) ==>
           FileByte(TruncMem(mem, nodes, c, size) - ReleasedNodes(c, h, flag) - ReleasedData(nodes, c, h, flag),
                    Truncated(nodes, c, h, flag), c[..h + 1], x) == FileByte(mem, nodes, c, x)
  {
    var co := Split(size - 1);
    var h, flag := co.hops, co.slot + 1;
    SplitExact(size - 1);
    TruncKeeps(nodes, owner, e, c, h, flag, 0);
    forall L | 0 <= L <= (size - 1) / BLOCK_SIZE
      ensures LogicalSlot(Truncated(nodes, c, h, flag), c[..h + 1], L) == LogicalSlot(nodes, c, L)
    {
      TruncKeeps(nodes, owner, e, c, h, flag, L);
    }
    forall x | 0 <= x < size && (size % BLOCK_SIZE == 0 || x / BLOCK_SIZE != 0 || x % BLOCK_SIZE < size % BLOCK_SIZE)
      ensures FileByte(TruncMem(mem, nodes, c, size) - ReleasedNodes(c, h, flag) - ReleasedData(nodes, c, h, flag),
                       Truncated(nodes, c, h, flag), c[..h + 1], x) == FileByte(mem, nodes, c, x)
    {
      TruncByte(mem, nodes, owner, e, c, size, x);
    }
  }

  /** Entry k's chain is well formed and starts at the entry's first node. */
  lemma EntryChain(nodes: map<int, INode>, owner: map<int, Owner>, chains: map<int, seq<int>>,
                   dir: seq<FileEntry>, k: int)
    requires DirOk(nodes, owner, chains, dir) && 0 <= k < |dir|
    ensures var e := dir[k].blockNum;
      e in chains && ChainOk(nodes, owner, e, chains[e]) && chains[e][0] == dir[k].inode
  {
    assert EntryOk(nodes, owner, chains, dir[k]);
  }

  /** Entry k's chain replaced by a well-formed chain from the same first
      node, with the owner map only grown and only nodes of that file or
      unowned blocks changed, keeps the list well formed. */
  lemma GrowDirOk(nodes: map<int, INode>, owner: map<int, Owner>, chains: map<int, seq<int>>,
                  dir: seq<FileEntry>, k: int, nodes': map<int, INode>, owner': map<int, Owner>, c': seq<int>)
    requires DirOk(nodes, owner, chains, dir) && 0 <= k < |dir|
    requires forall b :: b in owner ==> b in owner' && owner'[b] == owner[b]
    requires forall b :: b in nodes && b in owner && !OwnedBy(owner[b], dir[k].blockNum) ==>
      b in nodes' && nodes'[b] == nodes[b]
    requires ChainOk(nodes', owner', dir[k].blockNum, c') && c'[0] == dir[k].inode
    ensures DirOk(nodes', owner', chains[dir[k].blockNum := c'], dir)
  {
    var e := dir[k].blockNum;
    var chains' := chains[e := c'];
    forall i | 0 <= i < |dir| ensures EntryOk(nodes', owner', chains', dir[i]) {
      assert EntryOk(nodes, owner, chains, dir[i]);
      if i != k {
        assert dir[i].blockNum != e by {
          if i < k {
            assert dir[i].blockNum != dir[k].blockNum;
          } else {
            assert dir[k].blockNum != dir[i].blockNum;
          }
        }
        GrowKeeps(nodes, owner, nodes', owner', e, dir[i].blockNum);
        ChainFrame(nodes, owner, nodes', owner', dir[i].blockNum, chains[dir[i].blockNum]);
      }
    }
  }

  /** Blocks the interior loop of lfs_write allocates for rest bytes still to
      write from slot u on: one data block per BLOCK_SIZE stride, plus one
      index node each time the slot is 0 at the top of an iteration. */
  function NeedRest(u: int, rest: int): nat
    requires 0 <= u < DATA_BLOCKS_NUM
  {
    if rest <= 0 then 0
    else
      var strides := (rest + BLOCK_SIZE - 1) / BLOCK_SIZE;
      strides + ((if u == 0 then DATA_BLOCKS_NUM else u) + strides - 1) / DATA_BLOCKS_NUM
  }

  /** One iteration of that loop allocates two blocks at slot 0 and one
      otherwise, and leaves the rest for the next slot. */
  lemma NeedRestStep(u: int, rest: int)
    requires 0 <= u < DATA_BLOCKS_NUM && rest > 0
    ensures NeedRest(u, rest) ==
      (if u == 0 then 2 else 1) + NeedRest((u + 1) % DATA_BLOCKS_NUM, rest - BLOCK_SIZE)
  {
    var q, r := (rest - 1) / BLOCK_SIZE, (rest - 1) % BLOCK_SIZE;
    DivModUnique(rest + BLOCK_SIZE - 1, BLOCK_SIZE, q + 1, r);
    NextSlot(u);
    if rest > BLOCK_SIZE {
      // the stride count of rest - BLOCK_SIZE is q
      DivModUnique(rest - 1, BLOCK_SIZE, q, r);
      if u == 0 {
        DivModUnique(DATA_BLOCKS_NUM + q, DATA_BLOCKS_NUM, q / DATA_BLOCKS_NUM + 1, q % DATA_BLOCKS_NUM);
        assert NeedRest(u, rest) == q + 1 + (DATA_BLOCKS_NUM + q) / DATA_BLOCKS_NUM;
        assert NeedRest(1, rest - BLOCK_SIZE) == q + q / DATA_BLOCKS_NUM;
      } else if u == DATA_BLOCKS_NUM - 1 {
        assert NeedRest(u, rest) == q + 1 + (u + q) / DATA_BLOCKS_NUM;
        assert NeedRest(0, rest - BLOCK_SIZE) == q + (DATA_BLOCKS_NUM + q - 1) / DATA_BLOCKS_NUM;
      } else {
        assert NeedRest(u, rest) == q + 1 + (u + q) / DATA_BLOCKS_NUM;
        assert NeedRest(u + 1, rest - BLOCK_SIZE) == q + (u + q) / DATA_BLOCKS_NUM;
      }
    } else {
      DivModUnique(rest + BLOCK_SIZE - 1, BLOCK_SIZE, 1, rest - 1);
      if u == 0 {
        DivModUnique(DATA_BLOCKS_NUM, DATA_BLOCKS_NUM, 1, 0);
      } else {
        DivModUnique(u, DATA_BLOCKS_NUM, 0, u);
      }
    }
  }

  /** The n bytes from offset that fit in its block lie in block
      offset / BLOCK_SIZE at consecutive positions; earlier offsets lie in that
      block or before it. */
  lemma FirstBlockRange(offset: nat, n: nat)
    requires offset % BLOCK_SIZE + n <= BLOCK_SIZE
    ensures forall x :: offset <= x < offset + n ==>
      x / BLOCK_SIZE == offset / BLOCK_SIZE && x % BLOCK_SIZE == offset % BLOCK_SIZE + (x - offset)
    ensures forall x :: 0 <= x < offset ==> x / BLOCK_SIZE <= offset / BLOCK_SIZE
    ensures forall x :: 0 <= x && x / BLOCK_SIZE == offset / BLOCK_SIZE ==>
      x % BLOCK_SIZE - offset % BLOCK_SIZE == x - offset
  {
    forall x | 0 <= x && x / BLOCK_SIZE == offset / BLOCK_SIZE
      ensures x % BLOCK_SIZE - offset % BLOCK_SIZE == x - offset
    {
      assert x == x / BLOCK_SIZE * BLOCK_SIZE + x % BLOCK_SIZE;
      assert offset == offset / BLOCK_SIZE * BLOCK_SIZE + offset % BLOCK_SIZE;
    }
    forall x | offset <= x < offset + n
      ensures x / BLOCK_SIZE == offset / BLOCK_SIZE && x % BLOCK_SIZE == offset % BLOCK_SIZE + (x - offset)
    {
      DivModUnique(x, BLOCK_SIZE, offset / BLOCK_SIZE, offset % BLOCK_SIZE + (x - offset));
    }
    forall x | 0 <= x < offset ensures x / BLOCK_SIZE <= offset / BLOCK_SIZE {
      DivMono(x, offset, BLOCK_SIZE);
    }
  }

  /** Blocks lfs_write allocates for a write of size bytes at offset into the
      file whose chain is c: the nodes the hop loop appends, the first block
      when its slot holds none, and the interior loop's blocks. */
  ghost function WriteNeed(nodes: map<int, INode>, c: seq<int>, size: int, offset: int): nat
    requires 0 <= offset
  {
    var co := Split(offset);
    (if co.hops < |c| then 0 else co.hops + 1 - |c|)
    + (if LogicalSlot(nodes, c, offset / BLOCK_SIZE) > 0 then 0 else 1)
    + (if size > BLOCK_SIZE - co.off
       then NeedRest((co.slot + 1) % DATA_BLOCKS_NUM, size - (BLOCK_SIZE - co.off)) else 0)
  }

  class FileSystem {
    /** bitmap[i] is set when block i is mapped. */
    var bitmap: array<bool>
    /** The contents of every mapped block (mem[] with its mmap'd buffers). */
    var mem: map<int, seq<Byte>>
    /** The index nodes, by the block that holds each. */
    var nodes: map<int, INode>
    /** The list after root, in list order (root->next first). */
    var dir: seq<FileEntry>
    /** root->st, as lfs_init fills it. */
    var rootSt: Stat
    /** The super node's counters. */
    var filenum: int
    var usedblock: int
    var pos: int

    /** The node blocks of each file's chain, by the file's entry block. */
    ghost var chains: map<int, seq<int>>
    /** What each live block was allocated for. */
    ghost var owner: map<int, Owner>
    /** Index-node blocks freed without decrementing usedblock. */
    ghost var leaked: nat

    /** The bitmap records exactly the mapped blocks, each of BLOCK_SIZE bytes;
        usedblock counts the set bits plus the node frees it missed. */
    ghost predicate StoreOk()
      reads this`bitmap, this`mem, this`pos, this`usedblock, this`leaked, bitmap
    {
      && bitmap.Length == BLOCK_NR
      && (forall b {:trigger mem[b]} :: b in mem ==> 0 <= b < BLOCK_NR && |mem[b]| == BLOCK_SIZE)
      && (forall i :: 0 <= i < BLOCK_NR ==> (bitmap[i] <==> i in mem))
      && 0 <= pos < BLOCK_NR
      && usedblock == Count(bitmap[..]) + leaked
    }

    /** Only mapped blocks are owned; block 0 is the super node, block 1 the root. */
    ghost predicate OwnerOk()
      reads this`owner, this`mem
    {
      && (forall b :: b in owner ==> b in mem)
      && 0 in owner && owner[0] == Header
      && 1 in owner && owner[1] == RootDir
    }

    ghost predicate Valid()
      reads this, bitmap
    {
      StoreOk() && OwnerOk() && DirOk(nodes, owner, chains, dir)
    }

    /** Number of clear bits. */
    ghost function FreeCount(): nat
      reads this`bitmap, bitmap
    {
      bitmap.Length - Count(bitmap[..])
    }

    /** lfs_init: blocks 0 and 1 mapped and zero-filled, every other bit clear,
        no files, two blocks in use; the root gets directory attributes. */
    constructor Init(uid: int, gid: int)
      ensures Valid()
      ensures fresh(bitmap)
      ensures forall i :: 0 <= i < BLOCK_NR ==> bitmap[i] == (i < 2)
      ensures mem == map[0 := ZeroBlock(), 1 := ZeroBlock()]
      ensures nodes == map[] && dir == []
      ensures filenum == 0 && usedblock == 2 && pos == 0
      ensures rootSt == Stat(DIR_MODE, uid, gid, 0, 0, BLOCK_SIZE, 0)
    {
      var bits := new bool[BLOCK_NR];
      var m: map<int, seq<Byte>> := map[];
      var i := 0;
      while i < 2
        invariant 0 <= i <= 2
        invariant forall j :: j in m <==> 0 <= j < i
        invariant forall j :: j in m ==> m[j] == ZeroBlock()
        invariant forall j :: 0 <= j < i ==> bits[j]
      {
        m := m[i := ZeroBlock()];
        bits[i] := true;
        i := i + 1;
      }
      while i < BLOCK_NR
        invariant 2 <= i <= BLOCK_NR
        invariant bits[0] && bits[1]
        invariant forall j :: 2 <= j < i ==> !bits[j]
      {
        bits[i] := false;
        i := i + 1;
      }
      assert m == map[0 := ZeroBlock(), 1 := ZeroBlock()];
      assert bits[..] == bits[..2] + bits[2..];
      assert bits[..2] == [true, true];
      CountAppend(bits[..2], bits[2..]);
      CountNone(bits[2..]);
      bitmap := bits;
      mem := m;
      nodes := map[];
      dir := [];
      rootSt := Stat(DIR_MODE, uid, gid, 0, 0, BLOCK_SIZE, 0);
      filenum := 0;
      usedblock := 2;
      pos := 0;
      chains := map[];
      owner := map[0 := Header, 1 := RootDir];
      leaked := 0;
    }

    /** The scan of lfs_find_free_block (lfs.c:81-87): the first clear bit
        cyclically from pos, or -1 when every bit is set. */
    method ScanFree() returns (r: int)
      requires StoreOk()
      ensures r == NextFree(bitmap[..], pos)
    {
      ghost var bits := bitmap[..];
      var i := pos;
      var count := 0;
      while bitmap[i] && count < BLOCK_NR
        invariant 0 <= count <= BLOCK_NR
        invariant i == Cyc(pos, count) && 0 <= i < BLOCK_NR
        invariant count > 0 ==> bits[pos]
        invariant NextFreeFrom(bits, pos, 0) == NextFreeFrom(bits, pos, count)
        decreases BLOCK_NR - count
      {
        CycNext(pos, count);
        i := (i + 1) % BLOCK_NR;
        count := count + 1;
      }
      if count == BLOCK_NR {
        CycFull(pos);
      }
      if !bitmap[i] {
        r := i;
      } else {
        r := -1;
      }
    }

    /** lfs_find_free_block: on success the cursor moves to the block found. */
    method FindFreeBlock() returns (r: int)
      requires StoreOk()
      modifies this`pos
      ensures StoreOk()
      ensures r == NextFree(bitmap[..], old(pos))
      ensures pos == if r == -1 then old(pos) else r
    {
      r := ScanFree();
      if r != -1 {
        pos := r;
      }
    }

    /** lfs_malloc: a clear bit is set, the block is zero-filled and usedblock
        grows by one; a set bit is refused and nothing changes. */
    method Malloc(b: int) returns (ok: bool)
      requires StoreOk() && 0 <= b < BLOCK_NR
      modifies this`mem, this`usedblock, bitmap
      ensures StoreOk()
      ensures ok == !old(bitmap[b])
      ensures ok ==> mem == old(mem)[b := ZeroBlock()]
      ensures ok ==> bitmap[..] == old(bitmap[..])[b := true]
      ensures ok ==> usedblock == old(usedblock) + 1
      ensures !ok ==> mem == old(mem) && bitmap[..] == old(bitmap[..]) && usedblock == old(usedblock)
    {
      if bitmap[b] {
        return false;
      }
      CountUpdate(bitmap[..], b, true);
      mem := mem[b := ZeroBlock()];
      bitmap[b] := true;
      usedblock := usedblock + 1;
      ok := true;
    }

    /** lfs_malloc(lfs_find_free_block()), the pair every allocation site
        uses: the block found is mapped, or with no clear bit -1 and nothing
        changes. The -1 test after lfs_malloc cannot fire: the block found is
        clear. */
    method AllocBlock() returns (b: int)
      requires StoreOk() && OwnerOk()
      modifies this`mem, this`usedblock, this`pos, bitmap
      ensures StoreOk() && OwnerOk()
      ensures b == NextFree(old(bitmap[..]), old(pos))
      ensures b == -1 <==> old(FreeCount()) == 0
      ensures b == -1 ==> mem == old(mem) && bitmap[..] == old(bitmap[..])
      ensures b == -1 ==> usedblock == old(usedblock) && pos == old(pos)
      ensures b != -1 ==> 0 <= b < BLOCK_NR && b !in old(mem) && b !in owner
      ensures b != -1 ==> mem == old(mem)[b := ZeroBlock()]
      ensures b != -1 ==> bitmap[..] == old(bitmap[..])[b := true]
      ensures b != -1 ==> usedblock == old(usedblock) + 1 && pos == b
      ensures b != -1 ==> FreeCount() == old(FreeCount()) - 1
    {
      b := FindFreeBlock();
      if b == -1 {
        return;
      }
      var ok := Malloc(b);
      assert ok;
      CountUpdate(old(bitmap[..]), b, true);
    }

    /** An allocation where a clear bit is known to exist. */
    method Allocate() returns (b: int)
      requires StoreOk() && OwnerOk()
      requires FreeCount() >= 1
      modifies this`mem, this`usedblock, this`pos, bitmap
      ensures StoreOk() && OwnerOk()
      ensures b == NextFree(old(bitmap[..]), old(pos)) && 0 <= b < BLOCK_NR
      ensures b !in old(mem) && b !in owner
      ensures mem == old(mem)[b := ZeroBlock()]
      ensures bitmap[..] == old(bitmap[..])[b := true]
      ensures usedblock == old(usedblock) + 1 && pos == b
      ensures FreeCount() == old(FreeCount()) - 1
    {
      b := AllocBlock();
    }

    /** lfs_free_inode(inode, flag) on node j of file e's chain c: the rest of
        the chain is released first, then slots flag.. of this node up to the
        first EMPTY, then, when flag is 0, the node's own block, whose bit is
        cleared without a usedblock decrement. */
    method FreeInode(id: int, flag: int, ghost e: int, ghost c: seq<int>, ghost j: int)
      requires StoreOk() && OwnerOk()
      requires TailOk(nodes, owner, e, c, j) && c[j] == id && NodeOk(nodes, owner, e, c, j)
      requires 0 <= flag <= DATA_BLOCKS_NUM
      modifies this`mem, this`usedblock, this`nodes, this`owner, this`leaked, bitmap
      ensures StoreOk() && OwnerOk()
      ensures mem == old(mem) - ReleasedNodes(c, j, flag) - ReleasedData(old(nodes), c, j, flag)
      ensures owner == old(owner) - ReleasedNodes(c, j, flag) - ReleasedData(old(nodes), c, j, flag)
      ensures flag == 0 ==> nodes == old(nodes) - ReleasedNodes(c, j, flag)
      ensures flag != 0 ==> nodes == (old(nodes) - ReleasedNodes(c, j, flag))[id :=
        old(nodes)[id].(slots := ClearFrom(old(nodes)[id].slots, flag))]
      ensures usedblock == old(usedblock) - ReleasedCount(old(nodes), c, j, flag)
      ensures leaked == old(leaked) + |c| - j - (if flag == 0 then 0 else 1)
      decreases |c| - j
    {
      hide StoreOk, OwnerOk;
      ghost var nodes0, owner0, mem0 := nodes, owner, mem;
      var n := nodes[id];
      ghost var rn, rd := ReleasedNodes(c, j + 1, 0), ReleasedData(nodes0, c, j + 1, 0);
      if n.next.Some? {
        ReleasedOwned(nodes, owner, e, c, j + 1, 0);
        assert NodeOk(nodes, owner, e, c, j + 1);
        FreeInode(n.next.value, 0, e, c, j + 1);
      } else {
        assert rn == {};
      }
      ghost var mem1, owner1 := mem, owner;
      NodeSurvives(nodes0, owner0, e, c, j, nodes, owner);
      assert SlotsReleased(nodes, id, flag) == SlotsReleased(nodes0, id, flag);
      ReleaseOne(id, flag, e, c, j);
      ReleaseUnfold(nodes0, c, j, flag);
      ghost var self: set<int> := if flag == 0 then {id} else {};
      ghost var here := SlotsReleased(nodes0, id, flag);
      MinusSplit(mem0, mem1, mem, rn, rd, here, self, ReleasedNodes(c, j, flag), ReleasedData(nodes0, c, j, flag));
      MinusSplit(owner0, owner1, owner, rn, rd, here, self, ReleasedNodes(c, j, flag), ReleasedData(nodes0, c, j, flag));
      if flag == 0 {
        MinusUpdate(nodes0, rn, id, n.(slots := ClearFrom(n.slots, flag)));
      }
    }

    /** The part of lfs_free_inode that concerns node id itself: its slots
        from flag up to the first EMPTY, then, when flag is 0, its own block. */
    method ReleaseOne(id: int, flag: int, ghost e: int, ghost c: seq<int>, ghost j: int)
      requires StoreOk() && OwnerOk()
      requires 0 <= j < |c| && c[j] == id && NodeOk(nodes, owner, e, c, j)
      requires 0 <= flag <= DATA_BLOCKS_NUM
      modifies this`mem, this`usedblock, this`nodes, this`owner, this`leaked, bitmap
      ensures StoreOk() && OwnerOk()
      ensures mem == old(mem) - SlotsReleased(old(nodes), id, flag) - (if flag == 0 then {id} else {})
      ensures owner == old(owner) - SlotsReleased(old(nodes), id, flag) - (if flag == 0 then {id} else {})
      ensures nodes == if flag == 0 then old(nodes)[id := old(nodes)[id].(slots := ClearFrom(old(nodes)[id].slots, flag))] - {id}
                       else old(nodes)[id := old(nodes)[id].(slots := ClearFrom(old(nodes)[id].slots, flag))]
      ensures usedblock == old(usedblock) - (Stop(old(nodes)[id].slots, flag) - flag)
      ensures leaked == old(leaked) + (if flag == 0 then 1 else 0)
    {
      hide StoreOk, OwnerOk;
      FreeSlots(id, flag, e, c, j);
      if flag == 0 {
        FreeNodeBlock(id);
        nodes := nodes - {id};
      } else {
        assert mem == mem - {};
        assert owner == owner - {};
      }
    }

    /** Releasing a data or entry block: its bit is cleared, it is unmapped
        and usedblock goes down by one. */
    method FreeBlock(b: int)
      requires StoreOk() && OwnerOk()
      requires b in owner && owner[b] != Header && owner[b] != RootDir
      modifies this`mem, this`usedblock, this`owner, bitmap
      ensures StoreOk() && OwnerOk()
      ensures mem == old(mem) - {b} && owner == old(owner) - {b}
      ensures usedblock == old(usedblock) - 1
      ensures FreeCount() == old(FreeCount()) + 1
    {
      CountUpdate(bitmap[..], b, false);
      bitmap[b] := false;
      mem := mem - {b};
      owner := owner - {b};
      usedblock := usedblock - 1;
    }

    /** Releasing an index node's block in lfs_free_inode: its bit is cleared
        and it is unmapped, but usedblock is left as it was. */
    method FreeNodeBlock(b: int)
      requires StoreOk() && OwnerOk()
      requires b in owner && owner[b] != Header && owner[b] != RootDir
      modifies this`mem, this`leaked, this`owner, bitmap
      ensures StoreOk() && OwnerOk()
      ensures mem == old(mem) - {b} && owner == old(owner) - {b}
      ensures leaked == old(leaked) + 1
      ensures FreeCount() == old(FreeCount()) + 1
    {
      CountUpdate(bitmap[..], b, false);
      bitmap[b] := false;
      mem := mem - {b};
      owner := owner - {b};
      leaked := leaked + 1;
    }

    /** The slot loop of lfs_free_inode: from slot flag of node id up to the
        first EMPTY, each block's bit is cleared, the block unmapped, the slot
        set to EMPTY and usedblock decremented. */
    method FreeSlots(id: int, flag: int, ghost e: int, ghost c: seq<int>, ghost j: int)
      requires StoreOk() && OwnerOk()
      requires 0 <= j < |c| && c[j] == id && NodeOk(nodes, owner, e, c, j)
      requires 0 <= flag <= DATA_BLOCKS_NUM
      modifies this`mem, this`usedblock, this`nodes, this`owner, bitmap
      ensures StoreOk() && OwnerOk()
      ensures mem == old(mem) - SlotsReleased(old(nodes), id, flag)
      ensures owner == old(owner) - SlotsReleased(old(nodes), id, flag)
      ensures nodes == old(nodes)[id := old(nodes)[id].(slots := ClearFrom(old(nodes)[id].slots, flag))]
      ensures usedblock == old(usedblock) - (Stop(old(nodes)[id].slots, flag) - flag)
    {
      hide StoreOk, OwnerOk;
      ghost var n := nodes[id];
      ghost var nodes0, mem0, owner0, used0 := nodes, mem, owner, usedblock;
      assert |n.slots| == DATA_BLOCKS_NUM;
      assert forall s :: 0 <= s < DATA_BLOCKS_NUM ==> SlotOk(owner, e, j, s, n.slots[s]);
      ClearNone(n.slots, flag);
      hide NodeOk, ClearRange, SlotSet, Stop, ClearFrom;
      assert SlotsInv(id, flag, n, flag, e, j, nodes0, mem0, owner0, used0);
      var i := flag;
      while i < DATA_BLOCKS_NUM && nodes[id].slots[i] != EMPTY
        invariant SlotsInv(id, i, n, flag, e, j, nodes0, mem0, owner0, used0)
        decreases DATA_BLOCKS_NUM - i
      {
        ReleaseNext(id, i, n, flag, e, j, nodes0, mem0, owner0, used0);
        i := i + 1;
      }
      SlotsDone(id, i, n, flag, e, j, nodes0, mem0, owner0, used0);
    }

    /** The invariant of that loop at slot i, against the node n and the store
        (nodes0, mem0, owner0, used0) it started from: the blocks of slots
        [flag, i) are released and those slots EMPTY; the later slots are
        still owned by their positions. */
    ghost predicate SlotsInv(id: int, i: int, n: INode, flag: int, e: int, j: int,
                             nodes0: map<int, INode>, mem0: map<int, seq<Byte>>,
                             owner0: map<int, Owner>, used0: int)
      reads this, bitmap
    {
      && StoreOk() && OwnerOk()
      && 0 <= flag <= i <= DATA_BLOCKS_NUM && |n.slots| == DATA_BLOCKS_NUM
      && (forall s :: flag <= s < i ==> n.slots[s] != EMPTY)
      && (forall s :: i <= s < DATA_BLOCKS_NUM ==> SlotOk(owner, e, j, s, n.slots[s]))
      && nodes == nodes0[id := n.(slots := ClearRange(n.slots, flag, i))]
      && mem == mem0 - SlotSet(n.slots, flag, i) && owner == owner0 - SlotSet(n.slots, flag, i)
      && usedblock == used0 - (i - flag)
    }

    /** One turn of that loop: slot i, which is not EMPTY, is released. */
    method ReleaseNext(id: int, i: int, ghost n: INode, ghost flag: int, ghost e: int, ghost j: int,
                       ghost nodes0: map<int, INode>, ghost mem0: map<int, seq<Byte>>,
                       ghost owner0: map<int, Owner>, ghost used0: int)
      requires SlotsInv(id, i, n, flag, e, j, nodes0, mem0, owner0, used0)
      requires i < DATA_BLOCKS_NUM && n.slots[i] != EMPTY
      modifies this`mem, this`usedblock, this`nodes, this`owner, bitmap
      ensures SlotsInv(id, i + 1, n, flag, e, j, nodes0, mem0, owner0, used0)
    {
      hide StoreOk, OwnerOk;
      ghost var a := SlotSet(n.slots, flag, i);
      ClearStep(n.slots, flag, i);
      MinusStep(mem0, a, n.slots[i]);
      MinusStep(owner0, a, n.slots[i]);
      ReleaseSlot(id, i);
    }

    /** The loop stops at the end of the node or at its first EMPTY slot, which
        is Stop(n.slots, flag). */
    ghost method SlotsDone(id: int, i: int, n: INode, flag: int, e: int, j: int,
                           nodes0: map<int, INode>, mem0: map<int, seq<Byte>>,
                           owner0: map<int, Owner>, used0: int)
      requires SlotsInv(id, i, n, flag, e, j, nodes0, mem0, owner0, used0)
      requires i == DATA_BLOCKS_NUM || nodes[id].slots[i] == EMPTY
      ensures i == Stop(n.slots, flag)
      ensures StoreOk() && OwnerOk()
      ensures mem == mem0 - SlotSet(n.slots, flag, i) && owner == owner0 - SlotSet(n.slots, flag, i)
      ensures nodes == nodes0[id := n.(slots := ClearFrom(n.slots, flag))]
      ensures usedblock == used0 - (i - flag)
    {
      StopAt(n.slots, flag, i);
    }

    /** One turn of that loop: slot i's block is released and the slot set to
        EMPTY. */
    method ReleaseSlot(id: int, i: int)
      requires StoreOk() && OwnerOk()
      requires id in nodes && 0 <= i < |nodes[id].slots|
      requires nodes[id].slots[i] in owner
      requires owner[nodes[id].slots[i]] != Header && owner[nodes[id].slots[i]] != RootDir
      modifies this`mem, this`usedblock, this`nodes, this`owner, bitmap
      ensures StoreOk() && OwnerOk()
      ensures mem == old(mem) - {old(nodes)[id].slots[i]}
      ensures owner == old(owner) - {old(nodes)[id].slots[i]}
      ensures nodes == old(nodes)[id := old(nodes)[id].(slots := old(nodes)[id].slots[i := EMPTY])]
      ensures usedblock == old(usedblock) - 1
    {
      hide StoreOk, OwnerOk;
      var n := nodes[id];
      FreeBlock(n.slots[i]);
      nodes := nodes[id := n.(slots := n.slots[i := EMPTY])];
    }

    /** get_filenode: first match of the path minus its leading character, the
        root itself being compared first. */
    method GetFilenode(path: string) returns (r: Found)
      requires |path| >= 1
      ensures r == Lookup(dir, path)
    {
      var key := path[1..];
      if key == ROOT_NAME {
        return RootNode;
      }
      var k := 0;
      while k < |dir|
        invariant 0 <= k <= |dir|
        invariant forall j :: 0 <= j < k ==> dir[j].name != key
      {
        if dir[k].name == key {
          return FileAt(k);
        }
        k := k + 1;
      }
      return NotFound;
    }

    /** lfs_getattr: "/" gets zeroed attributes with directory mode, a found
        node its own attributes, anything else -ENOENT with stbuf untouched. */
    method Getattr(path: string, stbuf: Stat) returns (ret: int, st: Stat)
      requires |path| >= 1
      ensures ret == 0 || ret == -ENOENT
      ensures path == "/" ==> ret == 0 && st == Stat(DIR_MODE, 0, 0, 0, 0, 0, 0)
      ensures path != "/" && Lookup(dir, path).RootNode? ==> ret == 0 && st == rootSt
      ensures path != "/" && Lookup(dir, path).FileAt? ==>
        ret == 0 && st == dir[Lookup(dir, path).index].st
      ensures ret == -ENOENT <==> path != "/" && Lookup(dir, path).NotFound?
      ensures ret == -ENOENT ==> st == stbuf
    {
      var node := GetFilenode(path);
      if path == "/" {
        ret, st := 0, Stat(DIR_MODE, 0, 0, 0, 0, 0, 0);
      } else if node.RootNode? {
        ret, st := 0, rootSt;
      } else if node.FileAt? {
        ret, st := 0, dir[node.index].st;
      } else {
        ret, st := -ENOENT, stbuf;
      }
    }

    /** lfs_readdir: ".", "..", then every name in list order. */
    method Readdir() returns (names: seq<string>)
      ensures |names| == |dir| + 2
      ensures names[0] == "." && names[1] == ".."
      ensures forall k :: 0 <= k < |dir| ==> names[k + 2] == dir[k].name
    {
      names := [".", ".."];
      var k := 0;
      while k < |dir|
        invariant 0 <= k <= |dir|
        invariant |names| == k + 2 && names[0] == "." && names[1] == ".."
        invariant forall j :: 0 <= j < k ==> names[j + 2] == dir[j].name
      {
        names := names + [dir[k].name];
        k := k + 1;
      }
    }

    /** create_filenode: one block for the entry, one for its first index
        node; the entry goes right after root and filenum grows. With one free
        block the entry block stays mapped and -1 is returned; with none
        nothing changes. */
    method CreateFilenode(filename: string, st: Stat) returns (r: int)
      requires Valid()
      requires |filename| < 255
      requires 0 <= st.size && st.blocks == st.size / BLOCK_SIZE
      modifies this`mem, this`usedblock, this`pos, this`nodes, this`owner, this`chains, this`dir, this`filenum, bitmap
      ensures Valid()
      ensures r == (if old(FreeCount()) >= 2 then 0 else -1)
      ensures old(FreeCount()) == 0 ==>
        mem == old(mem) && bitmap[..] == old(bitmap[..]) && usedblock == old(usedblock) &&
        pos == old(pos) && dir == old(dir) && filenum == old(filenum) &&
        nodes == old(nodes) && owner == old(owner) && chains == old(chains)
      ensures old(FreeCount()) == 1 ==>
        var b := NextFree(old(bitmap[..]), old(pos));
        mem == old(mem)[b := ZeroBlock()] && bitmap[..] == old(bitmap[..])[b := true] &&
        usedblock == old(usedblock) + 1 && pos == b && dir == old(dir) && filenum == old(filenum) &&
        nodes == old(nodes) && owner == old(owner) && chains == old(chains)
      ensures old(FreeCount()) >= 2 ==>
        var b := NextFree(old(bitmap[..]), old(pos));
        var ib := NextFree(old(bitmap[..])[b := true], b);
        && 0 <= ib < BLOCK_NR && ib != b
        && dir == [FileEntry(filename, b, ib, st)] + old(dir)
        && nodes == old(nodes)[ib := INode(None, EmptySlots())]
        && owner == old(owner)[b := EntryBlock(b)][ib := IndexNode(b, 0)]
        && chains == old(chains)[b := [ib]]
        && mem == old(mem)[b := ZeroBlock()][ib := ZeroBlock()]
        && bitmap[..] == old(bitmap[..])[b := true][ib := true]
        && usedblock == old(usedblock) + 2 && pos == ib && filenum == old(filenum) + 1
      ensures rootSt == old(rootSt)
      ensures forall bk :: bk in old(mem) ==> bk in mem && mem[bk] == old(mem)[bk]
    {
      hide StoreOk, OwnerOk, NextFree, FreeCount, Count;
      var blockNum := AllocBlock();
      if blockNum == -1 {
        return -1;
      }
      var inodeBlockNum := AllocBlock();
      if inodeBlockNum == -1 {
        return -1;
      }
      Link(FileEntry(filename, blockNum, inodeBlockNum, st));
      r := 0;
    }

    /** The list and node updates of create_filenode once both blocks are
        mapped: the entry goes in right after root with an empty first index
        node, and filenum grows. */
    method Link(f: FileEntry)
      requires StoreOk() && OwnerOk() && DirOk(nodes, owner, chains, dir)
      requires f.blockNum in mem && f.inode in mem
      requires f.blockNum !in owner && f.inode !in owner && f.blockNum != f.inode
      requires 0 <= f.st.size && f.st.blocks == f.st.size / BLOCK_SIZE
      modifies this`nodes, this`owner, this`chains, this`dir, this`filenum
      ensures Valid()
      ensures dir == [f] + old(dir) && filenum == old(filenum) + 1
      ensures nodes == old(nodes)[f.inode := INode(None, EmptySlots())]
      ensures owner == old(owner)[f.blockNum := EntryBlock(f.blockNum)][f.inode := IndexNode(f.blockNum, 0)]
      ensures chains == old(chains)[f.blockNum := [f.inode]]
    {
      hide StoreOk;
      AddEntry(nodes, owner, chains, dir, f);
      nodes := nodes[f.inode := INode(None, EmptySlots())];
      owner := owner[f.blockNum := EntryBlock(f.blockNum)][f.inode := IndexNode(f.blockNum, 0)];
      chains := chains[f.blockNum := [f.inode]];
      dir := [f] + dir;
      filenum := filenum + 1;
    }

    /** lfs_mknod: a regular file with mode 0644, the caller's uid and gid,
        size 0; -ENOSPC when create_filenode fails. The requested mode is
        not used. */
    method Mknod(path: string, mode: int, uid: int, gid: int) returns (r: int)
      requires Valid()
      requires 1 <= |path| < 256
      modifies this`mem, this`usedblock, this`pos, this`nodes, this`owner, this`chains, this`dir, this`filenum, bitmap
      ensures Valid()
      ensures r == (if old(FreeCount()) >= 2 then 0 else -ENOSPC)
      ensures old(FreeCount()) == 0 ==>
        mem == old(mem) && bitmap[..] == old(bitmap[..]) && usedblock == old(usedblock) &&
        pos == old(pos) && dir == old(dir) && filenum == old(filenum) &&
        nodes == old(nodes) && owner == old(owner) && chains == old(chains)
      ensures old(FreeCount()) == 1 ==>
        var b := NextFree(old(bitmap[..]), old(pos));
        mem == old(mem)[b := ZeroBlock()] && bitmap[..] == old(bitmap[..])[b := true] &&
        usedblock == old(usedblock) + 1 && pos == b && dir == old(dir) && filenum == old(filenum) &&
        nodes == old(nodes) && owner == old(owner) && chains == old(chains)
      ensures old(FreeCount()) >= 2 ==>
        var b := NextFree(old(bitmap[..]), old(pos));
        var ib := NextFree(old(bitmap[..])[b := true], b);
        && 0 <= ib < BLOCK_NR && ib != b
        && dir == [FileEntry(path[1..], b, ib, Stat(FILE_MODE, uid, gid, 1, 0, BLOCK_SIZE, 0))] + old(dir)
        && nodes == old(nodes)[ib := INode(None, EmptySlots())]
        && owner == old(owner)[b := EntryBlock(b)][ib := IndexNode(b, 0)]
        && chains == old(chains)[b := [ib]]
        && mem == old(mem)[b := ZeroBlock()][ib := ZeroBlock()]
        && bitmap[..] == old(bitmap[..])[b := true][ib := true]
        && usedblock == old(usedblock) + 2 && pos == ib && filenum == old(filenum) + 1
      ensures rootSt == old(rootSt)
    {
      hide StoreOk, OwnerOk;
      var st := Stat(FILE_MODE, uid, gid, 1, 0, BLOCK_SIZE, 0);
      var flag := CreateFilenode(path[1..], st);
      if flag == -1 {
        return -ENOSPC;
      }
      return 0;
    }

    /** lfs_read: ret is size, or st_size - offset when the read runs past the
        end. The walk from the chain head finds the block holding the first
        byte; an EMPTY slot there leaves buf untouched. Otherwise `size` bytes
        are copied from the file, block by block, whatever ret says. */
    method Read(path: string, buf: seq<Byte>, size: int, offset: int) returns (ret: int, out: seq<Byte>)
      requires Valid()
      requires |path| >= 1 && Lookup(dir, path).FileAt?
      requires |buf| == size && 0 <= offset && offset + size <= INT_MAX
      requires ReadReaches(nodes, chains[dir[Lookup(dir, path).index].blockNum], size, offset)
      ensures var f := dir[Lookup(dir, path).index];
        ret == if offset + size > f.st.size then f.st.size - offset else size
      ensures |out| == size
      ensures var c := chains[dir[Lookup(dir, path).index].blockNum];
        LogicalSlot(nodes, c, offset / BLOCK_SIZE) == EMPTY ==> out == buf
      ensures var c := chains[dir[Lookup(dir, path).index].blockNum];
        LogicalSlot(nodes, c, offset / BLOCK_SIZE) != EMPTY ==>
          forall i :: 0 <= i < size ==> out[i] == FileByte(mem, nodes, c, offset + i)
    {
      var found := GetFilenode(path);
      var f := dir[found.index];
      assert EntryOk(nodes, owner, chains, f);
      ret := size;
      if offset + size > f.st.size {
        ret := f.st.size - offset;
      }
      out := ReadChain(mem, nodes, owner, f.blockNum, chains[f.blockNum], f.inode, buf, size, offset);
    }

    /** lfs_unlink: the file's chain is released from its first node with flag
        0 (every node, every data block up to each node's first EMPTY), the
        entry leaves the list, its block is unmapped and usedblock goes down
        by one for it; filenum is left as it was. Blocks of other files are
        untouched. */
    method Unlink(path: string) returns (r: int)
      requires Valid()
      requires |path| >= 1 && Lookup(dir, path).FileAt?
      modifies this`mem, this`usedblock, this`nodes, this`owner, this`leaked, this`dir, this`chains, bitmap
      ensures Valid()
      ensures r == 0
      ensures var k := Lookup(old(dir), path).index;
        var e := old(dir)[k].blockNum;
        var c := old(chains)[e];
        && dir == Without(old(dir), k)
        && chains == old(chains) - {e}
        && nodes == old(nodes) - ReleasedNodes(c, 0, 0)
        && mem == old(mem) - ReleasedNodes(c, 0, 0) - ReleasedData(old(nodes), c, 0, 0) - {e}
        && usedblock == old(usedblock) - ReleasedCount(old(nodes), c, 0, 0) - 1
      ensures var e := old(dir)[Lookup(old(dir), path).index].blockNum;
        forall b :: b in old(owner) && !OwnedBy(old(owner)[b], e) ==>
          b in mem && mem[b] == old(mem)[b] && b in owner && owner[b] == old(owner)[b]
    {
      hide StoreOk, OwnerOk, DirOk, EntryOk, ChainOk, TailOk, NodeOk, ReleasedNodes, ReleasedData, ReleasedCount;
      var found := GetFilenode(path);
      var k := found.index;
      var f := dir[k];
      EntryFacts(nodes, owner, chains, dir, k);
      ghost var e, c := f.blockNum, chains[f.blockNum];
      ghost var nodes0, owner0, dir0, chains0, mem0 := nodes, owner, dir, chains, mem;
      FreeInode(f.inode, 0, e, c, 0);
      dir := Without(dir, k);
      FreeBlock(f.blockNum);
      chains := chains - {e};
      assert owner == owner0 - (ReleasedNodes(c, 0, 0) + ReleasedData(nodes0, c, 0, 0) + {e});
      UnlinkDirOk(nodes0, owner0, chains0, dir0, k, nodes, owner, chains);
      r := 0;
    }

    /** The memset of lfs_truncate: block b is zeroed from byte at on. */
    method Memset(b: int, at: int)
      requires StoreOk() && OwnerOk()
      requires b in owner && 0 <= at <= BLOCK_SIZE
      modifies this`mem
      ensures StoreOk() && OwnerOk()
      ensures b in old(mem) && |old(mem)[b]| == BLOCK_SIZE
      ensures mem == old(mem)[b := ZeroFrom(old(mem)[b], at)]
    {
      mem := mem[b := ZeroFrom(mem[b], at)];
    }

    /** The release that ends lfs_truncate, on node h of entry k's chain with
        current slot cb: on the last slot of a node that has a successor the
        successor is released from slot 0, otherwise node h from slot cb + 1;
        either way node h's next becomes NULL. Both come to the release from
        (h, cb + 1). */
    method Cut(inode: int, cb: int, ghost k: int, ghost e: int, ghost c: seq<int>, ghost h: int)
      requires StoreOk() && OwnerOk() && DirOk(nodes, owner, chains, dir)
      requires 0 <= k < |dir| && dir[k].blockNum == e && e in chains && chains[e] == c
      requires 0 <= h < |c| && c[h] == inode && 0 <= cb < DATA_BLOCKS_NUM
      modifies this`mem, this`usedblock, this`nodes, this`owner, this`leaked, this`chains, bitmap
      ensures Valid()
      ensures inode in old(nodes) && |old(nodes)[inode].slots| == DATA_BLOCKS_NUM
      ensures nodes == Truncated(old(nodes), c, h, cb + 1)
      ensures mem == old(mem) - ReleasedNodes(c, h, cb + 1) - ReleasedData(old(nodes), c, h, cb + 1)
      ensures owner == old(owner) - ReleasedNodes(c, h, cb + 1) - ReleasedData(old(nodes), c, h, cb + 1)
      ensures chains == old(chains)[e := c[..h + 1]]
      ensures usedblock == old(usedblock) - ReleasedCount(old(nodes), c, h, cb + 1)
      ensures leaked == old(leaked) + |c| - h - 1
    {
      hide StoreOk, OwnerOk, DirOk, EntryOk, ChainOk, TailOk, NodeOk,
           ReleasedNodes, ReleasedData, ReleasedCount, Truncated;
      TruncDirOk(nodes, owner, chains, dir, k, h, cb + 1);
      Release(inode, cb, k, e, c, h);
      nodes := nodes[inode := nodes[inode].(next := None)];
      chains := chains[e := c[..h + 1]];
    }

    /** The two releases of Cut, before node h's next becomes NULL. */
    method Release(inode: int, cb: int, ghost k: int, ghost e: int, ghost c: seq<int>, ghost h: int)
      requires StoreOk() && OwnerOk() && DirOk(nodes, owner, chains, dir)
      requires 0 <= k < |dir| && dir[k].blockNum == e && e in chains && chains[e] == c
      requires 0 <= h < |c| && c[h] == inode && 0 <= cb < DATA_BLOCKS_NUM
      modifies this`mem, this`usedblock, this`nodes, this`owner, this`leaked, bitmap
      ensures StoreOk() && OwnerOk()
      ensures inode in old(nodes) && |old(nodes)[inode].slots| == DATA_BLOCKS_NUM
      ensures inode in nodes && nodes[inode := nodes[inode].(next := None)] == Truncated(old(nodes), c, h, cb + 1)
      ensures mem == old(mem) - ReleasedNodes(c, h, cb + 1) - ReleasedData(old(nodes), c, h, cb + 1)
      ensures owner == old(owner) - ReleasedNodes(c, h, cb + 1) - ReleasedData(old(nodes), c, h, cb + 1)
      ensures usedblock == old(usedblock) - ReleasedCount(old(nodes), c, h, cb + 1)
      ensures leaked == old(leaked) + |c| - h - 1
    {
      hide StoreOk, OwnerOk, DirOk, EntryOk, ChainOk, TailOk, NodeOk,
           ReleasedNodes, ReleasedData, ReleasedCount, Truncated;
      EntryAt(nodes, owner, chains, dir, k, h);
      EntryAt(nodes, owner, chains, dir, k, h + 1);
      ghost var nodes0 := nodes;
      if cb == DATA_BLOCKS_NUM - 1 && nodes[inode].next.Some? {
        LastSlotRelease(nodes, c, h);
        FreeInode(nodes[inode].next.value, 0, e, c, h + 1);
        TruncatedLast(nodes0, c, h, nodes);
      } else {
        FreeInode(inode, cb + 1, e, c, h);
        TruncatedInner(nodes0, c, h, cb + 1, nodes);
      }
    }

    /** lfs_truncate: the entry's size becomes size and its block count
        size / BLOCK_SIZE. For size 0 nothing else changes. Otherwise the walk
        stops at logical block t = (size - 1) / BLOCK_SIZE; when size is not a
        block multiple, the first block of the file (which is block t only
        when t = 0) is zeroed from byte size % BLOCK_SIZE on; then the chain is released from slot
        t % DATA_BLOCKS_NUM + 1 of its node and cut after that node. */
    method Truncate(path: string, size: int) returns (r: int)
      requires Valid()
      requires |path| >= 1 && Lookup(dir, path).FileAt?
      requires 0 <= size <= INT_MAX
      requires var c := chains[dir[Lookup(dir, path).index].blockNum];
        size > 0 ==> Split(size - 1).hops < |c|
      requires var c := chains[dir[Lookup(dir, path).index].blockNum];
        size > 0 && size % BLOCK_SIZE != 0 ==> LogicalSlot(nodes, c, 0) != EMPTY
      modifies this`mem, this`usedblock, this`nodes, this`owner, this`leaked, this`chains, this`dir, bitmap
      ensures Valid()
      ensures r == 0
      ensures var k := Lookup(old(dir), path).index; var f := old(dir)[k];
        dir == old(dir)[k := f.(st := f.st.(size := size, blocks := size / BLOCK_SIZE))]
      ensures size == 0 ==>
        && mem == old(mem) && nodes == old(nodes) && chains == old(chains)
        && owner == old(owner) && usedblock == old(usedblock) && leaked == old(leaked)
      ensures size > 0 ==>
        var e := old(dir)[Lookup(old(dir), path).index].blockNum;
        var c := old(chains)[e];
        var h, flag := Split(size - 1).hops, Split(size - 1).slot + 1;
        && h < |c| && c[h] in old(nodes) && |old(nodes)[c[h]].slots| == DATA_BLOCKS_NUM
        && nodes == Truncated(old(nodes), c, h, flag)
        && chains == old(chains)[e := c[..h + 1]]
        && mem == TruncMem(old(mem), old(nodes), c, size) - ReleasedNodes(c, h, flag) - ReleasedData(old(nodes), c, h, flag)
        && owner == old(owner) - ReleasedNodes(c, h, flag) - ReleasedData(old(nodes), c, h, flag)
        && usedblock == old(usedblock) - ReleasedCount(old(nodes), c, h, flag)
      ensures size > 0 ==>
        var e := old(dir)[Lookup(old(dir), path).index].blockNum;
        forall L :: 0 <= L <= (size - 1) / BLOCK_SIZE ==>
          LogicalSlot(nodes, chains[e], L) == LogicalSlot(old(nodes), old(chains)[e], L)
      ensures var e := old(dir)[Lookup(old(dir), path).index].blockNum;
        forall x :: 0 <= x < size && (size % BLOCK_SIZE == 0 || x / BLOCK_SIZE != 0 || x % BLOCK_SIZE < size % BLOCK_SIZE) ==>
          FileByte(mem, nodes, chains[e], x) == FileByte(old(mem), old(nodes), old(chains)[e], x)
    {
      assert EMPTY !in mem;
      hide StoreOk, OwnerOk, DirOk, EntryOk, ChainOk, TailOk, NodeOk, SlotOk, LogicalSlot, ZeroFrom,
           ReleasedNodes, ReleasedData, ReleasedCount, Truncated, TruncMem, FileByte;
      var found := GetFilenode(path);
      var k := found.index;
      EntryChain(nodes, owner, chains, dir, k);
      if size > 0 {
        TruncView(mem, nodes, owner, dir[k].blockNum, chains[dir[k].blockNum], size);
      }
      EntryAt(nodes, owner, chains, dir, k, 0);
      r := TruncateEntry(k, size, dir[k].blockNum, chains[dir[k].blockNum]);
    }

    /** The end of lfs_truncate's walk, at node h, slot cb, with currSize
        bytes left in that block: the memset through the first block when
        currSize is short of a block, then the release and the cut. */
    method CutAt(currSize: int, cb: int, inode: int, data: int,
                 ghost k: int, ghost e: int, ghost c: seq<int>, ghost h: int, ghost size: int)
      requires StoreOk() && OwnerOk() && DirOk(nodes, owner, chains, dir)
      requires 0 <= k < |dir| && dir[k].blockNum == e && e in chains && chains[e] == c
      requires 0 <= h < |c| && c[h] == inode && 0 <= cb < DATA_BLOCKS_NUM
      requires 0 < currSize <= BLOCK_SIZE && size == currSize + BLOCK_SIZE * (h * DATA_BLOCKS_NUM + cb)
      requires data == LogicalSlot(nodes, c, 0) && (currSize < BLOCK_SIZE ==> data != EMPTY)
      modifies this`mem, this`usedblock, this`nodes, this`owner, this`leaked, this`chains, bitmap
      ensures Valid()
      ensures Split(size - 1) == Coord(h, cb, currSize - 1)
      ensures inode in old(nodes) && |old(nodes)[inode].slots| == DATA_BLOCKS_NUM
      ensures nodes == Truncated(old(nodes), c, h, cb + 1)
      ensures chains == old(chains)[e := c[..h + 1]]
      ensures mem == TruncMem(old(mem), old(nodes), c, size) - ReleasedNodes(c, h, cb + 1)
                     - ReleasedData(old(nodes), c, h, cb + 1)
      ensures owner == old(owner) - ReleasedNodes(c, h, cb + 1) - ReleasedData(old(nodes), c, h, cb + 1)
      ensures usedblock == old(usedblock) - ReleasedCount(old(nodes), c, h, cb + 1)
    {
      hide StoreOk, OwnerOk, DirOk, EntryOk, ChainOk, TailOk, NodeOk, SlotOk, LogicalSlot, ZeroFrom,
           ReleasedNodes, ReleasedData, ReleasedCount, Truncated, TruncMem;
      ghost var t := h * DATA_BLOCKS_NUM + cb;
      InBlock(t, currSize - 1);
      InNode(h, cb);
      EntryAt(nodes, owner, chains, dir, k, 0);
      if currSize < BLOCK_SIZE {
        InBlock(t, currSize);
        Memset(data, currSize);
        TruncMemIs(old(mem), old(nodes), c, size, data);
      } else {
        InBlock(t + 1, 0);
        TruncMemIs(old(mem), old(nodes), c, size, data);
      }
      Cut(inode, cb, k, e, c, h);
    }

    /** lfs_truncate once get_filenode has found entry k of file e, whose
        chain is c. */
    method TruncateEntry(k: int, size: int, ghost e: int, ghost c: seq<int>) returns (r: int)
      requires Valid()
      requires 0 <= k < |dir| && dir[k].blockNum == e && e in chains && chains[e] == c
      requires 0 <= size <= INT_MAX
      requires size > 0 ==> Split(size - 1).hops < |c|
      requires size > 0 && size % BLOCK_SIZE != 0 ==> LogicalSlot(nodes, c, 0) != EMPTY
      modifies this`mem, this`usedblock, this`nodes, this`owner, this`leaked, this`chains, this`dir, bitmap
      ensures Valid()
      ensures r == 0
      ensures dir == old(dir)[k := old(dir)[k].(st := old(dir)[k].st.(size := size, blocks := size / BLOCK_SIZE))]
      ensures size == 0 ==>
        && mem == old(mem) && nodes == old(nodes) && chains == old(chains)
        && owner == old(owner) && usedblock == old(usedblock) && leaked == old(leaked)
      ensures size > 0 ==> Split(size - 1).hops < |c| && c[Split(size - 1).hops] in old(nodes)
      ensures size > 0 ==> |old(nodes)[c[Split(size - 1).hops]].slots| == DATA_BLOCKS_NUM
      ensures size > 0 ==> nodes == Truncated(old(nodes), c, Split(size - 1).hops, Split(size - 1).slot + 1)
      ensures size > 0 ==> chains == old(chains)[e := c[..Split(size - 1).hops + 1]]
      ensures size > 0 ==>
        mem == TruncMem(old(mem), old(nodes), c, size)
               - ReleasedNodes(c, Split(size - 1).hops, Split(size - 1).slot + 1)
               - ReleasedData(old(nodes), c, Split(size - 1).hops, Split(size - 1).slot + 1)
      ensures size > 0 ==>
        owner == old(owner)
                 - ReleasedNodes(c, Split(size - 1).hops, Split(size - 1).slot + 1)
                 - ReleasedData(old(nodes), c, Split(size - 1).hops, Split(size - 1).slot + 1)
      ensures size > 0 ==>
        usedblock == old(usedblock) - ReleasedCount(old(nodes), c, Split(size - 1).hops, Split(size - 1).slot + 1)
    {
      hide StoreOk, OwnerOk, DirOk, EntryOk, ChainOk, TailOk, NodeOk, SlotOk, LogicalSlot, ZeroFrom,
           ReleasedNodes, ReleasedData, ReleasedCount, Truncated, TruncMem;
      var f := dir[k];
      EntryAt(nodes, owner, chains, dir, k, 0);
      StatUpdate(nodes, owner, chains, dir, k, f.st.(size := size, blocks := size / BLOCK_SIZE));
      dir := dir[k := f.(st := f.st.(size := size, blocks := size / BLOCK_SIZE))];
      ghost var dir1 := dir;
      var currSize := size;
      var currBlock := 0;
      var inode := f.inode;
      var data := nodes[inode].slots[0];
      ghost var h := 0;
      while currSize > 0
        invariant 0 <= currBlock < DATA_BLOCKS_NUM && 0 <= h < |c| && inode == c[h]
        invariant size == currSize + BLOCK_SIZE * (h * DATA_BLOCKS_NUM + currBlock)
        invariant currSize > 0 || (size == 0 && h == 0 && currBlock == 0)
        invariant mem == old(mem) && nodes == old(nodes) && chains == old(chains)
        invariant owner == old(owner) && usedblock == old(usedblock) && leaked == old(leaked)
        invariant dir == dir1 && StoreOk() && OwnerOk() && DirOk(nodes, owner, chains, dir)
      {
        if currSize <= BLOCK_SIZE {
          CutAt(currSize, currBlock, inode, data, k, e, c, h, size);
          return 0;
        }
        currSize := currSize - BLOCK_SIZE;
        currBlock := (currBlock + 1) % DATA_BLOCKS_NUM;
        if currBlock == 0 {
          HopsBound(size - 1, Coord(h + 1, 0, 0));
          EntryAt(nodes, owner, chains, dir, k, h);
          inode := nodes[inode].next.value;
          h := h + 1;
        }
      }
      return 0;
    }
  
    /** A memcpy of lfs_write: src lands in block d from byte at on. */
    method CopyTo(d: int, at: int, src: seq<Byte>)
      requires StoreOk() && OwnerOk()
      requires d in owner && 0 <= at && at + |src| <= BLOCK_SIZE
      modifies this`mem
      ensures StoreOk() && OwnerOk()
      ensures d in old(mem) && |old(mem)[d]| == BLOCK_SIZE
      ensures mem == old(mem)[d := CopyInto(old(mem)[d], at, src)]
    {
      mem := mem[d := CopyInto(mem[d], at, src)];
    }

    /** A fresh data block in slot s of node j of file e's chain c, which
        overwrites whatever the slot held (lfs_write's interior loop does not
        look). */
    method FillSlot(id: int, s: int, ghost k: int, ghost e: int, ghost c: seq<int>, ghost j: int) returns (w: int)
      requires StoreOk() && OwnerOk() && DirOk(nodes, owner, chains, dir)
      requires 0 <= k < |dir| && dir[k].blockNum == e && e in chains && chains[e] == c
      requires 0 <= j < |c| && c[j] == id && 0 <= s < DATA_BLOCKS_NUM
      requires FreeCount() >= 1
      modifies this`mem, this`usedblock, this`pos, this`nodes, this`owner, bitmap
      ensures NodesKept(old(nodes), old(owner), nodes, e)
      ensures StoreOk() && OwnerOk() && DirOk(nodes, owner, chains, dir)
      ensures 0 <= w < BLOCK_NR && w !in old(mem) && w !in old(owner)
      ensures id in old(nodes) && |old(nodes)[id].slots| == DATA_BLOCKS_NUM
      ensures nodes == SlotFilled(old(nodes), id, s, w)
      ensures owner == old(owner)[w := DataBlock(e, j, s)]
      ensures mem == old(mem)[w := ZeroBlock()]
      ensures usedblock == old(usedblock) + 1 && FreeCount() == old(FreeCount()) - 1
      ensures forall L :: 0 <= L ==>
        LogicalSlot(nodes, c, L) == if L == j * DATA_BLOCKS_NUM + s then w else LogicalSlot(old(nodes), c, L)
      ensures forall L :: 0 <= L && L != j * DATA_BLOCKS_NUM + s ==> LogicalSlot(nodes, c, L) != w
    {
      assert forall b :: b in owner ==> b in mem;
      hide StoreOk, OwnerOk, DirOk, EntryOk, ChainOk, NodeOk, LogicalSlot, FreeCount, Count, NextFree;
      EntryChain(nodes, owner, chains, dir, k);
      NodeAt(nodes, owner, e, c, j);
      w := Allocate();
      FillChainOk(nodes, owner, e, c, j, s, w);
      FillSlots(nodes, owner, e, c, j, s, w);
      forall L | 0 <= L && L != j * DATA_BLOCKS_NUM + s ensures LogicalSlot(nodes, c, L) != w {
        SlotOwned(nodes, owner, e, c, L);
      }
      ghost var nodes0 := nodes;
      nodes := nodes[id := nodes[id].(slots := nodes[id].slots[s := w])];
      owner := owner[w := DataBlock(e, j, s)];
      GrowDirOk(nodes0, old(owner), chains, dir, k, nodes, owner, c);
    }

    /** A fresh index node, every slot EMPTY and no next, becomes the next of
        node j of file e's chain c (lfs_write's hop loop and interior loop);
        the nodes that followed node j are no longer on the chain. */
    method LinkNode(id: int, ghost k: int, ghost e: int, ghost c: seq<int>, ghost j: int) returns (nb: int)
      requires StoreOk() && OwnerOk() && DirOk(nodes, owner, chains, dir)
      requires 0 <= k < |dir| && dir[k].blockNum == e && e in chains && chains[e] == c
      requires 0 <= j < |c| && c[j] == id
      requires FreeCount() >= 1
      modifies this`mem, this`usedblock, this`pos, this`nodes, this`owner, this`chains, bitmap
      ensures NodesKept(old(nodes), old(owner), nodes, e)
      ensures StoreOk() && OwnerOk() && DirOk(nodes, owner, chains, dir)
      ensures 0 <= nb < BLOCK_NR && nb !in old(mem) && nb !in old(owner)
      ensures id in old(nodes)
      ensures nodes == Relinked(old(nodes), c, j, nb)
      ensures owner == old(owner)[nb := IndexNode(e, j + 1)]
      ensures chains == old(chains)[e := c[..j + 1] + [nb]]
      ensures mem == old(mem)[nb := ZeroBlock()]
      ensures usedblock == old(usedblock) + 1 && FreeCount() == old(FreeCount()) - 1
      ensures forall L :: 0 <= L ==>
        LogicalSlot(nodes, chains[e], L) ==
          if L < (j + 1) * DATA_BLOCKS_NUM then LogicalSlot(old(nodes), c, L) else EMPTY
      ensures forall x :: 0 <= x && x / BLOCK_SIZE < (j + 1) * DATA_BLOCKS_NUM ==>
        FileByte(mem, nodes, chains[e], x) == FileByte(old(mem), old(nodes), c, x)
    {
      assert forall b :: b in owner ==> b in mem;
      assert EMPTY !in mem;
      hide StoreOk, OwnerOk, DirOk, EntryOk, ChainOk, NodeOk, LogicalSlot, FreeCount, Count, NextFree, FileByte;
      EntryChain(nodes, owner, chains, dir, k);
      NodeAt(nodes, owner, e, c, j);
      nb := Allocate();
      RelinkChainOk(nodes, owner, e, c, j, nb);
      RelinkSlots(nodes, owner, e, c, j, nb);
      ghost var nodes0 := nodes;
      nodes := nodes[id := nodes[id].(next := Some(nb))][nb := INode(None, EmptySlots())];
      owner := owner[nb := IndexNode(e, j + 1)];
      GrowDirOk(nodes0, old(owner), chains, dir, k, nodes, owner, c[..j + 1] + [nb]);
      chains := chains[e := c[..j + 1] + [nb]];
      Attached(nodes0, old(owner), old(mem), e, c);
      ViewKeep(old(mem), nodes0, c, mem, nodes, chains[e], (j + 1) * DATA_BLOCKS_NUM);
    }

    /** The first block of lfs_write: the block in slot s of node h is used
        when the slot holds a positive block number, otherwise a fresh block
        is attached there. Either way the file's bytes are what they were. */
    method FirstBlock(id: int, s: int, ghost k: int, ghost e: int, ghost h: int) returns (d: int)
      requires StoreOk() && OwnerOk() && DirOk(nodes, owner, chains, dir)
      requires 0 <= k < |dir| && dir[k].blockNum == e && e in chains
      requires 0 <= h < |chains[e]| && chains[e][h] == id && 0 <= s < DATA_BLOCKS_NUM
      requires LogicalSlot(nodes, chains[e], h * DATA_BLOCKS_NUM + s) > 0 || FreeCount() >= 1
      modifies this`mem, this`usedblock, this`pos, this`nodes, this`owner, bitmap
      ensures NodesKept(old(nodes), old(owner), nodes, e)
      ensures StoreOk() && OwnerOk() && DirOk(nodes, owner, chains, dir)
      ensures var L := h * DATA_BLOCKS_NUM + s;
        && d == LogicalSlot(nodes, chains[e], L) && d in owner && owner[d] == DataBlock(e, h, s)
        && d in mem && |mem[d]| == BLOCK_SIZE && d != EMPTY
        && forall L' :: 0 <= L' && L' != L ==> LogicalSlot(nodes, chains[e], L') != d
      ensures var used := if old(LogicalSlot(nodes, chains[e], h * DATA_BLOCKS_NUM + s)) > 0 then 0 else 1;
        FreeCount() == old(FreeCount()) - used && usedblock == old(usedblock) + used
      ensures forall x :: 0 <= x ==>
        FileByte(mem, nodes, chains[e], x) == FileByte(old(mem), old(nodes), chains[e], x)
      ensures forall b :: b in old(owner) ==> b in owner && owner[b] == old(owner)[b]
      ensures forall b :: b in old(mem) ==> b in mem && mem[b] == old(mem)[b]
    {
      assert forall b :: b in owner ==> b in mem;
      assert forall b :: b in mem ==> |mem[b]| == BLOCK_SIZE;
      assert EMPTY !in mem;
      hide StoreOk, OwnerOk, DirOk, EntryOk, ChainOk, NodeOk, LogicalSlot, FreeCount, Count, NextFree, FileByte;
      ghost var c := chains[e];
      ghost var L := h * DATA_BLOCKS_NUM + s;
      EntryChain(nodes, owner, chains, dir, k);
      NodeAt(nodes, owner, e, c, h);
      SlotOwned(nodes, owner, e, c, L);
      Attached(nodes, owner, mem, e, c);
      InNode(h, s);
      if nodes[id].slots[s] > 0 {
        d := nodes[id].slots[s];
        forall L' | 0 <= L' && L' != L ensures LogicalSlot(nodes, c, L') != d {
          SlotUnique(nodes, owner, e, c, L, L');
        }
      } else {
        ghost var mem0, nodes0 := mem, nodes;
        d := FillSlot(id, s, k, e, c, h);
        FillView(mem0, nodes0, c, mem, nodes, c, L);
      }
    }

    /** The data-block step of lfs_write's interior loop: a fresh block in
        slot u of node h (logical block L), whatever the slot held, receives
        the first n bytes of buf. */
    method FillCopy(id: int, u: int, buf: seq<Byte>, n: int, ghost k: int, ghost e: int, ghost h: int, ghost L: int)
      requires StoreOk() && OwnerOk() && DirOk(nodes, owner, chains, dir)
      requires 0 <= k < |dir| && dir[k].blockNum == e && e in chains
      requires 0 <= h < |chains[e]| && chains[e][h] == id && 0 <= u < DATA_BLOCKS_NUM
      requires L == h * DATA_BLOCKS_NUM + u
      requires 0 <= n <= BLOCK_SIZE && n <= |buf|
      requires FreeCount() >= 1
      modifies this`mem, this`usedblock, this`pos, this`nodes, this`owner, bitmap
      ensures NodesKept(old(nodes), old(owner), nodes, e)
      ensures StoreOk() && OwnerOk() && DirOk(nodes, owner, chains, dir)
      ensures FreeCount() == old(FreeCount()) - 1 && usedblock == old(usedblock) + 1
      ensures forall b :: b in old(owner) ==> b in owner && owner[b] == old(owner)[b]
      ensures forall b :: b in old(owner) && !OwnedBy(old(owner)[b], e) ==> b in mem && mem[b] == old(mem)[b]
      ensures forall x :: 0 <= x && x / BLOCK_SIZE != L ==>
        FileByte(mem, nodes, chains[e], x) == FileByte(old(mem), old(nodes), chains[e], x)
      ensures forall x :: 0 <= x && x / BLOCK_SIZE == L && x % BLOCK_SIZE < n ==>
        FileByte(mem, nodes, chains[e], x) == buf[x % BLOCK_SIZE]
    {
      assert forall b :: b in owner ==> b in mem;
      assert EMPTY !in mem;
      hide StoreOk, OwnerOk, DirOk, EntryOk, ChainOk, NodeOk, LogicalSlot, FreeCount, Count, NextFree, FileByte;
      ghost var c := chains[e];
      EntryChain(nodes, owner, chains, dir, k);
      Attached(nodes, owner, mem, e, c);
      ghost var mem0, nodes0 := mem, nodes;
      var w := FillSlot(id, u, k, e, c, h);
      ViewKeep(mem0, nodes0, c, mem, nodes, c, L);
      CopyView(mem, nodes, c, L, 0, buf[..n]);
      CopyTo(w, 0, buf[..n]);
    }

    /** One iteration of lfs_write's interior loop at slot u of node h, writing
        logical block L: at slot 0 a fresh node replaces node h's successor and
        becomes the current node; then the data-block step with
        min(rest, BLOCK_SIZE) bytes. */
    method WriteBlock(id: int, u: int, rest: int, buf: seq<Byte>, ghost k: int, ghost e: int, ghost h: int, ghost L: int)
      returns (id': int, ghost h': int)
      requires StoreOk() && OwnerOk() && DirOk(nodes, owner, chains, dir)
      requires 0 <= k < |dir| && dir[k].blockNum == e && e in chains
      requires 0 <= h < |chains[e]| && chains[e][h] == id && 0 <= u < DATA_BLOCKS_NUM
      requires L == if u == 0 then (h + 1) * DATA_BLOCKS_NUM else h * DATA_BLOCKS_NUM + u
      requires 0 < rest < |buf|
      requires FreeCount() >= if u == 0 then 2 else 1
      modifies this`mem, this`usedblock, this`pos, this`nodes, this`owner, this`chains, bitmap
      ensures NodesKept(old(nodes), old(owner), nodes, e)
      ensures StoreOk() && OwnerOk() && DirOk(nodes, owner, chains, dir)
      ensures e in chains && h' == (if u == 0 then h + 1 else h) && h' < |chains[e]| && chains[e][h'] == id'
      ensures chains == old(chains)[e := chains[e]]
      ensures var used := if u == 0 then 2 else 1;
        FreeCount() == old(FreeCount()) - used && usedblock == old(usedblock) + used
      ensures forall b :: b in old(owner) ==> b in owner && owner[b] == old(owner)[b]
      ensures forall b :: b in old(owner) && !OwnedBy(old(owner)[b], e) ==> b in mem && mem[b] == old(mem)[b]
      ensures forall x :: 0 <= x && x / BLOCK_SIZE < L ==>
        FileByte(mem, nodes, chains[e], x) == FileByte(old(mem), old(nodes), old(chains)[e], x)
      ensures forall x :: 0 <= x && x / BLOCK_SIZE == L && x % BLOCK_SIZE < rest ==>
        FileByte(mem, nodes, chains[e], x) == buf[x % BLOCK_SIZE]
    {
      hide StoreOk, OwnerOk, DirOk, EntryOk, ChainOk, NodeOk, LogicalSlot, FreeCount, Count, NextFree, FileByte;
      id', h' := id, h;
      if u == 0 {
        id' := LinkNode(id, k, e, chains[e], h);
        h' := h + 1;
      }
      FillCopy(id', u, buf, if rest < BLOCK_SIZE then rest else BLOCK_SIZE, k, e, h', L);
    }

    /** The interior loop of lfs_write from slot u of node h, logical block L,
        with rest bytes to go: every block from L on up to the end of the
        write holds the leading bytes of buf; the blocks before L are as
        they were. */
    method WriteRest(id: int, u: int, rest: int, buf: seq<Byte>, ghost k: int, ghost e: int, ghost h: int, ghost L: int)
      requires StoreOk() && OwnerOk() && DirOk(nodes, owner, chains, dir)
      requires 0 <= k < |dir| && dir[k].blockNum == e && e in chains
      requires 0 <= h < |chains[e]| && chains[e][h] == id && 0 <= u < DATA_BLOCKS_NUM
      requires L == if u == 0 then (h + 1) * DATA_BLOCKS_NUM else h * DATA_BLOCKS_NUM + u
      requires 0 < rest < |buf|
      requires FreeCount() >= NeedRest(u, rest)
      modifies this`mem, this`usedblock, this`pos, this`nodes, this`owner, this`chains, bitmap
      ensures NodesKept(old(nodes), old(owner), nodes, e)
      ensures StoreOk() && OwnerOk() && DirOk(nodes, owner, chains, dir)
      ensures e in chains && chains == old(chains)[e := chains[e]]
      ensures FreeCount() == old(FreeCount()) - NeedRest(u, rest)
      ensures usedblock == old(usedblock) + NeedRest(u, rest)
      ensures forall b :: b in old(owner) ==> b in owner && owner[b] == old(owner)[b]
      ensures forall b :: b in old(owner) && !OwnedBy(old(owner)[b], e) ==> b in mem && mem[b] == old(mem)[b]
      ensures forall x :: 0 <= x && x / BLOCK_SIZE < L ==>
        FileByte(mem, nodes, chains[e], x) == FileByte(old(mem), old(nodes), old(chains)[e], x)
      ensures forall x :: 0 <= x && L <= x / BLOCK_SIZE && x < L * BLOCK_SIZE + rest ==>
        FileByte(mem, nodes, chains[e], x) == buf[x % BLOCK_SIZE]
    {
      ghost var last := L * BLOCK_SIZE + rest;
      ghost var fbase, ubase := FreeCount() - NeedRest(u, rest), usedblock + NeedRest(u, rest);
      ghost var mem0, nodes0, owner0, chains0 := mem, nodes, owner, chains;
      assert RestInv(id, u, rest, buf, k, e, h, L, L, last, mem0, nodes0, owner0, chains0, fbase, ubase);
      hide StoreOk, OwnerOk, DirOk, EntryOk, ChainOk, NodeOk, LogicalSlot, FreeCount, Count, NextFree, FileByte,
           NeedRest;
      var inode, usedBlock, restSize := id, u, rest;
      ghost var j, cur := h, L;
      while restSize > 0
        invariant RestInv(inode, usedBlock, restSize, buf, k, e, j, cur, L, last, mem0, nodes0, owner0, chains0, fbase, ubase)
        decreases restSize
      {
        inode, j := WriteTurn(inode, usedBlock, restSize, buf, k, e, j, cur, L, last,
                              mem0, nodes0, owner0, chains0, fbase, ubase);
        usedBlock := (usedBlock + 1) % DATA_BLOCKS_NUM;
        restSize := restSize - BLOCK_SIZE;
        cur := cur + 1;
      }
      RestDone(inode, usedBlock, restSize, buf, k, e, j, cur, L, last, mem0, nodes0, owner0, chains0, fbase, ubase);
    }

    /** The invariant of that loop at slot usedBlock of node j, logical block
        cur, restSize bytes to go; the loop started at logical block L in the
        state (mem0, nodes0, owner0, chains0), the write ends before byte last,
        and fbase, ubase are the free and used counts it ends with. */
    ghost predicate RestInv(inode: int, usedBlock: int, restSize: int, buf: seq<Byte>, k: int, e: int,
                            j: int, cur: int, L: int, last: int, mem0: map<int, seq<Byte>>,
                            nodes0: map<int, INode>, owner0: map<int, Owner>, chains0: map<int, seq<int>>,
                            fbase: int, ubase: int)
      reads this, bitmap
    {
      && StoreOk() && OwnerOk() && DirOk(nodes, owner, chains, dir)
      && 0 <= k < |dir| && dir[k].blockNum == e
      && e in chains && 0 <= j < |chains[e]| && chains[e][j] == inode && 0 <= usedBlock < DATA_BLOCKS_NUM
      && cur == (if usedBlock == 0 then (j + 1) * DATA_BLOCKS_NUM else j * DATA_BLOCKS_NUM + usedBlock)
      && restSize < |buf| && 0 <= L <= cur && cur * BLOCK_SIZE + restSize == last
      && last - L * BLOCK_SIZE < |buf|
      && 0 <= fbase && FreeCount() == fbase + NeedRest(usedBlock, restSize)
      && usedblock + NeedRest(usedBlock, restSize) == ubase
      && e in chains0 && chains == chains0[e := chains[e]]
      && (forall b :: b in owner0 ==> b in mem0)
      && (forall b :: b in owner0 ==> b in owner && owner[b] == owner0[b])
      && (forall b :: b in owner0 && !OwnedBy(owner0[b], e) ==> b in mem && mem[b] == mem0[b])
      && NodesKept(nodes0, owner0, nodes, e)
      && (forall x :: 0 <= x && x / BLOCK_SIZE < L ==>
            FileByte(mem, nodes, chains[e], x) == FileByte(mem0, nodes0, chains0[e], x))
      && (forall x :: 0 <= x && L <= x / BLOCK_SIZE < cur && x < last ==>
            FileByte(mem, nodes, chains[e], x) == buf[x % BLOCK_SIZE])
    }

    /** One turn of the interior loop keeps its invariant. */
    method WriteTurn(inode: int, usedBlock: int, restSize: int, buf: seq<Byte>, ghost k: int, ghost e: int,
                     ghost j: int, ghost cur: int, ghost L: int, ghost last: int, ghost mem0: map<int, seq<Byte>>,
                     ghost nodes0: map<int, INode>, ghost owner0: map<int, Owner>, ghost chains0: map<int, seq<int>>,
                     ghost fbase: int, ghost ubase: int)
      returns (inode': int, ghost j': int)
      requires RestInv(inode, usedBlock, restSize, buf, k, e, j, cur, L, last, mem0, nodes0, owner0, chains0, fbase, ubase)
      requires restSize > 0
      modifies this`mem, this`usedblock, this`pos, this`nodes, this`owner, this`chains, bitmap
      ensures RestInv(inode', (usedBlock + 1) % DATA_BLOCKS_NUM, restSize - BLOCK_SIZE, buf, k, e, j', cur + 1,
                      L, last, mem0, nodes0, owner0, chains0, fbase, ubase)
    {
      hide StoreOk, OwnerOk, DirOk, EntryOk, ChainOk, NodeOk, LogicalSlot, FreeCount, Count, NextFree, FileByte, NeedRest;
      NeedRestStep(usedBlock, restSize);
      NextSlot(usedBlock);
      inode', j' := WriteBlock(inode, usedBlock, restSize, buf, k, e, j, cur);
    }

    /** When the loop ends, every block from L up to the end of the write holds
        the leading bytes of buf. */
    ghost method RestDone(inode: int, usedBlock: int, restSize: int, buf: seq<Byte>, k: int, e: int,
                   j: int, cur: int, L: int, last: int, mem0: map<int, seq<Byte>>,
                   nodes0: map<int, INode>, owner0: map<int, Owner>, chains0: map<int, seq<int>>,
                   fbase: int, ubase: int)
      requires RestInv(inode, usedBlock, restSize, buf, k, e, j, cur, L, last, mem0, nodes0, owner0, chains0, fbase, ubase)
      requires restSize <= 0
      ensures StoreOk() && OwnerOk() && DirOk(nodes, owner, chains, dir)
      ensures e in chains && e in chains0 && chains == chains0[e := chains[e]]
      ensures FreeCount() == fbase && usedblock == ubase
      ensures forall b :: b in owner0 ==> b in owner && owner[b] == owner0[b]
      ensures forall b :: b in owner0 && !OwnedBy(owner0[b], e) ==> b in mem && mem[b] == mem0[b]
      ensures NodesKept(nodes0, owner0, nodes, e)
      ensures forall x :: 0 <= x && x / BLOCK_SIZE < L ==>
        FileByte(mem, nodes, chains[e], x) == FileByte(mem0, nodes0, chains0[e], x)
      ensures forall x :: 0 <= x && L <= x / BLOCK_SIZE && x < last ==>
        x % BLOCK_SIZE < |buf| && FileByte(mem, nodes, chains[e], x) == buf[x % BLOCK_SIZE]
    {
      forall x | 0 <= x && L <= x / BLOCK_SIZE && x < last
        ensures x / BLOCK_SIZE < cur && x % BLOCK_SIZE < |buf|
      {
        BelowBlock(x, cur);
      }
    }

    /** One step of lfs_write's hop loop from node i of entry k's chain: a
        fresh node is appended when node i has no next, then the walk moves on
        to the next node. */
    method HopStep(id: int, ghost k: int, ghost e: int, ghost i: int) returns (next: int)
      requires StoreOk() && OwnerOk() && DirOk(nodes, owner, chains, dir)
      requires 0 <= k < |dir| && dir[k].blockNum == e && e in chains
      requires 0 <= i < |chains[e]| && chains[e][i] == id
      requires FreeCount() >= if i + 1 < |chains[e]| then 0 else 1
      modifies this`mem, this`usedblock, this`pos, this`nodes, this`owner, this`chains, bitmap
      ensures NodesKept(old(nodes), old(owner), nodes, e)
      ensures StoreOk() && OwnerOk() && DirOk(nodes, owner, chains, dir)
      ensures e in chains && chains == old(chains)[e := chains[e]]
      ensures |chains[e]| == (if i + 1 < |old(chains)[e]| then |old(chains)[e]| else i + 2)
      ensures chains[e][i + 1] == next
      ensures FreeCount() + |chains[e]| == old(FreeCount()) + |old(chains)[e]|
      ensures usedblock + |old(chains)[e]| == old(usedblock) + |chains[e]|
      ensures forall b :: b in old(owner) ==> b in owner && owner[b] == old(owner)[b]
      ensures forall b :: b in old(mem) ==> b in mem && mem[b] == old(mem)[b]
      ensures forall L :: 0 <= L ==> LogicalSlot(nodes, chains[e], L) == LogicalSlot(old(nodes), old(chains)[e], L)
    {
      hide StoreOk, OwnerOk, DirOk, EntryOk, ChainOk, NodeOk, LogicalSlot, FreeCount, Count, NextFree;
      EntryChain(nodes, owner, chains, dir, k);
      NodeAt(nodes, owner, e, chains[e], i);
      if nodes[id].next == None {
        BeyondChain(nodes, chains[e]);
        var nb := LinkNode(id, k, e, chains[e], i);
        EntryChain(nodes, owner, chains, dir, k);
        NodeAt(nodes, owner, e, chains[e], i);
      }
      next := nodes[id].next.value;
    }

    /** The hop loop of lfs_write: n steps along entry k's chain from its first
        node, appending a fresh node whenever the current one has no next. The
        file's logical blocks are unchanged: appended nodes hold none. */
    method HopTo(head: int, n: int, ghost k: int, ghost e: int) returns (inode: int)
      requires StoreOk() && OwnerOk() && DirOk(nodes, owner, chains, dir)
      requires 0 <= k < |dir| && dir[k].blockNum == e && e in chains && dir[k].inode == head
      requires 0 <= n
      requires FreeCount() >= if n < |chains[e]| then 0 else n + 1 - |chains[e]|
      modifies this`mem, this`usedblock, this`pos, this`nodes, this`owner, this`chains, bitmap
      ensures NodesKept(old(nodes), old(owner), nodes, e)
      ensures StoreOk() && OwnerOk() && DirOk(nodes, owner, chains, dir)
      ensures e in chains && n < |chains[e]| && chains[e][n] == inode
      ensures chains == old(chains)[e := chains[e]]
      ensures var added := if n < |old(chains)[e]| then 0 else n + 1 - |old(chains)[e]|;
        FreeCount() == old(FreeCount()) - added && usedblock == old(usedblock) + added
      ensures forall b :: b in old(owner) ==> b in owner && owner[b] == old(owner)[b]
      ensures forall b :: b in old(mem) ==> b in mem && mem[b] == old(mem)[b]
      ensures forall L :: 0 <= L ==> LogicalSlot(nodes, chains[e], L) == LogicalSlot(old(nodes), old(chains)[e], L)
      ensures forall x :: 0 <= x ==>
        FileByte(mem, nodes, chains[e], x) == FileByte(old(mem), old(nodes), old(chains)[e], x)
    {
      assert forall b :: b in owner ==> b in mem;
      assert EMPTY !in mem;
      hide StoreOk, OwnerOk, DirOk, EntryOk, ChainOk, NodeOk, LogicalSlot, FreeCount, Count, NextFree, FileByte;
      ghost var c0 := chains[e];
      EntryChain(nodes, owner, chains, dir, k);
      Attached(nodes, owner, mem, e, c0);
      inode := head;
      var i := 0;
      while i < n
        invariant StoreOk() && OwnerOk() && DirOk(nodes, owner, chains, dir)
        invariant 0 <= i <= n && e in chains && i < |chains[e]| && chains[e][i] == inode
        invariant |chains[e]| == if i < |c0| then |c0| else i + 1
        invariant chains == old(chains)[e := chains[e]]
        invariant FreeCount() + |chains[e]| == old(FreeCount()) + |c0|
        invariant usedblock + |c0| == old(usedblock) + |chains[e]|
        invariant forall b :: b in old(owner) ==> b in owner && owner[b] == old(owner)[b]
        invariant forall b :: b in old(mem) ==> b in mem && mem[b] == old(mem)[b]
        invariant forall L :: 0 <= L ==> LogicalSlot(nodes, chains[e], L) == LogicalSlot(old(nodes), c0, L)
        invariant NodesKept(old(nodes), old(owner), nodes, e)
      {
        ghost var nodes1, owner1 := nodes, owner;
        inode := HopStep(inode, k, e, i);
        NodesKeptTrans(old(nodes), old(owner), nodes1, owner1, nodes, e);
        i := i + 1;
      }
      assert EMPTY !in mem;
      forall x | 0 <= x
        ensures FileByte(mem, nodes, chains[e], x) == FileByte(old(mem), old(nodes), c0, x)
      {
        ViewKeep(old(mem), old(nodes), c0, mem, nodes, chains[e], x / BLOCK_SIZE + 1);
      }
    }

    /** The first block of lfs_write with its memcpy: n bytes of buf land in
        logical block L = h * DATA_BLOCKS_NUM + s from byte off on. */
    method FirstCopy(id: int, s: int, off: int, buf: seq<Byte>, n: int, ghost k: int, ghost e: int, ghost h: int)
      requires StoreOk() && OwnerOk() && DirOk(nodes, owner, chains, dir)
      requires 0 <= k < |dir| && dir[k].blockNum == e && e in chains
      requires 0 <= h < |chains[e]| && chains[e][h] == id && 0 <= s < DATA_BLOCKS_NUM
      requires 0 <= off && 0 <= n && off + n <= BLOCK_SIZE && n <= |buf|
      requires LogicalSlot(nodes, chains[e], h * DATA_BLOCKS_NUM + s) > 0 || FreeCount() >= 1
      modifies this`mem, this`usedblock, this`pos, this`nodes, this`owner, bitmap
      ensures NodesKept(old(nodes), old(owner), nodes, e)
      ensures StoreOk() && OwnerOk() && DirOk(nodes, owner, chains, dir)
      ensures var used := if old(LogicalSlot(nodes, chains[e], h * DATA_BLOCKS_NUM + s)) > 0 then 0 else 1;
        FreeCount() == old(FreeCount()) - used && usedblock == old(usedblock) + used
      ensures forall b :: b in old(owner) ==> b in owner && owner[b] == old(owner)[b]
      ensures forall b :: b in old(owner) && !OwnedBy(old(owner)[b], e) ==> b in mem && mem[b] == old(mem)[b]
      ensures forall x :: 0 <= x && (x / BLOCK_SIZE != h * DATA_BLOCKS_NUM + s || x % BLOCK_SIZE < off || off + n <= x % BLOCK_SIZE) ==>
        FileByte(mem, nodes, chains[e], x) == FileByte(old(mem), old(nodes), chains[e], x)
      ensures forall x :: 0 <= x && x / BLOCK_SIZE == h * DATA_BLOCKS_NUM + s && off <= x % BLOCK_SIZE < off + n ==>
        FileByte(mem, nodes, chains[e], x) == buf[x % BLOCK_SIZE - off]
      ensures LogicalSlot(nodes, chains[e], h * DATA_BLOCKS_NUM + s) != EMPTY
    {
      assert forall b :: b in owner ==> b in mem;
      hide StoreOk, OwnerOk, DirOk, EntryOk, ChainOk, NodeOk, LogicalSlot, FreeCount, Count, NextFree, FileByte;
      var d := FirstBlock(id, s, k, e, h);
      CopyView(mem, nodes, chains[e], h * DATA_BLOCKS_NUM + s, off, buf[..n]);
      CopyTo(d, off, buf[..n]);
      assert forall i :: 0 <= i < n ==> buf[..n][i] == buf[i];
    }

    /** The part of lfs_write up to the first memcpy: the hop loop to node
        Split(offset).hops, the first block, and the copy of the bytes of buf
        that fit in that block. */
    method WriteFirst(head: int, buf: seq<Byte>, size: int, offset: int, ghost k: int, ghost e: int)
      returns (inode: int)
      requires StoreOk() && OwnerOk() && DirOk(nodes, owner, chains, dir)
      requires 0 <= k < |dir| && dir[k].blockNum == e && e in chains && dir[k].inode == head
      requires 0 <= offset && 0 <= size && |buf| == size
      requires WriteNeed(nodes, chains[e], size, offset) <= FreeCount()
      modifies this`mem, this`usedblock, this`pos, this`nodes, this`owner, this`chains, bitmap
      ensures NodesKept(old(nodes), old(owner), nodes, e)
      ensures StoreOk() && OwnerOk() && DirOk(nodes, owner, chains, dir)
      ensures e in chains && chains == old(chains)[e := chains[e]]
      ensures Split(offset).hops < |chains[e]| && chains[e][Split(offset).hops] == inode
      ensures var co := Split(offset);
        var used := WriteNeed(old(nodes), old(chains)[e], size, offset) -
          (if size > BLOCK_SIZE - co.off
           then NeedRest((co.slot + 1) % DATA_BLOCKS_NUM, size - (BLOCK_SIZE - co.off)) else 0);
        FreeCount() == old(FreeCount()) - used && usedblock == old(usedblock) + used
      ensures forall b :: b in old(owner) ==> b in owner && owner[b] == old(owner)[b]
      ensures forall b :: b in old(owner) && !OwnedBy(old(owner)[b], e) ==> b in mem && mem[b] == old(mem)[b]
      ensures forall x :: 0 <= x && (x < offset || offset + size <= x || offset + BLOCK_SIZE - offset % BLOCK_SIZE <= x) ==>
        FileByte(mem, nodes, chains[e], x) == FileByte(old(mem), old(nodes), old(chains)[e], x)
      ensures forall x :: offset <= x < offset + size && x < offset + BLOCK_SIZE - offset % BLOCK_SIZE ==>
        FileByte(mem, nodes, chains[e], x) == buf[x - offset]
      ensures LogicalSlot(nodes, chains[e], offset / BLOCK_SIZE) != EMPTY
    {
      assert forall b :: b in owner ==> b in mem;
      hide StoreOk, OwnerOk, DirOk, EntryOk, ChainOk, NodeOk, LogicalSlot, FreeCount, Count, NextFree, FileByte,
           NeedRest, NodesKept;
      var usedBlock := offset / BLOCK_SIZE;
      var off := offset % BLOCK_SIZE;
      var usedInode := usedBlock / DATA_BLOCKS_NUM;
      usedBlock := usedBlock % DATA_BLOCKS_NUM;
      ghost var first := offset / BLOCK_SIZE;
      SplitExact(offset);
      assert first == usedInode * DATA_BLOCKS_NUM + usedBlock;
      inode := HopTo(head, usedInode, k, e);
      var n := if size > BLOCK_SIZE - off then BLOCK_SIZE - off else size;
      ghost var nodes1, owner1 := nodes, owner;
      FirstCopy(inode, usedBlock, off, buf, n, k, e, usedInode);
      NodesKeptTrans(old(nodes), old(owner), nodes1, owner1, nodes, e);
      FirstBlockRange(offset, n);
    }

    /** lfs_write once get_filenode has found entry k of file e and the space
        check has passed. */
    method WriteEntry(k: int, buf: seq<Byte>, size: int, offset: int, ghost e: int) returns (ret: int)
      requires Valid()
      requires 0 <= k < |dir| && dir[k].blockNum == e && e in chains
      requires 0 <= offset && 0 <= size && |buf| == size && offset + size <= INT_MAX
      requires WriteNeed(nodes, chains[e], size, offset) <= FreeCount()
      modifies this`mem, this`usedblock, this`pos, this`nodes, this`owner, this`chains, this`dir, bitmap
      ensures NodesKept(old(nodes), old(owner), nodes, e)
      ensures Valid()
      ensures ret == size
      ensures dir == old(dir)[k := if offset + size > old(dir)[k].st.size
        then old(dir)[k].(st := old(dir)[k].st.(size := offset + size, blocks := (offset + size) / BLOCK_SIZE))
        else old(dir)[k]]
      ensures e in chains && chains == old(chains)[e := chains[e]]
      ensures FreeCount() == old(FreeCount()) - WriteNeed(old(nodes), old(chains)[e], size, offset)
      ensures usedblock == old(usedblock) + WriteNeed(old(nodes), old(chains)[e], size, offset)
      ensures forall b :: b in old(owner) ==> b in owner && owner[b] == old(owner)[b]
      ensures forall b :: b in old(owner) && !OwnedBy(old(owner)[b], e) ==> b in mem && mem[b] == old(mem)[b]
      ensures forall x :: 0 <= x < offset ==>
        FileByte(mem, nodes, chains[e], x) == FileByte(old(mem), old(nodes), old(chains)[e], x)
      ensures forall x :: offset <= x < offset + size ==>
        FileByte(mem, nodes, chains[e], x) == WriteByte(buf, offset, x)
      ensures size <= BLOCK_SIZE - offset % BLOCK_SIZE ==>
        Split(offset).hops < |chains[e]| && LogicalSlot(nodes, chains[e], offset / BLOCK_SIZE) != EMPTY
      ensures size <= BLOCK_SIZE - offset % BLOCK_SIZE ==> forall x :: offset + size <= x ==>
        FileByte(mem, nodes, chains[e], x) == FileByte(old(mem), old(nodes), old(chains)[e], x)
    {
      hide StoreOk, OwnerOk, DirOk, EntryOk, ChainOk, NodeOk, LogicalSlot, FreeCount, Count, NextFree, FileByte,
           NeedRest, WriteNeed, NodesKept;
      var f := dir[k];
      if offset + size > f.st.size {
        StatUpdate(nodes, owner, chains, dir, k, f.st.(size := offset + size, blocks := (offset + size) / BLOCK_SIZE));
        dir := dir[k := f.(st := f.st.(size := offset + size, blocks := (offset + size) / BLOCK_SIZE))];
      }
      var inode := WriteFirst(f.inode, buf, size, offset, k, e);
      var off := offset % BLOCK_SIZE;
      var first := offset / BLOCK_SIZE;
      if size <= BLOCK_SIZE - off {
        forall x | offset <= x < offset + size ensures WriteByte(buf, offset, x) == buf[x - offset] {
          DivModUnique(x, BLOCK_SIZE, first, off + (x - offset));
        }
        return size;
      }
      var usedBlock := (first % DATA_BLOCKS_NUM + 1) % DATA_BLOCKS_NUM;
      NextSlot(first % DATA_BLOCKS_NUM);
      SplitExact(offset);
      ghost var nodes1, owner1 := nodes, owner;
      WriteRest(inode, usedBlock, size - (BLOCK_SIZE - off), buf, k, e, Split(offset).hops, first + 1);
      NodesKeptTrans(old(nodes), old(owner), nodes1, owner1, nodes, e);
      forall x | 0 <= x < offset + BLOCK_SIZE - off ensures x / BLOCK_SIZE <= first {
        DivModUnique(offset + BLOCK_SIZE - off, BLOCK_SIZE, first + 1, 0);
        BelowBlock(x, first + 1);
      }
      forall x | offset + BLOCK_SIZE - off <= x < offset + size
        ensures first + 1 <= x / BLOCK_SIZE
        ensures WriteByte(buf, offset, x) == buf[x % BLOCK_SIZE]
      {
        InBlock(first + 1, 0);
        DivMono((first + 1) * BLOCK_SIZE, x, BLOCK_SIZE);
      }
      forall x | offset <= x < offset + BLOCK_SIZE - off ensures WriteByte(buf, offset, x) == buf[x - offset] {
        DivModUnique(x, BLOCK_SIZE, first, off + (x - offset));
      }
      return size;
    }

    /** lfs_write: a request of more bytes than (BLOCK_NR - usedblock) *
        BLOCK_SIZE gets -ENOSPC and changes nothing. Otherwise the entry's size
        grows to offset + size when the write ends past it, the bytes before
        the offset are kept, those of the block holding the offset come from
        buf in order and every later block restarts at buf[0]; exactly
        WriteNeed blocks are allocated and nothing another file owns changes.
        The return value is size. */
    method Write(path: string, buf: seq<Byte>, size: int, offset: int) returns (ret: int)
      requires Valid()
      requires |path| >= 1 && 0 <= offset && 0 <= size && |buf| == size
      requires size > (BLOCK_NR - usedblock) * BLOCK_SIZE ||
        (Lookup(dir, path).FileAt? && offset + size <= INT_MAX &&
         WriteNeed(nodes, chains[dir[Lookup(dir, path).index].blockNum], size, offset) <= FreeCount())
      modifies this`mem, this`usedblock, this`pos, this`nodes, this`owner, this`chains, this`dir, bitmap
      ensures Valid()
      ensures ret == if size > (BLOCK_NR - old(usedblock)) * BLOCK_SIZE then -ENOSPC else size
      ensures ret == -ENOSPC ==>
        && mem == old(mem) && nodes == old(nodes) && dir == old(dir) && chains == old(chains)
        && owner == old(owner) && usedblock == old(usedblock) && pos == old(pos)
        && bitmap[..] == old(bitmap[..])
      ensures ret != -ENOSPC ==>
        var k := Lookup(old(dir), path).index;
        dir == old(dir)[k := if offset + size > old(dir)[k].st.size
          then old(dir)[k].(st := old(dir)[k].st.(size := offset + size, blocks := (offset + size) / BLOCK_SIZE))
          else old(dir)[k]]
      ensures ret != -ENOSPC ==>
        var e := old(dir)[Lookup(old(dir), path).index].blockNum;
        && e in chains && chains == old(chains)[e := chains[e]]
        && usedblock == old(usedblock) + WriteNeed(old(nodes), old(chains)[e], size, offset)
        && FreeCount() == old(FreeCount()) - WriteNeed(old(nodes), old(chains)[e], size, offset)
      ensures ret != -ENOSPC ==>
        var e := old(dir)[Lookup(old(dir), path).index].blockNum;
        forall x :: 0 <= x < offset ==>
          FileByte(mem, nodes, chains[e], x) == FileByte(old(mem), old(nodes), old(chains)[e], x)
      ensures ret != -ENOSPC ==>
        var e := old(dir)[Lookup(old(dir), path).index].blockNum;
        forall x :: offset <= x < offset + size ==> FileByte(mem, nodes, chains[e], x) == WriteByte(buf, offset, x)
      ensures ret != -ENOSPC && size <= BLOCK_SIZE - offset % BLOCK_SIZE ==>
        var e := old(dir)[Lookup(old(dir), path).index].blockNum;
        Split(offset).hops < |chains[e]| && LogicalSlot(nodes, chains[e], offset / BLOCK_SIZE) != EMPTY
      ensures ret != -ENOSPC && size <= BLOCK_SIZE - offset % BLOCK_SIZE ==>
        var e := old(dir)[Lookup(old(dir), path).index].blockNum;
        forall x :: offset + size <= x ==>
          FileByte(mem, nodes, chains[e], x) == FileByte(old(mem), old(nodes), old(chains)[e], x)
      ensures ret != -ENOSPC ==>
        var e := old(dir)[Lookup(old(dir), path).index].blockNum;
        forall b :: b in old(owner) && !OwnedBy(old(owner)[b], e) ==>
          b in mem && mem[b] == old(mem)[b] && b in owner && owner[b] == old(owner)[b]
      ensures ret != -ENOSPC ==>
        var e := old(dir)[Lookup(old(dir), path).index].blockNum;
        NodesKept(old(nodes), old(owner), nodes, e)
      ensures ret != -ENOSPC ==>
        var e := old(dir)[Lookup(old(dir), path).index].blockNum;
        forall k2 :: 0 <= k2 < |old(dir)| && old(dir)[k2].blockNum != e ==>
          var e2 := old(dir)[k2].blockNum;
          && e2 in old(chains) && e2 in chains && chains[e2] == old(chains)[e2]
          && forall x :: 0 <= x ==> FileByte(mem, nodes, chains[e2], x) == FileByte(old(mem), old(nodes), old(chains)[e2], x)
    {
      assert forall b :: b in owner ==> b in mem;
      assert EMPTY !in mem;
      hide StoreOk, OwnerOk, DirOk, EntryOk, ChainOk, NodeOk, LogicalSlot, FreeCount, Count, NextFree, FileByte,
           NeedRest, WriteNeed, WriteByte, NodesKept;
      var temp := (BLOCK_NR - usedblock) * BLOCK_SIZE;
      if size > temp {
        return -ENOSPC;
      }
      var found := GetFilenode(path);
      var k := found.index;
      EntryChain(nodes, owner, chains, dir, k);
      ret := WriteEntry(k, buf, size, offset, dir[k].blockNum);
      Unmapped();
      OtherEntriesKept(old(mem), old(nodes), old(owner), old(chains), old(dir), mem, nodes, chains, old(dir)[k].blockNum);
    }

    /** The block number EMPTY is never mapped. */
    lemma Unmapped()
      requires StoreOk()
      ensures EMPTY !in mem
    {
    }

    /** lfs_write followed by lfs_read of the same range, for a range inside
        one block: unless the write is refused, the read reports size and
        returns exactly the bytes written. */
    method WriteThenRead(path: string, buf: seq<Byte>, offset: int, dst: seq<Byte>)
      returns (w: int, r: int, out: seq<Byte>)
      requires Valid()
      requires |path| >= 1 && Lookup(dir, path).FileAt?
      requires 0 <= offset && |dst| == |buf| && offset + |buf| <= INT_MAX
      requires offset % BLOCK_SIZE + |buf| <= BLOCK_SIZE
      requires |buf| > (BLOCK_NR - usedblock) * BLOCK_SIZE ||
        WriteNeed(nodes, chains[dir[Lookup(dir, path).index].blockNum], |buf|, offset) <= FreeCount()
      modifies this`mem, this`usedblock, this`pos, this`nodes, this`owner, this`chains, this`dir, bitmap
      ensures Valid()
      ensures w == -ENOSPC <==> |buf| > (BLOCK_NR - old(usedblock)) * BLOCK_SIZE
      ensures w != -ENOSPC ==> w == |buf| && r == |buf| && out == buf
    {
      ghost var k := Lookup(dir, path).index;
      w := Write(path, buf, |buf|, offset);
      if w == -ENOSPC {
        return w, w, dst;
      }
      LookupSameNames(old(dir), dir, path);
      ghost var c := chains[dir[k].blockNum];
      r, out := Read(path, dst, |buf|, offset);
      ReadBack(mem, nodes, c, buf, offset, out);
    }
}
}
