/** The per-file index chain: an arena of INode records keyed by the block that
    holds them, and the ownership record that keeps every live block owned by
    one structure only. */
module Chains {
  import opened Layout

  datatype Option<T> = None | Some(value: T)

  /** An index node: the block number of the following node (NULL is None) and
      DATA_BLOCKS_NUM data-block slots, EMPTY where no block is attached. */
  datatype INode = INode(next: Option<int>, slots: seq<int>)

  /** The slots of a new index node: all EMPTY. */
  function EmptySlots(): (s: seq<int>)
    ensures |s| == DATA_BLOCKS_NUM
    ensures forall i :: 0 <= i < DATA_BLOCKS_NUM ==> s[i] == EMPTY
  {
    seq(DATA_BLOCKS_NUM, _ => EMPTY)
  }

  /** What a block was allocated for. A file is named by the block number `e`
      of its directory entry; `j` is a node's position in the file's chain and
      `s` a slot of that node. */
  datatype Owner =
    | Header
    | RootDir
    | EntryBlock(e: int)
    | IndexNode(e: int, j: int)
    | DataBlock(e: int, j: int, s: int)

  ghost predicate OwnedBy(o: Owner, e: int) {
    !o.Header? && !o.RootDir? && o.e == e
  }

  /** Slot s of node j of file e is empty or holds a data block owned by it. */
  ghost predicate SlotOk(owner: map<int, Owner>, e: int, j: int, s: int, v: int) {
    v == EMPTY || (v in owner && owner[v] == DataBlock(e, j, s))
  }

  /** Node j of chain c of file e: present, owned by that position, 100 slots,
      linked to the following node, each slot empty or owned. */
  ghost predicate NodeOk(nodes: map<int, INode>, owner: map<int, Owner>, e: int, c: seq<int>, j: int)
    requires 0 <= j < |c|
  {
    var id := c[j];
    && id in nodes && id in owner && owner[id] == IndexNode(e, j)
    && |nodes[id].slots| == DATA_BLOCKS_NUM
    && nodes[id].next == (if j + 1 < |c| then Some(c[j + 1]) else None)
    && forall s :: 0 <= s < DATA_BLOCKS_NUM ==> SlotOk(owner, e, j, s, nodes[id].slots[s])
  }

  /** c lists the nodes of file e's chain, from its first node to the node
      whose next is NULL. */
  ghost predicate ChainOk(nodes: map<int, INode>, owner: map<int, Owner>, e: int, c: seq<int>) {
    |c| > 0 && forall j :: 0 <= j < |c| ==> NodeOk(nodes, owner, e, c, j)
  }

  /** Everything owned by file e is the same in the second pair of maps. */
  ghost predicate Keeps(nodes: map<int, INode>, owner: map<int, Owner>,
                        nodes': map<int, INode>, owner': map<int, Owner>, e: int)
  {
    && (forall b :: b in owner && OwnedBy(owner[b], e) ==> b in owner' && owner'[b] == owner[b])
    && (forall b :: b in nodes && b in owner && owner[b].IndexNode? && owner[b].e == e ==>
          b in nodes' && nodes'[b] == nodes[b])
  }

  /** Every index node that file e does not own is the same in nodes'. */
  ghost predicate NodesKept(nodes: map<int, INode>, owner: map<int, Owner>, nodes': map<int, INode>, e: int) {
    forall id :: id in nodes && id in owner && !OwnedBy(owner[id], e) ==> id in nodes' && nodes'[id] == nodes[id]
  }

  /** Two steps that each keep the index nodes file e does not own keep them
      together, when the first step only adds to the ownership map. */
  lemma NodesKeptTrans(nodes0: map<int, INode>, owner0: map<int, Owner>, nodes1: map<int, INode>,
                       owner1: map<int, Owner>, nodes2: map<int, INode>, e: int)
    requires NodesKept(nodes0, owner0, nodes1, e) && NodesKept(nodes1, owner1, nodes2, e)
    requires forall b :: b in owner0 ==> b in owner1 && owner1[b] == owner0[b]
    ensures NodesKept(nodes0, owner0, nodes2, e)
  {
  }

  /** A chain stays well formed when nothing its file owns has changed. */
  lemma ChainFrame(nodes: map<int, INode>, owner: map<int, Owner>,
                   nodes': map<int, INode>, owner': map<int, Owner>, e: int, c: seq<int>)
    requires ChainOk(nodes, owner, e, c)
    requires Keeps(nodes, owner, nodes', owner', e)
    ensures ChainOk(nodes', owner', e, c)
  {
    forall j | 0 <= j < |c| ensures NodeOk(nodes', owner', e, c, j) {
      assert NodeOk(nodes, owner, e, c, j);
      var id := c[j];
      assert OwnedBy(owner[id], e);
      assert nodes'[id] == nodes[id];
      forall s | 0 <= s < DATA_BLOCKS_NUM
        ensures SlotOk(owner', e, j, s, nodes'[id].slots[s])
      {
        assert SlotOk(owner, e, j, s, nodes[id].slots[s]);
      }
    }
  }

  /** The slot that holds logical block L of chain c, or EMPTY when the chain
      does not reach that far. */
  ghost function LogicalSlot(nodes: map<int, INode>, c: seq<int>, L: int): int {
    if 0 <= L && L / DATA_BLOCKS_NUM < |c| && c[L / DATA_BLOCKS_NUM] in nodes
       && L % DATA_BLOCKS_NUM < |nodes[c[L / DATA_BLOCKS_NUM]].slots|
    then nodes[c[L / DATA_BLOCKS_NUM]].slots[L % DATA_BLOCKS_NUM]
    else EMPTY
  }

  /** Nodes j.. of chain c of file e are well formed (the part of the chain a
      release starting at node j walks). */
  ghost predicate TailOk(nodes: map<int, INode>, owner: map<int, Owner>, e: int, c: seq<int>, j: int) {
    0 <= j < |c| && forall i :: j <= i < |c| ==> NodeOk(nodes, owner, e, c, i)
  }

  /** Where the slot loop of lfs_free_inode stops when it starts at f: the
      first EMPTY slot at or after f, or the end of the node. */
  function Stop(slots: seq<int>, f: int): (t: int)
    requires 0 <= f <= |slots|
    ensures f <= t <= |slots|
    ensures forall i :: f <= i < t ==> slots[i] != EMPTY
    ensures t < |slots| ==> slots[t] == EMPTY
    decreases |slots| - f
  {
    if f == |slots| || slots[f] == EMPTY then f else Stop(slots, f + 1)
  }

  /** The stopping point is unique: a t with no EMPTY in [f, t) that is the end
      or an EMPTY slot is Stop(slots, f). */
  lemma {:induction false} StopAt(slots: seq<int>, f: int, t: int)
    requires 0 <= f <= t <= |slots|
    requires forall i :: f <= i < t ==> slots[i] != EMPTY
    requires t == |slots| || slots[t] == EMPTY
    ensures Stop(slots, f) == t
    decreases t - f
  {
    if f < t {
      StopAt(slots, f + 1, t);
    }
  }

  /** Slots [f, t) set to EMPTY, the others kept. */
  function ClearRange(slots: seq<int>, f: int, t: int): (r: seq<int>)
    requires 0 <= f <= t <= |slots|
    ensures |r| == |slots|
    ensures forall i :: 0 <= i < |r| ==> r[i] == if f <= i < t then EMPTY else slots[i]
  {
    slots[..f] + seq(t - f, _ => EMPTY) + slots[t..]
  }

  /** The slots after lfs_free_inode's loop: [f, Stop) set to EMPTY. */
  function ClearFrom(slots: seq<int>, f: int): (r: seq<int>)
    requires 0 <= f <= |slots|
    ensures |r| == |slots|
    ensures forall i :: 0 <= i < |r| ==>
      r[i] == if f <= i < Stop(slots, f) then EMPTY else slots[i]
  {
    ClearRange(slots, f, Stop(slots, f))
  }

  /** The blocks held by slots [f, t). */
  ghost function SlotSet(slots: seq<int>, f: int, t: int): set<int>
    requires 0 <= f <= t <= |slots|
  {
    set i | f <= i < t :: slots[i]
  }

  lemma SlotSetNext(slots: seq<int>, f: int, t: int)
    requires 0 <= f <= t < |slots|
    ensures SlotSet(slots, f, t + 1) == SlotSet(slots, f, t) + {slots[t]}
  {
  }

  /** Clearing no slots changes nothing and collects no block. */
  lemma ClearNone(slots: seq<int>, f: int)
    requires 0 <= f <= |slots|
    ensures ClearRange(slots, f, f) == slots && SlotSet(slots, f, f) == {}
  {
  }

  /** Clearing one more slot. */
  lemma ClearStep(slots: seq<int>, f: int, t: int)
    requires 0 <= f <= t < |slots|
    ensures ClearRange(slots, f, t)[t := EMPTY] == ClearRange(slots, f, t + 1)
    ensures SlotSet(slots, f, t + 1) == SlotSet(slots, f, t) + {slots[t]}
  {
    assert ClearRange(slots, f, t)[t := EMPTY] == ClearRange(slots, f, t + 1);
  }

  /** Removing keys one at a time. */
  lemma MinusStep<V>(m: map<int, V>, a: set<int>, x: int)
    ensures m - a - {x} == m - (a + {x})
  {
  }

  /** The index-node blocks lfs_free_inode(c[j], flag) releases: every later
      node, and node j itself when flag is 0. */
  ghost function ReleasedNodes(c: seq<int>, j: int, flag: int): set<int>
    requires 0 <= j <= |c|
  {
    set i | j + (if flag == 0 then 0 else 1) <= i < |c| :: c[i]
  }

  /** The slots the release visits in node id: from f up to the first EMPTY. */
  ghost function SlotsReleased(nodes: map<int, INode>, id: int, f: int): set<int> {
    if id in nodes && 0 <= f <= |nodes[id].slots|
    then SlotSet(nodes[id].slots, f, Stop(nodes[id].slots, f))
    else {}
  }

  /** The data blocks lfs_free_inode(c[j], flag) releases: slots flag.. of node
      j up to its first EMPTY, then slots 0.. of each later node up to its first
      EMPTY. Slots behind an EMPTY are not visited. */
  ghost function ReleasedData(nodes: map<int, INode>, c: seq<int>, j: int, flag: int): set<int>
    requires 0 <= j <= |c|
    decreases |c| - j
  {
    if j == |c| then {} else SlotsReleased(nodes, c[j], flag) + ReleasedData(nodes, c, j + 1, 0)
  }

  /** How many data blocks that release frees, one usedblock decrement each. */
  function ReleasedCount(nodes: map<int, INode>, c: seq<int>, j: int, flag: int): nat
    requires 0 <= j <= |c|
    decreases |c| - j
  {
    if j == |c| then 0
    else
      var here := if c[j] in nodes && 0 <= flag <= |nodes[c[j]].slots|
                  then Stop(nodes[c[j]].slots, flag) - flag else 0;
      here + ReleasedCount(nodes, c, j + 1, 0)
  }

  /** The release from node j splits into node j's own part and the release
      from node j + 1. */
  lemma ReleaseUnfold(nodes: map<int, INode>, c: seq<int>, j: int, flag: int)
    requires 0 <= j < |c|
    ensures ReleasedNodes(c, j, flag) == (if flag == 0 then {c[j]} else {}) + ReleasedNodes(c, j + 1, 0)
  {
    var r := (if flag == 0 then {c[j]} else {}) + ReleasedNodes(c, j + 1, 0);
    forall b | b in ReleasedNodes(c, j, flag) ensures b in r {
      var i :| j + (if flag == 0 then 0 else 1) <= i < |c| && c[i] == b;
      if i > j {
        assert b in ReleasedNodes(c, j + 1, 0);
      }
    }
  }

  /** Node j keeps its shape when everything released from node j + 1 on is
      taken out of nodes and owner. */
  lemma NodeSurvives(nodes0: map<int, INode>, owner0: map<int, Owner>, e: int, c: seq<int>, j: int,
                     nodes: map<int, INode>, owner: map<int, Owner>)
    requires TailOk(nodes0, owner0, e, c, j)
    requires nodes == nodes0 - ReleasedNodes(c, j + 1, 0)
    requires owner == owner0 - ReleasedNodes(c, j + 1, 0) - ReleasedData(nodes0, c, j + 1, 0)
    ensures NodeOk(nodes, owner, e, c, j)
    ensures c[j] !in ReleasedNodes(c, j + 1, 0) && nodes[c[j]] == nodes0[c[j]]
  {
    assert NodeOk(nodes0, owner0, e, c, j);
    if j + 1 < |c| {
      ReleasedOwned(nodes0, owner0, e, c, j + 1, 0);
      var n := nodes0[c[j]];
      assert !Beyond(owner0[c[j]], e, j + 1, 0);
      forall s | 0 <= s < DATA_BLOCKS_NUM ensures SlotOk(owner, e, j, s, n.slots[s]) {
        assert SlotOk(owner0, e, j, s, n.slots[s]);
        if n.slots[s] != EMPTY {
          assert !Beyond(owner0[n.slots[s]], e, j + 1, 0);
        }
      }
    }
  }

  /** Removing key sets one after another. */
  lemma MinusSplit<V>(m0: map<int, V>, m1: map<int, V>, m2: map<int, V>,
                      rn: set<int>, rd: set<int>, here: set<int>, self: set<int>, all: set<int>, data: set<int>)
    requires m1 == m0 - rn - rd
    requires m2 == m1 - here - self
    requires all == self + rn && data == here + rd
    ensures m2 == m0 - all - data
  {
  }

  /** Removing a key after updating it. */
  lemma MinusUpdate<V>(m: map<int, V>, a: set<int>, k: int, v: V)
    ensures (m - a)[k := v] - {k} == m - (if k in a then a else ({k} + a))
  {
  }

  /** Owner o belongs to file e at or after slot flag of node j, in chain order. */
  ghost predicate Beyond(o: Owner, e: int, j: int, flag: int) {
    match o
    case IndexNode(e', i) => e' == e && (i > j || (i == j && flag == 0))
    case DataBlock(e', i, s) => e' == e && (i > j || (i == j && s >= flag))
    case _ => false
  }

  /** Everything a release from node j, slot flag, frees is owned by the file
      at or after that point of its chain. */
  lemma {:induction false} ReleasedOwned(nodes: map<int, INode>, owner: map<int, Owner>, e: int,
                                         c: seq<int>, j: int, flag: int)
    requires TailOk(nodes, owner, e, c, j) && 0 <= flag <= DATA_BLOCKS_NUM
    ensures forall b :: b in ReleasedNodes(c, j, flag) ==> b in owner && Beyond(owner[b], e, j, flag)
    ensures forall b :: b in ReleasedData(nodes, c, j, flag) ==> b in owner && Beyond(owner[b], e, j, flag)
    decreases |c| - j
  {
    forall b | b in ReleasedNodes(c, j, flag) ensures b in owner && Beyond(owner[b], e, j, flag) {
      var i :| j + (if flag == 0 then 0 else 1) <= i < |c| && c[i] == b;
      assert NodeOk(nodes, owner, e, c, i);
    }
    assert NodeOk(nodes, owner, e, c, j);
    var slots := nodes[c[j]].slots;
    forall b | b in SlotsReleased(nodes, c[j], flag) ensures b in owner && Beyond(owner[b], e, j, flag) {
      var s :| flag <= s < Stop(slots, flag) && slots[s] == b;
      assert SlotOk(owner, e, j, s, slots[s]);
    }
    if j + 1 < |c| {
      ReleasedOwned(nodes, owner, e, c, j + 1, 0);
    }
  }

  /** Taking out blocks that all belong to file e, and changing only nodes of
      file e, keeps what every other file owns. */
  lemma ReleaseKeeps(nodes: map<int, INode>, owner: map<int, Owner>,
                     nodes': map<int, INode>, owner': map<int, Owner>, gone: set<int>, e: int, e': int)
    requires forall b :: b in gone && b in owner ==> OwnedBy(owner[b], e)
    requires owner' == owner - gone
    requires forall b :: b in nodes && b in owner && !OwnedBy(owner[b], e) ==> b in nodes' && nodes'[b] == nodes[b]
    requires e' != e
    ensures Keeps(nodes, owner, nodes', owner', e')
  {
    forall b | b in owner && OwnedBy(owner[b], e') ensures b in owner' && owner'[b] == owner[b] {
      assert !OwnedBy(owner[b], e);
    }
  }

  /** Releasing node h from slot DATA_BLOCKS_NUM on touches no slot of node h:
      it is the release of node h + 1 from slot 0 (lfs_truncate's two calls
      on the last slot of a node agree). */
  lemma LastSlotRelease(nodes: map<int, INode>, c: seq<int>, h: int)
    requires 0 <= h < |c| && c[h] in nodes && |nodes[c[h]].slots| == DATA_BLOCKS_NUM
    ensures ReleasedNodes(c, h, DATA_BLOCKS_NUM) == ReleasedNodes(c, h + 1, 0)
    ensures ReleasedData(nodes, c, h, DATA_BLOCKS_NUM) == ReleasedData(nodes, c, h + 1, 0)
    ensures ReleasedCount(nodes, c, h, DATA_BLOCKS_NUM) == ReleasedCount(nodes, c, h + 1, 0)
    ensures ClearFrom(nodes[c[h]].slots, DATA_BLOCKS_NUM) == nodes[c[h]].slots
  {
    var slots := nodes[c[h]].slots;
    assert SlotSet(slots, DATA_BLOCKS_NUM, DATA_BLOCKS_NUM) == {};
    assert slots[..DATA_BLOCKS_NUM] == slots;
  }

  /** Distinct positions of a well-formed chain hold distinct nodes. */
  lemma ChainDistinct(nodes: map<int, INode>, owner: map<int, Owner>, e: int, c: seq<int>, i: int, j: int)
    requires ChainOk(nodes, owner, e, c) && 0 <= i < |c| && 0 <= j < |c| && i != j
    ensures c[i] != c[j]
  {
    assert NodeOk(nodes, owner, e, c, i) && NodeOk(nodes, owner, e, c, j);
  }

  /** The chain lfs_truncate leaves: nodes 0..h, node h's slots cleared from
      flag up to its first EMPTY and its next set to NULL, every later node and
      the data blocks the release visits taken out. */
  ghost function Truncated(nodes: map<int, INode>, c: seq<int>, h: int, flag: int): map<int, INode>
    requires 0 <= h < |c| && c[h] in nodes && 0 <= flag <= |nodes[c[h]].slots|
  {
    (nodes - ReleasedNodes(c, h, flag))[c[h] := INode(None, ClearFrom(nodes[c[h]].slots, flag))]
  }

  /** That chain is well formed: the first h + 1 nodes of the old chain, each
      slot still owned or EMPTY. */
  lemma {:induction false} TruncChainOk(nodes: map<int, INode>, owner: map<int, Owner>, e: int, c: seq<int>,
                                        h: int, flag: int)
    requires ChainOk(nodes, owner, e, c) && 0 <= h < |c| && 0 < flag <= DATA_BLOCKS_NUM
    ensures c[h] in nodes && |nodes[c[h]].slots| == DATA_BLOCKS_NUM
    ensures ChainOk(Truncated(nodes, c, h, flag),
                    owner - ReleasedNodes(c, h, flag) - ReleasedData(nodes, c, h, flag), e, c[..h + 1])
  {
    assert NodeOk(nodes, owner, e, c, h);
    var rn, rd := ReleasedNodes(c, h, flag), ReleasedData(nodes, c, h, flag);
    var nodes', owner' := Truncated(nodes, c, h, flag), owner - rn - rd;
    var c' := c[..h + 1];
    ReleasedOwned(nodes, owner, e, c, h, flag);
    var slots := nodes[c[h]].slots;
    if h + 1 < |c| {
      ReleasedOwned(nodes, owner, e, c, h + 1, 0);
    }
    forall j | 0 <= j <= h ensures NodeOk(nodes', owner', e, c', j) {
      assert NodeOk(nodes, owner, e, c, j);
      assert c'[j] == c[j];
      assert !Beyond(owner[c[j]], e, h, flag);
      if j < h {
        ChainDistinct(nodes, owner, e, c, j, h);
        var n := nodes[c[j]];
        assert nodes'[c[j]] == n;
        forall s | 0 <= s < DATA_BLOCKS_NUM ensures SlotOk(owner', e, j, s, n.slots[s]) {
          assert SlotOk(owner, e, j, s, n.slots[s]);
          if n.slots[s] != EMPTY {
            assert !Beyond(owner[n.slots[s]], e, h, flag);
          }
        }
      } else {
        var r := ClearFrom(slots, flag);
        forall s | 0 <= s < DATA_BLOCKS_NUM ensures SlotOk(owner', e, h, s, r[s]) {
          assert SlotOk(owner, e, h, s, slots[s]);
          if r[s] != EMPTY {
            var v := slots[s];
            assert r[s] == v;
            if s < flag {
              assert !Beyond(owner[v], e, h, flag);
            } else {
              assert s >= Stop(slots, flag);
              forall s' | flag <= s' < Stop(slots, flag) ensures slots[s'] != v {
                assert SlotOk(owner, e, h, s', slots[s']);
              }
              assert v !in SlotsReleased(nodes, c[h], flag);
              if h + 1 < |c| {
                assert !Beyond(owner[v], e, h + 1, 0);
                assert v !in ReleasedData(nodes, c, h + 1, 0);
              }
              assert rd == SlotsReleased(nodes, c[h], flag) + ReleasedData(nodes, c, h + 1, 0);
              assert v !in rd;
              forall i | h + 1 <= i < |c| ensures c[i] != v {
                assert NodeOk(nodes, owner, e, c, i);
              }
            }
          }
        }
      }
    }
  }

  /** Truncating at node h, slot flag, leaves every logical block before that
      point attached where it was. */
  lemma TruncKeeps(nodes: map<int, INode>, owner: map<int, Owner>, e: int, c: seq<int>,
                   h: int, flag: int, L: int)
    requires ChainOk(nodes, owner, e, c) && 0 <= h < |c| && 0 < flag <= DATA_BLOCKS_NUM
    requires 0 <= L < h * DATA_BLOCKS_NUM + flag
    ensures c[h] in nodes && |nodes[c[h]].slots| == DATA_BLOCKS_NUM
    ensures LogicalSlot(Truncated(nodes, c, h, flag), c[..h + 1], L) == LogicalSlot(nodes, c, L)
  {
    var j, s := L / DATA_BLOCKS_NUM, L % DATA_BLOCKS_NUM;
    assert L == j * DATA_BLOCKS_NUM + s;
    assert j <= h;
    assert NodeOk(nodes, owner, e, c, j) && NodeOk(nodes, owner, e, c, h);
    var nodes' := Truncated(nodes, c, h, flag);
    forall i | h + 1 <= i < |c| ensures c[i] != c[j] {
      ChainDistinct(nodes, owner, e, c, i, j);
    }
    assert c[j] !in ReleasedNodes(c, h, flag);
    if j < h {
      ChainDistinct(nodes, owner, e, c, j, h);
      assert nodes'[c[j]] == nodes[c[j]];
    } else {
      assert s < flag;
      assert nodes'[c[h]].slots[s] == nodes[c[h]].slots[s];
    }
  }

  /** The truncated chain, reached through the release of node h + 1 from slot
      0 followed by node h's next becoming NULL. */
  lemma TruncatedLast(nodes0: map<int, INode>, c: seq<int>, h: int, nodes1: map<int, INode>)
    requires 0 <= h < |c| && c[h] in nodes0 && |nodes0[c[h]].slots| == DATA_BLOCKS_NUM
    requires c[h] !in ReleasedNodes(c, h + 1, 0) && nodes1 == nodes0 - ReleasedNodes(c, h + 1, 0)
    ensures c[h] in nodes1
    ensures nodes1[c[h] := nodes1[c[h]].(next := None)] == Truncated(nodes0, c, h, DATA_BLOCKS_NUM)
  {
    LastSlotRelease(nodes0, c, h);
  }

  /** The truncated chain, reached through the release of node h from slot
      flag followed by node h's next becoming NULL. */
  lemma TruncatedInner(nodes0: map<int, INode>, c: seq<int>, h: int, flag: int, nodes1: map<int, INode>)
    requires 0 <= h < |c| && c[h] in nodes0 && 0 <= flag <= |nodes0[c[h]].slots|
    requires nodes1 == (nodes0 - ReleasedNodes(c, h, flag))[c[h] :=
      nodes0[c[h]].(slots := ClearFrom(nodes0[c[h]].slots, flag))]
    ensures c[h] in nodes1
    ensures nodes1[c[h] := nodes1[c[h]].(next := None)] == Truncated(nodes0, c, h, flag)
  {
  }

  /** Node j of chain c gets a fresh node nb as its next, with every slot
      EMPTY; whatever followed node j is no longer linked. */
  ghost function Relinked(nodes: map<int, INode>, c: seq<int>, j: int, nb: int): map<int, INode>
    requires 0 <= j < |c| && c[j] in nodes
  {
    nodes[c[j] := nodes[c[j]].(next := Some(nb))][nb := INode(None, EmptySlots())]
  }

  /** The relinked chain is the first j + 1 nodes followed by nb. */
  lemma RelinkChainOk(nodes: map<int, INode>, owner: map<int, Owner>, e: int, c: seq<int>, j: int, nb: int)
    requires ChainOk(nodes, owner, e, c) && 0 <= j < |c| && nb !in owner
    ensures c[j] in nodes
    ensures ChainOk(Relinked(nodes, c, j, nb), owner[nb := IndexNode(e, j + 1)], e, c[..j + 1] + [nb])
  {
    assert NodeOk(nodes, owner, e, c, j);
    var nodes', owner', c' := Relinked(nodes, c, j, nb), owner[nb := IndexNode(e, j + 1)], c[..j + 1] + [nb];
    forall i | 0 <= i < |c'| ensures NodeOk(nodes', owner', e, c', i) {
      if i <= j {
        assert c'[i] == c[i];
        assert NodeOk(nodes, owner, e, c, i);
        if i < j {
          ChainDistinct(nodes, owner, e, c, i, j);
        }
        var n := nodes[c[i]];
        forall s | 0 <= s < DATA_BLOCKS_NUM ensures SlotOk(owner', e, i, s, n.slots[s]) {
          assert SlotOk(owner, e, i, s, n.slots[s]);
        }
      }
    }
  }

  /** The logical blocks of the relinked chain: those of the first j + 1 nodes
      are kept, every later one is EMPTY. */
  lemma RelinkSlots(nodes: map<int, INode>, owner: map<int, Owner>, e: int, c: seq<int>, j: int, nb: int)
    requires ChainOk(nodes, owner, e, c) && 0 <= j < |c| && nb !in owner
    ensures c[j] in nodes
    ensures forall L :: 0 <= L ==>
      LogicalSlot(Relinked(nodes, c, j, nb), c[..j + 1] + [nb], L) ==
        if L < (j + 1) * DATA_BLOCKS_NUM then LogicalSlot(nodes, c, L) else EMPTY
  {
    assert NodeOk(nodes, owner, e, c, j);
    var nodes', c' := Relinked(nodes, c, j, nb), c[..j + 1] + [nb];
    forall L | 0 <= L
      ensures LogicalSlot(nodes', c', L) == if L < (j + 1) * DATA_BLOCKS_NUM then LogicalSlot(nodes, c, L) else EMPTY
    {
      var i := L / DATA_BLOCKS_NUM;
      if L < (j + 1) * DATA_BLOCKS_NUM {
        assert i <= j;
        assert NodeOk(nodes, owner, e, c, i);
        assert c'[i] == c[i];
        if i < j {
          ChainDistinct(nodes, owner, e, c, i, j);
        }
      } else {
        assert i >= j + 1;
      }
    }
  }

  /** Slot s of node id gets block w. */
  ghost function SlotFilled(nodes: map<int, INode>, id: int, s: int, w: int): map<int, INode>
    requires id in nodes && 0 <= s < |nodes[id].slots|
  {
    nodes[id := nodes[id].(slots := nodes[id].slots[s := w])]
  }

  /** A fresh block in slot s of node j, owned by that slot, keeps the chain
      well formed. */
  lemma FillChainOk(nodes: map<int, INode>, owner: map<int, Owner>, e: int, c: seq<int>, j: int, s: int, w: int)
    requires ChainOk(nodes, owner, e, c) && 0 <= j < |c| && 0 <= s < DATA_BLOCKS_NUM && w !in owner
    ensures c[j] in nodes && |nodes[c[j]].slots| == DATA_BLOCKS_NUM
    ensures ChainOk(SlotFilled(nodes, c[j], s, w), owner[w := DataBlock(e, j, s)], e, c)
  {
    assert NodeOk(nodes, owner, e, c, j);
    var nodes', owner' := SlotFilled(nodes, c[j], s, w), owner[w := DataBlock(e, j, s)];
    forall i | 0 <= i < |c| ensures NodeOk(nodes', owner', e, c, i) {
      assert NodeOk(nodes, owner, e, c, i);
      if i != j {
        ChainDistinct(nodes, owner, e, c, i, j);
      }
      var n := nodes[c[i]];
      forall t | 0 <= t < DATA_BLOCKS_NUM ensures SlotOk(owner', e, i, t, nodes'[c[i]].slots[t]) {
        assert SlotOk(owner, e, i, t, n.slots[t]);
      }
    }
  }

  /** The logical blocks after that fill: block j * DATA_BLOCKS_NUM + s is w,
      the others are kept. */
  lemma FillSlots(nodes: map<int, INode>, owner: map<int, Owner>, e: int, c: seq<int>, j: int, s: int, w: int)
    requires ChainOk(nodes, owner, e, c) && 0 <= j < |c| && 0 <= s < DATA_BLOCKS_NUM
    ensures c[j] in nodes && |nodes[c[j]].slots| == DATA_BLOCKS_NUM
    ensures forall L :: 0 <= L ==>
      LogicalSlot(SlotFilled(nodes, c[j], s, w), c, L) ==
        if L == j * DATA_BLOCKS_NUM + s then w else LogicalSlot(nodes, c, L)
  {
    assert NodeOk(nodes, owner, e, c, j);
    var nodes' := SlotFilled(nodes, c[j], s, w);
    forall L | 0 <= L
      ensures LogicalSlot(nodes', c, L) == if L == j * DATA_BLOCKS_NUM + s then w else LogicalSlot(nodes, c, L)
    {
      InNode(j, s);
      var i := L / DATA_BLOCKS_NUM;
      if i < |c| {
        assert NodeOk(nodes, owner, e, c, i);
        if i != j {
          ChainDistinct(nodes, owner, e, c, i, j);
        }
      }
    }
  }

  /** Growing the owner map with fresh blocks, and changing only nodes that
      file e owns or that were not owned, keeps what every other file owns. */
  lemma GrowKeeps(nodes: map<int, INode>, owner: map<int, Owner>,
                  nodes': map<int, INode>, owner': map<int, Owner>, e: int, e': int)
    requires forall b :: b in owner ==> b in owner' && owner'[b] == owner[b]
    requires forall b :: b in nodes && b in owner && !OwnedBy(owner[b], e) ==> b in nodes' && nodes'[b] == nodes[b]
    requires e' != e
    ensures Keeps(nodes, owner, nodes', owner', e')
  {
  }

  /** An attached logical block is a data block owned by the slot holding it. */
  lemma SlotOwned(nodes: map<int, INode>, owner: map<int, Owner>, e: int, c: seq<int>, L: int)
    requires ChainOk(nodes, owner, e, c) && 0 <= L
    ensures LogicalSlot(nodes, c, L) != EMPTY ==>
      LogicalSlot(nodes, c, L) in owner &&
      owner[LogicalSlot(nodes, c, L)] == DataBlock(e, L / DATA_BLOCKS_NUM, L % DATA_BLOCKS_NUM)
  {
    if L / DATA_BLOCKS_NUM < |c| {
      assert NodeOk(nodes, owner, e, c, L / DATA_BLOCKS_NUM);
    }
  }

  /** No block is attached at two logical positions of one chain. */
  lemma SlotUnique(nodes: map<int, INode>, owner: map<int, Owner>, e: int, c: seq<int>, L: int, L': int)
    requires ChainOk(nodes, owner, e, c) && 0 <= L && 0 <= L' && L != L'
    requires LogicalSlot(nodes, c, L) != EMPTY
    ensures LogicalSlot(nodes, c, L') != LogicalSlot(nodes, c, L)
  {
    SlotOwned(nodes, owner, e, c, L);
    SlotOwned(nodes, owner, e, c, L');
    assert L == L / DATA_BLOCKS_NUM * DATA_BLOCKS_NUM + L % DATA_BLOCKS_NUM;
    assert L' == L' / DATA_BLOCKS_NUM * DATA_BLOCKS_NUM + L' % DATA_BLOCKS_NUM;
  }

  /** Node j of a well-formed chain, unfolded. */
  lemma NodeAt(nodes: map<int, INode>, owner: map<int, Owner>, e: int, c: seq<int>, j: int)
    requires ChainOk(nodes, owner, e, c) && 0 <= j < |c|
    ensures c[j] in nodes && c[j] in owner && owner[c[j]] == IndexNode(e, j)
    ensures |nodes[c[j]].slots| == DATA_BLOCKS_NUM
    ensures nodes[c[j]].next == if j + 1 < |c| then Some(c[j + 1]) else None
  {
    assert NodeOk(nodes, owner, e, c, j);
  }

  /** Slot s of node h of a well-formed chain is logical block
      h * DATA_BLOCKS_NUM + s, and is EMPTY or owned by that position. */
  lemma SlotAt(nodes: map<int, INode>, owner: map<int, Owner>, e: int, c: seq<int>, h: int, s: int)
    requires ChainOk(nodes, owner, e, c) && 0 <= h < |c| && 0 <= s < DATA_BLOCKS_NUM
    ensures c[h] in nodes && |nodes[c[h]].slots| == DATA_BLOCKS_NUM
    ensures LogicalSlot(nodes, c, h * DATA_BLOCKS_NUM + s) == nodes[c[h]].slots[s]
    ensures SlotOk(owner, e, h, s, nodes[c[h]].slots[s])
  {
    assert NodeOk(nodes, owner, e, c, h);
    InNode(h, s);
  }

  /** Logical blocks past the last node of a chain are EMPTY. */
  lemma BeyondChain(nodes: map<int, INode>, c: seq<int>)
    ensures forall L :: L >= |c| * DATA_BLOCKS_NUM ==> LogicalSlot(nodes, c, L) == EMPTY
  {
  }
}
