/**
 * The file cache that stands in for the SQLite journal: a list of 64-byte blocks, sorted by number, of
 * a file most of which is never written.
 */
module JournalCache {
  import opened Bytes

  const BLOCK: nat := 64
  const NOMEM: nat := 7

  class Block {
    var blockid: nat
    var data: seq<byte>
    var next: Block?

    constructor (blockid: nat)
      ensures this.blockid == blockid && data == Zeros() && next == null
    {
      this.blockid, data, next := blockid, Zeros(), null;
    }
  }

  function Zeros(): (z: seq<byte>)
    ensures |z| == BLOCK && forall i :: 0 <= i < BLOCK ==> z[i] == 0
  {
    seq(BLOCK, i => 0)
  }

  /** t put over b from position p on. */
  function Put(b: seq<byte>, p: nat, t: seq<byte>): (r: seq<byte>)
    requires p + |t| <= |b|
    ensures |r| == |b| && forall i :: 0 <= i < |b| ==> r[i] == if p <= i < p + |t| then t[i - p] else b[i]
  {
    b[..p] + t + b[p + |t|..]
  }

  // ----- What a push means -----

  /** The blocks kept, by number. */
  type Blocks = map<nat, seq<byte>>

  ghost predicate Whole(m: Blocks) { forall id :: id in m ==> |m[id]| == BLOCK }

  /** Number of chunks a range is cut into at block boundaries. */
  function Chunks(offset: nat, len: nat): nat { (offset % BLOCK + len + BLOCK - 1) / BLOCK }

  /** Offsets for which block numbers and the count of chunks fit in 16 bits. */
  ghost predicate InRange(offset: nat, len: nat) {
    offset < 0x40_0000 && offset + len <= 0x40_0000 && Chunks(offset, len) < 0x1_0000
  }

  /** Length of the chunk that begins r bytes into the range. */
  function ChunkLength(offset: nat, len: nat, r: nat): (n: nat)
    requires r <= len
    ensures n <= BLOCK && r + n <= len
  {
    if len - r > BLOCK - (offset + r) % BLOCK then BLOCK - (offset + r) % BLOCK else len - r
  }

  /** A chunk is taken for blank by the 64 bytes from its first one on, of which it may itself be only a part. */
  predicate Blank(mem: seq<byte>, p: nat)
    requires p + BLOCK <= |mem|
  {
    mem[p..p + BLOCK] == Zeros()
  }

  /** The blocks after a chunk was stored at an offset. */
  ghost function Stored(m: Blocks, offset: nat, chunk: seq<byte>): (m': Blocks)
    requires Whole(m) && offset % BLOCK + |chunk| <= BLOCK
    ensures Whole(m')
  {
    var id := offset / BLOCK;
    m[id := Put(if id in m then m[id] else Zeros(), offset % BLOCK, chunk)]
  }

  ghost function Step(m: Blocks, offset: nat, len: nat, mem: seq<byte>, r: nat): (m': Blocks)
    requires Whole(m) && r <= len && r + BLOCK <= |mem|
    ensures Whole(m')
  {
    if Blank(mem, r) then m else Stored(m, offset + r, mem[r..r + ChunkLength(offset, len, r)])
  }

  /** Can a new block with this number be linked behind another one? */
  ghost predicate Linkable(m: Blocks, id: nat) {
    exists j :: j in m && j <= id
  }

  /** How far the first i chunks of a range reach. */
  function Reached(offset: nat, len: nat, i: nat): (r: nat)
    ensures r <= len
  {
    if i == 0 then 0 else if BLOCK * i - offset % BLOCK < len then BLOCK * i - offset % BLOCK else len
  }

  /** How far a push reads: up to 64 bytes behind where its last chunk begins, or its first if that ends the push. */
  function ReadEnd(offset: nat, len: nat): (n: nat) {
    if Chunks(offset, len) == 0 then 0
    else if ChunkLength(offset, len, 0) == NOMEM then BLOCK
    else Reached(offset, len, Chunks(offset, len) - 1) + BLOCK
  }

  /** The memory reaches far enough for a push that has come to chunk i. */
  ghost predicate Readable(offset: nat, len: nat, mem: seq<byte>, i: nat) {
    && ReadEnd(offset, len) <= |mem| && i <= Chunks(offset, len)
    && (0 < i < Chunks(offset, len) ==> ChunkLength(offset, len, 0) != NOMEM)
  }

  /** Chunk k has length 7, the value of the error code for a failed allocation. */
  ghost predicate Clash(offset: nat, len: nat, k: nat) { ChunkLength(offset, len, Reached(offset, len, k)) == NOMEM }

  /** A push comes to chunk i unless an earlier chunk, of length 7, ends it. */
  ghost predicate ComesTo(offset: nat, len: nat, i: nat) {
    i < Chunks(offset, len) && forall k :: 0 <= k < i ==> !Clash(offset, len, k)
  }

  lemma ReadableChunk(offset: nat, len: nat, mem: seq<byte>, i: nat)
    requires Readable(offset, len, mem, i) && i < Chunks(offset, len)
    ensures Reached(offset, len, i) + BLOCK <= |mem|
    ensures ChunkLength(offset, len, Reached(offset, len, i)) != NOMEM ==> Readable(offset, len, mem, i + 1)
  {
  }

  /**
   * All 64 bytes that the chunks a push comes to are compared with lie in a buffer exactly when it has ReadEnd bytes.
   */
  lemma ReadsInside(offset: nat, len: nat, n: nat)
    ensures (forall i :: 0 <= i && ComesTo(offset, len, i) ==> Reached(offset, len, i) + BLOCK <= n) <==>
      ReadEnd(offset, len) <= n
  {
    var c := Chunks(offset, len);
    if c > 0 {
      var last := if ChunkLength(offset, len, 0) == NOMEM then 0 else c - 1;
      assert Clash(offset, len, 0) <==> ChunkLength(offset, len, 0) == NOMEM;
      assert ComesTo(offset, len, last);
      assert Reached(offset, len, last) + BLOCK == ReadEnd(offset, len);
    }
  }

  /** Four bytes pushed to the start of the file are compared with 64. */
  lemma FourBytesRead()
    ensures ComesTo(0, 4, 0) && Reached(0, 4, 0) + BLOCK == ReadEnd(0, 4) == 64 > 4
  {
  }

  /** Whole blocks can be pushed from a buffer that ends with them. */
  lemma WholeBlocksRead(offset: nat, len: nat)
    requires (offset + len) % BLOCK == 0 && len >= BLOCK
    ensures ReadEnd(offset, len) <= len
  {
  }

  /** Blocks and outcome after the chunks from the i-th on; a chunk of length 7 is mistaken for a failure. */
  ghost function Pushed(m: Blocks, offset: nat, len: nat, mem: seq<byte>, i: nat): (p: (Blocks, bool))
    requires Whole(m) && Readable(offset, len, mem, i)
    ensures Whole(p.0)
    decreases Chunks(offset, len) - i
  {
    if i == Chunks(offset, len) then (m, true) else
      ReadableChunk(offset, len, mem, i);
      var r := Reached(offset, len, i);
      if ChunkLength(offset, len, r) == NOMEM then
        (if Linkable(m, (offset + r) / BLOCK) then Step(m, offset, len, mem, r) else m, false)
      else Pushed(Step(m, offset, len, mem, r), offset, len, mem, i + 1)
  }

  /** The byte at position p as a pull shows it to a caller whose buffer held b. */
  ghost function Seen(m: Blocks, p: nat, b: byte): (x: byte)
    requires Whole(m)
  {
    if p / BLOCK in m then m[p / BLOCK][p % BLOCK] else b
  }

  /** Bytes inside one block. */
  lemma SeenChunk(m: Blocks, offset: nat, n: nat)
    requires Whole(m) && offset % BLOCK + n <= BLOCK
    ensures forall p: nat, b: byte :: offset <= p < offset + n ==>
      Seen(m, p, b) == if offset / BLOCK in m then m[offset / BLOCK][offset % BLOCK + (p - offset)] else b
  {
    forall p: nat | offset <= p < offset + n
      ensures p / BLOCK == offset / BLOCK && p % BLOCK == offset % BLOCK + (p - offset)
    {
      Split(p, BLOCK, offset / BLOCK, offset % BLOCK + (p - offset));
    }
  }

  // ----- The list -----

  /** Node i has this number, these data and the right successor. */
  ghost predicate NodeAt(bs: seq<Block>, ids: seq<nat>, m: Blocks, i: nat)
    requires i < |bs| == |ids|
    reads bs[i]
  {
    && bs[i].next == (if i + 1 < |bs| then bs[i + 1] else null)
    && bs[i].blockid == ids[i] && ids[i] in m && m[ids[i]] == bs[i].data
  }

  /** Numbers strictly increase along the list, and are those of the blocks kept. */
  ghost predicate Sorted(ids: seq<nat>, m: Blocks) {
    && (forall i, j :: 0 <= i < j < |ids| ==> ids[i] < ids[j])
    && (forall id :: id in m <==> id in ids)
  }

  ghost predicate Listed(head: Block?, bs: seq<Block>, ids: seq<nat>, m: Blocks)
    reads bs
  {
    && |bs| == |ids| && head == (if bs == [] then null else bs[0])
    && forall i :: 0 <= i < |bs| ==> NodeAt(bs, ids, m, i)
  }

  /** Where the search for an offset stops: the last block not behind it, or the first. */
  ghost predicate Stops(ids: seq<nat>, offset: nat, k: nat) {
    && k < |ids|
    && (k > 0 ==> ids[k] * BLOCK <= offset)
    && (k + 1 < |ids| ==> ids[k + 1] * BLOCK > offset)
  }

  class FileCache {
    var list: Block?
    var size: nat
    ghost var blocks: seq<Block>
    ghost var ids: seq<nat>
    ghost var m: Blocks

    constructor ()
      ensures Valid() && m == map[] && size == 0 && blocks == []
    {
      list, size, blocks, ids, m := null, 0, [], [], map[];
    }

    ghost predicate Valid()
      reads `list, `blocks, `ids, `m, blocks
    {
      Listed(list, blocks, ids, m) && Sorted(ids, m) && Whole(m)
    }

    /** The search loop of filecache_push and filecache_pull. */
    method FindLeaf(offset: nat) returns (leaf: Block?, moved: bool, ghost k: nat)
      requires Valid()
      ensures leaf == null <==> blocks == []
      ensures leaf != null ==> Stops(ids, offset, k) && leaf == blocks[k] && (moved <==> k > 0)
      ensures leaf == null ==> !moved
    {
      hide Sorted, Whole;
      leaf, moved, k := list, false, 0;
      while leaf != null && leaf.next != null
        invariant leaf == null <==> blocks == []
        invariant leaf != null ==>
          k < |blocks| && leaf == blocks[k] && (moved <==> k > 0) && (k > 0 ==> ids[k] * BLOCK <= offset)
        invariant leaf == null ==> !moved
        decreases |blocks| - k
      {
        assert NodeAt(blocks, ids, m, k) && (k + 1 < |blocks| ==> NodeAt(blocks, ids, m, k + 1));
        if leaf.next.blockid * BLOCK > offset {
          break;
        }
        moved := true;
        leaf := leaf.next;
        k := k + 1;
      }
      assert leaf != null ==> NodeAt(blocks, ids, m, k);
    }

    /** memcpy into a block of the list. */
    method Fill(block: Block, o: nat, chunk: seq<byte>, ghost k: nat)
      requires Valid() && k < |blocks| && block == blocks[k] && o + |chunk| <= BLOCK
      modifies block`data, `m
      ensures Valid() && block.blockid in old(m) && m == old(m)[block.blockid := Put(old(m)[block.blockid], o, chunk)]
    {
      ghost var m0 := m;
      assert NodeAt(blocks, ids, m, k);
      block.data := Put(block.data, o, chunk);
      m := m[block.blockid := block.data];
      forall i | 0 <= i < |blocks|
        ensures NodeAt(blocks, ids, m, i)
      {
        assert old(NodeAt(blocks, ids, m0, i));
        assert i != k ==> ids[i] != ids[k];
      }
    }

    /** A new block is linked behind the k-th. */
    method InsertBehind(leaf: Block, block: Block, ghost k: nat)
      requires Valid() && k < |blocks| && leaf == blocks[k] && block !in blocks
      requires ids[k] < block.blockid && (k + 1 < |ids| ==> block.blockid < ids[k + 1])
      requires block.data == Zeros() && block.blockid !in m
      modifies leaf`next, block`next, `blocks, `ids, `m
      ensures Valid() && m == old(m)[block.blockid := Zeros()]
      ensures k + 1 < |blocks| && blocks[k + 1] == block && blocks[0] == old(blocks[0])
      ensures forall b :: b in blocks ==> b == block || b in old(blocks)
    {
      hide Sorted, Whole, Inserted;
      ghost var bs, ns, m0 := blocks, ids, m;
      InsertedSorted(ids, k + 1, block.blockid, m, Zeros());
      Once(k);
      assert NodeAt(bs, ns, m0, k);
      block.next := leaf.next;
      leaf.next := block;
      blocks, ids := Inserted(bs, k + 1, block), Inserted(ns, k + 1, block.blockid);
      m := m[block.blockid := Zeros()];
      InsertedAt(bs, k + 1, block);
      InsertedElement(ns, k + 1, block.blockid, k + 1);
      WholeMore(m0, block.blockid);
      forall i | 0 <= i < |blocks|
        ensures NodeAt(blocks, ids, m, i)
      {
        if i != k + 1 {
          ghost var j := if i <= k then i else i - 1;
          assert old(NodeAt(bs, ns, m0, j));
          InsertedElement(bs, k + 1, block, i);
          InsertedElement(ns, k + 1, block.blockid, i);
          assert bs[j] in bs && blocks[i] == bs[j] && ids[i] == ns[j];
        }
      }
    }

    /** linkedlist_store.  A block to be linked in front of all others is handed back; the caller makes it the first. */
    method Store(leaf0: Block?, offset: nat, len: nat, mem: seq<byte>, p: nat, ghost k: nat)
      returns (r: nat, leaf: Block?)
      requires Valid() && (leaf0 == null <==> blocks == []) &&
        (leaf0 != null ==> Stops(ids, offset, k) && leaf0 == blocks[k])
      requires offset < 0x40_0000 && offset % BLOCK + len <= BLOCK && p + BLOCK <= |mem|
      modifies `blocks, `ids, `m, blocks
      ensures Valid() && r == len && forall j :: 0 <= j < |blocks| ==> blocks[j] in old(blocks) || fresh(blocks[j])
      ensures Blank(mem, p) ==> leaf == leaf0 && m == old(m) && blocks == old(blocks)
      ensures !Blank(mem, p) && Linkable(old(m), offset / BLOCK) ==>
        leaf == leaf0 && m == Stored(old(m), offset, mem[p..p + len])
      ensures !Blank(mem, p) && Linkable(old(m), offset / BLOCK) ==>
        blocks != [] && old(blocks) != [] && blocks[0] == old(blocks[0])
      ensures !Blank(mem, p) && !Linkable(old(m), offset / BLOCK) ==>
        && leaf != null && fresh(leaf) && m == old(m) && blocks == old(blocks) && ids == old(ids)
        && leaf.next == list && leaf.blockid == offset / BLOCK
        && leaf.data == Stored(old(m), offset, mem[p..p + len])[offset / BLOCK]
    {
      hide Listed, Sorted, Put, Stops, Inserted, Linkable;
      leaf := leaf0;
      if mem[p..p + BLOCK] == Zeros() {
        return len, leaf;
      }
      var blockid := offset / BLOCK % 0x1_0000;
      SmallId(offset);
      LeafNode(leaf, offset, k);
      LinkableIf(ids, m, offset, k);
      var block := leaf;
      if leaf == null || leaf.blockid != blockid {
        block := new Block(blockid);
      }
      if leaf == null {
        leaf := block;
        block.next := null;
        block.data := Put(block.data, offset % BLOCK, mem[p..p + len]);
      } else if block == leaf {
        Fill(block, offset % BLOCK, mem[p..p + len], k);
      } else if block.blockid > leaf.blockid {
        InsertBehind(leaf, block, k);
        Fill(block, offset % BLOCK, mem[p..p + len], k + 1);
      } else {
        block.next := leaf;
        leaf := block;
        block.data := Put(block.data, offset % BLOCK, mem[p..p + len]);
      }
      r := len;
    }

    /** The list has just been given a new first block, one handed back by Store. */
    ghost method AdoptFront(leaf: Block, m': Blocks)
      requires Listed(leaf.next, blocks, ids, m) && Sorted(ids, m) && list == leaf && leaf !in blocks
      requires (blocks != [] ==> |ids| > 0 && leaf.blockid < ids[0])
      requires Whole(m') && leaf.blockid !in m && m' == m[leaf.blockid := leaf.data]
      modifies `blocks, `ids, `m
      ensures Valid() && m == m' && blocks == [leaf] + old(blocks)
    {
      hide Sorted, Whole;
      ghost var bs, ns, m0 := blocks, ids, m;
      FrontSorted(ids, leaf.blockid, m, leaf.data);
      blocks, ids, m := [leaf] + bs, [leaf.blockid] + ns, m';
      forall i | 0 <= i < |blocks|
        ensures NodeAt(blocks, ids, m, i)
      {
        if i > 0 {
          assert old(NodeAt(bs, ns, m0, i - 1));
        }
      }
    }

    /** One turn of the loop of filecache_push. */
    method PushChunk(offset: nat, len: nat, mem: seq<byte>, r: nat, updateroot0: bool)
      returns (localr: nat, updateroot: bool)
      requires Valid() && r <= len && r + BLOCK <= |mem| && offset + r < 0x40_0000
      requires updateroot0 || Linkable(m, (offset + r) / BLOCK)
      modifies `list, `blocks, `ids, `m, blocks
      ensures Valid() && forall j :: 0 <= j < |blocks| ==> blocks[j] in old(blocks) || fresh(blocks[j])
      ensures localr == ChunkLength(offset, len, r)
      ensures m == if localr == NOMEM && !Linkable(old(m), (offset + r) / BLOCK) then old(m)
        else Step(old(m), offset, len, mem, r)
      ensures updateroot || Linkable(m, (offset + r) / BLOCK)
    {
      hide Listed, Sorted, Put, Stops, Linkable, Stored;
      var relalen := len - r;
      var relaoffset := offset + r;
      var round := BLOCK - relaoffset % BLOCK;
      if relalen > round {
        relalen := round;
      }
      updateroot := updateroot0;
      var leaf, moved;
      ghost var k;
      leaf, moved, k := FindLeaf(relaoffset);
      LeafNode(leaf, relaoffset, k);
      LinkableIf(ids, m, relaoffset, k);
      if moved {
        updateroot := false;
      }
      StepKeeps(m, offset, len, mem, r);
      LinkableKept(m, Step(m, offset, len, mem, r), relaoffset / BLOCK);
      Root();
      ghost var front := !Blank(mem, r) && !Linkable(m, relaoffset / BLOCK);
      localr, leaf := Store(leaf, relaoffset, relalen, mem, r, k);
      if localr == NOMEM {
        return;
      }
      Root();
      if updateroot {
        list := leaf;
        if front {
          FrontBlock(m, ids, relaoffset, mem[r..r + relalen], leaf);
          AdoptFront(leaf, Stored(m, relaoffset, mem[r..r + relalen]));
        }
      }
    }

    /**
     * filecache_push: chunk by chunk, up to a chunk of length 7, which looks like a failed allocation.  The range
     * counts towards the size only when all chunks are done.
     */
    method Push(offset: nat, len: nat, mem: seq<byte>) returns (r: nat)
      requires Valid() && InRange(offset, len) && ReadEnd(offset, len) <= |mem|
      modifies this, blocks
      ensures forall j :: 0 <= j < |blocks| ==> blocks[j] in old(blocks) || fresh(blocks[j])
      ensures Valid() && m == Pushed(old(m), offset, len, mem, 0).0
      ensures Pushed(old(m), offset, len, mem, 0).1 ==>
        r == len && size == if Chunks(offset, len) > 0 && offset + len > old(size) then offset + len else old(size)
      ensures !Pushed(old(m), offset, len, mem, 0).1 ==> r == NOMEM && size == old(size)
    {
      hide FileCache.Valid, Step, Linkable, Pushed, ChunkLength, Readable, Reached;
      var updateroot := true;
      r := 0;
      WholeNow();
      ChunksFacts(offset, len);
      FirstReadable(offset, len, mem);
      if offset % BLOCK + len == 0 {
        PushedStep(m, offset, len, mem, 0);
        return 0;
      }
      var i := 0;
      while i < Chunks(offset, len)
        invariant 0 <= i <= Chunks(offset, len) && r <= len && r == Reached(offset, len, i) && size == old(size)
        invariant Readable(offset, len, mem, i)
        invariant Valid() && Whole(m) && forall j :: 0 <= j < |blocks| ==> blocks[j] in old(blocks) || fresh(blocks[j])
        invariant Pushed(m, offset, len, mem, i) == Pushed(old(m), offset, len, mem, 0)
        invariant updateroot || (i < Chunks(offset, len) ==> Linkable(m, (offset + r) / BLOCK))
      {
        PushedStep(m, offset, len, mem, i);
        ReachedNext(offset, len, i);
        ghost var id := (offset + r) / BLOCK;
        var localr;
        localr, updateroot := PushChunk(offset, len, mem, r, updateroot);
        WholeNow();
        if localr == NOMEM {
          return NOMEM;
        }
        r := r + localr;
        i := i + 1;
        Later(id, offset, r, localr);
        LinkableLater(m, id, (offset + r) / BLOCK);
      }
      PushedStep(m, offset, len, mem, i);
      if offset + len > size {
        size := offset + len;
      }
    }

    /** filecache_pull: bytes of blocks that are kept; other bytes of the caller stay. */
    method Pull(offset: nat, len: nat, data: array<byte>)
      requires Valid() && InRange(offset, len) && len <= data.Length
      modifies data
      ensures Valid() && Whole(m) && m == old(m)
      ensures forall j :: 0 <= j < data.Length ==>
        data[j] == if j < len then Seen(m, offset + j, old(data[j])) else old(data[j])
    {
      hide FileCache.Valid, Seen, ChunkLength, Whole;
      ChunksFacts(offset, len);
      WholeNow();
      if offset % BLOCK + len == 0 {
        return;
      }
      if list == null {
        NoBlocks();
        return;
      }
      var r, i := 0, 0;
      while i < Chunks(offset, len)
        invariant 0 <= i <= Chunks(offset, len) && r == Reached(offset, len, i) <= len && Valid()
        invariant forall j :: 0 <= j < r ==> data[j] == Seen(m, offset + j, old(data[j]))
        invariant forall j :: r <= j < data.Length ==> data[j] == old(data[j])
      {
        ReachedNext(offset, len, i);
        r := PullChunk(offset, len, data, r);
        i := i + 1;
      }
    }

    /** One turn of the loop of filecache_pull. */
    method PullChunk(offset: nat, len: nat, data: array<byte>, r0: nat) returns (r: nat)
      requires Valid() && Whole(m) && r0 <= len <= data.Length && list != null
      modifies data
      ensures Valid() && r == r0 + ChunkLength(offset, len, r0)
      ensures forall j :: r0 <= j < r ==> data[j] == Seen(m, offset + j, old(data[j]))
      ensures forall j :: 0 <= j < r0 || r <= j < data.Length ==> data[j] == old(data[j])
    {
      hide Seen, Listed, Sorted, Stops;
      var relalen := len - r0;
      var relaoffset := offset + r0;
      var round := BLOCK - relaoffset % BLOCK;
      if relalen > round {
        relalen := round;
      }
      var leaf, moved;
      ghost var k;
      leaf, moved, k := FindLeaf(relaoffset);
      LeafNode(leaf, relaoffset, k);
      LeafIs(ids, m, relaoffset, k);
      SeenChunk(m, relaoffset, relalen);
      if relaoffset >= leaf.blockid * BLOCK && relaoffset < leaf.blockid * BLOCK + BLOCK {
        var o := relaoffset % BLOCK;
        var d := leaf.data;
        forall j | r0 <= j < r0 + relalen {
          data[j] := d[o + (j - r0)];
        }
      }
      r := r0 + relalen;
    }

    lemma NoBlocks()
      requires Valid() && list == null
      ensures Whole(m) && forall p: nat, b: byte :: Seen(m, p, b) == b
    {
    }

    lemma WholeNow()
      requires Valid()
      ensures Whole(m)
    {
    }

    lemma Root()
      requires Valid()
      ensures list == (if blocks == [] then null else blocks[0]) && Sorted(ids, m) && |ids| == |blocks|
    {
    }

    lemma LeafNode(leaf: Block?, offset: nat, k: nat)
      requires Valid() && (leaf == null <==> blocks == []) &&
        (leaf != null ==> Stops(ids, offset, k) && leaf == blocks[k])
      ensures |ids| == |blocks| && list == (if blocks == [] then null else blocks[0]) && (leaf != null ==> k < |ids|)
      ensures leaf != null ==> leaf.blockid == ids[k] && ids[k] in m && m[ids[k]] == leaf.data && |leaf.data| == BLOCK
    {
      if leaf != null {
        assert NodeAt(blocks, ids, m, k);
      }
    }

    /** A node is in the list once. */
    lemma Once(k: nat)
      requires Valid() && k < |blocks|
      ensures forall j :: 0 <= j < |blocks| && j != k ==> blocks[j] != blocks[k]
    {
      forall j | 0 <= j < |blocks| && j != k
        ensures blocks[j] != blocks[k]
      {
        assert NodeAt(blocks, ids, m, j) && NodeAt(blocks, ids, m, k);
      }
    }
  }

  ghost function Inserted<T>(bs: seq<T>, k: nat, b: T): (r: seq<T>)
    requires k <= |bs|
    ensures |r| == |bs| + 1
    ensures forall i :: 0 <= i < |r| ==> r[i] == if i < k then bs[i] else if i == k then b else bs[i - 1]
  {
    bs[..k] + [b] + bs[k..]
  }

  lemma InsertedAt<T>(bs: seq<T>, k: nat, b: T)
    requires 0 < k <= |bs|
    ensures var r := Inserted(bs, k, b);
      |r| == |bs| + 1 && r[k] == b && r[0] == bs[0] && forall x :: x in r ==> x == b || x in bs
  {
  }

  lemma InsertedElement<T>(bs: seq<T>, k: nat, b: T, i: nat)
    requires k <= |bs| && i <= |bs|
    ensures Inserted(bs, k, b)[i] == if i < k then bs[i] else if i == k then b else bs[i - 1]
  {
  }

  lemma FrontSorted(ids: seq<nat>, id: nat, m: Blocks, data: seq<byte>)
    requires Sorted(ids, m) && (ids != [] ==> id < ids[0])
    ensures Sorted([id] + ids, m[id := data])
  {
  }

  /** Storing keeps every block there was. */
  lemma LinkableKept(m: Blocks, m': Blocks, id: nat)
    requires forall j :: j in m ==> j in m'
    ensures Linkable(m, id) ==> Linkable(m', id)
  {
  }

  lemma LinkableLater(m: Blocks, id: nat, id': nat)
    requires id <= id'
    ensures Linkable(m, id) ==> Linkable(m, id')
  {
  }

  lemma StepKeeps(m: Blocks, offset: nat, len: nat, mem: seq<byte>, r: nat)
    requires Whole(m) && r <= len && r + BLOCK <= |mem|
    ensures forall j :: j in m ==> j in Step(m, offset, len, mem, r)
  {
  }

  lemma FrontBlock(m: Blocks, ids: seq<nat>, offset: nat, chunk: seq<byte>, leaf: Block)
    requires Whole(m) && Sorted(ids, m) && offset % BLOCK + |chunk| <= BLOCK && !Linkable(m, offset / BLOCK)
    requires leaf.blockid == offset / BLOCK && leaf.data == Stored(m, offset, chunk)[offset / BLOCK]
    ensures Stored(m, offset, chunk) == m[leaf.blockid := leaf.data] && leaf.blockid !in m
    ensures ids != [] ==> leaf.blockid < ids[0]
  {
    hide Put;
    assert ids != [] ==> ids[0] in m;
  }

  lemma WholeMore(m: Blocks, id: nat)
    requires Whole(m)
    ensures Whole(m[id := Zeros()])
  {
  }

  lemma InsertedSorted(ids: seq<nat>, k: nat, id: nat, m: Blocks, data: seq<byte>)
    requires Sorted(ids, m) && k <= |ids|
    requires (k > 0 ==> ids[k - 1] < id) && (k < |ids| ==> id < ids[k])
    ensures Sorted(Inserted(ids, k, id), m[id := data])
  {
    InsertedAscends(ids, k, id);
    forall x
      ensures x in Inserted(ids, k, id) <==> x in ids || x == id
    {
      InsertedIn(ids, k, id, x);
    }
    hide Inserted;
  }

  lemma InsertedAscends(ids: seq<nat>, k: nat, id: nat)
    requires k <= |ids| && forall i, j :: 0 <= i < j < |ids| ==> ids[i] < ids[j]
    requires (k > 0 ==> ids[k - 1] < id) && (k < |ids| ==> id < ids[k])
    ensures var r := Inserted(ids, k, id); forall i, j :: 0 <= i < j < |r| ==> r[i] < r[j]
  {
  }

  lemma InsertedIn(ids: seq<nat>, k: nat, id: nat, x: nat)
    requires k <= |ids|
    ensures x in Inserted(ids, k, id) <==> x in ids || x == id
  {
    var r := Inserted(ids, k, id);
    assert r[k] == id;
    if x in ids {
      var i :| 0 <= i < |ids| && ids[i] == x;
      assert r[if i < k then i else i + 1] == x;
    }
  }

  /** The block an offset lies in is kept exactly when the search stops at it. */
  lemma LeafIs(ids: seq<nat>, m: Blocks, offset: nat, k: nat)
    requires Sorted(ids, m) && Stops(ids, offset, k)
    ensures offset / BLOCK in m <==> ids[k] == offset / BLOCK
    ensures ids[k] == offset / BLOCK <==> ids[k] * BLOCK <= offset < ids[k] * BLOCK + BLOCK
    ensures k + 1 < |ids| ==> offset / BLOCK < ids[k + 1]
    ensures k > 0 ==> ids[k] <= offset / BLOCK
  {
  }

  /** A block can be linked behind another one exactly when the search did not stop at a first block behind it. */
  lemma LinkableIf(ids: seq<nat>, m: Blocks, offset: nat, k: nat)
    requires Sorted(ids, m) && (ids != [] ==> Stops(ids, offset, k))
    ensures ids == [] ==> !Linkable(m, offset / BLOCK) && offset / BLOCK !in m
    ensures ids != [] ==> k < |ids| && (Linkable(m, offset / BLOCK) <==> ids[k] <= offset / BLOCK)
    ensures ids != [] ==> (offset / BLOCK in m <==> ids[k] == offset / BLOCK)
    ensures ids != [] && k + 1 < |ids| ==> offset / BLOCK < ids[k + 1]
    ensures ids != [] && k > 0 ==> ids[k] <= offset / BLOCK
  {
    if ids != [] {
      LeafIs(ids, m, offset, k);
      assert ids[k] in m;
      if Linkable(m, offset / BLOCK) {
        var j :| j in m && j <= offset / BLOCK;
        var i :| 0 <= i < |ids| && ids[i] == j;
      }
    }
  }

  lemma FirstReadable(offset: nat, len: nat, mem: seq<byte>)
    requires ReadEnd(offset, len) <= |mem|
    ensures Readable(offset, len, mem, 0) && Reached(offset, len, 0) == 0
  {
  }

  lemma ChunksFacts(offset: nat, len: nat)
    ensures Chunks(offset, len) == 0 <==> offset % BLOCK + len == 0
    ensures Reached(offset, len, Chunks(offset, len)) == len
  {
  }

  /** A chunk ends at the next block boundary, or at the end of the range. */
  lemma ReachedNext(offset: nat, len: nat, i: nat)
    requires i < Chunks(offset, len)
    ensures Reached(offset, len, i) <= len
    ensures Reached(offset, len, i + 1) == Reached(offset, len, i) + ChunkLength(offset, len, Reached(offset, len, i))
    ensures offset < 0x40_0000 && offset + len <= 0x40_0000 ==> offset + Reached(offset, len, i) < 0x40_0000
  {
  }

  lemma Later(id: nat, offset: nat, r: nat, n: nat)
    requires n <= r && id == (offset + r - n) / BLOCK
    ensures id <= (offset + r) / BLOCK
  {
  }

  lemma PushedStep(m: Blocks, offset: nat, len: nat, mem: seq<byte>, i: nat)
    requires Whole(m) && Readable(offset, len, mem, i)
    ensures i == Chunks(offset, len) ==> Pushed(m, offset, len, mem, i) == (m, true)
    ensures i < Chunks(offset, len) ==>
      var r := Reached(offset, len, i);
      r + BLOCK <= |mem| &&
      Pushed(m, offset, len, mem, i) ==
        if ChunkLength(offset, len, r) == NOMEM then
          (if Linkable(m, (offset + r) / BLOCK) then Step(m, offset, len, mem, r) else m, false)
        else Pushed(Step(m, offset, len, mem, r), offset, len, mem, i + 1)
    ensures i < Chunks(offset, len) && ChunkLength(offset, len, Reached(offset, len, i)) != NOMEM ==>
      Readable(offset, len, mem, i + 1)
  {
    hide Step, Linkable, ChunkLength, Readable, Reached;
    if i < Chunks(offset, len) {
      ReadableChunk(offset, len, mem, i);
    }
  }

  lemma SmallId(offset: nat)
    requires offset < 0x40_0000
    ensures offset / BLOCK % 0x1_0000 == offset / BLOCK
  {
  }

  // ----- What a later pull shows -----

  /** Storing a chunk shows the chunk, zeros in the rest of a new block, and everything else as before. */
  lemma StoredSeen(m: Blocks, offset: nat, chunk: seq<byte>, p: nat, b: byte)
    requires Whole(m) && offset % BLOCK + |chunk| <= BLOCK
    ensures Seen(Stored(m, offset, chunk), p, b) ==
      if offset <= p < offset + |chunk| then chunk[p - offset]
      else if p / BLOCK == offset / BLOCK && p / BLOCK !in m then 0
      else Seen(m, p, b)
  {
    var id := offset / BLOCK;
    if offset <= p < offset + |chunk| {
      Split(p, BLOCK, id, offset % BLOCK + (p - offset));
    }
    if p / BLOCK == id {
      BlockPlace(p, offset);
    }
  }

  lemma BlockPlace(p: nat, offset: nat)
    requires p / BLOCK == offset / BLOCK
    ensures p - offset == p % BLOCK - offset % BLOCK
  {
  }

  /** Where in a range the chunk that p lies in begins. */
  function ChunkStart(offset: nat, p: nat): (r: nat) {
    if p / BLOCK * BLOCK <= offset then 0 else p / BLOCK * BLOCK - offset
  }

  /** Was the chunk that p lies in taken for blank? */
  ghost predicate Skipped(offset: nat, mem: seq<byte>, p: nat) {
    ChunkStart(offset, p) + BLOCK <= |mem| && Blank(mem, ChunkStart(offset, p))
  }

  /** Which chunk of a range p lies in. */
  function ChunkIndex(offset: nat, p: nat): (k: nat)
    requires offset <= p
  {
    p / BLOCK - offset / BLOCK
  }

  lemma ChunkOf(offset: nat, len: nat, i: nat, p: nat)
    requires i < Chunks(offset, len)
    ensures var r := Reached(offset, len, i);
      && (offset + r) / BLOCK == offset / BLOCK + i
      && (offset + r <= p < offset + r + ChunkLength(offset, len, r) <==>
          offset <= p < offset + len && p / BLOCK == offset / BLOCK + i)
      && (offset <= p && p / BLOCK == offset / BLOCK + i ==> r == ChunkStart(offset, p))
  {
  }

  lemma ChunkFits(offset: nat, len: nat, r: nat)
    requires r <= len
    ensures (offset + r) % BLOCK + ChunkLength(offset, len, r) <= BLOCK
  {
  }

  /** Chunk k of a push is not taken for blank. */
  ghost predicate Filled(offset: nat, len: nat, mem: seq<byte>, k: nat) {
    Reached(offset, len, k) + BLOCK <= |mem| && !Blank(mem, Reached(offset, len, k))
  }

  /**
   * A push that has come to chunk i stores chunk k: this is not blank, no chunk of length 7 comes before it, and if it
   * is one itself, its block can be linked: behind a block there was before, or behind one the push has made.
   */
  ghost predicate Stores(offset: nat, len: nat, mem: seq<byte>, i: nat, k: nat, linkable: bool) {
    && i <= k < Chunks(offset, len) && Filled(offset, len, mem, k)
    && (forall j :: i <= j < k ==> !Clash(offset, len, j))
    && (Clash(offset, len, k) ==> linkable || exists j :: i <= j < k && Filled(offset, len, mem, j))
  }

  ghost predicate StoresInto(m: Blocks, offset: nat, len: nat, mem: seq<byte>, i: nat, k: nat) {
    Stores(offset, len, mem, i, k, Linkable(m, offset / BLOCK + k))
  }

  /** A push stores the chunk that p lies in. */
  ghost predicate StoresByte(m: Blocks, offset: nat, len: nat, mem: seq<byte>, p: nat) {
    offset <= p < offset + len && StoresInto(m, offset, len, mem, 0, ChunkIndex(offset, p))
  }

  lemma StoresNone(m: Blocks, offset: nat, len: nat, mem: seq<byte>, i: nat, k: nat)
    ensures i >= Chunks(offset, len) ==> !StoresInto(m, offset, len, mem, i, k)
  {
  }

  lemma StoresLast(m: Blocks, offset: nat, len: nat, mem: seq<byte>, i: nat, k: nat)
    requires i < Chunks(offset, len) && Clash(offset, len, i)
    ensures StoresInto(m, offset, len, mem, i, k) <==>
      k == i && Filled(offset, len, mem, i) && Linkable(m, offset / BLOCK + i)
  {
    hide Filled, Clash, Linkable;
  }

  lemma StoresNext(m: Blocks, m': Blocks, offset: nat, len: nat, mem: seq<byte>, i: nat, k: nat)
    requires i < Chunks(offset, len) && !Clash(offset, len, i)
    requires forall id :: id in m' <==> id in m || (Filled(offset, len, mem, i) && id == offset / BLOCK + i)
    ensures StoresInto(m, offset, len, mem, i, k) <==>
      (k == i && Filled(offset, len, mem, i)) || StoresInto(m', offset, len, mem, i + 1, k)
  {
    hide Filled, Clash, Chunks;
    if k > i {
      LinkableStep(m, m', offset / BLOCK + i, offset / BLOCK + k, Filled(offset, len, mem, i));
    }
    hide Linkable;
  }

  lemma LinkableStep(m: Blocks, m': Blocks, id: nat, id': nat, more: bool)
    requires id <= id' && forall j :: j in m' <==> j in m || (more && j == id)
    ensures Linkable(m', id') <==> Linkable(m, id') || more
  {
    if more {
      assert id in m';
    }
  }

  /** What one chunk does to the block it lies in. */
  lemma StepSeen(m: Blocks, offset: nat, len: nat, mem: seq<byte>, i: nat, p: nat, b: byte)
    requires Whole(m) && i < Chunks(offset, len) && Reached(offset, len, i) + BLOCK <= |mem|
    ensures var m' := Step(m, offset, len, mem, Reached(offset, len, i));
      if Filled(offset, len, mem, i) && offset <= p < offset + len && p / BLOCK == offset / BLOCK + i
      then p - offset < |mem| && Seen(m', p, b) == mem[p - offset]
      else Seen(m', p, b) == Before(m, m', p, b)
  {
    hide Stored, Blank, ChunkLength, Reached, Chunks;
    var r := Reached(offset, len, i);
    var n := ChunkLength(offset, len, r);
    ChunkFits(offset, len, r);
    ChunkOf(offset, len, i, p);
    StoredSeen(m, offset + r, mem[r..r + n], p, b);
    StoredBlock(m, offset + r, mem[r..r + n], p / BLOCK);
  }

  /** What a place shows that nothing was stored at: what it did before, or zeros of a block that is new. */
  ghost function Before(m: Blocks, m': Blocks, p: nat, b: byte): (x: byte)
    requires Whole(m)
  {
    if p / BLOCK !in m && p / BLOCK in m' then 0 else Seen(m, p, b)
  }

  lemma StoredBlock(m: Blocks, offset: nat, chunk: seq<byte>, id: nat)
    requires Whole(m) && offset % BLOCK + |chunk| <= BLOCK
    ensures id in Stored(m, offset, chunk) <==> id in m || id == offset / BLOCK
  {
  }

  lemma StepBlocks(m: Blocks, offset: nat, len: nat, mem: seq<byte>, i: nat)
    requires Whole(m) && i < Chunks(offset, len) && Reached(offset, len, i) + BLOCK <= |mem|
    ensures forall id :: id in Step(m, offset, len, mem, Reached(offset, len, i)) <==>
      id in m || (Filled(offset, len, mem, i) && id == offset / BLOCK + i)
  {
    hide Blank, Reached, ChunkLength, Chunks;
    ChunkOf(offset, len, i, offset);
  }

  lemma BeforeTwice(m: Blocks, m1: Blocks, m2: Blocks, p: nat, b: byte)
    requires Whole(m) && Whole(m1) && (p / BLOCK in m ==> p / BLOCK in m1) && (p / BLOCK in m1 ==> p / BLOCK in m2)
    ensures Seen(m1, p, b) == Before(m, m1, p, b) ==> Before(m1, m2, p, b) == Before(m, m2, p, b)
    ensures p / BLOCK in m1 ==> Before(m1, m2, p, b) == Seen(m1, p, b)
    ensures Before(m1, m1, p, b) == Seen(m1, p, b)
  {
  }

  /** A push, completed or broken off, adds the blocks of the chunks it stores and no others. */
  lemma {:induction false} PushedBlocks(m: Blocks, offset: nat, len: nat, mem: seq<byte>, i: nat, id: nat)
    requires Whole(m) && Readable(offset, len, mem, i)
    ensures id in Pushed(m, offset, len, mem, i).0 <==>
      id in m || (id >= offset / BLOCK && StoresInto(m, offset, len, mem, i, id - offset / BLOCK))
    decreases Chunks(offset, len) - i
  {
    hide Step, Pushed, Linkable, ChunkLength, Chunks, Reached, Readable, StoresInto, Filled;
    PushedStep(m, offset, len, mem, i);
    ReadableCount(offset, len, mem, i);
    var k := if id >= offset / BLOCK then id - offset / BLOCK else i;
    StoresNone(m, offset, len, mem, i, k);
    if i < Chunks(offset, len) {
      var m' := Step(m, offset, len, mem, Reached(offset, len, i));
      StepBlocks(m, offset, len, mem, i);
      ChunkOf(offset, len, i, offset);
      if Clash(offset, len, i) {
        StoresLast(m, offset, len, mem, i, k);
      } else {
        StoresNext(m, m', offset, len, mem, i, k);
        PushedBlocks(m', offset, len, mem, i + 1, id);
      }
    }
  }

  /**
   * After a push, completed or broken off, a byte of a chunk that was stored is what was pushed.  Any other byte is
   * what it was before, or a zero of a block that is new.
   */
  lemma {:induction false} PushedSeen(m: Blocks, offset: nat, len: nat, mem: seq<byte>, i: nat, p: nat, b: byte)
    requires Whole(m) && Readable(offset, len, mem, i)
    ensures var m' := Pushed(m, offset, len, mem, i).0;
      if offset <= p < offset + len && StoresInto(m, offset, len, mem, i, ChunkIndex(offset, p))
      then p - offset < |mem| && Seen(m', p, b) == mem[p - offset]
      else Seen(m', p, b) == Before(m, m', p, b)
    decreases Chunks(offset, len) - i
  {
    hide Seen, Step, Pushed, Linkable, ChunkLength, Chunks, Reached, Readable, StoresInto, Filled, Before;
    PushedStep(m, offset, len, mem, i);
    ReadableCount(offset, len, mem, i);
    var k := if offset <= p then ChunkIndex(offset, p) else i;
    StoresNone(m, offset, len, mem, i, k);
    BeforeTwice(m, m, m, p, b);
    if i < Chunks(offset, len) {
      var m' := Step(m, offset, len, mem, Reached(offset, len, i));
      StepSeen(m, offset, len, mem, i, p, b);
      StepBlocks(m, offset, len, mem, i);
      ChunkOf(offset, len, i, offset);
      if Clash(offset, len, i) {
        StoresLast(m, offset, len, mem, i, k);
      } else {
        StoresNext(m, m', offset, len, mem, i, k);
        PushedSeen(m', offset, len, mem, i + 1, p, b);
        PushedBlocks(m', offset, len, mem, i + 1, p / BLOCK);
        BeforeTwice(m, m', Pushed(m', offset, len, mem, i + 1).0, p, b);
      }
    }
  }

  lemma ReadableCount(offset: nat, len: nat, mem: seq<byte>, i: nat)
    requires Readable(offset, len, mem, i)
    ensures i <= Chunks(offset, len)
  {
  }

  /** A byte of the range that was not stored is what it was before: no other chunk lies in its block. */
  lemma PushedOr(m: Blocks, offset: nat, len: nat, mem: seq<byte>, p: nat, b: byte)
    requires Whole(m) && Readable(offset, len, mem, 0) && offset <= p < offset + len
    ensures var m' := Pushed(m, offset, len, mem, 0).0;
      if StoresByte(m, offset, len, mem, p) then p - offset < |mem| && Seen(m', p, b) == mem[p - offset]
      else Seen(m', p, b) == Seen(m, p, b)
  {
    hide Seen, Pushed, Readable, StoresInto;
    PushedSeen(m, offset, len, mem, 0, p, b);
    PushedBlocks(m, offset, len, mem, 0, p / BLOCK);
  }

  /** Any push, completed or broken off, is read back exactly where what was not stored was there before. */
  lemma AnyPushThenPull(m: Blocks, offset: nat, len: nat, mem: seq<byte>, c: seq<byte>)
    requires Whole(m) && ReadEnd(offset, len) <= |mem| && |c| == len <= |mem|
    ensures Readable(offset, len, mem, 0)
    ensures (forall j :: 0 <= j < len ==> Seen(Pushed(m, offset, len, mem, 0).0, offset + j, c[j]) == mem[j]) <==>
            (forall j :: 0 <= j < len && !StoresByte(m, offset, len, mem, offset + j) ==>
              Seen(m, offset + j, c[j]) == mem[j])
  {
    hide Seen, Pushed, Readable, StoresByte;
    FirstReadable(offset, len, mem);
    forall j | 0 <= j < len
      ensures Seen(Pushed(m, offset, len, mem, 0).0, offset + j, c[j]) == mem[j] <==>
        (!StoresByte(m, offset, len, mem, offset + j) ==> Seen(m, offset + j, c[j]) == mem[j])
    {
      PushedOr(m, offset, len, mem, offset + j, c[j]);
    }
  }

  /** A push that is completed stores all chunks but those taken for blank. */
  lemma {:induction false} CompletedStores(m: Blocks, offset: nat, len: nat, mem: seq<byte>, i: nat, k: nat)
    requires Whole(m) && Readable(offset, len, mem, i) && Pushed(m, offset, len, mem, i).1 &&
      i <= k < Chunks(offset, len)
    ensures StoresInto(m, offset, len, mem, i, k) <==> Filled(offset, len, mem, k)
    ensures Reached(offset, len, k) + BLOCK <= |mem|
    decreases Chunks(offset, len) - i
  {
    hide Step, Pushed, Linkable, ChunkLength, Chunks, Reached, Readable, StoresInto, Filled;
    PushedStep(m, offset, len, mem, i);
    var m' := Step(m, offset, len, mem, Reached(offset, len, i));
    StepBlocks(m, offset, len, mem, i);
    StoresNext(m, m', offset, len, mem, i, k);
    if k > i {
      CompletedStores(m', offset, len, mem, i + 1, k);
    } else {
      StoresSelf(m', offset, len, mem, i);
    }
  }

  lemma StoresSelf(m: Blocks, offset: nat, len: nat, mem: seq<byte>, i: nat)
    ensures !StoresInto(m, offset, len, mem, i + 1, i)
  {
  }

  /**
   * A push followed by a pull of the same range gives back what was pushed exactly when the caller sees nothing but
   * zeros where a chunk was taken for blank: in the blocks that were kept, and in its own buffer where there is none.
   */
  lemma PushThenPull(m: Blocks, offset: nat, len: nat, mem: seq<byte>, c: seq<byte>)
    requires Whole(m) && ReadEnd(offset, len) <= |mem| && |c| == len
    requires Pushed(m, offset, len, mem, 0).1
    ensures len <= |mem|
    ensures (forall j :: 0 <= j < len ==> Seen(Pushed(m, offset, len, mem, 0).0, offset + j, c[j]) == mem[j]) <==>
            (forall j :: 0 <= j < len && Skipped(offset, mem, offset + j) ==> Seen(m, offset + j, c[j]) == 0)
  {
    hide Seen, Skipped, Pushed, Readable, StoresInto, ChunkIndex;
    FirstReadable(offset, len, mem);
    if len > 0 {
      CompletedByte(m, offset, len, mem, offset + (len - 1), 0);
    }
    forall j | 0 <= j < len
      ensures Seen(Pushed(m, offset, len, mem, 0).0, offset + j, c[j]) == mem[j] <==>
        (Skipped(offset, mem, offset + j) ==> Seen(m, offset + j, c[j]) == 0)
    {
      CompletedByte(m, offset, len, mem, offset + j, c[j]);
      SkippedZero(offset, mem, offset + j);
    }
  }

  lemma CompletedByte(m: Blocks, offset: nat, len: nat, mem: seq<byte>, p: nat, b: byte)
    requires Whole(m) && Readable(offset, len, mem, 0) && Pushed(m, offset, len, mem, 0).1 && offset <= p < offset + len
    ensures p - offset < |mem|
    ensures Seen(Pushed(m, offset, len, mem, 0).0, p, b) == if Skipped(offset, mem, p) then Seen(m, p, b)
      else mem[p - offset]
  {
    hide Seen, Pushed, Readable, StoresInto, Blank, Reached;
    var k := ChunkIndex(offset, p);
    IndexInside(offset, len, p);
    PushedOr(m, offset, len, mem, p, b);
    CompletedStores(m, offset, len, mem, 0, k);
    ChunkOf(offset, len, k, p);
    hide Chunks;
    ChunkFits(offset, len, Reached(offset, len, k));
  }

  lemma IndexInside(offset: nat, len: nat, p: nat)
    requires offset <= p < offset + len
    ensures ChunkIndex(offset, p) < Chunks(offset, len)
  {
  }

  /** A byte of a chunk taken for blank is zero. */
  lemma SkippedZero(offset: nat, mem: seq<byte>, p: nat)
    requires offset <= p < offset + |mem|
    ensures Skipped(offset, mem, p) ==> mem[p - offset] == 0
  {
    var q := ChunkStart(offset, p);
    if Skipped(offset, mem, p) {
      assert mem[p - offset] == mem[q..q + BLOCK][p - offset - q] == Zeros()[p - offset - q];
    }
  }

  /** Zeros pushed over a kept block of ones are not stored. */
  lemma ZerosLost()
    ensures var ones := seq(BLOCK, i => 1 as byte);
      && Whole(map[0 := ones]) && Readable(0, BLOCK, Zeros(), 0)
      && Pushed(map[0 := ones], 0, BLOCK, Zeros(), 0) == (map[0 := ones], true)
      && Seen(map[0 := ones], 0, 0) != Zeros()[0]
  {
    var ones := seq(BLOCK, i => 1 as byte);
    BlankPush(map[0 := ones]);
  }

  /** Zeros pushed into an empty cache leave no block, and a pull leaves the ones in the caller's buffer. */
  lemma ZerosNeverSeen()
    ensures Whole(map[]) && Readable(0, BLOCK, Zeros(), 0)
    ensures Pushed(map[], 0, BLOCK, Zeros(), 0) == (map[], true) && Seen(map[], 5, 1) == 1 != Zeros()[5]
  {
    BlankPush(map[]);
  }

  lemma BlankPush(m: Blocks)
    requires Whole(m)
    ensures Readable(0, BLOCK, Zeros(), 0) && Pushed(m, 0, BLOCK, Zeros(), 0) == (m, true)
  {
    assert Zeros()[0..BLOCK] == Zeros();
    PushedStep(m, 0, BLOCK, Zeros(), 0);
    PushedStep(m, 0, BLOCK, Zeros(), 1);
  }

  // ----- The chunk length that is taken for a failure -----

  /** No chunk of the range has length 7. */
  ghost predicate ClashFree(offset: nat, len: nat) {
    if offset % BLOCK + len <= BLOCK then len != NOMEM
    else offset % BLOCK != BLOCK - NOMEM && (offset + len) % BLOCK != NOMEM
  }

  lemma ClashAt(offset: nat, len: nat, i: nat)
    requires i < Chunks(offset, len) && Reached(offset, len, i) <= len
    ensures ClashFree(offset, len) ==> !Clash(offset, len, i)
  {
  }

  lemma ClashWhere(offset: nat, len: nat) returns (i: nat)
    requires !ClashFree(offset, len)
    ensures i < Chunks(offset, len) && Reached(offset, len, i) <= len && Clash(offset, len, i)
  {
    if offset % BLOCK + len <= BLOCK || offset % BLOCK == BLOCK - NOMEM {
      i := 0;
    } else {
      i := LastClash(offset, len);
    }
  }

  lemma LastClash(offset: nat, len: nat) returns (i: nat)
    requires offset % BLOCK + len > BLOCK && (offset + len) % BLOCK == NOMEM
    ensures i < Chunks(offset, len) && Reached(offset, len, i) <= len && Clash(offset, len, i)
  {
    var a := offset % BLOCK + len;
    var q := a / BLOCK;
    assert a % BLOCK == NOMEM;
    assert a == BLOCK * q + NOMEM && Chunks(offset, len) == q + 1;
    i := q;
    var r := BLOCK * q - offset % BLOCK;
    assert Reached(offset, len, i) == r && len - r == NOMEM;
    assert (offset + r) % BLOCK == 0;
  }

  lemma {:induction false} CompletesFrom(m: Blocks, offset: nat, len: nat, mem: seq<byte>, i: nat)
    requires Whole(m) && Readable(offset, len, mem, i)
    ensures ClashFree(offset, len) ==> Pushed(m, offset, len, mem, i).1
    ensures forall k: nat :: i <= k < Chunks(offset, len) && Clash(offset, len, k) ==> !Pushed(m, offset, len, mem, i).1
    decreases Chunks(offset, len) - i
  {
    hide Step, Pushed, Linkable, ChunkLength, Chunks, Reached, ClashFree, Readable;
    PushedStep(m, offset, len, mem, i);
    ReadableCount(offset, len, mem, i);
    if i < Chunks(offset, len) {
      ClashAt(offset, len, i);
      if ChunkLength(offset, len, Reached(offset, len, i)) != NOMEM {
        CompletesFrom(Step(m, offset, len, mem, Reached(offset, len, i)), offset, len, mem, i + 1);
      }
    }
  }

  /** A push is completed exactly when no chunk of its range has length 7, whatever the data and the blocks kept. */
  lemma CompletesIff(m: Blocks, offset: nat, len: nat, mem: seq<byte>)
    requires Whole(m) && ReadEnd(offset, len) <= |mem|
    ensures Pushed(m, offset, len, mem, 0).1 <==> ClashFree(offset, len)
  {
    hide Pushed, ClashFree, Readable;
    FirstReadable(offset, len, mem);
    CompletesFrom(m, offset, len, mem, 0);
    if !ClashFree(offset, len) {
      var i := ClashWhere(offset, len);
    }
  }

  /** Seven bytes pushed over a kept block are stored, although the push reports a failure. */
  lemma SevenBytesStored(m: Blocks, mem: seq<byte>, p: nat, b: byte)
    requires Whole(m) && 0 in m && BLOCK <= |mem| && !Blank(mem, 0) && p < 7
    ensures Readable(0, 7, mem, 0) && !Pushed(m, 0, 7, mem, 0).1 && Seen(Pushed(m, 0, 7, mem, 0).0, p, b) == mem[p]
  {
    hide Pushed;
    SevenBytes(m, mem);
    PushedOr(m, 0, 7, mem, p, b);
  }

  /** Seven bytes pushed to the start of the file look like a failed allocation. */
  lemma SevenBytes(m: Blocks, mem: seq<byte>)
    requires Whole(m) && BLOCK <= |mem|
    ensures Readable(0, 7, mem, 0) && !Pushed(m, 0, 7, mem, 0).1
  {
    FirstReadable(0, 7, mem);
    PushedStep(m, 0, 7, mem, 0);
  }

  // ----- Many pushes -----

  datatype Piece = Piece(offset: nat, len: nat, mem: seq<byte>)

  /** A push that can be made. */
  ghost predicate Pushable(w: Piece) {
    InRange(w.offset, w.len) && ReadEnd(w.offset, w.len) <= |w.mem|
  }

  ghost predicate AllPushable(ws: seq<Piece>) { forall i :: 0 <= i < |ws| ==> Pushable(ws[i]) }

  /** Made after others, a push stores its chunk k. */
  ghost predicate StoresAfter(ws: seq<Piece>, w: Piece, k: nat)
    decreases |ws|, 1
  {
    Stores(w.offset, w.len, w.mem, 0, k, exists j: nat :: j <= w.offset / BLOCK + k && Kept(ws, j))
  }

  /** Some push has stored a chunk in this block. */
  ghost predicate Kept(ws: seq<Piece>, id: nat)
    decreases |ws|, 0
  {
    ws != [] &&
    var n := |ws| - 1;
    Kept(ws[..n], id) || (id >= ws[n].offset / BLOCK && StoresAfter(ws[..n], ws[n], id - ws[n].offset / BLOCK))
  }

  /** The sparse file the pushes stand for: at each place the byte of the last chunk stored there, or zero. */
  ghost function LastPushed(ws: seq<Piece>, p: nat): (x: byte) {
    if ws == [] then 0 else
      var n := |ws| - 1;
      var w := ws[n];
      if w.offset <= p < w.offset + w.len && p - w.offset < |w.mem| && StoresAfter(ws[..n], w, ChunkIndex(w.offset, p))
      then w.mem[p - w.offset]
      else LastPushed(ws[..n], p)
  }

  /** Where the furthest push that was completed ended. */
  ghost function MaxEnd(ws: seq<Piece>): (n: nat) {
    if ws == [] then 0 else
      var w, n := ws[|ws| - 1], MaxEnd(ws[..|ws| - 1]);
      if ClashFree(w.offset, w.len) && Chunks(w.offset, w.len) > 0 && w.offset + w.len > n then w.offset + w.len else n
  }

  /** The blocks are those with a chunk stored in them, and show what was stored last. */
  ghost predicate Shows(m: Blocks, ws: seq<Piece>) {
    && Whole(m) && AllPushable(ws)
    && (forall id: nat :: id in m <==> Kept(ws, id))
    && forall p: nat :: Seen(m, p, 0) == LastPushed(ws, p)
  }

  /** Which chunks a push stores depends on the blocks kept only. */
  lemma StoresShown(m: Blocks, ws: seq<Piece>, w: Piece, k: nat)
    requires forall id: nat :: id in m <==> Kept(ws, id)
    ensures StoresAfter(ws, w, k) <==> StoresInto(m, w.offset, w.len, w.mem, 0, k)
  {
    hide Kept, Stores;
  }

  lemma ShowsMore(m: Blocks, ws: seq<Piece>, w: Piece)
    requires Shows(m, ws) && Pushable(w)
    ensures Readable(w.offset, w.len, w.mem, 0)
    ensures Shows(Pushed(m, w.offset, w.len, w.mem, 0).0, ws + [w])
    ensures MaxEnd(ws + [w]) ==
      if Pushed(m, w.offset, w.len, w.mem, 0).1 && Chunks(w.offset, w.len) > 0 && w.offset + w.len > MaxEnd(ws)
      then w.offset + w.len else MaxEnd(ws)
  {
    hide Pushed, Seen, Chunks, ClashFree, Readable, StoresInto, StoresAfter, Before;
    FirstReadable(w.offset, w.len, w.mem);
    CompletesIff(m, w.offset, w.len, w.mem);
    var all := ws + [w];
    assert all[..|all| - 1] == ws;
    var m' := Pushed(m, w.offset, w.len, w.mem, 0).0;
    forall p: nat
      ensures Seen(m', p, 0) == LastPushed(all, p)
    {
      PushedSeen(m, w.offset, w.len, w.mem, 0, p, 0);
      if w.offset <= p {
        StoresShown(m, ws, w, ChunkIndex(w.offset, p));
      }
      BeforeZero(m, m', p);
    }
    forall id: nat
      ensures id in m' <==> Kept(all, id)
    {
      PushedBlocks(m, w.offset, w.len, w.mem, 0, id);
      if id >= w.offset / BLOCK {
        StoresShown(m, ws, w, id - w.offset / BLOCK);
      }
    }
  }

  lemma BeforeZero(m: Blocks, m': Blocks, p: nat)
    requires Whole(m)
    ensures Before(m, m', p, 0) == Seen(m, p, 0)
  {
  }

  /** What a caller with any byte in its buffer sees. */
  lemma ShownTo(m: Blocks, ws: seq<Piece>, p: nat, b: byte)
    requires Shows(m, ws)
    ensures Seen(m, p, b) == if Kept(ws, p / BLOCK) then LastPushed(ws, p) else b
  {
    hide Kept, LastPushed, AllPushable;
    assert Seen(m, p, 0) == LastPushed(ws, p);
  }

  /**
   * Any pushes into a new cache, completed or broken off, and then a pull into any buffer: in blocks some push has
   * stored a chunk in the caller gets the bytes stored last, and elsewhere its own bytes stay; the size is where the
   * furthest completed push ended.
   */
  method PushAllThenPull(ws: seq<Piece>, offset: nat, len: nat, data: array<byte>) returns (cache: FileCache)
    requires AllPushable(ws) && InRange(offset, len) && len <= data.Length
    modifies data
    ensures fresh(cache) && cache.Valid() && cache.size == MaxEnd(ws)
    ensures forall j :: 0 <= j < data.Length ==>
      data[j] == if j < len && Kept(ws, (offset + j) / BLOCK) then LastPushed(ws, offset + j) else old(data[j])
  {
    hide FileCache.Valid, Pushed, LastPushed, Seen, Pushable, MaxEnd, Kept, Readable, Shows;
    cache := new FileCache();
    NothingPushed();
    var i := 0;
    while i < |ws|
      invariant 0 <= i <= |ws| && fresh(cache) && fresh(cache.blocks) && cache.Valid()
      invariant forall j :: 0 <= j < data.Length ==> data[j] == old(data[j])
      invariant Shows(cache.m, ws[..i]) && cache.size == MaxEnd(ws[..i])
    {
      assert ws[..i + 1] == ws[..i] + [ws[i]];
      ShowsMore(cache.m, ws[..i], ws[i]);
      PushableMeans(ws[i]);
      var r := cache.Push(ws[i].offset, ws[i].len, ws[i].mem);
      i := i + 1;
    }
    assert ws[..i] == ws;
    cache.Pull(offset, len, data);
    forall j | 0 <= j < len
      ensures data[j] == if Kept(ws, (offset + j) / BLOCK) then LastPushed(ws, offset + j) else old(data[j])
    {
      ShownTo(cache.m, ws, offset + j, old(data[j]));
    }
  }

  lemma PushableMeans(w: Piece)
    requires Pushable(w)
    ensures InRange(w.offset, w.len) && ReadEnd(w.offset, w.len) <= |w.mem|
  {
  }

  lemma NothingPushed()
    ensures Shows(map[], []) && MaxEnd([]) == 0
  {
  }
}
