/** The kernel heap of src/kernel_alloc.c: blocks carved from the bottom of an
    arena, each behind a 16-byte header, recycled through intrusive free lists,
    one for each bucket size.  A block is named by the address of its header. */
module KernelHeap {
  /** s_BlockBucket without its closing zero entry. */
  const BUCKETS: seq<nat> := [0x40, 0x400, 0x1000, 0x4000, 0x10000, 0x40000, 0x80000]

  predicate Increasing(sizes: seq<nat>) {
    forall i, j :: 0 <= i < j < |sizes| ==> sizes[i] < sizes[j]
  }

  /** The first bucket from k on that is large enough; |sizes| if there is none. */
  function BucketFrom(sizes: seq<nat>, size: nat, k: nat): (r: nat)
    requires k <= |sizes|
    ensures k <= r <= |sizes| && (r < |sizes| ==> size <= sizes[r])
    ensures forall j :: k <= j < r ==> size > sizes[j]
    decreases |sizes| - k
  {
    if k == |sizes| || size <= sizes[k] then k else BucketFrom(sizes, size, k + 1)
  }

  /** The bucket from k on of exactly this size; |sizes| if there is none. */
  function BucketOf(sizes: seq<nat>, size: nat, k: nat): (r: nat)
    requires k <= |sizes|
    ensures k <= r <= |sizes| && (r < |sizes| ==> size == sizes[r])
    ensures forall j :: k <= j < r ==> size != sizes[j]
    decreases |sizes| - k
  {
    if k == |sizes| || size == sizes[k] then k else BucketOf(sizes, size, k + 1)
  }

  /** `(sizeof header + size + 15) & ~15` in 32 bits. */
  function Carve(size: nat): nat { (size + 31) % 0x1_0000_0000 / 16 * 16 }

  /** The rounding wraps around for requests near 2^32.  The space carved holds
      header and request, or is nothing and refused, exactly up to 2^32 - 16. */
  lemma CarveHolds(size: nat)
    requires size < 0x1_0000_0000
    ensures Carve(size) % 16 == 0 && Carve(size) < 0x1_0000_0000
    ensures Carve(size) >= 16 + size || Carve(size) == 0 <==> size <= 0xFFFF_FFF0
    ensures size > 0xFFFF_FFF0 ==> Carve(size) == 16
  {
  }

  // ---------------------------------------------------------------- state

  /** A header's size field, and how much of the arena the block took. */
  datatype Block = Block(size: nat, extent: nat)

  /** The allocator's variables and the headers in memory; `order`, `lists` and
      `live` record where the blocks are. */
  datatype Heap = Heap(
    sizes: seq<nat>,
    base: nat,
    next: nat,
    limit: nat,
    reserve: nat,
    heads: seq<nat>,
    blocks: map<nat, Block>,
    link: map<nat, nat>,
    order: seq<nat>,
    lists: seq<seq<nat>>,
    live: set<nat>)

  /** The blocks in `order` tile [base, next) without gap or overlap. */
  predicate Tiles(order: seq<nat>, blocks: map<nat, Block>, base: nat, next: nat) {
    if order == [] then next == base
    else
      var a := order[|order| - 1];
      && a in blocks && blocks[a].extent >= 16 && blocks[a].extent % 16 == 0
      && next == a + blocks[a].extent && Tiles(order[..|order| - 1], blocks, base, a)
  }

  /** Following `link` from `head` to null visits exactly `list`. */
  predicate Chain(link: map<nat, nat>, head: nat, list: seq<nat>)
    decreases |list|
  {
    if list == [] then head == 0
    else head == list[0] && head != 0 && head in link && Chain(link, link[head], list[1..])
  }

  /** Free list k: a finite chain of free blocks of its own size. */
  ghost predicate ListOk(h: Heap, k: nat)
    requires k < |h.sizes| == |h.heads| == |h.lists|
  {
    && Chain(h.link, h.heads[k], h.lists[k])
    && forall a :: a in h.lists[k] ==> a in h.blocks && h.blocks[a].size == h.sizes[k] && a !in h.live
  }

  /** A block of bucket size is live or on the list of its bucket; any other is
      oversize, and live or retired. */
  ghost predicate Accounted(h: Heap, a: nat)
    requires |h.sizes| == |h.lists| && a in h.blocks
  {
    var k := BucketOf(h.sizes, h.blocks[a].size, 0);
    if k < |h.sizes| then a in h.live || a in h.lists[k]
    else forall j :: 0 <= j < |h.sizes| ==> h.blocks[a].size > h.sizes[j]
  }

  ghost predicate Tiled(h: Heap) {
    && 0 < h.base && h.base % 16 == 0
    && Tiles(h.order, h.blocks, h.base, h.next)
    && (forall a :: a in h.blocks <==> a in h.order)
    && h.link.Keys == h.blocks.Keys && h.live <= h.blocks.Keys
  }

  ghost predicate Listed(h: Heap) {
    |h.sizes| == |h.heads| == |h.lists| && forall k :: 0 <= k < |h.sizes| ==> ListOk(h, k)
  }

  /** Every block has the extent that was carved for its size. */
  ghost predicate Carved(h: Heap) {
    forall a :: a in h.blocks ==> h.blocks[a].size < 0x1_0000_0000 && h.blocks[a].extent == Carve(h.blocks[a].size)
  }

  ghost predicate Ok(h: Heap) {
    && Increasing(h.sizes) && h.next <= h.limit < 0x1_0000_0000 && h.reserve <= h.limit
    && Tiled(h) && Listed(h) && Carved(h) && forall a :: a in h.blocks ==> Accounted(h, a)
  }

  /** kernel_alloc_init on an arena of `bytes` bytes; all but 4 MB is for blocks. */
  function Init(base: nat, bytes: nat): Heap
    requires bytes >= 0x400000
  {
    Heap(BUCKETS, base, base, base + bytes - 0x400000, 0x40000, [0, 0, 0, 0, 0, 0, 0], map[], map[],
         [], [[], [], [], [], [], [], []], {})
  }

  lemma InitOk(base: nat, bytes: nat)
    requires 0 < base && base % 16 == 0 && 0x440000 <= bytes && base + bytes <= 0x1_0000_0000
    ensures Ok(Init(base, bytes))
  {
  }

  // ---------------------------------------------------------------- operations

  predicate HeadsLinked(h: Heap) {
    && |h.sizes| == |h.heads| == |h.lists|
    && forall k :: 0 <= k < |h.heads| && h.heads[k] != 0 ==> h.heads[k] in h.link
  }

  /** A block size: a bucket's, or larger than every bucket's. */
  ghost predicate Housed(sizes: seq<nat>, size: nat) {
    BucketOf(sizes, size, 0) < |sizes| || forall j :: 0 <= j < |sizes| ==> size > sizes[j]
  }

  /** The size a request is rounded to. */
  function Rounded(sizes: seq<nat>, size: nat): (r: nat)
    ensures r >= size
  {
    var k := BucketFrom(sizes, size, 0);
    if k < |sizes| then sizes[k] else size
  }

  /** kernel_allocate: the new state and the payload address, 0 for none. */
  function Allocate(h: Heap, size: nat): (Heap, nat)
    requires HeadsLinked(h)
  {
    var k := BucketFrom(h.sizes, size, 0);
    if k < |h.sizes| && h.heads[k] != 0 then (Reuse(h, k), h.heads[k] + 16)
    else
      var rounded := Rounded(h.sizes, size);
      Grow(h, Block(rounded, Carve(rounded)), NewTop(h.next, rounded))
  }

  /** Where the arena's free part would begin after carving, in 32 bits. */
  function NewTop(next: nat, size: nat): nat { (next + Carve(size)) % 0x1_0000_0000 }

  function Grow(h: Heap, b: Block, top: nat): (Heap, nat) {
    if top <= h.next || top > h.limit - h.reserve then (h.(reserve := 0), 0)
    else (Bump(h, b, top), h.next + 16)
  }

  function Reuse(h: Heap, k: nat): Heap
    requires k < |h.heads| == |h.lists| && h.heads[k] in h.link
  {
    var a := h.heads[k];
    h.(heads := h.heads[k := h.link[a]], link := h.link[a := 0],
       lists := h.lists[k := if h.lists[k] == [] then [] else h.lists[k][1..]], live := h.live + {a})
  }

  function Bump(h: Heap, b: Block, next: nat): Heap {
    var a := h.next;
    h.(next := next, blocks := h.blocks[a := b], link := h.link[a := 0],
       order := h.order + [a], live := h.live + {a})
  }

  /** kernel_deallocate of a payload address; addresses without a header are ignored. */
  function Deallocate(h: Heap, p: nat): Heap
    requires |h.sizes| == |h.heads| == |h.lists|
  {
    if p < 16 || p - 16 !in h.blocks then h
    else
      var a: nat := p - 16;
      var k := BucketOf(h.sizes, h.blocks[a].size, 0);
      if k == |h.sizes| then h.(live := h.live - {a}) else PutBack(h, a, k)
  }

  function PutBack(h: Heap, a: nat, k: nat): Heap
    requires k < |h.heads| == |h.lists|
  {
    h.(heads := h.heads[k := a], link := h.link[a := h.heads[k]],
       lists := h.lists[k := [a] + h.lists[k]], live := h.live - {a})
  }

  // ---------------------------------------------------------------- tiling and chains

  lemma {:induction false} TilesFacts(order: seq<nat>, blocks: map<nat, Block>, base: nat, next: nat)
    requires Tiles(order, blocks, base, next) && base % 16 == 0
    ensures base <= next && next % 16 == 0
    ensures forall a :: a in order ==>
              a in blocks && base <= a && a % 16 == 0 && 16 <= blocks[a].extent && a + blocks[a].extent <= next
    decreases |order|
  {
    if order != [] {
      var a := order[|order| - 1];
      TilesFacts(order[..|order| - 1], blocks, base, a);
      assert order == order[..|order| - 1] + [a];
    }
  }

  /** Blocks carved earlier lie wholly below blocks carved later. */
  lemma {:induction false} TilesSorted(order: seq<nat>, blocks: map<nat, Block>, base: nat, next: nat, i: nat, j: nat)
    requires Tiles(order, blocks, base, next) && base % 16 == 0 && i < j < |order|
    ensures order[i] in blocks && order[i] + blocks[order[i]].extent <= order[j]
    decreases |order|
  {
    var a := order[|order| - 1];
    if j == |order| - 1 {
      TilesFacts(order[..|order| - 1], blocks, base, a);
      assert order[i] in order[..|order| - 1];
    } else {
      TilesSorted(order[..|order| - 1], blocks, base, a, i, j);
    }
  }

  lemma {:induction false} TilesFrame(order: seq<nat>, blocks: map<nat, Block>, blocks': map<nat, Block>, base: nat, next: nat)
    requires Tiles(order, blocks, base, next)
    requires forall a :: a in order ==> a in blocks' && a in blocks && blocks'[a] == blocks[a]
    ensures Tiles(order, blocks', base, next)
    decreases |order|
  {
    if order != [] {
      assert order[|order| - 1] in order;
      forall a | a in order[..|order| - 1] ensures a in order {}
      TilesFrame(order[..|order| - 1], blocks, blocks', base, order[|order| - 1]);
    }
  }

  lemma {:induction false} ChainFrame(link: map<nat, nat>, link': map<nat, nat>, head: nat, list: seq<nat>)
    requires Chain(link, head, list)
    requires forall a :: a in list ==> a in link' && (a in link ==> link'[a] == link[a])
    ensures Chain(link', head, list)
    decreases |list|
  {
    if list != [] {
      assert list[0] in list;
      forall a | a in list[1..] ensures a in list {}
      ChainFrame(link, link', link[head], list[1..]);
    }
  }

  /** A finite chain never visits a block twice. */
  lemma {:induction false} ChainSuffix(link: map<nat, nat>, head: nat, list: seq<nat>, i: nat)
    requires Chain(link, head, list) && i < |list|
    ensures Chain(link, list[i], list[i..])
    decreases |list|
  {
    if i == 0 {
      assert list[0..] == list;
    } else {
      ChainSuffix(link, link[head], list[1..], i - 1);
      assert list[1..][i - 1..] == list[i..];
    }
  }

  lemma {:induction false} ChainUnique(link: map<nat, nat>, head: nat, list: seq<nat>, list': seq<nat>)
    requires Chain(link, head, list) && Chain(link, head, list')
    ensures list == list'
    decreases |list|
  {
    if list != [] {
      ChainUnique(link, link[head], list[1..], list'[1..]);
      assert list == [head] + list[1..] && list' == [head] + list'[1..];
    }
  }

  lemma ChainDistinct(link: map<nat, nat>, head: nat, list: seq<nat>, i: nat, j: nat)
    requires Chain(link, head, list) && i < j < |list|
    ensures list[i] != list[j]
  {
    ChainSuffix(link, head, list, i);
    ChainSuffix(link, head, list, j);
    if list[i] == list[j] {
      ChainUnique(link, list[i], list[i..], list[j..]);
      assert false;
    }
  }

  lemma HeadNotAgain(link: map<nat, nat>, head: nat, list: seq<nat>)
    requires Chain(link, head, list) && list != []
    ensures head !in list[1..]
  {
    if head in list[1..] {
      var j :| 0 <= j < |list[1..]| && list[1..][j] == head;
      ChainDistinct(link, head, list, 0, j + 1);
    }
  }

  // ---------------------------------------------------------------- every step keeps the heap

  lemma HeadIsFirst(h: Heap, k: nat)
    requires Ok(h) && k < |h.sizes|
    ensures h.heads[k] != 0 ==> h.lists[k] != [] && h.heads[k] == h.lists[k][0] && h.heads[k] in h.link
    ensures h.heads[k] == 0 ==> h.lists[k] == []
  {
    assert ListOk(h, k);
  }

  lemma OkLinked(h: Heap)
    requires Ok(h)
    ensures HeadsLinked(h)
  {
    forall k | 0 <= k < |h.heads| && h.heads[k] != 0 ensures h.heads[k] in h.link {
      HeadIsFirst(h, k);
    }
  }

  lemma BumpTiled(h: Heap, b: Block)
    requires Tiled(h) && b.extent >= 16 && b.extent % 16 == 0
    ensures Tiled(Bump(h, b, h.next + b.extent)) && h.next !in h.blocks && h.next % 16 == 0
  {
    var h' := Bump(h, b, h.next + b.extent);
    TilesFacts(h.order, h.blocks, h.base, h.next);
    assert h.next !in h.blocks;
    TilesFrame(h.order, h.blocks, h'.blocks, h.base, h.next);
    assert h'.order[..|h'.order| - 1] == h.order;
  }

  lemma BumpListed(h: Heap, b: Block)
    requires Tiled(h) && Listed(h) && h.next !in h.blocks
    ensures Listed(Bump(h, b, h.next + b.extent))
  {
    var h' := Bump(h, b, h.next + b.extent);
    forall k | 0 <= k < |h.sizes| ensures ListOk(h', k) {
      assert ListOk(h, k);
      ChainFrame(h.link, h'.link, h.heads[k], h.lists[k]);
    }
  }

  lemma BumpOk(h: Heap, b: Block, h': Heap)
    requires Ok(h) && b.extent >= 16 && b.extent % 16 == 0 && h.next + b.extent <= h.limit
    requires h' == Bump(h, b, h.next + b.extent)
    requires Housed(h.sizes, b.size) && b.size < 0x1_0000_0000 && b.extent == Carve(b.size)
    ensures Ok(h')
  {
    BumpTiled(h, b);
    BumpListed(h, b);
    BumpAccounted(h, b, h');
    BumpCarved(h, b, h');
  }

  lemma BumpCarved(h: Heap, b: Block, h': Heap)
    requires Carved(h) && b.size < 0x1_0000_0000 && b.extent == Carve(b.size) && h'.blocks == h.blocks[h.next := b]
    ensures Carved(h')
  {
  }

  lemma BumpAccounted(h: Heap, b: Block, h': Heap)
    requires |h.sizes| == |h.lists| && (forall a :: a in h.blocks ==> Accounted(h, a)) && Housed(h.sizes, b.size)
    requires h'.sizes == h.sizes && h'.lists == h.lists && h'.blocks == h.blocks[h.next := b]
    requires h'.live == h.live + {h.next}
    ensures forall a :: a in h'.blocks ==> Accounted(h', a)
  {
    forall a | a in h'.blocks ensures Accounted(h', a) {
      assert a != h.next ==> Accounted(h, a);
    }
  }

  lemma ReuseListed(h: Heap, k: nat)
    requires Ok(h) && k < |h.sizes| && h.heads[k] != 0 && h.heads[k] in h.link
    ensures Listed(Reuse(h, k))
  {
    var a, h' := h.heads[k], Reuse(h, k);
    HeadIsFirst(h, k);
    assert ListOk(h, k);
    HeadNotAgain(h.link, a, h.lists[k]);
    forall j | 0 <= j < |h.sizes| ensures ListOk(h', j) {
      assert ListOk(h, j);
      if j == k {
        forall b | b in h.lists[k][1..] ensures b in h.lists[k] {}
        ChainFrame(h.link, h'.link, h.link[a], h.lists[k][1..]);
      } else {
        assert a !in h.lists[j];
        ChainFrame(h.link, h'.link, h.heads[j], h.lists[j]);
      }
    }
  }

  lemma ReuseOk(h: Heap, k: nat, h': Heap)
    requires Ok(h) && k < |h.sizes| && h.heads[k] != 0 && h.heads[k] in h.link && h' == Reuse(h, k)
    ensures Ok(h') && h.heads[k] !in h.live && h.heads[k] in h.blocks && h.blocks[h.heads[k]].size == h.sizes[k]
  {
    var a := h.heads[k];
    ReuseListed(h, k);
    HeadIsFirst(h, k);
    assert ListOk(h, k);
    assert h.lists[k] == [a] + h.lists[k][1..];
    ReuseAccounted(h, k, h');
  }

  lemma ReuseAccounted(h: Heap, k: nat, h': Heap)
    requires k < |h.sizes| == |h.lists| && (forall a :: a in h.blocks ==> Accounted(h, a))
    requires h.lists[k] != [] && h'.sizes == h.sizes && h'.blocks == h.blocks
    requires h'.lists == h.lists[k := h.lists[k][1..]] && h'.live == h.live + {h.lists[k][0]}
    ensures forall a :: a in h'.blocks ==> Accounted(h', a)
  {
    assert h.lists[k] == [h.lists[k][0]] + h.lists[k][1..];
    forall b | b in h'.blocks ensures Accounted(h', b) {
      assert Accounted(h, b);
    }
  }

  lemma ReserveOk(h: Heap, h': Heap)
    requires Ok(h) && h' == h.(reserve := 0)
    ensures Ok(h')
  {
    forall k | 0 <= k < |h.sizes| ensures ListOk(h', k) {
      assert ListOk(h, k);
    }
    forall b | b in h'.blocks ensures Accounted(h', b) {
      assert Accounted(h, b);
    }
  }

  /** If the new top is above the old one, nothing has wrapped around. */
  lemma CarveFits(next: nat, size: nat)
    requires next < 0x1_0000_0000 && size < 0x1_0000_0000
    ensures NewTop(next, size) > next ==>
              NewTop(next, size) == next + Carve(size) && Carve(size) >= 16 && Carve(size) % 16 == 0
  {
    CarveHolds(size);
  }

  lemma RoundedHoused(sizes: seq<nat>, size: nat)
    requires Increasing(sizes)
    ensures Housed(sizes, Rounded(sizes, size))
  {
  }

  lemma GrowOk(h: Heap, b: Block, top: nat, h': Heap)
    requires Ok(h) && h' == Grow(h, b, top).0 && Housed(h.sizes, b.size)
    requires b.size < 0x1_0000_0000 && b.extent == Carve(b.size)
    requires top > h.next ==> top == h.next + b.extent && b.extent >= 16 && b.extent % 16 == 0
    ensures Ok(h')
  {
    if top <= h.next || top > h.limit - h.reserve {
      ReserveOk(h, h');
    } else {
      BumpOk(h, b, h');
    }
  }

  /** Every bucket's size can be carved without wrapping around. */
  predicate Sized(h: Heap) { forall j :: 0 <= j < |h.sizes| ==> h.sizes[j] <= 0xFFFF_FFF0 }

  /** kernel_allocate keeps the heap. */
  lemma AllocateOk(h: Heap, size: nat)
    requires Ok(h) && size < 0x1_0000_0000 && Sized(h)
    ensures HeadsLinked(h) && Ok(Allocate(h, size).0)
  {
    OkLinked(h);
    var k := BucketFrom(h.sizes, size, 0);
    if k < |h.sizes| && h.heads[k] != 0 {
      ReuseOk(h, k, Reuse(h, k));
    } else {
      var rounded := Rounded(h.sizes, size);
      RoundedHoused(h.sizes, size);
      CarveFits(h.next, rounded);
      var b, top := Block(rounded, Carve(rounded)), NewTop(h.next, rounded);
      GrowOk(h, b, top, Grow(h, b, top).0);
    }
  }

  lemma PutBackListed(h: Heap, a: nat, k: nat)
    requires Ok(h) && a in h.live && k < |h.sizes| && h.blocks[a].size == h.sizes[k]
    ensures Listed(PutBack(h, a, k))
  {
    var h' := PutBack(h, a, k);
    TilesFacts(h.order, h.blocks, h.base, h.next);
    forall j | 0 <= j < |h.sizes| ensures ListOk(h', j) {
      assert ListOk(h, j);
      ChainFrame(h.link, h'.link, h.heads[j], h.lists[j]);
    }
  }

  lemma PutBackOk(h: Heap, a: nat, k: nat, h': Heap)
    requires Ok(h) && a in h.live && k < |h.sizes| && k == BucketOf(h.sizes, h.blocks[a].size, 0)
    requires h' == PutBack(h, a, k)
    ensures Ok(h')
  {
    PutBackListed(h, a, k);
    PutBackAccounted(h, a, k, h');
  }

  lemma PutBackAccounted(h: Heap, a: nat, k: nat, h': Heap)
    requires k < |h.sizes| == |h.lists| && (forall b :: b in h.blocks ==> Accounted(h, b))
    requires a in h.blocks && k == BucketOf(h.sizes, h.blocks[a].size, 0)
    requires h'.sizes == h.sizes && h'.blocks == h.blocks
    requires h'.lists == h.lists[k := [a] + h.lists[k]] && h'.live == h.live - {a}
    ensures forall b :: b in h'.blocks ==> Accounted(h', b)
  {
    forall b | b in h'.blocks ensures Accounted(h', b) {
      assert Accounted(h, b);
    }
  }

  lemma RetireOk(h: Heap, a: nat, h': Heap)
    requires Ok(h) && a in h.blocks && BucketOf(h.sizes, h.blocks[a].size, 0) == |h.sizes|
    requires h' == h.(live := h.live - {a})
    ensures Ok(h')
  {
    forall k | 0 <= k < |h.sizes| ensures ListOk(h', k) {
      assert ListOk(h, k);
    }
    forall b | b in h'.blocks ensures Accounted(h', b) {
      assert Accounted(h, b);
    }
  }

  /** The address is a free block's on some list: of bucket size, and not live. */
  predicate FreeAlready(h: Heap, p: nat) {
    && p >= 16 && p - 16 in h.blocks && p - 16 !in h.live
    && BucketOf(h.sizes, h.blocks[p - 16].size, 0) < |h.sizes|
  }

  lemma DeallocateKeeps(h: Heap, p: nat)
    requires Ok(h) && !FreeAlready(h, p)
    ensures Ok(Deallocate(h, p))
  {
    if p >= 16 && p - 16 in h.blocks {
      var a: nat := p - 16;
      var k := BucketOf(h.sizes, h.blocks[a].size, 0);
      if k == |h.sizes| {
        RetireOk(h, a, Deallocate(h, p));
      } else {
        PutBackOk(h, a, k, Deallocate(h, p));
      }
    }
  }

  // ---------------------------------------------------------------- what callers get

  /** Any two distinct blocks of a heap are disjoint. */
  lemma BlocksDisjoint(h: Heap, a: nat, b: nat)
    requires Tiled(h) && a in h.blocks && b in h.blocks && a != b
    ensures a + h.blocks[a].extent <= b || b + h.blocks[b].extent <= a
  {
    var i :| 0 <= i < |h.order| && h.order[i] == a;
    var j :| 0 <= j < |h.order| && h.order[j] == b;
    if i < j {
      TilesSorted(h.order, h.blocks, h.base, h.next, i, j);
    } else {
      TilesSorted(h.order, h.blocks, h.base, h.next, j, i);
    }
  }

  /** The bytes asked for lie behind the header and inside the block, unless the sum
      has wrapped around; then the block is a header and nothing else. */
  predicate Roomy(b: Block, size: nat) {
    if size <= 0xFFFF_FFF0 then 16 + size <= b.extent else b.extent == 16
  }

  /** What a successful allocation promises about the returned block `a`. */
  ghost predicate Granted(h: Heap, h': Heap, a: nat, size: nat) {
    && a % 16 == 0 && a !in h.live && h'.live == h.live + {a}
    && a in h'.blocks && h'.blocks[a].size == Rounded(h.sizes, size)
    && Roomy(h'.blocks[a], size)
    && (forall b :: b in h.live ==> b in h.blocks && b in h'.blocks && h'.blocks[b] == h.blocks[b])
    && (forall b :: b in h.live ==>
          b in h'.blocks && (b + h'.blocks[b].extent <= a || a + h'.blocks[a].extent <= b))
  }

  lemma RoundedRoomy(h: Heap, b: Block, size: nat)
    requires Sized(h) && size < 0x1_0000_0000 && b.size == Rounded(h.sizes, size)
    requires b.extent == Carve(b.size) && b.extent >= 16
    ensures Roomy(b, size)
  {
    CarveHolds(b.size);
  }

  lemma ReuseGrants(h: Heap, k: nat, size: nat)
    requires Ok(h) && Sized(h) && size < 0x1_0000_0000
    requires k < |h.sizes| && h.heads[k] != 0 && h.heads[k] in h.link && k == BucketFrom(h.sizes, size, 0)
    ensures Granted(h, Reuse(h, k), h.heads[k], size)
  {
    var a, h' := h.heads[k], Reuse(h, k);
    ReuseOk(h, k, h');
    TilesFacts(h.order, h.blocks, h.base, h.next);
    RoundedRoomy(h, h'.blocks[a], size);
    forall b | b in h.live ensures b + h'.blocks[b].extent <= a || a + h'.blocks[a].extent <= b {
      BlocksDisjoint(h', a, b);
    }
  }

  lemma BumpGrants(h: Heap, b: Block, size: nat)
    requires Tiled(h) && b.extent >= 16 && b.extent % 16 == 0 && b.size == Rounded(h.sizes, size) && Roomy(b, size)
    ensures Granted(h, Bump(h, b, h.next + b.extent), h.next, size)
  {
    BumpTiled(h, b);
    TilesFacts(h.order, h.blocks, h.base, h.next);
  }

  lemma GrowGrants(h: Heap, b: Block, top: nat, size: nat)
    requires Tiled(h) && b.size == Rounded(h.sizes, size)
    requires top > h.next ==> top == h.next + b.extent && b.extent >= 16 && b.extent % 16 == 0 && Roomy(b, size)
    requires Grow(h, b, top).1 != 0
    ensures Granted(h, Grow(h, b, top).0, h.next, size)
  {
    BumpGrants(h, b, size);
    assert Grow(h, b, top).0 == Bump(h, b, h.next + b.extent);
  }

  /** What an allocation promises of its outcome. */
  ghost predicate Outcome(h: Heap, size: nat, h': Heap, r: nat) {
    if r == 0 then h' == h.(reserve := 0) else r >= 16 && Granted(h, h', r - 16, size)
  }

  lemma CarvedResult(h: Heap, size: nat)
    requires Ok(h) && size < 0x1_0000_0000 && Sized(h)
    ensures var rounded := Rounded(h.sizes, size);
            var (h', r) := Grow(h, Block(rounded, Carve(rounded)), NewTop(h.next, rounded));
            Outcome(h, size, h', r)
  {
    var rounded := Rounded(h.sizes, size);
    CarveFits(h.next, rounded);
    GrowOutcome(h, Block(rounded, Carve(rounded)), NewTop(h.next, rounded), size);
  }

  lemma GrowOutcome(h: Heap, b: Block, top: nat, size: nat)
    requires Ok(h) && Sized(h) && size < 0x1_0000_0000 && b.size == Rounded(h.sizes, size) && b.extent == Carve(b.size)
    requires top > h.next ==> top == h.next + b.extent && b.extent >= 16 && b.extent % 16 == 0
    ensures Outcome(h, size, Grow(h, b, top).0, Grow(h, b, top).1)
  {
    if top > h.next {
      RoundedRoomy(h, b, size);
      if Grow(h, b, top).1 != 0 {
        GrowGrants(h, b, top, size);
      }
    }
  }

  /** A successful allocation returns the 16-aligned payload of a block that was
      not live, is now, and shares no byte with any other live block; the other live
      blocks stay as they were.  The block, carved or recycled, has room for the
      request exactly up to 2^32 - 16 bytes.
      A failing one gives up the reserve and changes nothing else. */
  lemma AllocateResult(h: Heap, size: nat)
    requires Ok(h) && size < 0x1_0000_0000 && Sized(h)
    ensures HeadsLinked(h) && Rounded(h.sizes, size) >= size
    ensures Outcome(h, size, Allocate(h, size).0, Allocate(h, size).1)
  {
    OkLinked(h);
    var k := BucketFrom(h.sizes, size, 0);
    if k < |h.sizes| && h.heads[k] != 0 {
      ReuseGrants(h, k, size);
    } else {
      CarvedResult(h, size);
    }
  }

  /** Header and size, rounded up in 32 bits, fit between `next` and `most`. */
  predicate Fits(next: nat, size: nat, most: int) {
    var extent := (15 + 16 + size) % 0x1_0000_0000 / 16 * 16;
    0 < extent && next + extent <= most
  }

  /** When a request is met, from where, and what moves: from the first bucket that holds
      it if that has a free block, else from the arena if header and rounded size fit
      below the reserve; and a failure costs the reserve. */
  ghost predicate Served(h: Heap, size: nat, h': Heap, r: nat)
    requires |h.sizes| == |h.lists|
  {
    var k := BucketFrom(h.sizes, size, 0);
    var rounded := if k < |h.sizes| then h.sizes[k] else size;
    if k < |h.sizes| && h.lists[k] != [] then
      && r == h.lists[k][0] + 16 && h'.next == h.next && h'.reserve == h.reserve
      && h'.lists == h.lists[k := h.lists[k][1..]] && h'.blocks == h.blocks
    else if Fits(h.next, rounded, h.limit - h.reserve) then
      && r == h.next + 16 && h'.next == h.next + (15 + 16 + rounded) % 0x1_0000_0000 / 16 * 16
      && h'.reserve == h.reserve && h'.lists == h.lists
    else r == 0 && h' == h.(reserve := 0)
  }

  lemma AllocateExact(h: Heap, size: nat)
    requires Ok(h) && Sized(h) && size < 0x1_0000_0000
    ensures HeadsLinked(h) && Served(h, size, Allocate(h, size).0, Allocate(h, size).1)
  {
    OkLinked(h);
    var k := BucketFrom(h.sizes, size, 0);
    if k < |h.sizes| {
      HeadIsFirst(h, k);
    }
    AllocateServed(h, size);
  }

  lemma AllocateServed(h: Heap, size: nat)
    requires HeadsLinked(h) && h.next < 0x1_0000_0000 && h.reserve <= h.limit < 0x1_0000_0000
    requires var k := BucketFrom(h.sizes, size, 0);
             k < |h.sizes| ==> if h.heads[k] == 0 then h.lists[k] == [] else h.lists[k] != [] && h.heads[k] == h.lists[k][0]
    ensures Served(h, size, Allocate(h, size).0, Allocate(h, size).1)
  {
    AllocateCases(h, size);
    var k := BucketFrom(h.sizes, size, 0);
    if k < |h.sizes| && h.heads[k] != 0 {
      ReuseServed(h, k, size);
    } else {
      GrowExact(h, Rounded(h.sizes, size));
      GrowServed(h, size, Allocate(h, size).0, Allocate(h, size).1);
    }
  }

  lemma AllocateCases(h: Heap, size: nat)
    requires HeadsLinked(h)
    ensures var k, rounded := BucketFrom(h.sizes, size, 0), Rounded(h.sizes, size);
            && rounded == (if k < |h.sizes| then h.sizes[k] else size)
            && Allocate(h, size) ==
                 if k < |h.sizes| && h.heads[k] != 0 then (Reuse(h, k), h.heads[k] + 16)
                 else Grow(h, Block(rounded, Carve(rounded)), NewTop(h.next, rounded))
  {
  }

  lemma GrowServed(h: Heap, size: nat, h': Heap, r: nat)
    requires |h.sizes| == |h.lists|
    requires var k := BucketFrom(h.sizes, size, 0);
             var rounded := if k < |h.sizes| then h.sizes[k] else size;
             && (k < |h.sizes| ==> h.lists[k] == [])
             && if Fits(h.next, rounded, h.limit - h.reserve) then
                  && r == h.next + 16 && h'.next == h.next + (15 + 16 + rounded) % 0x1_0000_0000 / 16 * 16
                  && h'.reserve == h.reserve && h'.lists == h.lists
                else r == 0 && h' == h.(reserve := 0)
    ensures Served(h, size, h', r)
  {
  }

  lemma ReuseServed(h: Heap, k: nat, size: nat)
    requires k == BucketFrom(h.sizes, size, 0) < |h.sizes| == |h.heads| == |h.lists|
    requires h.lists[k] != [] && h.heads[k] == h.lists[k][0] && h.heads[k] in h.link
    ensures Served(h, size, Reuse(h, k), h.heads[k] + 16)
  {
  }

  lemma GrowExact(h: Heap, size: nat)
    requires h.next < 0x1_0000_0000 && h.limit < 0x1_0000_0000 && h.reserve <= h.limit
    ensures var (h', r) := Grow(h, Block(size, Carve(size)), NewTop(h.next, size));
            if Fits(h.next, size, h.limit - h.reserve) then
              && r == h.next + 16 && h'.next == h.next + (15 + 16 + size) % 0x1_0000_0000 / 16 * 16
              && h'.reserve == h.reserve && h'.lists == h.lists
            else r == 0 && h' == h.(reserve := 0)
  {
    TopExact(h.next, size, h.limit - h.reserve);
  }

  /** The two tests of the source against plain addition. */
  lemma TopExact(next: nat, size: nat, most: int)
    requires next < 0x1_0000_0000 && most < 0x1_0000_0000
    ensures next < NewTop(next, size) <= most <==> Fits(next, size, most)
    ensures next < NewTop(next, size) ==> NewTop(next, size) == next + (15 + 16 + size) % 0x1_0000_0000 / 16 * 16
  {
  }

  /** On a fresh heap a request is met exactly when its block fits the arena below the
      reserves of 4 MB and 256 KB. */
  lemma FreshRequest(base: nat, bytes: nat, size: nat)
    requires 0 < base && base % 16 == 0 && 0x440000 <= bytes && base + bytes <= 0x1_0000_0000 && size < 0x1_0000_0000
    ensures HeadsLinked(Init(base, bytes))
    ensures Allocate(Init(base, bytes), size).1 ==
              if Fits(base, Rounded(BUCKETS, size), base + bytes - 0x440000) then base + 16 else 0
  {
    var h := Init(base, bytes);
    InitOk(base, bytes);
    assert Sized(h) && forall k :: 0 <= k < 7 ==> h.lists[k] == [];
    AllocateExact(h, size);
    FreshServed(h, size, Allocate(h, size).0, Allocate(h, size).1);
  }

  lemma FreshServed(h: Heap, size: nat, h': Heap, r: nat)
    requires |h.sizes| == |h.lists| && Served(h, size, h', r) && forall k :: 0 <= k < |h.lists| ==> h.lists[k] == []
    ensures r == if Fits(h.next, Rounded(h.sizes, size), h.limit - h.reserve) then h.next + 16 else 0
  {
  }

  /** A refused request gives up the reserve: asked again it is met exactly when it fits
      the arena without it. */
  lemma SecondTry(h: Heap, size: nat)
    requires Ok(h) && Sized(h) && size < 0x1_0000_0000 && HeadsLinked(h) && Allocate(h, size).1 == 0
    ensures var h' := h.(reserve := 0);
            && Allocate(h, size).0 == h' && HeadsLinked(h')
            && (Allocate(h', size).1 != 0 <==> Fits(h.next, Rounded(h.sizes, size), h.limit))
  {
    var h' := h.(reserve := 0);
    AllocateExact(h, size);
    ReserveOk(h, h');
    AllocateExact(h', size);
  }

  /** What a free does: a block of bucket size goes to the front of its list, any other is
      only given up; no other block, list or header changes. */
  lemma DeallocateExact(h: Heap, a: nat)
    requires Ok(h) && a in h.live && a in h.blocks
    ensures var h' := Deallocate(h, a + 16);
            && h'.live == h.live - {a} && h'.blocks == h.blocks && h'.next == h.next && h'.reserve == h.reserve
            && |h'.lists| == |h.sizes|
            && forall k :: 0 <= k < |h.sizes| ==>
                 h'.lists[k] == if h.blocks[a].size == h.sizes[k] then [a] + h.lists[k] else h.lists[k]
  {
    forall k | 0 <= k < |h.sizes| && h.blocks[a].size == h.sizes[k] ensures BucketOf(h.sizes, h.blocks[a].size, 0) == k {
      assert forall j :: 0 <= j < |h.sizes| && j != k ==> h.sizes[j] != h.sizes[k];
    }
  }

  /** A block just freed is the next one handed out for any request of its bucket. */
  lemma FreeThenAllocate(h: Heap, a: nat, size: nat)
    requires Ok(h) && a in h.live && a in h.blocks
    requires BucketFrom(h.sizes, size, 0) < |h.sizes| && h.blocks[a].size == h.sizes[BucketFrom(h.sizes, size, 0)]
    ensures var h' := Deallocate(h, a + 16);
            HeadsLinked(h') && Allocate(h', size).1 == a + 16 && Allocate(h', size).0.live == h.live
  {
    var k, h' := BucketFrom(h.sizes, size, 0), Deallocate(h, a + 16);
    FreedOnTop(h, a, k);
    AllocateCases(h', size);
    assert h'.live + {a} == h.live;
  }

  lemma FreedOnTop(h: Heap, a: nat, k: nat)
    requires Ok(h) && a in h.live && a in h.blocks && k < |h.sizes| && h.blocks[a].size == h.sizes[k]
    ensures var h' := Deallocate(h, a + 16);
            HeadsLinked(h') && h'.sizes == h.sizes && h'.heads[k] == a != 0 && h'.live == h.live - {a}
  {
    assert BucketOf(h.sizes, h.blocks[a].size, 0) == k;
    TilesFacts(h.order, h.blocks, h.base, h.next);
    DeallocateKeeps(h, a + 16);
    OkLinked(Deallocate(h, a + 16));
  }

  /** Whether a block of a heap has the room its header speaks of: exactly for sizes up
      to 2^32 - 16.  Beyond that it is a header with no payload at all. */
  lemma RoomExactly(h: Heap, a: nat)
    requires Ok(h) && a in h.blocks
    ensures var b := h.blocks[a];
            && (b.extent >= 16 + b.size <==> b.size <= 0xFFFF_FFF0)
            && (b.size > 0xFFFF_FFF0 ==> b.extent == 16)
  {
    CarveHolds(h.blocks[a].size);
    TilesFacts(h.order, h.blocks, h.base, h.next);
  }

  /** A heap on which a request for 2^32 - 1 bytes succeeds with 16 bytes carved. */
  lemma HugeRequestWitness(h: Heap)
    requires h == Init(0x100000, 0x1000000)
    ensures HeadsLinked(h) && Allocate(h, 0xFFFF_FFFF) == (Bump(h, Block(0xFFFF_FFFF, 16), 0x100010), 0x100010)
  {
    assert BucketFrom(BUCKETS, 0xFFFF_FFFF, 0) == 7;
  }

  // ---------------------------------------------------------------- runs

  datatype Op = Alloc(size: nat) | Free(p: nat)

  function Apply(h: Heap, op: Op): Heap
    requires HeadsLinked(h)
  {
    match op
    case Alloc(size) => Allocate(h, size).0
    case Free(p) => Deallocate(h, p)
  }

  /** Nothing that is on a free list is freed. */
  predicate Fair(h: Heap, op: Op) {
    match op
    case Alloc(size) => size < 0x1_0000_0000
    case Free(p) => !FreeAlready(h, p)
  }

  predicate FairRun(h: Heap, ops: seq<Op>)
    decreases |ops|
  {
    ops == [] || (HeadsLinked(h) && Fair(h, ops[0]) && FairRun(Apply(h, ops[0]), ops[1..]))
  }

  function Run(h: Heap, ops: seq<Op>): Heap
    requires FairRun(h, ops)
    decreases |ops|
  {
    if ops == [] then h else Run(Apply(h, ops[0]), ops[1..])
  }

  lemma SizesStay(h: Heap, op: Op)
    requires HeadsLinked(h)
    ensures Apply(h, op).sizes == h.sizes
  {
  }

  /** After any fair run the carved region is tiled by aligned blocks, and each is
      live, on the free list of its size, or retired. */
  lemma {:induction false} RunOk(h: Heap, ops: seq<Op>)
    requires Ok(h) && Sized(h) && FairRun(h, ops)
    ensures Ok(Run(h, ops))
    decreases |ops|
  {
    if ops != [] {
      var op := ops[0];
      SizesStay(h, op);
      if op.Alloc? {
        AllocateOk(h, op.size);
      } else {
        DeallocateKeeps(h, op.p);
      }
      RunOk(Apply(h, op), ops[1..]);
    }
  }

  /** The payload of a block, as long as its size field says, lies inside the block. */
  ghost predicate AllRoomy(h: Heap) { forall a :: a in h.blocks ==> h.blocks[a].extent >= 16 + h.blocks[a].size }

  lemma ApplyRoomy(h: Heap, op: Op)
    requires Ok(h) && Sized(h) && AllRoomy(h) && HeadsLinked(h) && Fair(h, op)
    requires op.Alloc? ==> op.size <= 0xFFFF_FFF0
    ensures AllRoomy(Apply(h, op))
  {
    if op.Alloc? {
      var rounded := Rounded(h.sizes, op.size);
      CarveHolds(rounded);
      CarveFits(h.next, rounded);
    }
  }

  /** Over every fair run of requests up to 2^32 - 16 bytes: each block, live, free or
      retired, holds its whole payload, and no two live payloads share a byte. */
  lemma {:induction false} RunRoomy(h: Heap, ops: seq<Op>)
    requires Ok(h) && Sized(h) && AllRoomy(h) && FairRun(h, ops)
    requires forall op <- ops :: op.Alloc? ==> op.size <= 0xFFFF_FFF0
    ensures AllRoomy(Run(h, ops)) && LiveApart(Run(h, ops))
    decreases |ops|
  {
    if ops == [] {
      forall a, b | a in h.live && b in h.live && a != b ensures Apart(h, a, b) {
        BlocksDisjoint(h, a, b);
      }
    } else {
      var op := ops[0];
      SizesStay(h, op);
      ApplyRoomy(h, op);
      RunOk(h, [op]);
      assert [op][1..] == [] && Run(h, [op]) == Apply(h, op);
      RunRoomy(Apply(h, op), ops[1..]);
    }
  }

  ghost predicate LiveApart(h: Heap) {
    forall a, b :: a in h.live && b in h.live && a != b ==> Apart(h, a, b)
  }

  /** The payloads of two blocks, as long as their size fields say, are disjoint. */
  ghost predicate Apart(h: Heap, a: nat, b: nat) {
    && a in h.blocks && b in h.blocks
    && (a + 16 + h.blocks[a].size <= b || b + 16 + h.blocks[b].size <= a)
  }

  /** A block is on at most one free list, once, and then it is not live. */
  lemma OnOneList(h: Heap, j: nat, k: nat, a: nat)
    requires Ok(h) && j < |h.sizes| && k < |h.sizes| && a in h.lists[j] && a in h.lists[k]
    ensures j == k && a !in h.live && a in h.blocks && h.blocks[a].size == h.sizes[k]
    ensures forall m, n :: 0 <= m < n < |h.lists[k]| ==> h.lists[k][m] != h.lists[k][n]
  {
    assert ListOk(h, j) && ListOk(h, k);
    assert h.sizes[j] == h.sizes[k];
    forall m, n | 0 <= m < n < |h.lists[k]| ensures h.lists[k][m] != h.lists[k][n] {
      ChainDistinct(h.link, h.heads[k], h.lists[k], m, n);
    }
  }

  lemma {:induction false} ReturnsNoChain(link: map<nat, nat>, a: nat, path: seq<nat>, list: seq<nat>)
    requires path != [] && path[0] == a && Leads(link, path, a)
    ensures !Chain(link, a, list)
    decreases |list|
  {
    if Chain(link, a, list) {
      Follow(link, path, a, a, list);
      ReturnsNoChain(link, a, path, list[|path|..]);
    }
  }

  /** Following `link` along `path` ends at `end`. */
  predicate Leads(link: map<nat, nat>, path: seq<nat>, end: nat)
    decreases |path|
  {
    path != [] ==>
      && path[0] != 0 && path[0] in link
      && link[path[0]] == (if |path| == 1 then end else path[1]) && Leads(link, path[1..], end)
  }

  lemma {:induction false} Follow(link: map<nat, nat>, path: seq<nat>, head: nat, end: nat, list: seq<nat>)
    requires Leads(link, path, end) && head == (if path == [] then end else path[0]) && Chain(link, head, list)
    ensures |path| <= |list| && Chain(link, end, list[|path|..])
    decreases |path|
  {
    if path == [] {
      assert list[0..] == list;
    } else {
      Follow(link, path[1..], link[head], end, list[1..]);
      assert list[1..][|path| - 1..] == list[|path|..];
    }
  }

  lemma {:induction false} PrefixLeads(link: map<nat, nat>, link': map<nat, nat>, head: nat, list: seq<nat>, i: nat)
    requires Chain(link, head, list) && i < |list|
    requires forall m :: 0 <= m < i ==> list[m] in link && list[m] in link' && link'[list[m]] == link[list[m]]
    ensures Leads(link', list[..i], list[i])
    decreases i
  {
    if i > 0 {
      forall m | 0 <= m < i - 1
        ensures list[1..][m] in link && list[1..][m] in link' && link'[list[1..][m]] == link[list[1..][m]]
      {
        assert list[1..][m] == list[m + 1];
      }
      PrefixLeads(link, link', link[head], list[1..], i - 1);
      assert list[..i][1..] == list[1..][..i - 1];
    }
  }

  lemma BackLinkLoops(link: map<nat, nat>, head: nat, free: seq<nat>, i: nat, list: seq<nat>)
    requires Chain(link, head, free) && i < |free|
    ensures !Chain(link[free[i] := head], free[i], list)
  {
    var a, link' := free[i], link[free[i] := head];
    ChainSuffix(link, head, free, i);
    assert a != 0 && head == free[0];
    forall m | 0 <= m < i ensures free[m] in link && free[m] in link' && link'[free[m]] == link[free[m]] {
      ChainDistinct(link, head, free, m, i);
      ChainSuffix(link, head, free, m);
    }
    PrefixLeads(link, link', head, free, i);
    var path := [a] + free[..i];
    assert path[1..] == free[..i];
    ReturnsNoChain(link', a, path, list);
  }

  /** Freeing a block that is already free closes its list into a loop: no finite
      chain, whatever its blocks, starts at the bucket any more. */
  lemma DoubleFreeLoops(h: Heap, k: nat, i: nat, list: seq<nat>)
    requires Ok(h) && k < |h.sizes| && i < |h.lists[k]|
    ensures var h' := Deallocate(h, h.lists[k][i] + 16);
            h'.heads[k] == h.lists[k][i] && !Chain(h'.link, h'.heads[k], list)
  {
    var a := h.lists[k][i];
    assert ListOk(h, k) && a in h.lists[k];
    assert BucketOf(h.sizes, h.sizes[k], 0) == k;
    assert Deallocate(h, a + 16) == PutBack(h, a, k);
    BackLinkLoops(h.link, h.heads[k], h.lists[k], i, list);
  }

  /** kernel_deallocate keeps the heap exactly when the block is not on a free list
      already: null, addresses of no block, live blocks and retired ones are fine. */
  lemma DeallocateOk(h: Heap, p: nat)
    requires Ok(h)
    ensures Ok(Deallocate(h, p)) <==> !FreeAlready(h, p)
  {
    if !FreeAlready(h, p) {
      DeallocateKeeps(h, p);
    } else {
      var a: nat := p - 16;
      var k := BucketOf(h.sizes, h.blocks[a].size, 0);
      assert Accounted(h, a);
      var i :| 0 <= i < |h.lists[k]| && h.lists[k][i] == a;
      var h' := Deallocate(h, p);
      DoubleFreeLoops(h, k, i, h'.lists[k]);
      assert !ListOk(h', k);
    }
  }

  // ---------------------------------------------------------------- the allocator

  class Allocator {
    var next: nat
    var limit: nat
    var reserve: nat
    var heads: seq<nat>
    var blocks: map<nat, Block>   // headers in memory: size fields
    var link: map<nat, nat>       // headers in memory: next fields
    ghost var base: nat
    ghost var order: seq<nat>
    ghost var lists: seq<seq<nat>>
    ghost var live: set<nat>

    ghost function Value(): Heap
      reads this
    {
      Heap(BUCKETS, base, next, limit, reserve, heads, blocks, link, order, lists, live)
    }

    constructor (start: nat, bytes: nat)
      requires 0 < start && start % 16 == 0 && 0x440000 <= bytes && start + bytes <= 0x1_0000_0000
      ensures Value() == Init(start, bytes) && Ok(Value())
    {
      InitOk(start, bytes);
      next, limit, reserve := start, start + bytes - 0x400000, 0x40000;
      heads, blocks, link := [0, 0, 0, 0, 0, 0, 0], map[], map[];
      base, order, lists, live := start, [], [[], [], [], [], [], [], []], {};
    }

    static method FindBucket(request: nat) returns (k: nat)
      ensures k == BucketFrom(BUCKETS, request, 0)
    {
      k := 0;
      while k < |BUCKETS| && request > BUCKETS[k]
        invariant 0 <= k <= |BUCKETS| && BucketFrom(BUCKETS, request, k) == BucketFrom(BUCKETS, request, 0)
      {
        k := k + 1;
      }
    }

    /** kernel_allocate */
    method KernelAllocate(request: nat) returns (r: nat)
      requires HeadsLinked(Value())
      modifies this
      ensures (Value(), r) == Allocate(old(Value()), request)
    {
      var k := FindBucket(request);
      if k < |BUCKETS| && heads[k] != 0 {
        r := TakeFree(k);
      } else {
        r := CarveNew(if k < |BUCKETS| then BUCKETS[k] else request);
      }
    }

    method TakeFree(k: nat) returns (r: nat)
      requires k < |heads| == |lists| && heads[k] in link
      modifies this
      ensures (Value(), r) == (Reuse(old(Value()), k), old(heads[k]) + 16)
    {
      var a := heads[k];
      heads := heads[k := link[a]];
      link := link[a := 0];
      lists := lists[k := if lists[k] == [] then [] else lists[k][1..]];
      live := live + {a};
      r := a + 16;
    }

    method CarveNew(size: nat) returns (r: nat)
      modifies this
      ensures (Value(), r) == Grow(old(Value()), Block(size, Carve(size)), NewTop(old(next), size))
    {
      var a, top := next, NewTop(next, size);
      if top <= next || top > limit - reserve {
        reserve := 0;
        return 0;
      }
      next := top;
      blocks := blocks[a := Block(size, Carve(size))];
      link := link[a := 0];
      order := order + [a];
      live := live + {a};
      r := a + 16;
    }

    /** kernel_deallocate */
    method KernelDeallocate(p: nat)
      requires |BUCKETS| == |heads| == |lists|
      modifies this
      ensures Value() == Deallocate(old(Value()), p)
    {
      if p < 16 || p - 16 !in blocks {
        return;
      }
      var a: nat := p - 16;
      var k := 0;
      while k < |BUCKETS| && blocks[a].size != BUCKETS[k]
        invariant 0 <= k <= |BUCKETS|
        invariant BucketOf(BUCKETS, blocks[a].size, k) == BucketOf(BUCKETS, blocks[a].size, 0)
      {
        k := k + 1;
      }
      live := live - {a};
      if k < |BUCKETS| {
        link := link[a := heads[k]];
        heads := heads[k := a];
        lists := lists[k := [a] + lists[k]];
      }
    }
  }
}
