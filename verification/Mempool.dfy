/** The memory pool: free lists per size class, splitting of larger buffers and
    growth by regions obtained from the operating system. */
module Mempool {
  import opened Words
  import opened PoolLayout

  datatype Buffer = Buffer(buf: int, actualSize: nat, classSize: nat)

  const NULL_BUFFER := Buffer(0, 0, 0)

  datatype Region = Region(addr: int, size: nat)

  /** What the operating system answers when asked for a region. */
  datatype RawOutcome = NoMemory | Mapped(addr: int)

  ghost predicate InList(a: int, list: seq<Buffer>) {
    exists i :: 0 <= i < |list| && list[i].buf == a
  }

  /** List `k` holds unused buffers of class `k`, no address twice. */
  ghost predicate ListOk(list: seq<Buffer>, k: nat, blocks: map<int, nat>) {
    && (forall i :: 0 <= i < |list| ==>
          && list[i] == Buffer(list[i].buf, 0, ClassSize(k))
          && list[i].buf in blocks && blocks[list[i].buf] == k)
    && (forall i, j :: 0 <= i < j < |list| ==> list[i].buf != list[j].buf)
  }

  ghost predicate ListsOk(lists: seq<seq<Buffer>>, blocks: map<int, nat>) {
    && |lists| == NR_CLASS
    && (forall k :: 0 <= k < NR_CLASS ==> ListOk(lists[k], k, blocks))
  }

  /** Every block is either handed out or on the free list of its class. */
  ghost predicate LiveOk(lists: seq<seq<Buffer>>, blocks: map<int, nat>, live: set<int>)
    requires |lists| == NR_CLASS
  {
    && live <= blocks.Keys
    && (forall a :: a in blocks ==> blocks[a] < NR_CLASS && (a in live <==> !InList(a, lists[blocks[a]])))
  }

  /** The free lists plus the live buffers tile the chunks. */
  ghost predicate PoolOk(lists: seq<seq<Buffer>>, blocks: map<int, nat>, live: set<int>, chunks: set<int>) {
    && ListsOk(lists, blocks)
    && LiveOk(lists, blocks, live)
    && Tiles(blocks, chunks)
  }

  ghost predicate RegionsOk(regions: seq<Region>, chunks: set<int>) {
    && (forall i :: 0 <= i < |regions| ==> 0 < regions[i].addr && regions[i].addr + regions[i].size <= USER_SPACE)
    && (forall c :: c in chunks ==>
          exists i :: 0 <= i < |regions| && regions[i].addr <= c
                      && c + MAX_CLASS_SIZE <= regions[i].addr + regions[i].size)
  }

  /** A fresh mapping of `size` bytes rounded up to huge pages. */
  ghost predicate FreshMapping(regions: seq<Region>, raw: RawOutcome, size: nat) {
    raw.Mapped? ==>
      && 0 < raw.addr && raw.addr + size <= USER_SPACE
      && forall i :: 0 <= i < |regions| ==> Apart(raw.addr, size, regions[i].addr, regions[i].size)
  }

  lemma HugePageIsPowerOfTwo()
    ensures IsPowerOfTwo(HUGE_PAGE)
  {
    assert Pow2(8) == 256;
    Pow2Splits(8, 16);
    assert Pow2(21) == 32 * Pow2(16);
    PowerPasses(21);
  }

  function RegionSize(size: nat): nat {
    HugePageIsPowerOfTwo();
    RoundUp(size, HUGE_PAGE)
  }

  lemma RegionSizeAtLeast(size: nat)
    ensures size <= RegionSize(size)
  {
    HugePageIsPowerOfTwo();
    RoundUpIsLeast(size, HUGE_PAGE);
  }

  /** The chunk addresses cut from a region. */
  function Carved(addr: int, n: nat): set<int> {
    set i | 0 <= i < n :: addr + i * MAX_CLASS_SIZE
  }

  /** Class `from` is the smallest one, from class `k` up, that has a free buffer. */
  predicate FirstFrom(lists: seq<seq<Buffer>>, k: nat, from: nat) {
    && k <= from < |lists| && lists[from] != []
    && forall j :: k <= j < from ==> lists[j] == []
  }

  /** Splitting from class `from` down to class `k`: one buffer less in `from`, one in
      every class between, two in `k`, and no other list touched. */
  predicate SplitBetween(lists: seq<seq<Buffer>>, lists': seq<seq<Buffer>>, from: nat, k: nat)
    requires k <= from < |lists| == |lists'| && lists[from] != []
  {
    if k == from then lists' == lists
    else
      && lists'[from] == lists[from][..|lists[from]| - 1] && |lists'[k]| == 2
      && (forall j :: k < j < from ==> |lists'[j]| == 1)
      && (forall j :: 0 <= j < |lists| && !(k <= j <= from) ==> lists'[j] == lists[j])
  }

  /** A list for class `k`, which had none: buffers of the smallest class that has any
      are split, and no class below `k` is touched. */
  ghost predicate Refilled(lists: seq<seq<Buffer>>, lists': seq<seq<Buffer>>, k: nat) {
    && |lists'| == |lists|
    && (forall j :: 0 <= j < k && j < |lists| ==> lists'[j] == lists[j])
    && (forall from: nat :: FirstFrom(lists, k, from) ==> SplitBetween(lists, lists', from, k))
  }

  /** The free lists after an allocation from class `k`: from the smallest class `from`
      that had a buffer the last one is gone, every class from `k` up to it keeps one
      half, and no other list is touched. */
  predicate TakenFrom(lists: seq<seq<Buffer>>, lists': seq<seq<Buffer>>, from: nat, k: nat)
    requires k <= from < |lists| && lists[from] != []
  {
    && |lists'| == |lists| && lists'[from] == lists[from][..|lists[from]| - 1]
    && (forall j :: k <= j < from ==> |lists'[j]| == 1)
    && (forall j :: 0 <= j < |lists| && !(k <= j <= from) ==> lists'[j] == lists[j])
  }

  ghost predicate Taken(lists: seq<seq<Buffer>>, lists': seq<seq<Buffer>>, k: nat) {
    && |lists'| == |lists|
    && (forall j :: 0 <= j < k && j < |lists| ==> lists'[j] == lists[j])
    && (forall from: nat :: FirstFrom(lists, k, from) ==> TakenFrom(lists, lists', from, k))
  }

  /** Handing out the last buffer of class `k` after it was refilled. */
  lemma TakenAfterRefill(lists: seq<seq<Buffer>>, filled: seq<seq<Buffer>>, k: nat)
    requires k < |lists| && Refilled(lists, filled, k) && filled[k] != []
    requires lists[k] != [] ==> filled == lists
    ensures Taken(lists, filled[k := filled[k][..|filled[k]| - 1]], k)
  {
  }

  /** No free buffer of class `k` or larger. */
  predicate NothingFrom(lists: seq<seq<Buffer>>, k: nat)
    requires |lists| == NR_CLASS
  {
    forall j :: k <= j < NR_CLASS ==> lists[j] == []
  }

  // ----- how the free lists follow the partition -----

  /** The address that splitting class `k` halves. */
  function SplitAddr(lists: seq<seq<Buffer>>, k: nat): int
    requires k < |lists| && lists[k] != []
  {
    lists[k][|lists[k]| - 1].buf
  }

  /** The free lists after splitting the last buffer of class `k`. */
  function SplitLists(lists: seq<seq<Buffer>>, k: nat): seq<seq<Buffer>>
    requires 0 < k < |lists| && lists[k] != []
  {
    var last := lists[k][|lists[k]| - 1];
    var half := last.classSize / 2;
    var pair := [Buffer(last.buf, 0, half), Buffer(last.buf + half, 0, half)];
    lists[k := lists[k][..|lists[k]| - 1]][k - 1 := lists[k - 1] + pair]
  }

  /** The class has a buffer to split, and the class below is empty. */
  predicate Splittable(lists: seq<seq<Buffer>>, blocks: map<int, nat>, k: nat) {
    && |lists| == NR_CLASS && 0 < k < NR_CLASS && lists[k] != [] && lists[k - 1] == []
    && SplitAddr(lists, k) in blocks && blocks[SplitAddr(lists, k)] == k
    && SplitAddr(lists, k) + ClassSize(k - 1) !in blocks
    && lists[k][|lists[k]| - 1].classSize == ClassSize(k)
  }

  lemma SplitPair(lists: seq<seq<Buffer>>, blocks: map<int, nat>, k: nat)
    requires Splittable(lists, blocks, k)
    ensures var a, h := SplitAddr(lists, k), ClassSize(k - 1);
            SplitLists(lists, k)[k - 1] == [Buffer(a, 0, h), Buffer(a + h, 0, h)]
  {
    HalvedSizes(k);
  }

  lemma SplitKeepsLists(lists: seq<seq<Buffer>>, blocks: map<int, nat>, k: nat)
    requires ListsOk(lists, blocks) && Splittable(lists, blocks, k)
    ensures ListsOk(SplitLists(lists, k), Halved(blocks, SplitAddr(lists, k)))
  {
    SplitPair(lists, blocks, k);
    var blocks', lists' := Halved(blocks, SplitAddr(lists, k)), SplitLists(lists, k);
    assert ListOk(lists[k], k, blocks);
    forall j | 0 <= j < NR_CLASS
      ensures ListOk(lists'[j], j, blocks')
    {
      assert ListOk(lists[j], j, blocks);
    }
  }

  lemma SplitKeepsLive(lists: seq<seq<Buffer>>, blocks: map<int, nat>, live: set<int>, k: nat)
    requires Splittable(lists, blocks, k) && LiveOk(lists, blocks, live)
    ensures LiveOk(SplitLists(lists, k), Halved(blocks, SplitAddr(lists, k)), live)
  {
    SplitPair(lists, blocks, k);
    var a, h := SplitAddr(lists, k), ClassSize(k - 1);
    var blocks', lists' := Halved(blocks, a), SplitLists(lists, k);
    var pair := lists'[k - 1];
    assert InList(a, lists[k]);
    assert pair[0].buf == a && pair[1].buf == a + h;
    forall b | b in blocks'
      ensures blocks'[b] < NR_CLASS && (b in live <==> !InList(b, lists'[blocks'[b]]))
    {
      if b == a || b == a + h {
        assert InList(b, pair);
      } else {
        RestOfList(lists[k], b);
        assert !InList(b, lists[k - 1]) && !InList(b, pair);
      }
    }
  }

  lemma SplitKeepsPool(lists: seq<seq<Buffer>>, blocks: map<int, nat>, chunks: set<int>, live: set<int>, k: nat)
    requires PoolOk(lists, blocks, live, chunks) && 0 < k < NR_CLASS
    requires lists[k] != [] && lists[k - 1] == []
    ensures SplitAddr(lists, k) in blocks && blocks[SplitAddr(lists, k)] == k
    ensures PoolOk(SplitLists(lists, k), Halved(blocks, SplitAddr(lists, k)), live, chunks)
    ensures forall b :: b in live ==> b in blocks && Halved(blocks, SplitAddr(lists, k))[b] == blocks[b]
  {
    var list := lists[k];
    var a := SplitAddr(lists, k);
    assert ListOk(list, k, blocks);
    assert InList(a, list);
    SplitKeepsTiling(blocks, chunks, a);
    SplitKeepsLists(lists, blocks, k);
    SplitKeepsLive(lists, blocks, live, k);
  }

  /** Dropping the last element of a list forgets only its address. */
  lemma RestOfList(list: seq<Buffer>, b: int)
    requires list != [] && list[|list| - 1].buf != b
    ensures InList(b, list[..|list| - 1]) <==> InList(b, list)
  {
    if InList(b, list) {
      var i :| 0 <= i < |list| && list[i].buf == b;
      assert list[..|list| - 1][i].buf == b;
    }
  }

  lemma TakeKeepsLists(lists: seq<seq<Buffer>>, blocks: map<int, nat>, live: set<int>, k: nat)
    requires ListsOk(lists, blocks) && LiveOk(lists, blocks, live) && k < NR_CLASS && lists[k] != []
    ensures var list := lists[k];
            var a := list[|list| - 1].buf;
            var lists' := lists[k := list[..|list| - 1]];
            a in blocks && a !in live && ListsOk(lists', blocks) && LiveOk(lists', blocks, live + {a})
  {
    var list := lists[k];
    assert ListOk(list, k, blocks);
    var a := list[|list| - 1].buf;
    assert InList(a, list);
    var lists' := lists[k := list[..|list| - 1]];
    forall j | 0 <= j < NR_CLASS ensures ListOk(lists'[j], j, blocks) {
      assert ListOk(lists[j], j, blocks);
    }
    forall b | b in blocks ensures b in live + {a} <==> !InList(b, lists'[blocks[b]]) {
      if b != a { RestOfList(list, b); }
    }
  }

  lemma AppendToList(list: seq<Buffer>, x: Buffer, b: int)
    ensures InList(b, list + [x]) <==> InList(b, list) || b == x.buf
  {
    if InList(b, list) {
      var i :| 0 <= i < |list| && list[i].buf == b;
      assert (list + [x])[i].buf == b;
    } else if b == x.buf {
      assert (list + [x])[|list|].buf == b;
    }
  }

  lemma PutKeepsLists(lists: seq<seq<Buffer>>, blocks: map<int, nat>, live: set<int>, a: int)
    requires ListsOk(lists, blocks) && LiveOk(lists, blocks, live) && a in live
    ensures var k := blocks[a];
            var lists' := lists[k := lists[k] + [Buffer(a, 0, ClassSize(k))]];
            ListsOk(lists', blocks) && LiveOk(lists', blocks, live - {a})
  {
    var k := blocks[a];
    var x := Buffer(a, 0, ClassSize(k));
    var lists' := lists[k := lists[k] + [x]];
    assert !InList(a, lists[k]);
    forall j | 0 <= j < NR_CLASS ensures ListOk(lists'[j], j, blocks) {
      assert ListOk(lists[j], j, blocks);
    }
    forall b | b in blocks ensures b in live - {a} <==> !InList(b, lists'[blocks[b]]) {
      AppendToList(lists[k], x, b);
    }
  }

  lemma AddKeepsLists(lists: seq<seq<Buffer>>, blocks: map<int, nat>, live: set<int>, c: int)
    requires ListsOk(lists, blocks) && LiveOk(lists, blocks, live) && c !in blocks
    ensures var top := NR_CLASS - 1;
            var lists' := lists[top := lists[top] + [Buffer(c, 0, MAX_CLASS_SIZE)]];
            ListsOk(lists', blocks[c := top]) && LiveOk(lists', blocks[c := top], live)
  {
    ClassSizes();
    var top := NR_CLASS - 1;
    var x := Buffer(c, 0, MAX_CLASS_SIZE);
    var lists' := lists[top := lists[top] + [x]];
    var blocks' := blocks[c := top];
    forall j | 0 <= j < NR_CLASS ensures ListOk(lists'[j], j, blocks') {
      assert ListOk(lists[j], j, blocks);
    }
    forall b | b in blocks' ensures b in live <==> !InList(b, lists'[blocks'[b]]) {
      AppendToList(lists[top], x, b);
    }
  }

  // ----- how the chunks follow the regions -----

  lemma MoreRegions(regions: seq<Region>, chunks: set<int>, r: Region)
    requires RegionsOk(regions, chunks) && 0 < r.addr && r.addr + r.size <= USER_SPACE
    ensures RegionsOk(regions + [r], chunks)
  {
    forall c | c in chunks
      ensures exists i :: 0 <= i < |regions + [r]| && (regions + [r])[i].addr <= c
                          && c + MAX_CLASS_SIZE <= (regions + [r])[i].addr + (regions + [r])[i].size
    {
      var i :| 0 <= i < |regions| && regions[i].addr <= c && c + MAX_CLASS_SIZE <= regions[i].addr + regions[i].size;
      assert (regions + [r])[i] == regions[i];
    }
  }

  lemma CarvedGrows(addr: int, i: nat)
    ensures Carved(addr, i + 1) == Carved(addr, i) + {addr + i * MAX_CLASS_SIZE}
  {
  }

  /** The `i`-th chunk of a fresh mapping meets neither the old chunks nor the
      ones cut before it. */
  lemma NextChunkApart(regions: seq<Region>, chunks: set<int>, raw: RawOutcome, total: nat, i: nat)
    requires RegionsOk(regions, chunks) && raw.Mapped? && FreshMapping(regions, raw, total)
    requires (i + 1) * MAX_CLASS_SIZE <= total
    ensures forall d :: d in chunks + Carved(raw.addr, i) ==>
              Apart(raw.addr + i * MAX_CLASS_SIZE, MAX_CLASS_SIZE, d, MAX_CLASS_SIZE)
  {
    var c := raw.addr + i * MAX_CLASS_SIZE;
    forall d | d in chunks + Carved(raw.addr, i) ensures Apart(c, MAX_CLASS_SIZE, d, MAX_CLASS_SIZE) {
      if d in chunks {
        ApartFromOldChunk(regions, chunks, raw, total, c, d);
      } else {
        ApartFromCarved(raw.addr, i, d);
      }
    }
  }

  lemma ApartFromCarved(addr: int, i: nat, d: int)
    requires d in Carved(addr, i)
    ensures Apart(addr + i * MAX_CLASS_SIZE, MAX_CLASS_SIZE, d, MAX_CLASS_SIZE)
  {
  }

  lemma ApartFromOldChunk(regions: seq<Region>, chunks: set<int>, raw: RawOutcome, total: nat, c: int, d: int)
    requires RegionsOk(regions, chunks) && raw.Mapped? && FreshMapping(regions, raw, total)
    requires raw.addr <= c && c + MAX_CLASS_SIZE <= raw.addr + total && d in chunks
    ensures Apart(c, MAX_CLASS_SIZE, d, MAX_CLASS_SIZE)
  {
    var r :| 0 <= r < |regions| && regions[r].addr <= d && d + MAX_CLASS_SIZE <= regions[r].addr + regions[r].size;
    assert Apart(raw.addr, total, regions[r].addr, regions[r].size);
  }

  lemma CarvedInRegion(regions: seq<Region>, chunks: set<int>, addr: int, size: nat)
    requires RegionsOk(regions, chunks) && regions != []
    requires regions[|regions| - 1] == Region(addr, RegionSize(size))
    ensures RegionsOk(regions, chunks + Carved(addr, size / MAX_CLASS_SIZE))
  {
    RegionSizeAtLeast(size);
    var n := size / MAX_CLASS_SIZE;
    forall c | c in Carved(addr, n)
      ensures exists i :: 0 <= i < |regions| && regions[i].addr <= c
                          && c + MAX_CLASS_SIZE <= regions[i].addr + regions[i].size
    {
      var last := |regions| - 1;
      assert regions[last].addr <= c && c + MAX_CLASS_SIZE <= regions[last].addr + regions[last].size;
    }
  }

  lemma BlockNotNull(regions: seq<Region>, blocks: map<int, nat>, chunks: set<int>, a: int)
    requires RegionsOk(regions, chunks) && Tiles(blocks, chunks) && a in blocks
    ensures 0 < a
  {
    assert Within(a, a, ClassSize(blocks[a]));
    assert InBlock(a, blocks);
    var c :| c in chunks && Within(a, c, MAX_CLASS_SIZE);
  }

  class Pool {
    var prevAllocClassSize: nat
    var regions: seq<Region>
    var freeList: seq<seq<Buffer>>
    /** Address and class of every buffer, the carved chunks, the buffers handed out. */
    ghost var blocks: map<int, nat>
    ghost var chunks: set<int>
    ghost var live: set<int>

    ghost predicate Valid()
      reads this
    {
      && MAX_CLASS_SIZE <= 2 * prevAllocClassSize && prevAllocClassSize < USER_SPACE
      && MemoryOk()
    }

    /** The part of the invariant that does not mention the growth size. */
    ghost predicate MemoryOk()
      reads this
    {
      && PoolOk(freeList, blocks, live, chunks)
      && RegionsOk(regions, chunks)
    }

    /** An initial size of at least 4 MB is exactly what the assertion of the
        first growth, on entry to `AllocSlow`, needs. */
    constructor (initialSize: nat)
      ensures live == {} && chunks == {} && regions == [] && freeList == seq(NR_CLASS, _ => [])
      ensures prevAllocClassSize == if initialSize < MAX_CLASS_SIZE then initialSize else MAX_CLASS_SIZE
      ensures MemoryOk() && (Valid() <==> initialSize >= 4 * 1024 * 1024)
    {
      prevAllocClassSize := if initialSize < MAX_CLASS_SIZE then initialSize else MAX_CLASS_SIZE;
      regions := [];
      freeList := seq(NR_CLASS, _ => []);
      blocks, chunks, live := map[], {}, {};
    }

    method Split(k: nat)
      requires MemoryOk() && 0 < k < NR_CLASS
      requires freeList[k] != [] && freeList[k - 1] == []  // the two assertions on entry
      modifies `freeList, `blocks
      ensures MemoryOk()
      ensures freeList == SplitLists(old(freeList), k)
      ensures forall a :: a in live ==> blocks[a] == old(blocks)[a]
    {
      SplitKeepsPool(freeList, blocks, chunks, live, k);
      blocks := Halved(blocks, SplitAddr(freeList, k));
      freeList := SplitInPlace(freeList, k);
    }

    method AllocFromClass(k: nat, actualSize: nat) returns (r: Buffer)
      requires MemoryOk() && k < NR_CLASS
      modifies `freeList, `live
      ensures MemoryOk()
      ensures old(freeList[k]) == [] ==> r == NULL_BUFFER && freeList == old(freeList) && live == old(live)
      ensures old(freeList[k]) != [] ==>
                && r == Buffer(r.buf, actualSize, ClassSize(k))
                && r.buf in blocks && blocks[r.buf] == k
                && r.buf !in old(live) && live == old(live) + {r.buf}
                && r.buf == old(freeList[k])[|old(freeList[k])| - 1].buf
                && freeList == old(freeList)[k := old(freeList[k])[..|old(freeList[k])| - 1]]
    {
      var list := freeList[k];
      if list == [] {
        return NULL_BUFFER;
      }
      assert ListOk(list, k, blocks);
      r := list[|list| - 1].(actualSize := actualSize);
      TakeKeepsLists(freeList, blocks, live, k);
      freeList := freeList[k := list[..|list| - 1]];
      live := live + {r.buf};
    }

    /** Returning a buffer that is handed out, with the class size it was given. */
    method FreeBuffer(buffer: Buffer)
      requires Valid()
      requires buffer.buf in live && buffer.classSize == ClassSize(blocks[buffer.buf])
      modifies `freeList, `live
      ensures Valid()
      ensures live == old(live) - {buffer.buf}
      ensures var k := blocks[buffer.buf];
              && freeList == old(freeList)[k := old(freeList)[k] + [buffer.(actualSize := 0)]]
    {
      ClassTypeOfClassSize(blocks[buffer.buf]);
      var k := ClassType(buffer.classSize);
      PutKeepsLists(freeList, blocks, live, buffer.buf);
      freeList := freeList[k := freeList[k] + [buffer.(actualSize := 0)]];
      live := live - {buffer.buf};
    }

    /** One region from the operating system, or none. */
    method AllocRaw(size: nat, raw: RawOutcome) returns (addr: int)
      requires MemoryOk() && FreshMapping(regions, raw, RegionSize(size))
      modifies `regions
      ensures MemoryOk()
      ensures raw.NoMemory? ==> addr == 0 && regions == old(regions)
      ensures raw.Mapped? ==> addr == raw.addr && regions == old(regions) + [Region(addr, RegionSize(size))]
    {
      if raw.NoMemory? {
        return 0;
      }
      addr := raw.addr;
      MoreRegions(regions, chunks, Region(addr, RegionSize(size)));
      regions := regions + [Region(addr, RegionSize(size))];
    }

    /** Growth: carve a region into chunks of the largest class. */
    method AllocSlow(allocSize: nat, raw: RawOutcome) returns (ok: bool)
      requires MemoryOk() && allocSize >= MAX_CLASS_SIZE  // the assertion on entry
      requires FreshMapping(regions, raw, RegionSize(allocSize))
      modifies `regions, `freeList, `blocks, `chunks
      ensures MemoryOk()
      ensures ok <==> raw.Mapped?
      ensures !ok ==>
                && regions == old(regions) && freeList == old(freeList)
                && blocks == old(blocks) && chunks == old(chunks)
      ensures ok ==> regions == old(regions) + [Region(raw.addr, RegionSize(allocSize))]
      ensures ok ==> chunks == old(chunks) + Carved(raw.addr, allocSize / MAX_CLASS_SIZE)
      ensures ok ==> freeList[NR_CLASS - 1] != []
      ensures forall j :: 0 <= j < NR_CLASS - 1 ==> freeList[j] == old(freeList[j])
      ensures forall a :: a in live ==> blocks[a] == old(blocks)[a]
    {
      ghost var rs := regions;
      var addr := AllocRaw(allocSize, raw);
      if addr == 0 {
        return false;
      }
      RegionSizeAtLeast(allocSize);
      Carve(raw, allocSize, rs);
      CarvedInRegion(regions, old(chunks), addr, allocSize);
      ok := true;
    }

    /** The loop of the growth, over a region just mapped. */
    method Carve(raw: RawOutcome, allocSize: nat, ghost rs: seq<Region>)
      requires RegionsOk(rs, chunks) && raw.Mapped?
      requires exists total: nat :: allocSize <= total && FreshMapping(rs, raw, total)
      requires PoolOk(freeList, blocks, live, chunks)
      modifies `freeList, `blocks, `chunks
      ensures PoolOk(freeList, blocks, live, chunks)
      ensures chunks == old(chunks) + Carved(raw.addr, allocSize / MAX_CLASS_SIZE)
      ensures |freeList[NR_CLASS - 1]| >= allocSize / MAX_CLASS_SIZE
      ensures forall j :: 0 <= j < NR_CLASS - 1 ==> freeList[j] == old(freeList[j])
      ensures forall a :: a in live ==> blocks[a] == old(blocks)[a]
    {
      var top := NR_CLASS - 1;
      ghost var total: nat :| allocSize <= total && FreshMapping(rs, raw, total);
      for i := 0 to allocSize / MAX_CLASS_SIZE
        invariant PoolOk(freeList, blocks, live, chunks)
        invariant chunks == old(chunks) + Carved(raw.addr, i)
        invariant |freeList[top]| >= i
        invariant forall j :: 0 <= j < top ==> freeList[j] == old(freeList[j])
        invariant forall a :: a in live ==> blocks[a] == old(blocks)[a]
      {
        NextChunkApart(rs, old(chunks), raw, total, i);
        CarvedGrows(raw.addr, i);
        AddChunk(raw.addr + i * MAX_CLASS_SIZE);
      }
    }

    method AddChunk(buf: int)
      requires PoolOk(freeList, blocks, live, chunks)
      requires forall d :: d in chunks ==> Apart(buf, MAX_CLASS_SIZE, d, MAX_CLASS_SIZE)
      modifies `freeList, `blocks, `chunks
      ensures PoolOk(freeList, blocks, live, chunks)
      ensures chunks == old(chunks) + {buf}
      ensures freeList == old(freeList)[NR_CLASS - 1 := old(freeList)[NR_CLASS - 1] + [Buffer(buf, 0, MAX_CLASS_SIZE)]]
      ensures forall a :: a in live ==> blocks[a] == old(blocks)[a]
    {
      NewChunkKeepsTiling(blocks, chunks, buf);
      AddKeepsLists(freeList, blocks, live, buf);
      freeList := freeList[NR_CLASS - 1 := freeList[NR_CLASS - 1] + [Buffer(buf, 0, MAX_CLASS_SIZE)]];
      blocks := blocks[buf := NR_CLASS - 1];
      chunks := chunks + {buf};
    }

    /** The first larger class with a free buffer. */
    method NextNonEmpty(k: nat) returns (search: nat)
      requires |freeList| == NR_CLASS && k < NR_CLASS && freeList[k] == []
      ensures k < search <= NR_CLASS && (search < NR_CLASS ==> freeList[search] != [])
      ensures forall j :: k <= j < search ==> freeList[j] == []
    {
      search := k + 1;
      while search < NR_CLASS && freeList[search] == []
        invariant k < search <= NR_CLASS
        invariant forall j :: k <= j < search ==> freeList[j] == []
      {
        search := search + 1;
      }
    }

    /** Split from class `from` down to class `k`; the assertions of `split` hold at
        every step. */
    method SplitDown(from: nat, k: nat)
      requires MemoryOk() && k <= from < NR_CLASS && freeList[from] != []
      requires forall j :: k <= j < from ==> freeList[j] == []
      modifies `freeList, `blocks
      ensures MemoryOk() && freeList[k] != []
      ensures forall a :: a in live ==> blocks[a] == old(blocks)[a]
      ensures SplitBetween(old(freeList), freeList, from, k)
    {
      var search := from;
      while search != k
        invariant MemoryOk() && k <= search <= from && freeList[search] != []
        invariant forall j :: k <= j < search ==> freeList[j] == []
        invariant SplitBetween(old(freeList), freeList, from, search)
        invariant forall a :: a in live ==> blocks[a] == old(blocks)[a]
      {
        Split(search);
        search := search - 1;
      }
    }

    /** A buffer for a class that has none: split a larger one, else grow first. */
    method Refill(k: nat, raw: RawOutcome) returns (ok: bool)
      requires Valid() && k < NR_CLASS && freeList[k] == []
      requires FreshMapping(regions, raw, RegionSize(2 * prevAllocClassSize))
      modifies `prevAllocClassSize, `regions, `freeList, `blocks, `chunks
      ensures Valid()
      ensures !ok <==> raw.NoMemory? && old(NothingFrom(freeList, k))
      ensures !ok ==> freeList == old(freeList) && blocks == old(blocks)
      ensures !ok || !old(NothingFrom(freeList, k)) ==>
                && regions == old(regions) && chunks == old(chunks)
                && prevAllocClassSize == old(prevAllocClassSize)
      ensures old(NothingFrom(freeList, k)) && raw.Mapped? ==>
                && regions == old(regions) + [Region(raw.addr, RegionSize(2 * old(prevAllocClassSize)))]
                && chunks == old(chunks) + Carved(raw.addr, 2 * old(prevAllocClassSize) / MAX_CLASS_SIZE)
                && prevAllocClassSize == 2 * old(prevAllocClassSize)
      ensures ok ==> freeList[k] != [] && Refilled(old(freeList), freeList, k)
      ensures forall a :: a in live ==> blocks[a] == old(blocks)[a]
    {
      var search := NextNonEmpty(k);
      if search == NR_CLASS {
        ok := Grow(raw);
        if !ok {
          return;
        }
        search := NR_CLASS - 1;
      }
      SplitDown(search, k);
      ok := true;
    }

    /** The allocation: exact class, else split a larger buffer, else grow. */
    method AllocBuffer(size: nat, raw: RawOutcome) returns (r: Buffer)
      requires Valid() && 1 <= size <= MAX_CLASS_SIZE  // the assertion in get_class_type
      requires FreshMapping(regions, raw, RegionSize(2 * prevAllocClassSize))
      modifies this
      ensures Valid()
      ensures r == NULL_BUFFER <==> raw.NoMemory? && old(NothingFrom(freeList, ClassType(size)))
      ensures r == NULL_BUFFER ==>
                && freeList == old(freeList) && regions == old(regions) && live == old(live)
                && prevAllocClassSize == old(prevAllocClassSize) && chunks == old(chunks)
      ensures r != NULL_BUFFER ==>
                && r == Buffer(r.buf, size, ClassSize(ClassType(size)))
                && 0 < r.buf && r.buf in blocks && blocks[r.buf] == ClassType(size)
                && r.buf !in old(live) && live == old(live) + {r.buf}
      ensures forall a :: a in old(live) ==> blocks[a] == old(blocks)[a]
      // the pool grows only when no list from the class up has a buffer, and then by
      // one region of twice the last size
      ensures !old(NothingFrom(freeList, ClassType(size))) ==>
                && regions == old(regions) && chunks == old(chunks)
                && prevAllocClassSize == old(prevAllocClassSize)
      ensures old(NothingFrom(freeList, ClassType(size))) && raw.Mapped? ==>
                && regions == old(regions) + [Region(raw.addr, RegionSize(2 * old(prevAllocClassSize)))]
                && chunks == old(chunks) + Carved(raw.addr, 2 * old(prevAllocClassSize) / MAX_CLASS_SIZE)
                && prevAllocClassSize == 2 * old(prevAllocClassSize)
      // the buffer comes from the smallest class that has one
      ensures r != NULL_BUFFER ==> Taken(old(freeList), freeList, ClassType(size))
    {
      ClassTypeIsBestFit(size);
      var k := ClassType(size);
      if freeList[k] == [] {
        var ok := Refill(k, raw);
        if !ok {
          return NULL_BUFFER;
        }
      }
      TakenAfterRefill(old(freeList), freeList, k);
      r := AllocFromClass(k, size);
      BlockNotNull(regions, blocks, chunks, r.buf);
    }

    method DoubleSize()
      requires prevAllocClassSize < USER_SPACE
      modifies `prevAllocClassSize
      ensures prevAllocClassSize == 2 * old(prevAllocClassSize)
    {
      prevAllocClassSize := (2 * prevAllocClassSize) % U64;
    }

    /** Growth by twice the size of the last time, undone if there is no memory. */
    method Grow(raw: RawOutcome) returns (ok: bool)
      requires Valid() && FreshMapping(regions, raw, RegionSize(2 * prevAllocClassSize))
      modifies `prevAllocClassSize, `regions, `freeList, `blocks, `chunks
      ensures Valid() && (ok <==> raw.Mapped?)
      ensures !ok ==>
                && regions == old(regions) && freeList == old(freeList)
                && blocks == old(blocks) && chunks == old(chunks)
      ensures !ok ==> prevAllocClassSize == old(prevAllocClassSize)
      ensures ok ==>
                && regions == old(regions) + [Region(raw.addr, RegionSize(2 * old(prevAllocClassSize)))]
                && chunks == old(chunks) + Carved(raw.addr, 2 * old(prevAllocClassSize) / MAX_CLASS_SIZE)
                && prevAllocClassSize == 2 * old(prevAllocClassSize)
      ensures ok ==> freeList[NR_CLASS - 1] != []
      ensures forall j :: 0 <= j < NR_CLASS - 1 ==> freeList[j] == old(freeList[j])
      ensures forall a :: a in live ==> blocks[a] == old(blocks)[a]
    {
      DoubleSize();
      ok := AllocSlow(prevAllocClassSize, raw);
      if !ok {
        prevAllocClassSize := prevAllocClassSize / 2;
      } else {
        RegionSizeAtLeast(prevAllocClassSize);
      }
    }
  }

  /** The first allocation of a new pool, up to its call of `alloc_slow`: every list
      is empty, and the size it asks for meets the assertion there exactly when the
      pool was created with at least 4 MB. */
  method FirstGrowth(initialSize: nat, size: nat) returns (allocSize: nat)
    requires 1 <= size <= MAX_CLASS_SIZE
    ensures allocSize >= MAX_CLASS_SIZE <==> initialSize >= 4 * 1024 * 1024
    ensures allocSize == 2 * (if initialSize < MAX_CLASS_SIZE then initialSize else MAX_CLASS_SIZE)
  {
    ClassTypeIsBestFit(size);
    var pool := new Pool(initialSize);
    var search := pool.NextNonEmpty(ClassType(size));
    assert search == NR_CLASS;
    pool.DoubleSize();
    allocSize := pool.prevAllocClassSize;
  }

  /** The statements of the split on the free lists. */
  method SplitInPlace(lists: seq<seq<Buffer>>, k: nat) returns (r: seq<seq<Buffer>>)
    requires 0 < k < |lists| && lists[k] != []
    ensures r == SplitLists(lists, k)
  {
    var list := lists[k];
    var buffer := list[|list| - 1];
    var half := buffer.classSize / 2;
    r := lists[k := list[..|list| - 1]];
    r := r[k - 1 := r[k - 1] + [Buffer(buffer.buf, 0, half)]];
    r := r[k - 1 := r[k - 1] + [Buffer(buffer.buf + half, 0, half)]];
    assert r[k - 1] == lists[k - 1] + [Buffer(buffer.buf, 0, half), Buffer(buffer.buf + half, 0, half)];
  }
}
