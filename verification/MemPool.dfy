/** The containers of tinyxml2.h: the growable DynArray, and MemPoolT with its free list threaded through
    the unused items. */
module MemPools {
  /** DynArray: `allocated` slots, of which the first `size` are in use. */
  class DynArray<T(0)> {
    var mem: array<T>
    var size: nat

    ghost predicate Valid()
      reads this, mem
    {
      size <= mem.Length
    }

    ghost function Contents(): seq<T>
      requires Valid()
      reads this, mem
    {
      mem[..size]
    }

    constructor (initialSize: nat)
      ensures Valid() && fresh(mem) && Contents() == [] && mem.Length == initialSize
    {
      mem := new T[initialSize];
      size := 0;
    }

    method EnsureCapacity(cap: nat)
      requires Valid()
      modifies this`mem
      ensures Valid() && Contents() == old(Contents()) && (mem == old(mem) || fresh(mem))
      ensures mem.Length == if cap > old(mem.Length) then cap * 2 else old(mem.Length)
    {
      if cap > mem.Length {
        var newMem := new T[cap * 2];
        for i := 0 to size
          invariant mem == old(mem) && mem[..] == old(mem[..]) && newMem[..i] == mem[..i]
        {
          newMem[i] := mem[i];
        }
        mem := newMem;
      }
    }

    method Push(t: T)
      requires Valid()
      modifies this, mem
      ensures Valid() && Contents() == old(Contents()) + [t] && (mem == old(mem) || fresh(mem))
    {
      EnsureCapacity(size + 1);
      mem[size] := t;
      size := size + 1;
    }

    /** Makes room for `count` more elements, whose values are not set; returns where they start. */
    method PushArr(count: nat) returns (start: nat)
      requires Valid()
      modifies this
      ensures Valid() && start == old(size) && size == old(size) + count && (mem == old(mem) || fresh(mem))
      ensures Contents()[..start] == old(Contents())
    {
      EnsureCapacity(size + count);
      start := size;
      assert mem[..size + count][..size] == mem[..size];
      size := size + count;
    }

    method Pop() returns (t: T)
      requires Valid() && size > 0
      modifies this`size
      ensures Valid() && old(Contents()) == Contents() + [t]
    {
      size := size - 1;
      t := mem[size];
    }

    /** The last element takes the place of element `i`. */
    method SwapRemove(i: nat)
      requires Valid() && i < size
      modifies this`size, mem
      ensures Valid()
      ensures var s := old(Contents()); Contents() == s[i := s[|s| - 1]][..|s| - 1]
    {
      mem[i] := mem[size - 1];
      size := size - 1;
    }
  }

  /** A slot of a pool. While it is free, it holds the link of the free list; while it is in use, its
      bytes belong to the object stored there. */
  class Item {
    var next: Item?

    constructor ()
    {
      next := null;
    }
  }

  ghost predicate Distinct(s: seq<Item>) {
    forall i, j | 0 <= i < j < |s| :: s[i] != s[j]
  }

  function After(s: seq<Item>, i: nat): Item? {
    if i + 1 < |s| then s[i + 1] else null
  }

  /** The free list from `root` runs through `free` and ends. */
  ghost predicate Chain(root: Item?, free: seq<Item>)
    reads free
  {
    && root == (if free == [] then null else free[0])
    && forall i | 0 <= i < |free| :: free[i].next == After(free, i)
  }

  /** The slots of all blocks. */
  ghost function Slots(blocks: seq<seq<Item>>): set<Item> {
    if blocks == [] then {} else Slots(blocks[..|blocks| - 1]) + SetOf(blocks[|blocks| - 1])
  }

  ghost function SetOf(s: seq<Item>): set<Item> {
    set x | x in s
  }

  /** The slots of the blocks are exactly the free items and the items in use, no item is both, none is free
      twice, and the numbers add up (so that no two slots coincide either). */
  ghost predicate Partition(blocks: seq<seq<Item>>, itemsPerBlock: nat, free: seq<Item>, used: set<Item>) {
    && Slots(blocks) == SetOf(free) + used
    && Distinct(free) && (forall x | x in free :: x !in used)
    && |free| + |used| == |blocks| * itemsPerBlock
  }

  lemma {:induction false} DistinctSize(s: seq<Item>)
    requires Distinct(s)
    ensures |SetOf(s)| == |s|
  {
    if s != [] {
      var init, last := s[..|s| - 1], s[|s| - 1];
      DistinctSize(init);
      assert SetOf(s) == SetOf(init) + {last};
      assert last !in SetOf(init);
    } else {
      assert SetOf(s) == {};
    }
  }

  /** The slots number ITEMS_PER_BLOCK for each block: no two are the same, and none is missing from the pool. */
  lemma SlotsAreCounted(blocks: seq<seq<Item>>, n: nat, free: seq<Item>, used: set<Item>)
    requires Partition(blocks, n, free, used)
    ensures |Slots(blocks)| == |blocks| * n
  {
    hide Slots;
    DistinctSize(free);
    assert SetOf(free) !! used;
  }

  lemma EmptyPool(n: nat)
    ensures Chain(null, []) && Partition([], n, [], {})
  {
  }

  lemma OneMore(k: nat, n: nat)
    ensures (k + 1) * n == k * n + n
  {
  }

  lemma BlockAdded(blocks: seq<seq<Item>>, n: nat, block: seq<Item>, used: set<Item>)
    requires Partition(blocks, n, [], used) && |block| == n && Distinct(block) && forall x | x in block :: x !in used
    ensures Partition(blocks + [block], n, block, used)
  {
    var more := blocks + [block];
    assert more[..|more| - 1] == blocks && more[|more| - 1] == block;
    assert Slots(more) == Slots(blocks) + SetOf(block);
    assert SetOf([]) == {};
    OneMore(|blocks|, n);
  }

  lemma FirstTaken(blocks: seq<seq<Item>>, n: nat, free: seq<Item>, used: set<Item>)
    requires Partition(blocks, n, free, used) && free != []
    ensures free[0] !in used && free[0] !in free[1..]
    ensures Partition(blocks, n, free[1..], used + {free[0]})
  {
    hide Slots;
    assert free[0] in free;
    assert forall x | x in free :: x == free[0] || x in free[1..];
    assert forall x | x in free[1..] :: x in free;
    assert SetOf(free[1..]) + (used + {free[0]}) == SetOf(free) + used;
  }

  lemma ItemReturned(blocks: seq<seq<Item>>, n: nat, free: seq<Item>, used: set<Item>, item: Item)
    requires Partition(blocks, n, free, used) && item in used
    ensures item !in free && Partition(blocks, n, [item] + free, used - {item})
  {
    hide Slots, Distinct;
    var more := [item] + free;
    assert forall x :: x in more <==> x == item || x in free;
    assert SetOf(more) + (used - {item}) == SetOf(free) + used;
    DistinctCons(item, free);
  }

  lemma DistinctCons(item: Item, free: seq<Item>)
    requires Distinct(free) && item !in free
    ensures Distinct([item] + free)
  {
    var more := [item] + free;
    forall i, j | 0 <= i < j < |more|
      ensures more[i] != more[j]
    {
      assert more[j] == free[j - 1];
    }
  }

  lemma ChainTail(root: Item?, free: seq<Item>)
    requires Chain(root, free) && free != []
    ensures root != null && root == free[0] && Chain(root.next, free[1..])
  {
    forall i | 0 <= i < |free| - 1
      ensures free[1..][i].next == After(free[1..], i)
    {
      assert free[1..][i] == free[i + 1];
    }
  }

  lemma ChainEnd(root: Item?, free: seq<Item>)
    requires Chain(root, free)
    ensures root == null <==> free == []
  {
  }

  lemma ChainCons(item: Item, root: Item?, free: seq<Item>)
    requires Chain(root, free) && item.next == root
    ensures Chain(item, [item] + free)
  {
    var more := [item] + free;
    forall i | 0 <= i < |more|
      ensures more[i].next == After(more, i)
    {
      if i > 0 { assert more[i] == free[i - 1]; }
    }
  }

  const BLOCK_BYTES: nat := 4 * 1024

  class MemPool {
    const itemsPerBlock: nat
    var blocks: seq<seq<Item>>
    var root: Item?
    var currentAllocs: int
    var nAllocs: int
    var maxAllocs: int
    var nUntracked: int
    ghost var free: seq<Item>
    ghost var used: set<Item>

    ghost predicate Valid()
      reads this, free
    {
      && itemsPerBlock > 0
      && Chain(root, free)
      && Partition(blocks, itemsPerBlock, free, used)
      && currentAllocs == |used| <= maxAllocs
    }

    constructor (itemSize: nat)
      requires 0 < itemSize <= BLOCK_BYTES
      ensures Valid() && blocks == [] && free == [] && used == {} && itemsPerBlock == 4096 / itemSize
    {
      itemsPerBlock := BLOCK_BYTES / itemSize;
      blocks, root := [], null;
      currentAllocs, nAllocs, maxAllocs, nUntracked := 0, 0, 0, 0;
      free, used := [], {};
    }

    /** The items of a new block, linked one after another. */
    method NewBlock() returns (items: seq<Item>)
      requires itemsPerBlock > 0
      ensures |items| == itemsPerBlock && Distinct(items) && (forall k | 0 <= k < |items| :: fresh(items[k]))
      ensures Chain(items[0], items)
    {
      items := [];
      while |items| < itemsPerBlock
        invariant |items| <= itemsPerBlock && Distinct(items) && (forall k | 0 <= k < |items| :: fresh(items[k]))
      {
        var item := new Item();
        items := items + [item];
      }
      var i := 0;
      while i < itemsPerBlock - 1
        invariant i <= itemsPerBlock - 1
        invariant forall j | 0 <= j < i :: items[j].next == items[j + 1]
      {
        items[i].next := items[i + 1];
        i := i + 1;
      }
      items[itemsPerBlock - 1].next := null;
    }

    /** Adds a block when there is no free item. */
    method Grow()
      requires Valid() && root == null
      modifies this`blocks, this`root, this`free
      ensures Valid() && free != [] && |free| == itemsPerBlock && (forall k | 0 <= k < |free| :: fresh(free[k]))
      ensures blocks[..|blocks| - 1] == old(blocks)
    {
      hide Partition, Chain, Distinct;
      ChainEnd(root, free);
      var block := NewBlock();
      BlockAdded(blocks, itemsPerBlock, block, used);
      blocks := blocks + [block];
      root := block[0];
      free := block;
    }

    /** The first free item, after adding a block if there is none. It was not in use. */
    method Alloc() returns (result: Item)
      requires Valid()
      modifies this
      ensures Valid() && result !in old(used) && used == old(used) + {result}
      ensures old(free) != [] ==> result == old(free)[0] && free == old(free)[1..] && blocks == old(blocks)
      ensures old(free) == [] ==> fresh(result) && |free| == itemsPerBlock - 1
                                  && blocks[..|blocks| - 1] == old(blocks)
      ensures currentAllocs == old(currentAllocs) + 1 && nAllocs == old(nAllocs) + 1
      ensures nUntracked == old(nUntracked) + 1
      ensures maxAllocs == if currentAllocs > old(maxAllocs) then currentAllocs else old(maxAllocs)
    {
      hide Partition, Chain, Distinct;
      ChainEnd(root, free);
      if root == null {
        Grow();
      }
      FirstTaken(blocks, itemsPerBlock, free, used);
      ChainTail(root, free);
      result := root;
      root := root.next;
      used := used + {result};
      free := free[1..];
      currentAllocs := currentAllocs + 1;
      if currentAllocs > maxAllocs {
        maxAllocs := currentAllocs;
      }
      nAllocs := nAllocs + 1;
      nUntracked := nUntracked + 1;
    }

    /** An item in use goes to the front of the free list. */
    method Free(mem: Item?)
      requires Valid() && (mem != null ==> mem in used)
      modifies this, mem
      ensures Valid() && blocks == old(blocks)
      ensures nAllocs == old(nAllocs) && maxAllocs == old(maxAllocs) && nUntracked == old(nUntracked)
      ensures mem == null ==> used == old(used) && free == old(free) && currentAllocs == old(currentAllocs)
      ensures mem != null ==> used == old(used) - {mem} && free == [mem] + old(free)
                              && currentAllocs == old(currentAllocs) - 1
    {
      hide Partition, Chain, Distinct;
      if mem == null {
        return;
      }
      ItemReturned(blocks, itemsPerBlock, free, used, mem);
      currentAllocs := currentAllocs - 1;
      mem.next := root;
      ChainCons(mem, root, free);
      root := mem;
      used := used - {mem};
      free := [mem] + free;
    }

    method SetTracked()
      requires Valid()
      modifies this`nUntracked
      ensures Valid() && nUntracked == old(nUntracked) - 1
    {
      hide Partition, Chain;
      nUntracked := nUntracked - 1;
    }

    /** Deletes the blocks, with everything in them. */
    method Clear()
      requires Valid()
      modifies this
      ensures Valid() && blocks == [] && free == [] && used == {}
      ensures currentAllocs == 0 && nAllocs == 0 && maxAllocs == 0 && nUntracked == 0
    {
      hide Chain, Partition;
      while blocks != []
        modifies this`blocks
        decreases |blocks|
      {
        blocks := blocks[..|blocks| - 1];
      }
      root := null;
      currentAllocs, nAllocs, maxAllocs, nUntracked := 0, 0, 0, 0;
      free, used := [], {};
      EmptyPool(itemsPerBlock);
    }

    /** The owner of an item in use writes over its bytes, link included: the pool does not notice. */
    method WriteItem(item: Item, bytes: Item?)
      requires Valid() && item in used
      modifies item
      ensures Valid() && free == old(free) && used == old(used)
    {
      hide Chain, Distinct, Slots;
      item.next := bytes;
    }
  }

  /** An item that is freed is the next one to be handed out. */
  method FreeThenAlloc(pool: MemPool, item: Item) returns (r: Item)
    requires pool.Valid() && item in pool.used
    modifies pool, item
    ensures pool.Valid() && r == item && pool.used == old(pool.used) && pool.free == old(pool.free)
    ensures pool.blocks == old(pool.blocks) && pool.currentAllocs == old(pool.currentAllocs)
    ensures pool.maxAllocs == old(pool.maxAllocs) && pool.nAllocs == old(pool.nAllocs) + 1
    ensures pool.nUntracked == old(pool.nUntracked) + 1
  {
    pool.Free(item);
    r := pool.Alloc();
  }

  /** XMLElement::CreateAttribute takes an item and tracks it at once: the count of untracked items is as before. */
  method AllocTracked(pool: MemPool) returns (item: Item)
    requires pool.Valid()
    modifies pool
    ensures pool.Valid() && item !in old(pool.used) && pool.used == old(pool.used) + {item}
    ensures pool.nUntracked == old(pool.nUntracked) && pool.nAllocs == old(pool.nAllocs) + 1
  {
    item := pool.Alloc();
    pool.SetTracked();
  }

  /** XMLPrinter::Write on the buffer of a printer: the text in it, which a terminator ends, is followed by `data`, and
      the terminator moves behind that. */
  method AppendText(buffer: DynArray<char>, data: string, ghost text: string)
    requires buffer.Valid() && buffer.Contents() == text + ['\0']
    modifies buffer, buffer.mem
    ensures buffer.Valid() && buffer.Contents() == text + data + ['\0']
  {
    var end := buffer.PushArr(|data|);
    var p, mem := end - 1, buffer.mem;
    assert mem[..p] == buffer.Contents()[..end][..p] == text;
    for i := 0 to |data|
      invariant buffer.mem == mem && buffer.size == end + |data| && mem[..p + i] == text + data[..i]
    {
      mem[p + i] := data[i];
    }
    mem[p + |data|] := '\0';
  }
}
