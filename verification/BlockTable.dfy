/** The sorted block table of a file (RsyncableFile.h, RsyncableFile.cpp, MiscTypes.h) and the search in it.

    SHA-1 is a parameter `sha` of every operation that needs it. A digest is the number its twenty bytes spell
    big-endian, so that memcmp orders digests as numbers. */
module BlockTable {
  import opened ByteStrings
  import opened RollingChecksum
  import opened BinarySearch

  type Digest = int
  type Sha = Bytes -> Digest

  datatype Item = Item(checksum: u32, hash: Digest, offset: nat)

  /** operator<: lexicographic on checksum, hash and offset. */
  predicate Less(a: Item, b: Item) {
    if a.checksum < b.checksum then true
    else if a.checksum > b.checksum then false
    else if a.hash < b.hash then true
    else if a.hash > b.hash then false
    else a.offset < b.offset
  }

  predicate AtMost(a: Item, b: Item) { !Less(b, a) }

  predicate Sorted(table: seq<Item>) {
    forall i, j | 0 <= i < j < |table| :: AtMost(table[i], table[j])
  }

  // ---------- std::sort ----------

  lemma AtMostTransitive(a: Item, b: Item, c: Item)
    requires AtMost(a, b) && AtMost(b, c)
    ensures AtMost(a, c)
  {
  }

  lemma ConsSorted(x: Item, table: seq<Item>)
    requires Sorted(table) && forall y | y in multiset(table) :: AtMost(x, y)
    ensures Sorted([x] + table)
  {
    forall i, j | 0 <= i < j < |table| + 1
      ensures AtMost(([x] + table)[i], ([x] + table)[j])
    {
      assert table[j - 1] in multiset(table);
    }
  }

  lemma HeadIsLeast(table: seq<Item>, x: Item)
    requires Sorted(table) && x in table
    ensures AtMost(table[0], x)
  {
  }

  function Insert(it: Item, table: seq<Item>): (r: seq<Item>)
    requires Sorted(table)
    ensures multiset(r) == multiset(table) + multiset{it}
    ensures Sorted(r)
  {
    if table == [] then [it]
    else if AtMost(it, table[0]) then
      InsertFront(it, table);
      [it] + table
    else
      var rest := Insert(it, table[1..]);
      InsertBehind(it, table, rest);
      [table[0]] + rest
  }

  lemma InsertFront(it: Item, table: seq<Item>)
    requires Sorted(table) && table != [] && AtMost(it, table[0])
    ensures Sorted([it] + table)
  {
    forall y | y in multiset(table)
      ensures AtMost(it, y)
    {
      HeadIsLeast(table, y);
      AtMostTransitive(it, table[0], y);
    }
    ConsSorted(it, table);
  }

  lemma InsertBehind(it: Item, table: seq<Item>, rest: seq<Item>)
    requires Sorted(table) && table != [] && !AtMost(it, table[0])
    requires Sorted(rest) && multiset(rest) == multiset(table[1..]) + multiset{it}
    ensures Sorted([table[0]] + rest)
    ensures multiset([table[0]] + rest) == multiset(table) + multiset{it}
  {
    assert table == [table[0]] + table[1..];
    forall y | y in multiset(rest)
      ensures AtMost(table[0], y)
    {
      if y != it {
        assert y in multiset(table[1..]);
        HeadIsLeast(table, y);
      }
    }
    ConsSorted(table[0], rest);
  }

  /** What std::sort leaves in the vector. */
  function Sort(items: seq<Item>): (r: seq<Item>)
    ensures Sorted(r) && multiset(r) == multiset(items)
  {
    if items == [] then []
    else
      assert items == [items[0]] + items[1..];
      Insert(items[0], Sort(items[1..]))
  }

  lemma SameHead(a: seq<Item>, b: seq<Item>)
    requires Sorted(a) && Sorted(b) && multiset(a) == multiset(b) && a != [] && b != []
    ensures a[0] == b[0] && multiset(a[1..]) == multiset(b[1..])
  {
    assert a[0] in multiset(b) && b[0] in multiset(a);
    HeadIsLeast(a, b[0]);
    HeadIsLeast(b, a[0]);
    assert a == [a[0]] + a[1..] && b == [b[0]] + b[1..];
    assert multiset(a[1..]) == multiset(a) - multiset{a[0]};
    assert multiset(b[1..]) == multiset(b) - multiset{b[0]};
  }

  /** The order compares every field, so any two sorted arrangements of the same items are the same:
      whatever algorithm std::sort uses, it leaves Sort(items). */
  lemma {:induction false} SortedUnique(a: seq<Item>, b: seq<Item>)
    requires Sorted(a) && Sorted(b) && multiset(a) == multiset(b)
    ensures a == b
  {
    assert |a| == |multiset(a)| == |multiset(b)| == |b|;
    if a != [] {
      SameHead(a, b);
      SortedUnique(a[1..], b[1..]);
      assert a == [a[0]] + a[1..] && b == [b[0]] + b[1..];
    }
  }

  // ---------- the table of a file ----------

  function ItemOf(block: Bytes, offset: nat, sha: Sha): (r: Item)
    ensures r.offset == offset
  {
    Item(Checksum(block), sha(block), offset)
  }

  /** One item for each block of the file, in file order; the file stands at `offset`. */
  function BlockItems(file: Bytes, blockSize: nat, offset: nat, sha: Sha): seq<Item>
    requires blockSize > 0
    decreases |file|
  {
    if file == [] then []
    else
      var n := Min(blockSize, |file|);
      [ItemOf(file[..n], offset, sha)] + BlockItems(file[n..], blockSize, offset + n, sha)
  }

  /** The table a digest of the file from scratch builds. */
  function ScratchTable(file: Bytes, blockSize: nat, sha: Sha): seq<Item>
    requires blockSize > 0
  {
    Sort(BlockItems(file, blockSize, 0, sha))
  }

  /** The table a comparison leaves behind for its new file: one item for an empty last block when the size
      is a multiple of the block size. */
  function ByProductTable(file: Bytes, blockSize: nat, sha: Sha): seq<Item>
    requires blockSize > 0
  {
    Sort(BlockItems(file, blockSize, 0, sha)
         + if Mod(|file|, blockSize) == 0 then [ItemOf([], |file|, sha)] else [])
  }

  /** Every item describes the block at its offset, and every block has its item. Both ways of building a
      table satisfy it, and it is all that the comparison relies on. */
  ghost predicate Describes(table: seq<Item>, file: Bytes, blockSize: nat, sha: Sha)
    requires blockSize > 0
  {
    && (forall it | it in table ::
          it.offset <= |file| && it == ItemOf(Slice(file, it.offset, blockSize), it.offset, sha))
    && (forall o: nat | o < |file| && Mod(o, blockSize) == 0 ::
          ItemOf(Slice(file, o, blockSize), o, sha) in table)
  }

  lemma FirstBlock(file: Bytes, blockSize: nat, offset: nat, sha: Sha)
    requires blockSize > 0 && file != []
    ensures var n := Min(blockSize, |file|);
            && file[..n] == Slice(file, 0, blockSize)
            && BlockItems(file, blockSize, offset, sha)
               == [ItemOf(Slice(file, 0, blockSize), offset, sha)] + BlockItems(file[n..], blockSize, offset + n, sha)
  {
    hide ItemOf;
    SliceIs(file, 0, blockSize);
  }

  lemma {:induction false} BlockItemsWithin(file: Bytes, blockSize: nat, offset: nat, sha: Sha, k: nat)
    requires blockSize > 0 && k < |BlockItems(file, blockSize, offset, sha)|
    ensures offset <= BlockItems(file, blockSize, offset, sha)[k].offset < offset + |file|
    decreases |file|
  {
    hide Checksum;
    if k > 0 {
      var n := Min(blockSize, |file|);
      BlockItemsWithin(file[n..], blockSize, offset + n, sha, k - 1);
    }
  }

  lemma {:induction false} BlockItemsAligned(file: Bytes, blockSize: nat, offset: nat, sha: Sha, k: nat)
    requires blockSize > 0 && k < |BlockItems(file, blockSize, offset, sha)| && Mod(offset, blockSize) == 0
    ensures Mod(BlockItems(file, blockSize, offset, sha)[k].offset, blockSize) == 0
    decreases |file|
  {
    hide Checksum;
    if k > 0 {
      ModOfSum(offset, blockSize, blockSize);
      BlockItemsAligned(file[blockSize..], blockSize, offset + blockSize, sha, k - 1);
    }
  }

  lemma ItemAt(file: Bytes, blockSize: nat, offset: nat, sha: Sha, k: nat)
    requires blockSize > 0 && k < |BlockItems(file, blockSize, offset, sha)|
    ensures file != []
    ensures var n := Min(blockSize, |file|);
            var later := BlockItems(file[n..], blockSize, offset + n, sha);
            && k <= |later|
            && BlockItems(file, blockSize, offset, sha)[k]
               == if k == 0 then ItemOf(Slice(file, 0, blockSize), offset, sha) else later[k - 1]
  {
    FirstBlock(file, blockSize, offset, sha);
    hide ItemOf, Slice;
  }

  lemma {:induction false} BlockItemsSound(file: Bytes, blockSize: nat, offset: nat, sha: Sha, k: nat, o: nat)
    requires blockSize > 0 && k < |BlockItems(file, blockSize, offset, sha)|
    requires BlockItems(file, blockSize, offset, sha)[k].offset == offset + o
    ensures BlockItems(file, blockSize, offset, sha)[k] == ItemOf(Slice(file, o, blockSize), offset + o, sha)
    decreases |file|
  {
    hide BlockItems, Slice, ItemOf, Min;
    ItemAt(file, blockSize, offset, sha, k);
    if k > 0 {
      var n := Min(blockSize, |file|);
      BlockItemsWithin(file[n..], blockSize, offset + n, sha, k - 1);
      BlockItemsSound(file[n..], blockSize, offset + n, sha, k - 1, o - n);
      SliceOfTail(file, n, o, blockSize);
    }
  }

  lemma {:induction false} BlockItemsComplete(file: Bytes, blockSize: nat, offset: nat, sha: Sha, o: nat)
    requires blockSize > 0 && o < |file| && Mod(o, blockSize) == 0
    ensures ItemOf(Slice(file, o, blockSize), offset + o, sha) in BlockItems(file, blockSize, offset, sha)
    decreases |file|
  {
    hide ItemOf;
    hide BlockItems;
    hide Slice;
    var n := Min(blockSize, |file|);
    FirstBlock(file, blockSize, offset, sha);
    if o >= blockSize {
      BlockItemsComplete(file[n..], blockSize, offset + n, sha, o - n);
      SliceOfTail(file, n, o, blockSize);
    }
  }

  lemma InSort(items: seq<Item>)
    ensures forall it :: it in Sort(items) <==> it in items
  {
    forall it
      ensures it in Sort(items) <==> it in items
    {
      assert it in multiset(Sort(items)) <==> it in multiset(items);
    }
  }

  lemma BlockItemsDescribe(file: Bytes, blockSize: nat, sha: Sha)
    requires blockSize > 0
    ensures Describes(BlockItems(file, blockSize, 0, sha), file, blockSize, sha)
  {
    hide Checksum;
    hide BlockItems;
    hide Slice;
    var items := BlockItems(file, blockSize, 0, sha);
    forall it | it in items
      ensures it.offset <= |file| && it == ItemOf(Slice(file, it.offset, blockSize), it.offset, sha)
    {
      var k :| 0 <= k < |items| && items[k] == it;
      BlockItemsWithin(file, blockSize, 0, sha, k);
      BlockItemsSound(file, blockSize, 0, sha, k, it.offset);
    }
    forall o: nat | o < |file| && Mod(o, blockSize) == 0
      ensures ItemOf(Slice(file, o, blockSize), o, sha) in items
    {
      BlockItemsComplete(file, blockSize, 0, sha, o);
    }
  }

  lemma TablesDescribe(file: Bytes, blockSize: nat, sha: Sha)
    requires blockSize > 0
    ensures Describes(ScratchTable(file, blockSize, sha), file, blockSize, sha)
    ensures Describes(ByProductTable(file, blockSize, sha), file, blockSize, sha)
  {
    var items := BlockItems(file, blockSize, 0, sha);
    var tail := if Mod(|file|, blockSize) == 0 then [ItemOf([], |file|, sha)] else [];
    BlockItemsDescribe(file, blockSize, sha);
    assert Describes(items + tail, file, blockSize, sha) by {
      assert Slice(file, |file|, blockSize) == [];
    }
    DescribesAnyOrder(items, file, blockSize, sha);
    DescribesAnyOrder(items + tail, file, blockSize, sha);
  }

  lemma DescribesAnyOrder(items: seq<Item>, file: Bytes, blockSize: nat, sha: Sha)
    requires blockSize > 0 && Describes(items, file, blockSize, sha)
    ensures Describes(Sort(items), file, blockSize, sha)
  {
    InSort(items);
  }

  /** The empty last entry of a by-product table: it is the only difference from the scratch table, and a
      non-empty window has its key only if the window collides with the empty block. */
  lemma ByProductDiffersByEmptyEntry(file: Bytes, blockSize: nat, sha: Sha)
    requires blockSize > 0
    ensures Mod(|file|, blockSize) != 0 ==> ByProductTable(file, blockSize, sha) == ScratchTable(file, blockSize, sha)
    ensures Mod(|file|, blockSize) == 0 ==>
      && multiset(ByProductTable(file, blockSize, sha))
         == multiset(ScratchTable(file, blockSize, sha)) + multiset{ItemOf([], |file|, sha)}
      && ItemOf([], |file|, sha) !in ScratchTable(file, blockSize, sha)
  {
    var items := BlockItems(file, blockSize, 0, sha);
    if Mod(|file|, blockSize) != 0 {
      assert items + [] == items;
    } else {
      InSort(items);
      if ItemOf([], |file|, sha) in items {
        var k :| 0 <= k < |items| && items[k] == ItemOf([], |file|, sha);
        BlockItemsWithin(file, blockSize, 0, sha, k);
        assert false;
      }
    }
  }

  // ---------- block size and block count ----------

  /** sizeof(rsync_table_item): 4 + 20 + 8 bytes. */
  const ITEM_SIZE := 32
  const TABLE_LIMIT := 0x400_0000
  const SMALLEST_BLOCK := 512

  function BlocksPerFile(fileSize: nat, blockSize: nat): nat
    requires blockSize > 0
  {
    (fileSize + (blockSize - 1)) / blockSize
  }

  predicate TableFits(fileSize: nat, blockSize: nat)
    requires blockSize > 0
  {
    BlocksPerFile(fileSize, blockSize) * ITEM_SIZE <= TABLE_LIMIT
  }

  function Doubled(k: nat): (b: nat)
    ensures b >= SMALLEST_BLOCK
  {
    if k == 0 then SMALLEST_BLOCK else 2 * Doubled(k - 1)
  }

  lemma CeilingBounds(x: nat, b: nat)
    requires b > 0
    ensures var q := BlocksPerFile(x, b); (q - 1) * b < x + 1 && x <= q * b && (x > 0 ==> (q - 1) * b < x)
  {
    var q := BlocksPerFile(x, b);
    var r := (x + (b - 1)) % b;
    assert x + (b - 1) == q * b + r;
    assert (q - 1) * b == q * b - b;
  }

  lemma ProductOrder(q: nat, r: nat, b: nat, c: nat)
    requires q <= r && b <= c
    ensures q * b <= r * c
  {
    assert q * b <= q * c;
    assert (r - q) * c >= 0;
  }

  lemma {:induction false} DoubledMonotone(j: nat, k: nat)
    requires j <= k
    ensures Doubled(j) <= Doubled(k)
    decreases k
  {
    if j < k {
      DoubledMonotone(j, k - 1);
    }
  }

  lemma {:induction false} DoubledGrows(k: nat)
    ensures Doubled(k) > k
  {
    if k > 0 {
      DoubledGrows(k - 1);
    }
  }

  lemma OneBlockIsEnough(x: nat, b: nat)
    requires b > 0 && !TableFits(x, b)
    ensures b < x
  {
    if x <= b {
      CeilingBounds(x, b);
      if x > 0 && BlocksPerFile(x, b) > 1 {
        ProductOrder(1, BlocksPerFile(x, b) - 1, b, b);
      }
    }
  }

  /** The block size of a file of x bytes: the least 512 * 2^k whose block table fits in 64 MiB. */
  ghost function BlockSizeOf(x: nat): (b: nat)
    ensures b > 0 && TableFits(x, b)
    ensures exists k: nat :: b == Doubled(k)
    ensures forall k: nat | TableFits(x, Doubled(k)) :: b <= Doubled(k)
  {
    LeastFitsFrom(x, 0)
  }

  ghost function LeastFitsFrom(x: nat, k: nat): (b: nat)
    ensures b > 0 && TableFits(x, b)
    ensures exists j: nat :: b == Doubled(j)
    ensures forall j: nat | k <= j && TableFits(x, Doubled(j)) :: b <= Doubled(j)
    decreases x - k
  {
    if TableFits(x, Doubled(k)) then
      assert forall j: nat | k <= j :: Doubled(k) <= Doubled(j) by {
        forall j: nat | k <= j
          ensures Doubled(k) <= Doubled(j)
        {
          DoubledMonotone(k, j);
        }
      }
      Doubled(k)
    else
      OneBlockIsEnough(x, Doubled(k));
      DoubledGrows(k);
      LeastFitsFrom(x, k + 1)
  }

  /** scaler_function: the least 512 * 2^k whose block table fits in 64 MiB. */
  method ScalerFunction(x: nat) returns (blockSize: nat)
    ensures blockSize > 0 && TableFits(x, blockSize)
    ensures exists k: nat :: blockSize == Doubled(k)
    ensures forall k: nat | TableFits(x, Doubled(k)) :: blockSize <= Doubled(k)
    ensures blockSize == BlockSizeOf(x)
  {
    blockSize := SMALLEST_BLOCK;
    ghost var k: nat := 0;
    while BlocksPerFile(x, blockSize) * ITEM_SIZE > TABLE_LIMIT
      invariant blockSize == Doubled(k)
      invariant forall j: nat | j < k :: !TableFits(x, Doubled(j))
      decreases x - k
    {
      OneBlockIsEnough(x, blockSize);
      DoubledGrows(k);
      blockSize := blockSize * 2;
      k := k + 1;
    }
    forall j: nat | TableFits(x, Doubled(j))
      ensures blockSize <= Doubled(j)
    {
      if j >= k {
        DoubledMonotone(k, j);
      }
    }
  }

  lemma OneMoreBlock(x: nat, b: nat)
    requires 0 < b <= x
    ensures BlocksPerFile(x, b) == BlocksPerFile(x - b, b) + 1
  {
    var q, r := BlocksPerFile(x - b, b), (x - b + (b - 1)) % b;
    assert x - b + (b - 1) == q * b + r;
    assert (q + 1) * b == q * b + b;
    RemainderUnique(x + (b - 1), b, q + 1, r);
  }

  lemma AtMostOneBlock(x: nat, b: nat)
    requires x <= b && b > 0
    ensures BlocksPerFile(x, b) == if x == 0 then 0 else 1
  {
    if x == 0 {
      RemainderUnique(b - 1, b, 0, b - 1);
    } else {
      RemainderUnique(x + (b - 1), b, 1, x - 1);
    }
  }

  /** A table has ceil(size / block size) entries. */
  lemma {:induction false} BlockCount(file: Bytes, blockSize: nat, offset: nat, sha: Sha)
    requires blockSize > 0
    ensures |BlockItems(file, blockSize, offset, sha)| == BlocksPerFile(|file|, blockSize)
    decreases |file|
  {
    if |file| <= blockSize {
      AtMostOneBlock(|file|, blockSize);
      assert file != [] ==> file[|file|..] == [];
    } else {
      BlockCount(file[blockSize..], blockSize, offset + blockSize, sha);
      OneMoreBlock(|file|, blockSize);
    }
  }

  /** The offsets tile the file: each block starts where the one before it ends, the last ends the file. */
  lemma {:induction false} BlocksTile(file: Bytes, blockSize: nat, offset: nat, sha: Sha, k: nat)
    requires blockSize > 0 && k < |BlockItems(file, blockSize, offset, sha)|
    ensures var items := BlockItems(file, blockSize, offset, sha);
            var next := if k + 1 < |items| then items[k + 1].offset else offset + |file|;
            && (k == 0 ==> items[k].offset == offset)
            && items[k].offset < next <= items[k].offset + blockSize
            && (k + 1 < |items| ==> next == items[k].offset + blockSize)
    decreases |file|
  {
    var n := Min(blockSize, |file|);
    var rest := BlockItems(file[n..], blockSize, offset + n, sha);
    if k > 0 {
      BlocksTile(file[n..], blockSize, offset + n, sha, k - 1);
    } else if rest != [] {
      BlocksTile(file[n..], blockSize, offset + n, sha, 0);
    }
  }
}
