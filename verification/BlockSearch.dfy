/** FileComparer::search over a block table, behind the bitmap of RsyncableFile. */
module BlockSearch {
  import opened ByteStrings
  import opened RollingChecksum
  import opened BinarySearch
  import opened BlockTable
  import opened RingBuffer

  /** What a comparison needs of the old file. */
  datatype RsyncableFile = RsyncableFile(table: seq<Item>, bitmap: seq<bool>, blockSize: nat, digest: Digest) {

    ghost predicate Valid()
      ensures Valid() ==> blockSize > 0
    {
      && blockSize > 0
      && Sorted(table)
      && BitmapOf(bitmap, table)
    }

    /** does_not_contain. */
    predicate DoesNotContain(checksum: u32)
      requires |bitmap| == BITMAP_SIZE
    {
      !bitmap[Low24(checksum)]
    }
  }

  const BITMAP_SIZE := 0x100_0000

  function Low24(checksum: u32): (i: nat)
    ensures i < BITMAP_SIZE
  {
    checksum % BITMAP_SIZE
  }

  ghost predicate BitmapOf(bitmap: seq<bool>, table: seq<Item>) {
    && |bitmap| == BITMAP_SIZE
    && forall i | 0 <= i < BITMAP_SIZE :: bitmap[i] <==> exists it | it in table :: Low24(it.checksum) == i
  }

  method InitBitmap(table: seq<Item>) returns (bitmap: seq<bool>)
    ensures BitmapOf(bitmap, table)
  {
    bitmap := seq(BITMAP_SIZE, _ => false);
    for k := 0 to |table|
      invariant BitmapOf(bitmap, table[..k])
    {
      ghost var before := bitmap;
      bitmap := bitmap[Low24(table[k].checksum) := true];
      assert table[..k + 1] == table[..k] + [table[k]];
      forall i | 0 <= i < BITMAP_SIZE
        ensures bitmap[i] <==> exists it | it in table[..k + 1] :: Low24(it.checksum) == i
      {
        if bitmap[i] {
          if i != Low24(table[k].checksum) {
            var it :| it in table[..k] && Low24(it.checksum) == i;
            assert it in table[..k + 1];
          } else {
            assert table[k] in table[..k + 1];
          }
        } else {
          assert !before[i];
        }
      }
    }
    assert table[..|table|] == table;
  }

  /** The bitmap never rejects a checksum that is in the table. */
  lemma PrefilterIsSafe(oldFile: RsyncableFile, it: Item)
    requires oldFile.Valid() && it in oldFile.table
    ensures !oldFile.DoesNotContain(it.checksum)
  {
    var i := Low24(it.checksum);
    assert exists x | x in oldFile.table :: Low24(x.checksum) == i;
  }

  // ---------- what a search finds ----------

  predicate HasKey(it: Item, checksum: u32, hash: Digest) {
    it.checksum == checksum && it.hash == hash
  }

  /** The lowest offset among the blocks with this key. */
  function Lowest(table: seq<Item>, checksum: u32, hash: Digest): Option<nat> {
    if table == [] then None
    else
      var rest := Lowest(table[1..], checksum, hash);
      if !HasKey(table[0], checksum, hash) then rest
      else if rest.None? || table[0].offset <= rest.value then Some(table[0].offset)
      else rest
  }

  /** The block a search settles on: the one at the target if it has the key, otherwise the lowest. */
  function Find(table: seq<Item>, checksum: u32, hash: Digest, target: Option<nat>): Option<nat> {
    if target.Some? && Item(checksum, hash, target.value) in table then target
    else Lowest(table, checksum, hash)
  }

  lemma {:induction false} LowestSpec(table: seq<Item>, checksum: u32, hash: Digest)
    ensures var r := Lowest(table, checksum, hash);
            && (r.None? <==> forall it | it in table :: !HasKey(it, checksum, hash))
            && (r.Some? ==> Item(checksum, hash, r.value) in table)
            && (r.Some? ==> forall it | it in table && HasKey(it, checksum, hash) :: r.value <= it.offset)
  {
    if table != [] {
      LowestSpec(table[1..], checksum, hash);
      assert table == [table[0]] + table[1..];
    }
  }

  /** A search succeeds exactly when some block has the key; it prefers the target, else takes the lowest. */
  lemma FindSpec(table: seq<Item>, checksum: u32, hash: Digest, target: Option<nat>)
    ensures var r := Find(table, checksum, hash, target);
            && (r.Some? <==> exists it :: it in table && HasKey(it, checksum, hash))
            && (r.Some? ==> Item(checksum, hash, r.value) in table)
            && (r.Some? && target.Some? && Item(checksum, hash, target.value) in table ==> r == target)
            && (r.Some? && !(target.Some? && Item(checksum, hash, target.value) in table) ==>
                  forall it | it in table && HasKey(it, checksum, hash) :: r.value <= it.offset)
  {
    LowestSpec(table, checksum, hash);
    var r := Find(table, checksum, hash, target);
    if r.Some? {
      assert HasKey(Item(checksum, hash, r.value), checksum, hash);
    }
  }

  // ---------- the three binary searches ----------

  function UnsignedCmp(a: int, b: int): int {
    if a < b then -1 else if a > b then 1 else 0
  }

  lemma PartitionedByChecksum(table: seq<Item>, checksum: u32)
    requires Sorted(table)
    ensures Partitioned(table, (a: Item) => UnsignedCmp(a.checksum, checksum), 0, |table|)
  {
    forall i, j | 0 <= i < j < |table|
      ensures table[i].checksum <= table[j].checksum
    {
      assert AtMost(table[i], table[j]);
    }
  }

  lemma PartitionedByHash(table: seq<Item>, checksum: u32, hash: Digest, begin: nat, end: nat)
    requires Sorted(table) && begin <= end <= |table|
    requires forall i | begin <= i < end :: table[i].checksum == checksum
    ensures Partitioned(table, (a: Item) => UnsignedCmp(a.hash, hash), begin, end)
  {
    forall i, j | begin <= i < j < end
      ensures table[i].hash <= table[j].hash
    {
      assert AtMost(table[i], table[j]);
    }
  }

  lemma PartitionedByOffset(table: seq<Item>, checksum: u32, hash: Digest, target: nat, begin: nat, end: nat)
    requires Sorted(table) && begin <= end <= |table|
    requires forall i | begin <= i < end :: HasKey(table[i], checksum, hash)
    ensures Partitioned(table, (a: Item) => UnsignedCmp(a.offset, target), begin, end)
  {
    forall i, j | begin <= i < j < end
      ensures table[i].offset <= table[j].offset
    {
      assert AtMost(table[i], table[j]);
    }
  }

  /** [begin, end) holds exactly the blocks with the key. */
  ghost predicate KeyRun(table: seq<Item>, checksum: u32, hash: Digest, begin: int, end: int) {
    forall i | 0 <= i < |table| :: HasKey(table[i], checksum, hash) <==> begin <= i < end
  }

  /** The first element of the key run is the lowest block with the key. */
  lemma FirstOfRunIsLowest(table: seq<Item>, checksum: u32, hash: Digest, begin: nat, end: nat)
    requires Sorted(table) && begin < end <= |table| && KeyRun(table, checksum, hash, begin, end)
    ensures Lowest(table, checksum, hash) == Some(table[begin].offset)
  {
    LowestSpec(table, checksum, hash);
    assert HasKey(table[begin], checksum, hash);
    var r := Lowest(table, checksum, hash);
    var k :| 0 <= k < |table| && table[k] == Item(checksum, hash, r.value);
    assert HasKey(table[k], checksum, hash);
    assert begin == k || AtMost(table[begin], table[k]);
  }

  lemma NoKeyNoBlock(table: seq<Item>, checksum: u32, hash: Digest, target: Option<nat>)
    requires forall i | 0 <= i < |table| :: !HasKey(table[i], checksum, hash)
    ensures Find(table, checksum, hash, target) == None
  {
    LowestSpec(table, checksum, hash);
    if target.Some? && Item(checksum, hash, target.value) in table {
      assert false;
    }
  }

  /** A search the bitmap turns away would have found nothing. */
  lemma RejectedByBitmap(oldFile: RsyncableFile, checksum: u32, hash: Digest, target: Option<nat>)
    requires oldFile.Valid() && oldFile.DoesNotContain(checksum)
    ensures Find(oldFile.table, checksum, hash, target) == None
  {
    forall i | 0 <= i < |oldFile.table|
      ensures !HasKey(oldFile.table[i], checksum, hash)
    {
      PrefilterIsSafe(oldFile, oldFile.table[i]);
    }
    NoKeyNoBlock(oldFile.table, checksum, hash, target);
  }

  function TargetOf(offsetValid: bool, target: nat): Option<nat> {
    if offsetValid then Some(target) else None
  }

  lemma ChecksumRun(table: seq<Item>, checksum: u32, begin0: int, end0: int)
    requires ZeroRun(table, (a: Item) => UnsignedCmp(a.checksum, checksum), 0, |table|, begin0, end0)
    ensures forall i | 0 <= i < |table| :: table[i].checksum == checksum <==> begin0 <= i < end0
  {
    forall i | 0 <= i < |table|
      ensures table[i].checksum == checksum <==> begin0 <= i < end0
    {
      assert ((a: Item) => UnsignedCmp(a.checksum, checksum))(table[i]) == UnsignedCmp(table[i].checksum, checksum);
    }
  }

  /** FileComparer::search: bitmap, then checksum, then hash, then target offset. */
  method Search(oldFile: RsyncableFile, checksum: u32, buffer: CircularBuffer, sha: Sha,
                offsetValid: bool, target: nat)
    returns (found: bool, oldOffset: nat)
    requires oldFile.Valid() && buffer.Valid()
    ensures var r := Find(oldFile.table, checksum, sha(buffer.Contents), TargetOf(offsetValid, target));
            found == r.Some? && (found ==> oldOffset == r.value)
  {
    if oldFile.DoesNotContain(checksum) {
      RejectedByBitmap(oldFile, checksum, sha(buffer.Contents), TargetOf(offsetValid, target));
      return false, 0;
    }
    found, oldOffset := SearchTable(oldFile.table, checksum, buffer, sha, offsetValid, target);
  }

  method SearchTable(table: seq<Item>, checksum: u32, buffer: CircularBuffer, sha: Sha,
                     offsetValid: bool, target: nat)
    returns (found: bool, oldOffset: nat)
    requires Sorted(table) && buffer.Valid()
    ensures var r := Find(table, checksum, sha(buffer.Contents), TargetOf(offsetValid, target));
            found == r.Some? && (found ==> oldOffset == r.value)
  {
    PartitionedByChecksum(table, checksum);
    var begin0, end0 := TripleSearch(table, (a: Item) => UnsignedCmp(a.checksum, checksum), 0, |table|);
    ChecksumRun(table, checksum, begin0, end0);
    if begin0 == end0 {
      NoKeyNoBlock(table, checksum, sha(buffer.Contents), TargetOf(offsetValid, target));
      return false, 0;
    }
    var pieces := buffer.Pieces();
    var hash := sha(Flatten(pieces));
    PartitionedByHash(table, checksum, hash, begin0, end0);
    var begin1, end1 := TripleSearch(table, (a: Item) => UnsignedCmp(a.hash, hash), begin0, end0);
    RunInRun(table, checksum, hash, begin0, end0, begin1, end1);
    if begin1 == end1 {
      NoKeyNoBlock(table, checksum, hash, TargetOf(offsetValid, target));
      return false, 0;
    }
    oldOffset := PickOffset(table, checksum, hash, begin1, end1, offsetValid, target);
    found := true;
  }

  /** The last loop of search, over the blocks that have the key. */
  method PickOffset(table: seq<Item>, ghost checksum: u32, ghost hash: Digest, begin: nat, end: nat,
                    offsetValid0: bool, target: nat)
    returns (oldOffset: nat)
    requires Sorted(table) && begin < end <= |table| && KeyRun(table, checksum, hash, begin, end)
    ensures Find(table, checksum, hash, TargetOf(offsetValid0, target)) == Some(oldOffset)
  {
    FirstOfRunIsLowest(table, checksum, hash, begin, end);
    var begin1, end1, offsetValid := begin, end, offsetValid0;
    while true
      invariant begin <= begin1 < end1 == end
      invariant offsetValid ==> offsetValid0 && begin1 == begin
      invariant !offsetValid ==>
        Find(table, checksum, hash, TargetOf(offsetValid0, target)) == Some(table[begin1].offset)
      decreases offsetValid
    {
      if !offsetValid {
        return table[begin1].offset;
      }
      PartitionedByOffset(table, checksum, hash, target, begin1, end1);
      var begin2, end2 := TripleSearch(table, (a: Item) => UnsignedCmp(a.offset, target), begin1, end1);
      TargetInRun(table, checksum, hash, target, begin1, end1, begin2, end2);
      if begin2 != end2 {
        begin1 := begin2;
      }
      offsetValid := false;
    }
  }

  lemma RunInRun(table: seq<Item>, checksum: u32, hash: Digest, begin0: int, end0: int, begin1: int, end1: int)
    requires 0 <= begin0 <= end0 <= |table|
    requires forall i | 0 <= i < |table| :: table[i].checksum == checksum <==> begin0 <= i < end0
    requires begin0 <= begin1 <= end1 <= end0 || begin1 == end1 == NULL_ITERATOR
    requires ZeroRun(table, (a: Item) => UnsignedCmp(a.hash, hash), begin0, end0, begin1, end1)
    ensures KeyRun(table, checksum, hash, begin1, end1)
  {
    forall i | 0 <= i < |table|
      ensures HasKey(table[i], checksum, hash) <==> begin1 <= i < end1
    {
      if begin0 <= i < end0 {
        assert ((a: Item) => UnsignedCmp(a.hash, hash))(table[i]) == UnsignedCmp(table[i].hash, hash);
      }
    }
  }

  lemma TargetInRun(table: seq<Item>, checksum: u32, hash: Digest, target: nat,
                    begin1: nat, end1: nat, begin2: int, end2: int)
    requires begin1 < end1 <= |table| && KeyRun(table, checksum, hash, begin1, end1)
    requires begin1 <= begin2 <= end2 <= end1 || begin2 == end2 == NULL_ITERATOR
    requires ZeroRun(table, (a: Item) => UnsignedCmp(a.offset, target), begin1, end1, begin2, end2)
    ensures begin2 != end2 ==> table[begin2] == Item(checksum, hash, target)
    ensures begin2 == end2 ==> Item(checksum, hash, target) !in table
  {
    if begin2 != end2 {
      assert ((a: Item) => UnsignedCmp(a.offset, target))(table[begin2]) == 0;
    } else if Item(checksum, hash, target) in table {
      assert false;
    }
  }
}
