/** The commands between two files: the matcher of Matcher.dfy searching a block table by checksum and SHA-1. */
module Delta {
  import opened ByteStrings
  import opened RollingChecksum
  import opened BlockTable
  import opened BlockSearch
  import opened DeltaCommands
  import opened Matcher

  function Window(newFile: Bytes, pos: nat, blockSize: nat): Bytes {
    Slice(newFile, pos, blockSize)
  }

  function LookAt(table: seq<Item>, blockSize: nat, sha: Sha, newFile: Bytes, pos: nat,
                  target: Option<nat>): Option<nat> {
    var w := Window(newFile, pos, blockSize);
    Find(table, Checksum(w), sha(w), target)
  }

  function MatchingOf(table: seq<Item>, blockSize: nat, sha: Sha, newFile: Bytes, native: bool): Matching {
    Matching(|newFile|, blockSize,
             (pos: nat, target: Option<nat>) => LookAt(table, blockSize, sha, newFile, pos, target),
             native)
  }

  /** The commands a comparison with the right match length emits. */
  function Commands(table: seq<Item>, blockSize: nat, sha: Sha, newFile: Bytes): seq<RsyncCommand>
    requires blockSize > 0 && |newFile| < TWO_TO_63
  {
    MatchingOf(table, blockSize, sha, newFile, false).Compare()
  }

  // ---------- every run, collisions included ----------

  /** In every run, whatever collides with what, the commands tile the new file: none is empty, their lengths sum to
      its size, and a copy-new command reads from its own position. */
  lemma EveryRunTilesNewFile(table: seq<Item>, blockSize: nat, sha: Sha, newFile: Bytes)
    requires blockSize > 0 && |newFile| < TWO_TO_63
    ensures var commands := Commands(table, blockSize, sha, newFile);
            Shape(commands) && TotalLength(commands) == |newFile|
  {
    EveryRunTiles(MatchingOf(table, blockSize, sha, newFile, false));
  }

  /** So the transformed file always has the size of the new file. */
  method TransformKeepsSize(table: seq<Item>, blockSize: nat, sha: Sha, oldFile: Bytes, newFile: Bytes)
    returns (result: Bytes)
    requires blockSize > 0 && |newFile| < TWO_TO_63
    ensures |result| == |newFile|
  {
    EveryRunTilesNewFile(table, blockSize, sha, newFile);
    result := TransformFile(oldFile, newFile, Commands(table, blockSize, sha, newFile));
  }

  /** No window of the new file shares its key with an old block of another length. The bytes may differ. */
  ghost predicate NoLengthCollision(table: seq<Item>, blockSize: nat, sha: Sha, oldFile: Bytes, newFile: Bytes) {
    forall it, pos: nat |
      it in table && pos < |newFile| &&
      HasKey(it, Checksum(Window(newFile, pos, blockSize)), sha(Window(newFile, pos, blockSize))) ::
      |Slice(oldFile, it.offset, blockSize)| == |Window(newFile, pos, blockSize)|
  }

  /** Then every command reads inside its file. */
  lemma CopiesStayInside(table: seq<Item>, blockSize: nat, sha: Sha, oldFile: Bytes, newFile: Bytes)
    requires blockSize > 0 && |newFile| < TWO_TO_63
    requires Describes(table, oldFile, blockSize, sha)
    requires NoLengthCollision(table, blockSize, sha, oldFile, newFile)
    ensures var commands := Commands(table, blockSize, sha, newFile);
            && Tiles(commands, |oldFile|)
            && forall c | c in commands :: InRange(c, oldFile, newFile)
  {
    var m := MatchingOf(table, blockSize, sha, newFile, false);
    forall pos: nat, target: Option<nat> | pos < m.size && m.look(pos, target).Some?
      ensures m.look(pos, target).value + m.WindowSize(pos) <= |oldFile|
    {
      var w := Window(newFile, pos, blockSize);
      FindSpec(table, Checksum(w), sha(w), target);
      var it := Item(Checksum(w), sha(w), m.look(pos, target).value);
      assert it in table && HasKey(it, Checksum(w), sha(w));
      assert |Slice(oldFile, it.offset, blockSize)| == |w|;
    }
    FittingRunStaysInside(m, |oldFile|);
    EveryRunTiles(m);
    var commands := m.Compare();
    forall c | c in commands
      ensures InRange(c, oldFile, newFile)
    {
      var k :| 0 <= k < |commands| && commands[k] == c;
      TilesInRange(commands, oldFile, newFile, k);
    }
  }

  // ---------- without collisions ----------

  /** No block of the old file collides with a window of the new file: equal checksum and equal SHA-1 imply
      equal bytes. */
  ghost predicate NoCollision(table: seq<Item>, blockSize: nat, sha: Sha, oldFile: Bytes, newFile: Bytes) {
    forall it, pos: nat |
      it in table && pos < |newFile| &&
      HasKey(it, Checksum(Window(newFile, pos, blockSize)), sha(Window(newFile, pos, blockSize))) ::
      Slice(oldFile, it.offset, blockSize) == Window(newFile, pos, blockSize)
  }

  lemma FoundBlockMatches(table: seq<Item>, blockSize: nat, sha: Sha, oldFile: Bytes, newFile: Bytes, pos: nat,
                          target: Option<nat>)
    requires blockSize > 0 && Describes(table, oldFile, blockSize, sha)
    requires NoCollision(table, blockSize, sha, oldFile, newFile)
    requires pos < |newFile| && LookAt(table, blockSize, sha, newFile, pos, target).Some?
    ensures var o, n := LookAt(table, blockSize, sha, newFile, pos, target).value, Min(blockSize, |newFile| - pos);
            o + n <= |oldFile| && Slice(oldFile, o, n) == Slice(newFile, pos, n)
  {
    var w := Window(newFile, pos, blockSize);
    FindSpec(table, Checksum(w), sha(w), target);
    var it := Item(Checksum(w), sha(w), LookAt(table, blockSize, sha, newFile, pos, target).value);
    assert it in table && HasKey(it, Checksum(w), sha(w));
    assert Slice(oldFile, it.offset, blockSize) == w;
  }

  lemma SearchesAreSound(table: seq<Item>, blockSize: nat, sha: Sha, oldFile: Bytes, newFile: Bytes, native: bool)
    requires blockSize > 0 && |oldFile| < TWO_TO_63 && |newFile| < TWO_TO_63
    requires Describes(table, oldFile, blockSize, sha)
    requires NoCollision(table, blockSize, sha, oldFile, newFile)
    ensures Sound(MatchingOf(table, blockSize, sha, newFile, native), oldFile, newFile)
  {
    var m := MatchingOf(table, blockSize, sha, newFile, native);
    forall pos: nat, target: Option<nat> | pos < m.size && m.look(pos, target).Some?
      ensures Matches(m, oldFile, newFile, pos, m.look(pos, target).value)
    {
      FoundBlockMatches(table, blockSize, sha, oldFile, newFile, pos, target);
    }
  }

  /** For every old file, new file and block size: applying the commands of the comparison rebuilds the new
      file byte for byte. The commands tile it, so TransformFile writes exactly the new file. */
  lemma CommandsRebuild(table: seq<Item>, blockSize: nat, sha: Sha, oldFile: Bytes, newFile: Bytes)
    requires blockSize > 0 && |oldFile| < TWO_TO_63 && |newFile| < TWO_TO_63
    requires Describes(table, oldFile, blockSize, sha)
    requires NoCollision(table, blockSize, sha, oldFile, newFile)
    ensures var commands := Commands(table, blockSize, sha, newFile);
            && Apply(commands, oldFile, newFile) == newFile
            && Tiles(commands, |oldFile|)
            && TotalLength(commands) == |newFile|
            && forall c | c in commands :: InRange(c, oldFile, newFile)
  {
    var m := MatchingOf(table, blockSize, sha, newFile, false);
    SearchesAreSound(table, blockSize, sha, oldFile, newFile, false);
    CompareCompletes(m, oldFile, newFile);
    var commands := m.Compare();
    assert newFile[..|newFile|] == newFile;
    forall c | c in commands
      ensures InRange(c, oldFile, newFile)
    {
      var k :| 0 <= k < |commands| && commands[k] == c;
      TilesInRange(commands, oldFile, newFile, k);
    }
  }

  /** The same through TransformFile itself. */
  method RoundTrip(table: seq<Item>, blockSize: nat, sha: Sha, oldFile: Bytes, newFile: Bytes) returns (rebuilt: Bytes)
    requires blockSize > 0 && |oldFile| < TWO_TO_63 && |newFile| < TWO_TO_63
    requires Describes(table, oldFile, blockSize, sha)
    requires NoCollision(table, blockSize, sha, oldFile, newFile)
    ensures rebuilt == newFile
  {
    CommandsRebuild(table, blockSize, sha, oldFile, newFile);
    rebuilt := TransformFile(oldFile, newFile, Commands(table, blockSize, sha, newFile));
  }

  lemma SelfLook(table: seq<Item>, blockSize: nat, sha: Sha, file: Bytes, pos: nat, target: Option<nat>)
    requires blockSize > 0 && pos < |file| && Mod(pos, blockSize) == 0
    requires Describes(table, file, blockSize, sha)
    requires target == Some(pos) || (target == None && pos == 0)
    ensures LookAt(table, blockSize, sha, file, pos, target) == Some(pos)
  {
    var w := Window(file, pos, blockSize);
    var it := ItemOf(w, pos, sha);
    assert it in table && HasKey(it, Checksum(w), sha(w));
    FindSpec(table, Checksum(w), sha(w), target);
  }

  /** Comparing a non-empty file with itself gives one command, copy everything from the old file. No
      assumption about hash collisions is needed. */
  lemma CompareWithItself(table: seq<Item>, blockSize: nat, sha: Sha, file: Bytes)
    requires blockSize > 0 && 0 < |file| < TWO_TO_63
    requires Describes(table, file, blockSize, sha)
    ensures var commands := Commands(table, blockSize, sha, file);
            && |commands| == 1
            && commands[0].CopyFromOld()
            && commands[0].fileOffset == 0
            && commands[0].GetLength() == |file|
  {
    SelfFinds(table, blockSize, sha, file);
    SelfCompare(MatchingOf(table, blockSize, sha, file, false));
  }

  lemma SelfFinds(table: seq<Item>, blockSize: nat, sha: Sha, file: Bytes)
    requires blockSize > 0 && 0 < |file| < TWO_TO_63
    requires Describes(table, file, blockSize, sha)
    ensures FindsItself(MatchingOf(table, blockSize, sha, file, false))
  {
    SelfLook(table, blockSize, sha, file, 0, None);
    var m := MatchingOf(table, blockSize, sha, file, false);
    forall pos: nat | 0 < pos < m.size && Mod(pos, m.blockSize) == 0
      ensures m.look(pos, Some(pos)) == Some(pos)
    {
      SelfLook(table, blockSize, sha, file, pos, Some(pos));
    }
  }

  /** The native copy of the comparer, comparing a file with itself, gets the length right exactly when the
      size is a multiple of the block size. */
  lemma NativeCompareWithItself(table: seq<Item>, blockSize: nat, sha: Sha, file: Bytes)
    requires blockSize > 0 && 0 < |file| && |file| + blockSize < TWO_TO_63
    requires Describes(table, file, blockSize, sha)
    ensures var commands := MatchingOf(table, blockSize, sha, file, true).Compare();
            |commands| == 1 && commands[0].CopyFromOld() && commands[0].fileOffset == 0 &&
            (commands[0].GetLength() == |file| <==> Mod(|file|, blockSize) == 0)
  {
    var m := MatchingOf(table, blockSize, sha, file, false);
    SelfFinds(table, blockSize, sha, file);
    SelfCompare(m);
    NativeRoundsUp(m);
    assert Native(m) == MatchingOf(table, blockSize, sha, file, true);
    GrowKeepsFlag(m.Compare()[0], Overshoot(|file|, blockSize));
  }

  // ---------- the increment of the native copy ----------

  /** The last block of the old file, if it is shorter than the others. */
  function Tail(oldFile: Bytes, blockSize: nat): (r: Bytes)
    requires blockSize > 0
    ensures |r| == Mod(|oldFile|, blockSize)
  {
    oldFile[|oldFile| - Mod(|oldFile|, blockSize)..]
  }

  /** A window shorter than a block is only found if it is the short last block of the old file, which then does not
      collide either. */
  lemma ShortMatchIsTail(blockSize: nat, sha: Sha, oldFile: Bytes, newFile: Bytes, pos: nat, target: Option<nat>)
    requires blockSize > 0 && pos < |newFile| < pos + blockSize
    requires var table := ScratchTable(oldFile, blockSize, sha);
             && NoCollision(table, blockSize, sha, oldFile, newFile)
             && LookAt(table, blockSize, sha, newFile, pos, target).Some?
    ensures newFile[pos..] == Tail(oldFile, blockSize) != []
    ensures NoCollision(ScratchTable(oldFile, blockSize, sha), blockSize, sha, oldFile, Tail(oldFile, blockSize))
  {
    var table := ScratchTable(oldFile, blockSize, sha);
    var w := Window(newFile, pos, blockSize);
    FindSpec(table, Checksum(w), sha(w), target);
    var it := Item(Checksum(w), sha(w), LookAt(table, blockSize, sha, newFile, pos, target).value);
    assert it in table && HasKey(it, Checksum(w), sha(w));
    assert Slice(oldFile, it.offset, blockSize) == w == newFile[pos..];
    ScratchOffsets(oldFile, blockSize, sha, it);
    LastOffset(|oldFile|, it.offset, blockSize);
    assert Slice(oldFile, it.offset, blockSize) == oldFile[it.offset..];
    var tail := Tail(oldFile, blockSize);
    forall block, i: nat |
      block in table && i < |tail| &&
      HasKey(block, Checksum(Window(tail, i, blockSize)), sha(Window(tail, i, blockSize)))
      ensures Slice(oldFile, block.offset, blockSize) == Window(tail, i, blockSize)
    {
      assert Window(newFile, pos + i, blockSize) == Window(tail, i, blockSize);
    }
  }

  lemma ScratchOffsets(oldFile: Bytes, blockSize: nat, sha: Sha, it: Item)
    requires blockSize > 0 && it in ScratchTable(oldFile, blockSize, sha)
    ensures it.offset < |oldFile| && Mod(it.offset, blockSize) == 0
  {
    var items := BlockItems(oldFile, blockSize, 0, sha);
    InSort(items);
    var k :| 0 <= k < |items| && items[k] == it;
    BlockItemsWithin(oldFile, blockSize, 0, sha, k);
    BlockItemsAligned(oldFile, blockSize, 0, sha, k);
  }

  lemma {:induction false} LastOffset(size: nat, o: nat, blockSize: nat)
    requires blockSize > 0 && o < size < o + blockSize && Mod(o, blockSize) == 0
    ensures Mod(size, blockSize) == size - o
  {
    ModOfSum(o, size - o, blockSize);
  }

  /** For every old file: the native copy covers every new file that does not collide with it if and only if the old
      size is a multiple of the block size, or a window of the short last block collides with a block of that file. */
  lemma NativeCoversEveryNewFileIff(blockSize: nat, sha: Sha, oldFile: Bytes)
    requires blockSize > 0 && |oldFile| + blockSize < TWO_TO_63
    ensures (forall newFile: Bytes |
               |newFile| + blockSize < TWO_TO_63 &&
               NoCollision(ScratchTable(oldFile, blockSize, sha), blockSize, sha, oldFile, newFile) ::
               NativeCovers(blockSize, sha, oldFile, newFile))
       <==> (Mod(|oldFile|, blockSize) == 0 ||
             !NoCollision(ScratchTable(oldFile, blockSize, sha), blockSize, sha, oldFile, Tail(oldFile, blockSize)))
  {
    var table, tail := ScratchTable(oldFile, blockSize, sha), Tail(oldFile, blockSize);
    if Mod(|oldFile|, blockSize) == 0 || !NoCollision(table, blockSize, sha, oldFile, tail) {
      forall newFile: Bytes |
        |newFile| + blockSize < TWO_TO_63 && NoCollision(table, blockSize, sha, oldFile, newFile)
        ensures NativeCovers(blockSize, sha, oldFile, newFile)
      {
        NativeCoversThis(blockSize, sha, oldFile, newFile);
      }
    } else {
      NativeMissesTail(blockSize, sha, oldFile);
    }
  }

  /** The second case exists, with a digest that tells nothing apart: the window [0] of the last block [0, 0] has the
      key of that block. */
  lemma TailMayCollide()
    ensures var sha: Sha := (b: Bytes) => 0;
            var oldFile: Bytes := [0, 0];
            && Mod(|oldFile|, 3) != 0
            && !NoCollision(ScratchTable(oldFile, 3, sha), 3, sha, oldFile, Tail(oldFile, 3))
  {
    var sha: Sha := (b: Bytes) => 0;
    var oldFile: Bytes := [0, 0];
    var table := ScratchTable(oldFile, 3, sha);
    assert Tail(oldFile, 3) == oldFile;
    var w := Window(oldFile, 1, 3);
    assert w == [0] && Slice(oldFile, 0, 3) == oldFile;
    TablesDescribe(oldFile, 3, sha);
    var it := ItemOf(oldFile, 0, sha);
    assert it in table;
    ChecksumOfZeros();
    assert HasKey(it, Checksum(w), sha(w));
    assert Slice(oldFile, it.offset, 3) != w;
  }

  lemma ChecksumOfZeros()
    ensures Checksum([0]) == Checksum([0, 0])
  {
    var one: Bytes, two: Bytes := [0], [0, 0];
    assert two[1..] == one && one[1..] == [];
    assert Sum(one) == 0 && Sum(two) == 0;
    assert Weighted(one, 2) == 0 && Weighted(two, 3) == 0;
  }

  /** The native commands rebuild the new file and tile it. */
  ghost predicate NativeCovers(blockSize: nat, sha: Sha, oldFile: Bytes, newFile: Bytes) {
    blockSize > 0 && |newFile| < TWO_TO_63 &&
    Covers(oldFile, newFile, |newFile|,
           MatchingOf(ScratchTable(oldFile, blockSize, sha), blockSize, sha, newFile, true).Compare())
  }

  lemma NativeCoversThis(blockSize: nat, sha: Sha, oldFile: Bytes, newFile: Bytes)
    requires blockSize > 0 && |oldFile| < TWO_TO_63 && |newFile| < TWO_TO_63
    requires var table := ScratchTable(oldFile, blockSize, sha);
             && NoCollision(table, blockSize, sha, oldFile, newFile)
             && (Mod(|oldFile|, blockSize) == 0 ||
                 !NoCollision(table, blockSize, sha, oldFile, Tail(oldFile, blockSize)))
    ensures NativeCovers(blockSize, sha, oldFile, newFile)
  {
    var table := ScratchTable(oldFile, blockSize, sha);
    var m := MatchingOf(table, blockSize, sha, newFile, false);
    forall pos: nat, target: Option<nat> | pos < m.size && m.WindowSize(pos) < m.blockSize
      ensures m.look(pos, target) == None
    {
      if LookAt(table, blockSize, sha, newFile, pos, target).Some? {
        ShortMatchIsTail(blockSize, sha, oldFile, newFile, pos, target);
      }
    }
    SameWithoutShortMatch(m);
    assert Native(m) == MatchingOf(table, blockSize, sha, newFile, true);
    TablesDescribe(oldFile, blockSize, sha);
    SearchesAreSound(table, blockSize, sha, oldFile, newFile, false);
    CompareCompletes(m, oldFile, newFile);
  }

  /** The failing input: a new file that is the short last block alone. */
  lemma NativeMissesTail(blockSize: nat, sha: Sha, oldFile: Bytes)
    requires blockSize > 0 && |oldFile| + blockSize < TWO_TO_63 && Mod(|oldFile|, blockSize) != 0
    requires var tail := Tail(oldFile, blockSize);
             NoCollision(ScratchTable(oldFile, blockSize, sha), blockSize, sha, oldFile, tail)
    ensures var tail := Tail(oldFile, blockSize);
            |tail| + blockSize < TWO_TO_63 && !NativeCovers(blockSize, sha, oldFile, tail)
  {
    var table, tail := ScratchTable(oldFile, blockSize, sha), Tail(oldFile, blockSize);
    var m := MatchingOf(table, blockSize, sha, tail, false);
    TablesDescribe(oldFile, blockSize, sha);
    SearchesAreSound(table, blockSize, sha, oldFile, tail, false);
    TailIsFound(blockSize, sha, oldFile);
    hide ScratchTable, NoCollision, Describes, LookAt, Tail;
    SingleMatch(m);
    GrowKeepsFlag(NewCommand(m.look(0, None).value, true), |tail|);
    NativeCoversIff(m, oldFile, tail);
    assert Native(m) == MatchingOf(table, blockSize, sha, tail, true);
  }

  lemma TailIsFound(blockSize: nat, sha: Sha, oldFile: Bytes)
    requires blockSize > 0 && Mod(|oldFile|, blockSize) != 0
    ensures LookAt(ScratchTable(oldFile, blockSize, sha), blockSize, sha, Tail(oldFile, blockSize), 0, None).Some?
  {
    hide Mod, Tail, Slice, ScratchTable, Describes;
    var table, tail := ScratchTable(oldFile, blockSize, sha), Tail(oldFile, blockSize);
    TailIsBlock(|oldFile|, blockSize);
    var o: nat := |oldFile| - Mod(|oldFile|, blockSize);
    TablesDescribe(oldFile, blockSize, sha);
    DescribedBlock(table, oldFile, blockSize, sha, o);
    TailSlice(oldFile, blockSize);
    KeyIsFound(table, tail, o, sha);
  }

  lemma DescribedBlock(table: seq<Item>, file: Bytes, blockSize: nat, sha: Sha, o: nat)
    requires blockSize > 0 && Describes(table, file, blockSize, sha) && o < |file| && Mod(o, blockSize) == 0
    ensures ItemOf(Slice(file, o, blockSize), o, sha) in table
  {
  }

  lemma KeyIsFound(table: seq<Item>, block: Bytes, o: nat, sha: Sha)
    requires ItemOf(block, o, sha) in table
    ensures Find(table, Checksum(block), sha(block), None).Some?
  {
    hide Checksum, Find;
    FindSpec(table, Checksum(block), sha(block), None);
    assert HasKey(ItemOf(block, o, sha), Checksum(block), sha(block));
  }

  lemma TailSlice(oldFile: Bytes, blockSize: nat)
    requires blockSize > 0 && Mod(|oldFile|, blockSize) <= |oldFile|
    ensures Slice(oldFile, |oldFile| - |Tail(oldFile, blockSize)|, blockSize) == Tail(oldFile, blockSize)
    ensures Window(Tail(oldFile, blockSize), 0, blockSize) == Tail(oldFile, blockSize)
  {
  }

  lemma {:induction false} TailIsBlock(size: nat, blockSize: nat)
    requires blockSize > 0
    ensures Mod(size - Mod(size, blockSize), blockSize) == 0
    ensures Mod(size, blockSize) <= size
    decreases size
  {
    if size >= blockSize {
      TailIsBlock(size - blockSize, blockSize);
      ModOfSum(blockSize, size - blockSize - Mod(size - blockSize, blockSize), blockSize);
    }
  }

  // ---------- the table of a previous comparison ----------

  lemma SameKeySameFind(t: seq<Item>, u: seq<Item>, checksum: u32, hash: Digest, target: Option<nat>)
    requires forall it | HasKey(it, checksum, hash) :: it in t <==> it in u
    ensures Find(t, checksum, hash, target) == Find(u, checksum, hash, target)
  {
    FindSpec(t, checksum, hash, target);
    FindSpec(u, checksum, hash, target);
    var r, q := Find(t, checksum, hash, target), Find(u, checksum, hash, target);
    assert r.Some? ==> HasKey(Item(checksum, hash, r.value), checksum, hash);
    assert q.Some? ==> HasKey(Item(checksum, hash, q.value), checksum, hash);
    assert target.Some? ==> HasKey(Item(checksum, hash, target.value), checksum, hash);
  }

  lemma EmptyEntryNeverFound(blockSize: nat, sha: Sha, oldFile: Bytes, newFile: Bytes, pos: nat, it: Item)
    requires blockSize > 0 && pos < |newFile|
    requires NoCollision(ByProductTable(oldFile, blockSize, sha), blockSize, sha, oldFile, newFile)
    requires HasKey(it, Checksum(Window(newFile, pos, blockSize)), sha(Window(newFile, pos, blockSize)))
    ensures it in ByProductTable(oldFile, blockSize, sha) <==> it in ScratchTable(oldFile, blockSize, sha)
  {
    var items := BlockItems(oldFile, blockSize, 0, sha);
    var tail := if Mod(|oldFile|, blockSize) == 0 then [ItemOf([], |oldFile|, sha)] else [];
    InSort(items);
    InSort(items + tail);
    assert Slice(oldFile, |oldFile|, blockSize) == [];
    if it in tail {
      assert false;
    }
  }

  /** A table left behind by a comparison gives the same commands as one digested from scratch: its empty last
      entry never matches a window. */
  lemma ByProductTableServes(blockSize: nat, sha: Sha, oldFile: Bytes, newFile: Bytes)
    requires blockSize > 0 && |newFile| < TWO_TO_63
    requires NoCollision(ByProductTable(oldFile, blockSize, sha), blockSize, sha, oldFile, newFile)
    ensures Commands(ByProductTable(oldFile, blockSize, sha), blockSize, sha, newFile)
         == Commands(ScratchTable(oldFile, blockSize, sha), blockSize, sha, newFile)
  {
    var t, u := ByProductTable(oldFile, blockSize, sha), ScratchTable(oldFile, blockSize, sha);
    forall pos: nat, target: Option<nat> | pos < |newFile|
      ensures LookAt(t, blockSize, sha, newFile, pos, target) == LookAt(u, blockSize, sha, newFile, pos, target)
    {
      var w := Window(newFile, pos, blockSize);
      forall it | HasKey(it, Checksum(w), sha(w))
        ensures it in t <==> it in u
      {
        EmptyEntryNeverFound(blockSize, sha, oldFile, newFile, pos, it);
      }
      SameKeySameFind(t, u, Checksum(w), sha(w), target);
    }
    AgreeCompare(MatchingOf(t, blockSize, sha, newFile, false), MatchingOf(u, blockSize, sha, newFile, false));
  }
}
