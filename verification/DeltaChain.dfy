/** Reading a version through a chain of deltas (RsyncChainLink and NormalFile of Rsync.cpp). */
module DeltaChain {
  import opened ByteStrings
  import opened BinarySearch
  import opened BlockTable
  import opened DeltaCommands
  import opened Delta

  /** RsyncChainLink::part; `file` says that the bytes come from the new file. */
  datatype Part = Part(physicalOffset: nat, virtualOffset: nat, size: nat, file: bool)

  datatype ReconstructedPart = ReconstructedPart(source: u64, offsetInSource: nat, size: nat)

  /** A plain file, or the version a delta makes of an older stream. */
  datatype Stream =
    | NormalFile(uniqueId: u64)
    | ChainLink(oldFile: Stream, newFile: Stream, parts: seq<Part>)

  /** The bytes of the plain files, by unique id. */
  type Disk = map<u64, Bytes>

  // ---------- what a stream contains ----------

  function PartBytes(p: Part, oldBytes: Bytes, newBytes: Bytes): Bytes {
    Slice(if p.file then newBytes else oldBytes, p.physicalOffset, p.size)
  }

  function PartsBytes(parts: seq<Part>, oldBytes: Bytes, newBytes: Bytes): Bytes {
    if parts == [] then []
    else PartsBytes(Front(parts), oldBytes, newBytes) + PartBytes(Last(parts), oldBytes, newBytes)
  }

  function Content(s: Stream, disk: Disk): Bytes {
    match s
    case NormalFile(id) => if id in disk then disk[id] else []
    case ChainLink(oldFile, newFile, parts) => PartsBytes(parts, Content(oldFile, disk), Content(newFile, disk))
  }

  function TotalSize(parts: seq<Part>): nat {
    if parts == [] then 0 else TotalSize(Front(parts)) + Last(parts).size
  }

  /** The parts stand one behind the other, none is empty, and each lies inside its source. */
  predicate TileParts(parts: seq<Part>, oldSize: nat, newSize: nat) {
    parts == [] ||
    var p := Last(parts);
    && TileParts(Front(parts), oldSize, newSize)
    && p.virtualOffset == TotalSize(Front(parts))
    && p.size >= 1
    && p.physicalOffset + p.size <= if p.file then newSize else oldSize
  }

  predicate WellFormed(s: Stream, disk: Disk) {
    match s
    case NormalFile(id) => id in disk
    case ChainLink(oldFile, newFile, parts) =>
      && WellFormed(oldFile, disk) && WellFormed(newFile, disk)
      && TileParts(parts, |Content(oldFile, disk)|, |Content(newFile, disk)|)
  }

  function ReadPart(p: ReconstructedPart, disk: Disk): Bytes {
    Slice(if p.source in disk then disk[p.source] else [], p.offsetInSource, p.size)
  }

  /** The bytes a list of reconstructed parts stands for. */
  function Read(dst: seq<ReconstructedPart>, disk: Disk): Bytes {
    if dst == [] then [] else Read(Front(dst), disk) + ReadPart(Last(dst), disk)
  }

  predicate Inside(dst: seq<ReconstructedPart>, disk: Disk) {
    forall p | p in dst :: p.source in disk && p.offsetInSource + p.size <= |disk[p.source]|
  }

  lemma {:induction false} ReadAppend(a: seq<ReconstructedPart>, b: seq<ReconstructedPart>, disk: Disk)
    ensures Read(a + b, disk) == Read(a, disk) + Read(b, disk)
    decreases |b|
  {
    hide ReadPart;
    if b == [] {
      assert a + b == a;
    } else {
      assert Front(a + b) == a + Front(b) && Last(a + b) == Last(b);
      ReadAppend(a, Front(b), disk);
      Associative(Read(a, disk), Read(Front(b), disk), ReadPart(Last(b), disk));
    }
  }

  // ---------- building a link ----------

  function PartOf(c: RsyncCommand, offset: nat): Part {
    Part(c.fileOffset, offset, c.GetLength(), !c.CopyFromOld())
  }

  function PartsOf(table: seq<RsyncCommand>): seq<Part> {
    if table == [] then []
    else PartsOf(Front(table)) + [PartOf(Last(table), TotalLength(Front(table)))]
  }

  predicate InOrder(parts: seq<Part>) {
    forall i, j | 0 <= i < j < |parts| :: parts[i].virtualOffset <= parts[j].virtualOffset
  }

  predicate StrictlyInOrder(parts: seq<Part>) {
    forall i, j | 0 <= i < j < |parts| :: parts[i].virtualOffset < parts[j].virtualOffset
  }

  lemma FirstPart(a: seq<Part>, b: seq<Part>)
    requires StrictlyInOrder(a) && InOrder(b) && multiset(a) == multiset(b) && a != [] && b != []
    ensures a[0] == b[0]
  {
    assert b[0] in multiset(a) && a[0] in multiset(b);
    var i :| 0 <= i < |a| && a[i] == b[0];
    var j :| 0 <= j < |b| && b[j] == a[0];
    assert b[0].virtualOffset <= b[j].virtualOffset;
  }

  lemma DropFirst(a: seq<Part>, b: seq<Part>)
    requires multiset(a) == multiset(b) && a != [] && b != [] && a[0] == b[0]
    ensures multiset(a[1..]) == multiset(b[1..])
  {
    assert a == [a[0]] + a[1..] && b == [b[0]] + b[1..];
    assert multiset(a[1..]) == multiset(a) - multiset{a[0]};
    assert multiset(b[1..]) == multiset(b) - multiset{b[0]};
  }

  /** Parts at different offsets have one sorted arrangement, so std::sort leaves them as they are. */
  lemma {:induction false} OneArrangement(a: seq<Part>, b: seq<Part>)
    requires StrictlyInOrder(a) && InOrder(b) && multiset(a) == multiset(b)
    ensures a == b
  {
    assert |a| == |multiset(a)| == |multiset(b)| == |b|;
    if a != [] {
      FirstPart(a, b);
      DropFirst(a, b);
      OneArrangement(a[1..], b[1..]);
      assert a == [a[0]] + a[1..] && b == [b[0]] + b[1..];
    }
  }

  lemma {:induction false} PartsTile(table: seq<RsyncCommand>, oldBytes: Bytes, newBytes: Bytes)
    requires Tiles(table, |oldBytes|) && TotalLength(table) <= |newBytes|
    ensures TileParts(PartsOf(table), |oldBytes|, |newBytes|)
    ensures TotalSize(PartsOf(table)) == TotalLength(table)
    ensures PartsBytes(PartsOf(table), oldBytes, newBytes) == Apply(table, oldBytes, newBytes)
  {
    if table != [] {
      PartsTile(Front(table), oldBytes, newBytes);
      SnocPart(PartsOf(Front(table)), PartOf(Last(table), TotalLength(Front(table))));
    }
  }

  lemma SnocPart<T>(s: seq<T>, x: T)
    ensures Front(s + [x]) == s && Last(s + [x]) == x
  {
  }

  lemma {:induction false} PartEnds(parts: seq<Part>, oldSize: nat, newSize: nat, i: nat)
    requires TileParts(parts, oldSize, newSize) && i < |parts|
    ensures parts[i].size >= 1
    ensures parts[i].virtualOffset == TotalSize(parts[..i])
    ensures parts[i].virtualOffset + parts[i].size == TotalSize(parts[..i + 1]) <= TotalSize(parts)
    decreases |parts|
  {
    assert parts[..i + 1] == parts[..i] + [parts[i]];
    SnocPart(parts[..i], parts[i]);
    if i == |parts| - 1 {
      assert parts[..i + 1] == parts && parts[..i] == Front(parts);
    } else {
      assert Front(parts)[..i] == parts[..i] && Front(parts)[..i + 1] == parts[..i + 1];
      PartEnds(Front(parts), oldSize, newSize, i);
    }
  }

  lemma {:induction false} PartsApart(parts: seq<Part>, oldSize: nat, newSize: nat, i: nat, j: nat)
    requires TileParts(parts, oldSize, newSize) && i < j < |parts|
    ensures parts[i].virtualOffset + parts[i].size <= parts[j].virtualOffset
    ensures parts[i].size >= 1
    decreases |parts|
  {
    if j == |parts| - 1 {
      PartEnds(Front(parts), oldSize, newSize, i);
    } else {
      PartsApart(Front(parts), oldSize, newSize, i, j);
    }
  }

  lemma TiledInOrder(parts: seq<Part>, oldSize: nat, newSize: nat)
    requires TileParts(parts, oldSize, newSize)
    ensures StrictlyInOrder(parts)
  {
    forall i, j | 0 <= i < j < |parts|
      ensures parts[i].virtualOffset < parts[j].virtualOffset
    {
      PartsApart(parts, oldSize, newSize, i, j);
    }
  }

  /** The RsyncChainLink constructor. std::sort may leave any sorted arrangement of the parts. Tables that tile, as
      those of comparisons do, have only one. */
  method MakeLink(oldFile: Stream, newFile: Stream, table: seq<RsyncCommand>, ghost disk: Disk) returns (link: Stream)
    ensures link.ChainLink? && link.oldFile == oldFile && link.newFile == newFile
    ensures InOrder(link.parts) && multiset(link.parts) == multiset(PartsOf(table))
    ensures MakesLink(oldFile, newFile, table, disk) ==>
      && link.parts == PartsOf(table)
      && WellFormed(link, disk)
      && Content(link, disk) == Apply(table, Content(oldFile, disk), Content(newFile, disk))
  {
    var parts := MakeParts(table);
    PartsInOrder(table);
    assert InOrder(parts) && multiset(parts) == multiset(parts);
    var sorted: seq<Part> :| InOrder(sorted) && multiset(sorted) == multiset(parts);
    link := ChainLink(oldFile, newFile, sorted);
    if MakesLink(oldFile, newFile, table, disk) {
      OnlyLink(oldFile, newFile, table, sorted, disk);
    }
  }

  method MakeParts(table: seq<RsyncCommand>) returns (parts: seq<Part>)
    ensures parts == PartsOf(table)
  {
    parts := [];
    var offset: nat := 0;
    for i := 0 to |table|
      invariant parts == PartsOf(table[..i]) && offset == TotalLength(table[..i])
    {
      var item := table[i];
      SnocPart(table[..i], item);
      assert table[..i + 1] == table[..i] + [item];
      parts := parts + [Part(item.fileOffset, offset, item.GetLength(), !item.CopyFromOld())];
      offset := offset + item.GetLength();
    }
    assert table[..|table|] == table;
  }

  lemma OnlyLink(oldFile: Stream, newFile: Stream, table: seq<RsyncCommand>, sorted: seq<Part>, disk: Disk)
    requires MakesLink(oldFile, newFile, table, disk)
    requires InOrder(sorted) && multiset(sorted) == multiset(PartsOf(table))
    ensures sorted == PartsOf(table)
    ensures WellFormed(ChainLink(oldFile, newFile, sorted), disk)
    ensures Content(ChainLink(oldFile, newFile, sorted), disk)
         == Apply(table, Content(oldFile, disk), Content(newFile, disk))
  {
    hide WellFormed, Content, Tiles, Apply, PartsOf, PartsBytes, InOrder;
    var parts := PartsOf(table);
    PartsTile(table, Content(oldFile, disk), Content(newFile, disk));
    TiledInOrder(parts, |Content(oldFile, disk)|, |Content(newFile, disk)|);
    OneArrangement(parts, sorted);
    LinkIs(oldFile, newFile, sorted, disk);
  }

  /** A table whose commands tile, over two well-formed streams. */
  ghost predicate MakesLink(oldFile: Stream, newFile: Stream, table: seq<RsyncCommand>, disk: Disk) {
    && WellFormed(oldFile, disk) && WellFormed(newFile, disk)
    && Tiles(table, |Content(oldFile, disk)|) && TotalLength(table) <= |Content(newFile, disk)|
  }

  lemma {:induction false} PartsInOrder(table: seq<RsyncCommand>)
    ensures InOrder(PartsOf(table))
    ensures forall p | p in PartsOf(table) :: p.virtualOffset <= TotalLength(table)
    decreases |table|
  {
    if table != [] {
      PartsInOrder(Front(table));
    }
  }

  lemma LinkIs(oldFile: Stream, newFile: Stream, parts: seq<Part>, disk: Disk)
    requires WellFormed(oldFile, disk) && WellFormed(newFile, disk)
    requires TileParts(parts, |Content(oldFile, disk)|, |Content(newFile, disk)|)
    ensures WellFormed(ChainLink(oldFile, newFile, parts), disk)
    ensures Content(ChainLink(oldFile, newFile, parts), disk)
         == PartsBytes(parts, Content(oldFile, disk), Content(newFile, disk))
  {
  }

  // ---------- finding a part ----------

  /** The predicate of find_part. */
  predicate EndsBehind(p: Part, offset: nat) {
    (p.virtualOffset <= offset && offset < p.virtualOffset + p.size) || p.virtualOffset >= offset
  }

  predicate Holds(p: Part, offset: nat) {
    p.virtualOffset <= offset < p.virtualOffset + p.size
  }

  lemma {:induction false} SomePartHolds(parts: seq<Part>, oldSize: nat, newSize: nat, offset: nat) returns (k: nat)
    requires TileParts(parts, oldSize, newSize) && offset < TotalSize(parts)
    ensures k < |parts| && Holds(parts[k], offset)
    decreases |parts|
  {
    if offset < TotalSize(Front(parts)) {
      k := SomePartHolds(Front(parts), oldSize, newSize, offset);
    } else {
      k := |parts| - 1;
    }
  }

  /** RsyncChainLink::transform_offset: the part that holds a virtual offset, and the place it comes from. */
  method TransformOffset(parts: seq<Part>, ghost oldSize: nat, ghost newSize: nat, offset: nat)
    returns (ok: bool, containingPart: nat, physical: nat)
    requires TileParts(parts, oldSize, newSize)
    ensures ok <==> offset < TotalSize(parts)
    ensures ok ==>
      && containingPart < |parts| && Holds(parts[containingPart], offset)
      && physical == parts[containingPart].physicalOffset + (offset - parts[containingPart].virtualOffset)
  {
    forall i, j | 0 <= i < j < |parts|
      ensures EndsBehind(parts[i], offset) ==> EndsBehind(parts[j], offset)
    {
      PartsApart(parts, oldSize, newSize, i, j);
    }
    var it := FindAll(parts, (p: Part) => EndsBehind(p, offset), 0, |parts|);
    if offset < TotalSize(parts) {
      ghost var k := SomePartHolds(parts, oldSize, newSize, offset);
      assert EndsBehind(parts[k], offset) && it <= k;
      if it < k {
        PartsApart(parts, oldSize, newSize, it, k);
        assert false;
      }
    }
    if it == |parts| || offset >= parts[it].virtualOffset + parts[it].size {
      return false, 0, offset;
    }
    PartEnds(parts, oldSize, newSize, it);
    assert EndsBehind(parts[it], offset);
    containingPart := it;
    physical := parts[it].physicalOffset + (offset - parts[it].virtualOffset);
    ok := true;
  }

  // ---------- reconstructing a section ----------

  lemma SliceInsideLast(before: Bytes, source: Bytes, p: Part, offset: nat, n: nat)
    requires p.virtualOffset == |before| && p.physicalOffset + p.size <= |source|
    requires Holds(p, offset) && offset + n <= p.virtualOffset + p.size
    ensures Slice(before + Slice(source, p.physicalOffset, p.size), offset, n)
         == Slice(source, p.physicalOffset + (offset - p.virtualOffset), n)
  {
    SliceOfRight(before, Slice(source, p.physicalOffset, p.size), offset, n);
    SliceOfSlice(source, p.physicalOffset, p.size, offset - |before|, n);
  }

  /** A stretch of the version that lies inside one part is the same stretch of the part's source. */
  lemma {:induction false} SliceInsidePart(parts: seq<Part>, oldBytes: Bytes, newBytes: Bytes, k: nat, offset: nat,
                                           n: nat)
    requires TileParts(parts, |oldBytes|, |newBytes|) && k < |parts|
    requires Holds(parts[k], offset) && offset + n <= parts[k].virtualOffset + parts[k].size
    ensures Slice(PartsBytes(parts, oldBytes, newBytes), offset, n)
         == Slice(if parts[k].file then newBytes else oldBytes,
                  parts[k].physicalOffset + (offset - parts[k].virtualOffset), n)
    decreases |parts|
  {
    hide Slice;
    var front, last := Front(parts), Last(parts);
    var before, tail := PartsBytes(front, oldBytes, newBytes), PartBytes(last, oldBytes, newBytes);
    PartsSize(front, oldBytes, newBytes);
    if k == |parts| - 1 {
      SliceInsideLast(before, if last.file then newBytes else oldBytes, last, offset, n);
    } else {
      PartEnds(front, |oldBytes|, |newBytes|, k);
      SliceInsidePart(front, oldBytes, newBytes, k, offset, n);
      SliceOfLeft(before, tail, offset, n);
    }
  }

  lemma {:induction false} PartsSize(parts: seq<Part>, oldBytes: Bytes, newBytes: Bytes)
    requires TileParts(parts, |oldBytes|, |newBytes|)
    ensures |PartsBytes(parts, oldBytes, newBytes)| == TotalSize(parts)
  {
    if parts != [] {
      PartsSize(Front(parts), oldBytes, newBytes);
    }
  }

  /** How many bytes a list of parts announces. */
  function Announced(dst: seq<ReconstructedPart>): nat {
    if dst == [] then 0 else Announced(Front(dst)) + Last(dst).size
  }

  /** The parts lie inside plain files and, read one after the other, give the section, cut at the end of the version;
      they announce as many bytes as there are. */
  predicate Delivers(disk: Disk, added: seq<ReconstructedPart>, section: Bytes) {
    Inside(added, disk) && Read(added, disk) == section && Announced(added) == |section|
  }

  /** What reconstruct_section promises. A plain file does not cut, and keeps the promise exactly for sections inside
      it; a link keeps it for every section. */
  predicate Reconstructs(s: Stream, disk: Disk, added: seq<ReconstructedPart>, offset: nat, size: nat) {
    Delivers(disk, added, Slice(Content(s, disk), offset, size)) <==>
      s.ChainLink? || offset + size <= |Content(s, disk)|
  }

  /** reconstruct_section, dispatched on the kind of stream. */
  method ReconstructSection(s: Stream, ghost disk: Disk, dst0: seq<ReconstructedPart>, virtualOffset: nat, size: nat)
    returns (dst: seq<ReconstructedPart>)
    requires WellFormed(s, disk)
    ensures dst0 <= dst
    ensures Reconstructs(s, disk, dst[|dst0|..], virtualOffset, size)
    decreases s, 1
  {
    match s {
      case NormalFile(id) =>
        var part := ReconstructedPart(id, virtualOffset, size);
        dst := dst0 + [part];
        LeafReconstructs(id, disk, virtualOffset, size);
        assert dst[|dst0|..] == [part];
      case ChainLink(_, _, _) =>
        dst := ReconstructLink(s, disk, dst0, virtualOffset, size);
    }
  }

  /** Parts inside their files announce the bytes they stand for. */
  lemma {:induction false} InsideAnnounces(dst: seq<ReconstructedPart>, disk: Disk)
    requires Inside(dst, disk)
    ensures Announced(dst) == |Read(dst, disk)|
    decreases |dst|
  {
    if dst != [] {
      InsideAnnounces(Front(dst), disk);
    }
  }

  /** A plain file adds the section itself: it delivers exactly the sections that end inside the file. */
  lemma LeafReconstructs(id: u64, disk: Disk, offset: nat, size: nat)
    requires id in disk
    ensures Reconstructs(NormalFile(id), disk, [ReconstructedPart(id, offset, size)], offset, size)
  {
    var part := ReconstructedPart(id, offset, size);
    assert Front([part]) == [];
    assert Read([part], disk) == Read([], disk) + ReadPart(part, disk);
    assert part in [part];
    if offset + size <= |disk[id]| {
      InsideAnnounces([part], disk);
    }
  }

  /** RsyncChainLink::reconstruct_section. */
  method ReconstructLink(s: Stream, ghost disk: Disk, dst0: seq<ReconstructedPart>, virtualOffset0: nat, size0: nat)
    returns (dst: seq<ReconstructedPart>)
    requires s.ChainLink? && WellFormed(s, disk)
    ensures dst0 <= dst
    ensures Reconstructs(s, disk, dst[|dst0|..], virtualOffset0, size0)
    decreases s, 0
  {
    hide Slice;
    hide Read;
    hide TileParts;
    hide TotalSize;
    hide Inside;
    ghost var whole := Content(s, disk);
    PartsSize(s.parts, Content(s.oldFile, disk), Content(s.newFile, disk));
    dst := dst0;
    ghost var added: seq<ReconstructedPart> := [];
    NothingYet(whole, virtualOffset0, disk);
    var virtualOffset: nat, size: nat := virtualOffset0, size0;
    while size > 0
      invariant virtualOffset0 <= virtualOffset && virtualOffset + size == virtualOffset0 + size0
      invariant dst == dst0 + added
      invariant Inside(added, disk)
      invariant Read(added, disk) == Slice(whole, virtualOffset0, virtualOffset - virtualOffset0)
      decreases size
    {
      var before := dst;
      var consumed;
      dst, consumed := ReconstructStep(s, disk, dst, virtualOffset, size);
      if consumed == 0 {
        break;
      }
      ghost var more := dst[|before|..];
      SectionGrows(whole, virtualOffset0, virtualOffset - virtualOffset0, consumed, added, more, disk);
      Associative(dst0, added, more);
      added := added + more;
      virtualOffset := virtualOffset + consumed;
      size := size - consumed;
    }
    NothingBehind(whole, virtualOffset0, virtualOffset - virtualOffset0, size);
    InsideAnnounces(added, disk);
    assert dst[|dst0|..] == added;
  }

  /** The body of its loop: what one part contributes. Nothing is consumed at the end of the version. */
  method ReconstructStep(s: Stream, ghost disk: Disk, dst0: seq<ReconstructedPart>, virtualOffset: nat, size: nat)
    returns (dst: seq<ReconstructedPart>, consumed: nat)
    requires s.ChainLink? && WellFormed(s, disk) && size > 0
    ensures dst0 <= dst && consumed <= size
    ensures consumed == 0 ==> dst == dst0 && |Content(s, disk)| <= virtualOffset
    ensures consumed > 0 ==>
      && Inside(dst[|dst0|..], disk)
      && Read(dst[|dst0|..], disk) == Slice(Content(s, disk), virtualOffset, consumed)
    decreases s, 0, 0
  {
    hide Slice;
    hide Read;
    hide TileParts;
    hide TotalSize;
    hide Inside;
    ghost var oldBytes, newBytes := Content(s.oldFile, disk), Content(s.newFile, disk);
    PartsSize(s.parts, oldBytes, newBytes);
    var ok, containingPart, physicalOffset := TransformOffset(s.parts, |oldBytes|, |newBytes|, virtualOffset);
    if !ok {
      return dst0, 0;
    }
    var part := s.parts[containingPart];
    consumed := Min(size, part.size - (virtualOffset - part.virtualOffset));
    var stream := if part.file then s.newFile else s.oldFile;
    PartInside(s.parts, |oldBytes|, |newBytes|, containingPart);
    SliceInsidePart(s.parts, oldBytes, newBytes, containingPart, virtualOffset, consumed);
    dst := ReconstructSection(stream, disk, dst0, physicalOffset, consumed);
  }

  lemma NothingYet(whole: Bytes, offset: nat, disk: Disk)
    ensures Inside([], disk) && Read([], disk) == Slice(whole, offset, 0)
  {
  }

  lemma NothingBehind(whole: Bytes, offset: nat, done: nat, size: nat)
    requires size == 0 || |whole| <= offset + done
    ensures Slice(whole, offset, done + size) == Slice(whole, offset, done)
  {
    SliceSplit(whole, offset, done, size);
  }

  lemma SectionGrows(whole: Bytes, offset: nat, done: nat, n: nat,
                     added: seq<ReconstructedPart>, more: seq<ReconstructedPart>, disk: Disk)
    requires Inside(added, disk) && Read(added, disk) == Slice(whole, offset, done)
    requires Inside(more, disk) && Read(more, disk) == Slice(whole, offset + done, n)
    ensures Inside(added + more, disk) && Read(added + more, disk) == Slice(whole, offset, done + n)
  {
    ReadAppend(added, more, disk);
    SliceSplit(whole, offset, done, n);
  }

  lemma {:induction false} PartInside(parts: seq<Part>, oldSize: nat, newSize: nat, k: nat)
    requires TileParts(parts, oldSize, newSize) && k < |parts|
    ensures parts[k].physicalOffset + parts[k].size <= if parts[k].file then newSize else oldSize
    decreases |parts|
  {
    if k < |parts| - 1 {
      PartInside(Front(parts), oldSize, newSize, k);
    }
  }

  // ---------- a chain of versions ----------

  /** The stream of the last version: one link for each comparison, over the plain files of all versions. */
  function ChainOf(deltas: seq<seq<RsyncCommand>>): Stream
    requires |deltas| < TWO_TO_64
  {
    if deltas == [] then NormalFile(0)
    else ChainLink(ChainOf(Front(deltas)), NormalFile(|deltas|), PartsOf(Last(deltas)))
  }

  ghost predicate IsDelta(delta: seq<RsyncCommand>, oldBytes: Bytes, newBytes: Bytes) {
    && Tiles(delta, |oldBytes|)
    && TotalLength(delta) == |newBytes|
    && Apply(delta, oldBytes, newBytes) == newBytes
  }

  /** Delta i makes version i + 1 of version i. */
  ghost predicate Deltas(deltas: seq<seq<RsyncCommand>>, versions: seq<Bytes>) {
    && |versions| == |deltas| + 1
    && forall i | 0 <= i < |deltas| :: IsDelta(deltas[i], versions[i], versions[i + 1])
  }

  ghost predicate Stored(disk: Disk, versions: seq<Bytes>) {
    forall i: u64 | i < |versions| :: i in disk && disk[i] == versions[i]
  }

  lemma {:induction false} ChainGivesVersion(deltas: seq<seq<RsyncCommand>>, versions: seq<Bytes>, disk: Disk)
    requires |versions| < TWO_TO_64 && Deltas(deltas, versions) && Stored(disk, versions)
    ensures WellFormed(ChainOf(deltas), disk)
    ensures Content(ChainOf(deltas), disk) == Last(versions)
    decreases |deltas|
  {
    if deltas != [] {
      var k := |deltas|;
      assert Front(versions)[k - 1] == versions[k - 1];
      ChainGivesVersion(Front(deltas), Front(versions), disk);
      PartsTile(deltas[k - 1], versions[k - 1], versions[k]);
    }
  }

  /** The block table that version i was compared against. */
  datatype TableInfo = TableInfo(table: seq<Item>, blockSize: nat)

  ghost predicate ComparedAgainst(t: TableInfo, sha: Sha, oldFile: Bytes, newFile: Bytes) {
    && t.blockSize > 0 && |oldFile| < TWO_TO_63 && |newFile| < TWO_TO_63
    && Describes(t.table, oldFile, t.blockSize, sha)
    && NoCollision(t.table, t.blockSize, sha, oldFile, newFile)
  }

  /** After any number of comparisons, each of a version with the one before, every section of the last version
      is rebuilt from the plain files through the chain. */
  method ReconstructVersion(versions: seq<Bytes>, tables: seq<TableInfo>, sha: Sha, ghost disk: Disk, offset: nat,
                            size: nat)
    returns (parts: seq<ReconstructedPart>)
    requires 0 < |versions| == |tables| + 1 < TWO_TO_64
    requires forall i | 0 <= i < |tables| :: ComparedAgainst(tables[i], sha, versions[i], versions[i + 1])
    requires Stored(disk, versions)
    requires |versions| > 1 || offset + size <= |versions[0]|
    ensures Delivers(disk, parts, Slice(Last(versions), offset, size))
  {
    var deltas := AllDeltas(versions, tables, sha);
    ChainGivesVersion(deltas, versions, disk);
    parts := ReconstructSection(ChainOf(deltas), disk, [], offset, size);
    assert parts[0..] == parts;
  }

  method AllDeltas(versions: seq<Bytes>, tables: seq<TableInfo>, sha: Sha) returns (deltas: seq<seq<RsyncCommand>>)
    requires |versions| == |tables| + 1
    requires forall i | 0 <= i < |tables| :: ComparedAgainst(tables[i], sha, versions[i], versions[i + 1])
    ensures Deltas(deltas, versions)
  {
    hide IsDelta;
    hide ComparedAgainst;
    deltas := [];
    for i := 0 to |tables|
      invariant |deltas| == i
      invariant forall j | 0 <= j < i :: IsDelta(deltas[j], versions[j], versions[j + 1])
    {
      var delta := OneDelta(versions[i], versions[i + 1], tables[i], sha);
      deltas := deltas + [delta];
    }
  }

  method OneDelta(oldBytes: Bytes, newBytes: Bytes, t: TableInfo, sha: Sha) returns (delta: seq<RsyncCommand>)
    requires ComparedAgainst(t, sha, oldBytes, newBytes)
    ensures IsDelta(delta, oldBytes, newBytes)
  {
    delta := Commands(t.table, t.blockSize, sha, newBytes);
    CommandsRebuild(t.table, t.blockSize, sha, oldBytes, newBytes);
  }
}
