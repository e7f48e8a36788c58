/** A whole run of versions: each is compared with the one before by the comparer of FileComparer.dfy, which searches
    the table that the comparison before it left, and the deltas are chained as in DeltaChain.dfy. */
module VersionRuns {
  import opened ByteStrings
  import opened BlockTable
  import opened BlockSearch
  import opened DeltaCommands
  import opened Delta
  import opened DeltaChain
  import opened Comparer

  /** The table that version i is searched in: the first version is digested, later ones leave theirs behind. */
  function TableOf(versions: seq<Bytes>, i: nat, blockSize: nat, sha: Sha): seq<Item>
    requires i < |versions| && blockSize > 0
  {
    if i == 0 then ScratchTable(versions[i], blockSize, sha) else ByProductTable(versions[i], blockSize, sha)
  }

  /** No block of a version collides with a window of the next one. */
  ghost predicate CollisionFree(versions: seq<Bytes>, sha: Sha) {
    forall i | 0 <= i < |versions| - 1 ::
      var b := BlockSizeOf(|versions[i]|);
      NoCollision(TableOf(versions, i, b, sha), b, sha, versions[i], versions[i + 1])
  }

  /** What the run knows after version i. */
  ghost predicate Follows(versions: seq<Bytes>, sha: Sha, disk: Disk, i: nat, file: RsyncableFile, stream: Stream) {
    && i < |versions|
    && file.Valid()
    && file.blockSize == BlockSizeOf(|versions[i]|)
    && file.table == TableOf(versions, i, file.blockSize, sha)
    && WellFormed(stream, disk) && Content(stream, disk) == versions[i]
    && (i > 0 <==> stream.ChainLink?)
  }

  lemma FirstFollows(versions: seq<Bytes>, sha: Sha, disk: Disk, file: RsyncableFile)
    requires versions != [] && Stored(disk, versions) && file.Valid()
    requires file.blockSize == BlockSizeOf(|versions[0]|)
    requires file.table == ScratchTable(versions[0], file.blockSize, sha)
    ensures Follows(versions, sha, disk, 0, file, NormalFile(0))
  {
  }

  /** One comparison and one link: from version i to version i + 1. */
  method NextVersion(versions: seq<Bytes>, sha: Sha, ghost disk: Disk, i: nat, file: RsyncableFile, stream: Stream)
    returns (next: RsyncableFile, link: Stream)
    requires i + 1 < |versions| < TWO_TO_64 && forall v | v in versions :: |v| < TWO_TO_63
    requires Stored(disk, versions) && CollisionFree(versions, sha)
    requires Follows(versions, sha, disk, i, file, stream)
    ensures Follows(versions, sha, disk, i + 1, next, link)
  {
    PlainFile(versions, disk, i + 1);
    ReadyToCompare(versions, sha, disk, i, file, stream);
    hide RsyncableFile.Valid, NoCollision, Describes, TableOf, Apply, Tiles, WellFormed, Content, Stored, CollisionFree;
    var commands;
    commands, next := CompareFiles(file, versions[i], versions[i + 1], sha);
    link := MakeLink(stream, NormalFile(i + 1), commands, disk);
    NextTable(versions, i + 1, next.blockSize, sha);
  }

  lemma PlainFile(versions: seq<Bytes>, disk: Disk, i: nat)
    requires i < |versions| < TWO_TO_64 && Stored(disk, versions)
    ensures WellFormed(NormalFile(i), disk) && Content(NormalFile(i), disk) == versions[i]
  {
  }

  lemma ReadyToCompare(versions: seq<Bytes>, sha: Sha, disk: Disk, i: nat, file: RsyncableFile, stream: Stream)
    requires i + 1 < |versions| && forall v | v in versions :: |v| < TWO_TO_63
    requires CollisionFree(versions, sha) && Follows(versions, sha, disk, i, file, stream)
    ensures |versions[i]| < TWO_TO_63 && |versions[i + 1]| < TWO_TO_63
    ensures file.blockSize > 0 && Describes(file.table, versions[i], file.blockSize, sha)
    ensures NoCollision(file.table, file.blockSize, sha, versions[i], versions[i + 1])
  {
    hide RsyncableFile.Valid, NoCollision, Describes, ScratchTable, ByProductTable, WellFormed, Content;
    assert versions[i] in versions && versions[i + 1] in versions;
    TablesDescribe(versions[i], file.blockSize, sha);
  }

  lemma NextTable(versions: seq<Bytes>, i: nat, blockSize: nat, sha: Sha)
    requires 0 < i < |versions| && blockSize > 0
    ensures TableOf(versions, i, blockSize, sha) == ByProductTable(versions[i], blockSize, sha)
  {
  }

  /** Any number of comparisons in a row, whatever the disk and the threads do, give back every section of the last
      version from the plain files. */
  method ReconstructAfterComparisons(versions: seq<Bytes>, sha: Sha, ghost disk: Disk, offset: nat, size: nat)
    returns (parts: seq<ReconstructedPart>)
    requires 0 < |versions| < TWO_TO_64 && forall v | v in versions :: |v| < TWO_TO_63
    requires Stored(disk, versions) && CollisionFree(versions, sha)
    ensures Delivers(disk, parts, Slice(Last(versions), offset, size))
       <==> |versions| > 1 || offset + size <= |Last(versions)|
  {
    hide RsyncableFile.Valid, CollisionFree, ScratchTable, WellFormed, Content, Stored, Delivers;
    var file := DigestFile(versions[0], sha);
    var stream := NormalFile(0);
    FirstFollows(versions, sha, disk, file);
    for i := 0 to |versions| - 1
      invariant Follows(versions, sha, disk, i, file, stream)
    {
      file, stream := NextVersion(versions, sha, disk, i, file, stream);
    }
    parts := ReconstructSection(stream, disk, [], offset, size);
    assert parts[0..] == parts;
  }
}
