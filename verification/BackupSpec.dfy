/** What one backup writes, as a function of the file tree and the previous version (BackupEngine.cs), and the
    invariant of the chain of versions.

    A tree is the list of its objects in the order in which Iterate visits the base objects. A stream object is
    named by the object that created it, its leader: hardlinks to a file that is already in the backup join the
    leader's stream. */
module BackupSpec {
  import opened ByteStrings

  type Path = string
  type Guid = nat

  datatype Kind =
    | DirectoryObject | RegularFile | DirectorySymlink | Junction | FileSymlink | FileReparsePoint | FileHardlink
  {
    predicate IsDirectoryish() {
      DirectoryObject? || DirectorySymlink? || Junction?
    }

    predicate IsLinkish() {
      DirectorySymlink? || Junction? || FileSymlink? || FileHardlink?
    }
  }

  datatype Mode = NoBackup | Directory | ForceFull | Full | Unmodified | Rsync

  /** What change criteria look at. */
  datatype FileData = FileData(size: nat, modificationTime: nat, archiveFlag: bool, hash: nat)

  datatype Fso = Fso(path: Path, kind: Kind, guid: Option<Guid>, mode: Mode, data: FileData,
                     streamUniqueId: nat, latestVersion: int)

  datatype Manifest = Manifest(versionNumber: nat, firstStreamUniqueId: nat, nextStreamUniqueId: nat,
                               versionDependencies: set<int>)

  datatype Archive = Archive(manifest: Manifest, objects: seq<Fso>, streamIds: seq<nat>)

  const FIRST_STREAM_ID := 1

  // ---------- one backup ----------

  /** Whether the object at a path has changed, by the criterion chosen for it, against its old self. */
  type Changed = (Path, FileData, FileData) -> bool

  /** The inputs of one backup. `previous` holds the objects of the latest version, if there is one. */
  datatype Backup = Backup(version: nat, firstId: nat, tree: seq<Fso>, previous: Option<seq<Fso>>, changed: Changed)

  /** The object has contents of its own, or is a hardlink, and its mode asks for them: the tests of ShouldBeAdded
      on the object itself. */
  predicate Addable(o: Fso) {
    && (o.kind.RegularFile? || o.kind.FileReparsePoint? || o.kind.FileHardlink?)
    && !o.mode.NoBackup?
  }

  /** The first of the k first objects that is added under this GUID. */
  function FirstWithGuid(tree: seq<Fso>, g: Guid, k: nat): (r: Option<nat>)
    requires k <= |tree|
    ensures r.Some? ==> r.value < k && Addable(tree[r.value]) && tree[r.value].guid == Some(g)
    ensures r.Some? ==> forall j | 0 <= j < r.value :: !(Addable(tree[j]) && tree[j].guid == Some(g))
    ensures r.None? ==> forall j | 0 <= j < k :: !(Addable(tree[j]) && tree[j].guid == Some(g))
  {
    if k == 0 then None
    else
      var earlier := FirstWithGuid(tree, g, k - 1);
      if earlier.Some? then earlier
      else if Addable(tree[k - 1]) && tree[k - 1].guid == Some(g) then Some(k - 1)
      else None
  }

  /** The object whose stream object i belongs to: itself, or the first object with its GUID. */
  function LeaderOf(tree: seq<Fso>, i: nat): (r: Option<nat>)
    requires i < |tree|
    ensures r.Some? ==> r.value <= i && Addable(tree[r.value])
  {
    var known := if tree[i].guid.Some? then FirstWithGuid(tree, tree[i].guid.value, i) else None;
    if known.Some? && (Addable(tree[i]) || tree[i].kind.FileHardlink?) then known
    else if Addable(tree[i]) then Some(i)
    else None
  }

  predicate Leads(tree: seq<Fso>, i: nat)
    requires i < |tree|
  {
    LeaderOf(tree, i) == Some(i)
  }

  function FindPath(objects: seq<Fso>, path: Path): (r: Option<Fso>)
    ensures r.Some? ==> r.value in objects && r.value.path == path
    ensures r.None? ==> forall o | o in objects :: o.path != path
  {
    if objects == [] then None
    else if objects[0].path == path then Some(objects[0])
    else FindPath(objects[1..], path)
  }

  /** What CheckAndMaybeAdd makes of a leader: data in this archive, a reference to the version that has it, or
      an exception. */
  datatype Decision = Store | Reference(containingVersion: int) | Throw

  function OldSelf(b: Backup, i: nat): Option<Fso>
    requires i < |b.tree|
  {
    if b.previous.None? then None else FindPath(b.previous.value, b.tree[i].path)
  }

  /** FileHasChanged. */
  predicate HasChanged(b: Backup, i: nat)
    requires i < |b.tree|
  {
    var before := OldSelf(b, i);
    before.None? || b.changed(b.tree[i].path, b.tree[i].data, before.value.data)
  }

  function Decide(b: Backup, i: nat): Decision
    requires i < |b.tree|
  {
    var mode := b.tree[i].mode;
    if b.previous.None? || mode.ForceFull? then Store
    else if !HasChanged(b, i) then Reference(OldSelf(b, i).value.latestVersion)
    else if mode.Full? then Store
    else if mode.Unmodified? then Reference(-1)
    else Throw
  }

  /** How many of the k first objects lead a stream with data. */
  function StoredBefore(b: Backup, k: nat): nat
    requires k <= |b.tree|
  {
    if k == 0 then 0
    else StoredBefore(b, k - 1) + if Leads(b.tree, k - 1) && Decide(b, k - 1).Store? then 1 else 0
  }

  /** The id of the stream that object l leads: fresh if it has data, otherwise the id the object had. */
  function IdOf(b: Backup, l: nat): nat
    requires l < |b.tree|
  {
    if Decide(b, l).Store? then b.firstId + StoredBefore(b, l)
    else PresetId(b, l)
  }

  /** UpdateExistingVersion first gives every object the id of its old self. */
  function PresetId(b: Backup, i: nat): nat
    requires i < |b.tree|
  {
    var before := OldSelf(b, i);
    if before.Some? then before.value.streamUniqueId else b.tree[i].streamUniqueId
  }

  /** LatestVersion of a leader. A changed file whose mode says Unmodified keeps the new version number. */
  function VersionOf(b: Backup, l: nat): int
    requires l < |b.tree|
  {
    if Decide(b, l).Reference? && !HasChanged(b, l) then Decide(b, l).containingVersion else b.version
  }

  /** Object i as the archive stores it. The mode is not stored. */
  function Written(b: Backup, i: nat): Fso
    requires i < |b.tree|
  {
    var o := b.tree[i].(mode := NoBackup, streamUniqueId := PresetId(b, i), latestVersion := -1);
    var l := LeaderOf(b.tree, i);
    if l.None? then o
    else o.(streamUniqueId := IdOf(b, l.value), latestVersion := VersionOf(b, l.value))
  }

  /** The version GetDependencies adds for object i. The leader of an UnmodifiedStream has no BackupStream and
      names its own LatestVersion; the hardlinks that joined it name the stream's ContainingVersion. */
  function Dependency(b: Backup, i: nat): Option<int>
    requires i < |b.tree|
  {
    var l := LeaderOf(b.tree, i);
    if l.None? || VersionOf(b, l.value) < 0 || !Decide(b, l.value).Reference? then None
    else if l.value == i then Some(VersionOf(b, i))
    else Some(Decide(b, l.value).containingVersion)
  }

  function Range(from: nat, to: nat): (r: seq<nat>)
    requires from <= to
    ensures |r| == to - from
    ensures forall id :: id in r <==> from <= id < to
  {
    if from == to then [] else Range(from, to - 1) + [to - 1]
  }

  predicate Succeeds(b: Backup) {
    forall i | 0 <= i < |b.tree| && Leads(b.tree, i) :: !Decide(b, i).Throw?
  }

  function NextId(b: Backup): nat {
    b.firstId + StoredBefore(b, |b.tree|)
  }

  function NewArchive(b: Backup): Archive {
    Archive(
      Manifest(b.version, b.firstId, NextId(b),
               set i | 0 <= i < |b.tree| && Dependency(b, i).Some? :: Dependency(b, i).value),
      seq(|b.tree|, i requires 0 <= i < |b.tree| => Written(b, i)),
      Range(b.firstId, NextId(b)))
  }

  // ---------- the invariant ----------

  predicate DistinctPaths(objects: seq<Fso>) {
    forall i, j | 0 <= i < j < |objects| :: objects[i].path != objects[j].path
  }

  /** The data of object o of version v is where its LatestVersion says: in this archive or in a dependency. */
  predicate Located(archives: seq<Archive>, v: nat, o: Fso)
    requires v < |archives|
  {
    o.latestVersion >= 0 ==>
      && (o.latestVersion == v || o.latestVersion in archives[v].manifest.versionDependencies)
      && o.latestVersion < |archives|
      && o.streamUniqueId in archives[o.latestVersion].streamIds
  }

  ghost predicate ArchiveValid(archives: seq<Archive>, v: nat)
    requires v < |archives|
  {
    var m := archives[v].manifest;
    && m.versionNumber == v
    && FIRST_STREAM_ID <= m.firstStreamUniqueId <= m.nextStreamUniqueId
    && m.firstStreamUniqueId == (if v == 0 then FIRST_STREAM_ID else archives[v - 1].manifest.nextStreamUniqueId)
    && archives[v].streamIds == Range(m.firstStreamUniqueId, m.nextStreamUniqueId)
    && (forall d | d in m.versionDependencies :: 0 <= d < v)
    && (forall o | o in archives[v].objects ::
          Located(archives, v, o) && o.streamUniqueId < m.nextStreamUniqueId)
  }

  ghost predicate ChainValid(archives: seq<Archive>) {
    forall v: nat | v < |archives| :: ArchiveValid(archives, v)
  }

  /** What a file system promises of a tree: objects with one GUID are all hardlinks. */
  predicate TreeValid(tree: seq<Fso>) {
    forall i, j | 0 <= i < j < |tree| && tree[i].guid.Some? && tree[i].guid == tree[j].guid ::
      tree[i].kind.FileHardlink? && tree[j].kind.FileHardlink?
  }

  /** A leader whose mode was set to Unmodified although it has changed: it will claim the new version without
      having data there. */
  predicate Lies(b: Backup, i: nat)
    requires i < |b.tree|
  {
    Leads(b.tree, i) && b.previous.Some? && b.tree[i].mode.Unmodified? && HasChanged(b, i)
  }

  predicate Honest(b: Backup) {
    forall i | 0 <= i < |b.tree| :: !Lies(b, i)
  }

  /** The backup of a tree on top of a chain. */
  ghost predicate Follows(b: Backup, archives: seq<Archive>) {
    && b.version == |archives|
    && TreeValid(b.tree)
    && (forall o | o in b.tree :: o.streamUniqueId == 0)
    && (archives == [] ==> b.previous == None && b.firstId == FIRST_STREAM_ID)
    && (archives != [] ==>
          && b.previous == Some(archives[|archives| - 1].objects)
          && b.firstId == archives[|archives| - 1].manifest.nextStreamUniqueId)
  }

  lemma StoredMonotone(b: Backup, i: nat, k: nat)
    requires i <= k <= |b.tree|
    ensures StoredBefore(b, i) <= StoredBefore(b, k)
    decreases k
  {
    if i < k {
      StoredMonotone(b, i, k - 1);
    }
  }

  lemma LeaderLeads(tree: seq<Fso>, i: nat)
    requires i < |tree| && LeaderOf(tree, i).Some?
    ensures Leads(tree, LeaderOf(tree, i).value)
  {
    var l := LeaderOf(tree, i).value;
    if l < i && tree[l].guid.Some? {
      var known := FirstWithGuid(tree, tree[l].guid.value, l);
    }
  }

  /** A stored leader gets an id of this archive's own range. */
  lemma StoredIdInRange(b: Backup, l: nat)
    requires l < |b.tree| && Leads(b.tree, l) && Decide(b, l).Store?
    ensures b.firstId <= IdOf(b, l) < NextId(b)
  {
    StoredMonotone(b, l + 1, |b.tree|);
  }

  /** Appending an archive does not disturb the older ones. */
  lemma OlderStayValid(archives: seq<Archive>, a: Archive, v: nat)
    requires v < |archives| && ArchiveValid(archives, v)
    ensures ArchiveValid(archives + [a], v)
  {
    forall o | o in archives[v].objects
      ensures Located(archives + [a], v, o) && o.streamUniqueId < archives[v].manifest.nextStreamUniqueId
    {
      assert Located(archives, v, o);
    }
  }

  /** An unchanged leader refers to the archive that has its old data. */
  lemma ReferenceLocated(b: Backup, archives: seq<Archive>, l: nat)
    requires Follows(b, archives) && ChainValid(archives) && archives != []
    requires l < |b.tree| && Leads(b.tree, l) && Decide(b, l).Reference? && !HasChanged(b, l)
    ensures var w := VersionOf(b, l);
            w >= 0 ==> w < |archives| && IdOf(b, l) in archives[w].streamIds
  {
    var last := |archives| - 1;
    assert ArchiveValid(archives, last);
    var before := OldSelf(b, l).value;
    assert before in archives[last].objects;
    assert Located(archives, last, before);
  }

  /** An id carried over from the previous version is below the ids of this one. */
  lemma PresetBelow(b: Backup, archives: seq<Archive>, i: nat)
    requires Follows(b, archives) && ChainValid(archives) && i < |b.tree|
    ensures PresetId(b, i) < b.firstId
  {
    assert b.tree[i] in b.tree;
    if archives != [] {
      assert ArchiveValid(archives, |archives| - 1);
    }
  }

  lemma WrittenBelow(b: Backup, archives: seq<Archive>, i: nat)
    requires Follows(b, archives) && ChainValid(archives) && i < |b.tree|
    ensures Written(b, i).streamUniqueId < NextId(b)
  {
    PresetBelow(b, archives, i);
    var l := LeaderOf(b.tree, i);
    if l.Some? {
      LeaderLeads(b.tree, i);
      PresetBelow(b, archives, l.value);
      if Decide(b, l.value).Store? {
        StoredIdInRange(b, l.value);
      }
    }
  }

  lemma WrittenLocated(b: Backup, archives: seq<Archive>, i: nat)
    requires Follows(b, archives) && ChainValid(archives) && i < |b.tree|
    requires Honest(b) && Succeeds(b)
    ensures Located(archives + [NewArchive(b)], b.version, Written(b, i))
  {
    var l := LeaderOf(b.tree, i);
    if l.Some? {
      LeaderLeads(b.tree, i);
      assert !Lies(b, l.value);
      assert !Decide(b, l.value).Throw?;
      if Decide(b, l.value).Store? {
        StoredIdInRange(b, l.value);
      } else {
        ReferenceLocated(b, archives, l.value);
        assert VersionOf(b, l.value) >= 0 ==> Dependency(b, i) == Some(VersionOf(b, l.value));
      }
    }
  }

  lemma DependencyEarlier(b: Backup, archives: seq<Archive>, i: nat)
    requires Follows(b, archives) && ChainValid(archives) && i < |b.tree|
    requires Honest(b) && Dependency(b, i).Some?
    ensures 0 <= Dependency(b, i).value < b.version
  {
    var l := LeaderOf(b.tree, i).value;
    LeaderLeads(b.tree, i);
    assert !Lies(b, l);
    ReferenceLocated(b, archives, l);
  }

  lemma DependenciesEarlier(b: Backup, archives: seq<Archive>)
    requires Follows(b, archives) && ChainValid(archives) && Honest(b)
    ensures forall d | d in NewArchive(b).manifest.versionDependencies :: 0 <= d < b.version
  {
    hide Follows, ChainValid, Honest, Dependency;
    forall d | d in NewArchive(b).manifest.versionDependencies
      ensures 0 <= d < b.version
    {
      var i :| 0 <= i < |b.tree| && Dependency(b, i).Some? && Dependency(b, i).value == d;
      DependencyEarlier(b, archives, i);
    }
  }

  lemma ObjectsLocated(b: Backup, archives: seq<Archive>)
    requires Follows(b, archives) && ChainValid(archives) && Succeeds(b) && Honest(b)
    ensures forall o | o in NewArchive(b).objects ::
              Located(archives + [NewArchive(b)], b.version, o) && o.streamUniqueId < NextId(b)
  {
    assert b.version == |archives|;
    hide Follows, ChainValid, Honest, Succeeds, Written, Located;
    forall o | o in NewArchive(b).objects
      ensures Located(archives + [NewArchive(b)], b.version, o) && o.streamUniqueId < NextId(b)
    {
      var i :| 0 <= i < |b.tree| && o == Written(b, i);
      WrittenLocated(b, archives, i);
      WrittenBelow(b, archives, i);
    }
  }

  lemma NewArchiveValid(b: Backup, archives: seq<Archive>)
    requires Follows(b, archives) && ChainValid(archives) && Succeeds(b) && Honest(b)
    ensures ArchiveValid(archives + [NewArchive(b)], b.version)
  {
    DependenciesEarlier(b, archives);
    ObjectsLocated(b, archives);
    hide Located, Honest, Succeeds, Dependency, Written, StoredBefore;
    if archives != [] {
      assert ArchiveValid(archives, |archives| - 1);
    }
  }

  /** A backup of an honest tree keeps the chain valid. */
  lemma HonestKeepsChain(b: Backup, archives: seq<Archive>)
    requires Follows(b, archives) && ChainValid(archives) && Succeeds(b) && Honest(b)
    ensures ChainValid(archives + [NewArchive(b)])
  {
    NewArchiveValid(b, archives);
    hide NewArchive, Honest, Succeeds, ArchiveValid;
    forall v: nat | v < |archives + [NewArchive(b)]|
      ensures ArchiveValid(archives + [NewArchive(b)], v)
    {
      if v < |archives| {
        OlderStayValid(archives, NewArchive(b), v);
      }
    }
  }

  /** Ids of earlier versions are below the first id of the next backup. */
  lemma {:induction false} IdsBelow(archives: seq<Archive>, v: nat, w: nat)
    requires ChainValid(archives) && v <= w < |archives|
    ensures archives[v].manifest.nextStreamUniqueId <= archives[w].manifest.nextStreamUniqueId
    ensures v < w ==> archives[v].manifest.nextStreamUniqueId <= archives[w].manifest.firstStreamUniqueId
    decreases w
  {
    assert ArchiveValid(archives, w);
    if v < w {
      IdsBelow(archives, v, w - 1);
    }
  }

  /** A changed file whose mode was set to Unmodified breaks the chain: it claims the new version, whose archive
      does not have its id. */
  lemma LieBreaksChain(b: Backup, archives: seq<Archive>, i: nat)
    requires Follows(b, archives) && ChainValid(archives) && i < |b.tree| && Lies(b, i)
    ensures !ChainValid(archives + [NewArchive(b)])
  {
    var after := archives + [NewArchive(b)];
    var v := |archives|;
    PresetBelow(b, archives, i);
    assert Written(b, i).latestVersion == v && Written(b, i).streamUniqueId < b.firstId;
    assert Written(b, i) == after[v].objects[i] && Written(b, i) in after[v].objects;
    if ArchiveValid(after, v) {
      assert false;
    }
  }

  /** A successful backup keeps the chain valid exactly when no changed file was marked Unmodified. */
  lemma KeepsChainIff(b: Backup, archives: seq<Archive>)
    requires Follows(b, archives) && ChainValid(archives) && Succeeds(b)
    ensures ChainValid(archives + [NewArchive(b)]) <==> Honest(b)
  {
    if Honest(b) {
      HonestKeepsChain(b, archives);
    } else {
      var i :| 0 <= i < |b.tree| && Lies(b, i);
      LieBreaksChain(b, archives, i);
    }
  }

  // ---------- every run of backups ----------

  function BackupOf(archives: seq<Archive>, tree: seq<Fso>, changed: Changed): Backup {
    if archives == [] then Backup(0, FIRST_STREAM_ID, tree, None, changed)
    else
      var last := archives[|archives| - 1];
      Backup(|archives|, last.manifest.nextStreamUniqueId, tree, Some(last.objects), changed)
  }

  /** One call of PerformBackup: what the source locations hold then, and the criterion of that engine. */
  datatype Session = Session(tree: seq<Fso>, changed: Changed)

  /** One backup after the other; one that throws leaves no archive. */
  function RunBackups(sessions: seq<Session>): seq<Archive> {
    if |sessions| == 0 then []
    else
      var n := |sessions| - 1;
      var before := RunBackups(sessions[..n]);
      var b := BackupOf(before, sessions[n].tree, sessions[n].changed);
      if Succeeds(b) then before + [NewArchive(b)] else before
  }

  /** A tree as the file system and GetBackupModeForObject give it: no stream ids yet, one object to a path,
      hardlinks share GUIDs, and Unmodified, which is the engine's own mark, is not used as a mode. */
  predicate FreshTree(tree: seq<Fso>) {
    && TreeValid(tree)
    && DistinctPaths(tree)
    && forall o | o in tree :: o.streamUniqueId == 0 && !o.mode.Unmodified?
  }

  /** After any run of backups, with any adds, deletes, edits and hardlinks in between, the data of every object
      is in the archive its LatestVersion names, which is its own version or one of its dependencies;
      dependencies name strictly earlier versions; and stream ids are never reused. */
  lemma {:induction false} EveryRunIsValid(sessions: seq<Session>)
    requires forall s | s in sessions :: FreshTree(s.tree)
    ensures ChainValid(RunBackups(sessions))
    decreases |sessions|
  {
    if |sessions| > 0 {
      var earlier, last := sessions[..|sessions| - 1], sessions[|sessions| - 1];
      EveryRunIsValid(earlier);
      var before := RunBackups(earlier);
      var b := BackupOf(before, last.tree, last.changed);
      assert FreshTree(last.tree);
      if Succeeds(b) {
        assert forall i | 0 <= i < |b.tree| :: b.tree[i] in b.tree;
        HonestKeepsChain(b, before);
      }
    }
  }

  // ---------- what restore relies on ----------

  /** Of the archives restore opens for version v, v itself and its direct dependencies, exactly one has the
      stream of an object: the one its LatestVersion names. */
  lemma ExactlyOneArchive(archives: seq<Archive>, v: nat, o: Fso, u: int)
    requires ChainValid(archives) && v < |archives| && o in archives[v].objects && o.latestVersion >= 0
    requires u == v || u in archives[v].manifest.versionDependencies
    ensures 0 <= u < |archives|
    ensures o.streamUniqueId in archives[u].streamIds <==> u == o.latestVersion
    ensures o.latestVersion == v || o.latestVersion in archives[v].manifest.versionDependencies
  {
    assert ArchiveValid(archives, v);
    assert Located(archives, v, o);
    var w := o.latestVersion;
    assert ArchiveValid(archives, u);
    assert ArchiveValid(archives, w);
    if u < w {
      IdsBelow(archives, u, w);
    } else if w < u {
      IdsBelow(archives, w, u);
    }
  }

  /** Hardlinks to one file that are both in the backup share its stream: one id and one version. */
  lemma HardlinksShareStream(b: Backup, i: nat, j: nat)
    requires TreeValid(b.tree) && i < j < |b.tree| && Addable(b.tree[i]) && Addable(b.tree[j])
    requires b.tree[i].guid.Some? && b.tree[i].guid == b.tree[j].guid
    ensures LeaderOf(b.tree, i) == LeaderOf(b.tree, j)
    ensures Written(b, i).streamUniqueId == Written(b, j).streamUniqueId
    ensures Written(b, i).latestVersion == Written(b, j).latestVersion
  {
    var g := b.tree[i].guid.value;
    var early, late := FirstWithGuid(b.tree, g, i), FirstWithGuid(b.tree, g, j);
    if early.Some? {
      assert late.Some? && late.value == early.value by {
        assert late.Some?;
        assert !(late.value < early.value) && !(early.value < late.value);
      }
    } else {
      assert late.Some?;
      assert !(late.value < i) && !(i < late.value);
    }
  }

  // ---------- what is left out ----------

  /** In one backup: the leader of a stream gets no data exactly when it is judged unchanged against an old self that
      had none. */
  lemma LeftOutIff(b: Backup, i: nat)
    requires i < |b.tree| && Leads(b.tree, i) && !Decide(b, i).Throw? && !Lies(b, i)
    ensures Written(b, i).latestVersion < 0 <==>
      && b.previous.Some? && !b.tree[i].mode.ForceFull? && !HasChanged(b, i)
      && OldSelf(b, i).value.latestVersion < 0
  {
  }

  /** The backups of a run that succeeded. */
  function Succeeded(sessions: seq<Session>): seq<Backup> {
    if |sessions| == 0 then []
    else
      var n := |sessions| - 1;
      var b := BackupOf(RunBackups(sessions[..n]), sessions[n].tree, sessions[n].changed);
      Succeeded(sessions[..n]) + if Succeeds(b) then [b] else []
  }

  /** Version v is what backup v wrote, on top of version v - 1. */
  ghost predicate Wrote(backups: seq<Backup>, archives: seq<Archive>, v: nat)
    requires v < |backups| == |archives|
  {
    && archives[v] == NewArchive(backups[v])
    && Succeeds(backups[v])
    && FreshTree(backups[v].tree)
    && backups[v].version == v
    && backups[v].previous == if v == 0 then None else Some(archives[v - 1].objects)
  }

  lemma {:induction false} RunHistory(sessions: seq<Session>)
    requires forall s | s in sessions :: FreshTree(s.tree)
    ensures |Succeeded(sessions)| == |RunBackups(sessions)|
    ensures forall v: nat | v < |Succeeded(sessions)| :: Wrote(Succeeded(sessions), RunBackups(sessions), v)
    decreases |sessions|
  {
    if |sessions| > 0 {
      var earlier, last := sessions[..|sessions| - 1], sessions[|sessions| - 1];
      RunHistory(earlier);
      assert FreshTree(last.tree);
      hide NewArchive, Succeeds, FreshTree;
      var backups, archives := Succeeded(sessions), RunBackups(sessions);
      forall v: nat | v < |backups|
        ensures Wrote(backups, archives, v)
      {
        if v < |Succeeded(earlier)| {
          assert Wrote(Succeeded(earlier), RunBackups(earlier), v);
        }
      }
    }
  }

  /** Going back from object i of version v, from leaders judged unchanged to their old selves, one comes to an object
      that belonged to no stream: a directory, a link, or one that was not to be backed up. */
  ghost predicate ReachesStreamless(backups: seq<Backup>, v: nat, i: nat)
    requires v < |backups| && i < |backups[v].tree|
    decreases v, 0
  {
    var b, l := backups[v], LeaderOf(backups[v].tree, i);
    l.None? ||
    (v > 0 && !b.tree[l.value].mode.ForceFull? && !HasChanged(b, l.value) &&
     PathReachesStreamless(backups, v - 1, b.tree[l.value].path))
  }

  ghost predicate PathReachesStreamless(backups: seq<Backup>, v: nat, path: Path)
    requires v < |backups|
    decreases v, 1
  {
    exists j: nat :: StandsAt(backups[v].tree, j, path) && ReachesStreamless(backups, v, j)
  }

  predicate StandsAt(tree: seq<Fso>, j: nat, path: Path) {
    j < |tree| && tree[j].path == path
  }

  lemma WrittenPaths(b: Backup)
    ensures var objects := NewArchive(b).objects;
            && |objects| == |b.tree|
            && (forall j | 0 <= j < |objects| :: objects[j] == Written(b, j) && objects[j].path == b.tree[j].path)
            && (DistinctPaths(b.tree) ==> DistinctPaths(objects))
  {
  }

  /** In the archive of a tree with distinct paths, a search finds what became of the object at the path. */
  lemma FindsWritten(b: Backup, path: Path)
    requires DistinctPaths(b.tree)
    ensures FindPath(NewArchive(b).objects, path).None? ==> forall j: nat :: !StandsAt(b.tree, j, path)
    ensures FindPath(NewArchive(b).objects, path).Some? ==>
      exists j: nat :: StandsAt(b.tree, j, path) && FindPath(NewArchive(b).objects, path).value == Written(b, j)
    ensures forall j: nat, k: nat | StandsAt(b.tree, j, path) && StandsAt(b.tree, k, path) :: j == k
  {
    WrittenPaths(b);
    var objects := NewArchive(b).objects;
    hide NewArchive, Written;
    var found := FindPath(objects, path);
    if found.Some? {
      var k :| 0 <= k < |objects| && objects[k] == found.value;
      assert StandsAt(b.tree, k, path);
    } else {
      forall j: nat | j < |objects|
        ensures objects[j].path != path
      {
        assert objects[j] in objects;
      }
    }
  }

  /** Over every run: the data of an object is nowhere if and only if going back along unchanged old selves leads to an
      object that belonged to no stream. */
  lemma {:induction false} LeftOutOverRunsIff(backups: seq<Backup>, archives: seq<Archive>, v: nat, i: nat)
    requires |backups| == |archives| && forall w: nat | w < |backups| :: Wrote(backups, archives, w)
    requires v < |backups| && i < |backups[v].tree|
    ensures i < |archives[v].objects|
    ensures archives[v].objects[i].latestVersion < 0 <==> ReachesStreamless(backups, v, i)
    decreases v, 1
  {
    var b, l := backups[v], LeaderOf(backups[v].tree, i);
    assert Wrote(backups, archives, v);
    WrittenPaths(b);
    hide NewArchive;
    if l.Some? {
      LeaderLeads(b.tree, i);
      FreshLeader(b, l.value);
      LeftOutIff(b, l.value);
      assert Written(b, i).latestVersion == Written(b, l.value).latestVersion;
      hide Written, LeaderOf, Decide;
      if v > 0 && !HasChanged(b, l.value) {
        assert Wrote(backups, archives, v - 1);
        OldSelfLeftOutIff(backups, archives, v, l.value);
      }
    }
  }

  lemma {:induction false} OldSelfLeftOutIff(backups: seq<Backup>, archives: seq<Archive>, v: nat, l: nat)
    requires |backups| == |archives| && forall w: nat | w < |backups| :: Wrote(backups, archives, w)
    requires 0 < v < |backups| && l < |backups[v].tree| && OldSelf(backups[v], l).Some?
    ensures OldSelf(backups[v], l).value.latestVersion < 0
       <==> PathReachesStreamless(backups, v - 1, backups[v].tree[l].path)
    decreases v, 0
  {
    var j := OldSelfIndex(backups, archives, v, l);
    hide Wrote, OldSelf, ReachesStreamless;
    LeftOutOverRunsIff(backups, archives, v - 1, j);
  }

  predicate OnlyAt(tree: seq<Fso>, j: nat, path: Path) {
    forall k: nat | k < |tree| && tree[k].path == path :: k == j
  }

  /** Where the old self of an object stood in the tree of the version before. */
  lemma OldSelfIndex(backups: seq<Backup>, archives: seq<Archive>, v: nat, l: nat) returns (j: nat)
    requires |backups| == |archives| && forall w: nat | w < |backups| :: Wrote(backups, archives, w)
    requires 0 < v < |backups| && l < |backups[v].tree| && OldSelf(backups[v], l).Some?
    ensures StandsAt(backups[v - 1].tree, j, backups[v].tree[l].path) && j < |archives[v - 1].objects|
    ensures OldSelf(backups[v], l).value == archives[v - 1].objects[j]
    ensures OnlyAt(backups[v - 1].tree, j, backups[v].tree[l].path)
  {
    var earlier, path := backups[v - 1], backups[v].tree[l].path;
    assert Wrote(backups, archives, v) && Wrote(backups, archives, v - 1);
    WrittenPaths(earlier);
    FindsWritten(earlier, path);
    hide NewArchive, Written, Succeeds;
    j :| StandsAt(earlier.tree, j, path) && OldSelf(backups[v], l).value == Written(earlier, j);
  }

  lemma FreshLeader(b: Backup, l: nat)
    requires FreshTree(b.tree) && Succeeds(b) && l < |b.tree| && Leads(b.tree, l)
    ensures !Decide(b, l).Throw? && !Lies(b, l)
  {
    assert b.tree[l] in b.tree;
  }

  /** The same said of a run of sessions, for an object that should have data. */
  lemma LeftOutOfRunIff(sessions: seq<Session>, v: nat, i: nat)
    requires forall s | s in sessions :: FreshTree(s.tree)
    requires v < |Succeeded(sessions)| && i < |Succeeded(sessions)[v].tree|
    ensures |RunBackups(sessions)| == |Succeeded(sessions)|
    ensures |RunBackups(sessions)[v].objects| == |Succeeded(sessions)[v].tree|
    ensures RunBackups(sessions)[v].objects[i].latestVersion < 0 <==> ReachesStreamless(Succeeded(sessions), v, i)
  {
    RunHistory(sessions);
    assert Wrote(Succeeded(sessions), RunBackups(sessions), v);
    WrittenPaths(Succeeded(sessions)[v]);
    LeftOutOverRunsIff(Succeeded(sessions), RunBackups(sessions), v, i);
  }

  function DateChanged(path: Path, newFile: FileData, oldFile: FileData): bool {
    newFile.modificationTime != oldFile.modificationTime
  }

  /** The failing input: a directory is replaced by a file with the same modification time, and the criterion is
      the date. The second backup stores nothing for the file. */
  lemma FileInPlaceOfDirectoryIsLeftOut()
    ensures var data := FileData(5, 7, false, 1);
            var dir := Fso("a", DirectoryObject, None, Directory, data, 0, 0);
            var file := Fso("a", RegularFile, None, Full, data, 0, 0);
            var archives := RunBackups([Session([dir], DateChanged), Session([file], DateChanged)]);
            && FreshTree([dir]) && FreshTree([file])
            && |archives| == 2 && |archives[1].objects| == 1
            && Addable(file) && archives[1].objects[0].latestVersion == -1
            && archives[1].streamIds == []
  {
    var data := FileData(5, 7, false, 1);
    var dir := Fso("a", DirectoryObject, None, Directory, data, 0, 0);
    var file := Fso("a", RegularFile, None, Full, data, 0, 0);
    var b0 := BackupOf([], [dir], DateChanged);
    assert LeaderOf([dir], 0) == None;
    var a0 := NewArchive(b0);
    var first, second := Session([dir], DateChanged), Session([file], DateChanged);
    assert [first, second][..1] == [first] && [first][..0] == [];
    assert RunBackups([first]) == [] + [a0];
    assert a0.objects == [Written(b0, 0)];
    var b1 := BackupOf([a0], [file], DateChanged);
    assert OldSelf(b1, 0) == Some(a0.objects[0]);
    assert !HasChanged(b1, 0);
    assert Decide(b1, 0) == Reference(-1);
    assert StoredBefore(b1, 1) == StoredBefore(b1, 0) == 0;
    assert [] + [a0] == [a0];
    assert Succeeds(b1);
  }

  /** A lying backup: a file is stored, changes, and is then marked Unmodified from outside. The second backup
      succeeds, and the chain is no longer valid. */
  lemma LyingBackup()
    ensures var file := Fso("a", RegularFile, None, Full, FileData(5, 7, false, 1), 0, 0);
            var edited := file.(mode := Unmodified, data := FileData(5, 8, false, 2));
            var archives := RunBackups([Session([file], DateChanged)]);
            var b := BackupOf(archives, [edited], DateChanged);
            && |archives| == 1 && ChainValid(archives)
            && Succeeds(b) && Lies(b, 0)
            && !ChainValid(archives + [NewArchive(b)])
  {
    var file := Fso("a", RegularFile, None, Full, FileData(5, 7, false, 1), 0, 0);
    var edited := file.(mode := Unmodified, data := FileData(5, 8, false, 2));
    var first := Session([file], DateChanged);
    var b0 := BackupOf([], [file], DateChanged);
    var a0 := NewArchive(b0);
    assert Decide(b0, 0).Store? && Succeeds(b0);
    assert [first][..0] == [];
    assert RunBackups([first]) == [] + [a0] == [a0];
    EveryRunIsValid([first]);
    var b := BackupOf([a0], [edited], DateChanged);
    assert a0.objects == [Written(b0, 0)];
    assert OldSelf(b, 0) == Some(a0.objects[0]);
    assert HasChanged(b, 0) && Leads(b.tree, 0);
    assert Lies(b, 0) && Succeeds(b);
    LieBreaksChain(b, [a0], 0);
  }
}
