/** What an archive must hold, said of the trees, the change criteria and the archives alone: which objects get their
    data stored, what the others refer to, whose stream an id is, and which versions a manifest lists. Every archive
    of every run meets it. */
module BackupMeaning {
  import opened ByteStrings
  import opened BackupSpec

  /** A file, reparse point or hardlink that is to be backed up. */
  predicate HasContents(o: Fso) {
    && !o.kind.IsDirectoryish()
    && (o.kind.IsLinkish() ==> o.kind.FileHardlink?)
    && !o.mode.NoBackup?
  }

  predicate SameFile(a: Fso, b: Fso) {
    a.guid.Some? && a.guid == b.guid
  }

  /** The first object with contents under its GUID. */
  predicate Starts(tree: seq<Fso>, i: nat)
    requires i < |tree|
  {
    HasContents(tree[i]) && forall j | 0 <= j < i :: !(HasContents(tree[j]) && SameFile(tree[j], tree[i]))
  }

  /** A later hardlink to the file of object j. */
  predicate Joins(tree: seq<Fso>, i: nat, j: nat)
    requires i < |tree|
  {
    j < i && Starts(tree, j) && SameFile(tree[j], tree[i])
  }

  /** Object o stood at the path in the latest archive. */
  predicate OldAt(before: seq<Archive>, path: Path, o: Fso) {
    before != [] && o in before[|before| - 1].objects && o.path == path
  }

  /** The data must be stored again: there is no version yet, the mode forces it, or no object stood at the path that
      the criterion calls unchanged. */
  ghost predicate NeedsData(before: seq<Archive>, s: Session, i: nat)
    requires i < |s.tree|
  {
    var o := s.tree[i];
    || before == []
    || o.mode.ForceFull?
    || forall stood | OldAt(before, o.path, stood) :: s.changed(o.path, o.data, stood.data)
  }

  ghost predicate StoresData(before: seq<Archive>, s: Session, i: nat) {
    i < |s.tree| && Starts(s.tree, i) && NeedsData(before, s, i)
  }

  /** The backup throws: an object whose data must be stored again has a mode that is not implemented for files. */
  ghost predicate Throws(before: seq<Archive>, s: Session) {
    before != [] &&
    exists i: nat :: StoresData(before, s, i) && !s.tree[i].mode.Full? && !s.tree[i].mode.ForceFull?
  }

  // ---------- what an archive must hold ----------

  /** Every object of the tree, with its path, kind, GUID and data. */
  predicate HoldsTree(s: Session, a: Archive) {
    && |a.objects| == |s.tree|
    && forall i | 0 <= i < |s.tree| ::
         && a.objects[i].path == s.tree[i].path && a.objects[i].kind == s.tree[i].kind
         && a.objects[i].guid == s.tree[i].guid && a.objects[i].data == s.tree[i].data
  }

  predicate SameStream(a: Fso, b: Fso) {
    a.streamUniqueId == b.streamUniqueId && a.latestVersion == b.latestVersion
  }

  /** Data that must be stored is in this archive. */
  ghost predicate StoresWhatItMust(before: seq<Archive>, s: Session, a: Archive)
    requires |a.objects| == |s.tree|
  {
    forall i: nat | StoresData(before, s, i) ::
      a.objects[i].latestVersion == |before| && a.objects[i].streamUniqueId in a.streamIds
  }

  /** Other data is where it was: id and version are those of the object that stood at the path. */
  ghost predicate KeepsTheRest(before: seq<Archive>, s: Session, a: Archive)
    requires |a.objects| == |s.tree|
  {
    forall i: nat, o: Fso |
      i < |s.tree| && Starts(s.tree, i) && !NeedsData(before, s, i) && OldAt(before, s.tree[i].path, o) ::
      SameStream(a.objects[i], o)
  }

  /** Hardlinks have the stream of the first one. */
  ghost predicate SharesStreams(s: Session, a: Archive)
    requires |a.objects| == |s.tree|
  {
    forall i: nat, j: nat | i < |s.tree| && Joins(s.tree, i, j) :: SameStream(a.objects[i], a.objects[j])
  }

  /** An object without contents has no version, and the id of the object that stood at its path, if any. */
  ghost predicate NoStreamForOthers(before: seq<Archive>, s: Session, a: Archive)
    requires |a.objects| == |s.tree|
  {
    forall i: nat | i < |s.tree| && !Starts(s.tree, i) && (forall j: nat :: !Joins(s.tree, i, j)) ::
      && a.objects[i].latestVersion == -1
      && (forall o | OldAt(before, s.tree[i].path, o) :: a.objects[i].streamUniqueId == o.streamUniqueId)
      && ((forall o :: !OldAt(before, s.tree[i].path, o)) ==> a.objects[i].streamUniqueId == s.tree[i].streamUniqueId)
  }

  /** The archive has one stream for each object whose data must be stored, with ids in the order of the objects, and
      no other. */
  ghost predicate OneStreamEach(before: seq<Archive>, s: Session, a: Archive)
    requires |a.objects| == |s.tree|
  {
    && (forall i: nat, j: nat | i < j && StoresData(before, s, i) && StoresData(before, s, j) ::
          a.objects[i].streamUniqueId < a.objects[j].streamUniqueId)
    && (forall id | id in a.streamIds ::
          exists i: nat :: StoresData(before, s, i) && a.objects[i].streamUniqueId == id)
  }

  /** The manifest lists exactly the earlier versions that objects refer to. */
  ghost predicate ListsDependencies(before: seq<Archive>, a: Archive) {
    forall d: int ::
      d in a.manifest.versionDependencies <==>
      0 <= d < |before| && exists o :: o in a.objects && o.latestVersion == d
  }

  ghost predicate Records(before: seq<Archive>, s: Session, a: Archive) {
    && HoldsTree(s, a)
    && StoresWhatItMust(before, s, a)
    && KeepsTheRest(before, s, a)
    && SharesStreams(s, a)
    && NoStreamForOthers(before, s, a)
    && OneStreamEach(before, s, a)
    && ListsDependencies(before, a)
  }

  // ---------- every backup records what it must ----------

  /** What the proofs below know of a backup. */
  ghost predicate Ready(before: seq<Archive>, s: Session) {
    && ChainValid(before)
    && FreshTree(s.tree)
    && (before != [] ==> DistinctPaths(before[|before| - 1].objects))
  }

  lemma Addables(o: Fso)
    ensures HasContents(o) <==> Addable(o)
  {
  }

  lemma StartsLead(tree: seq<Fso>, i: nat)
    requires i < |tree|
    ensures Starts(tree, i) <==> Leads(tree, i)
  {
    if tree[i].guid.Some? {
      var known := FirstWithGuid(tree, tree[i].guid.value, i);
      forall j | 0 <= j < i
        ensures HasContents(tree[j]) && SameFile(tree[j], tree[i]) ==> known.Some?
      {
      }
      if known.Some? {
        assert HasContents(tree[known.value]) && SameFile(tree[known.value], tree[i]);
      }
    }
  }

  lemma FollowersJoin(tree: seq<Fso>, i: nat)
    requires i < |tree| && TreeValid(tree)
    ensures forall j: nat :: Joins(tree, i, j) <==> j < i && LeaderOf(tree, i) == Some(j)
  {
    forall j: nat
      ensures Joins(tree, i, j) <==> j < i && LeaderOf(tree, i) == Some(j)
    {
      if j < i && SameFile(tree[j], tree[i]) {
        StartsLead(tree, j);
        var known := FirstWithGuid(tree, tree[i].guid.value, i);
        if Starts(tree, j) {
          assert known.Some? && !(known.value < j) && !(j < known.value);
          assert tree[i].kind.FileHardlink?;
        } else if LeaderOf(tree, i) == Some(j) {
          LeaderLeads(tree, i);
        }
      }
    }
  }

  lemma OldSelfIs(before: seq<Archive>, s: Session, i: nat, o: Fso)
    requires Ready(before, s) && i < |s.tree| && OldAt(before, s.tree[i].path, o)
    ensures OldSelf(BackupOf(before, s.tree, s.changed), i) == Some(o)
  {
    var objects := before[|before| - 1].objects;
    var found := FindPath(objects, s.tree[i].path).value;
    var j, k :| 0 <= j < |objects| && 0 <= k < |objects| && objects[j] == o && objects[k] == found;
  }

  lemma OldSelfStood(before: seq<Archive>, s: Session, i: nat)
    requires i < |s.tree|
    ensures var found := OldSelf(BackupOf(before, s.tree, s.changed), i);
            found.Some? ==> OldAt(before, s.tree[i].path, found.value)
  {
  }

  lemma NeedsDataIs(before: seq<Archive>, s: Session, i: nat)
    requires Ready(before, s) && i < |s.tree|
    ensures var b := BackupOf(before, s.tree, s.changed);
            NeedsData(before, s, i) <==> before == [] || s.tree[i].mode.ForceFull? || HasChanged(b, i)
  {
    OldSelfStood(before, s, i);
    forall o | OldAt(before, s.tree[i].path, o)
      ensures OldSelf(BackupOf(before, s.tree, s.changed), i) == Some(o)
    {
      OldSelfIs(before, s, i, o);
    }
  }

  /** A leader's decision, in terms of what must be stored. */
  lemma DecisionIs(before: seq<Archive>, s: Session, i: nat)
    requires Ready(before, s) && i < |s.tree|
    ensures var b, mode := BackupOf(before, s.tree, s.changed), s.tree[i].mode;
            && (Decide(b, i).Store? <==> NeedsData(before, s, i) && (before == [] || mode.Full? || mode.ForceFull?))
            && (Decide(b, i).Reference? <==> !NeedsData(before, s, i))
            && (Decide(b, i).Reference? ==> !HasChanged(b, i))
  {
    NeedsDataIs(before, s, i);
    assert s.tree[i] in s.tree;
  }

  /** A backup throws exactly when it should. */
  lemma ThrowsIff(before: seq<Archive>, s: Session)
    requires Ready(before, s)
    ensures Succeeds(BackupOf(before, s.tree, s.changed)) <==> !Throws(before, s)
  {
    forall i: nat | i < |s.tree|
      ensures Leads(s.tree, i) && Decide(BackupOf(before, s.tree, s.changed), i).Throw? <==>
        before != [] && StoresData(before, s, i) && !s.tree[i].mode.Full? && !s.tree[i].mode.ForceFull?
    {
      StartsLead(s.tree, i);
      DecisionIs(before, s, i);
    }
    hide Decide, Leads, StoresData;
  }

  lemma StoresIs(before: seq<Archive>, s: Session, i: nat)
    requires Ready(before, s) && Succeeds(BackupOf(before, s.tree, s.changed)) && i < |s.tree|
    ensures var b := BackupOf(before, s.tree, s.changed);
            StoresData(before, s, i) <==> Leads(b.tree, i) && Decide(b, i).Store?
  {
    StartsLead(s.tree, i);
    DecisionIs(before, s, i);
  }

  /** What a backup that may write relies on. */
  ghost predicate MayWrite(before: seq<Archive>, s: Session) {
    Ready(before, s) && Succeeds(BackupOf(before, s.tree, s.changed))
  }

  lemma FreshIsHonest(before: seq<Archive>, s: Session)
    requires Ready(before, s)
    ensures var b := BackupOf(before, s.tree, s.changed); Honest(b) && Follows(b, before)
  {
    assert forall i | 0 <= i < |s.tree| :: s.tree[i] in s.tree;
  }

  function ArchiveOf(before: seq<Archive>, s: Session): Archive {
    NewArchive(BackupOf(before, s.tree, s.changed))
  }

  lemma TreeHeld(before: seq<Archive>, s: Session)
    ensures HoldsTree(s, ArchiveOf(before, s))
    ensures var b := BackupOf(before, s.tree, s.changed);
            forall i | 0 <= i < |s.tree| :: ArchiveOf(before, s).objects[i] == Written(b, i)
  {
  }

  lemma LeaderWrites(before: seq<Archive>, s: Session, i: nat)
    requires MayWrite(before, s) && i < |s.tree| && Starts(s.tree, i)
    ensures var o := ArchiveOf(before, s).objects[i];
            if NeedsData(before, s, i) then
              o.latestVersion == |before| && o.streamUniqueId in ArchiveOf(before, s).streamIds
            else
              forall stood | OldAt(before, s.tree[i].path, stood) :: SameStream(o, stood)
  {
    var b := BackupOf(before, s.tree, s.changed);
    TreeHeld(before, s);
    StartsLead(s.tree, i);
    DecisionIs(before, s, i);
    if NeedsData(before, s, i) {
      StoredIdInRange(b, i);
    } else {
      forall stood | OldAt(before, s.tree[i].path, stood)
        ensures OldSelf(b, i) == Some(stood)
      {
        OldSelfIs(before, s, i, stood);
      }
    }
  }

  lemma OthersWrite(before: seq<Archive>, s: Session, i: nat)
    requires MayWrite(before, s) && i < |s.tree| && !Starts(s.tree, i)
    ensures var a := ArchiveOf(before, s);
            && (forall j: nat | Joins(s.tree, i, j) :: SameStream(a.objects[i], a.objects[j]))
            && ((forall j: nat :: !Joins(s.tree, i, j)) ==>
                  && a.objects[i].latestVersion == -1
                  && (forall o | OldAt(before, s.tree[i].path, o) :: a.objects[i].streamUniqueId == o.streamUniqueId)
                  && ((forall o :: !OldAt(before, s.tree[i].path, o)) ==>
                        a.objects[i].streamUniqueId == s.tree[i].streamUniqueId))
  {
    var b := BackupOf(before, s.tree, s.changed);
    TreeHeld(before, s);
    StartsLead(s.tree, i);
    FollowersJoin(s.tree, i);
    if LeaderOf(s.tree, i).Some? {
      LeaderLeads(s.tree, i);
      assert Joins(s.tree, i, LeaderOf(s.tree, i).value);
    } else {
      OldSelfStood(before, s, i);
      forall o | OldAt(before, s.tree[i].path, o)
        ensures OldSelf(b, i) == Some(o)
      {
        OldSelfIs(before, s, i, o);
      }
    }
  }

  /** Fresh ids grow with the objects and every one belongs to an object. */
  lemma {:induction false} IdBelongs(b: Backup, k: nat, id: nat)
    requires k <= |b.tree| && b.firstId <= id < b.firstId + StoredBefore(b, k)
    ensures exists i: nat :: i < k && Leads(b.tree, i) && Decide(b, i).Store? && b.firstId + StoredBefore(b, i) == id
    decreases k
  {
    if id < b.firstId + StoredBefore(b, k - 1) {
      IdBelongs(b, k - 1, id);
    } else {
      assert k - 1 < k && Leads(b.tree, k - 1) && Decide(b, k - 1).Store?;
    }
  }

  /** An object whose data is stored has the next free id. */
  lemma StoredIdIs(before: seq<Archive>, s: Session, i: nat)
    requires MayWrite(before, s) && StoresData(before, s, i)
    ensures var b := BackupOf(before, s.tree, s.changed);
            && Leads(b.tree, i) && Decide(b, i).Store?
            && ArchiveOf(before, s).objects[i].streamUniqueId == b.firstId + StoredBefore(b, i)
  {
    TreeHeld(before, s);
    StoresIs(before, s, i);
  }

  lemma StreamsWritten(before: seq<Archive>, s: Session)
    requires MayWrite(before, s)
    ensures OneStreamEach(before, s, ArchiveOf(before, s))
  {
    hide MayWrite, Starts, NeedsData, Leads, Decide, StoredBefore, NewArchive, Written;
    var b, a := BackupOf(before, s.tree, s.changed), ArchiveOf(before, s);
    TreeHeld(before, s);
    forall i: nat, j: nat | i < j && StoresData(before, s, i) && StoresData(before, s, j)
      ensures a.objects[i].streamUniqueId < a.objects[j].streamUniqueId
    {
      StoredIdIs(before, s, i);
      StoredIdIs(before, s, j);
      StoredIdsGrow(b, i, j);
    }
    forall id | id in a.streamIds
      ensures exists i: nat :: StoresData(before, s, i) && a.objects[i].streamUniqueId == id
    {
      var i := StreamIsUsed(before, s, id);
    }
  }

  lemma StoredIdsGrow(b: Backup, i: nat, j: nat)
    requires i < j <= |b.tree| && Leads(b.tree, i) && Decide(b, i).Store?
    ensures StoredBefore(b, i) < StoredBefore(b, j)
  {
    StoredMonotone(b, i + 1, j);
  }

  lemma StreamIsUsed(before: seq<Archive>, s: Session, id: nat) returns (i: nat)
    requires MayWrite(before, s) && id in ArchiveOf(before, s).streamIds
    ensures StoresData(before, s, i) && ArchiveOf(before, s).objects[i].streamUniqueId == id
  {
    hide Leads, Decide, StoredBefore, StoresData;
    var b := BackupOf(before, s.tree, s.changed);
    IdBelongs(b, |b.tree|, id);
    i :| i < |b.tree| && Leads(b.tree, i) && Decide(b, i).Store? && b.firstId + StoredBefore(b, i) == id;
    StoresIs(before, s, i);
    StoredIdIs(before, s, i);
  }

  /** What an object adds to the manifest is its version, if that is an earlier one. */
  lemma DependencyIs(before: seq<Archive>, s: Session, i: nat)
    requires MayWrite(before, s) && i < |s.tree|
    ensures var b, v := BackupOf(before, s.tree, s.changed), ArchiveOf(before, s).objects[i].latestVersion;
            Dependency(b, i) == if 0 <= v < |before| then Some(v) else None
  {
    var b := BackupOf(before, s.tree, s.changed);
    TreeHeld(before, s);
    FreshIsHonest(before, s);
    var l := LeaderOf(s.tree, i);
    if l.Some? {
      LeaderLeads(s.tree, i);
      DecisionIs(before, s, l.value);
      assert !Lies(b, l.value) && !Decide(b, l.value).Throw?;
      if Decide(b, l.value).Reference? {
        ReferenceLocated(b, before, l.value);
      }
    }
  }

  lemma ListedIsUsed(before: seq<Archive>, s: Session, d: int)
    requires MayWrite(before, s) && d in ArchiveOf(before, s).manifest.versionDependencies
    ensures 0 <= d < |before| && exists o :: o in ArchiveOf(before, s).objects && o.latestVersion == d
  {
    var b, a := BackupOf(before, s.tree, s.changed), ArchiveOf(before, s);
    var i :| 0 <= i < |b.tree| && Dependency(b, i).Some? && Dependency(b, i).value == d;
    DependencyIs(before, s, i);
    TreeHeld(before, s);
    hide Dependency, Written, NewArchive;
    assert a.objects[i] in a.objects;
  }

  lemma UsedIsListed(before: seq<Archive>, s: Session, o: Fso)
    requires MayWrite(before, s) && o in ArchiveOf(before, s).objects && 0 <= o.latestVersion < |before|
    ensures o.latestVersion in ArchiveOf(before, s).manifest.versionDependencies
  {
    var b, a := BackupOf(before, s.tree, s.changed), ArchiveOf(before, s);
    TreeHeld(before, s);
    var i :| 0 <= i < |a.objects| && a.objects[i] == o;
    DependencyIs(before, s, i);
    hide Dependency, Written;
    assert 0 <= i < |b.tree| && Dependency(b, i).Some?;
  }

  lemma DependenciesWritten(before: seq<Archive>, s: Session)
    requires MayWrite(before, s)
    ensures ListsDependencies(before, ArchiveOf(before, s))
  {
    hide ArchiveOf, MayWrite;
    forall d: int
      ensures d in ArchiveOf(before, s).manifest.versionDependencies <==>
        0 <= d < |before| && exists o :: o in ArchiveOf(before, s).objects && o.latestVersion == d
    {
      if d in ArchiveOf(before, s).manifest.versionDependencies {
        ListedIsUsed(before, s, d);
      }
      if o :| o in ArchiveOf(before, s).objects && o.latestVersion == d && 0 <= d < |before| {
        UsedIsListed(before, s, o);
      }
    }
  }

  /** A backup that succeeds records what it must. */
  lemma BackupRecords(before: seq<Archive>, s: Session)
    requires MayWrite(before, s)
    ensures Records(before, s, ArchiveOf(before, s))
  {
    TreeHeld(before, s);
    StreamsWritten(before, s);
    DependenciesWritten(before, s);
    forall i: nat | i < |s.tree|
      ensures Starts(s.tree, i) ==>
        var o := ArchiveOf(before, s).objects[i];
        if NeedsData(before, s, i) then
          o.latestVersion == |before| && o.streamUniqueId in ArchiveOf(before, s).streamIds
        else
          forall stood | OldAt(before, s.tree[i].path, stood) :: SameStream(o, stood)
    {
      if Starts(s.tree, i) {
        LeaderWrites(before, s, i);
      }
    }
    forall i: nat | i < |s.tree| && !Starts(s.tree, i)
      ensures var a := ArchiveOf(before, s);
              && (forall j: nat | Joins(s.tree, i, j) :: SameStream(a.objects[i], a.objects[j]))
              && ((forall j: nat :: !Joins(s.tree, i, j)) ==>
                    && a.objects[i].latestVersion == -1
                    && (forall o | OldAt(before, s.tree[i].path, o) ::
                          a.objects[i].streamUniqueId == o.streamUniqueId)
                    && ((forall o :: !OldAt(before, s.tree[i].path, o)) ==>
                          a.objects[i].streamUniqueId == s.tree[i].streamUniqueId))
    {
      OthersWrite(before, s, i);
    }
  }

  /** A backup on a valid chain throws exactly when it should, and otherwise records what it must. */
  lemma BackupMeans(before: seq<Archive>, s: Session)
    ensures Ready(before, s) ==>
      if Throws(before, s) then !Succeeds(BackupOf(before, s.tree, s.changed))
      else Succeeds(BackupOf(before, s.tree, s.changed)) && Records(before, s, ArchiveOf(before, s))
  {
    if Ready(before, s) {
      ThrowsIff(before, s);
      if !Throws(before, s) {
        BackupRecords(before, s);
      }
    }
  }

  // ---------- every run ----------

  lemma {:induction false} RunKeepsPaths(sessions: seq<Session>)
    requires forall s | s in sessions :: DistinctPaths(s.tree)
    ensures forall a | a in RunBackups(sessions) :: DistinctPaths(a.objects)
    decreases |sessions|
  {
    if |sessions| > 0 {
      var earlier, last := sessions[..|sessions| - 1], sessions[|sessions| - 1];
      RunKeepsPaths(earlier);
      var b := BackupOf(RunBackups(earlier), last.tree, last.changed);
      WrittenPaths(b);
    }
  }

  lemma RunIsReady(sessions: seq<Session>, n: nat)
    requires n < |sessions| && forall s | s in sessions :: FreshTree(s.tree)
    ensures Ready(RunBackups(sessions[..n]), sessions[n])
  {
    assert forall s | s in sessions[..n] :: s in sessions;
    EveryRunIsValid(sessions[..n]);
    RunKeepsPaths(sessions[..n]);
    var before := RunBackups(sessions[..n]);
    assert before != [] ==> before[|before| - 1] in before;
  }

  /** Every session of every run either throws, when it should, and leaves the archives as they are, or adds one archive
      that records what it must. */
  lemma EverySessionRecords(sessions: seq<Session>, n: nat)
    requires n < |sessions| && forall s | s in sessions :: FreshTree(s.tree)
    ensures var before, after := RunBackups(sessions[..n]), RunBackups(sessions[..n + 1]);
            if Throws(before, sessions[n]) then after == before
            else |after| == |before| + 1 && before <= after && Records(before, sessions[n], after[|before|])
  {
    var before, s := RunBackups(sessions[..n]), sessions[n];
    RunIsReady(sessions, n);
    ThrowsIff(before, s);
    assert sessions[..n + 1][..n] == sessions[..n];
    hide Ready, Throws, Records;
    if !Throws(before, s) {
      BackupRecords(before, s);
    }
  }

  /** Later sessions leave the archives of a run alone. */
  lemma {:induction false} RunsGrow(sessions: seq<Session>, n: nat)
    requires n <= |sessions|
    ensures RunBackups(sessions[..n]) <= RunBackups(sessions)
    decreases |sessions|
  {
    if n == |sessions| {
      assert sessions[..n] == sessions;
    } else {
      RunsGrow(sessions[..|sessions| - 1], n);
      assert sessions[..|sessions| - 1][..n] == sessions[..n];
    }
  }

  /** In an archive of a valid chain that records a session, two objects stored in it that are not hardlinks of one file
      have different ids. */
  lemma StoredIdsDiffer(before: seq<Archive>, s: Session, a: Archive, i: nat, j: nat)
    requires Ready(before, s) && Records(before, s, a) && i < j < |a.objects|
    requires a.objects[i].latestVersion == |before| && a.objects[j].latestVersion == |before|
    requires !SameFile(a.objects[i], a.objects[j])
    ensures a.objects[i].streamUniqueId != a.objects[j].streamUniqueId
  {
    var k := StoredFor(before, s, a, i);
    var l := StoredFor(before, s, a, j);
    assert k != l;
  }

  /** The object in whose stream the data of a stored object is. */
  lemma StoredFor(before: seq<Archive>, s: Session, a: Archive, i: nat) returns (k: nat)
    requires Ready(before, s) && Records(before, s, a) && i < |a.objects|
    requires a.objects[i].latestVersion == |before|
    ensures StoresData(before, s, k) && SameStream(a.objects[i], a.objects[k])
    ensures k == i || SameFile(s.tree[k], s.tree[i])
  {
    k := i;
    if !Starts(s.tree, i) {
      k :| Joins(s.tree, i, k);
    }
    if !NeedsData(before, s, k) {
      var stood: Fso :| OldAt(before, s.tree[k].path, stood);
      OldIsEarlier(before, s.tree[k].path, stood);
      assert false;
    }
  }

  /** So it is in every version of every run. */
  lemma DifferentFilesDifferentIds(sessions: seq<Session>, n: nat, i: nat, j: nat)
    requires n < |sessions| && forall s | s in sessions :: FreshTree(s.tree)
    ensures var before, after := RunBackups(sessions[..n]), RunBackups(sessions[..n + 1]);
            |after| == |before| + 1 ==>
              var objects := after[|before|].objects;
              i < j < |objects| && !SameFile(objects[i], objects[j]) &&
              objects[i].latestVersion == |before| && objects[j].latestVersion == |before| ==>
              objects[i].streamUniqueId != objects[j].streamUniqueId
  {
    hide Records, Ready, Throws;
    var before, after := RunBackups(sessions[..n]), RunBackups(sessions[..n + 1]);
    RunIsReady(sessions, n);
    EverySessionRecords(sessions, n);
    if |after| == |before| + 1 {
      var objects := after[|before|].objects;
      if i < j < |objects| && !SameFile(objects[i], objects[j]) &&
         objects[i].latestVersion == |before| && objects[j].latestVersion == |before| {
        StoredIdsDiffer(before, sessions[n], after[|before|], i, j);
      }
    }
  }

  lemma OldIsEarlier(before: seq<Archive>, path: Path, o: Fso)
    requires ChainValid(before) && OldAt(before, path, o)
    ensures o.latestVersion < |before|
  {
    var last := |before| - 1;
    assert ArchiveValid(before, last);
    assert Located(before, last, o);
  }
}
