/** The backup step as the engine performs it (BackupEngine.cs): one pass over the objects that builds streams,
    hands out ids and resolves hardlinks, one that collects dependencies, and the archive.

    Objects and streams refer to each other in the source; here both are named by their index. One engine is used
    for one backup. */
module Engine {
  import opened ByteStrings
  import opened BackupSpec
  import opened BackupMeaning

  datatype BackupStream =
    | FullStream(uniqueId: nat, objects: seq<nat>)
    | UnmodifiedStream(uniqueId: nat, objects: seq<nat>, containingVersion: int)
  {
    predicate HasData() {
      FullStream?
    }

    function WithId(id: nat): BackupStream {
      this.(uniqueId := id)
    }
  }

  /** What the pass over the objects works on. `streamOf` is the BackupStream of an object, `withData` lists the
      streams that go into the archive. */
  datatype Workspace = Workspace(objects: seq<Fso>, streamOf: seq<Option<nat>>, streams: seq<BackupStream>,
                                 knownGuids: map<Guid, nat>, withData: seq<nat>, nextStreamUniqueId: nat)

  function Stored(o: Fso): Fso {
    o.(mode := NoBackup)
  }

  // ---------- the invariant of the pass ----------

  ghost predicate ObjectsDone(b: Backup, k: nat, w: Workspace)
    requires k <= |b.tree|
  {
    && |w.objects| == |w.streamOf| == |b.tree|
    && (forall i | 0 <= i < k :: Stored(w.objects[i]) == Written(b, i))
    && (forall i | k <= i < |b.tree| :: w.objects[i] == b.tree[i].(streamUniqueId := PresetId(b, i)))
  }

  ghost predicate LinksDone(b: Backup, k: nat, w: Workspace)
    requires k <= |b.tree| == |w.streamOf|
  {
    && (forall i | 0 <= i < k :: LinkDone(b, i, w))
    && (forall i | k <= i < |b.tree| :: w.streamOf[i] == None)
  }

  /** An object points at the stream of its leader; only a leader may still point nowhere, and the leader of a
      stream without data always does. */
  ghost predicate LinkDone(b: Backup, i: nat, w: Workspace)
    requires i < |b.tree| == |w.streamOf|
  {
    var l := LeaderOf(b.tree, i);
    && (w.streamOf[i].Some? ==> IsStreamOf(b, l, w, w.streamOf[i].value))
    && (l.Some? && l.value < i ==> w.streamOf[i].Some?)
    && (l == Some(i) && !Decide(b, i).Store? ==> w.streamOf[i] == None)
  }

  ghost predicate IsStreamOf(b: Backup, l: Option<nat>, w: Workspace, s: nat) {
    l.Some? && s < |w.streams| && |w.streams[s].objects| > 0 && w.streams[s].objects[0] == l.value
  }

  /** A stream carries what was decided about its leader, and its objects are led by that leader. */
  ghost predicate StreamDone(b: Backup, k: nat, stream: BackupStream)
    requires k <= |b.tree|
  {
    && |stream.objects| > 0
    && (forall j | j in stream.objects :: j < k && LeaderOf(b.tree, j) == Some(stream.objects[0]))
    && var l := stream.objects[0];
       l < k
       && stream.uniqueId == IdOf(b, l)
       && match stream {
            case FullStream(_, _) => Decide(b, l).Store?
            case UnmodifiedStream(_, _, v) => Decide(b, l) == Reference(v)
          }
  }

  ghost predicate StreamsDone(b: Backup, k: nat, w: Workspace)
    requires k <= |b.tree|
  {
    && (forall s | 0 <= s < |w.streams| :: StreamDone(b, k, w.streams[s]))
    && (forall i | 0 <= i < k && Leads(b.tree, i) :: !Decide(b, i).Throw?)
  }

  ghost predicate GuidsDone(b: Backup, k: nat, w: Workspace)
    requires k <= |b.tree|
  {
    forall g: Guid ::
      var first := FirstWithGuid(b.tree, g, k);
      && (g in w.knownGuids <==> first.Some?)
      && (g in w.knownGuids ==> IsStreamOf(b, first, w, w.knownGuids[g]))
  }

  /** The streams with data are numbered in order, and every leader that stores has one. */
  ghost predicate DataDone(b: Backup, k: nat, w: Workspace)
    requires k <= |b.tree|
  {
    && |w.withData| == StoredBefore(b, k)
    && w.nextStreamUniqueId == b.firstId + StoredBefore(b, k)
    && (forall d | 0 <= d < |w.withData| :: IsData(b, w, d))
    && (forall i | 0 <= i < k && Stores(b, i) :: HasItsStream(b, i, w))
  }

  predicate Stores(b: Backup, i: nat)
    requires i < |b.tree|
  {
    Leads(b.tree, i) && Decide(b, i).Store?
  }

  ghost predicate HasItsStream(b: Backup, i: nat, w: Workspace)
    requires i < |b.tree|
  {
    var d := StoredBefore(b, i);
    d < |w.withData| && IsStreamOf(b, Some(i), w, w.withData[d])
  }

  ghost predicate IsData(b: Backup, w: Workspace, d: nat)
    requires d < |w.withData|
  {
    var s := w.withData[d];
    s < |w.streams| && w.streams[s].HasData() && w.streams[s].uniqueId == b.firstId + d
  }

  ghost predicate Generated(b: Backup, k: nat, w: Workspace) {
    && k <= |b.tree|
    && ObjectsDone(b, k, w)
    && LinksDone(b, k, w)
    && StreamsDone(b, k, w)
    && GuidsDone(b, k, w)
    && DataDone(b, k, w)
  }

  // ---------- the three things that happen to an object ----------

  function Skipped(w: Workspace, i: nat): Workspace
    requires i < |w.objects|
  {
    w.(objects := w.objects[i := w.objects[i].(latestVersion := -1)])
  }

  function Joined(w: Workspace, i: nat, s: nat): Workspace
    requires i < |w.objects| == |w.streamOf| && s < |w.streams| && |w.streams[s].objects| > 0
    requires w.streams[s].objects[0] < |w.objects|
  {
    var stream := w.streams[s];
    var version := w.objects[stream.objects[0]].latestVersion;
    w.(objects := w.objects[i := w.objects[i].(streamUniqueId := stream.uniqueId, latestVersion := version)],
       streamOf := w.streamOf[i := Some(s)],
       streams := w.streams[s := stream.(objects := stream.objects + [i])])
  }

  function Led(w: Workspace, i: nat, o: Fso, stream: BackupStream): Workspace
    requires i < |w.objects|
  {
    w.(objects := w.objects[i := o],
       streams := w.streams + [stream],
       knownGuids := if o.guid.Some? then w.knownGuids[o.guid.value := |w.streams|] else w.knownGuids)
  }

  /** The id that a stream with data, the newest one, gets. */
  function Numbered(w: Workspace, i: nat): Workspace
    requires i < |w.objects| && |w.streams| > 0
  {
    var s := |w.streams| - 1;
    w.(objects := w.objects[i := w.objects[i].(streamUniqueId := w.nextStreamUniqueId)],
       streams := w.streams[s := w.streams[s].WithId(w.nextStreamUniqueId)],
       withData := w.withData + [s],
       nextStreamUniqueId := w.nextStreamUniqueId + 1)
  }

  lemma FirstWithGuidStep(tree: seq<Fso>, g: Guid, k: nat)
    requires k < |tree|
    ensures FirstWithGuid(tree, g, k + 1)
         == if FirstWithGuid(tree, g, k).Some? then FirstWithGuid(tree, g, k)
            else if Addable(tree[k]) && tree[k].guid == Some(g) then Some(k) else None
  {
  }

  /** Under one GUID only hardlinks follow the first object. */
  lemma OnlyHardlinksFollow(tree: seq<Fso>, i: nat)
    requires TreeValid(tree) && i < |tree| && tree[i].guid.Some?
    ensures FirstWithGuid(tree, tree[i].guid.value, i).Some? ==> tree[i].kind.FileHardlink?
  {
  }

  /** The objects at the start of the pass. */
  function Preset(b: Backup): seq<Fso> {
    seq(|b.tree|, i requires 0 <= i < |b.tree| => b.tree[i].(streamUniqueId := PresetId(b, i)))
  }

  lemma NothingGenerated(b: Backup)
    ensures Generated(b, 0, Workspace(Preset(b), seq(|b.tree|, _ => None), [], map[], [], b.firstId))
  {
  }

  // ---------- what a step leaves alone ----------

  /** No stream changes its id, its kind or its leader. */
  ghost predicate KeepsStreams(w: Workspace, v: Workspace) {
    && |w.streams| <= |v.streams|
    && forall s | 0 <= s < |w.streams| ::
         && w.streams[s].objects <= v.streams[s].objects
         && w.streams[s].uniqueId == v.streams[s].uniqueId
         && w.streams[s].HasData() == v.streams[s].HasData()
  }

  lemma LinksKept(b: Backup, k: nat, w: Workspace, v: Workspace)
    requires k < |b.tree| == |w.streamOf| == |v.streamOf| && LinksDone(b, k, w) && KeepsStreams(w, v)
    requires forall i | 0 <= i < |b.tree| && i != k :: v.streamOf[i] == w.streamOf[i]
    requires LinkDone(b, k, v)
    ensures LinksDone(b, k + 1, v)
  {
    hide LeaderOf, Decide;
    forall i | 0 <= i < k + 1
      ensures LinkDone(b, i, v)
    {
      if i < k {
        assert LinkDone(b, i, w);
      }
    }
  }

  lemma StreamKept(b: Backup, k: nat, stream: BackupStream)
    requires k < |b.tree| && StreamDone(b, k, stream)
    ensures StreamDone(b, k + 1, stream)
  {
    hide LeaderOf, Decide, IdOf;
  }

  lemma DataKept(b: Backup, k: nat, w: Workspace, v: Workspace)
    requires k < |b.tree| && DataDone(b, k, w) && KeepsStreams(w, v)
    requires v.withData == w.withData && v.nextStreamUniqueId == w.nextStreamUniqueId
    requires !Stores(b, k)
    ensures DataDone(b, k + 1, v)
  {
    assert StoredBefore(b, k + 1) == StoredBefore(b, k);
    hide Stores, StoredBefore;
    forall d | 0 <= d < |v.withData|
      ensures IsData(b, v, d)
    {
      assert IsData(b, w, d);
    }
    forall i | 0 <= i < k + 1 && Stores(b, i)
      ensures HasItsStream(b, i, v)
    {
      assert i < k;
      assert HasItsStream(b, i, w);
    }
  }

  lemma GuidsKept(b: Backup, k: nat, w: Workspace, v: Workspace)
    requires k < |b.tree| && GuidsDone(b, k, w) && KeepsStreams(w, v) && v.knownGuids == w.knownGuids
    requires !Addable(b.tree[k])
      || (b.tree[k].guid.Some? && FirstWithGuid(b.tree, b.tree[k].guid.value, k).Some?)
    ensures GuidsDone(b, k + 1, v)
  {
    forall g: Guid
      ensures var f := FirstWithGuid(b.tree, g, k + 1);
              && (g in v.knownGuids <==> f.Some?)
              && (g in v.knownGuids ==> IsStreamOf(b, f, v, v.knownGuids[g]))
    {
      FirstWithGuidStep(b.tree, g, k);
      hide FirstWithGuid;
      assert g in w.knownGuids ==> IsStreamOf(b, FirstWithGuid(b.tree, g, k), w, w.knownGuids[g]);
    }
  }

  /** Only the links depend on what the objects point at. */
  lemma LinksOnly(b: Backup, k: nat, w: Workspace, v: Workspace)
    requires Generated(b, k, w) && v == w.(streamOf := v.streamOf)
    requires |v.streamOf| == |w.streamOf| && LinksDone(b, k, v)
    ensures Generated(b, k, v)
  {
    hide LinksDone, LeaderOf, FirstWithGuid, Decide, Written, StoredBefore, Stores, PresetId, StreamDone;
    assert GuidsDone(b, k, v) by {
      forall g: Guid
        ensures var first := FirstWithGuid(b.tree, g, k);
                && (g in v.knownGuids <==> first.Some?)
                && (g in v.knownGuids ==> IsStreamOf(b, first, v, v.knownGuids[g]))
      {
        assert g in w.knownGuids ==> IsStreamOf(b, FirstWithGuid(b.tree, g, k), w, w.knownGuids[g]);
      }
    }
    assert DataDone(b, k, v) by {
      forall d | 0 <= d < |v.withData|
        ensures IsData(b, v, d)
      {
        assert IsData(b, w, d);
      }
      forall i | 0 <= i < k && Stores(b, i)
        ensures HasItsStream(b, i, v)
      {
        assert HasItsStream(b, i, w);
      }
    }
  }

  /** An object may be pointed at the stream of its leader, if that has data. */
  lemma PointKeepsLinks(b: Backup, w: Workspace, y: nat, s: nat)
    requires y < |b.tree| == |w.streamOf| && LinksDone(b, |b.tree|, w)
    requires var l := LeaderOf(b.tree, y); IsStreamOf(b, l, w, s) && l.value < |b.tree| && Decide(b, l.value).Store?
    ensures LinksDone(b, |b.tree|, w.(streamOf := w.streamOf[y := Some(s)]))
  {
    hide Decide, LeaderOf;
    var v := w.(streamOf := w.streamOf[y := Some(s)]);
    forall i | 0 <= i < |b.tree|
      ensures LinkDone(b, i, v)
    {
      assert LinkDone(b, i, w);
    }
  }

  // ---------- each step keeps the invariant ----------

  /** An object that belongs to no stream. */
  lemma SkipStep(b: Backup, k: nat, w: Workspace)
    requires Generated(b, k, w) && k < |b.tree| && LeaderOf(b.tree, k) == None
    ensures Generated(b, k + 1, Skipped(w, k))
  {
    var v := Skipped(w, k);
    assert !Addable(b.tree[k]);
    assert ObjectsDone(b, k + 1, v) by {
      hide LinksDone, StreamsDone, GuidsDone, DataDone;
    }
    hide Written;
    GuidsKept(b, k, w, v);
    assert !Stores(b, k);
    hide LeaderOf, FirstWithGuid, Stores;
    DataKept(b, k, w, v);
    assert LinkDone(b, k, v) by {
      hide Decide;
    }
    LinksKept(b, k, w, v);
    assert StreamsDone(b, k + 1, v) by {
      forall s | 0 <= s < |v.streams|
        ensures StreamDone(b, k + 1, v.streams[s])
      {
        StreamKept(b, k, w.streams[s]);
      }
    }
  }

  /** The stream known under the GUID of a hardlink is the one of its leader. */
  lemma KnownStream(b: Backup, k: nat, w: Workspace, g: Guid)
    requires Generated(b, k, w) && k < |b.tree| && b.tree[k].guid == Some(g) && g in w.knownGuids
    requires b.tree[k].kind.FileHardlink?
    ensures FirstWithGuid(b.tree, g, k).Some?
    ensures var s, l := w.knownGuids[g], LeaderOf(b.tree, k);
            && IsStreamOf(b, l, w, s) && l.value < k
            && w.streams[s].uniqueId == IdOf(b, l.value)
            && !Stores(b, k)
  {
    var s := w.knownGuids[g];
    hide ObjectsDone, LinksDone, DataDone, Decide, IdOf;
    assert g in w.knownGuids <==> FirstWithGuid(b.tree, g, k).Some?;
    assert LeaderOf(b.tree, k) == FirstWithGuid(b.tree, g, k);
    assert StreamDone(b, k, w.streams[s]);
  }

  /** A hardlink to a file that is already known joins the stream of the first one. */
  lemma JoinStep(b: Backup, k: nat, w: Workspace, g: Guid)
    requires Generated(b, k, w) && k < |b.tree| && b.tree[k].guid == Some(g) && g in w.knownGuids
    requires b.tree[k].kind.FileHardlink?
    ensures IsStreamOf(b, LeaderOf(b.tree, k), w, w.knownGuids[g])
    ensures w.streams[w.knownGuids[g]].objects[0] < k
    ensures Generated(b, k + 1, Joined(w, k, w.knownGuids[g]))
  {
    hide LeaderOf, FirstWithGuid, Stores, Decide, IdOf, Written, PresetId, StreamDone, IsData, HasItsStream;
    var s := w.knownGuids[g];
    KnownStream(b, k, w, g);
    var v := Joined(w, k, s);
    JoinKeepsStreams(b, k, w, s);
    JoinKeepsObjects(b, k, w, s);
    GuidsKept(b, k, w, v);
    DataKept(b, k, w, v);
    LinksKept(b, k, w, v);
  }

  lemma JoinKeepsStreams(b: Backup, k: nat, w: Workspace, s: nat)
    requires k < |b.tree| == |w.objects| == |w.streamOf| && StreamsDone(b, k, w)
    requires IsStreamOf(b, LeaderOf(b.tree, k), w, s) && LeaderOf(b.tree, k).value < k
    ensures KeepsStreams(w, Joined(w, k, s))
    ensures StreamsDone(b, k + 1, Joined(w, k, s))
  {
    hide LeaderOf, Decide, IdOf;
    var v := Joined(w, k, s);
    forall i | 0 <= i < |v.streams|
      ensures StreamDone(b, k + 1, v.streams[i])
    {
      StreamKept(b, k, w.streams[i]);
    }
  }

  lemma JoinKeepsObjects(b: Backup, k: nat, w: Workspace, s: nat)
    requires k < |b.tree| && ObjectsDone(b, k, w) && IsStreamOf(b, LeaderOf(b.tree, k), w, s)
    requires LeaderOf(b.tree, k).value < k && w.streams[s].uniqueId == IdOf(b, LeaderOf(b.tree, k).value)
    ensures ObjectsDone(b, k + 1, Joined(w, k, s))
  {
    LeaderLeads(b.tree, k);
    hide LeaderOf, IdOf, VersionOf, PresetId;
    var l := LeaderOf(b.tree, k).value;
    assert Stored(w.objects[l]) == Written(b, l);
    assert Written(b, l).latestVersion == VersionOf(b, l);
  }

  /** What the generator makes of a leader, once a stream with data has its number. */
  ghost predicate LeadsAs(b: Backup, k: nat, w: Workspace, o: Fso, stream: BackupStream)
    requires k < |b.tree|
  {
    && Leads(b.tree, k)
    && Stored(o) == Stored(b.tree[k].(streamUniqueId := o.streamUniqueId, latestVersion := VersionOf(b, k)))
    && o.streamUniqueId == PresetId(b, k)
    && stream.objects == [k]
    && match stream {
         case FullStream(_, _) => Decide(b, k).Store?
         case UnmodifiedStream(id, _, v) => Decide(b, k) == Reference(v) && id == PresetId(b, k)
       }
  }

  function Finish(w: Workspace, k: nat, stream: BackupStream): Workspace
    requires k < |w.objects| && |w.streams| > 0
  {
    if stream.HasData() then Numbered(w, k) else w
  }

  /** An object that starts a stream. */
  lemma LeadStep(b: Backup, k: nat, w: Workspace, o: Fso, stream: BackupStream)
    requires Generated(b, k, w) && k < |b.tree| && LeadsAs(b, k, w, o, stream)
    ensures Generated(b, k + 1, Finish(Led(w, k, o, stream), k, stream))
  {
    var v := Finish(Led(w, k, o, stream), k, stream);
    LeadKeepsObjects(b, k, w, o, stream);
    LeadKeepsGuids(b, k, w, o, stream);
    LeadKeepsStreams(b, k, w, o, stream);
    assert LinkDone(b, k, v) by {
      hide Decide, LeaderOf;
    }
    hide LeaderOf, Decide, LeadsAs;
    LinksKept(b, k, w, v);
    LeadKeepsData(b, k, w, o, stream);
  }

  lemma LeadKeepsObjects(b: Backup, k: nat, w: Workspace, o: Fso, stream: BackupStream)
    requires k < |b.tree| && ObjectsDone(b, k, w) && LeadsAs(b, k, w, o, stream)
    requires w.nextStreamUniqueId == b.firstId + StoredBefore(b, k)
    ensures ObjectsDone(b, k + 1, Finish(Led(w, k, o, stream), k, stream))
  {
    hide Decide, VersionOf, PresetId, StoredBefore, LeaderOf;
    var v := Finish(Led(w, k, o, stream), k, stream);
    assert Stored(v.objects[k]) == Written(b, k);
  }

  lemma LeadKeepsStreams(b: Backup, k: nat, w: Workspace, o: Fso, stream: BackupStream)
    requires k < |b.tree| == |w.objects| && StreamsDone(b, k, w) && LeadsAs(b, k, w, o, stream)
    requires w.nextStreamUniqueId == b.firstId + StoredBefore(b, k)
    ensures KeepsStreams(w, Finish(Led(w, k, o, stream), k, stream))
    ensures StreamsDone(b, k + 1, Finish(Led(w, k, o, stream), k, stream))
  {
    hide Decide, VersionOf, PresetId, StoredBefore, LeaderOf;
    var v := Finish(Led(w, k, o, stream), k, stream);
    assert StreamDone(b, k + 1, v.streams[|w.streams|]);
    hide IdOf;
    forall s | 0 <= s < |w.streams|
      ensures StreamDone(b, k + 1, v.streams[s])
    {
      StreamKept(b, k, w.streams[s]);
    }
  }

  lemma LeadKeepsGuids(b: Backup, k: nat, w: Workspace, o: Fso, stream: BackupStream)
    requires k < |b.tree| == |w.objects| && GuidsDone(b, k, w) && LeadsAs(b, k, w, o, stream)
    ensures GuidsDone(b, k + 1, Finish(Led(w, k, o, stream), k, stream))
  {
    var v := Finish(Led(w, k, o, stream), k, stream);
    var mine := b.tree[k].guid;
    assert o.guid == mine;
    assert Addable(b.tree[k]);
    assert mine.Some? ==> FirstWithGuid(b.tree, mine.value, k) == None;
    hide LeaderOf, Decide, VersionOf, PresetId;
    forall g: Guid
      ensures var f := FirstWithGuid(b.tree, g, k + 1);
              && (g in v.knownGuids <==> f.Some?)
              && (g in v.knownGuids ==> IsStreamOf(b, f, v, v.knownGuids[g]))
    {
      FirstWithGuidStep(b.tree, g, k);
      hide FirstWithGuid;
      assert g in w.knownGuids <==> FirstWithGuid(b.tree, g, k).Some?;
      assert g in w.knownGuids ==> IsStreamOf(b, FirstWithGuid(b.tree, g, k), w, w.knownGuids[g]);
    }
  }

  lemma LeadKeepsData(b: Backup, k: nat, w: Workspace, o: Fso, stream: BackupStream)
    requires k < |b.tree| == |w.objects| && DataDone(b, k, w) && LeadsAs(b, k, w, o, stream)
    ensures DataDone(b, k + 1, Finish(Led(w, k, o, stream), k, stream))
  {
    var v := Finish(Led(w, k, o, stream), k, stream);
    assert StoredBefore(b, k + 1) == StoredBefore(b, k) + if stream.HasData() then 1 else 0;
    assert Stores(b, k) <==> stream.HasData();
    hide LeadsAs, Stores, StoredBefore;
    if !stream.HasData() {
      DataKept(b, k, w, v);
    } else {
      forall d | 0 <= d < |v.withData|
        ensures IsData(b, v, d)
      {
        if d < |w.withData| {
          assert IsData(b, w, d);
        }
      }
      forall i | 0 <= i < k + 1 && Stores(b, i)
        ensures HasItsStream(b, i, v)
      {
        if i < k {
          assert HasItsStream(b, i, w);
        }
      }
    }
  }

  // ---------- what the engine sees at the next object ----------

  lemma LeadsIff(b: Backup, k: nat, w: Workspace)
    requires Generated(b, k, w) && k < |b.tree|
    ensures var o := b.tree[k];
            Leads(b.tree, k) <==> Addable(o) && !(o.guid.Some? && o.guid.value in w.knownGuids)
  {
    var o := b.tree[k];
    assert o.guid.Some? ==> (o.guid.value in w.knownGuids <==> FirstWithGuid(b.tree, o.guid.value, k).Some?);
  }

  predicate IsKnownHardlink(w: Workspace, o: Fso) {
    o.kind.FileHardlink? && o.guid.Some? && o.guid.value in w.knownGuids
  }

  /** An object that starts no stream either joins one or has none. */
  lemma NoStreamStep(b: Backup, k: nat, w: Workspace)
    requires Generated(b, k, w) && k < |b.tree| && !Leads(b.tree, k) && TreeValid(b.tree)
    ensures var o := b.tree[k];
            if IsKnownHardlink(w, o) then
              (var s := w.knownGuids[o.guid.value];
               && s < |w.streams| && |w.streams[s].objects| > 0 && w.streams[s].objects[0] < k
               && Generated(b, k + 1, Joined(w, k, s)))
            else !Addable(o) && Generated(b, k + 1, Skipped(w, k))
  {
    var o := b.tree[k];
    if IsKnownHardlink(w, o) {
      JoinStep(b, k, w, o.guid.value);
    } else {
      LeadsIff(b, k, w);
      if o.guid.Some? {
        OnlyHardlinksFollow(b.tree, k);
        assert o.guid.value in w.knownGuids <==> FirstWithGuid(b.tree, o.guid.value, k).Some?;
      }
      assert LeaderOf(b.tree, k) == None;
      SkipStep(b, k, w);
    }
  }

  /** Joining overwrites the version an object had. */
  lemma JoinedAnyway(w: Workspace, i: nat)
    requires i < |w.objects| == |w.streamOf|
    ensures forall v: int, s: nat | s < |w.streams| && |w.streams[s].objects| > 0 && w.streams[s].objects[0] < i ::
              Joined(w.(objects := w.objects[i := w.objects[i].(latestVersion := v)]), i, s) == Joined(w, i, s)
  {
    forall v: int, s: nat | s < |w.streams| && |w.streams[s].objects| > 0 && w.streams[s].objects[0] < i
      ensures Joined(w.(objects := w.objects[i := w.objects[i].(latestVersion := v)]), i, s) == Joined(w, i, s)
    {
      var once := w.objects[i := w.objects[i].(latestVersion := v)];
      var o := Joined(w, i, s).objects[i];
      assert once[i := o] == w.objects[i := o];
    }
  }

  // ---------- the dictionary of old objects ----------

  lemma {:induction false} FindPathAppend(objects: seq<Fso>, o: Fso, path: Path)
    ensures FindPath(objects + [o], path)
         == if FindPath(objects, path).Some? then FindPath(objects, path)
            else if o.path == path then Some(o) else None
  {
    if objects == [] {
      assert [] + [o] == [o];
    } else {
      FindPathAppend(objects[1..], o, path);
      assert (objects + [o])[1..] == objects[1..] + [o];
    }
  }

  // ---------- the dependencies ----------

  /** What GetDependencies adds for one object. */
  function DependenciesOf(w: Workspace, i: nat): set<int>
    requires i < |w.objects| == |w.streamOf|
    requires w.streamOf[i].Some? ==> w.streamOf[i].value < |w.streams|
  {
    if w.objects[i].latestVersion < 0 then {}
    else if w.streamOf[i].None? then {w.objects[i].latestVersion}
    else match w.streams[w.streamOf[i].value] {
        case FullStream(_, _) => {}
        case UnmodifiedStream(_, _, v) => {v}
      }
  }

  /** All streams are known and the objects of the streams with data point at them. */
  ghost predicate Linked(b: Backup, w: Workspace) {
    && Generated(b, |b.tree|, w)
    && forall i | 0 <= i < |b.tree| && Stores(b, i) :: w.streamOf[i].Some?
  }

  lemma DependencyAgrees(b: Backup, w: Workspace, i: nat)
    requires Linked(b, w) && i < |b.tree|
    ensures w.streamOf[i].Some? ==> w.streamOf[i].value < |w.streams|
    ensures DependenciesOf(w, i) == if Dependency(b, i).Some? then {Dependency(b, i).value} else {}
  {
    var l := LeaderOf(b.tree, i);
    assert Stored(w.objects[i]) == Written(b, i);
    assert LinkDone(b, i, w);
    if l.Some? {
      LeaderLeads(b.tree, i);
      hide LeaderOf, Decide;
      if w.streamOf[i].Some? {
        assert StreamDone(b, |b.tree|, w.streams[w.streamOf[i].value]);
      } else {
        assert !Stores(b, i);
      }
    }
  }

  lemma {:induction false} RangeAt(from: nat, to: nat, d: nat)
    requires from + d < to
    ensures Range(from, to)[d] == from + d
  {
    if from + d < to - 1 {
      RangeAt(from, to - 1, d);
    }
  }

  // ---------- the engine ----------

  class BackupEngine {
    /** The files at the target location, by version number. */
    var archives: seq<Archive>
    const changed: Changed

    var nextStreamUniqueId: nat
    var objects: seq<Fso>
    var streamOf: seq<Option<nat>>
    var streams: seq<BackupStream>
    var knownGuids: map<Guid, nat>
    var withData: seq<nat>
    var oldObjects: seq<Fso>
    var oldObjectsDict: map<Path, Fso>

    constructor (archives: seq<Archive>, changed: Changed)
      ensures this.archives == archives && this.changed == changed && Unused()
    {
      this.archives := archives;
      this.changed := changed;
      nextStreamUniqueId := FIRST_STREAM_ID;
      objects, streamOf, streams, knownGuids, withData := [], [], [], map[], [];
      oldObjects, oldObjectsDict := [], map[];
    }

    /** No backup was made with this engine yet. */
    ghost predicate Unused()
      reads this
    {
      && nextStreamUniqueId == FIRST_STREAM_ID
      && objects == [] && streamOf == [] && streams == [] && knownGuids == map[] && withData == []
      && oldObjects == [] && oldObjectsDict == map[]
    }

    function State(): Workspace
      reads this
    {
      Workspace(objects, streamOf, streams, knownGuids, withData, nextStreamUniqueId)
    }

    /** The engine is in the middle of backup b. */
    ghost predicate Working(b: Backup)
      reads this
    {
      && b == BackupOf(archives, b.tree, changed)
      && TreeValid(b.tree)
      && (archives != [] ==> oldObjects == archives[|archives| - 1].objects)
    }

    function NewVersionNumber(): nat
      reads this
    {
      |archives|
    }

    method ShouldBeAdded(i: nat) returns (add: bool)
      requires i < |objects|
      modifies `objects
      ensures var o := old(objects[i]);
              && add == (Addable(o) && !(o.guid.Some? && o.guid.value in knownGuids))
              && objects == old(objects)[i := o.(latestVersion := if Addable(o) then NewVersionNumber() else -1)]
    {
      objects := objects[i := objects[i].(latestVersion := -1)];
      var o := objects[i];
      if o.kind.IsDirectoryish() {
        return false;
      }
      if o.mode.NoBackup? {
        return false;
      }
      if o.kind.IsLinkish() && !o.kind.FileHardlink? {
        return false;
      }
      objects := objects[i := o.(latestVersion := NewVersionNumber())];
      if o.guid.Some? && o.guid.value in knownGuids {
        return false;
      }
      return true;
    }

    /** A hardlink to a file in the backup gets its stream, id and version; other objects stay as they are. */
    method FixUpStreamReference(i: nat)
      requires i < |objects| == |streamOf|
      requires IsKnownHardlink(State(), objects[i]) ==>
        var s := knownGuids[objects[i].guid.value];
        s < |streams| && (|streams[s].objects| > 0 ==> streams[s].objects[0] < |objects|)
      modifies `objects, `streamOf, `streams
      ensures !old(IsKnownHardlink(State(), objects[i])) ==> State() == old(State())
      ensures old(IsKnownHardlink(State(), objects[i]) && |streams[knownGuids[objects[i].guid.value]].objects| > 0) ==>
        State() == Joined(old(State()), i, old(knownGuids[objects[i].guid.value]))
    {
      var o := objects[i];
      if o.kind.FileHardlink? && o.guid.Some? && o.guid.value in knownGuids {
        var s := knownGuids[o.guid.value];
        var stream := streams[s];
        o := o.(streamUniqueId := stream.uniqueId);
        streamOf := streamOf[i := Some(s)];
        if |stream.objects| > 0 {
          o := o.(latestVersion := objects[stream.objects[0]].latestVersion);
        }
        objects := objects[i := o];
        streams := streams[s := stream.(objects := stream.objects + [i])];
      }
    }

    /** What a generator leaves behind: a new stream for a leader, otherwise an object that is done. */
    ghost predicate Made(b: Backup, i: nat, w: Workspace, stream: Option<nat>)
      reads this
      requires i < |b.tree|
    {
      if Leads(b.tree, i) then
        && stream == Some(|w.streams|)
        && |streams| == |w.streams| + 1
        && i < |w.objects| == |objects|
        && State() == Led(w, i, objects[i], streams[|w.streams|])
        && LeadsAs(b, i, w, objects[i], streams[|w.streams|])
      else stream == None && Generated(b, i + 1, State())
    }

    /** The first half of both generators: the object starts a stream, or it is done. */
    method AddOrFixUp(ghost b: Backup, i: nat) returns (add: bool)
      requires Working(b) && i < |b.tree| && Generated(b, i, State())
      modifies `objects, `streamOf, `streams
      ensures add == Leads(b.tree, i)
      ensures add ==> State() == old(State()).(objects := objects)
      ensures add ==> i < |old(objects)| == |b.tree|
      ensures add ==>
        objects == old(objects)[i := b.tree[i].(streamUniqueId := PresetId(b, i), latestVersion := b.version)]
      ensures !add ==> Generated(b, i + 1, State())
    {
      ghost var w := State();
      LeadsIff(b, i, w);
      assert w.objects[i] == b.tree[i].(streamUniqueId := PresetId(b, i)) && |w.objects| == |w.streamOf| == |b.tree|;
      if !Leads(b.tree, i) {
        NoStreamStep(b, i, w);
        JoinedAnyway(w, i);
      }
      hide Generated, LeaderOf, PresetId, Joined;
      add := ShouldBeAdded(i);
      if !add {
        FixUpStreamReference(i);
      }
    }

    method GenerateInitialStream(ghost b: Backup, i: nat) returns (stream: Option<nat>)
      requires Working(b) && b.previous.None? && i < |b.tree| && Generated(b, i, State())
      modifies `objects, `streamOf, `streams, `knownGuids
      ensures Made(b, i, old(State()), stream)
    {
      var add := AddOrFixUp(b, i);
      if !add {
        return None;
      }
      var o := objects[i];
      stream := Some(|streams|);
      if o.guid.Some? {
        knownGuids := knownGuids[o.guid.value := |streams|];
      }
      streams := streams + [FullStream(o.streamUniqueId, [i])];
    }

    /** An object without an old self counts as changed. An unchanged one takes its version. */
    method FileHasChanged(i: nat) returns (ret: bool, existingVersion: int)
      requires i < |objects|
      modifies `objects
      ensures var o := old(objects[i]);
              var before := FindPath(oldObjects, o.path);
              && ret == (before.None? || changed(o.path, o.data, before.value.data))
              && existingVersion == (if ret then -1 else before.value.latestVersion)
              && objects == if ret then old(objects) else old(objects)[i := o.(latestVersion := existingVersion)]
    {
      existingVersion := -1;
      var newFile := objects[i];
      var oldFile := FindPath(oldObjects, newFile.path);
      if oldFile.None? {
        return true, existingVersion;
      }
      ret := changed(newFile.path, newFile.data, oldFile.value.data);
      if !ret {
        existingVersion := oldFile.value.latestVersion;
        objects := objects[i := newFile.(latestVersion := existingVersion)];
      }
    }

    method CheckAndMaybeAdd(ghost b: Backup, i: nat) returns (stream: Option<nat>, thrown: bool)
      requires Working(b) && b.previous.Some? && i < |b.tree| && Generated(b, i, State())
      modifies `objects, `streamOf, `streams, `knownGuids
      ensures thrown <==> Leads(b.tree, i) && Decide(b, i).Throw?
      ensures !thrown ==> Made(b, i, old(State()), stream)
    {
      thrown := false;
      var add := AddOrFixUp(b, i);
      if !add {
        return None, false;
      }
      var existingVersion := -1;
      if !objects[i].mode.ForceFull? {
        var hasChanged;
        hasChanged, existingVersion := FileHasChanged(i);
        if !hasChanged {
          objects := objects[i := objects[i].(mode := Unmodified)];
        }
      }
      var o := objects[i];
      var newStream;
      match o.mode {
        case Unmodified => newStream := UnmodifiedStream(o.streamUniqueId, [i], existingVersion);
        case ForceFull => newStream := FullStream(o.streamUniqueId, [i]);
        case Full => newStream := FullStream(o.streamUniqueId, [i]);
        case _ => return None, true;
      }
      stream := Some(|streams|);
      if o.guid.Some? {
        knownGuids := knownGuids[o.guid.value := |streams|];
      }
      streams := streams + [newStream];
    }

    method GetStreamId() returns (id: nat)
      modifies `nextStreamUniqueId
      ensures id == old(nextStreamUniqueId) && nextStreamUniqueId == id + 1
    {
      id := nextStreamUniqueId;
      nextStreamUniqueId := nextStreamUniqueId + 1;
    }

    method SetUniqueIds(i: nat)
      requires i < |objects|
      modifies `objects, `nextStreamUniqueId
      ensures objects == old(objects)[i := old(objects[i]).(streamUniqueId := old(nextStreamUniqueId))]
      ensures nextStreamUniqueId == old(nextStreamUniqueId) + 1
    {
      var id := GetStreamId();
      objects := objects[i := objects[i].(streamUniqueId := id)];
    }

    /** A stream with data gets the next id, and so does the object that leads it. */
    method AddStream(ghost b: Backup, i: nat, ghost w: Workspace, s: nat)
      requires i < |b.tree| && Generated(b, i, w) && Made(b, i, w, Some(s))
      modifies `objects, `streams, `withData, `nextStreamUniqueId
      ensures Generated(b, i + 1, State())
    {
      ghost var o, made := objects[i], streams[s];
      LeadStep(b, i, w, o, made);
      hide Generated, Decide, LeaderOf, LeadsAs;
      if streams[s].HasData() {
        SetUniqueIds(i);
        streams := streams[s := streams[s].WithId(objects[i].streamUniqueId)];
        withData := withData + [s];
      }
      assert State() == Finish(Led(w, i, o, made), i, made);
    }

    method GenerateStreams(ghost b: Backup, initial: bool) returns (thrown: bool)
      requires Working(b) && initial == b.previous.None? && Generated(b, 0, State())
      modifies `objects, `streamOf, `streams, `knownGuids, `withData, `nextStreamUniqueId
      ensures !thrown <==> Succeeds(b)
      ensures !thrown ==> Generated(b, |b.tree|, State())
    {
      assert |objects| == |b.tree|;
      for i := 0 to |objects|
        invariant |objects| == |b.tree|
        invariant Generated(b, i, State())
        invariant forall j | 0 <= j < i && Leads(b.tree, j) :: !Decide(b, j).Throw?
      {
        ghost var w := State();
        hide Generated, Decide, LeaderOf;
        var stream;
        if initial {
          stream := GenerateInitialStream(b, i);
        } else {
          stream, thrown := CheckAndMaybeAdd(b, i);
          if thrown {
            return true;
          }
        }
        if stream.Some? {
          AddStream(b, i, w, stream.value);
        }
      }
      return false;
    }

    /** The objects of a stream point at some stream. */
    ghost predicate Pointed(s: nat)
      requires s < |streams|
      reads this
    {
      forall j | j in streams[s].objects :: j < |streamOf| && streamOf[j].Some?
    }

    /** Points the objects of a stream with data at it. */
    method SetBackupStream(ghost b: Backup, s: nat)
      requires Generated(b, |b.tree|, State()) && s < |streams| && streams[s].HasData()
      modifies `streamOf
      ensures Generated(b, |b.tree|, State())
      ensures Pointed(s)
      ensures |streamOf| == |old(streamOf)|
      ensures forall j | 0 <= j < |streamOf| && old(streamOf)[j].Some? :: streamOf[j].Some?
    {
      ghost var w := State();
      var stream := streams[s];
      assert StreamDone(b, |b.tree|, stream);
      hide Decide, LeaderOf, LinkDone, GuidsDone, DataDone, StreamsDone, ObjectsDone;
      assert forall j | j in stream.objects :: j < |b.tree| && LeaderOf(b.tree, j) == Some(stream.objects[0])
                                               && Decide(b, stream.objects[0]).Store?;
      hide StreamDone;
      for n := 0 to |stream.objects|
        invariant |streamOf| == |b.tree|
        invariant LinksDone(b, |b.tree|, State())
        invariant forall m | 0 <= m < n :: stream.objects[m] < |streamOf| && streamOf[stream.objects[m]].Some?
        invariant forall j | 0 <= j < |streamOf| && w.streamOf[j].Some? :: streamOf[j].Some?
      {
        var y := stream.objects[n];
        assert y in stream.objects;
        PointKeepsLinks(b, State(), y, s);
        streamOf := streamOf[y := Some(s)];
      }
      LinksOnly(b, |b.tree|, w, State());
      assert Pointed(s) by {
        forall j | j in stream.objects
          ensures j < |streamOf| && streamOf[j].Some?
        {
          var m :| 0 <= m < |stream.objects| && stream.objects[m] == j;
        }
      }
    }

    /** Adds to the set the versions that the data of one object comes from. */
    method GetDependencies(i: nat, versionDependencies: set<int>) returns (r: set<int>)
      requires i < |objects| == |streamOf| && (streamOf[i].Some? ==> streamOf[i].value < |streams|)
      ensures r == versionDependencies + DependenciesOf(State(), i)
    {
      r := versionDependencies;
      if objects[i].latestVersion < 0 {
        return;
      }
      if streamOf[i].None? {
        if objects[i].latestVersion !in r {
          r := r + {objects[i].latestVersion};
        }
      } else {
        match streams[streamOf[i].value] {
          case FullStream(_, _) =>
          case UnmodifiedStream(_, _, containingVersion) => r := r + {containingVersion};
        }
      }
    }

    method GenerateArchive(ghost b: Backup, initial: bool) returns (thrown: bool)
      requires Working(b) && initial == b.previous.None? && Generated(b, 0, State())
      modifies this
      ensures !thrown <==> Succeeds(b)
      ensures archives == old(archives) + if thrown then [] else [NewArchive(b)]
    {
      var firstStreamId := nextStreamUniqueId;
      thrown := GenerateStreams(b, initial);
      if thrown {
        return;
      }
      var streamIds := AddFiles(b);
      var versionDependencies := CollectDependencies(b);
      var stored := seq(|objects|, i requires 0 <= i < |objects| reads this => Stored(objects[i]));
      assert stored == NewArchive(b).objects by {
        hide Written, NextId;
      }
      assert streamIds == Range(firstStreamId, nextStreamUniqueId) by {
        forall d | 0 <= d < |streamIds|
          ensures streamIds[d] == Range(firstStreamId, nextStreamUniqueId)[d]
        {
          RangeAt(firstStreamId, nextStreamUniqueId, d);
        }
      }
      var manifest := Manifest(NewVersionNumber(), firstStreamId, nextStreamUniqueId, versionDependencies);
      archives := archives + [Archive(manifest, stored, streamIds)];
    }

    /** Links the objects of the streams with data and adds these streams, in order. */
    method AddFiles(ghost b: Backup) returns (streamIds: seq<nat>)
      requires Generated(b, |b.tree|, State())
      modifies `streamOf
      ensures Linked(b, State())
      ensures |streamIds| == StoredBefore(b, |b.tree|)
      ensures forall d | 0 <= d < |streamIds| :: streamIds[d] == b.firstId + d
    {
      streamIds := [];
      for d := 0 to |withData|
        invariant Generated(b, |b.tree|, State())
        invariant |streamIds| == d
        invariant forall e | 0 <= e < d :: streamIds[e] == b.firstId + e
        invariant forall e | 0 <= e < d :: withData[e] < |streams| && Pointed(withData[e])
      {
        assert IsData(b, State(), d);
        SetBackupStream(b, withData[d]);
        streamIds := streamIds + [streams[withData[d]].uniqueId];
      }
      forall i | 0 <= i < |b.tree| && Stores(b, i)
        ensures streamOf[i].Some?
      {
        assert HasItsStream(b, i, State());
        assert i in streams[withData[StoredBefore(b, i)]].objects;
      }
    }

    method CollectDependencies(ghost b: Backup) returns (versionDependencies: set<int>)
      requires Linked(b, State())
      ensures versionDependencies == NewArchive(b).manifest.versionDependencies
    {
      versionDependencies := {};
      assert |objects| == |b.tree| == |streamOf|;
      hide Dependency, Generated;
      for i := 0 to |objects|
        invariant versionDependencies
               == set j | 0 <= j < i && Dependency(b, j).Some? :: Dependency(b, j).value
      {
        DependencyAgrees(b, State(), i);
        versionDependencies := GetDependencies(i, versionDependencies);
      }
    }

    method CreateInitialVersion(tree: seq<Fso>) returns (thrown: bool)
      requires Unused() && archives == [] && TreeValid(tree)
      modifies this
      ensures var b := BackupOf(old(archives), tree, changed);
              && (!thrown <==> Succeeds(b))
              && archives == old(archives) + if thrown then [] else [NewArchive(b)]
    {
      objects := tree;
      streamOf := seq(|tree|, _ => None);
      ghost var b := BackupOf(archives, tree, changed);
      NothingGenerated(b);
      assert objects == Preset(b);
      thrown := GenerateArchive(b, true);
    }

    /** The dictionary agrees with a search through the old objects. */
    method SetOldObjectsDict()
      requires DistinctPaths(oldObjects) && oldObjectsDict == map[]
      modifies `oldObjectsDict
      ensures forall p: Path ::
        FindPath(oldObjects, p) == if p in oldObjectsDict then Some(oldObjectsDict[p]) else None
    {
      for i := 0 to |oldObjects|
        invariant forall p: Path ::
          FindPath(oldObjects[..i], p) == if p in oldObjectsDict then Some(oldObjectsDict[p]) else None
      {
        var x := oldObjects[i];
        assert oldObjects[..i + 1] == oldObjects[..i] + [x];
        forall p: Path
          ensures FindPath(oldObjects[..i + 1], p)
               == if FindPath(oldObjects[..i], p).Some? then FindPath(oldObjects[..i], p)
                  else if x.path == p then Some(x) else None
        {
          FindPathAppend(oldObjects[..i], x, p);
        }
        assert FindPath(oldObjects[..i], x.path) == None;
        oldObjectsDict := oldObjectsDict[x.path := x];
      }
      assert oldObjects[..|oldObjects|] == oldObjects;
    }

    /** Every object starts with the stream id of its old self. */
    method PresetStreamIds(ghost b: Backup)
      requires b.previous == Some(oldObjects) && objects == b.tree
      requires forall p: Path ::
        FindPath(oldObjects, p) == if p in oldObjectsDict then Some(oldObjectsDict[p]) else None
      modifies `objects
      ensures objects == Preset(b)
    {
      for i := 0 to |objects|
        invariant |objects| == |b.tree|
        invariant forall j | 0 <= j < i :: objects[j] == b.tree[j].(streamUniqueId := PresetId(b, j))
        invariant forall j | i <= j < |b.tree| :: objects[j] == b.tree[j]
      {
        var path := objects[i].path;
        assert FindPath(oldObjects, path) == if path in oldObjectsDict then Some(oldObjectsDict[path]) else None;
        if path in oldObjectsDict {
          objects := objects[i := objects[i].(streamUniqueId := oldObjectsDict[path].streamUniqueId)];
        }
      }
    }

    method UpdateExistingVersion(tree: seq<Fso>) returns (thrown: bool)
      requires Unused() && archives != [] && TreeValid(tree)
      requires DistinctPaths(archives[|archives| - 1].objects)
      modifies this
      ensures var b := BackupOf(old(archives), tree, changed);
              && (!thrown <==> Succeeds(b))
              && archives == old(archives) + if thrown then [] else [NewArchive(b)]
    {
      var latest := archives[|archives| - 1];
      oldObjects := latest.objects;
      nextStreamUniqueId := latest.manifest.nextStreamUniqueId;
      SetOldObjectsDict();
      objects := tree;
      streamOf := seq(|tree|, _ => None);
      ghost var b := BackupOf(archives, tree, changed);
      NothingGenerated(b);
      hide Generated, NewArchive, Succeeds, TreeValid;
      PresetStreamIds(b);
      thrown := GenerateArchive(b, false);
    }

    /** One backup: the archive it adds is the one the specification gives, and a backup that throws adds none. On a
        valid chain and a tree as file systems give it, it throws exactly when it should and the archive records what
        it must. */
    method PerformBackup(tree: seq<Fso>) returns (thrown: bool)
      requires Unused() && TreeValid(tree)
      requires archives != [] ==> DistinctPaths(archives[|archives| - 1].objects)
      modifies this
      ensures var b := BackupOf(old(archives), tree, changed);
              && (!thrown <==> Succeeds(b))
              && archives == old(archives) + if thrown then [] else [NewArchive(b)]
      ensures Ready(old(archives), Session(tree, changed)) ==>
        if Throws(old(archives), Session(tree, changed)) then archives == old(archives)
        else
          && |archives| == |old(archives)| + 1 && old(archives) <= archives
          && Records(old(archives), Session(tree, changed), archives[|old(archives)|])
    {
      if NewVersionNumber() == 0 {
        thrown := CreateInitialVersion(tree);
      } else {
        thrown := UpdateExistingVersion(tree);
      }
      BackupMeans(old(archives), Session(tree, changed));
    }
  }

  // ---------- runs of backups ----------

  /** One engine after the other on the same target: whatever the trees and the criteria are and whichever backups
      throw, the data of every object is where its LatestVersion says. */
  method BackupRepeatedly(sessions: seq<Session>) returns (archives: seq<Archive>)
    requires forall s | s in sessions :: FreshTree(s.tree)
    ensures archives == RunBackups(sessions)
    ensures ChainValid(archives)
  {
    archives := [];
    hide NewArchive, Succeeds, TreeValid, DistinctPaths, BackupOf, ChainValid;
    for n := 0 to |sessions|
      invariant archives == RunBackups(sessions[..n])
    {
      assert FreshTree(sessions[n].tree);
      assert sessions[..n + 1][..n] == sessions[..n];
      assert forall s | s in sessions[..n] :: FreshTree(s.tree);
      RunKeepsPaths(sessions[..n]);
      var engine := new BackupEngine(archives, sessions[n].changed);
      var thrown := engine.PerformBackup(sessions[n].tree);
      archives := engine.archives;
    }
    assert sessions[..|sessions|] == sessions;
    EveryRunIsValid(sessions);
  }
}
