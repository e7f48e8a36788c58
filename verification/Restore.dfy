/** How restore finds the versions it needs (RestoreBackup in BackupEngine.cs, VersionForRestore.cs).

    Dependencies are visited in any order: a manifest lists them as a set here. */
module Restore {
  import opened BackupSpec

  function Dependencies(archives: seq<Archive>, v: int): set<int>
    requires 0 <= v < |archives|
  {
    archives[v].manifest.versionDependencies
  }

  /** Version w is v itself or a dependency of one that v reaches. */
  ghost predicate Reaches(archives: seq<Archive>, v: int, w: int)
    requires ChainValid(archives) && 0 <= v < |archives|
    decreases v
  {
    assert ArchiveValid(archives, v);
    v == w || exists d | d in Dependencies(archives, v) :: Reaches(archives, d, w)
  }

  ghost predicate Needed(archives: seq<Archive>, latest: int, w: int)
    requires ChainValid(archives) && 0 <= latest < |archives|
  {
    0 <= w < |archives| && Reaches(archives, latest, w)
  }

  lemma DependenciesAreEarlier(archives: seq<Archive>, v: int)
    requires ChainValid(archives) && 0 <= v < |archives|
    ensures forall d | d in Dependencies(archives, v) :: 0 <= d < v
  {
    assert ArchiveValid(archives, v);
  }

  lemma {:induction false} ReachesStep(archives: seq<Archive>, v: int, w: int, d: int)
    requires ChainValid(archives) && 0 <= v < |archives| && Reaches(archives, v, w)
    requires 0 <= w < |archives| && d in Dependencies(archives, w)
    ensures 0 <= d < |archives| && Reaches(archives, v, d)
    decreases v
  {
    DependenciesAreEarlier(archives, v);
    DependenciesAreEarlier(archives, w);
    if v != w {
      var e :| e in Dependencies(archives, v) && Reaches(archives, e, w);
      ReachesStep(archives, e, w, d);
    } else {
      assert Reaches(archives, d, d);
    }
  }

  lemma {:induction false} ReachesBack(archives: seq<Archive>, v: int, w: int)
    requires ChainValid(archives) && 0 <= v < |archives| && Reaches(archives, v, w)
    ensures 0 <= w <= v
    decreases v
  {
    DependenciesAreEarlier(archives, v);
    if v != w {
      var e :| e in Dependencies(archives, v) && Reaches(archives, e, w);
      ReachesBack(archives, e, w);
    }
  }

  /** A set of versions that contains v and the dependencies of its members has all that v reaches. */
  lemma {:induction false} ClosedHasAll(archives: seq<Archive>, closed: set<int>, v: int, w: int)
    requires ChainValid(archives) && 0 <= v < |archives| && Reaches(archives, v, w) && v in closed
    requires forall x | x in closed :: 0 <= x < |archives| && Dependencies(archives, x) <= closed
    ensures w in closed
    decreases v
  {
    DependenciesAreEarlier(archives, v);
    if v != w {
      var e :| e in Dependencies(archives, v) && Reaches(archives, e, w);
      ClosedHasAll(archives, closed, e, w);
    }
  }

  // ---------- the objects of restore ----------

  class VersionForRestore {
    const versionNumber: int
    const manifest: Manifest
    var dependencies: map<int, VersionForRestore>
    var dependenciesFull: bool

    constructor (version: int, archives: seq<Archive>)
      requires 0 <= version < |archives|
      ensures versionNumber == version && manifest == archives[version].manifest
      ensures dependencies == map[] && !dependenciesFull
    {
      versionNumber := version;
      manifest := archives[version].manifest;
      dependencies := map[];
      dependenciesFull := false;
    }

    /** Every lookup in the dictionary finds its version. */
    method MapDependencies(ghost archives: seq<Archive>, dict: map<int, VersionForRestore>)
      requires Opened(archives, dict) && Sound(archives, dict)
      requires versionNumber in dict && dict[versionNumber] == this && !dependenciesFull
      modifies `dependencies
      ensures Sound(archives, dict)
      ensures forall d | d in Dependencies(archives, versionNumber) :: d in dependencies
    {
      hide ChainValid, Opened;
      AllOpened(archives, dict);
      var me := versionNumber;
      var left := manifest.versionDependencies;
      while exists x :: x in left
        modifies `dependencies
        invariant forall d | d in left :: d in Dependencies(archives, me)
        invariant forall d | d in Dependencies(archives, me) :: d in left || d in dependencies
        invariant Sound(archives, dict)
        decreases |left|
      {
        var x: int :| x in left;
        assert x in dict;
        label before:
        dependencies := dependencies[x := dict[x]];
        left := left - {x};
        assert MapsItsOwn(archives, dict, me);
        forall v | v in dict && v != me
          ensures MapsItsOwn(archives, dict, v) && (dict[v].dependenciesFull ==> Filled(archives, dict, v))
        {
          assert old@before(MapsItsOwn(archives, dict, v) && (dict[v].dependenciesFull ==> Filled(archives, dict, v)));
        }
      }
    }

    /** Maps every dependency to its object, here and in everything this version reaches. */
    method FillDependencies(ghost archives: seq<Archive>, dict: map<int, VersionForRestore>)
      requires Opened(archives, dict) && Sound(archives, dict)
      requires versionNumber in dict && dict[versionNumber] == this
      modifies dict.Values
      ensures Sound(archives, dict) && dependenciesFull
      ensures forall v | v in dict && old(dict[v].dependenciesFull) :: dict[v].dependenciesFull
      ensures forall v | v in dict && versionNumber < v :: unchanged(dict[v])
      decreases versionNumber
    {
      if dependenciesFull {
        return;
      }
      var me := versionNumber;
      assert dict[me] in dict.Values;
      AllOpened(archives, dict);
      DependenciesAreEarlier(archives, me);
      MapDependencies(archives, dict);
      var all := dependencies;
      assert MapsItsOwn(archives, dict, me);
      hide ChainValid, Opened;
      var left := all.Keys;
      while exists x :: x in left
        invariant forall d | d in left :: d in all
        invariant Sound(archives, dict) && dependencies == all && !dependenciesFull
        invariant forall d | d in all && d !in left :: dict[d].dependenciesFull
        invariant forall v | v in dict && old(dict[v].dependenciesFull) :: dict[v].dependenciesFull
        invariant forall v | v in dict && me < v :: unchanged(dict[v])
        decreases |left|
      {
        var x :| x in left;
        all[x].FillDependencies(archives, dict);
        left := left - {x};
      }
      label mapped:
      dependenciesFull := true;
      assert MapsItsOwn(archives, dict, me) && Filled(archives, dict, me);
      forall v | v in dict && v != me
        ensures MapsItsOwn(archives, dict, v) && (dict[v].dependenciesFull ==> Filled(archives, dict, v))
      {
        assert old@mapped(MapsItsOwn(archives, dict, v) && (dict[v].dependenciesFull ==> Filled(archives, dict, v)));
      }
    }
  }

  /** The dictionary holds one object for each of its versions, and with a version its dependencies. */
  ghost predicate Opened(archives: seq<Archive>, dict: map<int, VersionForRestore>) {
    && ChainValid(archives)
    && forall v | v in dict ::
         && 0 <= v < |archives|
         && dict[v].versionNumber == v
         && dict[v].manifest == archives[v].manifest
         && Dependencies(archives, v) <= dict.Keys
  }

  lemma AllOpened(archives: seq<Archive>, dict: map<int, VersionForRestore>)
    requires Opened(archives, dict)
    ensures ChainValid(archives)
    ensures forall v | v in dict ::
              && 0 <= v < |archives|
              && dict[v].versionNumber == v
              && dict[v].manifest == archives[v].manifest
    ensures forall v, d | v in dict && d in Dependencies(archives, v) :: d in dict
  {
  }

  /** What a version maps are its dependencies, to their objects; one that calls itself full maps all of them, and
      these are full. */
  ghost predicate Sound(archives: seq<Archive>, dict: map<int, VersionForRestore>)
    requires Opened(archives, dict)
    reads dict.Values
  {
    forall v | v in dict ::
      && MapsItsOwn(archives, dict, v)
      && (dict[v].dependenciesFull ==> Filled(archives, dict, v))
  }

  ghost predicate MapsItsOwn(archives: seq<Archive>, dict: map<int, VersionForRestore>, v: int)
    requires Opened(archives, dict) && v in dict
    reads dict.Values
  {
    forall d | d in dict[v].dependencies :: d in Dependencies(archives, v) && dict[v].dependencies[d] == dict[d]
  }

  ghost predicate Filled(archives: seq<Archive>, dict: map<int, VersionForRestore>, v: int)
    requires Opened(archives, dict) && v in dict
    reads dict.Values
  {
    && dict[v].dependenciesFull
    && (forall d | d in Dependencies(archives, v) :: d in dict[v].dependencies)
    && forall d | d in dict[v].dependencies ::
         d in Dependencies(archives, v) && dict[v].dependencies[d] == dict[d] && dict[d].dependenciesFull
  }

  /** Once a version is full, so is everything it reaches. */
  lemma {:induction false} FullReachesFull(archives: seq<Archive>, dict: map<int, VersionForRestore>, v: int, w: int)
    requires Opened(archives, dict) && Sound(archives, dict) && v in dict && dict[v].dependenciesFull
    requires Reaches(archives, v, w)
    ensures w in dict && Filled(archives, dict, w)
    decreases v
  {
    DependenciesAreEarlier(archives, v);
    assert Filled(archives, dict, v);
    if v != w {
      var e :| e in Dependencies(archives, v) && Reaches(archives, e, w);
      assert e in dict[v].dependencies;
      FullReachesFull(archives, dict, e, w);
    }
  }

  /** The versions restore opens are exactly those the latest one reaches, each opened once, and afterwards every
      one of them knows its dependencies. */
  method InitializeStructures(archives: seq<Archive>)
    returns (versions: map<int, VersionForRestore>, opens: seq<int>)
    requires ChainValid(archives) && archives != []
    ensures forall w :: w in versions <==> Reaches(archives, |archives| - 1, w)
    ensures forall w :: w in opens <==> w in versions
    ensures forall i, j | 0 <= i < j < |opens| :: opens[i] != opens[j]
    ensures Opened(archives, versions)
    ensures forall w: int | w in versions :: Filled(archives, versions, w)
  {
    var latest: int := |archives| - 1;
    versions, opens := OpenVersions(archives);
    forall w
      ensures w in versions <==> Reaches(archives, latest, w)
    {
      if Reaches(archives, latest, w) {
        ClosedHasAll(archives, versions.Keys, latest, w);
      }
    }
    versions[latest].FillDependencies(archives, versions);
    forall w | w in versions
      ensures Filled(archives, versions, w)
    {
      FullReachesFull(archives, versions, latest, w);
    }
  }

  ghost function Unopened(archives: seq<Archive>, versions: map<int, VersionForRestore>): set<int> {
    set v | 0 <= v < |archives| && v !in versions
  }

  /** The worklist: a version is opened when it is first popped. */
  method OpenVersions(archives: seq<Archive>) returns (versions: map<int, VersionForRestore>, opens: seq<int>)
    requires ChainValid(archives) && archives != []
    ensures Opened(archives, versions) && Sound(archives, versions)
    ensures fresh(versions.Values)
    ensures |archives| - 1 in versions
    ensures forall w: int | w in versions :: Reaches(archives, |archives| - 1, w)
    ensures forall w :: w in opens <==> w in versions
    ensures forall i, j | 0 <= i < j < |opens| :: opens[i] != opens[j]
  {
    var latest: int := |archives| - 1;
    assert Reaches(archives, latest, latest);
    hide Reaches, ChainValid;
    var stack: seq<int> := [latest];
    ghost var objects := {};
    versions, opens := map[], [];
    while stack != []
      invariant forall w: int | w in stack :: Needed(archives, latest, w)
      invariant forall w: int | w in versions :: Needed(archives, latest, w)
      invariant latest in stack || latest in versions
      invariant forall v, d | v in versions && d in Dependencies(archives, v) :: d in versions || d in stack
      invariant forall v | v in versions ::
          && versions[v].versionNumber == v
          && versions[v].manifest == archives[v].manifest
          && versions[v].dependencies == map[] && !versions[v].dependenciesFull
      invariant versions.Values <= objects && fresh(objects)
      invariant forall w :: w in opens <==> w in versions
      invariant forall i, j | 0 <= i < j < |opens| :: opens[i] != opens[j]
      decreases Unopened(archives, versions), |stack|
    {
      var versionNumber := stack[|stack| - 1];
      assert versionNumber in stack;
      assert forall w: int | w in stack[..|stack| - 1] :: w in stack;
      assert forall w: int | w in stack :: w in stack[..|stack| - 1] || w == versionNumber;
      stack := stack[..|stack| - 1];
      if versionNumber !in versions {
        ghost var before := versions;
        var version := new VersionForRestore(versionNumber, archives);
        objects := objects + {version};
        versions := versions[versionNumber := version];
        opens := opens + [versionNumber];
        stack := PushDependencies(archives, latest, stack, versionNumber);
        assert versionNumber in Unopened(archives, before) - Unopened(archives, versions);
      }
    }
    forall v | v in versions
      ensures 0 <= v < |archives| && Dependencies(archives, v) <= versions.Keys
    {
      assert Needed(archives, latest, v);
      assert forall d | d in Dependencies(archives, v) :: d in versions;
    }
  }

  method PushDependencies(archives: seq<Archive>, latest: int, stack: seq<int>, v: int) returns (r: seq<int>)
    requires ChainValid(archives) && 0 <= latest < |archives|
    requires 0 <= v < |archives| && Reaches(archives, latest, v)
    requires forall w: int | w in stack :: Needed(archives, latest, w)
    ensures forall w: int :: w in r <==> w in stack || w in Dependencies(archives, v)
    ensures forall w: int | w in r :: Needed(archives, latest, w)
  {
    hide Reaches, ChainValid;
    r := stack;
    var left := archives[v].manifest.versionDependencies;
    while exists x :: x in left
      invariant left <= Dependencies(archives, v)
      invariant forall w: int :: w in r <==> w in stack || w in Dependencies(archives, v) - left
      invariant forall w: int | w in r :: Needed(archives, latest, w)
      decreases |left|
    {
      var x: int :| x in left;
      ReachesStep(archives, latest, v, x);
      r := r + [x];
      left := left - {x};
    }
  }
}
