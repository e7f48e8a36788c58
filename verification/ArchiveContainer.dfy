/** The archive container (Archive/ArchiveWriter.cs, Archive/ArchiveReader.cs, Streams/BoundedStream.cs): the file
    streams, the objects, the manifest, the length of the manifest in eight bytes and a hash of all of it. The
    reader works from the end.

    Filters (compression, encryption), serializers and the hash are parameters. */
module Container {
  import opened ByteStrings

  const HASH_SIZE := 256 / 8
  const LENGTH_SIZE := 8

  /** What an output filter writes for a stream of bytes and what an input filter makes of what follows. */
  datatype Filter = Filter(encode: Bytes -> Bytes, decode: Bytes -> Bytes) {
    /** Decoding undoes encoding, and bytes after the encoded ones do not disturb the decoded ones. */
    ghost predicate Valid() {
      && (forall x :: decode(encode(x)) == x)
      && (forall x, rest :: x <= decode(encode(x) + rest))
    }
  }

  datatype Metadata = Metadata(entrySizes: seq<nat>, streamIds: seq<nat>, streamSizes: seq<nat>,
                               entriesSizeInArchive: nat)

  datatype VersionManifest<V> = VersionManifest(version: V, metadata: Metadata)

  /** `full` is the chain of all filters, `plain` the one without encryption, which the manifest goes through. */
  datatype Format<!O(!new), !V(!new)> = Format(
      full: Filter, plain: Filter,
      writeObject: O -> Bytes, readObject: Bytes -> Option<O>,
      writeManifest: VersionManifest<V> -> Bytes, readManifest: Bytes -> Option<VersionManifest<V>>,
      sha256: Bytes -> Bytes)
  {
    ghost predicate Valid() {
      && full.Valid()
      && plain.Valid()
      && (forall o :: readObject(writeObject(o)) == Some(o))
      && (forall m :: readManifest(writeManifest(m)) == Some(m))
      && (forall x :: |sha256(x)| == HASH_SIZE)
    }
  }

  // ---------- the length field ----------

  function Power(k: nat): nat {
    if k == 0 then 1 else 256 * Power(k - 1)
  }

  /** BitConverter.GetBytes: the lowest byte first. */
  function LittleEndian(n: nat, k: nat): (r: Bytes)
    ensures |r| == k
  {
    if k == 0 then [] else [n % 256] + LittleEndian(n / 256, k - 1)
  }

  function Unsigned(b: Bytes): nat {
    if b == [] then 0 else b[0] + 256 * Unsigned(b[1..])
  }

  /** BitConverter.ToInt64: two's complement. */
  function ToInt64(b: Bytes): int
    requires |b| == LENGTH_SIZE
  {
    var n := Unsigned(b);
    if n < TWO_TO_63 then n else n - TWO_TO_64
  }

  /** The last byte weighs most. */
  lemma {:induction false} UnsignedSnoc(b: Bytes, x: byte)
    ensures Unsigned(b + [x]) == Unsigned(b) + x * Power(|b|)
  {
    if b == [] {
      assert [x][1..] == [];
    } else {
      TailOfSum(b, [x]);
      UnsignedSnoc(b[1..], x);
      assert Power(|b|) == 256 * Power(|b| - 1);
      assert x * (256 * Power(|b| - 1)) == 256 * (x * Power(|b| - 1));
    }
  }

  lemma {:induction false} LittleEndianReads(n: nat, k: nat)
    requires n < Power(k)
    ensures Unsigned(LittleEndian(n, k)) == n
  {
    if k > 0 {
      LittleEndianReads(n / 256, k - 1);
      assert LittleEndian(n, k)[1..] == LittleEndian(n / 256, k - 1);
    }
  }

  lemma LengthFieldReads(n: nat)
    requires n < TWO_TO_63
    ensures ToInt64(LittleEndian(n, LENGTH_SIZE)) == n
  {
    assert Power(8) == TWO_TO_64 by {
      assert Power(2) == 0x1_0000 && Power(4) == 0x1_0000_0000 && Power(6) == 0x1_0000_0000_0000;
    }
    LittleEndianReads(n, LENGTH_SIZE);
  }

  // ---------- consecutive pieces ----------

  function Sizes(pieces: seq<Bytes>): (r: seq<nat>)
    ensures |r| == |pieces|
  {
    seq(|pieces|, i requires 0 <= i < |pieces| => |pieces[i]|)
  }

  /** What reading pieces of the given sizes one after the other delivers. */
  function Cut(data: Bytes, sizes: seq<nat>): (r: seq<Bytes>)
    ensures |r| == |sizes|
    decreases |sizes|
  {
    if sizes == [] then [] else [Take(data, sizes[0])] + Cut(From(data, sizes[0]), sizes[1..])
  }

  lemma {:induction false} CutUndoesFlatten(pieces: seq<Bytes>, rest: Bytes)
    ensures Cut(Flatten(pieces) + rest, Sizes(pieces)) == pieces
  {
    if pieces == [] {
      assert Sizes(pieces) == [];
    } else {
      PiecesStep(pieces);
      CutStep(pieces[0], Flatten(pieces[1..]) + rest, Sizes(pieces[1..]));
      Associative(pieces[0], Flatten(pieces[1..]), rest);
      hide Cut, Sizes, Flatten;
      CutUndoesFlatten(pieces[1..], rest);
    }
  }

  lemma PiecesStep(pieces: seq<Bytes>)
    requires pieces != []
    ensures pieces == [pieces[0]] + pieces[1..]
    ensures Flatten(pieces) == pieces[0] + Flatten(pieces[1..])
    ensures Sizes(pieces) == [|pieces[0]|] + Sizes(pieces[1..])
  {
  }

  lemma CutStep(piece: Bytes, tail: Bytes, sizes: seq<nat>)
    ensures Cut(piece + tail, [|piece|] + sizes) == [piece] + Cut(tail, sizes)
  {
    assert ([|piece|] + sizes)[1..] == sizes;
    assert Take(piece + tail, |piece|) == piece;
    assert From(piece + tail, |piece|) == tail;
  }

  function Sum(sizes: seq<nat>): nat {
    if sizes == [] then 0 else Sum(sizes[..|sizes| - 1]) + sizes[|sizes| - 1]
  }

  lemma {:induction false} CutSnoc(data: Bytes, sizes: seq<nat>, n: nat)
    ensures Cut(data, sizes + [n]) == Cut(data, sizes) + [Slice(data, Sum(sizes), n)]
    decreases |sizes|
  {
    if sizes == [] {
      assert From(data, 0) == data;
      assert [n][1..] == [];
    } else {
      var rest := From(data, sizes[0]);
      CutSnoc(rest, sizes[1..], n);
      assert (sizes + [n])[1..] == sizes[1..] + [n];
      SumHead(sizes);
      assert From(rest, Sum(sizes[1..])) == From(data, Sum(sizes));
    }
  }

  lemma {:induction false} SumHead(sizes: seq<nat>)
    requires sizes != []
    ensures Sum(sizes) == sizes[0] + Sum(sizes[1..])
    decreases |sizes|
  {
    if |sizes| > 1 {
      SumHead(sizes[..|sizes| - 1]);
      assert sizes[1..][..|sizes| - 2] == sizes[..|sizes| - 1][1..];
    }
  }

  lemma NothingConsumed(data: Bytes, sizes: seq<nat>)
    ensures Cursor(data, sizes, 0) == 0 && Cut(data, sizes[..0]) == []
  {
  }

  /** One more piece; where the data has ended, the cursor stays at the end. */
  lemma NextPiece(data: Bytes, sizes: seq<nat>, i: nat)
    requires i < |sizes|
    ensures Cut(data, sizes[..i + 1])
         == Cut(data, sizes[..i]) + [Slice(data, Min(Sum(sizes[..i]), |data|), sizes[i])]
    ensures Min(Sum(sizes[..i + 1]), |data|)
         == Min(Sum(sizes[..i]), |data|) + |Slice(data, Min(Sum(sizes[..i]), |data|), sizes[i])|
  {
    assert sizes[..i + 1] == sizes[..i] + [sizes[i]];
    assert sizes[..i + 1][..i] == sizes[..i];
    CutSnoc(data, sizes[..i], sizes[i]);
    assert Slice(data, Sum(sizes[..i]), sizes[i]) == Slice(data, Min(Sum(sizes[..i]), |data|), sizes[i]);
  }

  /** Where the cursor stands behind the first i pieces. */
  ghost function Cursor(data: Bytes, sizes: seq<nat>, i: nat): nat
    requires i <= |sizes|
  {
    Min(Sum(sizes[..i]), |data|)
  }

  // ---------- what an archive is ----------

  /** A stream that was added: its id and its bytes. */
  datatype File = File(id: nat, bytes: Bytes)

  function Ids(files: seq<File>): (r: seq<nat>)
    ensures |r| == |files|
  {
    seq(|files|, i requires 0 <= i < |files| => files[i].id)
  }

  function Contents(files: seq<File>): (r: seq<Bytes>)
    ensures |r| == |files|
  {
    seq(|files|, i requires 0 <= i < |files| => files[i].bytes)
  }

  function Entries<O(!new), V(!new)>(f: Format<O, V>, objects: seq<O>): (r: seq<Bytes>)
    ensures |r| == |objects|
  {
    seq(|objects|, i requires 0 <= i < |objects| => f.writeObject(objects[i]))
  }

  /** Without any file there is no filtered section for files. */
  function FileSection<O(!new), V(!new)>(f: Format<O, V>, files: seq<File>): Bytes {
    if files == [] then [] else f.full.encode(Flatten(Contents(files)))
  }

  function ObjectSection<O(!new), V(!new)>(f: Format<O, V>, objects: seq<O>): Bytes {
    f.full.encode(Flatten(Entries(f, objects)))
  }

  function ManifestOf<O(!new), V(!new)>(f: Format<O, V>, files: seq<File>, objects: seq<O>, version: V)
    : VersionManifest<V>
  {
    VersionManifest(version, Metadata(Sizes(Entries(f, objects)), Ids(files), Sizes(Contents(files)),
                                      |ObjectSection(f, objects)|))
  }

  function ManifestSection<O(!new), V(!new)>(f: Format<O, V>, m: VersionManifest<V>): Bytes {
    f.plain.encode(f.writeManifest(m))
  }

  /** The file for the given streams, objects and version. */
  function ArchiveFile<O(!new), V(!new)>(f: Format<O, V>, files: seq<File>, objects: seq<O>, version: V): Bytes {
    var m := ManifestSection(f, ManifestOf(f, files, objects, version));
    var hashed := FileSection(f, files) + ObjectSection(f, objects) + m + LittleEndian(|m|, LENGTH_SIZE);
    hashed + f.sha256(hashed)
  }

  lemma EndsWith(hashed: Bytes, hash: Bytes)
    ensures (hashed + hash)[|hashed + hash| - |hash|..] == hash
    ensures (hashed + hash)[..|hashed + hash| - |hash|] == hashed
  {
  }

  // ---------- the writer ----------

  datatype ArchiveState = Initial | PushingFiles | PushingFsos | Final {
    function Rank(): nat {
      match this
      case Initial => 0
      case PushingFiles => 1
      case PushingFsos => 2
      case Final => 3
    }
  }

  /** A call in the wrong state throws InvalidProgramState: the result is false and nothing changes. */
  class ArchiveWriter<O(!new), V(!new)> {
    const format: Format<O, V>
    var state: ArchiveState
    /** The file; until the end everything goes into it through the hash. */
    var file: Bytes
    /** What went into the current output filter. */
    var filterInput: Bytes
    var streamIds: seq<nat>
    var streamSizes: seq<nat>
    var baseObjectEntrySizes: seq<nat>
    var initialFsoOffset: nat
    var anyFile: bool

    /** What was added so far. */
    ghost var files: seq<File>
    ghost var objects: seq<O>

    ghost predicate Valid()
      reads this
    {
      && streamIds == Ids(files)
      && streamSizes == Sizes(Contents(files))
      && baseObjectEntrySizes == Sizes(Entries(format, objects))
      && anyFile == (files != [])
      && (state.Initial? || state.PushingFiles? ==> objects == [] && file == [])
      && (state.Initial? ==> files == [])
      && (state.PushingFiles? ==> files != [] && filterInput == Flatten(Contents(files)))
      && (state.PushingFsos? ==>
            && objects != []
            && file == FileSection(format, files)
            && initialFsoOffset == |file|
            && filterInput == Flatten(Entries(format, objects)))
    }

    constructor (format: Format<O, V>)
      ensures Valid() && this.format == format && state == Initial && files == [] && objects == []
    {
      this.format := format;
      state, file, filterInput := Initial, [], [];
      streamIds, streamSizes, baseObjectEntrySizes, initialFsoOffset, anyFile := [], [], [], 0, false;
      files, objects := [], [];
    }

    method AddFile(streamId: nat, bytes: Bytes) returns (ok: bool)
      requires Valid()
      modifies this
      ensures Valid() && objects == old(objects)
      ensures ok == (old(state).Initial? || old(state).PushingFiles?)
      ensures files == old(files) + if ok then [File(streamId, bytes)] else []
      ensures state == if ok then PushingFiles else old(state)
      ensures !ok ==> file == old(file)
    {
      if state.Rank() > PushingFiles.Rank() {
        return false;
      }
      if state.Initial? {
        filterInput := [];
        state := PushingFiles;
      }
      streamIds := streamIds + [streamId];
      streamSizes := streamSizes + [|bytes|];
      FlattenSnoc(Contents(files), bytes);
      filterInput := filterInput + bytes;
      anyFile := true;
      files := files + [File(streamId, bytes)];
      assert Contents(files) == Contents(old(files)) + [bytes];
      assert Ids(files) == Ids(old(files)) + [streamId];
      assert Sizes(Contents(files)) == Sizes(Contents(old(files))) + [|bytes|];
      return true;
    }

    method AddFso(fso: O) returns (ok: bool)
      requires Valid()
      modifies this
      ensures Valid() && files == old(files)
      ensures ok == !old(state).Final?
      ensures objects == old(objects) + if ok then [fso] else []
      ensures state == if ok then PushingFsos else old(state)
      ensures !ok ==> file == old(file)
    {
      if state.Rank() > PushingFsos.Rank() {
        return false;
      }
      if state.Initial? {
        initialFsoOffset := |file|;
        filterInput := [];
        state := PushingFsos;
      } else if state.PushingFiles? {
        file := file + format.full.encode(filterInput);
        initialFsoOffset := |file|;
        filterInput := [];
        state := PushingFsos;
      }
      var x0 := |filterInput|;
      var written := format.writeObject(fso);
      FlattenSnoc(Entries(format, objects), written);
      filterInput := filterInput + written;
      var x1 := |filterInput|;
      baseObjectEntrySizes := baseObjectEntrySizes + [x1 - x0];
      objects := objects + [fso];
      assert Entries(format, objects) == Entries(format, old(objects)) + [written];
      assert Sizes(Entries(format, objects)) == Sizes(Entries(format, old(objects))) + [|written|];
      return true;
    }

    /** Completes the file. At least one object must have been added. The file begins with what the filters make of
        all streams, if there are any, and of all objects, and ends with the hash of everything before it. */
    method AddVersionManifest(version: V) returns (ok: bool)
      requires Valid()
      modifies this
      ensures Valid() && files == old(files) && objects == old(objects)
      ensures ok == old(state).PushingFsos?
      ensures state == if ok then Final else old(state)
      ensures file == if ok then ArchiveFile(format, files, objects, version) else old(file)
      ensures ok && files != [] ==>
        format.full.encode(Flatten(Contents(files))) + format.full.encode(Flatten(Entries(format, objects))) <= file
      ensures ok && files == [] ==> format.full.encode(Flatten(Entries(format, objects))) <= file
      ensures ok && format.Valid() ==>
        && HASH_SIZE <= |file|
        && file[|file| - HASH_SIZE..] == format.sha256(file[..|file| - HASH_SIZE])
    {
      hide LittleEndian, Flatten, Sizes, Contents, Ids, Entries;
      if state.Rank() < PushingFsos.Rank() {
        return false;
      }
      if state.Rank() > PushingFsos.Rank() {
        return false;
      }
      file := file + format.full.encode(filterInput);
      var metadata := Metadata(baseObjectEntrySizes, streamIds, streamSizes, |file| - initialFsoOffset);
      var x0 := |file|;
      file := file + format.plain.encode(format.writeManifest(VersionManifest(version, metadata)));
      var x1 := |file|;
      var manifestLength := x1 - x0;
      file := file + LittleEndian(manifestLength, LENGTH_SIZE);
      ghost var hashed := file;
      file := file + format.sha256(file);
      EndsWith(hashed, format.sha256(hashed));
      state := Final;
      return true;
    }
  }

  // ---------- what the reader makes of a file ----------

  /** A manifest and where its section starts. */
  datatype Located<V> = Located(manifest: VersionManifest<V>, offset: nat)

  function FindManifest<O(!new), V(!new)>(f: Format<O, V>, file: Bytes): (r: Option<Located<V>>)
    ensures r.Some? ==> r.value.offset <= |file|
  {
    var start := |file| - LENGTH_SIZE - HASH_SIZE;
    if start < 0 then None
    else
      var size := ToInt64(file[start..start + LENGTH_SIZE]);
      if size < 0 || start < size then None
      else
        var m := f.readManifest(f.plain.decode(file[start - size..start]));
        if m.None? then None else Some(Located(m.value, start - size))
  }

  /** Every entry must deserialize. */
  function ReadEntries<O(!new), V(!new)>(f: Format<O, V>, entries: seq<Bytes>): Option<seq<O>> {
    if entries == [] then Some([])
    else
      var n := |entries| - 1;
      var before := ReadEntries(f, entries[..n]);
      var last := f.readObject(entries[n]);
      if before.None? || last.None? then None else Some(before.value + [last.value])
  }

  lemma {:induction false} CutPrefix(data: Bytes, sizes: seq<nat>, i: nat)
    requires i <= |sizes|
    ensures Cut(data, sizes)[..i] == Cut(data, sizes[..i])
    decreases i
  {
    if i > 0 {
      CutPrefix(From(data, sizes[0]), sizes[1..], i - 1);
      assert sizes[..i][1..] == sizes[1..][..i - 1];
    }
  }

  /** One entry that does not deserialize fails the whole read. */
  lemma {:induction false} NoneStays<O(!new), V(!new)>(f: Format<O, V>, entries: seq<Bytes>, i: nat)
    requires i <= |entries| && ReadEntries(f, entries[..i]) == None
    ensures ReadEntries(f, entries) == None
    decreases |entries|
  {
    if i < |entries| {
      var n := |entries| - 1;
      assert entries[..n][..i] == entries[..i];
      NoneStays(f, entries[..n], i);
    } else {
      assert entries[..i] == entries;
    }
  }

  function FindObjects<O(!new), V(!new)>(f: Format<O, V>, file: Bytes): Option<seq<O>> {
    var m := FindManifest(f, file);
    if m.None? then None
    else
      var start := m.value.offset - m.value.manifest.metadata.entriesSizeInArchive;
      if start < 0 then None
      else ReadEntries(f, Cut(f.full.decode(file[start..m.value.offset]), m.value.manifest.metadata.entrySizes))
  }

  /** How many bytes of each stream the callback reads: what it asks for, within the bound. */
  function Consumed(sizes: seq<nat>, wanted: nat -> nat): (r: seq<nat>)
    ensures |r| == |sizes|
  {
    seq(|sizes|, i requires 0 <= i < |sizes| =>
          if wanted(i) < sizes[i] then wanted(i) else sizes[i])
  }

  /** What the callback sees of the streams. */
  function Streamed(data: Bytes, ids: seq<nat>, sizes: seq<nat>, wanted: nat -> nat): (r: seq<File>)
    ensures |r| == Min(|ids|, |sizes|)
  {
    var n := Min(|ids|, |sizes|);
    var pieces := Cut(data, Consumed(sizes[..n], wanted));
    seq(n, i requires 0 <= i < n => File(ids[i], pieces[i]))
  }

  lemma ShownIs(data: Bytes, ids: seq<nat>, sizes: seq<nat>, wanted: nat -> nat, seen: seq<File>,
                pieces: seq<Bytes>, consumed: seq<nat>)
    requires |seen| == |pieces| == |consumed| == Min(|ids|, |sizes|)
    requires consumed == Consumed(sizes[..|seen|], wanted)
    requires pieces == Cut(data, consumed[..|seen|])
    requires forall j | 0 <= j < |seen| :: seen[j] == File(ids[j], pieces[j])
    ensures seen == Streamed(data, ids, sizes, wanted)
  {
    hide Cut, Consumed;
    assert consumed[..|seen|] == consumed;
  }

  function FindStreams<O(!new), V(!new)>(f: Format<O, V>, file: Bytes, wanted: nat -> nat): Option<seq<File>> {
    var m := FindManifest(f, file);
    if m.None? then None
    else
      var metadata := m.value.manifest.metadata;
      Some(Streamed(f.full.decode(file), metadata.streamIds, metadata.streamSizes, wanted))
  }

  // ---------- the round trip ----------

  /** The callback reads the first i streams fully. */
  predicate ReadsFully(sizes: seq<nat>, wanted: nat -> nat, i: nat)
    requires i <= |sizes|
  {
    forall j | 0 <= j < i :: wanted(j) >= sizes[j]
  }

  lemma ManifestIsFound<O(!new), V(!new)>(f: Format<O, V>, body: Bytes, m: VersionManifest<V>, hash: Bytes)
    requires f.Valid() && |ManifestSection(f, m)| < TWO_TO_63 && |hash| == HASH_SIZE
    ensures var s := ManifestSection(f, m);
            FindManifest(f, body + s + LittleEndian(|s|, LENGTH_SIZE) + hash) == Some(Located(m, |body|))
  {
    var s := ManifestSection(f, m);
    var length := LittleEndian(|s|, LENGTH_SIZE);
    var file := body + s + length + hash;
    LengthFieldReads(|s|);
    assert f.plain.decode(s) == f.writeManifest(m);
    hide ToInt64, LittleEndian, ManifestSection;
    var start := |body| + |s|;
    assert file[start..start + LENGTH_SIZE] == length;
    assert file[|body|..start] == s;
  }

  lemma {:induction false} EntriesRead<O(!new), V(!new)>(f: Format<O, V>, objects: seq<O>)
    requires f.Valid()
    ensures ReadEntries(f, Entries(f, objects)) == Some(objects)
    decreases |objects|
  {
    if objects != [] {
      var n := |objects| - 1;
      assert Entries(f, objects)[..n] == Entries(f, objects[..n]);
      EntriesRead(f, objects[..n]);
      assert objects == objects[..n] + [objects[n]];
    }
  }

  lemma Regroup(a: Bytes, b: Bytes, c: Bytes, d: Bytes, e: Bytes)
    ensures a + b + c + d + e == a + (b + (c + d + e))
    ensures b <= b + (c + d + e)
  {
    Associative(a, b, c + d + e);
    Associative(a + b, c + d, e);
    Associative(a + b, c, d);
  }

  /** The parts of an archive file, and what follows the files. */
  lemma Layout<O(!new), V(!new)>(f: Format<O, V>, files: seq<File>, objects: seq<O>, version: V)
    returns (tail: Bytes)
    requires f.Valid() && |ManifestSection(f, ManifestOf(f, files, objects, version))| < TWO_TO_63
    ensures var file := ArchiveFile(f, files, objects, version);
            var first, second := FileSection(f, files), ObjectSection(f, objects);
            && FindManifest(f, file) == Some(Located(ManifestOf(f, files, objects, version), |first| + |second|))
            && file == first + tail
            && second <= tail
  {
    var m := ManifestOf(f, files, objects, version);
    var first, second, s := FileSection(f, files), ObjectSection(f, objects), ManifestSection(f, m);
    var length := LittleEndian(|s|, LENGTH_SIZE);
    var hash := f.sha256(first + second + s + length);
    assert |hash| == HASH_SIZE;
    hide Format.Valid, Filter.Valid, FindManifest, FileSection, ObjectSection, ManifestSection, ManifestOf,
      LittleEndian;
    ManifestIsFound(f, first + second, m, hash);
    tail := second + (s + length + hash);
    Regroup(first, second, s, length, hash);
  }

  /** The reader finds the manifest, the objects and, if the callback reads every stream fully, the streams that
      were written. */
  lemma RoundTrip<O(!new), V(!new)>(f: Format<O, V>, files: seq<File>, objects: seq<O>, version: V,
                                    wanted: nat -> nat)
    requires f.Valid() && |ManifestSection(f, ManifestOf(f, files, objects, version))| < TWO_TO_63
    requires ReadsFully(Sizes(Contents(files)), wanted, |files|)
    ensures var file := ArchiveFile(f, files, objects, version);
            && FindManifest(f, file).Some?
            && FindManifest(f, file).value.manifest == ManifestOf(f, files, objects, version)
            && FindObjects(f, file) == Some(objects)
            && FindStreams(f, file, wanted) == Some(files)
  {
    var tail := Layout(f, files, objects, version);
    hide Format.Valid, FindManifest, FileSection, ObjectSection, ArchiveFile, ManifestSection, ReadsFully;
    ObjectsFound(f, files, objects, version, tail);
    hide FindObjects;
    StreamsReturn(f, files, tail, wanted);
  }

  lemma ObjectsFound<O(!new), V(!new)>(f: Format<O, V>, files: seq<File>, objects: seq<O>, version: V, tail: Bytes)
    requires f.Valid()
    requires var file := ArchiveFile(f, files, objects, version);
             var first, second := FileSection(f, files), ObjectSection(f, objects);
             && FindManifest(f, file) == Some(Located(ManifestOf(f, files, objects, version), |first| + |second|))
             && file == first + tail
             && second <= tail
    ensures FindObjects(f, ArchiveFile(f, files, objects, version)) == Some(objects)
  {
    var file := ArchiveFile(f, files, objects, version);
    var first, second := FileSection(f, files), ObjectSection(f, objects);
    hide Format.Valid, FindManifest, FileSection, ObjectSection, ArchiveFile, ReadEntries, Cut;
    Section(first, second, tail);
    ObjectsReturn(f, objects);
  }

  lemma Section(first: Bytes, second: Bytes, tail: Bytes)
    requires second <= tail
    ensures (first + tail)[|first|..|first| + |second|] == second
  {
  }

  lemma ObjectsReturn<O(!new), V(!new)>(f: Format<O, V>, objects: seq<O>)
    requires f.Valid()
    ensures ReadEntries(f, Cut(f.full.decode(ObjectSection(f, objects)), Sizes(Entries(f, objects)))) == Some(objects)
  {
    CutUndoesFlatten(Entries(f, objects), []);
    assert Flatten(Entries(f, objects)) + [] == Flatten(Entries(f, objects));
    EntriesRead(f, objects);
  }

  lemma StreamsReturn<O(!new), V(!new)>(f: Format<O, V>, files: seq<File>, rest: Bytes, wanted: nat -> nat)
    requires f.Valid() && ReadsFully(Sizes(Contents(files)), wanted, |files|)
    ensures Streamed(f.full.decode(FileSection(f, files) + rest), Ids(files), Sizes(Contents(files)), wanted) == files
  {
    var sizes := Sizes(Contents(files));
    assert Consumed(sizes[..|files|], wanted) == sizes;
    var data := f.full.decode(FileSection(f, files) + rest);
    if files != [] {
      var all := Flatten(Contents(files));
      assert all <= data;
      assert data == all + data[|all|..];
      CutUndoesFlatten(Contents(files), data[|all|..]);
    }
  }

  /** A stream starts where its data starts exactly when the callback has read all the streams before it fully:
      a bounded stream does not skip what was left unread. */
  lemma {:induction false} StartsRightIff(sizes: seq<nat>, wanted: nat -> nat, i: nat)
    requires i <= |sizes|
    ensures Sum(Consumed(sizes, wanted)[..i]) == Sum(sizes[..i]) <==> ReadsFully(sizes, wanted, i)
    ensures Sum(Consumed(sizes, wanted)[..i]) <= Sum(sizes[..i])
  {
    if i > 0 {
      StartsRightIff(sizes, wanted, i - 1);
      SumStep(sizes, i - 1);
      SumStep(Consumed(sizes, wanted), i - 1);
      assert ReadsFully(sizes, wanted, i)
        <==> ReadsFully(sizes, wanted, i - 1) && wanted(i - 1) >= sizes[i - 1];
    }
  }

  lemma SumStep(sizes: seq<nat>, i: nat)
    requires i < |sizes|
    ensures Sum(sizes[..i + 1]) == Sum(sizes[..i]) + sizes[i]
  {
    assert sizes[..i + 1][..i] == sizes[..i];
  }

  /** What the callback sees of stream i starts where its reads of the earlier streams ended. */
  lemma StreamedAt(data: Bytes, ids: seq<nat>, sizes: seq<nat>, wanted: nat -> nat, i: nat)
    requires i < |sizes| == |ids|
    ensures var consumed := Consumed(sizes, wanted);
            Streamed(data, ids, sizes, wanted)[i] == File(ids[i], Slice(data, Sum(consumed[..i]), consumed[i]))
  {
    var consumed := Consumed(sizes, wanted);
    assert sizes[..|sizes|] == sizes;
    CutPrefix(data, consumed, i + 1);
    assert consumed[..i + 1] == consumed[..i] + [consumed[i]];
    CutSnoc(data, consumed[..i], consumed[i]);
    assert Cut(data, consumed)[i] == Cut(data, consumed)[..i + 1][i];
  }

  lemma {:induction false} FlattenSize(pieces: seq<Bytes>)
    ensures |Flatten(pieces)| == Sum(Sizes(pieces))
  {
    if pieces != [] {
      FlattenSize(pieces[1..]);
      SumHead(Sizes(pieces));
      assert Sizes(pieces)[1..] == Sizes(pieces[1..]);
    }
  }

  /** Piece i stands behind the earlier ones. */
  lemma FlattenAt(pieces: seq<Bytes>, rest: Bytes, i: nat, n: nat)
    requires i < |pieces| && n <= |pieces[i]|
    ensures Slice(Flatten(pieces) + rest, Sum(Sizes(pieces)[..i]), n) == pieces[i][..n]
  {
    var before, after := Flatten(pieces[..i]), Flatten(pieces[i + 1..]);
    assert pieces == pieces[..i] + ([pieces[i]] + pieces[i + 1..]);
    FlattenAppend(pieces[..i], [pieces[i]] + pieces[i + 1..]);
    assert ([pieces[i]] + pieces[i + 1..])[1..] == pieces[i + 1..];
    FlattenSize(pieces[..i]);
    assert Sizes(pieces[..i]) == Sizes(pieces)[..i];
    assert Flatten(pieces) + rest == before + (pieces[i] + (after + rest));
    hide Flatten, Sizes, Sum;
    SliceOfRight(before, pieces[i] + (after + rest), |before|, n);
    SliceOfLeft(pieces[i], after + rest, 0, n);
  }

  lemma {:induction false} FlattenZeros(pieces: seq<Bytes>, k: nat)
    requires forall j, b | 0 <= j < |pieces| && b in pieces[j] :: b == 0
    requires k < |Flatten(pieces)|
    ensures Flatten(pieces)[k] == 0
  {
    if k < |pieces[0]| {
      assert pieces[0][k] in pieces[0];
      assert Flatten(pieces)[k] == pieces[0][k];
    } else {
      assert forall j | 0 <= j < |pieces[1..]| :: pieces[1..][j] == pieces[j + 1];
      FlattenZeros(pieces[1..], k - |pieces[0]|);
    }
  }

  /** What Begin shows of a stream is a prefix of its own bytes, whatever the streams hold, if and only if the callback
      has read all the streams before it fully, or reads nothing of this one. */
  lemma ShowsOwnBytesIff(ids: seq<nat>, sizes: seq<nat>, wanted: nat -> nat, i: nat)
    requires i < |sizes| == |ids|
    ensures (forall contents: seq<Bytes>, rest: Bytes | Sizes(contents) == sizes ::
               Streamed(Flatten(contents) + rest, ids, sizes, wanted)[i].bytes <= contents[i])
       <==> ReadsFully(sizes, wanted, i) || Consumed(sizes, wanted)[i] == 0
  {
    var consumed := Consumed(sizes, wanted);
    StartsRightIff(sizes, wanted, i);
    if ReadsFully(sizes, wanted, i) || consumed[i] == 0 {
      forall contents: seq<Bytes>, rest: Bytes | Sizes(contents) == sizes
        ensures Streamed(Flatten(contents) + rest, ids, sizes, wanted)[i].bytes <= contents[i]
      {
        StreamedAt(Flatten(contents) + rest, ids, sizes, wanted, i);
        assert |contents[i]| == sizes[i];
        if consumed[i] > 0 {
          FlattenAt(contents, rest, i, consumed[i]);
        }
      }
    } else {
      ShowsOtherBytes(ids, sizes, wanted, i);
    }
  }

  /** The failing input: the stream holds ones and the earlier streams zeros. */
  lemma ShowsOtherBytes(ids: seq<nat>, sizes: seq<nat>, wanted: nat -> nat, i: nat)
    requires i < |sizes| == |ids| && !ReadsFully(sizes, wanted, i) && Consumed(sizes, wanted)[i] > 0
    ensures var contents := Marked(sizes, i);
            && Sizes(contents) == sizes
            && !(Streamed(Flatten(contents) + [], ids, sizes, wanted)[i].bytes <= contents[i])
  {
    var contents, consumed := Marked(sizes, i), Consumed(sizes, wanted);
    var data := Flatten(contents) + [];
    StartsRightIff(sizes, wanted, i);
    StreamedAt(data, ids, sizes, wanted, i);
    ZeroBefore(sizes, i, Sum(consumed[..i]), consumed[i]);
    assert contents[i][0] in contents[i];
  }

  lemma ZeroBefore(sizes: seq<nat>, i: nat, at: nat, n: nat)
    requires i < |sizes| && at < Sum(sizes[..i]) && n > 0
    ensures var shown := Slice(Flatten(Marked(sizes, i)) + [], at, n); shown != [] && shown[0] == 0
  {
    var contents := Marked(sizes, i);
    assert contents == contents[..i] + contents[i..];
    FlattenAppend(contents[..i], contents[i..]);
    FlattenSize(contents[..i]);
    assert Sizes(contents[..i]) == sizes[..i];
    FlattenZeros(contents[..i], at);
    hide Flatten, Marked, Sum;
    assert (Flatten(contents) + [])[at] == 0;
  }

  function Marked(sizes: seq<nat>, i: nat): (r: seq<Bytes>)
    ensures Sizes(r) == sizes
    ensures forall k, b | 0 <= k < |r| && b in r[k] :: b == if k == i then 1 else 0
  {
    seq(|sizes|, k requires 0 <= k < |sizes| => seq(sizes[k], _ => if k == i then 1 else 0))
  }

  /** The failing input: a callback that leaves the first of two streams unread is shown its bytes as the second
      stream. */
  lemma UnreadStreamIsShownAgain(wanted: nat -> nat)
    requires wanted(0) == 0 && wanted(1) == 1
    ensures Streamed([7, 8], [1, 2], [1, 1], wanted) == [File(1, []), File(2, [7])]
  {
    assert Consumed([1, 1][..2], wanted) == [0, 1];
    assert [0, 1][1..] == [1] && [1][1..] == [];
    var data: Bytes := [7, 8];
    assert From(data, 0) == data;
    assert Take(data, 1) == [7];
    assert Cut(data, [1]) == [[7]] + Cut(From(data, 1), []);
  }

  // ---------- streams with a cursor ----------

  /** A file or a filter: reads deliver any part of what was asked for, but something unless at the end. */
  class InputStream {
    const data: Bytes
    var position: nat

    constructor (data: Bytes)
      ensures this.data == data && position == 0
    {
      this.data := data;
      position := 0;
    }

    method Seek(offset: nat)
      modifies this
      ensures position == offset
    {
      position := offset;
    }

    method Read(count: nat) returns (r: Bytes)
      modifies this
      ensures r == Slice(data, old(position), |r|) && |r| <= count
      ensures r == [] <==> count == 0 || old(position) >= |data|
      ensures position == old(position) + |r|
    {
      var available := |From(data, position)|;
      var n := 0;
      if count > 0 && available > 0 {
        var most := Min(count, available);
        n :| 1 <= n <= most;
      }
      r := Slice(data, position, n);
      position := position + n;
    }
  }

  class BoundedStream {
    const stream: InputStream
    const size: nat
    var bytesRead: nat

    ghost predicate Valid()
      reads this
    {
      bytesRead <= size
    }

    constructor (stream: InputStream, boundedSize: nat)
      ensures this.stream == stream && size == boundedSize && bytesRead == 0
      ensures Valid()
    {
      this.stream := stream;
      size := boundedSize;
      bytesRead := 0;
    }

    /** The next bytes of the stream below, never beyond the bound. */
    method Read(count: nat) returns (r: Bytes)
      requires Valid()
      modifies this, stream
      ensures Valid()
      ensures r == Slice(stream.data, old(stream.position), |r|) && |r| <= count
      ensures r == [] <==> count == 0 || old(bytesRead) == size || old(stream.position) >= |stream.data|
      ensures bytesRead == old(bytesRead) + |r| && stream.position == old(stream.position) + |r|
    {
      var n := count;
      if n > size - bytesRead {
        n := size - bytesRead;
      }
      r := stream.Read(n);
      bytesRead := bytesRead + |r|;
    }

    /** A reader that wants some number of bytes and asks again until it has them or there are no more. */
    method ReadUpTo(wanted: nat) returns (r: Bytes)
      requires Valid() && bytesRead == 0
      modifies this, stream
      ensures r == Slice(stream.data, old(stream.position), Min(wanted, size))
      ensures stream.position == old(stream.position) + |r|
    {
      r := [];
      var more := true;
      while more && |r| < wanted
        invariant Valid() && bytesRead == |r| <= wanted
        invariant stream.position == old(stream.position) + |r|
        invariant r == Slice(stream.data, old(stream.position), |r|)
        invariant !more ==> |r| == size || stream.position >= |stream.data|
        decreases more, wanted - |r|
      {
        var buffer := Read(wanted - |r|);
        SliceSplit(stream.data, old(stream.position), |r|, |buffer|);
        r := r + buffer;
        more := buffer != [];
      }
    }
  }

  /** A bounded stream over piece i, read up to some number of bytes. */
  method ReadPiece(stream: InputStream, size: nat, wanted: nat, ghost sizes: seq<nat>, ghost i: nat)
    returns (bytes: Bytes)
    requires i < |sizes| && sizes[i] == Min(wanted, size) && stream.position == Cursor(stream.data, sizes, i)
    modifies stream
    ensures Cut(stream.data, sizes[..i + 1]) == Cut(stream.data, sizes[..i]) + [bytes]
    ensures stream.position == Cursor(stream.data, sizes, i + 1)
  {
    NextPiece(stream.data, sizes, i);
    hide Cut, Slice, Sum;
    var boundedStream := new BoundedStream(stream, size);
    bytes := boundedStream.ReadUpTo(wanted);
  }

  // ---------- the reader ----------

  /** Where the source throws on a file that is not an archive, the result is None. */
  class ArchiveReader<O(!new), V(!new)> {
    const format: Format<O, V>
    const stream: InputStream
    var versionManifest: Option<VersionManifest<V>>
    var manifestOffset: int
    var manifestSize: int
    var baseObjectsOffset: int
    var streamIds: seq<nat>
    var streamSizes: seq<nat>

    /** The offset is remembered once it is known; the rest once the manifest was read. */
    ghost predicate Valid()
      reads this
    {
      var start := |stream.data| - LENGTH_SIZE - HASH_SIZE;
      && (manifestOffset >= 0 ==>
            && start >= 0
            && manifestSize == ToInt64(stream.data[start..start + LENGTH_SIZE])
            && manifestOffset == start - manifestSize)
      && (versionManifest.Some? ==>
            && manifestOffset >= 0
            && FindManifest(format, stream.data) == Some(Located(versionManifest.value, manifestOffset))
            && baseObjectsOffset == manifestOffset - versionManifest.value.metadata.entriesSizeInArchive
            && streamIds == versionManifest.value.metadata.streamIds
            && streamSizes == versionManifest.value.metadata.streamSizes)
    }

    constructor (format: Format<O, V>, stream: InputStream)
      ensures this.format == format && this.stream == stream && Valid() && versionManifest == None
    {
      this.format := format;
      this.stream := stream;
      versionManifest := None;
      manifestOffset, manifestSize, baseObjectsOffset := -1, -1, -1;
      streamIds, streamSizes := [], [];
    }

    /** Seeks and reads to the bound. */
    method ReadSection(offset: nat, size: nat) returns (bytes: Bytes)
      requires offset + size <= |stream.data|
      modifies stream
      ensures bytes == stream.data[offset..offset + size]
    {
      stream.Seek(offset);
      var boundedStream := new BoundedStream(stream, size);
      bytes := boundedStream.ReadUpTo(size);
      SliceIs(stream.data, offset, size);
    }

    method ReadManifest() returns (r: Option<VersionManifest<V>>)
      requires Valid()
      modifies this, stream
      ensures Valid()
      ensures var found := FindManifest(format, stream.data);
              if found.None? then r == None else r == Some(found.value.manifest) && versionManifest == r
    {
      if manifestOffset < 0 {
        var start := |stream.data| - LENGTH_SIZE - HASH_SIZE;
        if start < 0 {
          return None;
        }
        var temp := ReadSection(start, LENGTH_SIZE);
        var size := ToInt64(temp);
        if start - size < 0 {
          return None;
        }
        manifestSize := size;
        manifestOffset := start - size;
      }
      if manifestSize < 0 {
        return None;
      }
      var bytes := ReadSection(manifestOffset, manifestSize);
      r := format.readManifest(format.plain.decode(bytes));
      if r.Some? {
        versionManifest := r;
        baseObjectsOffset := manifestOffset - r.value.metadata.entriesSizeInArchive;
        streamIds := r.value.metadata.streamIds;
        streamSizes := r.value.metadata.streamSizes;
      }
    }

    method ReadBaseObjects() returns (r: Option<seq<O>>)
      requires Valid()
      modifies this, stream
      ensures Valid()
      ensures r == FindObjects(format, stream.data)
    {
      hide FindManifest, ToInt64, Cut, ReadEntries;
      if versionManifest.None? {
        var m := ReadManifest();
        if m.None? {
          return None;
        }
      }
      if baseObjectsOffset < 0 {
        return None;
      }
      var section := ReadSection(baseObjectsOffset, manifestOffset - baseObjectsOffset);
      var filteredStream := new InputStream(format.full.decode(section));
      r := ReadObjects(filteredStream, versionManifest.value.metadata.entrySizes);
    }

    method ReadObjects(filteredStream: InputStream, entrySizes: seq<nat>) returns (r: Option<seq<O>>)
      requires filteredStream.position == 0
      modifies filteredStream
      ensures r == ReadEntries(format, Cut(filteredStream.data, entrySizes))
    {
      var objects := [];
      ghost var data := filteredStream.data;
      NothingConsumed(data, entrySizes);
      hide Cut, Cursor;
      for i := 0 to |entrySizes|
        invariant filteredStream.position == Cursor(data, entrySizes, i)
        invariant ReadEntries(format, Cut(data, entrySizes[..i])) == Some(objects)
      {
        var bytes := ReadPiece(filteredStream, entrySizes[i], entrySizes[i], entrySizes, i);
        var o := format.readObject(bytes);
        if o.None? {
          CutPrefix(data, entrySizes, i + 1);
          NoneStays(format, Cut(data, entrySizes), i + 1);
          return None;
        }
        objects := objects + [o.value];
      }
      assert entrySizes[..|entrySizes|] == entrySizes;
      return Some(objects);
    }

    method ShowStreams(filteredStream: InputStream, wanted: nat -> nat) returns (seen: seq<File>)
      requires filteredStream.position == 0
      modifies filteredStream
      ensures seen == Streamed(filteredStream.data, streamIds, streamSizes, wanted)
    {
      ghost var data := filteredStream.data;
      var n := Min(|streamIds|, |streamSizes|);
      var ids, sizes := streamIds, streamSizes[..n];
      ghost var consumed := Consumed(sizes, wanted);
      assert forall i | 0 <= i < n :: consumed[i] == Min(wanted(i), sizes[i]);
      ghost var pieces: seq<Bytes> := [];
      seen := [];
      NothingConsumed(data, consumed);
      hide Cut, Cursor, Consumed, Streamed;
      for i := 0 to n
        invariant |seen| == |pieces| == i
        invariant filteredStream.position == Cursor(data, consumed, i)
        invariant pieces == Cut(data, consumed[..i])
        invariant forall j | 0 <= j < i :: seen[j] == File(ids[j], pieces[j])
      {
        var bytes := ReadPiece(filteredStream, sizes[i], wanted(i), consumed, i);
        seen := seen + [File(ids[i], bytes)];
        pieces := pieces + [bytes];
      }
      ShownIs(data, ids, streamSizes, wanted, seen, pieces, consumed);
    }

    /** Shows every stream to a callback that reads as many bytes of it as it wants. */
    method Begin(wanted: nat -> nat) returns (r: Option<seq<File>>)
      requires Valid()
      modifies this, stream
      ensures Valid()
      ensures r == FindStreams(format, stream.data, wanted)
    {
      if versionManifest.None? {
        var m := ReadManifest();
        if m.None? {
          return None;
        }
      }
      stream.Seek(0);
      var filteredStream := new InputStream(format.full.decode(stream.data));
      var seen := ShowStreams(filteredStream, wanted);
      return Some(seen);
    }
  }

  /** The writer and the reader undo each other: any streams, any objects but none, and any version. */
  method WriteThenRead<O(!new), V(!new)>(f: Format<O, V>, files: seq<File>, objects: seq<O>, version: V,
                                         wanted: nat -> nat)
    returns (m: Option<VersionManifest<V>>, readObjects: Option<seq<O>>, streams: Option<seq<File>>)
    requires f.Valid() && objects != []
    requires |ManifestSection(f, ManifestOf(f, files, objects, version))| < TWO_TO_63
    requires ReadsFully(Sizes(Contents(files)), wanted, |files|)
    ensures m.Some? && m.value.version == version && m.value.metadata.streamIds == Ids(files)
    ensures readObjects == Some(objects)
    ensures streams == Some(files)
  {
    hide Format.Valid, FindManifest, FindObjects, FindStreams, ArchiveFile, ManifestSection, Sizes, Contents;
    var writer := new ArchiveWriter(f);
    for i := 0 to |files|
      invariant writer.Valid() && writer.format == f && fresh(writer)
      invariant writer.files == files[..i] && writer.objects == []
      invariant writer.state.Initial? || writer.state.PushingFiles?
    {
      var added := writer.AddFile(files[i].id, files[i].bytes);
    }
    for i := 0 to |objects|
      invariant writer.Valid() && writer.format == f && fresh(writer)
      invariant writer.files == files && writer.objects == objects[..i]
      invariant !writer.state.Final? && (i > 0 ==> writer.state.PushingFsos?)
    {
      var added := writer.AddFso(objects[i]);
    }
    var done := writer.AddVersionManifest(version);
    assert objects[..|objects|] == objects;
    RoundTrip(f, files, objects, version, wanted);
    var stream := new InputStream(writer.file);
    var reader := new ArchiveReader(f, stream);
    m := reader.ReadManifest();
    readObjects := reader.ReadBaseObjects();
    streams := reader.Begin(wanted);
  }
}
