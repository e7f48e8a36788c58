/** The commands of a delta (MiscTypes.h) and what applying them does (TransformFile of rsync_test/Program.cs). */
module DeltaCommands {
  import opened ByteStrings

  /** rsync_command: the top bit of the 64-bit length says that the bytes come from the old file. */
  datatype RsyncCommand = RsyncCommand(fileOffset: nat, length: u64) {

    predicate CopyFromOld() {
      length >= TWO_TO_63
    }

    function SetCopyFromOld(x: bool): RsyncCommand {
      if x then this.(length := if length < TWO_TO_63 then length + TWO_TO_63 else length)
      else this.(length := Mod(length, TWO_TO_63))
    }

    function GetLength(): nat {
      Mod(length, TWO_TO_63)
    }

    /** last->length += n, on the flagged field and modulo 2^64. */
    function Grow(n: nat): RsyncCommand {
      this.(length := Mod(length + n, TWO_TO_64))
    }
  }

  function NewCommand(fileOffset: nat, fromOld: bool): RsyncCommand {
    RsyncCommand(fileOffset, 0).SetCopyFromOld(fromOld)
  }

  /** The flag and the length do not disturb each other while the length stays below 2^63. */
  lemma GrowKeepsFlag(c: RsyncCommand, n: nat)
    requires c.GetLength() + n < TWO_TO_63
    ensures c.Grow(n).GetLength() == c.GetLength() + n
    ensures c.Grow(n).CopyFromOld() == c.CopyFromOld()
    ensures c.Grow(n).fileOffset == c.fileOffset
  {
  }

  /** One byte more than 2^63 - 1 flips the flag and loses the length. */
  lemma GrowOverflowsIntoFlag(c: RsyncCommand, n: nat)
    requires n < TWO_TO_63
    ensures c.GetLength() + n >= TWO_TO_63 ==>
      && c.Grow(n).CopyFromOld() != c.CopyFromOld()
      && c.Grow(n).GetLength() == c.GetLength() + n - TWO_TO_63
  {
  }

  // ---------- what commands mean ----------

  function Front<T>(s: seq<T>): seq<T>
    requires s != []
  {
    s[..|s| - 1]
  }

  function Last<T>(s: seq<T>): T
    requires s != []
  {
    s[|s| - 1]
  }

  function CommandBytes(c: RsyncCommand, oldFile: Bytes, newFile: Bytes): Bytes {
    Slice(if c.CopyFromOld() then oldFile else newFile, c.fileOffset, c.GetLength())
  }

  /** The bytes a list of commands produces. */
  function Apply(commands: seq<RsyncCommand>, oldFile: Bytes, newFile: Bytes): Bytes {
    if commands == [] then []
    else Apply(Front(commands), oldFile, newFile) + CommandBytes(Last(commands), oldFile, newFile)
  }

  function TotalLength(commands: seq<RsyncCommand>): nat {
    if commands == [] then 0 else TotalLength(Front(commands)) + Last(commands).GetLength()
  }

  /** The commands tile a prefix of the new file: none is empty, a copy-new command reads from the place it
      fills, and a copy-old command stays inside the old file. */
  predicate Tiles(commands: seq<RsyncCommand>, oldSize: nat) {
    commands == [] ||
    var c := Last(commands);
    && Tiles(Front(commands), oldSize)
    && c.GetLength() >= 1
    && (if c.CopyFromOld() then c.fileOffset + c.GetLength() <= oldSize
        else c.fileOffset == TotalLength(Front(commands)))
  }

  /** The same without a bound on the old file. */
  predicate Shape(commands: seq<RsyncCommand>) {
    commands == [] ||
    var c := Last(commands);
    && Shape(Front(commands))
    && c.GetLength() >= 1
    && (!c.CopyFromOld() ==> c.fileOffset == TotalLength(Front(commands)))
  }

  /** Every copy-old command stays inside an old file of this size. */
  predicate StaysInside(commands: seq<RsyncCommand>, oldSize: nat) {
    forall c | c in commands && c.CopyFromOld() :: c.fileOffset + c.GetLength() <= oldSize
  }

  lemma {:induction false} TilesIff(commands: seq<RsyncCommand>, oldSize: nat)
    ensures Tiles(commands, oldSize) <==> Shape(commands) && StaysInside(commands, oldSize)
    decreases |commands|
  {
    if commands != [] {
      TilesIff(Front(commands), oldSize);
      assert commands == Front(commands) + [Last(commands)];
    }
  }

  lemma SnocCommand(commands: seq<RsyncCommand>, c: RsyncCommand)
    ensures Front(commands + [c]) == commands && Last(commands + [c]) == c
  {
  }

  predicate InRange(c: RsyncCommand, oldFile: Bytes, newFile: Bytes) {
    c.fileOffset + c.GetLength() <= |if c.CopyFromOld() then oldFile else newFile|
  }

  lemma {:induction false} TilesInRange(commands: seq<RsyncCommand>, oldFile: Bytes, newFile: Bytes, k: nat)
    requires Tiles(commands, |oldFile|) && TotalLength(commands) <= |newFile| && k < |commands|
    ensures InRange(commands[k], oldFile, newFile)
    decreases |commands|
  {
    if k < |commands| - 1 {
      TilesInRange(Front(commands), oldFile, newFile, k);
    }
  }

  // ---------- TransformFile ----------

  const CHUNK := 4096

  /** FileStream.Read into the buffer: short only at the end of the file, and then the buffer keeps the rest. */
  function ReadInto(buffer: Bytes, file: Bytes, position: nat, n: nat): (b: Bytes)
    requires |buffer| == CHUNK && n <= CHUNK
    ensures |b| == CHUNK
  {
    var got := Slice(file, position, n);
    got + buffer[|got|..]
  }

  method TransformFile(oldFile: Bytes, newFile: Bytes, commands: seq<RsyncCommand>) returns (result: Bytes)
    ensures |result| == TotalLength(commands)
    ensures (forall c | c in commands :: InRange(c, oldFile, newFile)) ==> result == Apply(commands, oldFile, newFile)
  {
    var buffer: Bytes := seq(CHUNK, _ => 0);
    result := [];
    for k := 0 to |commands|
      invariant |buffer| == CHUNK
      invariant |result| == TotalLength(commands[..k])
      invariant (forall c | c in commands :: InRange(c, oldFile, newFile)) ==>
        result == Apply(commands[..k], oldFile, newFile)
    {
      var command := commands[k];
      SnocCommand(commands[..k], command);
      assert commands[..k] + [command] == commands[..k + 1];
      var copied;
      copied, buffer := CopyCommand(if command.CopyFromOld() then oldFile else newFile, command, buffer);
      result := result + copied;
      assert command in commands;
    }
    assert commands[..|commands|] == commands;
  }

  /** The inner loop of TransformFile: copies one command in chunks of 4096 bytes. */
  method CopyCommand(source: Bytes, command: RsyncCommand, buffer0: Bytes) returns (copied: Bytes, buffer: Bytes)
    requires |buffer0| == CHUNK
    ensures |buffer| == CHUNK && |copied| == command.GetLength()
    ensures command.fileOffset + command.GetLength() <= |source| ==>
      copied == Slice(source, command.fileOffset, command.GetLength())
  {
    hide From;
    hide Take;
    hide Slice;
    hide Mod;
    buffer := buffer0;
    copied := [];
    var position: nat := command.fileOffset;
    var bytesToCopy: int := command.GetLength();
    while bytesToCopy > 0
      invariant |buffer| == CHUNK
      invariant |copied| == command.GetLength() - if bytesToCopy > 0 then bytesToCopy else 0
      invariant command.fileOffset + command.GetLength() <= |source| ==>
        && position == command.fileOffset + |copied|
        && copied == Slice(source, command.fileOffset, |copied|)
      decreases bytesToCopy
    {
      var n := Min(bytesToCopy, CHUNK);
      SliceSplit(source, command.fileOffset, |copied|, n);
      buffer := ReadInto(buffer, source, position, n);
      position := position + |Slice(source, position, n)|;
      copied := copied + buffer[..n];
      bytesToCopy := bytesToCopy - CHUNK;
    }
  }
}
