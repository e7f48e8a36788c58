/** Which commands a comparison must choose, said of the table and the new file alone: what is copied from the old file,
    from where, and what is not. The commands of every comparison are the only ones that meet it. */
module Choices {
  import opened ByteStrings
  import opened RollingChecksum
  import opened BlockTable
  import opened BlockSearch
  import opened DeltaCommands
  import opened Matcher
  import opened Delta

  /** A comparison: the table of the old file, the size of its blocks, and the new file. */
  datatype Comparison = Comparison(table: seq<Item>, blockSize: nat, sha: Sha, newFile: Bytes) {

    predicate Valid() {
      blockSize > 0 && |newFile| < TWO_TO_63
    }

    /** The table has the block of the new file that starts at `at`, at this offset of the old file. */
    predicate Has(at: nat, offset: nat) {
      var block := Slice(newFile, at, blockSize);
      Item(Checksum(block), sha(block), offset) in table
    }

    ghost predicate HasNone(at: nat) {
      forall offset: nat :: !Has(at, offset)
    }
  }

  /** The choice of one command, after those before it.

      A command that copies from the old file starts at the lowest offset the table has for its first block; where the
      command before it also copies from the old file, the table does not have that block where that command ended;
      and the table has each further block where the command continues. It ends with a block or with the new file.

      A command that copies from the new file stands where it reads, the table has no block at any of its positions,
      and the command before it copies from the old file. */
  ghost predicate Chosen(m: Comparison, before: seq<RsyncCommand>, c: RsyncCommand) {
    var at := TotalLength(before);
    if c.CopyFromOld() then
      && m.Has(at, c.fileOffset)
      && (forall offset: nat | m.Has(at, offset) :: c.fileOffset <= offset)
      && (before != [] && Last(before).CopyFromOld() ==>
            !m.Has(at, Last(before).fileOffset + Last(before).GetLength()))
      && ContinuesFrom(m, at, c.fileOffset, c.GetLength())
      && EndsWithBlock(m, at, c.GetLength())
    else
      && c.fileOffset == at
      && (forall q: nat | at <= q < at + c.GetLength() :: m.HasNone(q))
      && (before != [] ==> Last(before).CopyFromOld())
  }

  /** The table has every block of a stretch of the new file at the matching offset. */
  ghost predicate ContinuesFrom(m: Comparison, at: nat, offset: nat, length: nat) {
    m.blockSize > 0 &&
    forall n: nat | n < length && Mod(n, m.blockSize) == 0 :: m.Has(at + n, offset + n)
  }

  predicate EndsWithBlock(m: Comparison, at: nat, length: nat) {
    m.blockSize > 0 && (Mod(length, m.blockSize) == 0 || at + length == |m.newFile|)
  }

  /** Every command is the one to choose. */
  ghost predicate WellChosen(m: Comparison, commands: seq<RsyncCommand>) {
    forall k | 0 <= k < |commands| :: Chosen(m, commands[..k], commands[k])
  }

  /** And no command is empty, and together they are as long as the new file. */
  ghost predicate Complete(m: Comparison, commands: seq<RsyncCommand>) {
    && WellChosen(m, commands)
    && (forall c | c in commands :: c.GetLength() >= 1)
    && TotalLength(commands) == |m.newFile|
  }

  // ---------- searches ----------

  function MatchingFor(m: Comparison): Matching {
    MatchingOf(m.table, m.blockSize, m.sha, m.newFile, false)
  }

  lemma LookIs(m: Comparison, at: nat, target: Option<nat>)
    ensures var r := MatchingFor(m).look(at, target);
            && (r.None? ==> m.HasNone(at))
            && (r.Some? ==> m.Has(at, r.value))
            && (r.Some? && target.Some? && m.Has(at, target.value) ==> r == target)
            && (r.Some? && !(target.Some? && m.Has(at, target.value)) ==>
                  forall offset: nat | m.Has(at, offset) :: r.value <= offset)
  {
    var w := Window(m.newFile, at, m.blockSize);
    FindSpec(m.table, Checksum(w), m.sha(w), target);
    forall offset: nat
      ensures m.Has(at, offset) ==> HasKey(Item(Checksum(w), m.sha(w), offset), Checksum(w), m.sha(w))
    {
    }
  }

  // ---------- the commands are well chosen ----------

  lemma WellChosenSnoc(m: Comparison, commands: seq<RsyncCommand>, c: RsyncCommand)
    ensures WellChosen(m, commands + [c]) <==> WellChosen(m, commands) && Chosen(m, commands, c)
  {
    var more := commands + [c];
    assert more[..|commands|] == commands;
    assert forall k | 0 <= k < |commands| :: more[..k] == commands[..k] && more[k] == commands[k];
    if WellChosen(m, more) {
      assert Chosen(m, more[..|commands|], more[|commands|]);
      forall k | 0 <= k < |commands|
        ensures Chosen(m, commands[..k], commands[k])
      {
        assert Chosen(m, more[..k], more[k]);
      }
    }
  }

  /** The choices so far, with a last command that is still growing. */
  ghost predicate Choosing(m: Comparison, at: nat, out: seq<RsyncCommand>) {
    && m.Valid() && at < |m.newFile|
    && out != [] && TotalLength(out) == at
    && WellChosen(m, Front(out))
    && ChosenSoFar(m, Front(out), Last(out))
  }

  /** Chosen, for a command that may still be empty; its first block must be the one to choose. */
  ghost predicate ChosenSoFar(m: Comparison, before: seq<RsyncCommand>, c: RsyncCommand) {
    Chosen(m, before, c) && (c.CopyFromOld() ==> m.blockSize > 0 && Mod(c.GetLength(), m.blockSize) == 0)
  }

  ghost predicate ChosenUpTo(m: Comparison, at: nat, out: seq<RsyncCommand>) {
    && m.Valid() && at <= |m.newFile|
    && TotalLength(out) == at
    && WellChosen(m, out)
  }

  lemma TotalSnoc(commands: seq<RsyncCommand>, c: RsyncCommand)
    ensures TotalLength(commands + [c]) == TotalLength(commands) + c.GetLength()
    ensures Front(commands + [c]) == commands && Last(commands + [c]) == c
  {
    SnocCommand(commands, c);
  }

  lemma NewIsEmpty(offset: nat, fromOld: bool)
    ensures NewCommand(offset, fromOld).fileOffset == offset
    ensures NewCommand(offset, fromOld).CopyFromOld() == fromOld && NewCommand(offset, fromOld).GetLength() == 0
  {
  }

  lemma StartOld(m: Comparison, at: nat, out: seq<RsyncCommand>, offset: nat)
    requires ChosenUpTo(m, at, out) && at < |m.newFile|
    requires m.Has(at, offset) && forall o: nat | m.Has(at, o) :: offset <= o
    requires out != [] && Last(out).CopyFromOld() ==> !m.Has(at, Last(out).fileOffset + Last(out).GetLength())
    ensures Choosing(m, at, out + [NewCommand(offset, true)])
    ensures Last(out + [NewCommand(offset, true)]) == NewCommand(offset, true)
  {
    hide WellChosen, TotalLength, Comparison.Has, RsyncCommand.GetLength, RsyncCommand.CopyFromOld, NewCommand, Mod;
    NewIsEmpty(offset, true);
    TotalSnoc(out, NewCommand(offset, true));
  }

  lemma StartNew(m: Comparison, at: nat, out: seq<RsyncCommand>)
    requires ChosenUpTo(m, at, out) && at < |m.newFile|
    requires out != [] ==> Last(out).CopyFromOld()
    ensures Choosing(m, at, out + [NewCommand(at, false)])
    ensures Last(out + [NewCommand(at, false)]) == NewCommand(at, false)
  {
    hide WellChosen, TotalLength, Comparison.Has, RsyncCommand.GetLength, RsyncCommand.CopyFromOld, NewCommand;
    NewIsEmpty(at, false);
    TotalSnoc(out, NewCommand(at, false));
  }

  /** A copy-old command grows over a block that the table has where it continues. */
  lemma GrowOld(m: Comparison, at: nat, out: seq<RsyncCommand>, n: nat)
    requires Choosing(m, at, out) && Last(out).CopyFromOld()
    requires n == Min(m.blockSize, |m.newFile| - at)
    requires m.Has(at, Last(out).fileOffset + Last(out).GetLength())
    ensures var grown := Front(out) + [Last(out).Grow(n)];
            && ChosenUpTo(m, at + n, grown)
            && Last(grown) == Last(out).Grow(n) && Last(grown).CopyFromOld()
            && (at + n < |m.newFile| ==> Choosing(m, at + n, grown))
  {
    hide WellChosen, ContinuesFrom, TotalLength, Comparison.Has, RsyncCommand.Grow, RsyncCommand.GetLength, Mod;
    var before, last := Front(out), Last(out);
    assert out == before + [last];
    TotalSnoc(before, last);
    GrowKeepsFlag(last, n);
    TotalSnoc(before, last.Grow(n));
    GrowContinues(m, TotalLength(before), last.fileOffset, last.GetLength(), n);
    WellChosenSnoc(m, before, last.Grow(n));
    WholeBlocks(last.GetLength(), m.blockSize, n);
  }

  lemma WholeBlocks(length: nat, blockSize: nat, n: nat)
    requires blockSize > 0
    ensures Mod(length, blockSize) == 0 && n == blockSize ==> Mod(length + n, blockSize) == 0
  {
    ModOfSum(length, n, blockSize);
  }

  lemma GrowContinues(m: Comparison, at: nat, offset: nat, length: nat, n: nat)
    requires m.blockSize > 0 && n <= m.blockSize && Mod(length, m.blockSize) == 0
    requires ContinuesFrom(m, at, offset, length) && m.Has(at + length, offset + length)
    ensures ContinuesFrom(m, at, offset, length + n)
  {
    hide Comparison.Has, Mod;
    forall k: nat | k < length + n && Mod(k, m.blockSize) == 0
      ensures m.Has(at + k, offset + k)
    {
      if length < k {
        ModOfSum(length, k - length, m.blockSize);
      }
    }
  }

  /** A copy-new command grows over a position at which the table has no block. */
  lemma GrowNew(m: Comparison, at: nat, out: seq<RsyncCommand>)
    requires Choosing(m, at, out) && !Last(out).CopyFromOld() && m.HasNone(at)
    ensures var grown := Front(out) + [Last(out).Grow(1)];
            && ChosenUpTo(m, at + 1, grown)
            && Last(grown) == Last(out).Grow(1) && !Last(grown).CopyFromOld()
            && (at + 1 < |m.newFile| ==> Choosing(m, at + 1, grown))
  {
    hide WellChosen, TotalLength, Comparison.HasNone, Comparison.Has, RsyncCommand.Grow, RsyncCommand.GetLength;
    var before, last := Front(out), Last(out);
    assert out == before + [last];
    TotalSnoc(before, last);
    GrowKeepsFlag(last, 1);
    TotalSnoc(before, last.Grow(1));
    WellChosenSnoc(m, before, last.Grow(1));
  }

  /** A search that does not return its target has not found it. */
  lemma NewTarget(m: Comparison, at: nat, found: nat, target: nat)
    requires MatchingFor(m).look(at, Some(target)) == Some(found) && found != target
    ensures !m.Has(at, target) && m.Has(at, found)
    ensures forall offset: nat | m.Has(at, offset) :: found <= offset
  {
    LookIs(m, at, Some(target));
  }

  lemma {:induction false} ExtendChooses(m: Comparison, at: nat, out: seq<RsyncCommand>)
    requires Choosing(m, at, out) && Last(out).CopyFromOld()
    requires m.Has(at, Last(out).fileOffset + Last(out).GetLength())
    ensures ChosenUpTo(m, |m.newFile|, MatchingFor(m).Extend(at, out))
    decreases |m.newFile| - at, 0
  {
    hide Matching.Extend, Matching.Advance, Matching.AfterBlock, Matching.AfterByte, RsyncCommand.Grow;
    hide WellChosen, ChosenSoFar, TotalLength, Comparison.Has;
    LoopTurns(MatchingFor(m), at, out);
    var n := Min(m.blockSize, |m.newFile| - at);
    var grown := Front(out) + [Last(out).Grow(n)];
    GrowOld(m, at, out, n);
    AtEnd(MatchingFor(m), grown);
    if at + n < |m.newFile| {
      AfterBlockChooses(m, at + n, grown);
    }
  }

  lemma {:induction false} AfterBlockChooses(m: Comparison, at: nat, out: seq<RsyncCommand>)
    requires ChosenUpTo(m, at, out) && Choosing(m, at, out) && Last(out).CopyFromOld()
    ensures ChosenUpTo(m, |m.newFile|, MatchingFor(m).AfterBlock(at, out))
    decreases |m.newFile| - at, 2
  {
    hide Matching.Extend, Matching.Advance, Matching.AfterBlock, Matching.AfterByte, LookAt;
    hide WellChosen, ChosenSoFar, TotalLength, Comparison.Has, RsyncCommand.GetLength;
    AfterBlockTurn(MatchingFor(m), at, out);
    var target := Last(out).fileOffset + Last(out).GetLength();
    LookIs(m, at, Some(target));
    var found := MatchingFor(m).look(at, Some(target));
    if found.None? {
      StartNew(m, at, out);
      AdvanceChooses(m, at, out + [NewCommand(at, false)]);
    } else if found.value == target {
      ExtendChooses(m, at, out);
    } else {
      NewTarget(m, at, found.value, target);
      StartOld(m, at, out, found.value);
      ExtendNew(m, at, out, found.value);
    }
  }

  lemma {:induction false} ExtendNew(m: Comparison, at: nat, out: seq<RsyncCommand>, offset: nat)
    requires Choosing(m, at, out + [NewCommand(offset, true)]) && m.Has(at, offset)
    ensures ChosenUpTo(m, |m.newFile|, MatchingFor(m).Extend(at, out + [NewCommand(offset, true)]))
    decreases |m.newFile| - at, 1
  {
    SnocCommand(out, NewCommand(offset, true));
    ExtendChooses(m, at, out + [NewCommand(offset, true)]);
  }

  lemma {:induction false} AdvanceChooses(m: Comparison, at: nat, out: seq<RsyncCommand>)
    requires Choosing(m, at, out) && !Last(out).CopyFromOld() && m.HasNone(at)
    ensures ChosenUpTo(m, |m.newFile|, MatchingFor(m).Advance(at, out))
    decreases |m.newFile| - at, 0
  {
    hide Matching.Extend, Matching.Advance, Matching.AfterBlock, Matching.AfterByte, RsyncCommand.Grow;
    hide WellChosen, ChosenSoFar, TotalLength, Comparison.Has, Comparison.HasNone;
    LoopTurns(MatchingFor(m), at, out);
    var grown := Front(out) + [Last(out).Grow(1)];
    GrowNew(m, at, out);
    AtEnd(MatchingFor(m), grown);
    if at + 1 < |m.newFile| {
      AfterByteChooses(m, at + 1, grown);
    }
  }

  lemma {:induction false} AfterByteChooses(m: Comparison, at: nat, out: seq<RsyncCommand>)
    requires ChosenUpTo(m, at, out) && Choosing(m, at, out) && !Last(out).CopyFromOld()
    ensures ChosenUpTo(m, |m.newFile|, MatchingFor(m).AfterByte(at, out))
    decreases |m.newFile| - at, 2
  {
    hide Matching.Extend, Matching.Advance, Matching.AfterBlock, Matching.AfterByte, LookAt;
    hide WellChosen, ChosenSoFar, TotalLength, Comparison.Has;
    AfterByteTurn(MatchingFor(m), at, out);
    LookIs(m, at, None);
    var found := MatchingFor(m).look(at, None);
    if found.None? {
      AdvanceChooses(m, at, out);
    } else {
      StartOld(m, at, out, found.value);
      ExtendNew(m, at, out, found.value);
    }
  }

  /** The commands of every comparison are well chosen and complete, collisions included. */
  lemma EveryRunChoosesWell(m: Comparison)
    requires m.Valid()
    ensures Complete(m, Commands(m.table, m.blockSize, m.sha, m.newFile))
  {
    hide Matching.Extend, Matching.Advance, WellChosen, ChosenSoFar, TotalLength, Comparison.Has;
    var matching := MatchingFor(m);
    CompareTurn(matching);
    EveryRunTilesNewFile(m.table, m.blockSize, m.sha, m.newFile);
    NoneEmpty(matching.Compare());
    if m.newFile == [] {
      NothingChosen(m);
    } else {
      NothingChosen(m);
      LookIs(m, 0, None);
      var found := matching.look(0, None);
      if found.None? {
        StartNew(m, 0, []);
        AdvanceChooses(m, 0, [] + [NewCommand(0, false)]);
      } else {
        StartOld(m, 0, [], found.value);
        ExtendNew(m, 0, [], found.value);
      }
    }
  }

  lemma NothingChosen(m: Comparison)
    ensures WellChosen(m, []) && TotalLength([]) == 0
  {
  }

  lemma {:induction false} NoneEmpty(commands: seq<RsyncCommand>)
    requires Shape(commands)
    ensures forall c | c in commands :: c.GetLength() >= 1
    decreases |commands|
  {
    if commands != [] {
      NoneEmpty(Front(commands));
      assert commands == Front(commands) + [Last(commands)];
    }
  }

  // ---------- and no others are ----------

  lemma {:induction false} PrefixLength(commands: seq<RsyncCommand>, k: nat)
    requires k <= |commands|
    ensures TotalLength(commands[..k]) <= TotalLength(commands)
    decreases |commands|
  {
    if k == |commands| {
      assert commands[..k] == commands;
    } else {
      assert Front(commands)[..k] == commands[..k];
      PrefixLength(Front(commands), k);
    }
  }

  /** What follows the first k commands, of which the last is c. */
  lemma NextCommand(m: Comparison, commands: seq<RsyncCommand>, k: nat)
    requires Complete(m, commands) && k < |commands|
    ensures TotalLength(commands[..k + 1]) == TotalLength(commands[..k]) + commands[k].GetLength() <= |m.newFile|
    ensures Last(commands[..k + 1]) == commands[k]
    ensures k + 1 == |commands| ==> TotalLength(commands[..k + 1]) == |m.newFile|
    ensures k + 1 < |commands| ==> Chosen(m, commands[..k + 1], commands[k + 1]) && commands[k + 1].GetLength() >= 1
  {
    var taken := commands[..k + 1];
    assert Front(taken) == commands[..k];
    PrefixLength(commands, k + 1);
    if k + 1 == |commands| {
      assert taken == commands;
    }
  }

  /** After the same commands, the next ones agree on their kind and offset. */
  lemma SameSource(m: Comparison, before: seq<RsyncCommand>, c: RsyncCommand, d: RsyncCommand)
    requires Chosen(m, before, c) && Chosen(m, before, d)
    requires c.GetLength() >= 1 && d.GetLength() >= 1
    ensures c.CopyFromOld() == d.CopyFromOld() && c.fileOffset == d.fileOffset
  {
    var at := TotalLength(before);
    assert c.CopyFromOld() ==> m.Has(at, c.fileOffset);
    assert d.CopyFromOld() ==> m.Has(at, d.fileOffset);
    assert !c.CopyFromOld() ==> m.HasNone(at);
    assert !d.CopyFromOld() ==> m.HasNone(at);
  }

  /** Where a command ends before another one with the same start, the other one says what is there. */
  lemma GoesOn(m: Comparison, before: seq<RsyncCommand>, c: RsyncCommand, d: RsyncCommand)
    requires Chosen(m, before, c) && Chosen(m, before, d)
    requires c.CopyFromOld() == d.CopyFromOld() && c.fileOffset == d.fileOffset
    requires c.GetLength() < d.GetLength() && TotalLength(before) + c.GetLength() != |m.newFile|
    ensures var at := TotalLength(before) + c.GetLength();
            if c.CopyFromOld() then m.Has(at, c.fileOffset + c.GetLength()) else m.HasNone(at)
  {
    hide TotalLength, RsyncCommand.GetLength, Mod, Comparison.Has, Comparison.HasNone;
  }

  /** And what follows it says the opposite. */
  lemma Follows(m: Comparison, before: seq<RsyncCommand>, next: RsyncCommand)
    requires before != [] && Chosen(m, before, next) && next.GetLength() >= 1
    ensures var at, last := TotalLength(before), Last(before);
            if last.CopyFromOld() then !m.Has(at, last.fileOffset + last.GetLength()) else !m.HasNone(at)
  {
    hide TotalLength, RsyncCommand.GetLength, Mod, Comparison.Has;
    var at := TotalLength(before);
    assert next.CopyFromOld() ==> m.Has(at, next.fileOffset);
    assert !next.CopyFromOld() ==> m.HasNone(at);
  }

  /** Nor can the first be shorter: what must follow it contradicts the second. */
  lemma NotShorter(m: Comparison, a: seq<RsyncCommand>, b: seq<RsyncCommand>, k: nat)
    requires Complete(m, a) && Complete(m, b) && k < |a| && k < |b| && a[..k] == b[..k]
    ensures a[k].GetLength() >= b[k].GetLength()
  {
    hide TotalLength, RsyncCommand.GetLength, RsyncCommand.CopyFromOld, Comparison.Has, Comparison.HasNone;
    hide Chosen, WellChosen;
    var c, d := a[k], b[k];
    ChosenAt(m, a, k);
    ChosenAt(m, b, k);
    SameSource(m, a[..k], c, d);
    if c.GetLength() < d.GetLength() {
      NextCommand(m, a, k);
      NextCommand(m, b, k);
      Follows(m, a[..k + 1], a[k + 1]);
      GoesOn(m, a[..k], c, d);
    }
  }

  lemma ChosenAt(m: Comparison, commands: seq<RsyncCommand>, k: nat)
    requires Complete(m, commands) && k < |commands|
    ensures Chosen(m, commands[..k], commands[k]) && commands[k].GetLength() >= 1
  {
  }

  lemma SameCommand(c: RsyncCommand, d: RsyncCommand)
    requires c.CopyFromOld() == d.CopyFromOld() && c.fileOffset == d.fileOffset && c.GetLength() == d.GetLength()
    ensures c == d
  {
  }

  lemma {:induction false} SameFrom(m: Comparison, a: seq<RsyncCommand>, b: seq<RsyncCommand>, k: nat)
    requires Complete(m, a) && Complete(m, b)
    requires k <= |a| && k <= |b| && a[..k] == b[..k]
    ensures a == b
    decreases |a| - k
  {
    hide TotalLength, RsyncCommand.GetLength, Chosen, WellChosen, RsyncCommand.CopyFromOld;
    if k < |a| && k < |b| {
      ChosenAt(m, a, k);
      ChosenAt(m, b, k);
      SameSource(m, a[..k], a[k], b[k]);
      NotShorter(m, a, b, k);
      NotShorter(m, b, a, k);
      SameCommand(a[k], b[k]);
      assert a[..k + 1] == a[..k] + [a[k]] == b[..k + 1];
      SameFrom(m, a, b, k + 1);
    } else if k < |a| {
      Ended(m, b, a);
    } else if k < |b| {
      Ended(m, a, b);
    }
  }

  /** No complete list goes on after another one has ended. */
  lemma Ended(m: Comparison, a: seq<RsyncCommand>, b: seq<RsyncCommand>)
    requires Complete(m, a) && Complete(m, b) && |a| <= |b| && a == b[..|a|]
    ensures a == b
  {
    if |a| < |b| {
      NextCommand(m, b, |a|);
      ChosenAt(m, b, |a|);
    }
  }

  /** The commands of a comparison are the one list that is well chosen and complete: for every table, new file and
      digest, and with no assumption about collisions. */
  lemma CommandsAreTheChoice(m: Comparison, commands: seq<RsyncCommand>)
    requires m.Valid()
    ensures Complete(m, commands) <==> commands == Commands(m.table, m.blockSize, m.sha, m.newFile)
  {
    hide Complete;
    EveryRunChoosesWell(m);
    if Complete(m, commands) {
      SameFrom(m, commands, Commands(m.table, m.blockSize, m.sha, m.newFile), 0);
    }
  }

  // ---------- the increment of the native copy ----------

  lemma {:induction false} WholePart(n: nat, blockSize: nat)
    requires blockSize > 0
    ensures Mod(n, blockSize) <= n && Mod(n - Mod(n, blockSize), blockSize) == 0
  {
    if n >= blockSize {
      WholePart(n - blockSize, blockSize);
      ModOfSum(blockSize, n - blockSize - Mod(n, blockSize), blockSize);
    }
  }

  /** Rounding up to whole blocks takes in no further start of a block. */
  lemma NoFurtherBlock(length: nat, blockSize: nat, n: nat)
    requires blockSize > 0 && Mod(n, blockSize) == 0 && n < length + Overshoot(length, blockSize)
    ensures n < length
  {
    var rest := Mod(length, blockSize);
    WholePart(length, blockSize);
    if length <= n {
      ModOfSum(length - rest, n - (length - rest), blockSize);
    }
  }

  lemma RoundedIsWhole(length: nat, blockSize: nat)
    requires blockSize > 0
    ensures Mod(length + Overshoot(length, blockSize), blockSize) == 0
  {
    var rest := Mod(length, blockSize);
    WholePart(length, blockSize);
    if rest > 0 {
      ModOfSum(length - rest, blockSize, blockSize);
    }
  }

  lemma RoundedChosen(m: Comparison, before: seq<RsyncCommand>, c: RsyncCommand)
    requires m.blockSize > 0 && Chosen(m, before, c) && c.CopyFromOld() && c.GetLength() + m.blockSize < TWO_TO_63
    ensures Chosen(m, before, c.Grow(Overshoot(c.GetLength(), m.blockSize)))
  {
    hide TotalLength, RsyncCommand.Grow, RsyncCommand.GetLength, Mod, Comparison.Has;
    var at, n := TotalLength(before), Overshoot(c.GetLength(), m.blockSize);
    GrowKeepsFlag(c, n);
    RoundedIsWhole(c.GetLength(), m.blockSize);
    forall k: nat | k < c.GetLength() + n && Mod(k, m.blockSize) == 0
      ensures m.Has(at + k, c.fileOffset + k)
    {
      NoFurtherBlock(c.GetLength(), m.blockSize, k);
    }
  }

  /** The commands of the native copy are well chosen too: its last command may be too long, but takes in no further
      block. */
  lemma EveryNativeRunChoosesWell(m: Comparison)
    requires m.blockSize > 0 && |m.newFile| + m.blockSize < TWO_TO_63
    ensures WellChosen(m, MatchingOf(m.table, m.blockSize, m.sha, m.newFile, true).Compare())
  {
    hide Chosen, WellChosen, Matching.Compare, TotalLength, RsyncCommand.Grow, RsyncCommand.GetLength, Overshoot;
    var matching := MatchingFor(m);
    EveryRunChoosesWell(m);
    NativeRoundsUp(matching);
    assert Native(matching) == MatchingOf(m.table, m.blockSize, m.sha, m.newFile, true);
    var commands := matching.Compare();
    if commands != [] && Last(commands).CopyFromOld() {
      var before, last := Front(commands), Last(commands);
      assert commands == before + [last];
      WellChosenSnoc(m, before, last);
      TotalSnoc(before, last);
      RoundedChosen(m, before, last);
      WellChosenSnoc(m, before, last.Grow(Overshoot(last.GetLength(), m.blockSize)));
    }
  }
}
