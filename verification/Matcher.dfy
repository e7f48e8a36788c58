/** The comparison of two files as a function of their contents, and its main theorems.

    The three states of AbstractFileComparer become functions over commands: entering a state appends an empty
    command, and one turn of the state's inner loop grows it. The window at position pos of the new file is
    always the next block-size bytes, cut at the end of the file. FileComparer.dfy proves that the imperative
    comparer computes this function, whatever the disk and the hashing thread do. */
module Matcher {
  import opened ByteStrings
  import opened DeltaCommands

  /** What a search finds for the window at a position, given the offset it would prefer. */
  type Look = (nat, Option<nat>) -> Option<nat>

  /** `size` is the size of the new file. nativeIncrement tells the two copies of the comparer apart: a match
      advances by the block size in BackupEngineNativePart and by the size of the window in rsync_test2. */
  datatype Matching = Matching(size: nat, blockSize: nat, look: Look, nativeIncrement: bool) {

    predicate Valid() {
      blockSize > 0 && size < TWO_TO_63
    }

    function WindowSize(pos: nat): nat
      requires pos <= size
    {
      Min(blockSize, size - pos)
    }

    function MatchingIncrement(pos: nat): nat
      requires pos <= size
    {
      if nativeIncrement then blockSize else WindowSize(pos)
    }

    /** Entering state Matching. */
    function Match(pos: nat, oldOffset: nat, out: seq<RsyncCommand>): seq<RsyncCommand>
      requires Valid() && pos < size
      decreases size - pos, 1
    {
      Extend(pos, out + [NewCommand(oldOffset, true)])
    }

    /** One turn of the inner loop of state Matching: the command grows over the window. */
    function Extend(pos: nat, out: seq<RsyncCommand>): seq<RsyncCommand>
      requires Valid() && pos < size && out != []
      decreases size - pos, 0
    {
      AfterBlock(pos + WindowSize(pos), Front(out) + [Last(out).Grow(MatchingIncrement(pos))])
    }

    /** The rest of that turn: read the next block and search for it, preferably where the command ends. */
    function AfterBlock(pos: nat, out: seq<RsyncCommand>): seq<RsyncCommand>
      requires Valid() && pos <= size && out != []
      decreases size - pos, 2
    {
      if pos == size then out
      else
        var target := Last(out).fileOffset + Last(out).GetLength();
        var found := look(pos, Some(target));
        if found.None? then NonMatch(pos, out)
        else if found.value == target then Extend(pos, out)
        else Match(pos, found.value, out)
    }

    /** Entering state NonMatching. */
    function NonMatch(pos: nat, out: seq<RsyncCommand>): seq<RsyncCommand>
      requires Valid() && pos < size
      decreases size - pos, 1
    {
      Advance(pos, out + [NewCommand(pos, false)])
    }

    /** One turn of the loop of state NonMatching: the command grows by a byte. */
    function Advance(pos: nat, out: seq<RsyncCommand>): seq<RsyncCommand>
      requires Valid() && pos < size && out != []
      decreases size - pos, 0
    {
      AfterByte(pos + 1, Front(out) + [Last(out).Grow(1)])
    }

    /** The rest of that turn: roll the window by a byte and search for it. */
    function AfterByte(pos: nat, out: seq<RsyncCommand>): seq<RsyncCommand>
      requires Valid() && pos <= size && out != []
      decreases size - pos, 2
    {
      if pos == size then out
      else
        var found := look(pos, None);
        if found.None? then Advance(pos, out) else Match(pos, found.value, out)
    }

    /** The whole command list, from state Initial. */
    function Compare(): seq<RsyncCommand>
      requires Valid()
    {
      if size == 0 then []
      else
        var found := look(0, None);
        if found.None? then NonMatch(0, []) else Match(0, found.value, [])
    }
  }

  /** One turn of the loop of state Matching, spelled out. */
  lemma {:induction false} ExtendTurn(m: Matching, pos: nat, out: seq<RsyncCommand>)
    requires m.Valid() && pos < m.size && out != []
    ensures var grown := Front(out) + [Last(out).Grow(m.MatchingIncrement(pos))];
            var next := pos + m.WindowSize(pos);
            var target := Last(grown).fileOffset + Last(grown).GetLength();
            m.Extend(pos, out) ==
              if next == m.size then grown
              else if m.look(next, Some(target)).None? then m.NonMatch(next, grown)
              else if m.look(next, Some(target)).value == target then m.Extend(next, grown)
              else m.Match(next, m.look(next, Some(target)).value, grown)
  {
  }

  /** One turn of the loop of state NonMatching, spelled out. */
  lemma {:induction false} AdvanceTurn(m: Matching, pos: nat, out: seq<RsyncCommand>)
    requires m.Valid() && pos < m.size && out != []
    ensures var grown := Front(out) + [Last(out).Grow(1)];
            m.Advance(pos, out) ==
              if pos + 1 == m.size then grown
              else if m.look(pos + 1, None).None? then m.Advance(pos + 1, grown)
              else m.Match(pos + 1, m.look(pos + 1, None).value, grown)
  {
  }

  /** What follows a block, spelled out down to the two loops. */
  lemma AfterBlockTurn(m: Matching, pos: nat, out: seq<RsyncCommand>)
    requires m.Valid() && pos < m.size && out != []
    ensures var target := Last(out).fileOffset + Last(out).GetLength();
            var found := m.look(pos, Some(target));
            m.AfterBlock(pos, out) ==
              if found.None? then m.Advance(pos, out + [NewCommand(pos, false)])
              else if found.value == target then m.Extend(pos, out)
              else m.Extend(pos, out + [NewCommand(found.value, true)])
  {
  }

  lemma AfterByteTurn(m: Matching, pos: nat, out: seq<RsyncCommand>)
    requires m.Valid() && pos < m.size && out != []
    ensures var found := m.look(pos, None);
            m.AfterByte(pos, out) ==
              if found.None? then m.Advance(pos, out)
              else m.Extend(pos, out + [NewCommand(found.value, true)])
  {
  }

  lemma LoopTurns(m: Matching, pos: nat, out: seq<RsyncCommand>)
    requires m.Valid() && pos < m.size && out != []
    ensures m.Extend(pos, out)
         == m.AfterBlock(pos + m.WindowSize(pos), Front(out) + [Last(out).Grow(m.MatchingIncrement(pos))])
    ensures m.Advance(pos, out) == m.AfterByte(pos + 1, Front(out) + [Last(out).Grow(1)])
  {
  }

  lemma AtEnd(m: Matching, out: seq<RsyncCommand>)
    requires m.Valid() && out != []
    ensures m.AfterBlock(m.size, out) == out && m.AfterByte(m.size, out) == out
  {
  }

  /** State Initial, spelled out. */
  lemma CompareTurn(m: Matching)
    requires m.Valid()
    ensures m.Compare() ==
      if m.size == 0 then []
      else if m.look(0, None).None? then m.NonMatch(0, [])
      else m.Match(0, m.look(0, None).value, [])
  {
  }

  // ---------- searches that agree ----------

  ghost predicate Agree(m: Matching, n: Matching) {
    && m.Valid() && n == m.(look := n.look)
    && forall pos: nat, target: Option<nat> | pos < m.size :: m.look(pos, target) == n.look(pos, target)
  }

  lemma {:induction false} AgreeExtend(m: Matching, n: Matching, pos: nat, out: seq<RsyncCommand>)
    requires Agree(m, n) && pos < m.size && out != []
    ensures m.Extend(pos, out) == n.Extend(pos, out)
    decreases m.size - pos
  {
    ExtendTurn(m, pos, out);
    ExtendTurn(n, pos, out);
    var grown := Front(out) + [Last(out).Grow(m.MatchingIncrement(pos))];
    var next := pos + m.WindowSize(pos);
    if next < m.size {
      var target := Last(grown).fileOffset + Last(grown).GetLength();
      var found := m.look(next, Some(target));
      hide Matching.Extend;
      hide Matching.Advance;
      if found.None? {
        AgreeAdvance(m, n, next, grown + [NewCommand(next, false)]);
      } else if found.value == target {
        AgreeExtend(m, n, next, grown);
      } else {
        AgreeExtend(m, n, next, grown + [NewCommand(found.value, true)]);
      }
    }
  }

  lemma {:induction false} AgreeAdvance(m: Matching, n: Matching, pos: nat, out: seq<RsyncCommand>)
    requires Agree(m, n) && pos < m.size && out != []
    ensures m.Advance(pos, out) == n.Advance(pos, out)
    decreases m.size - pos
  {
    AdvanceTurn(m, pos, out);
    AdvanceTurn(n, pos, out);
    var grown := Front(out) + [Last(out).Grow(1)];
    if pos + 1 < m.size {
      var found := m.look(pos + 1, None);
      hide Matching.Extend;
      hide Matching.Advance;
      if found.None? {
        AgreeAdvance(m, n, pos + 1, grown);
      } else {
        AgreeExtend(m, n, pos + 1, grown + [NewCommand(found.value, true)]);
      }
    }
  }

  /** Two comparisons whose searches agree emit the same commands. */
  lemma AgreeCompare(m: Matching, n: Matching)
    requires Agree(m, n)
    ensures m.Compare() == n.Compare()
  {
    hide Matching.Extend;
    hide Matching.Advance;
    if m.size > 0 {
      var found := m.look(0, None);
      if found.None? {
        AgreeAdvance(m, n, 0, [] + [NewCommand(0, false)]);
      } else {
        AgreeExtend(m, n, 0, [] + [NewCommand(found.value, true)]);
      }
    }
  }

  // ---------- every run tiles the new file ----------

  /** Whatever a search returns, the window it stands for fits into an old file of this size. */
  ghost predicate FitsIn(m: Matching, oldSize: nat) {
    forall pos: nat, target: Option<nat> | pos < m.size && m.look(pos, target).Some? ::
      m.look(pos, target).value + m.WindowSize(pos) <= oldSize
  }

  /** The commands so far tile the first pos bytes; with a bound, copy-old commands stay inside the old file. */
  ghost predicate Tiled(m: Matching, bound: Option<nat>, pos: nat, out: seq<RsyncCommand>) {
    && m.Valid() && !m.nativeIncrement && pos <= m.size
    && Shape(out)
    && TotalLength(out) == pos
    && (bound.Some? ==> FitsIn(m, bound.value) && StaysInside(out, bound.value))
  }

  /** The same, with a last command that is still growing and may be empty. */
  ghost predicate Tiling(m: Matching, bound: Option<nat>, pos: nat, out: seq<RsyncCommand>) {
    && m.Valid() && !m.nativeIncrement && pos < m.size
    && out != []
    && Shape(Front(out))
    && (!Last(out).CopyFromOld() ==> Last(out).fileOffset == TotalLength(Front(out)))
    && TotalLength(out) == pos
    && (bound.Some? ==> FitsIn(m, bound.value) && StaysInside(out, bound.value))
  }

  lemma ShapeSnoc(commands: seq<RsyncCommand>, c: RsyncCommand)
    ensures Front(commands + [c]) == commands && Last(commands + [c]) == c
    ensures TotalLength(commands + [c]) == TotalLength(commands) + c.GetLength()
    ensures Shape(commands + [c]) <==>
      Shape(commands) && c.GetLength() >= 1 && (!c.CopyFromOld() ==> c.fileOffset == TotalLength(commands))
    ensures forall n: nat :: StaysInside(commands + [c], n) <==>
      StaysInside(commands, n) && (c.CopyFromOld() ==> c.fileOffset + c.GetLength() <= n)
  {
    SnocCommand(commands, c);
  }

  lemma OpenTiling(m: Matching, bound: Option<nat>, pos: nat, out: seq<RsyncCommand>, offset: nat, fromOld: bool)
    requires Tiled(m, bound, pos, out) && pos < m.size
    requires fromOld ==> bound.Some? ==> offset <= bound.value
    requires !fromOld ==> offset == pos
    ensures Tiling(m, bound, pos, out + [NewCommand(offset, fromOld)])
    ensures Last(out + [NewCommand(offset, fromOld)]) == NewCommand(offset, fromOld)
  {
    ShapeSnoc(out, NewCommand(offset, fromOld));
  }

  lemma GrowTiling(m: Matching, bound: Option<nat>, pos: nat, out: seq<RsyncCommand>, n: nat)
    requires Tiling(m, bound, pos, out) && 1 <= n && pos + n <= m.size
    requires Last(out).CopyFromOld() ==> bound.Some? ==>
      Last(out).fileOffset + Last(out).GetLength() + n <= bound.value
    ensures var grown := Front(out) + [Last(out).Grow(n)];
            && Tiled(m, bound, pos + n, grown)
            && (pos + n < m.size ==> Tiling(m, bound, pos + n, grown))
            && Last(grown) == Last(out).Grow(n)
            && Last(grown).CopyFromOld() == Last(out).CopyFromOld()
  {
    var last := Last(out);
    assert out == Front(out) + [last];
    ShapeSnoc(Front(out), last);
    GrowKeepsFlag(last, n);
    ShapeSnoc(Front(out), last.Grow(n));
  }

  lemma {:induction false} MatchTiles(m: Matching, bound: Option<nat>, pos: nat, o: nat, out: seq<RsyncCommand>)
    requires Tiled(m, bound, pos, out) && pos < m.size
    requires bound.Some? ==> o + m.WindowSize(pos) <= bound.value
    ensures Tiled(m, bound, m.size, m.Match(pos, o, out))
    decreases m.size - pos, 1
  {
    OpenTiling(m, bound, pos, out, o, true);
    ExtendTiles(m, bound, pos, out + [NewCommand(o, true)]);
  }

  lemma {:induction false} ExtendTiles(m: Matching, bound: Option<nat>, pos: nat, out: seq<RsyncCommand>)
    requires Tiling(m, bound, pos, out) && Last(out).CopyFromOld()
    requires bound.Some? ==> Last(out).fileOffset + Last(out).GetLength() + m.WindowSize(pos) <= bound.value
    ensures Tiled(m, bound, m.size, m.Extend(pos, out))
    decreases m.size - pos, 0
  {
    hide Shape, StaysInside, TotalLength;
    GrowTiling(m, bound, pos, out, m.WindowSize(pos));
    ExtendTurn(m, pos, out);
    var next := pos + m.WindowSize(pos);
    var grown := Front(out) + [Last(out).Grow(m.WindowSize(pos))];
    hide RsyncCommand.Grow;
    if next < m.size {
      var target := Last(grown).fileOffset + Last(grown).GetLength();
      var found := m.look(next, Some(target));
      if found.None? {
        NonMatchTiles(m, bound, next, grown);
      } else if found.value == target {
        ExtendTiles(m, bound, next, grown);
      } else {
        MatchTiles(m, bound, next, found.value, grown);
      }
    }
  }

  lemma {:induction false} NonMatchTiles(m: Matching, bound: Option<nat>, pos: nat, out: seq<RsyncCommand>)
    requires Tiled(m, bound, pos, out) && pos < m.size
    ensures Tiled(m, bound, m.size, m.NonMatch(pos, out))
    decreases m.size - pos, 1
  {
    OpenTiling(m, bound, pos, out, pos, false);
    AdvanceTiles(m, bound, pos, out + [NewCommand(pos, false)]);
  }

  lemma {:induction false} AdvanceTiles(m: Matching, bound: Option<nat>, pos: nat, out: seq<RsyncCommand>)
    requires Tiling(m, bound, pos, out) && !Last(out).CopyFromOld()
    ensures Tiled(m, bound, m.size, m.Advance(pos, out))
    decreases m.size - pos, 0
  {
    hide Shape, StaysInside, TotalLength;
    GrowTiling(m, bound, pos, out, 1);
    AdvanceTurn(m, pos, out);
    var grown := Front(out) + [Last(out).Grow(1)];
    if pos + 1 < m.size {
      var found := m.look(pos + 1, None);
      if found.None? {
        AdvanceTiles(m, bound, pos + 1, grown);
      } else {
        MatchTiles(m, bound, pos + 1, found.value, grown);
      }
    }
  }

  lemma CompareTiles(m: Matching, bound: Option<nat>)
    requires m.Valid() && !m.nativeIncrement && (bound.Some? ==> FitsIn(m, bound.value))
    ensures Tiled(m, bound, m.size, m.Compare())
  {
    if m.size > 0 {
      var found := m.look(0, None);
      if found.None? {
        NonMatchTiles(m, bound, 0, []);
      } else {
        MatchTiles(m, bound, 0, found.value, []);
      }
    }
  }

  /** In every run, whatever the searches return, no command is empty, the lengths sum to the size of the new file,
      and a copy-new command reads from its own position. */
  lemma EveryRunTiles(m: Matching)
    requires m.Valid() && !m.nativeIncrement
    ensures Shape(m.Compare()) && TotalLength(m.Compare()) == m.size
  {
    CompareTiles(m, None);
  }

  /** If in addition every search result has space for its window, copy-old commands stay inside the old file. */
  lemma FittingRunStaysInside(m: Matching, oldSize: nat)
    requires m.Valid() && !m.nativeIncrement && FitsIn(m, oldSize)
    ensures Tiles(m.Compare(), oldSize)
  {
    CompareTiles(m, Some(oldSize));
    TilesIff(m.Compare(), oldSize);
  }

  // ---------- rebuilding ----------

  /** Every search result is an old block with the bytes of the window. */
  ghost predicate Sound(m: Matching, oldFile: Bytes, newFile: Bytes) {
    && m.Valid() && m.size == |newFile| && |oldFile| < TWO_TO_63
    && forall pos: nat, target: Option<nat> | pos < m.size && m.look(pos, target).Some? ::
         Matches(m, oldFile, newFile, pos, m.look(pos, target).value)
  }

  ghost predicate Matches(m: Matching, oldFile: Bytes, newFile: Bytes, pos: nat, o: nat)
    requires pos <= m.size
  {
    o + m.WindowSize(pos) <= |oldFile| && Slice(oldFile, o, m.WindowSize(pos)) == Slice(newFile, pos, m.WindowSize(pos))
  }

  /** The commands rebuild the first pos bytes of the new file. */
  ghost predicate Covers(oldFile: Bytes, newFile: Bytes, pos: nat, out: seq<RsyncCommand>) {
    && pos <= |newFile|
    && Tiles(out, |oldFile|)
    && TotalLength(out) == pos
    && Apply(out, oldFile, newFile) == newFile[..pos]
  }

  /** The same, with a last command that is still growing and may be empty. */
  ghost predicate Growing(oldFile: Bytes, newFile: Bytes, pos: nat, out: seq<RsyncCommand>) {
    && out != []
    && pos < |newFile|
    && Tiles(Front(out), |oldFile|)
    && TotalLength(out) == pos
    && Apply(out, oldFile, newFile) == newFile[..pos]
    && (if Last(out).CopyFromOld() then Last(out).fileOffset + Last(out).GetLength() <= |oldFile|
        else Last(out).fileOffset == TotalLength(Front(out)))
  }

  lemma GrowBytes(last: RsyncCommand, oldFile: Bytes, newFile: Bytes, n: nat)
    requires last.GetLength() + n < TWO_TO_63
    ensures CommandBytes(last.Grow(n), oldFile, newFile)
         == CommandBytes(last, oldFile, newFile)
            + Slice(if last.CopyFromOld() then oldFile else newFile, last.fileOffset + last.GetLength(), n)
  {
    GrowKeepsFlag(last, n);
    SliceSplit(if last.CopyFromOld() then oldFile else newFile, last.fileOffset, last.GetLength(), n);
  }

  /** One more command at the end of a tiling list. */
  lemma SnocApplies(commands: seq<RsyncCommand>, c: RsyncCommand, oldFile: Bytes, newFile: Bytes)
    ensures Front(commands + [c]) == commands && Last(commands + [c]) == c
    ensures Apply(commands + [c], oldFile, newFile)
         == Apply(commands, oldFile, newFile) + CommandBytes(c, oldFile, newFile)
    ensures TotalLength(commands + [c]) == TotalLength(commands) + c.GetLength()
    ensures Tiles(commands + [c], |oldFile|) <==>
      && Tiles(commands, |oldFile|)
      && c.GetLength() >= 1
      && (if c.CopyFromOld() then c.fileOffset + c.GetLength() <= |oldFile| else c.fileOffset == TotalLength(commands))
  {
    SnocCommand(commands, c);
    hide CommandBytes;
  }

  /** Growing the last command by n bytes that its source really has there. */
  lemma GrowLast(oldFile: Bytes, newFile: Bytes, pos: nat, out: seq<RsyncCommand>, n: nat)
    requires |newFile| < TWO_TO_63 && |oldFile| < TWO_TO_63 && Growing(oldFile, newFile, pos, out)
    requires 1 <= n && pos + n <= |newFile|
    requires Last(out).CopyFromOld() ==>
      && Last(out).fileOffset + Last(out).GetLength() + n <= |oldFile|
      && Slice(oldFile, Last(out).fileOffset + Last(out).GetLength(), n) == Slice(newFile, pos, n)
    ensures var grown := Front(out) + [Last(out).Grow(n)];
            && Front(grown) == Front(out)
            && Covers(oldFile, newFile, pos + n, grown)
            && Last(grown).GetLength() == Last(out).GetLength() + n
            && Last(grown).fileOffset == Last(out).fileOffset
            && Last(grown).CopyFromOld() == Last(out).CopyFromOld()
  {
    hide Slice, CommandBytes, Tiles, TotalLength, Apply, RsyncCommand.Grow, RsyncCommand.GetLength;
    var last := Last(out);
    assert out == Front(out) + [last];
    SnocApplies(Front(out), last, oldFile, newFile);
    GrowKeepsFlag(last, n);
    GrowBytes(last, oldFile, newFile, n);
    SlicePrefix(newFile, pos, n);
    Associative(Apply(Front(out), oldFile, newFile), CommandBytes(last, oldFile, newFile), Slice(newFile, pos, n));
    SnocApplies(Front(out), last.Grow(n), oldFile, newFile);
  }

  /** Opening a new, still empty command after commands that cover the new file up to pos. */
  lemma OpenCommand(oldFile: Bytes, newFile: Bytes, pos: nat, out: seq<RsyncCommand>, offset: nat, fromOld: bool)
    requires pos < |newFile| && Covers(oldFile, newFile, pos, out)
    requires if fromOld then offset <= |oldFile| else offset == pos
    ensures var started := out + [NewCommand(offset, fromOld)];
            && Growing(oldFile, newFile, pos, started)
            && Last(started).fileOffset == offset
            && Last(started).GetLength() == 0
            && Last(started).CopyFromOld() == fromOld
  {
    SnocCommand(out, NewCommand(offset, fromOld));
  }

  /** A command list that covers a prefix can be taken as still growing. */
  lemma CoversGrows(oldFile: Bytes, newFile: Bytes, pos: nat, out: seq<RsyncCommand>)
    requires out != [] && pos < |newFile| && Covers(oldFile, newFile, pos, out)
    ensures Growing(oldFile, newFile, pos, out)
  {
  }

  lemma {:induction false} MatchCompletes(m: Matching, oldFile: Bytes, newFile: Bytes, pos: nat, o: nat,
                                          out: seq<RsyncCommand>)
    requires Sound(m, oldFile, newFile) && !m.nativeIncrement && pos < m.size
    requires Covers(oldFile, newFile, pos, out) && Matches(m, oldFile, newFile, pos, o)
    ensures Covers(oldFile, newFile, m.size, m.Match(pos, o, out))
    decreases m.size - pos, 1
  {
    OpenCommand(oldFile, newFile, pos, out, o, true);
    ExtendCompletes(m, oldFile, newFile, pos, out + [NewCommand(o, true)]);
  }

  lemma {:induction false} ExtendCompletes(m: Matching, oldFile: Bytes, newFile: Bytes, pos: nat,
                                           out: seq<RsyncCommand>)
    requires Sound(m, oldFile, newFile) && !m.nativeIncrement && Growing(oldFile, newFile, pos, out)
    requires Last(out).CopyFromOld()
    requires Matches(m, oldFile, newFile, pos, Last(out).fileOffset + Last(out).GetLength())
    ensures Covers(oldFile, newFile, m.size, m.Extend(pos, out))
    decreases m.size - pos, 0
  {
    hide Slice;
    hide Tiles;
    hide TotalLength;
    hide Apply;
    hide Mod;
    var n := m.WindowSize(pos);
    GrowLast(oldFile, newFile, pos, out, n);
    AfterBlockCompletes(m, oldFile, newFile, pos + n, Front(out) + [Last(out).Grow(n)]);
  }

  lemma {:induction false} AfterBlockCompletes(m: Matching, oldFile: Bytes, newFile: Bytes, pos: nat,
                                               out: seq<RsyncCommand>)
    requires Sound(m, oldFile, newFile) && !m.nativeIncrement
    requires out != [] && Last(out).CopyFromOld() && Covers(oldFile, newFile, pos, out)
    ensures Covers(oldFile, newFile, m.size, m.AfterBlock(pos, out))
    decreases m.size - pos, 2
  {
    hide Slice;
    hide Apply;
    if pos < m.size {
      var target := Last(out).fileOffset + Last(out).GetLength();
      var found := m.look(pos, Some(target));
      if found.None? {
        NonMatchCompletes(m, oldFile, newFile, pos, out);
      } else if found.value == target {
        CoversGrows(oldFile, newFile, pos, out);
        ExtendCompletes(m, oldFile, newFile, pos, out);
      } else {
        MatchCompletes(m, oldFile, newFile, pos, found.value, out);
      }
    }
  }

  lemma {:induction false} NonMatchCompletes(m: Matching, oldFile: Bytes, newFile: Bytes, pos: nat,
                                             out: seq<RsyncCommand>)
    requires Sound(m, oldFile, newFile) && !m.nativeIncrement && pos < m.size
    requires Covers(oldFile, newFile, pos, out)
    ensures Covers(oldFile, newFile, m.size, m.NonMatch(pos, out))
    decreases m.size - pos, 1
  {
    OpenCommand(oldFile, newFile, pos, out, pos, false);
    AdvanceCompletes(m, oldFile, newFile, pos, out + [NewCommand(pos, false)]);
  }

  lemma {:induction false} AdvanceCompletes(m: Matching, oldFile: Bytes, newFile: Bytes, pos: nat,
                                            out: seq<RsyncCommand>)
    requires Sound(m, oldFile, newFile) && !m.nativeIncrement && Growing(oldFile, newFile, pos, out)
    requires !Last(out).CopyFromOld()
    ensures Covers(oldFile, newFile, m.size, m.Advance(pos, out))
    decreases m.size - pos, 0
  {
    GrowLast(oldFile, newFile, pos, out, 1);
    AfterByteCompletes(m, oldFile, newFile, pos + 1, Front(out) + [Last(out).Grow(1)]);
  }

  lemma {:induction false} AfterByteCompletes(m: Matching, oldFile: Bytes, newFile: Bytes, pos: nat,
                                              out: seq<RsyncCommand>)
    requires Sound(m, oldFile, newFile) && !m.nativeIncrement
    requires out != [] && !Last(out).CopyFromOld() && Covers(oldFile, newFile, pos, out)
    ensures Covers(oldFile, newFile, m.size, m.AfterByte(pos, out))
    decreases m.size - pos, 2
  {
    if pos < m.size {
      var found := m.look(pos, None);
      if found.None? {
        CoversGrows(oldFile, newFile, pos, out);
        AdvanceCompletes(m, oldFile, newFile, pos, out);
      } else {
        MatchCompletes(m, oldFile, newFile, pos, found.value, out);
      }
    }
  }

  /** With sound searches the commands rebuild the new file byte for byte, and they tile it. */
  lemma CompareCompletes(m: Matching, oldFile: Bytes, newFile: Bytes)
    requires Sound(m, oldFile, newFile) && !m.nativeIncrement
    ensures Covers(oldFile, newFile, m.size, m.Compare())
  {
    if m.size > 0 {
      var found := m.look(0, None);
      if found.None? {
        NonMatchCompletes(m, oldFile, newFile, 0, []);
      } else {
        MatchCompletes(m, oldFile, newFile, 0, found.value, []);
      }
    }
  }

  // ---------- a file that matches itself ----------

  /** Searches at block boundaries find the block at the same offset. */
  ghost predicate FindsItself(m: Matching) {
    && m.Valid()
    && (m.size > 0 ==> m.look(0, None) == Some(0))
    && forall pos: nat | 0 < pos < m.size && Mod(pos, m.blockSize) == 0 :: m.look(pos, Some(pos)) == Some(pos)
  }

  lemma {:induction false} SelfExtend(m: Matching, pos: nat)
    requires FindsItself(m) && !m.nativeIncrement && pos < m.size && Mod(pos, m.blockSize) == 0
    ensures m.Extend(pos, [RsyncCommand(0, TWO_TO_63 + pos)]) == [RsyncCommand(0, TWO_TO_63 + m.size)]
    decreases m.size - pos
  {
    var next := pos + m.WindowSize(pos);
    var out := [RsyncCommand(0, TWO_TO_63 + next)];
    assert m.Extend(pos, [RsyncCommand(0, TWO_TO_63 + pos)]) == m.AfterBlock(next, out) by {
      var started := [RsyncCommand(0, TWO_TO_63 + pos)];
      assert RsyncCommand(0, TWO_TO_63 + pos).Grow(m.WindowSize(pos)) == RsyncCommand(0, TWO_TO_63 + next);
      assert Front(started) + [RsyncCommand(0, TWO_TO_63 + next)] == out;
    }
    if next < m.size {
      assert Mod(pos + m.blockSize, m.blockSize) == Mod(pos, m.blockSize);
      SelfExtend(m, next);
    }
  }

  lemma SelfCompare(m: Matching)
    requires FindsItself(m) && !m.nativeIncrement && m.size > 0
    ensures m.Compare() == [RsyncCommand(0, TWO_TO_63 + m.size)]
  {
    SelfExtend(m, 0);
    assert [] + [NewCommand(0, true)] == [RsyncCommand(0, TWO_TO_63)];
  }

  /** A file of at most one block that is found gives one command. */
  lemma SingleMatch(m: Matching)
    requires m.Valid() && !m.nativeIncrement && 0 < m.size <= m.blockSize && m.look(0, None).Some?
    ensures m.Compare() == [NewCommand(m.look(0, None).value, true).Grow(m.size)]
  {
    var started := NewCommand(m.look(0, None).value, true);
    assert [] + [started] == [started];
    ExtendTurn(m, 0, [started]);
  }

  // ---------- the increment of the native copy ----------

  /** What is missing from n to the next multiple of the block size. */
  function Overshoot(n: nat, blockSize: nat): nat
    requires blockSize > 0
  {
    if Mod(n, blockSize) == 0 then 0 else blockSize - Mod(n, blockSize)
  }

  /** The native commands: the same, but a copy-old command at the end is rounded up to whole blocks. */
  function RoundedUp(commands: seq<RsyncCommand>, blockSize: nat): seq<RsyncCommand>
    requires blockSize > 0
  {
    if commands == [] || !Last(commands).CopyFromOld() then commands
    else Front(commands) + [Last(commands).Grow(Overshoot(Last(commands).GetLength(), blockSize))]
  }

  function Native(m: Matching): Matching { m.(nativeIncrement := true) }

  /** The two copies can only differ in the last command of the run. */
  ghost predicate Comparable(m: Matching, pos: nat) {
    m.Valid() && !m.nativeIncrement && pos < m.size && m.size + m.blockSize < TWO_TO_63
  }

  lemma RoundLast(m: Matching, pos: nat, out: seq<RsyncCommand>)
    requires Comparable(m, pos) && out != [] && Last(out).CopyFromOld()
    requires Last(out).GetLength() <= pos && Mod(Last(out).GetLength(), m.blockSize) == 0
    ensures var grown := Front(out) + [Last(out).Grow(m.WindowSize(pos))];
            && Front(out) + [Last(out).Grow(m.blockSize)] == RoundedUp(grown, m.blockSize)
            && Last(grown).CopyFromOld()
            && Last(grown).GetLength() == Last(out).GetLength() + m.WindowSize(pos)
            && (m.WindowSize(pos) == m.blockSize ==> Mod(Last(grown).GetLength(), m.blockSize) == 0)
  {
    var last, w := Last(out), m.WindowSize(pos);
    GrowKeepsFlag(last, w);
    SnocCommand(Front(out), last.Grow(w));
    ModOfSum(last.GetLength(), w, m.blockSize);
  }

  lemma {:induction false} NativeExtend(m: Matching, pos: nat, out: seq<RsyncCommand>)
    requires Comparable(m, pos) && out != [] && Last(out).CopyFromOld()
    requires Last(out).GetLength() <= pos && Mod(Last(out).GetLength(), m.blockSize) == 0
    ensures Native(m).Extend(pos, out) == RoundedUp(m.Extend(pos, out), m.blockSize)
    decreases m.size - pos, 0
  {
    RoundLast(m, pos, out);
    var next := pos + m.WindowSize(pos);
    var grown := Front(out) + [Last(out).Grow(m.WindowSize(pos))];
    if next < m.size {
      NativeAfterBlock(m, next, grown);
    }
  }

  lemma {:induction false} NativeAfterBlock(m: Matching, pos: nat, out: seq<RsyncCommand>)
    requires Comparable(m, pos) && out != [] && Last(out).CopyFromOld()
    requires Last(out).GetLength() <= pos && Mod(Last(out).GetLength(), m.blockSize) == 0
    ensures Native(m).AfterBlock(pos, out) == RoundedUp(m.AfterBlock(pos, out), m.blockSize)
    decreases m.size - pos, 2
  {
    var target := Last(out).fileOffset + Last(out).GetLength();
    var found := m.look(pos, Some(target));
    if found.None? {
      NativeAdvance(m, pos, out + [NewCommand(pos, false)]);
    } else if found.value == target {
      NativeExtend(m, pos, out);
    } else {
      NativeMatch(m, pos, found.value, out);
    }
  }

  lemma {:induction false} NativeMatch(m: Matching, pos: nat, o: nat, out: seq<RsyncCommand>)
    requires Comparable(m, pos)
    ensures Native(m).Match(pos, o, out) == RoundedUp(m.Match(pos, o, out), m.blockSize)
    decreases m.size - pos, 1
  {
    NativeExtend(m, pos, out + [NewCommand(o, true)]);
  }

  lemma {:induction false} NativeAdvance(m: Matching, pos: nat, out: seq<RsyncCommand>)
    requires Comparable(m, pos) && out != [] && !Last(out).CopyFromOld() && Last(out).GetLength() <= pos
    ensures Native(m).Advance(pos, out) == RoundedUp(m.Advance(pos, out), m.blockSize)
    decreases m.size - pos, 0
  {
    var grown := Front(out) + [Last(out).Grow(1)];
    GrowKeepsFlag(Last(out), 1);
    if pos + 1 < m.size {
      var found := m.look(pos + 1, None);
      if found.None? {
        NativeAdvance(m, pos + 1, grown);
      } else {
        NativeMatch(m, pos + 1, found.value, grown);
      }
    }
  }

  /** No window shorter than a block is ever found. */
  ghost predicate NoShortMatch(m: Matching) {
    && m.Valid() && !m.nativeIncrement
    && forall pos: nat, target: Option<nat> | pos < m.size && m.WindowSize(pos) < m.blockSize ::
         m.look(pos, target) == None
  }

  lemma {:induction false} SameExtend(m: Matching, pos: nat, out: seq<RsyncCommand>)
    requires NoShortMatch(m) && pos < m.size && m.WindowSize(pos) == m.blockSize && out != []
    ensures Native(m).Extend(pos, out) == m.Extend(pos, out)
    decreases m.size - pos, 0
  {
    hide RsyncCommand.Grow;
    ExtendTurn(m, pos, out);
    ExtendTurn(Native(m), pos, out);
    var next := pos + m.blockSize;
    var grown := Front(out) + [Last(out).Grow(m.blockSize)];
    if next < m.size {
      var target := Last(grown).fileOffset + Last(grown).GetLength();
      var found := m.look(next, Some(target));
      if found.None? {
        SameAdvance(m, next, grown + [NewCommand(next, false)]);
      } else if found.value == target {
        SameExtend(m, next, grown);
      } else {
        SameExtend(m, next, grown + [NewCommand(found.value, true)]);
      }
    }
  }

  lemma {:induction false} SameAdvance(m: Matching, pos: nat, out: seq<RsyncCommand>)
    requires NoShortMatch(m) && pos < m.size && out != []
    ensures Native(m).Advance(pos, out) == m.Advance(pos, out)
    decreases m.size - pos, 0
  {
    hide RsyncCommand.Grow;
    AdvanceTurn(m, pos, out);
    AdvanceTurn(Native(m), pos, out);
    var grown := Front(out) + [Last(out).Grow(1)];
    if pos + 1 < m.size {
      var found := m.look(pos + 1, None);
      if found.None? {
        SameAdvance(m, pos + 1, grown);
      } else {
        SameExtend(m, pos + 1, grown + [NewCommand(found.value, true)]);
      }
    }
  }

  /** Then the two copies emit the same commands. */
  lemma SameWithoutShortMatch(m: Matching)
    requires NoShortMatch(m)
    ensures Native(m).Compare() == m.Compare()
  {
    if m.size > 0 {
      var found := m.look(0, None);
      if found.None? {
        SameAdvance(m, 0, [] + [NewCommand(0, false)]);
      } else {
        SameExtend(m, 0, [] + [NewCommand(found.value, true)]);
      }
    }
  }

  /** The native copy emits the same commands, with a copy-old command at the end rounded up to whole blocks. */
  lemma NativeRoundsUp(m: Matching)
    requires m.Valid() && !m.nativeIncrement && m.size + m.blockSize < TWO_TO_63
    ensures Native(m).Compare() == RoundedUp(m.Compare(), m.blockSize)
  {
    if m.size > 0 {
      var found := m.look(0, None);
      if found.None? {
        NativeAdvance(m, 0, [NewCommand(0, false)]);
        assert [] + [NewCommand(0, false)] == [NewCommand(0, false)];
      } else {
        NativeMatch(m, 0, found.value, []);
      }
    }
  }

  /** The native commands cover the new file exactly when the run does not end in a match on a short window:
      when it ends in a copy-new command, or in a copy-old command of whole blocks. */
  lemma NativeCoversIff(m: Matching, oldFile: Bytes, newFile: Bytes)
    requires Sound(m, oldFile, newFile) && !m.nativeIncrement && m.size + m.blockSize < TWO_TO_63
    ensures Covers(oldFile, newFile, m.size, Native(m).Compare()) <==>
      m.Compare() == [] || !Last(m.Compare()).CopyFromOld() || Mod(Last(m.Compare()).GetLength(), m.blockSize) == 0
    ensures m.size > 0 ==> m.Compare() != []
  {
    CompareCompletes(m, oldFile, newFile);
    NativeRoundsUp(m);
    var commands := m.Compare();
    if m.size > 0 && Last(commands).CopyFromOld() {
      var last := Last(commands);
      var n := Overshoot(last.GetLength(), m.blockSize);
      assert last.GetLength() <= m.size;
      GrowKeepsFlag(last, n);
      SnocCommand(Front(commands), last.Grow(n));
      if n == 0 {
        assert last.Grow(0) == last;
        assert Front(commands) + [last] == commands;
      }
    }
  }
}
