/** The double buffer shared by one writing and one reading thread, as a transition system: every atomic
    operation on the state word is one step, every byte of the copy is one step (in any order), and the
    reader's load and compare-and-swap are separate steps. Steps interleave arbitrarily. */
module LocklessBuffer {

  type byte = bv8

  // The bits of `BufferState`.
  const R0W1: bv8 := 0
  const R1W0: bv8 := 1
  const WRITING: bv8 := 2
  const UPDATED: bv8 := 4

  /** The low bit of the word is the index of the buffer being written. */
  function WriteIndex(word: bv8): (i: nat)
    ensures i < 2
  {
    if word & 1 == R1W0 then 1 else 0
  }

  function IndexWord(i: nat): bv8 {
    if i == 1 then R1W0 else R0W1
  }

  function Other(i: nat): nat {
    if i == 1 then 0 else 1
  }

  predicate IsWriting(word: bv8) {
    word & WRITING != 0
  }

  predicate IsUpdated(word: bv8) {
    word & UPDATED != 0
  }

  /** Where the writing thread is: between two calls of Write, or between its two atomic operations, with
      the word it fetched, the source, and the byte positions copied so far. */
  datatype Writer = Idle | Copying(fetched: bv8, src: seq<byte>, done: set<nat>)

  /** Where the reading thread is: between two calls of Read, or between its load and its compare-and-swap. */
  datatype Reader = Resting | Loaded(fetched: bv8)

  /** A finished Write: the buffer it filled and the bytes it copied. */
  datatype Record = Record(index: nat, src: seq<byte>)

  /** Shared memory, the two threads, the buffer the last Read returned (before the first Read, the one a
      Read would return), and two history variables: the finished Writes, and for each finished Read the
      number of the Write its buffer shows. */
  datatype System = System(
    size: nat,
    word: bv8,
    buffers: seq<seq<byte>>,
    writer: Writer,
    reader: Reader,
    held: nat,
    completed: seq<Record>,
    shown: seq<nat>)

  // ----- History -----

  /** The number of the last finished Write into buffer `b`, 0 if there is none. */
  function Stamp(completed: seq<Record>, b: nat): (n: nat)
    ensures n <= |completed|
  {
    if completed == [] then 0
    else if completed[|completed| - 1].index == b then |completed|
    else Stamp(completed[..|completed| - 1], b)
  }

  /** What buffer `b` contains once all finished Writes, and nothing else, have taken effect on the zeros. */
  function Replay(size: nat, completed: seq<Record>, b: nat): (bytes: seq<byte>)
    ensures |bytes| == size
  {
    if completed == [] then seq(size, _ => 0)
    else
      var w := completed[|completed| - 1];
      var before := Replay(size, completed[..|completed| - 1], b);
      if w.index == b && |w.src| <= size then w.src + before[|w.src|..] else before
  }

  // ----- Steps -----

  function Initial(size: nat): System {
    System(size, R0W1, [seq(size, _ => 0), seq(size, _ => 0)], Idle, Resting, Other(WriteIndex(R0W1)), [], [])
  }

  /** `__sync_fetch_and_or(&mState, WRITING)`, after the check of the size. */
  predicate StartWrite(s: System, src: seq<byte>, t: System) {
    && s.writer.Idle? && |src| <= s.size
    && t == s.(word := s.word | WRITING, writer := Copying(s.word, src, {}))
  }

  /** One byte of the `memcpy`. */
  predicate CopyByte(s: System, i: nat, t: System) {
    && s.writer.Copying? && i < |s.writer.src| && i !in s.writer.done
    && |s.buffers| == 2 && i < |s.buffers[WriteIndex(s.writer.fetched)]|
    && var b := WriteIndex(s.writer.fetched);
       t == s.(buffers := s.buffers[b := s.buffers[b][i := s.writer.src[i]]],
               writer := s.writer.(done := s.writer.done + {i}))
  }

  /** The closing compare-and-swap of Write. */
  ghost predicate EndWrite(s: System, t: System) {
    && s.writer.Copying? && (forall i :: 0 <= i < |s.writer.src| ==> i in s.writer.done)
    && var b := WriteIndex(s.writer.fetched);
       t == s.(word := if s.word == s.writer.fetched | WRITING then IndexWord(b) | UPDATED else s.word,
               writer := Idle,
               completed := s.completed + [Record(b, s.writer.src)])
  }

  /** Read gives back buffer `b`. */
  function Returned(s: System, b: nat): System {
    s.(reader := Resting, held := b, shown := s.shown + [Stamp(s.completed, b)])
  }

  function AfterLoad(s: System): System {
    if IsUpdated(s.word) then s.(reader := Loaded(s.word)) else Returned(s, Other(WriteIndex(s.word)))
  }

  /** The load of Read; without UPDATED it already returns. */
  predicate BeginRead(s: System, t: System) {
    && s.reader.Resting?
    && t == AfterLoad(s)
  }

  /** The compare-and-swap of Read succeeds. */
  predicate SwapSucceeds(s: System) {
    s.reader.Loaded? && s.word == IndexWord(WriteIndex(s.reader.fetched)) | UPDATED
  }

  /** The compare-and-swap of Read and its return. */
  predicate EndRead(s: System, t: System) {
    && s.reader.Loaded?
    && var b := WriteIndex(s.reader.fetched);
       t == if SwapSucceeds(s) then Returned(s.(word := IndexWord(Other(b))), b) else Returned(s, Other(b))
  }

  ghost predicate Next(s: System, t: System) {
    || (exists src :: StartWrite(s, src, t))
    || (exists i :: CopyByte(s, i, t))
    || EndWrite(s, t)
    || BeginRead(s, t)
    || EndRead(s, t)
  }

  /** A run: consecutive states are related by steps of either thread. */
  ghost predicate Trace(run: seq<System>) {
    forall i :: 0 < i < |run| ==> StepAt(run, i)
  }

  ghost predicate StepAt(run: seq<System>, i: nat)
    requires 0 < i < |run|
  {
    Next(run[i - 1], run[i])
  }

  ghost predicate Reachable(s: System) {
    exists run :: Trace(run) && run != [] && run[0] == Initial(s.size) && run[|run| - 1] == s
  }

  // ----- The invariant -----

  /** The buffer the writing thread is filling, if it is between its two atomic operations. */
  predicate BeingWritten(s: System, b: nat) {
    s.writer.Copying? && WriteIndex(s.writer.fetched) == b
  }

  ghost predicate Control(s: System) {
    && (IsWriting(s.word) <==> s.writer.Copying?)
    && s.word <= 7
    && (s.writer.Copying? ==> !IsWriting(s.writer.fetched))
    && (s.writer.Copying? ==> s.word == s.writer.fetched | WRITING && |s.writer.src| <= s.size)
    && (s.reader.Loaded? ==> IsUpdated(s.reader.fetched) && IsUpdated(s.word))
    && (s.reader.Loaded? ==> WriteIndex(s.reader.fetched) == WriteIndex(s.word))
    && s.held == Other(WriteIndex(s.word))
  }

  /** Each buffer is the replay of the finished Writes, except for the bytes the Write in progress has copied. */
  ghost predicate Data(s: System) {
    && |s.buffers| == 2
    && (forall k :: 0 <= k < |s.completed| ==> s.completed[k].index < 2 && |s.completed[k].src| <= s.size)
    && forall b :: 0 <= b < 2 ==>
      && |s.buffers[b]| == s.size
      && forall j :: 0 <= j < s.size ==>
        s.buffers[b][j] ==
          if BeingWritten(s, b) && j in s.writer.done && j < |s.writer.src| then s.writer.src[j]
          else Replay(s.size, s.completed, b)[j]
  }

  /** Which buffer shows the latest finished Write, and what Reads have shown. */
  ghost predicate Freshness(s: System) {
    var latest := if IsUpdated(s.word) then WriteIndex(s.word) else Other(WriteIndex(s.word));
    && Stamp(s.completed, latest) == |s.completed|
    && (forall i, j :: 0 <= i < j < |s.shown| ==> s.shown[i] <= s.shown[j])
    && (forall i :: 0 <= i < |s.shown| ==> s.shown[i] <= Stamp(s.completed, s.held))
  }

  ghost predicate Inv(s: System) {
    Control(s) && Data(s) && Freshness(s)
  }

  // ----- Bit facts -----

  lemma WordFacts(w: bv8)
    requires w <= 7
    ensures WriteIndex(w | WRITING) == WriteIndex(w) && IsWriting(w | WRITING)
    ensures (IsUpdated(w | WRITING) <==> IsUpdated(w)) && w | WRITING <= 7
    ensures var b := WriteIndex(w);
      && WriteIndex(IndexWord(b) | UPDATED) == b && IsUpdated(IndexWord(b) | UPDATED)
        && !IsWriting(IndexWord(b) | UPDATED)
      && WriteIndex(IndexWord(b)) == b && !IsUpdated(IndexWord(b)) && !IsWriting(IndexWord(b))
      && IndexWord(b) | UPDATED <= 7 && IndexWord(b) <= 7
      && WriteIndex(IndexWord(Other(b))) == Other(b) && !IsUpdated(IndexWord(Other(b)))
        && !IsWriting(IndexWord(Other(b)))
  {
  }

  lemma InitialInv(size: nat)
    ensures Inv(Initial(size))
  {
  }

  lemma StartWriteKeeps(s: System, src: seq<byte>, t: System)
    requires Inv(s) && StartWrite(s, src, t)
    ensures Inv(t)
  {
  }

  lemma CopyByteKeeps(s: System, i: nat, t: System)
    requires Inv(s) && CopyByte(s, i, t)
    ensures Inv(t)
    ensures t.held == s.held && t.buffers[t.held] == s.buffers[s.held]
  {
    WordFacts(s.writer.fetched);
  }

  lemma EndWriteKeeps(s: System, t: System)
    requires Inv(s) && EndWrite(s, t)
    ensures Inv(t)
    ensures s.word == s.writer.fetched | WRITING
  {
    WordFacts(s.writer.fetched);
    assert t.completed[..|s.completed|] == s.completed;
    forall b, j | 0 <= b < 2 && 0 <= j < t.size
      ensures t.buffers[b][j] == Replay(t.size, t.completed, b)[j]
    {
    }
  }

  lemma BeginReadKeeps(s: System, t: System)
    requires Inv(s) && BeginRead(s, t)
    ensures Inv(t)
  {
    WordFacts(s.word);
  }

  lemma EndReadKeeps(s: System, t: System)
    requires Inv(s) && EndRead(s, t)
    ensures Inv(t)
  {
    WordFacts(s.word);
  }

  lemma {:induction false} NextKeeps(s: System, t: System)
    requires Inv(s) && Next(s, t)
    ensures Inv(t) && t.size == s.size
  {
    if src :| StartWrite(s, src, t) {
      StartWriteKeeps(s, src, t);
    } else if i :| CopyByte(s, i, t) {
      CopyByteKeeps(s, i, t);
    } else if EndWrite(s, t) {
      EndWriteKeeps(s, t);
    } else if BeginRead(s, t) {
      BeginReadKeeps(s, t);
    } else {
      EndReadKeeps(s, t);
    }
  }

  lemma {:induction false} RunKeeps(run: seq<System>, i: nat)
    requires Trace(run) && i < |run| && run[0] == Initial(run[0].size)
    ensures Inv(run[i]) && run[i].size == run[0].size
  {
    if i == 0 {
      InitialInv(run[0].size);
    } else {
      RunKeeps(run, i - 1);
      assert StepAt(run, i);
      NextKeeps(run[i - 1], run[i]);
    }
  }

  lemma ReachableInv(s: System)
    requires Reachable(s)
    ensures Inv(s)
  {
    var run :| Trace(run) && run != [] && run[0] == Initial(s.size) && run[|run| - 1] == s;
    RunKeeps(run, |run| - 1);
  }

  lemma InitialReachable(size: nat)
    ensures Reachable(Initial(size))
  {
    var run := [Initial(size)];
    assert Trace(run) && run[|run| - 1] == Initial(size);
  }

  lemma StepReachable(s: System, t: System)
    requires Reachable(s) && Next(s, t)
    ensures Reachable(t)
  {
    hide Inv, Next, Initial;
    ReachableInv(s);
    NextKeeps(s, t);
    var run :| Trace(run) && run != [] && run[0] == Initial(s.size) && run[|run| - 1] == s;
    var longer := run + [t];
    forall i | 0 < i < |longer| ensures StepAt(longer, i) {
      assert i < |run| ==> StepAt(run, i);
    }
    assert Trace(longer) && longer[0] == Initial(t.size) && longer[|longer| - 1] == t;
  }

  lemma StartWriteReachable(s: System, src: seq<byte>, t: System)
    requires Reachable(s) && StartWrite(s, src, t)
    ensures Reachable(t)
  {
    hide Reachable, EndWrite, BeginRead, EndRead;
    StepReachable(s, t);
  }

  lemma CopyByteReachable(s: System, i: nat, t: System)
    requires Reachable(s) && CopyByte(s, i, t)
    ensures Reachable(t)
  {
    hide Reachable, EndWrite, BeginRead, EndRead;
    StepReachable(s, t);
  }

  // ----- Safety over every interleaving -----

  /** In every reachable state the buffer the reader was given is not the one being written, its index is
      the complement of the low bit of the word, and its bytes are those of finished Writes only. */
  lemma ReaderNeverSharesTheBuffer(s: System)
    requires Reachable(s)
    ensures !BeingWritten(s, s.held)
    ensures s.held == Other(WriteIndex(s.word))
    ensures |s.buffers| == 2 && s.held < 2 && s.buffers[s.held] == Replay(s.size, s.completed, s.held)
  {
    ReachableInv(s);
    if s.writer.Copying? {
      WordFacts(s.writer.fetched);
    }
  }

  /** Whatever step either thread takes, the bytes the reader was given stay as they are until a Read returns. */
  lemma HeldBytesAreStable(s: System, t: System)
    requires Reachable(s) && Next(s, t)
    ensures |s.buffers| == |t.buffers| == 2 && s.held < 2 && t.held < 2
    ensures |t.shown| == |s.shown| ==> t.held == s.held && t.buffers[t.held] == s.buffers[s.held]
  {
    ReachableInv(s);
    NextKeeps(s, t);
    if i :| CopyByte(s, i, t) {
      CopyByteKeeps(s, i, t);
    }
  }

  /** The closing compare-and-swap of Write never fails, WRITING is set exactly while the writer is between
      its two atomic operations, and the buffer bit is flipped only by a Read whose swap finds UPDATED set
      and WRITING clear. */
  lemma WordDiscipline(s: System, t: System)
    requires Reachable(s) && Next(s, t)
    ensures IsWriting(s.word) <==> s.writer.Copying?
    ensures EndWrite(s, t) ==> s.word == s.writer.fetched | WRITING && IsUpdated(t.word) && !IsWriting(t.word)
    ensures WriteIndex(t.word) != WriteIndex(s.word) ==>
      EndRead(s, t) && SwapSucceeds(s) && IsUpdated(s.word) && !IsWriting(s.word)
  {
    ReachableInv(s);
    NextKeeps(s, t);
    WordFacts(s.word);
    if s.writer.Copying? {
      WordFacts(s.writer.fetched);
    }
  }

  // ----- What Reads see -----

  /** A stamp names the Write whose bytes the buffer starts with; nothing finished later touches the buffer. */
  lemma {:induction false} StampNamesTheBytes(size: nat, completed: seq<Record>, b: nat)
    requires forall k :: 0 <= k < |completed| ==> |completed[k].src| <= size
    ensures var n := Stamp(completed, b);
      && Replay(size, completed, b) == Replay(size, completed[..n], b)
      && (n == 0 ==> Replay(size, completed, b) == seq(size, _ => 0))
      && (n > 0 ==>
          completed[n - 1].index == b && Replay(size, completed, b)[..|completed[n - 1].src|] == completed[n - 1].src)
  {
    if completed != [] {
      var m := |completed| - 1;
      if completed[m].index == b {
        assert completed[..|completed|] == completed;
      } else {
        var rest := completed[..m];
        StampNamesTheBytes(size, rest, b);
        assert rest[..Stamp(rest, b)] == completed[..Stamp(rest, b)];
      }
    }
  }

  /** Reads are never torn: at every moment the reader's buffer is exactly what the first `n` finished
      Writes leave in it, it starts with all the bytes of the n-th, and `n` is the number of the last
      finished Write into that buffer (all zeros when there is none). */
  lemma ReadsAreUntorn(s: System)
    requires Reachable(s)
    ensures |s.buffers| == 2 && s.held < 2 && |s.buffers[s.held]| == s.size
    ensures var n := Stamp(s.completed, s.held);
      && s.buffers[s.held] == Replay(s.size, s.completed[..n], s.held)
      && (n == 0 ==> s.buffers[s.held] == seq(s.size, _ => 0))
      && (n > 0 ==>
            var src := s.completed[n - 1].src; |src| <= s.size && s.buffers[s.held][..|src|] == src)
  {
    ReachableInv(s);
    ReaderNeverSharesTheBuffer(s);
    StampNamesTheBytes(s.size, s.completed, s.held);
  }

  lemma StepShows(s: System, t: System)
    requires Next(s, t)
    ensures s.shown <= t.shown
  {
  }

  lemma {:induction false} ShownGrows(run: seq<System>, i: nat, j: nat)
    requires Trace(run) && i <= j < |run|
    ensures run[i].shown <= run[j].shown
  {
    if i < j {
      ShownGrows(run, i, j - 1);
      assert StepAt(run, j);
      StepShows(run[j - 1], run[j]);
    }
  }

  /** Reads never go backwards: along every run, each later Read shows the same Write or a later one. */
  lemma ReadsNeverGoBack(run: seq<System>, i: nat, j: nat, a: nat, b: nat)
    requires Trace(run) && i <= j < |run| && run[0] == Initial(run[0].size)
    requires a < |run[i].shown| && a <= b < |run[j].shown|
    ensures run[j].shown[a] == run[i].shown[a] <= run[j].shown[b]
  {
    ShownGrows(run, i, j);
    RunKeeps(run, j);
  }

  /** A Read that overlaps no Write: both its steps in a row, with the writer idle. */
  ghost predicate UndisturbedRead(s: System, t: System) {
    var m := AfterLoad(s);
    s.reader.Resting? && s.writer.Idle? && BeginRead(s, m) && if m.reader.Loaded? then EndRead(m, t) else t == m
  }

  /** A Read that overlaps no Write shows the latest finished Write: the buffer it returns starts with all
      the bytes of that Write (and is all zeros if nothing has been written). */
  lemma UndisturbedReadSeesLatest(s: System, t: System)
    requires Reachable(s) && UndisturbedRead(s, t)
    ensures t.completed == s.completed && |t.shown| == |s.shown| + 1 && t.shown[|t.shown| - 1] == |t.completed|
    ensures |t.buffers| == 2 && t.held < 2 && |t.buffers[t.held]| == t.size
    ensures t.completed == [] ==> t.buffers[t.held] == seq(t.size, _ => 0)
    ensures t.completed != [] ==>
      var last := t.completed[|t.completed| - 1];
      t.held == last.index && |last.src| <= t.size && t.buffers[t.held][..|last.src|] == last.src
  {
    hide UndisturbedRead, Reachable, Inv;
    UndisturbedReadIsFresh(s, t);
    StampNamesTheBytes(t.size, t.completed, t.held);
  }

  lemma UndisturbedReadIsFresh(s: System, t: System)
    requires Reachable(s) && UndisturbedRead(s, t)
    ensures Inv(t) && t.completed == s.completed && t.writer.Idle?
    ensures t.shown == s.shown + [|t.completed|] && Stamp(t.completed, t.held) == |t.completed|
    ensures |t.buffers| == 2 && t.held < 2 && t.buffers[t.held] == Replay(t.size, t.completed, t.held)
    ensures forall k :: 0 <= k < |t.completed| ==> |t.completed[k].src| <= t.size
  {
    ReachableInv(s);
    var m := AfterLoad(s);
    BeginReadKeeps(s, m);
    if m.reader.Loaded? {
      IdleSwapSucceeds(m);
      EndReadKeeps(m, t);
    }
    IdleBytes(t, t.held);
  }

  lemma IdleBytes(s: System, b: nat)
    requires Inv(s) && b < 2 && !BeingWritten(s, b)
    ensures s.buffers[b] == Replay(s.size, s.completed, b)
  {
  }

  lemma IdleSwapSucceeds(m: System)
    requires Inv(m) && m.reader.Loaded? && m.writer.Idle?
    ensures SwapSucceeds(m)
  {
  }
}
