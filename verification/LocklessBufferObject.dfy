/** The double buffer as the program has it: two byte arrays and a state word changed in place. Each atomic
    operation is one method that takes exactly one step of the transition system, so that any interleaving
    of the two threads is an interleaving of these calls; Write and Read are the two threads' code run
    without interference. */
module LocklessBufferObject {
  import opened LocklessBuffer

  class Buffer {
    const size: nat
    const buffer0: array<byte>
    const buffer1: array<byte>
    var state: bv8
    /** The transition-system state this object is in: program counters and history included. It is always a
        reachable one, so everything proved of reachable states holds of the object. */
    ghost var system: System

    ghost predicate Valid()
      reads this, buffer0, buffer1
    {
      && buffer0 != buffer1 && buffer0.Length == buffer1.Length == size == system.size
      && system.word == state && system.buffers == [buffer0[..], buffer1[..]]
      && Reachable(system) && Inv(system)
    }

    constructor (size: nat)
      ensures Valid() && this.size == size && system == Initial(size)
      ensures state == 0 && buffer0[..] == buffer1[..] == seq(size, _ => 0)
      ensures fresh(buffer0) && fresh(buffer1)
    {
      this.size := size;
      buffer0 := new byte[size](_ => 0);
      buffer1 := new byte[size](_ => 0);
      state := R0W1;
      system := Initial(size);
      new;
      InitialInv(size);
      InitialReachable(size);
      assert buffer0[..] == seq(size, _ => 0) && buffer1[..] == seq(size, _ => 0);
    }

    /** The first atomic operation of Write. */
    method FetchAndOr(ghost src: seq<byte>) returns (currentState: bv8)
      requires Valid() && system.writer.Idle? && |src| <= size
      modifies this
      ensures Valid() && StartWrite(old(system), src, system)
      ensures currentState == old(state) && state == old(state) | 2
    {
      hide Reachable;
      ghost var next := system.(word := state | WRITING, writer := Copying(state, src, {}));
      StartWriteKeeps(system, src, next);
      StartWriteReachable(system, src, next);
      currentState := state;
      state := state | WRITING;
      system := next;
    }

    /** One byte of the copy, at any position not copied yet. */
    method CopyOne(src: seq<byte>, index: nat, i: nat)
      requires Valid() && system.writer.Copying? && system.writer.src == src
        && index == WriteIndex(system.writer.fetched)
      requires i < |src| && i !in system.writer.done
      modifies this, buffer0, buffer1
      ensures Valid() && CopyByte(old(system), i, system) && state == old(state)
    {
      hide Reachable;
      ghost var next := system.(
        buffers := system.buffers[index := system.buffers[index][i := src[i]]],
        writer := system.writer.(done := system.writer.done + {i}));
      CopyByteKeeps(system, i, next);
      CopyByteReachable(system, i, next);
      if index == 0 {
        buffer0[i] := src[i];
      } else {
        buffer1[i] := src[i];
      }
      system := next;
    }

    /** The closing compare-and-swap of Write; it reports the word it found. */
    method CompareAndSwapWriting(currentState: bv8, index: nat) returns (checkState: bv8)
      requires Valid() && system.writer.Copying? && currentState == system.writer.fetched
        && index == WriteIndex(currentState)
      requires forall i :: 0 <= i < |system.writer.src| ==> i in system.writer.done
      modifies this
      ensures Valid() && EndWrite(old(system), system)
      ensures checkState == currentState | WRITING && IsWriting(checkState) && state == IndexWord(index) | UPDATED
    {
      hide Reachable;
      ghost var next := system.(
        word := if system.word == currentState | WRITING then IndexWord(index) | UPDATED else system.word,
        writer := Idle, completed := system.completed + [Record(index, system.writer.src)]);
      EndWriteKeeps(system, next);
      StepReachable(system, next);
      WordFacts(currentState);
      checkState := state;
      if state == currentState | WRITING {
        state := IndexWord(index) | UPDATED;
      }
      system := next;
    }

    /** The load of Read; without UPDATED it already names the buffer to return. */
    method Load() returns (currentState: bv8)
      requires Valid() && system.reader.Resting?
      modifies this`system
      ensures Valid() && BeginRead(old(system), system) && currentState == state
    {
      hide Reachable;
      currentState := state;
      BeginReadKeeps(system, AfterLoad(system));
      StepReachable(system, AfterLoad(system));
      system := AfterLoad(system);
    }

    /** The compare-and-swap of Read, and the buffer Read then returns. */
    method Swap(currentWriteBuf: nat) returns (b: nat)
      requires Valid() && system.reader.Loaded? && currentWriteBuf == WriteIndex(system.reader.fetched)
      modifies this
      ensures Valid() && EndRead(old(system), system) && b == system.held
    {
      hide Reachable;
      ghost var next := if SwapSucceeds(system)
                        then Returned(system.(word := IndexWord(Other(currentWriteBuf))), currentWriteBuf)
                        else Returned(system, Other(currentWriteBuf));
      EndReadKeeps(system, next);
      StepReachable(system, next);
      if state == IndexWord(currentWriteBuf) | UPDATED {
        state := IndexWord(Other(currentWriteBuf));
        b := currentWriteBuf;
      } else {
        b := Other(currentWriteBuf);
      }
      system := next;
    }

    /** The buffer the low bit of a word names. */
    ghost function Named(word: bv8): seq<byte>
      reads buffer0, buffer1
    {
      if word & 1 == 1 then buffer1[..] else buffer0[..]
    }

    ghost function Bytes(b: nat): seq<byte>
      reads buffer0, buffer1
    {
      if b == 0 then buffer0[..] else buffer1[..]
    }

    /** Write, run without interference: the bytes replace a prefix of the buffer named by the low bit, the
        other buffer is untouched, and the word says which buffer has news. A source longer than the buffer
        is refused before anything changes. */
    method Write(src: seq<byte>) returns (ok: bool)
      requires Valid() && system.writer.Idle?
      modifies this, buffer0, buffer1
      ensures Valid() && system.writer.Idle? && system.reader == old(system.reader) && system.shown == old(system.shown)
      ensures ok <==> |src| <= size
      ensures !ok ==> system == old(system) && state == old(state)
      ensures ok ==>
        var b := WriteIndex(old(state));
        && state == IndexWord(b) | UPDATED
        && Bytes(b) == src + old(Bytes(b))[|src|..] && Bytes(Other(b)) == old(Bytes(Other(b)))
        && system.completed == old(system.completed) + [Record(b, src)]
      ensures ok ==> state == (old(state) & 1) | 4
      ensures ok ==> Named(old(state)) == src + old(Named(state))[|src|..]
      ensures ok ==> Named(old(state) ^ 1) == old(Named(state ^ 1))
    {
      hide Data, Freshness, Stamp, Reachable, Next;
      if |src| > size {
        return false;
      }
      WordFacts(state);
      WordBits(state);
      IdleBytes(system, 0);
      IdleBytes(system, 1);
      var currentState := FetchAndOr(src);
      var index := WriteIndex(currentState);
      var i: nat := 0;
      while i < |src|
        invariant i <= |src| && Valid()
        invariant system.writer.Copying? && system.writer.fetched == currentState && system.writer.src == src
        invariant forall j: nat :: j in system.writer.done <==> j < i
        invariant system.reader == old(system.reader) && system.shown == old(system.shown)
        invariant system.completed == old(system.completed)
      {
        CopyOne(src, index, i);
        i := i + 1;
      }
      var checkState := CompareAndSwapWriting(currentState, index);
      assert system.completed[..|old(system.completed)|] == old(system.completed);
      IdleBytes(system, 0);
      IdleBytes(system, 1);
      ok := true;
    }

    /** Read, run without interference: the returned buffer is swapped in exactly if UPDATED was set and
        WRITING clear. */
    method Read() returns (b: nat)
      requires Valid() && system.reader.Resting?
      modifies this
      ensures Valid() && system.reader.Resting? && system.writer == old(system.writer)
      ensures b == system.held == Other(WriteIndex(state))
      ensures Bytes(0) == old(Bytes(0)) && Bytes(1) == old(Bytes(1))
      ensures IsUpdated(old(state)) && !IsWriting(old(state)) ==>
        b == WriteIndex(old(state)) && state == IndexWord(Other(b))
      ensures !IsUpdated(old(state)) || IsWriting(old(state)) ==>
        b == Other(WriteIndex(old(state))) && state == old(state)
      ensures old(system.writer.Idle?) ==> UndisturbedRead(old(system), system)
      ensures old(state) & 4 != 0 && old(state) & 2 == 0 ==>
        Bytes(b) == Named(old(state)) && state == (old(state) & 1) ^ 1
      ensures old(state) & 4 == 0 || old(state) & 2 != 0 ==> Bytes(b) == Named(old(state) ^ 1) && state == old(state)
    {
      hide Reachable;
      WordBits(state);
      WordFacts(state);
      var currentState := Load();
      var currentWriteBuf := WriteIndex(currentState);
      if currentState & UPDATED != 0 {
        b := Swap(currentWriteBuf);
        return;
      }
      b := Other(currentWriteBuf);
    }
  }
  /** The words of the program, bit by bit: 1 names a buffer, 2 says that it is being written, 4 that it has news. */
  lemma WordBits(w: bv8)
    requires w <= 7
    ensures WriteIndex(w) == (if w & 1 == 1 then 1 else 0) && WriteIndex(w ^ 1) == Other(WriteIndex(w))
    ensures IndexWord(WriteIndex(w)) == w & 1 && IndexWord(Other(WriteIndex(w))) == (w & 1) ^ 1
    ensures IndexWord(WriteIndex(w)) | UPDATED == (w & 1) | 4
    ensures (IsWriting(w) <==> w & 2 != 0) && (IsUpdated(w) <==> w & 4 != 0)
    ensures (w ^ 1) & 1 == (w & 1) ^ 1
  {
  }
}
