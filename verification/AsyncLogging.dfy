/** The buffers of the double-buffering log, moved between fields; every method is one step of the protocol. */
module AsyncLogging {
  import opened LogProtocol

  /** A buffer of fixed size, whose bytes are part of the object. */
  class FixedBuffer {
    const size: nat
    var data: seq<char>
    var cur: nat

    ghost predicate Valid()
      reads this
    {
      |data| == size && cur <= size
    }

    ghost function Contents(): string
      requires Valid()
      reads this
    {
      data[..cur]
    }

    constructor (size: nat)
      ensures Valid() && Contents() == "" && this.size == size
    {
      this.size := size;
      data := seq(size, _ => '\0');
      cur := 0;
    }

    function Avail(): nat
      requires Valid()
      reads this
    {
      size - cur
    }

    /** A text that does not fit is left out. */
    method Append(buf: string)
      requires Valid()
      modifies this
      ensures Valid()
      ensures Contents() == if old(Avail()) > |buf| then old(Contents()) + buf else old(Contents())
    {
      if Avail() > |buf| {
        data := data[..cur] + buf + data[cur + |buf|..];
        cur := cur + |buf|;
      }
    }

    method Reset()
      requires Valid()
      modifies this
      ensures Valid() && Contents() == ""
    {
      cur := 0;
    }
  }

  ghost predicate Apart(bs: seq<FixedBuffer>) {
    forall i, j :: 0 <= i < j < |bs| ==> bs[i] != bs[j]
  }

  ghost predicate AllValid(bs: seq<FixedBuffer>, size: nat)
    reads bs
  {
    forall i :: 0 <= i < |bs| ==> bs[i].Valid() && bs[i].size == size
  }

  ghost function Texts(bs: seq<FixedBuffer>): (ts: seq<string>)
    requires forall i :: 0 <= i < |bs| ==> bs[i].Valid()
    reads bs
    ensures |ts| == |bs| && forall i :: 0 <= i < |bs| ==> ts[i] == bs[i].Contents()
  {
    if bs == [] then [] else Texts(bs[..|bs| - 1]) + [bs[|bs| - 1].Contents()]
  }

  class AsyncLogging {
    const size: nat
    var currentBuffer: FixedBuffer
    var nextBuffer: FixedBuffer?
    var buffers: seq<FixedBuffer>
    var newBuffer1: FixedBuffer?
    var newBuffer2: FixedBuffer?
    var buffersToWrite: seq<FixedBuffer>
    var running: bool
    var output: string
    var phase: Phase
    ghost var accepted: string
    ghost var parts: seq<Part>

    /** A buffer that no list holds. */
    ghost predicate Lone(b: FixedBuffer)
      reads this, b
    {
      b.Valid() && b.size == size && b !in buffers && b !in buffersToWrite
    }

    ghost predicate Spare(b: FixedBuffer?)
      reads this, b
    {
      b != null ==> Lone(b) && b.cur == 0 && b != currentBuffer
    }

    /** The fields hold different buffers, and the spare ones are empty. */
    ghost predicate Valid()
      reads this, currentBuffer, nextBuffer, newBuffer1, newBuffer2, buffers, buffersToWrite
    {
      && AllValid(buffers, size) && AllValid(buffersToWrite, size)
      && Apart(buffers) && Apart(buffersToWrite)
      && (forall b :: b in buffers ==> b !in buffersToWrite)
      && Lone(currentBuffer) && Spare(nextBuffer) && Spare(newBuffer1) && Spare(newBuffer2)
      && (nextBuffer != null ==> nextBuffer != newBuffer1 && nextBuffer != newBuffer2)
      && (newBuffer1 != null ==> newBuffer1 != newBuffer2)
    }

    ghost function Abstract(): State
      requires Valid()
      reads this, currentBuffer, nextBuffer, newBuffer1, newBuffer2, buffers, buffersToWrite
    {
      State(currentBuffer.Contents(), nextBuffer != null, Texts(buffers), running,
            phase, Texts(buffersToWrite), newBuffer1 != null, newBuffer2 != null, output, accepted, parts)
    }

    constructor (size: nat)
      ensures Valid() && this.size == size && Abstract() == Started()
    {
      this.size := size;
      var c := new FixedBuffer(size);
      var n := new FixedBuffer(size);
      var n1 := new FixedBuffer(size);
      var n2 := new FixedBuffer(size);
      currentBuffer, nextBuffer, newBuffer1, newBuffer2 := c, n, n1, n2;
      buffers, buffersToWrite := [], [];
      running, output, phase := true, "", Top;
      accepted, parts := "", [];
      new;
    }

    /** Called by any thread, under the lock. */
    method Append(logline: string)
      requires Valid()
      modifies this`currentBuffer, this`nextBuffer, this`buffers, this`accepted, currentBuffer, nextBuffer
      ensures Valid() && Abstract() == AppendStep(old(Abstract()), logline, size)
      ensures if old(currentBuffer.Avail()) > |logline| then
                currentBuffer == old(currentBuffer) && nextBuffer == old(nextBuffer) && buffers == old(buffers)
              else
                && buffers == old(buffers) + [old(currentBuffer)] && nextBuffer == null
                && if old(nextBuffer) != null then currentBuffer == old(nextBuffer) else fresh(currentBuffer)
    {
      hide Texts, Lone, Spare, Valid;
      CurrentRoom();
      if currentBuffer.Avail() > |logline| {
        AppendHere(logline);
      } else {
        Rotate();
        AppendHere(logline);
      }
    }

    lemma CurrentRoom()
      requires Valid()
      ensures currentBuffer.Valid() && currentBuffer.Avail() == size - |Abstract().current|
              && |Abstract().current| <= size
      ensures Abstract().current == currentBuffer.Contents()
    {
    }

    /** Queues the current buffer and puts the spare one, or else a new one, in its place. */
    method Rotate()
      requires Valid()
      modifies this`currentBuffer, this`nextBuffer, this`buffers
      ensures Valid() && currentBuffer.Contents() == ""
      ensures buffers == old(buffers) + [old(currentBuffer)] && nextBuffer == null
      ensures if old(nextBuffer) != null then currentBuffer == old(nextBuffer) else fresh(currentBuffer)
      ensures var s := old(Abstract());
              Abstract() == s.(queued := s.queued + [s.current], spare := false, current := "")
    {
      hide Texts;
      TextsPush(buffers, currentBuffer);
      buffers := buffers + [currentBuffer];
      if nextBuffer != null {
        currentBuffer := nextBuffer;
        nextBuffer := null;
      } else {
        currentBuffer := new FixedBuffer(size);
      }
    }

    method AppendHere(logline: string)
      requires Valid()
      modifies this`accepted, currentBuffer
      ensures Valid()
      ensures var s := old(Abstract());
              Abstract() == if size - |s.current| > |logline|
                            then s.(current := s.current + logline, accepted := s.accepted + logline)
                            else s
    {
      hide Texts;
      if currentBuffer.Avail() > |logline| {
        accepted := accepted + logline;
      }
      currentBuffer.Append(logline);
    }

    method Stop()
      requires Valid()
      modifies this`running
      ensures Valid() && Abstract() == StopStep(old(Abstract()))
    {
      running := false;
    }

    /** The test of the loop, without the lock, and the assertions after it. */
    method LoopTop()
      requires Valid() && phase.Top?
      modifies this`phase
      ensures Valid() && Abstract() == TopStep(old(Abstract()))
    {
      hide Texts;
      if !running {
        phase := Done;
      } else if newBuffer1 == null || newBuffer2 == null || buffersToWrite != [] {
        phase := Failed;
      } else {
        phase := Entered;
      }
    }

    /** Under the lock: the wait, or else the take-over. The assertions were about the thread's own variables. */
    method Lock()
      requires Valid() && phase.Entered? && newBuffer1 != null && buffersToWrite == []
      modifies this
      ensures Valid() && Abstract() == LockStep(old(Abstract()))
      ensures if old(buffers) != [] then phase.Waiting? && buffers == old(buffers) && buffersToWrite == []
              else phase.Taken? && buffers == [] && buffersToWrite == [old(currentBuffer)]
    {
      hide Texts;
      if buffers != [] {
        phase := Waiting;
      } else {
        TakeOver();
      }
    }

    /** Under the lock: takes over the queued buffers and the current one. */
    method TakeOver()
      requires Valid() && newBuffer1 != null && buffersToWrite == []
      modifies this
      ensures Valid() && Abstract() == Take(old(Abstract()))
      ensures buffersToWrite == old(buffers) + [old(currentBuffer)] && buffers == [] && phase.Taken?
      ensures currentBuffer == old(newBuffer1) && newBuffer1 == null
      ensures nextBuffer == if old(nextBuffer) != null then old(nextBuffer) else old(newBuffer2)
    {
      hide Texts, Valid, Lone, Spare;
      SwapBuffers();
      ReplaceSpare();
      Enter(Taken);
    }

    method SwapBuffers()
      requires Valid() && newBuffer1 != null && buffersToWrite == []
      modifies this`buffers, this`buffersToWrite, this`currentBuffer, this`newBuffer1
      ensures Valid()
      ensures var s := old(Abstract());
              Abstract() == s.(batch := s.queued + [s.current], queued := [], current := "", new1 := false)
      ensures buffersToWrite == old(buffers) + [old(currentBuffer)] && buffers == []
      ensures currentBuffer == old(newBuffer1) && newBuffer1 == null
    {
      hide Texts;
      TextsPush(buffers, currentBuffer);
      buffers := buffers + [currentBuffer];
      currentBuffer := newBuffer1;
      newBuffer1 := null;
      buffersToWrite, buffers := buffers, buffersToWrite;
    }

    method ReplaceSpare()
      requires Valid()
      modifies this`nextBuffer, this`newBuffer2
      ensures Valid()
      ensures var s := old(Abstract());
              Abstract() == if s.spare then s else s.(spare := s.new2, new2 := false)
      ensures nextBuffer == if old(nextBuffer) != null then old(nextBuffer) else old(newBuffer2)
    {
      hide Texts;
      if nextBuffer == null {
        nextBuffer := newBuffer2;
        newBuffer2 := null;
      }
    }

    /** Too many buffers: all but the last two are thrown away. */
    method Drop()
      requires Valid() && phase.Taken?
      modifies this
      ensures Valid() && Abstract() == DropStep(old(Abstract()))
    {
      hide Texts, Valid, Lone, Spare, Concat;
      BatchSize();
      if |buffersToWrite| > 25 {
        Erase();
      }
      Enter(Writing(0));
    }

    method Erase()
      requires Valid() && |buffersToWrite| > 25
      modifies this`buffersToWrite, this`output, this`parts
      ensures Valid()
      ensures var s := old(Abstract()); var n := |s.batch| - 2;
              Abstract() == s.(batch := s.batch[n..], written := s.written + DROP_MESSAGE,
                               parts := s.parts + [Gap(Concat(s.batch[..n]))])
    {
      hide Texts, Valid, Lone, Spare, Concat;
      BatchSize();
      var n := |buffersToWrite| - 2;
      Replace(n);
      CutFront(n);
    }

    method Replace(ghost n: nat)
      requires Valid() && n <= |buffersToWrite|
      modifies this`output, this`parts
      ensures Valid()
      ensures var s := old(Abstract());
              Abstract() == s.(written := s.written + DROP_MESSAGE, parts := s.parts + [Gap(Concat(s.batch[..n]))])
    {
      hide Texts, Concat;
      output := output + DROP_MESSAGE;
      parts := parts + [Gap(Concat(Texts(buffersToWrite)[..n]))];
    }

    method CutFront(n: nat)
      requires Valid() && n <= |buffersToWrite|
      modifies this`buffersToWrite
      ensures Valid()
      ensures var s := old(Abstract()); Abstract() == s.(batch := s.batch[n..])
    {
      hide Texts;
      TextsSlice(buffersToWrite, n);
      buffersToWrite := buffersToWrite[n..];
    }

    method WriteOne()
      requires Valid() && phase.Writing? && phase.done < |buffersToWrite|
      modifies this
      ensures Valid() && Abstract() == WriteStep(old(Abstract()))
    {
      hide Texts;
      var b := buffersToWrite[phase.done];
      output := output + b.data[..b.cur];
      parts := parts + [Text(b.Contents())];
      phase := Writing(phase.done + 1);
    }

    /** Refills the spare buffers from the first two of the batch, the last one first, and clears it. */
    method Recycle()
      requires Valid() && phase == Writing(|buffersToWrite|)
      modifies this, buffersToWrite
      ensures Valid() && Abstract() == RecycleStep(old(Abstract()))
      ensures var batch := old(buffersToWrite); var n := if |batch| > 2 then 2 else |batch|;
              phase.Top? ==>
                buffersToWrite == [] && Refilled(batch[..n], old(newBuffer1), old(newBuffer2), newBuffer1, newBuffer2)
    {
      hide Texts, Valid, Lone, Spare, Refilled;
      BatchSize();
      KeepTwo();
      var ok := Refill();
      if ok {
        Shorten(0);
        Enter(Top);
      } else {
        Enter(Failed);
      }
    }

    method KeepTwo()
      requires Valid()
      modifies this`buffersToWrite
      ensures Valid() && forall b :: b in buffersToWrite ==> b in old(buffersToWrite)
      ensures var batch := old(buffersToWrite);
              buffersToWrite == batch[..if |batch| > 2 then 2 else |batch|]
      ensures var s := old(Abstract());
              Abstract() == s.(batch := s.batch[..if |s.batch| > 2 then 2 else |s.batch|])
    {
      hide Texts, Valid, Lone, Spare;
      BatchSize();
      if |buffersToWrite| > 2 {
        Shorten(2);
      } else {
        assert buffersToWrite[..|buffersToWrite|] == buffersToWrite;
        assert Abstract().batch[..|buffersToWrite|] == Abstract().batch;
      }
    }

    /** Where a spare buffer was missing there is now one from the end of `batch`. */
    static ghost predicate Refilled(batch: seq<FixedBuffer>, was1: FixedBuffer?, was2: FixedBuffer?,
                                    now1: FixedBuffer?, now2: FixedBuffer?) {
      var n := |batch|;
      var left := if was1 != null then n else n - 1;
      && (if was1 != null then now1 == was1 else n > 0 && now1 == batch[n - 1])
      && (if was2 != null then now2 == was2 else left > 0 && now2 == batch[left - 1])
    }

    method Refill() returns (ok: bool)
      requires Valid()
      modifies this`newBuffer1, this`newBuffer2, this`buffersToWrite, buffersToWrite
      ensures Valid()
      ensures var s := old(Abstract());
              var left := if s.new1 then |s.batch| else |s.batch| - 1;
              && (ok <==> left >= 0 && (s.new2 || left > 0))
              && (ok ==>
                  Abstract() == s.(new1 := true, new2 := true, batch := s.batch[..if s.new2 then left else left - 1]))
              && (!ok ==> Abstract() == if left < 0 then s else s.(new1 := true, batch := []))
      ensures ok ==> Refilled(old(buffersToWrite), old(newBuffer1), old(newBuffer2), newBuffer1, newBuffer2)
    {
      hide Texts, Valid, Lone, Spare;
      ghost var batch := buffersToWrite;
      ok := RefillFirst();
      if ok {
        assert forall i :: 0 <= i < |buffersToWrite| ==> buffersToWrite[i] in batch;
        ok := RefillSecond();
      }
    }

    lemma BatchSize()
      requires Valid()
      ensures |Abstract().batch| == |buffersToWrite| && Abstract().phase == phase
      ensures (Abstract().new1 <==> newBuffer1 != null) && (Abstract().new2 <==> newBuffer2 != null)
    {
    }

    method Enter(p: Phase)
      requires Valid()
      modifies this`phase
      ensures Valid() && Abstract() == old(Abstract()).(phase := p)
    {
      hide Texts;
      phase := p;
    }

    method RefillFirst() returns (ok: bool)
      requires Valid()
      modifies this`newBuffer1, this`buffersToWrite, buffersToWrite
      ensures Valid() && (forall b :: b in buffersToWrite ==> b in old(buffersToWrite))
      ensures var s := old(Abstract());
              ok == (s.new1 || s.batch != []) &&
              Abstract() == if s.new1 || s.batch == [] then s else s.(new1 := true, batch := s.batch[..|s.batch| - 1])
      ensures var batch := old(buffersToWrite);
              if old(newBuffer1) != null || batch == [] then
                newBuffer1 == old(newBuffer1) && buffersToWrite == batch
              else
                newBuffer1 == batch[|batch| - 1] && buffersToWrite == batch[..|batch| - 1]
    {
      hide Texts;
      if newBuffer1 == null {
        if buffersToWrite == [] {
          return false;
        }
        newBuffer1 := TakeBack();
      }
      ok := true;
    }

    method RefillSecond() returns (ok: bool)
      requires Valid()
      modifies this`newBuffer2, this`buffersToWrite, buffersToWrite
      ensures Valid()
      ensures var s := old(Abstract());
              ok == (s.new2 || s.batch != []) &&
              Abstract() == if s.new2 || s.batch == [] then s else s.(new2 := true, batch := s.batch[..|s.batch| - 1])
      ensures var batch := old(buffersToWrite);
              if old(newBuffer2) != null || batch == [] then newBuffer2 == old(newBuffer2)
              else newBuffer2 == batch[|batch| - 1]
    {
      hide Texts;
      if newBuffer2 == null {
        if buffersToWrite == [] {
          return false;
        }
        newBuffer2 := TakeBack();
      }
      ok := true;
    }

    /** Keeps the first buffers of the batch. */
    method Shorten(n: nat)
      requires Valid() && n <= |buffersToWrite|
      modifies this`buffersToWrite
      ensures Valid() && buffersToWrite == old(buffersToWrite)[..n]
      ensures forall b :: b in buffersToWrite ==> b in old(buffersToWrite)
      ensures var s := old(Abstract()); Abstract() == s.(batch := s.batch[..n])
    {
      hide Texts;
      TextsPrefix(buffersToWrite, n);
      buffersToWrite := buffersToWrite[..n];
    }

    /** The last buffer of the batch, emptied. */
    method TakeBack() returns (b: FixedBuffer)
      requires Valid() && buffersToWrite != []
      modifies this`buffersToWrite, buffersToWrite[|buffersToWrite| - 1]
      ensures Valid() && b == old(buffersToWrite)[|old(buffersToWrite)| - 1] && Lone(b) && b.cur == 0
      ensures b != currentBuffer && b != nextBuffer && b != newBuffer1 && b != newBuffer2
      ensures buffersToWrite == old(buffersToWrite)[..|old(buffersToWrite)| - 1]
      ensures var s := old(Abstract()); Abstract() == s.(batch := s.batch[..|s.batch| - 1])
    {
      hide Texts;
      b := buffersToWrite[|buffersToWrite| - 1];
      Shorten(|buffersToWrite| - 1);
      b.Reset();
    }
  }

  lemma TextsPush(bs: seq<FixedBuffer>, b: FixedBuffer)
    requires b.Valid() && forall i :: 0 <= i < |bs| ==> bs[i].Valid()
    ensures Texts(bs + [b]) == Texts(bs) + [b.Contents()] && Texts([]) == []
  {
  }

  lemma {:induction false} TextsPrefix(bs: seq<FixedBuffer>, n: nat)
    requires n <= |bs| && forall i :: 0 <= i < |bs| ==> bs[i].Valid()
    ensures Texts(bs[..n]) == Texts(bs)[..n]
  {
  }

  lemma TextsSlice(bs: seq<FixedBuffer>, n: nat)
    requires n <= |bs| && forall i :: 0 <= i < |bs| ==> bs[i].Valid()
    ensures Texts(bs[n..]) == Texts(bs)[n..]
  {
  }
}
