/** The double-buffering log as a machine of atomic steps, taken by any number of writers and one logging thread. */
module LogProtocol {
  import opened Options

  const MAX_BATCH: nat := 25
  const DROP_MESSAGE := "Dropped log messages\n"

  /**
   * Where the logging thread stands: at the top of its loop, past the test of the loop but not yet at the lock, waiting
   * for the condition, with a batch taken over, with so many buffers of it written, after its loop, or at an assertion
   * that does not hold.
   */
  datatype Phase = Top | Entered | Waiting | Taken | Writing(done: nat) | Done | Failed

  /** What became of a stretch of the log: written, or replaced by a message. */
  datatype Part = Text(text: string) | Gap(text: string)

  /**
   * The contents of the current and the queued buffers, whether the spare ones are there, the batch being written,
   * the output so far, and, as a record, all that was accepted and what became of it.
   */
  datatype State = State(
    current: string, spare: bool, queued: seq<string>, running: bool,
    phase: Phase, batch: seq<string>, new1: bool, new2: bool, written: string,
    accepted: string, parts: seq<Part>)

  ghost function Concat(texts: seq<string>): string {
    if texts == [] then "" else Concat(texts[..|texts| - 1]) + texts[|texts| - 1]
  }

  /** The stretches of the log that were dealt with. */
  ghost function Source(parts: seq<Part>): string {
    if parts == [] then "" else Source(parts[..|parts| - 1]) + parts[|parts| - 1].text
  }

  /** What the file then holds. */
  ghost function Output(parts: seq<Part>): string {
    if parts == [] then ""
    else Output(parts[..|parts| - 1]) + if parts[|parts| - 1].Text? then parts[|parts| - 1].text else DROP_MESSAGE
  }

  // ----- the steps -----

  function Started(): State {
    State("", true, [], true, Top, [], true, true, "", "", [])
  }

  /** A writer appends a message; one that does not fit in an empty buffer is silently left out. */
  function AppendStep(s: State, msg: string, size: nat): State {
    var fits := |msg| < size;
    if |s.current| <= size && size - |s.current| > |msg| then
      s.(current := s.current + msg, accepted := s.accepted + msg)
    else
      s.(queued := s.queued + [s.current],
         spare := false,
         current := if fits then msg else "",
         accepted := if fits then s.accepted + msg else s.accepted)
  }

  function StopStep(s: State): State {
    s.(running := false)
  }

  /** Takes over the queued buffers and the current one and puts the spare ones in their place. */
  function Take(s: State): State {
    s.(phase := Taken,
       batch := s.queued + [s.current],
       queued := [],
       current := "",
       new1 := false,
       new2 := s.new2 && s.spare,
       spare := s.spare || s.new2)
  }

  /** The test of the loop, which is made without the lock, and the assertions after it. */
  function TopStep(s: State): State {
    if !s.running then s.(phase := Done)
    else if !s.new1 || !s.new2 || s.batch != [] then s.(phase := Failed)
    else s.(phase := Entered)
  }

  /** Under the lock: the wait, which happens when buffers are queued, or else the take-over. */
  function LockStep(s: State): State {
    if s.queued != [] then s.(phase := Waiting) else Take(s)
  }

  ghost function DropStep(s: State): State {
    if |s.batch| > MAX_BATCH then
      var n := |s.batch| - 2;
      s.(phase := Writing(0),
         batch := s.batch[n..],
         written := s.written + DROP_MESSAGE,
         parts := s.parts + [Gap(Concat(s.batch[..n]))])
    else
      s.(phase := Writing(0))
  }

  function WriteStep(s: State): State
    requires s.phase.Writing? && s.phase.done < |s.batch|
  {
    var b := s.batch[s.phase.done];
    s.(phase := Writing(s.phase.done + 1), written := s.written + b, parts := s.parts + [Text(b)])
  }

  /** Takes buffers of the batch back as spare ones; each time the batch must not be empty. */
  function RecycleStep(s: State): State {
    var kept := if |s.batch| > 2 then 2 else |s.batch|;
    if !s.new1 && kept == 0 then s.(phase := Failed)
    else
      var left := if s.new1 then kept else kept - 1;
      if !s.new2 && left == 0 then s.(phase := Failed, new1 := true, batch := [])
      else s.(phase := Top, new1 := true, new2 := true, batch := [])
  }

  ghost predicate ThreadStep(s: State, s': State) {
    match s.phase
    case Top => s' == TopStep(s)
    case Entered => s' == LockStep(s)
    case Waiting => s' == Take(s)
    case Taken => s' == DropStep(s)
    case Writing(i) => if i < |s.batch| then s' == WriteStep(s) else s' == RecycleStep(s)
    case Done => false
    case Failed => false
  }

  ghost predicate Next(s: State, s': State, size: nat) {
    || (exists msg :: s' == AppendStep(s, msg, size))
    || s' == StopStep(s)
    || ThreadStep(s, s')
  }

  // ----- what every step keeps -----

  /** What was accepted but not dealt with yet, the oldest first. */
  ghost function Pending(s: State): string {
    Concat(if s.phase.Writing? && s.phase.done <= |s.batch| then s.batch[s.phase.done..] else s.batch) +
    (Concat(s.queued) + s.current)
  }

  ghost predicate Conserved(s: State) {
    s.accepted == Source(s.parts) + Pending(s) && s.written == Output(s.parts)
  }

  /** Spare buffers: one is missing only while a buffer is queued, or one is in the batch. */
  ghost predicate Spares(s: State) {
    && (!s.spare ==> s.queued != [])
    && match s.phase
       case Top => s.new1 && s.new2 && s.batch == []
       case Entered => s.new1 && s.new2 && s.batch == []
       case Waiting => s.new1 && s.new2 && s.batch == [] && s.queued != []
       case Taken => |s.batch| >= if s.new2 then 1 else 2
       case Writing(i) => |s.batch| >= (if s.new2 then 1 else 2) && i <= |s.batch|
       case Done => s.new1 && s.new2 && s.batch == []
       case Failed => false
  }

  ghost predicate Inv(s: State, size: nat) {
    Spares(s) && Conserved(s) && |s.current| <= size
  }

  lemma ConcatPush(texts: seq<string>, t: string)
    ensures Concat(texts + [t]) == Concat(texts) + t && Concat([]) == ""
  {
    assert (texts + [t])[..|texts|] == texts;
  }

  lemma {:induction false} ConcatSplit(a: seq<string>, b: seq<string>)
    ensures Concat(a + b) == Concat(a) + Concat(b)
  {
    hide Concat;
    ConcatPush([], "");
    if b == [] {
      assert a + b == a;
    } else {
      var n := |b| - 1;
      ConcatSplit(a, b[..n]);
      assert a + b == (a + b[..n]) + [b[n]];
      ConcatPush(a + b[..n], b[n]);
      assert b == b[..n] + [b[n]];
      ConcatPush(b[..n], b[n]);
      Associate(Concat(a), Concat(b[..n]), b[n]);
    }
  }

  lemma PartsPush(parts: seq<Part>, p: Part)
    ensures Source(parts + [p]) == Source(parts) + p.text
    ensures Output(parts + [p]) == Output(parts) + if p.Text? then p.text else DROP_MESSAGE
  {
    assert (parts + [p])[..|parts|] == parts;
  }

  lemma Associate(a: string, b: string, c: string)
    ensures (a + b) + c == a + (b + c)
  {
  }

  lemma StartedInv(size: nat)
    ensures Inv(Started(), size)
  {
  }

  lemma AppendInv(s: State, msg: string, size: nat)
    requires Inv(s, size)
    ensures Inv(AppendStep(s, msg, size), size)
  {
    hide Concat, Source, Output;
    var s' := AppendStep(s, msg, size);
    var b := Concat(if s.phase.Writing? && s.phase.done <= |s.batch| then s.batch[s.phase.done..] else s.batch);
    var q := Concat(s.queued);
    ConcatPush(s.queued, s.current);
    assert Pending(s') == Pending(s) + if |msg| < size then msg else "" by {
      if |s.current| <= size && size - |s.current| > |msg| {
        Associate(q, s.current, msg);
        Associate(b, q + s.current, msg);
      } else {
        Associate(b, q + s.current, if |msg| < size then msg else "");
      }
    }
    Associate(Source(s.parts), Pending(s), if |msg| < size then msg else "");
  }

  lemma TakeInv(s: State, size: nat)
    requires Inv(s, size) && (s.phase.Entered? || s.phase.Waiting?)
    ensures Inv(Take(s), size)
  {
    hide Concat, Source, Output;
    ConcatPush(s.queued, s.current);
    ConcatPush([], "");
  }

  lemma DropInv(s: State, size: nat)
    requires Inv(s, size) && s.phase.Taken?
    ensures Inv(DropStep(s), size)
  {
    hide Concat, Source, Output;
    var s' := DropStep(s);
    var tail := Concat(s.queued) + s.current;
    if |s.batch| > MAX_BATCH {
      var n := |s.batch| - 2;
      var gone, left := s.batch[..n], s.batch[n..];
      assert s.batch == gone + left && left[0..] == left;
      ConcatSplit(gone, left);
      PartsPush(s.parts, Gap(Concat(gone)));
      Associate(Concat(gone), Concat(left), tail);
      Associate(Source(s.parts), Concat(gone), Concat(left) + tail);
    } else {
      assert s.batch[0..] == s.batch;
    }
  }

  lemma WriteInv(s: State, size: nat)
    requires Inv(s, size) && s.phase.Writing? && s.phase.done < |s.batch|
    ensures Inv(WriteStep(s), size)
  {
    hide Concat, Source, Output;
    var i := s.phase.done;
    var b, rest := s.batch[i], s.batch[i + 1..];
    var tail := Concat(s.queued) + s.current;
    assert s.batch[i..] == [b] + rest;
    ConcatSplit([b], rest);
    ConcatPush([], b);
    assert [] + [b] == [b];
    PartsPush(s.parts, Text(b));
    Associate(b, Concat(rest), tail);
    Associate(Source(s.parts), b, Concat(rest) + tail);
  }

  lemma RecycleInv(s: State, size: nat)
    requires Inv(s, size) && s.phase == Writing(|s.batch|)
    ensures Inv(RecycleStep(s), size) && RecycleStep(s).phase.Top?
  {
    hide Concat, Source, Output;
    assert s.batch[|s.batch|..] == [];
  }

  lemma NextInv(s: State, s': State, size: nat)
    requires Inv(s, size) && Next(s, s', size)
    ensures Inv(s', size)
  {
    hide Inv;
    if msg :| s' == AppendStep(s, msg, size) {
      AppendInv(s, msg, size);
    } else if s' == StopStep(s) {
      StopInv(s, size);
    } else {
      ThreadInv(s, s', size);
    }
  }

  lemma StopInv(s: State, size: nat)
    requires Inv(s, size)
    ensures Inv(StopStep(s), size)
  {
    hide Concat, Source, Output;
    assert Pending(StopStep(s)) == Pending(s);
  }

  lemma ThreadInv(s: State, s': State, size: nat)
    requires Inv(s, size) && ThreadStep(s, s')
    ensures Inv(s', size)
  {
    hide Concat, Source, Output;
    match s.phase
    case Top =>
    case Entered => if s'.phase.Taken? { TakeInv(s, size); }
    case Waiting => TakeInv(s, size);
    case Taken => DropInv(s, size);
    case Writing(i) => if i < |s.batch| { WriteInv(s, size); } else { RecycleInv(s, size); }
    case Done =>
    case Failed =>
  }

  // ----- every run -----

  ghost predicate Run(run: seq<State>, size: nat) {
    run != [] && run[0] == Started() && forall i, j :: 0 <= i && j == i + 1 && j < |run| ==> Next(run[i], run[j], size)
  }

  lemma {:induction false} RunInv(run: seq<State>, size: nat, k: nat)
    requires Run(run, size) && k < |run|
    ensures Inv(run[k], size)
  {
    if k == 0 {
      StartedInv(size);
    } else {
      RunInv(run, size, k - 1);
      NextInv(run[k - 1], run[k], size);
    }
  }

  ghost predicate NoGap(parts: seq<Part>) {
    forall i :: 0 <= i < |parts| ==> parts[i].Text?
  }

  lemma {:induction false} NoGapOutput(parts: seq<Part>)
    requires NoGap(parts)
    ensures Output(parts) == Source(parts)
  {
    if parts != [] {
      NoGapOutput(parts[..|parts| - 1]);
    }
  }

  /** Only a batch that is too big leaves a gap. */
  lemma NextGap(s: State, s': State, size: nat)
    requires Next(s, s', size) && NoGap(s.parts) && |s.batch| <= MAX_BATCH
    ensures NoGap(s'.parts)
  {
    hide Concat, NoGap, ThreadStep;
    if ThreadStep(s, s') {
      ThreadGap(s, s');
    }
  }

  lemma ThreadGap(s: State, s': State)
    requires ThreadStep(s, s') && NoGap(s.parts) && |s.batch| <= MAX_BATCH
    ensures NoGap(s'.parts)
  {
    hide Concat, NoGap;
    if s.phase.Writing? && s.phase.done < |s.batch| {
      TextGap(s.parts, s.batch[s.phase.done]);
    }
  }

  lemma TextGap(parts: seq<Part>, text: string)
    requires NoGap(parts)
    ensures NoGap(parts + [Text(text)])
  {
  }

  lemma {:induction false} SmallBatches(run: seq<State>, size: nat, k: nat)
    requires Run(run, size) && k < |run|
    requires forall i :: 0 <= i <= k ==> |run[i].batch| <= MAX_BATCH
    ensures NoGap(run[k].parts)
  {
    hide Next;
    if k > 0 {
      SmallBatches(run, size, k - 1);
      NextGap(run[k - 1], run[k], size);
    }
  }

  /**
   * In every run: the assertions of the logging thread hold, and, as long as no batch has more than 25 buffers, what
   * is in the file, being written, queued and in the current buffer is, in this order, all that was accepted.
   */
  lemma RunSafe(run: seq<State>, size: nat, k: nat)
    requires Run(run, size) && k < |run|
    ensures !run[k].phase.Failed?
    ensures (forall i :: 0 <= i <= k ==> |run[i].batch| <= MAX_BATCH) ==>
            run[k].written + Pending(run[k]) == run[k].accepted
  {
    RunInv(run, size, k);
    if forall i :: 0 <= i <= k ==> |run[i].batch| <= MAX_BATCH {
      SmallBatches(run, size, k);
      NoGapOutput(run[k].parts);
    }
  }

  /** When the thread has ended and no batch was too big, the file is complete exactly if nothing was pending. */
  lemma RunComplete(run: seq<State>, size: nat, k: nat)
    requires Run(run, size) && k < |run| && run[k].phase.Done?
    requires forall i :: 0 <= i <= k ==> |run[i].batch| <= MAX_BATCH
    ensures run[k].written == run[k].accepted <==> run[k].current == "" && Concat(run[k].queued) == ""
  {
    RunSafe(run, size, k);
    RunInv(run, size, k);
    var s := run[k];
    assert Concat(s.batch) == "";
    assert |s.accepted| == |s.written| + (|Concat(s.queued)| + |s.current|);
    if s.current == "" && Concat(s.queued) == "" {
      assert s.written + "" == s.written;
    }
  }

  // ----- one round -----

  /** What a round writes of a batch: all of it, or a notice and its last two buffers. */
  ghost function RoundText(batch: seq<string>): string {
    var n := |batch|;
    if n > 25 then "Dropped log messages\n" + (batch[n - 2] + batch[n - 1]) else Concat(batch)
  }

  /** Some way through a round: `batch` was taken over when `before` was in the file. */
  ghost predicate Midway(s: State, batch: seq<string>, before: string) {
    match s.phase
    case Taken => s.batch == batch && s.written == before
    case Writing(i) => i <= |s.batch| && s.written + Concat(s.batch[i..]) == before + RoundText(batch)
    case Top => s.written == before + RoundText(batch)
    case _ => false
  }

  lemma LastTwo(batch: seq<string>)
    requires |batch| >= 2
    ensures Concat(batch[|batch| - 2..]) == batch[|batch| - 2] + batch[|batch| - 1]
  {
    var a, b := batch[|batch| - 2], batch[|batch| - 1];
    assert batch[|batch| - 2..] == [a] + [b];
    ConcatPush([a], b);
    ConcatPush([], a);
    assert [] + [a] == [a] && "" + a == a;
  }

  lemma DropMidway(s: State, before: string)
    requires s.phase.Taken? && s.written == before
    ensures Midway(DropStep(s), s.batch, before)
  {
    hide Concat;
    var n := |s.batch|;
    if n > 25 {
      LastTwo(s.batch);
      assert s.batch[n - 2..][0..] == s.batch[n - 2..];
      Associate(before, "Dropped log messages\n", s.batch[n - 2] + s.batch[n - 1]);
    } else {
      assert s.batch[0..] == s.batch;
    }
  }

  lemma WriteMidway(s: State, batch: seq<string>, before: string)
    requires s.phase.Writing? && s.phase.done < |s.batch| && Midway(s, batch, before)
    ensures Midway(WriteStep(s), batch, before)
  {
    hide Concat, RoundText;
    var b, rest := s.batch[s.phase.done], s.batch[s.phase.done + 1..];
    assert s.batch[s.phase.done..] == [b] + rest;
    ConcatSplit([b], rest);
    ConcatPush([], b);
    assert [] + [b] == [b] && "" + b == b;
    Associate(s.written, b, Concat(rest));
  }

  lemma RecycleMidway(s: State, size: nat, batch: seq<string>, before: string)
    requires s.phase == Writing(|s.batch|) && Inv(s, size) && Midway(s, batch, before)
    ensures Midway(RecycleStep(s), batch, before)
  {
    hide RoundText;
    RecycleInv(s, size);
    assert s.batch[|s.batch|..] == [];
    assert s.written + "" == s.written;
  }

  lemma ThreadMidway(s: State, s': State, size: nat, batch: seq<string>, before: string)
    requires Inv(s, size) && ThreadStep(s, s') && Midway(s, batch, before) && !s.phase.Top?
    ensures Midway(s', batch, before)
  {
    hide Concat, RoundText, Inv;
    if s.phase.Taken? {
      DropMidway(s, before);
    } else if s.phase.done < |s.batch| {
      WriteMidway(s, batch, before);
    } else {
      RecycleMidway(s, size, batch, before);
    }
  }

  lemma NextMidway(s: State, s': State, size: nat, batch: seq<string>, before: string)
    requires Inv(s, size) && Next(s, s', size) && Midway(s, batch, before) && !s.phase.Top?
    ensures Midway(s', batch, before)
  {
    hide Concat, RoundText, Conserved;
    if msg :| s' == AppendStep(s, msg, size) {
    } else if s' == StopStep(s) {
    } else {
      hide Inv;
      ThreadMidway(s, s', size, batch, before);
    }
  }

  /** What a round adds to the file, from the moment the batch was taken over to the top of the loop: with more than 25
      buffers a notice and the last two of them, otherwise all of them in order. */
  lemma {:induction false} RoundWrites(run: seq<State>, size: nat, i: nat, k: nat)
    requires Run(run, size) && i <= k < |run| && run[i].phase.Taken?
    requires forall j :: i < j < k ==> !run[j].phase.Top?
    ensures Midway(run[k], run[i].batch, run[i].written)
    ensures var batch, n := run[i].batch, |run[i].batch|;
            run[k].phase.Top? ==>
              run[k].written == run[i].written +
                if n > 25 then "Dropped log messages\n" + (batch[n - 2] + batch[n - 1]) else Concat(batch)
  {
    hide Next, Inv, Concat;
    if i < k {
      RoundWrites(run, size, i, k - 1);
      RunInv(run, size, k - 1);
      NextMidway(run[k - 1], run[k], size, run[i].batch, run[i].written);
    }
  }

  // ----- the stop -----

  /** The log is stopped at `j`, no writer appends after that, and the logging thread has ended at `k`. */
  ghost predicate StoppedAt(run: seq<State>, size: nat, j: nat, k: nat) {
    && Run(run, size) && j < k < |run| && run[j].running && run[j + 1] == StopStep(run[j]) && run[k].phase.Done?
    && forall i, n :: j < i && n == i + 1 && n <= k ==> ThreadStep(run[i], run[n]) || run[n] == StopStep(run[i])
  }

  /** The thread is past the test of its loop and still to take over what is queued and current. */
  ghost predicate ToTake(s: State) {
    s.phase.Entered? || s.phase.Waiting?
  }

  /** Only a thread past the test of its loop at the stop takes over once more what is queued and current. */
  ghost predicate Winding(stop: State, s: State) {
    && !s.running
    && if ToTake(stop) then ToTake(s) || (s.queued == [] && s.current == "")
       else !ToTake(s) && s.queued == stop.queued && s.current == stop.current
  }

  lemma WindingStep(stop: State, s: State, s': State)
    requires Winding(stop, s) && (ThreadStep(s, s') || s' == StopStep(s))
    ensures Winding(stop, s')
  {
    if s' != StopStep(s) {
      StoppedStep(s, s');
    }
    hide ThreadStep;
  }

  /** Once the log is stopped, the thread passes the test of its loop no more. */
  lemma StoppedStep(s: State, s': State)
    requires !s.running && ThreadStep(s, s')
    ensures !s'.running
    ensures if ToTake(s) then ToTake(s') || (s'.queued == [] && s'.current == "")
            else !ToTake(s') && s'.queued == s.queued && s'.current == s.current
  {
    hide Concat;
    match s.phase
    case Top =>
    case Entered =>
    case Waiting =>
    case Taken =>
    case Writing(i) =>
    case Done =>
    case Failed =>
  }

  lemma {:induction false} WindingRun(run: seq<State>, size: nat, j: nat, k: nat, i: nat)
    requires StoppedAt(run, size, j, k) && j < i <= k
    ensures Winding(run[j], run[i])
  {
    hide Run, ThreadStep;
    if i > j + 1 {
      WindingRun(run, size, j, k, i - 1);
      WindingStep(run[j], run[i - 1], run[i]);
    }
  }

  /** A stopped log, none of whose batches was too big, is complete exactly if at the stop the thread was past the test
      of its loop and still to take over, or nothing was queued or current. */
  lemma StopComplete(run: seq<State>, size: nat, j: nat, k: nat)
    requires StoppedAt(run, size, j, k) && forall i :: 0 <= i <= k ==> |run[i].batch| <= MAX_BATCH
    ensures run[k].written == run[k].accepted <==>
              run[j].phase.Waiting? || run[j].phase.Entered? || (run[j].current == "" && Concat(run[j].queued) == "")
  {
    WindingRun(run, size, j, k, k);
    hide Run;
    RunComplete(run, size, k);
  }

  /** A message appended just before the log is stopped is never written. */
  lemma StopLoses() returns (run: seq<State>)
    ensures |run| == 4 && StoppedAt(run, 10, 1, 3) && run[1].phase.Top? && run[1].current == "x"
    ensures run[3].accepted == "x" && run[3].written == ""
  {
    var s0 := Started();
    var s1 := AppendStep(s0, "x", 10);
    var s2 := StopStep(s1);
    var s3 := TopStep(s2);
    run := [s0, s1, s2, s3];
    assert Next(s0, s1, 10);
    assert Next(s1, s2, 10);
    assert ThreadStep(s2, s3);
    assert "" + "x" == "x";
  }

  /** When the thread has passed the test of its loop before, the same message is written. */
  lemma StopKeeps() returns (run: seq<State>)
    ensures |run| == 9 && StoppedAt(run, 10, 2, 8) && run[2].phase.Entered? && run[2].current == "x"
    ensures run[8].accepted == "x" && run[8].written == "x"
  {
    var s0 := Started();
    var s1 := TopStep(s0);
    var s2 := AppendStep(s1, "x", 10);
    var s3 := StopStep(s2);
    assert "" + "x" == "x";
    var s4, s5, s6, s7, s8 := LastRound(s3);
    run := [s0, s1, s2, s3, s4, s5, s6, s7, s8];
    assert ThreadStep(s0, s1) && Next(s1, s2, 10) && Next(s2, s3, 10);
    hide ThreadStep;
  }

  lemma LastRound(s: State) returns (t: State, u: State, v: State, w: State, end: State)
    requires s == State("x", true, [], false, Entered, [], true, true, "", "x", [])
    ensures ThreadStep(s, t) && ThreadStep(t, u) && ThreadStep(u, v) && ThreadStep(v, w) && ThreadStep(w, end)
    ensures end.phase.Done? && end.accepted == "x" && end.written == "x"
  {
    t := LockStep(s);
    assert t.batch == ["x"] && "" + "x" == "x";
    u := DropStep(t);
    v := WriteStep(u);
    w := RecycleStep(v);
    end := TopStep(w);
  }

  // ----- what the writers appended -----

  /** A message is kept exactly if it leaves a byte of a buffer to spare, or is empty. */
  ghost predicate Short(msg: string, size: nat) {
    |msg| < size || msg == ""
  }

  lemma AppendAccepted(s: State, msg: string, size: nat)
    requires |s.current| <= size
    ensures AppendStep(s, msg, size).accepted == s.accepted + msg <==> Short(msg, size)
    ensures !Short(msg, size) ==> AppendStep(s, msg, size).accepted == s.accepted
  {
    if msg == "" {
      assert s.accepted + msg == s.accepted;
    } else {
      assert |s.accepted + msg| > |s.accepted|;
    }
  }

  /** A run with the message appended at each step, if one was. */
  ghost predicate Spoken(run: seq<State>, said: seq<Option<string>>, size: nat) {
    && |run| == |said| + 1 && run[0] == Started()
    && forall i, j :: 0 <= i < |said| && j == i + 1 ==>
         match said[i]
         case Some(msg) => run[j] == AppendStep(run[i], msg, size)
         case None => run[j] == StopStep(run[i]) || ThreadStep(run[i], run[j])
  }

  /** All the messages appended. */
  ghost function Said(said: seq<Option<string>>): string {
    if said == [] then ""
    else Said(said[..|said| - 1]) + match said[|said| - 1] case Some(msg) => msg case None => ""
  }

  ghost predicate AllShort(said: seq<Option<string>>, size: nat) {
    forall i :: 0 <= i < |said| && said[i].Some? ==> Short(said[i].value, size)
  }

  lemma SpokenRun(run: seq<State>, said: seq<Option<string>>, size: nat)
    requires Spoken(run, said, size)
    ensures Run(run, size)
  {
    hide ThreadStep, AppendStep, StopStep;
    forall i, j | 0 <= i && j == i + 1 && j < |run|
      ensures Next(run[i], run[j], size)
    {
      match said[i]
      case Some(msg) => assert run[j] == AppendStep(run[i], msg, size);
      case None =>
    }
  }

  /** Other steps than appending accept nothing. */
  lemma QuietStep(s: State, s': State)
    requires s' == StopStep(s) || ThreadStep(s, s')
    ensures s'.accepted == s.accepted
  {
    hide Concat;
  }

  lemma {:induction false} SaidAccepted(run: seq<State>, said: seq<Option<string>>, size: nat, k: nat)
    requires Spoken(run, said, size) && k <= |said|
    ensures AllShort(said[..k], size) ==> run[k].accepted == Said(said[..k])
    ensures !AllShort(said[..k], size) ==> |run[k].accepted| < |Said(said[..k])|
  {
    if k > 0 {
      hide Spoken, AppendStep, ThreadStep, StopStep, Short;
      SaidAccepted(run, said, size, k - 1);
      assert said[..k][..k - 1] == said[..k - 1];
      SpokenRun(run, said, size);
      SpokenStep(run, said, size, k);
      if said[k - 1].Some? {
        AppendAccepted(run[k - 1], said[k - 1].value, size);
        LongMessage(said[k - 1].value, size);
      }
      AllShortNext(said, size, k);
    } else {
      StartedSilent(run, said, size);
    }
  }

  lemma StartedSilent(run: seq<State>, said: seq<Option<string>>, size: nat)
    requires Spoken(run, said, size)
    ensures run[0].accepted == ""
  {
  }

  lemma LongMessage(msg: string, size: nat)
    ensures !Short(msg, size) ==> |msg| > 0
  {
  }

  lemma AllShortNext(said: seq<Option<string>>, size: nat, k: nat)
    requires 0 < k <= |said|
    ensures AllShort(said[..k], size) <==>
              AllShort(said[..k - 1], size) && (said[k - 1].Some? ==> Short(said[k - 1].value, size))
  {
    assert forall i :: 0 <= i < k - 1 ==> said[..k][i] == said[..k - 1][i];
    assert said[..k][k - 1] == said[k - 1];
  }

  lemma SpokenStep(run: seq<State>, said: seq<Option<string>>, size: nat, k: nat)
    requires Spoken(run, said, size) && Run(run, size) && 0 < k <= |said|
    ensures |run| == |said| + 1 && |run[k - 1].current| <= size
    ensures said[k - 1].None? ==> run[k].accepted == run[k - 1].accepted
    ensures said[k - 1].Some? ==> run[k] == AppendStep(run[k - 1], said[k - 1].value, size)
  {
    hide ThreadStep, StopStep, AppendStep, Next;
    RunInv(run, size, k - 1);
    if said[k - 1].None? {
      QuietStep(run[k - 1], run[k]);
    }
  }

  /** While no batch is too big, the file and what is pending are all that the writers appended exactly if every message
      was short: a longer one is dropped without notice. */
  lemma RunDelivers(run: seq<State>, said: seq<Option<string>>, size: nat, k: nat)
    requires Spoken(run, said, size) && k <= |said| && forall i :: 0 <= i <= k ==> |run[i].batch| <= MAX_BATCH
    ensures run[k].written + Pending(run[k]) == Said(said[..k]) <==> AllShort(said[..k], size)
  {
    hide AllShort, Said;
    SaidAccepted(run, said, size, k);
    SpokenRun(run, said, size);
    hide Spoken;
    RunSafe(run, size, k);
  }
}
