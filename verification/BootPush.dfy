/** The boot loader's code push: three images handed to the DSP one after the other, through one
    zone, a control word and a status word.

    Host and DSP are interleaved one word access at a time. The host's moves are the statements
    of the boot loader; the DSP is bound only by its contract: it answers RESET with RESET, and on
    FINISH reads what was pushed and then answers FINISH. The two words the host also polls,
    the boot status and the cores' boot status, may change at any time. */
module BootPush {
  import opened Words32
  import opened Polls

  type Code = seq<Word>

  const RESET: Word := 0x1
  const FINISH: Word := 0x10
  const ALL_CORES: Word := 0x07

  datatype HostPc =
    | AwaitInit(polls: nat)
    | SetReset(core: nat)
    | AwaitReset(core: nat, polls: nat)
    | Copy(core: nat, next: nat, answered: bool)
    | AwaitFinish(core: nat, polls: nat)
    | ClearControl(core: nat)
    | Compare(polls: nat)
    | TimedOut(core: nat, published: bool)
    | NoCores
    | Booted

  datatype Dsp = AwaitControlReset | ToAnswer | AwaitControlFinish | Reading(read: Code)

  datatype Boot = Boot(control: Word, status: Word, bootStatus: Word, cores: Word, zone: seq<Word>, published: nat,
                       pc: HostPc, dsp: Dsp, taken: seq<Code>)

  /** What the boot loader returns, once it does. */
  predicate Returns(pc: HostPc, result: int) {
    (pc == Booted && result == 0) || (pc.TimedOut? && result == -2) || (pc == NoCores && result == -4)
  }

  predicate Ended(pc: HostPc) {
    pc == Booted || pc.TimedOut? || pc == NoCores
  }

  predicate Configured(images: seq<Code>, bound: nat, s: Boot) {
    && |images| == 3 && bound > 0
    && (forall k :: 0 <= k < 3 ==> |images[k]| <= |s.zone|)
    && match s.pc
       case AwaitInit(p) => p < bound
       case SetReset(k) => k < 3
       case AwaitReset(k, p) => k < 3 && p < bound
       case Copy(k, i, _) => k < 3 && i <= |images[k]|
       case AwaitFinish(k, p) => k < 3 && p < bound
       case ClearControl(k) => k < 3
       case Compare(p) => p < bound
       case TimedOut(k, _) => k < 3
       case _ => true
  }

  predicate Sees(status: Word, mask: Word) {
    CommonBit(status, mask)
  }

  /** One statement of the boot loader, or one sample of a poll in it. The RESET poll is checked
      for core 0 only: for cores 1 and 2 the copy follows whatever the poll returned. */
  function HostMove(images: seq<Code>, bound: nat, s: Boot): Boot
    requires Configured(images, bound, s) && !Ended(s.pc)
  {
    match s.pc
    case AwaitInit(p) =>
      (match OnSample(p, Sees(s.bootStatus, RESET), bound)
       case Waiting(q) => s.(pc := AwaitInit(q))
       case Finished(_) => s.(pc := SetReset(0)))
    case SetReset(k) =>
      s.(control := RESET, pc := AwaitReset(k, 0))
    case AwaitReset(k, p) =>
      (match OnSample(p, Sees(s.status, RESET), bound)
       case Waiting(q) => s.(pc := AwaitReset(k, q))
       case Finished(success) => s.(pc := if success || k > 0 then Copy(k, 0, success) else TimedOut(0, false)))
    case Copy(k, i, answered) =>
      if i < |images[k]| then s.(zone := s.zone[i := images[k][i]], pc := Copy(k, i + 1, answered))
      else s.(control := FINISH, published := |images[k]|, pc := AwaitFinish(k, 0))
    case AwaitFinish(k, p) =>
      (match OnSample(p, Sees(s.status, FINISH), bound)
       case Waiting(q) => s.(pc := AwaitFinish(k, q))
       case Finished(success) => s.(pc := if success then ClearControl(k) else TimedOut(k, true)))
    case ClearControl(k) =>
      s.(control := RESET, pc := if k < 2 then SetReset(k + 1) else Compare(0))
    case Compare(p) =>
      (match OnSample(p, s.cores == ALL_CORES, bound)
       case Waiting(q) => s.(pc := Compare(q))
       case Finished(success) => s.(pc := if success then Booted else NoCores))
  }

  predicate HostStep(images: seq<Code>, bound: nat, s: Boot, s': Boot)
    requires Configured(images, bound, s)
  {
    !Ended(s.pc) && s' == HostMove(images, bound, s)
  }

  predicate DspStep(s: Boot, s': Boot) {
    match s.dsp
    case AwaitControlReset => s.control == RESET && s' == s.(dsp := ToAnswer)
    case ToAnswer => s' == s.(status := RESET, dsp := AwaitControlFinish)
    case AwaitControlFinish => s.control == FINISH && s' == s.(dsp := Reading([]))
    case Reading(read) =>
      if |read| < s.published && |read| < |s.zone| then s' == s.(dsp := Reading(read + [s.zone[|read|]]))
      else s' == s.(status := FINISH, dsp := AwaitControlReset, taken := s.taken + [read])
  }

  predicate OtherStep(s: Boot, s': Boot) {
    s' == s.(bootStatus := s'.bootStatus, cores := s'.cores)
  }

  predicate Next(images: seq<Code>, bound: nat, s: Boot, s': Boot)
    requires Configured(images, bound, s)
  {
    HostStep(images, bound, s, s') || DspStep(s, s') || OtherStep(s, s')
  }

  /** The FINISH store is made although the DSP has not answered RESET. */
  predicate Lapse(s: Boot, s': Boot) {
    s.pc.Copy? && s'.pc.AwaitFinish? && !Sees(s.status, RESET)
  }

  /** The boot loader clears neither the control nor the status word, so both start with any value. */
  predicate Start(s: Boot) {
    s.pc == AwaitInit(0) && s.dsp == AwaitControlReset && s.taken == []
  }

  /** The status word passes for an answer to RESET and to FINISH at once. */
  predicate Ambiguous(status: Word) {
    Sees(status, RESET) && Sees(status, FINISH)
  }

  predicate IsRun(images: seq<Code>, bound: nat, run: seq<Boot>) {
    && |run| > 0 && Start(run[0])
    && (forall i :: 0 <= i < |run| ==> Configured(images, bound, run[i]))
    && forall i :: 0 <= i < |run| - 1 ==> Next(images, bound, run[i], run[i + 1])
  }

  predicate NoLapse(run: seq<Boot>) {
    forall i :: 0 <= i < |run| - 1 ==> !Lapse(run[i], run[i + 1])
  }

  /** Every RESET poll has succeeded: the runs of a boot loader that checks this poll for every core. */
  predicate Answered(run: seq<Boot>) {
    forall i :: 0 <= i < |run| && run[i].pc.Copy? ==> run[i].pc.answered
  }

  // ----- the invariant

  /** How many images the DSP has taken when the host is at this point, before the current push. */
  function Pushed(pc: HostPc): nat {
    match pc
    case AwaitInit(_) => 0
    case SetReset(k) => k
    case AwaitReset(k, _) => k
    case Copy(k, _, _) => k
    case AwaitFinish(k, _) => k
    case ClearControl(k) => k + 1
    case TimedOut(k, _) => k
    case _ => 3
  }

  /** The FINISH of core k stands in the control word: the image is in the zone, and the DSP is about to
      read it, reading it, or done with it. For core 0 the DSP may still have to answer RESET, where
      the host took a stale status word for that answer. */
  predicate Handed(images: seq<Code>, s: Boot, k: nat)
    requires |images| == 3 && k < 3
  {
    && s.control == FINISH && s.published == |images[k]| <= |s.zone| && s.zone[..|images[k]|] == images[k]
    && (if |s.taken| == k
        then Sees(s.status, RESET) && (s.dsp.Reading? ==> s.dsp.read <= images[k])
             && (k > 0 ==> s.dsp == AwaitControlFinish || s.dsp.Reading?)
        else |s.taken| == k + 1 && s.dsp == AwaitControlReset)
  }

  predicate Inv(images: seq<Code>, bound: nat, s: Boot) {
    && Configured(images, bound, s)
    && s.taken <= images
    && !Ambiguous(s.status)
    && (s.dsp == AwaitControlFinish || s.dsp.Reading? ==> Sees(s.status, RESET))
    && (|s.taken| > 0 ==>
          if s.dsp == AwaitControlFinish || s.dsp.Reading? then Sees(s.status, RESET) else Sees(s.status, FINISH))
    && if s.pc.AwaitFinish? || (s.pc.TimedOut? && s.pc.published) then Handed(images, s, s.pc.core)
       else
         && |s.taken| == Pushed(s.pc) && !s.dsp.Reading?
         && match s.pc
            case AwaitInit(_) => s.control == FINISH ==> s.dsp == AwaitControlReset
            case SetReset(_) => s.control == FINISH ==> s.dsp == AwaitControlReset
            case Copy(k, i, answered) =>
              s.control == RESET && s.zone[..i] == images[k][..i] && (answered ==> Sees(s.status, RESET))
            case ClearControl(_) => s.control == FINISH && s.dsp == AwaitControlReset
            case _ => s.control == RESET
  }

  lemma Masks()
    ensures Sees(RESET, RESET) && !Sees(RESET, FINISH) && Sees(FINISH, FINISH) && !Sees(FINISH, RESET)
  {
  }

  lemma HostKeepsInv(images: seq<Code>, bound: nat, s: Boot, s': Boot)
    requires Inv(images, bound, s) && HostStep(images, bound, s, s') && !Lapse(s, s')
    ensures Inv(images, bound, s')
  {
  }

  lemma DspKeepsInv(images: seq<Code>, bound: nat, s: Boot, s': Boot)
    requires Inv(images, bound, s) && DspStep(s, s')
    ensures Inv(images, bound, s')
  {
    Masks();
    if s.dsp.Reading? {
      var k := s.pc.core;
      var n, image := |s.dsp.read|, images[k];
      if n < s.published {
        assert s.zone[n] == s.zone[..|image|][n] == image[n];
        assert image[..n + 1] == image[..n] + [image[n]];
      } else {
        assert s.dsp.read == image;
        assert images[..k + 1] == images[..k] + [image];
      }
    }
  }

  lemma NextKeepsInv(images: seq<Code>, bound: nat, s: Boot, s': Boot)
    requires Inv(images, bound, s) && Next(images, bound, s, s') && !Lapse(s, s')
    ensures Inv(images, bound, s')
  {
    if HostStep(images, bound, s, s') {
      HostKeepsInv(images, bound, s, s');
    } else if DspStep(s, s') {
      DspKeepsInv(images, bound, s, s');
    }
  }

  lemma {:induction false} RunKeepsInv(images: seq<Code>, bound: nat, run: seq<Boot>, i: nat)
    requires IsRun(images, bound, run) && !Ambiguous(run[0].status) && NoLapse(run) && i < |run|
    ensures Inv(images, bound, run[i])
  {
    if i > 0 {
      RunKeepsInv(images, bound, run, i - 1);
      var s, s' := run[i - 1], run[i - 1 + 1];
      assert Next(images, bound, s, s') && !Lapse(s, s');
      NextKeepsInv(images, bound, s, s');
    }
  }

  // ----- what a run guarantees

  /** Along every run without a lapse the images taken are the first ones, in order and intact, and the
      DSP neither reads the zone nor may start to while the host is copying into it. */
  lemma TakenInOrder(images: seq<Code>, bound: nat, run: seq<Boot>, i: nat)
    requires IsRun(images, bound, run) && !Ambiguous(run[0].status) && NoLapse(run) && i < |run|
    ensures run[i].taken <= images
    ensures run[i].pc.Copy? ==> run[i].control == RESET && !run[i].dsp.Reading?
  {
    RunKeepsInv(images, bound, run, i);
  }

  /** If the boot loader returns 0, the DSP has taken all three images, each exactly once. */
  lemma BootedMeansAllTaken(images: seq<Code>, bound: nat, run: seq<Boot>, i: nat)
    requires IsRun(images, bound, run) && !Ambiguous(run[0].status) && NoLapse(run) && i < |run|
    requires Returns(run[i].pc, 0)
    ensures run[i].taken == images && run[i].control == RESET
  {
    RunKeepsInv(images, bound, run, i);
  }

  /** The host moves in a run. */
  function HostMoves(run: seq<Boot>): nat {
    if |run| <= 1 then 0
    else HostMoves(run[..|run| - 1]) + if run[|run| - 2].pc != run[|run| - 1].pc then 1 else 0
  }

  lemma HostMovesLast(run: seq<Boot>, i: nat)
    requires 0 < i < |run|
    ensures HostMoves(run[..i + 1]) == HostMoves(run[..i]) + if run[i - 1].pc != run[i].pc then 1 else 0
  {
    assert run[..i + 1][..i] == run[..i];
  }

  /** The init poll is over: a sample has shown the DSP ready, or was the last one. */
  predicate InitOver(bound: nat, s: Boot) {
    s.pc.AwaitInit? && (CommonBit(s.bootStatus, 0x1) || s.pc.polls == bound - 1)
  }

  predicate InitOverBefore(bound: nat, run: seq<Boot>, i: nat)
    requires i <= |run|
  {
    exists j :: 0 <= j < i && InitOver(bound, run[j])
  }

  /** The push starts after the init poll: until it is over the host stores nothing, and sample p of it is
      the host's move p. */
  lemma {:induction false} InitAwaited(images: seq<Code>, bound: nat, run: seq<Boot>, i: nat)
    requires IsRun(images, bound, run) && i < |run|
    ensures if run[i].pc.AwaitInit?
            then run[i].control == run[0].control && run[i].zone == run[0].zone
                 && run[i].pc.polls == HostMoves(run[..i + 1])
            else InitOverBefore(bound, run, i)
  {
    if i == 0 {
      assert |run[..1]| == 1;
    } else {
      var s, s' := run[i - 1], run[i - 1 + 1];
      InitAwaited(images, bound, run, i - 1);
      assert Next(images, bound, s, s');
      InitStep(images, bound, s, s');
      HostMovesLast(run, i);
      if s.pc.AwaitInit? && !s'.pc.AwaitInit? {
        assert InitOver(bound, run[i - 1]);
      }
    }
  }

  lemma InitStep(images: seq<Code>, bound: nat, s: Boot, s': Boot)
    requires Configured(images, bound, s) && Next(images, bound, s, s')
    ensures s'.pc.AwaitInit? ==>
              && s.pc.AwaitInit? && s'.control == s.control && s'.zone == s.zone
              && s'.pc.polls == s.pc.polls + if s'.pc != s.pc then 1 else 0
    ensures s.pc.AwaitInit? && !s'.pc.AwaitInit? ==> InitOver(bound, s)
  {
  }

  /** The host enters Booted only on a sample of the cores' boot status equal to 0x07. */
  lemma {:induction false} BootedMeansCoresUp(images: seq<Code>, bound: nat, run: seq<Boot>, i: nat)
    requires IsRun(images, bound, run) && i < |run| && run[i].pc == Booted
    ensures exists j :: 0 <= j < i && run[j].pc.Compare? && run[j].cores == ALL_CORES
  {
    var s, s' := run[i - 1], run[i - 1 + 1];
    assert Next(images, bound, s, s');
    if s.pc == Booted {
      BootedMeansCoresUp(images, bound, run, i - 1);
    } else {
      OnlyCompareBoots(images, bound, s, s');
    }
  }

  lemma OnlyCompareBoots(images: seq<Code>, bound: nat, s: Boot, s': Boot)
    requires Configured(images, bound, s) && Next(images, bound, s, s') && s.pc != Booted && s'.pc == Booted
    ensures s.pc.Compare? && s.cores == ALL_CORES
  {
  }

  lemma {:induction false} AnsweredKeepsInv(images: seq<Code>, bound: nat, run: seq<Boot>, i: nat)
    requires IsRun(images, bound, run) && !Ambiguous(run[0].status) && Answered(run) && i < |run|
    ensures Inv(images, bound, run[i]) && (i + 1 < |run| ==> !Lapse(run[i], run[i + 1]))
  {
    if i > 0 {
      AnsweredKeepsInv(images, bound, run, i - 1);
      NextKeepsInv(images, bound, run[i - 1], run[i - 1 + 1]);
    }
  }

  /** A run in which every RESET poll succeeded has no lapse. */
  lemma AnsweredMeansNoLapse(images: seq<Code>, bound: nat, run: seq<Boot>)
    requires IsRun(images, bound, run) && !Ambiguous(run[0].status) && Answered(run)
    ensures NoLapse(run)
  {
    forall i | 0 <= i < |run| - 1 ensures !Lapse(run[i], run[i + 1]) {
      AnsweredKeepsInv(images, bound, run, i);
    }
  }

  // ----- the unchecked RESET poll

  /** For cores 1 and 2 the FINISH poll passes at its very first sample, with nothing read by the
      DSP, exactly when FINISH was stored before the DSP had answered RESET. */
  lemma UnansweredFinishPassesIff(images: seq<Code>, bound: nat, s: Boot)
    requires Inv(images, bound, s) && bound > 1
    requires s.pc.Copy? && s.pc.core > 0 && s.pc.next == |images[s.pc.core]|
    ensures var t := HostMove(images, bound, s);
            && Configured(images, bound, t) && t.pc == AwaitFinish(s.pc.core, 0) && |t.taken| == s.pc.core
            && (HostMove(images, bound, t).pc == ClearControl(s.pc.core) <==> !Sees(s.status, RESET))
  {
  }

  ghost predicate PathIn(images: seq<Code>, bound: nat, s: Boot, n: nat, t: Boot)
    decreases n
  {
    if n == 0 then s == t
    else
      exists u: Boot :: PathIn(images, bound, s, n - 1, u) && Configured(images, bound, u) && Next(images, bound, u, t)
  }

  ghost predicate Path(images: seq<Code>, bound: nat, s: Boot, t: Boot) {
    Configured(images, bound, t) && exists n: nat :: PathIn(images, bound, s, n, t)
  }

  lemma Extend(images: seq<Code>, bound: nat, s: Boot, t: Boot, u: Boot)
    requires Path(images, bound, s, t) && Next(images, bound, t, u) && Configured(images, bound, u)
    ensures Path(images, bound, s, u)
  {
    var n: nat :| PathIn(images, bound, s, n, t);
    assert PathIn(images, bound, s, n + 1, u);
  }

  lemma MoveConfigured(images: seq<Code>, bound: nat, s: Boot)
    requires Configured(images, bound, s) && !Ended(s.pc)
    ensures Configured(images, bound, HostMove(images, bound, s))
  {
  }

  lemma HostExtends(images: seq<Code>, bound: nat, s: Boot, t: Boot) returns (u: Boot)
    requires Path(images, bound, s, t) && !Ended(t.pc)
    ensures u == HostMove(images, bound, t) && Path(images, bound, s, u)
  {
    u := HostMove(images, bound, t);
    MoveConfigured(images, bound, t);
    Extend(images, bound, s, t, u);
  }

  lemma DspExtends(images: seq<Code>, bound: nat, s: Boot, t: Boot, u: Boot)
    requires Path(images, bound, s, t) && DspStep(t, u)
    ensures Path(images, bound, s, u)
  {
    Extend(images, bound, s, t, u);
  }

  lemma {:induction false} CopyAll(images: seq<Code>, bound: nat, s: Boot, t: Boot) returns (u: Boot)
    requires Path(images, bound, s, t) && t.pc.Copy?
    ensures Path(images, bound, s, u)
    ensures u == t.(zone := u.zone, pc := Copy(t.pc.core, |images[t.pc.core]|, t.pc.answered))
    ensures |u.zone| == |t.zone|
    decreases |images[t.pc.core]| - t.pc.next
  {
    if t.pc.next == |images[t.pc.core]| {
      u := t;
    } else {
      var t1 := HostExtends(images, bound, s, t);
      u := CopyAll(images, bound, s, t1);
    }
  }

  lemma {:induction false} ReadAll(images: seq<Code>, bound: nat, s: Boot, t: Boot) returns (u: Boot)
    requires Path(images, bound, s, t) && t.dsp.Reading? && t.published <= |t.zone| && |t.dsp.read| <= t.published
    ensures Path(images, bound, s, u) && u == t.(status := FINISH, dsp := AwaitControlReset, taken := u.taken)
    ensures |u.taken| == |t.taken| + 1
    decreases t.published - |t.dsp.read|
  {
    var n := |t.dsp.read|;
    if n == t.published {
      u := t.(status := FINISH, dsp := AwaitControlReset, taken := t.taken + [t.dsp.read]);
      DspExtends(images, bound, s, t, u);
    } else {
      var t1 := t.(dsp := Reading(t.dsp.read + [t.zone[n]]));
      DspExtends(images, bound, s, t, t1);
      u := ReadAll(images, bound, s, t1);
    }
  }

  lemma {:induction false} MissAll(images: seq<Code>, bound: nat, s: Boot, t: Boot) returns (u: Boot)
    requires Path(images, bound, s, t) && t.pc.AwaitReset? && t.pc.core > 0 && !Sees(t.status, RESET)
    ensures Path(images, bound, s, u) && u == t.(pc := Copy(t.pc.core, 0, false))
    decreases bound - t.pc.polls
  {
    var t1 := HostExtends(images, bound, s, t);
    if t1.pc.Copy? {
      u := t1;
    } else {
      u := MissAll(images, bound, s, t1);
    }
  }

  // The DSP answers the RESET of core 0.
  lemma FirstAnswerReachable(images: seq<Code>, bound: nat, s: Boot) returns (t: Boot)
    requires Start(s) && Configured(images, bound, s) && bound > 1
    ensures Path(images, bound, s, t) && t.pc == Copy(0, 0, true) && t.dsp == AwaitControlFinish
    ensures t.status == RESET && t.taken == []
  {
    Masks();
    assert PathIn(images, bound, s, 0, s);
    t := s.(bootStatus := RESET);
    Extend(images, bound, s, s, t);
    t := HostExtends(images, bound, s, t);
    t := HostExtends(images, bound, s, t);
    DspExtends(images, bound, s, t, t.(dsp := ToAnswer));
    t := t.(dsp := ToAnswer);
    DspExtends(images, bound, s, t, t.(status := RESET, dsp := AwaitControlFinish));
    t := t.(status := RESET, dsp := AwaitControlFinish);
    t := HostExtends(images, bound, s, t);
  }

  // Core 0 goes through.
  lemma FirstCoreReachable(images: seq<Code>, bound: nat, s: Boot) returns (t: Boot)
    requires Start(s) && Configured(images, bound, s) && bound > 1
    ensures Path(images, bound, s, t) && t.pc == AwaitFinish(0, 0) && t.dsp == AwaitControlReset
    ensures t.status == FINISH && |t.taken| == 1
  {
    t := FirstAnswerReachable(images, bound, s);
    t := CopyAll(images, bound, s, t);
    t := HostExtends(images, bound, s, t);
    DspExtends(images, bound, s, t, t.(dsp := Reading([])));
    t := t.(dsp := Reading([]));
    t := ReadAll(images, bound, s, t);
  }

  // The DSP is then slow to answer the RESET of core 1, and the poll runs out.
  lemma SlowAnswerReachable(images: seq<Code>, bound: nat, s: Boot) returns (t: Boot)
    requires Start(s) && Configured(images, bound, s) && bound > 1
    ensures Path(images, bound, s, t) && t.pc == Copy(1, |images[1]|, false) && t.dsp == ToAnswer
    ensures t.status == FINISH && t.control == RESET
  {
    Masks();
    t := FirstCoreReachable(images, bound, s);
    t := HostExtends(images, bound, s, t);
    t := HostExtends(images, bound, s, t);
    t := HostExtends(images, bound, s, t);
    t := MissAll(images, bound, s, t);
    t := CopyAll(images, bound, s, t);
    DspExtends(images, bound, s, t, t.(dsp := ToAnswer));
    t := t.(dsp := ToAnswer);
  }

  /** What the missing check allows, for any images and any poll bound: from every start the host can get
      to copy core 2's image into the zone while the DSP is reading core 1's out of it. */
  lemma OverlapReachable(images: seq<Code>, bound: nat, s: Boot) returns (t: Boot)
    requires Start(s) && Configured(images, bound, s) && bound > 1
    ensures Path(images, bound, s, t) && t.pc == Copy(2, 0, true) && t.dsp == Reading([])
  {
    Masks();
    t := SlowAnswerReachable(images, bound, s);
    t := HostExtends(images, bound, s, t);
    t := HostExtends(images, bound, s, t);
    DspExtends(images, bound, s, t, t.(status := RESET, dsp := AwaitControlFinish));
    t := t.(status := RESET, dsp := AwaitControlFinish);
    DspExtends(images, bound, s, t, t.(dsp := Reading([])));
    t := t.(dsp := Reading([]));
    t := HostExtends(images, bound, s, t);
    t := HostExtends(images, bound, s, t);
    t := HostExtends(images, bound, s, t);
  }

  // With the status word left at FINISH, the host passes a whole core without the DSP.
  lemma PassCore(images: seq<Code>, bound: nat, s: Boot, t: Boot) returns (u: Boot)
    requires Path(images, bound, s, t) && bound > 1 && t.pc.AwaitReset? && t.pc.polls == 0 && t.pc.core > 0
    requires t.status == FINISH
    ensures Path(images, bound, s, u) && u.pc == ClearControl(t.pc.core) && u.status == FINISH && u.taken == t.taken
  {
    Masks();
    u := MissAll(images, bound, s, t);
    u := CopyAll(images, bound, s, u);
    u := HostExtends(images, bound, s, u);
    u := HostExtends(images, bound, s, u);
  }

  /** Nor does the result 0 then mean anything: from every start the boot loader can return it
      although the DSP has taken the image of core 0 and no other. */
  lemma ZeroWithoutImagesReachable(images: seq<Code>, bound: nat, s: Boot) returns (t: Boot)
    requires Start(s) && Configured(images, bound, s) && bound > 1
    ensures Path(images, bound, s, t) && Returns(t.pc, 0) && |t.taken| == 1
  {
    Masks();
    t := FirstCoreReachable(images, bound, s);
    t := HostExtends(images, bound, s, t);
    t := HostExtends(images, bound, s, t);
    t := HostExtends(images, bound, s, t);
    t := PassCore(images, bound, s, t);
    t := HostExtends(images, bound, s, t);
    t := HostExtends(images, bound, s, t);
    t := PassCore(images, bound, s, t);
    t := HostExtends(images, bound, s, t);
    Extend(images, bound, s, t, t.(cores := ALL_CORES));
    t := t.(cores := ALL_CORES);
    t := HostExtends(images, bound, s, t);
  }

  // ----- a prompt DSP

  /** If the host takes a sample now and it has number lag or more, counted from 0, it shows the answer. */
  predicate Prompt(lag: nat, s: Boot) {
    match s.pc
    case AwaitReset(_, p) => p >= lag ==> Sees(s.status, RESET)
    case AwaitFinish(_, p) => p >= lag ==> Sees(s.status, FINISH)
    case Compare(p) => p >= lag ==> s.cores == ALL_CORES
    case _ => true
  }

  /** Every sample that the host takes in the run is prompt. */
  predicate PromptRun(images: seq<Code>, bound: nat, lag: nat, run: seq<Boot>)
    requires forall i :: 0 <= i < |run| ==> Configured(images, bound, run[i])
  {
    forall i :: 0 <= i < |run| - 1 && HostStep(images, bound, run[i], run[i + 1]) ==> Prompt(lag, run[i])
  }

  predicate OnTime(lag: nat, pc: HostPc) {
    match pc
    case AwaitReset(_, p) => p <= lag
    case AwaitFinish(_, p) => p <= lag
    case Compare(p) => p <= lag
    case Copy(_, _, answered) => answered
    case TimedOut(_, _) => false
    case NoCores => false
    case _ => true
  }

  /** The most host moves that cores k and up, and the final comparison, can take. */
  function Rest(images: seq<Code>, bound: nat, k: nat): nat
    requires |images| == 3 && k <= 3
    decreases 3 - k
  {
    if k == 3 then bound else Rest(images, bound, k + 1) + 2 * bound + |images[k]| + 3
  }

  /** The most host moves left: what decreases. */
  function MovesLeft(images: seq<Code>, bound: nat, s: Boot): nat
    requires Configured(images, bound, s)
  {
    match s.pc
    case AwaitInit(p) => Rest(images, bound, 0) + bound - p
    case SetReset(k) => Rest(images, bound, k)
    case AwaitReset(k, p) => Rest(images, bound, k) - 1 - p
    case Copy(k, i, _) => Rest(images, bound, k + 1) + bound + 2 + (|images[k]| - i)
    case AwaitFinish(k, p) => Rest(images, bound, k + 1) + 1 + (bound - p)
    case ClearControl(k) => Rest(images, bound, k + 1) + 1
    case Compare(p) => bound - p
    case _ => 0
  }

  lemma HostMoveOnTime(images: seq<Code>, bound: nat, lag: nat, s: Boot)
    requires Configured(images, bound, s) && !Ended(s.pc)
    requires lag + 1 < bound && Prompt(lag, s) && OnTime(lag, s.pc)
    ensures var t := HostMove(images, bound, s);
            Configured(images, bound, t) && OnTime(lag, t.pc)
                && MovesLeft(images, bound, t) < MovesLeft(images, bound, s)
  {
  }

  lemma {:induction false} RunOnTime(images: seq<Code>, bound: nat, lag: nat, run: seq<Boot>, i: nat)
    requires IsRun(images, bound, run) && PromptRun(images, bound, lag, run) && lag + 1 < bound && i < |run|
    ensures OnTime(lag, run[i].pc)
    ensures HostMoves(run[..i + 1]) + MovesLeft(images, bound, run[i]) <= MovesLeft(images, bound, run[0])
  {
    if i == 0 {
      assert |run[..1]| == 1;
    } else {
      RunOnTime(images, bound, lag, run, i - 1);
      var s, s' := run[i - 1], run[i - 1 + 1];
      assert Next(images, bound, s, s');
      StepOnTime(images, bound, lag, s, s');
      HostMovesLast(run, i);
    }
  }

  lemma StepOnTime(images: seq<Code>, bound: nat, lag: nat, s: Boot, s': Boot)
    requires Configured(images, bound, s) && Configured(images, bound, s') && Next(images, bound, s, s')
    requires lag + 1 < bound && OnTime(lag, s.pc) && (HostStep(images, bound, s, s') ==> Prompt(lag, s))
    ensures OnTime(lag, s'.pc)
    ensures MovesLeft(images, bound, s') + (if s.pc != s'.pc then 1 else 0) <= MovesLeft(images, bound, s)
  {
    if HostStep(images, bound, s, s') {
      HostMoveOnTime(images, bound, lag, s);
    } else {
      assert s'.pc == s.pc;
    }
  }

  /** If each answer shows by the last but one sample that its poll may take, the boot loader cannot fail:
      it makes a bounded number of moves, it always has a next one until it has returned 0, and by
      then all three images have been taken. */
  lemma PromptDspBoots(images: seq<Code>, bound: nat, lag: nat, run: seq<Boot>)
    requires IsRun(images, bound, run) && PromptRun(images, bound, lag, run) && lag + 1 < bound
    ensures HostMoves(run) <= Rest(images, bound, 0) + bound
    ensures var last := run[|run| - 1];
            if Ended(last.pc) then Returns(last.pc, 0) && (!Ambiguous(run[0].status) ==> last.taken == images)
            else HostStep(images, bound, last, HostMove(images, bound, last))
  {
    var n := |run| - 1;
    RunOnTime(images, bound, lag, run, n);
    assert run[..n + 1] == run;
    forall j | 0 <= j < |run| && run[j].pc.Copy? ensures run[j].pc.answered {
      RunOnTime(images, bound, lag, run, j);
    }
    if !Ambiguous(run[0].status) {
      AnsweredMeansNoLapse(images, bound, run);
      RunKeepsInv(images, bound, run, n);
    }
  }

  // ----- what each poll does

  /** A poll takes one sample more exactly when the last one does not show what it waits for and it has
      samples left; meanwhile nothing else changes. */
  lemma PollGoesOnIff(images: seq<Code>, bound: nat, s: Boot)
    requires Configured(images, bound, s) && !Ended(s.pc)
    ensures s.pc.AwaitInit? ==>
              (HostMove(images, bound, s) == s.(pc := AwaitInit(s.pc.polls + 1))
               <==> !CommonBit(s.bootStatus, 0x1) && s.pc.polls + 1 < bound)
    ensures s.pc.AwaitReset? ==>
              (HostMove(images, bound, s) == s.(pc := AwaitReset(s.pc.core, s.pc.polls + 1))
               <==> !CommonBit(s.status, 0x1) && s.pc.polls + 1 < bound)
    ensures s.pc.AwaitFinish? ==>
              (HostMove(images, bound, s) == s.(pc := AwaitFinish(s.pc.core, s.pc.polls + 1))
               <==> !CommonBit(s.status, 0x10) && s.pc.polls + 1 < bound)
    ensures s.pc.Compare? ==>
              (HostMove(images, bound, s) == s.(pc := Compare(s.pc.polls + 1))
               <==> s.cores != 0x07 && s.pc.polls + 1 < bound)
  {
  }

  /** What the boot loader returns, and when: -2 when the RESET poll of core 0 or a FINISH poll fails, -4
      when the comparison fails, and 0 when it succeeds. A failing init poll, or RESET poll of
      core 1 or 2, ends nothing. */
  lemma ReturnsIff(images: seq<Code>, bound: nat, s: Boot)
    requires Configured(images, bound, s) && !Ended(s.pc)
    ensures Returns(HostMove(images, bound, s).pc, -2)
            <==> s.pc == AwaitReset(0, bound - 1) || (s.pc.AwaitFinish? && s.pc.polls == bound - 1)
    ensures Returns(HostMove(images, bound, s).pc, -4) <==> s.pc == Compare(bound - 1)
    ensures Returns(HostMove(images, bound, s).pc, 0)
            <==> s.pc.Compare? && s.pc.polls + 1 < bound && s.cores == 0x07
    ensures forall r: int :: Returns(HostMove(images, bound, s).pc, r) ==> r == 0 || r == -2 || r == -4
    ensures Ended(HostMove(images, bound, s).pc) ==> exists r: int :: Returns(HostMove(images, bound, s).pc, r)
  {
    var pc := HostMove(images, bound, s).pc;
    assert pc == Booted ==> Returns(pc, 0);
    assert pc.TimedOut? ==> Returns(pc, -2);
    assert pc == NoCores ==> Returns(pc, -4);
  }

  /** One sample later is too late: whatever the last sample shows, the poll has failed. */
  lemma LastSampleIsTooLate(images: seq<Code>, bound: nat, s: Boot)
    requires Configured(images, bound, s)
    ensures s.pc == AwaitReset(0, bound - 1) ==> HostMove(images, bound, s).pc == TimedOut(0, false)
    ensures s.pc.AwaitFinish? && s.pc.polls == bound - 1 ==> HostMove(images, bound, s).pc == TimedOut(s.pc.core, true)
    ensures s.pc == Compare(bound - 1) ==> HostMove(images, bound, s).pc == NoCores
  {
  }

  // ----- the status word left over from before

  // The host goes on by itself, on samples that all pass.
  lemma {:induction false} GoesOnAlone(images: seq<Code>, bound: nat, run: seq<Boot>) returns (more: seq<Boot>)
    requires IsRun(images, bound, run) && bound > 1 && Answered(run)
    requires forall i :: 0 <= i < |run| ==> Ambiguous(run[i].status) && run[i].taken == []
    requires var last := run[|run| - 1]; last.cores == ALL_CORES && OnTime(0, last.pc)
    ensures IsRun(images, bound, more) && more[0] == run[0] && Answered(more)
    ensures forall i :: 0 <= i < |more| ==> Ambiguous(more[i].status) && more[i].taken == []
    ensures Returns(more[|more| - 1].pc, 0)
    decreases MovesLeft(images, bound, run[|run| - 1])
  {
    var s := run[|run| - 1];
    if Ended(s.pc) {
      more := run;
    } else {
      HostMoveOnTime(images, bound, 0, s);
      more := GoesOnAlone(images, bound, run + [HostMove(images, bound, s)]);
    }
  }

  /** From every start with both bits in the status word the boot loader can return 0 although the DSP has
      done nothing, and every poll, checked or not, has succeeded. */
  lemma AmbiguousStartBootsUnseen(images: seq<Code>, bound: nat, s: Boot) returns (run: seq<Boot>)
    requires Start(s) && Configured(images, bound, s) && bound > 1 && Ambiguous(s.status)
    ensures IsRun(images, bound, run) && run[0] == s && NoLapse(run) && Answered(run)
    ensures var last := run[|run| - 1]; Returns(last.pc, 0) && last.taken == []
  {
    run := GoesOnAlone(images, bound, [s, s.(cores := ALL_CORES)]);
  }

  /** Result 0 of any run from s means that the DSP has taken all three images, if no lapse is made. */
  ghost predicate Sound(images: seq<Code>, bound: nat, s: Boot) {
    forall run: seq<Boot>, i: nat ::
      IsRun(images, bound, run) && run[0] == s && NoLapse(run) && i < |run| && Returns(run[i].pc, 0) ==>
        run[i].taken == images
  }

  /** The same, if every RESET poll is checked. */
  ghost predicate SoundIfChecked(images: seq<Code>, bound: nat, s: Boot) {
    forall run: seq<Boot>, i: nat ::
      IsRun(images, bound, run) && run[0] == s && Answered(run) && i < |run| && Returns(run[i].pc, 0) ==>
        run[i].taken == images
  }

  /** Both hold exactly when the status word does not start with both bits: checking the RESET poll is
      enough if and only if the word is known not to. */
  lemma SoundIffUnambiguous(images: seq<Code>, bound: nat, s: Boot)
    requires Start(s) && Configured(images, bound, s) && bound > 1
    ensures Sound(images, bound, s) <==> !Ambiguous(s.status)
    ensures SoundIfChecked(images, bound, s) <==> !Ambiguous(s.status)
  {
    if Ambiguous(s.status) {
      var run := AmbiguousStartBootsUnseen(images, bound, s);
      assert run[|run| - 1].taken != images;
    } else {
      forall run: seq<Boot>, i: nat | IsRun(images, bound, run) && run[0] == s && i < |run| && Returns(run[i].pc, 0)
        ensures NoLapse(run) ==> run[i].taken == images
        ensures Answered(run) ==> run[i].taken == images
      {
        if Answered(run) {
          AnsweredMeansNoLapse(images, bound, run);
        }
        if NoLapse(run) {
          BootedMeansAllTaken(images, bound, run, i);
        }
      }
    }
  }
}
