/** The four-phase handshake that carries one message at a time through a shared buffer, and the
    two instances of it that run side by side in the shared zone.

    Host and DSP are interleaved one word access at a time. The side that is not in this
    repository follows the contract in the comments of the shared header: the receiver answers
    RESET with RESET, and on FINISH reads the buffer and then answers FINISH. */
module Channel {
  import opened Words32
  import opened LinkLayer

  type Message = seq<Word>

  /** Where a channel lives in the zone, and the values of its two handshake words. */
  datatype Wiring = Wiring(senderWord: nat, receiverWord: nat, buffer: nat, length: nat,
                           senderReset: Word, senderFinish: Word, receiverReset: Word, receiverFinish: Word)

  predicate WellWired(c: Wiring) {
    && c.senderWord < ZONE_WORDS && c.receiverWord < ZONE_WORDS && c.senderWord != c.receiverWord
    && c.buffer + c.length <= ZONE_WORDS
    && !InBuffer(c, c.senderWord) && !InBuffer(c, c.receiverWord)
    && c.senderReset != c.senderFinish && c.receiverReset != c.receiverFinish
  }

  predicate InBuffer(c: Wiring, i: nat) {
    c.buffer <= i < c.buffer + c.length
  }

  predicate Uses(c: Wiring, i: nat) {
    i == c.senderWord || i == c.receiverWord || InBuffer(c, i)
  }

  /** PC to DSP: the host sends through the out buffer. */
  const WRITE_CHANNEL: Wiring := Wiring(
    WRITE_CONTROL, WRITE_STATUS, TABLE_WORDS, OUT_WORDS,
    PC_WT_RESET, PC_WT_FINISH, DSP_RD_RESET, DSP_RD_FINISH)

  /** DSP to PC: the DSP sends through the in buffer. */
  const READ_CHANNEL: Wiring := Wiring(
    READ_STATUS, READ_CONTROL, TABLE_WORDS + OUT_WORDS, IN_WORDS,
    DSP_WT_RESET, DSP_WT_FINISH, PC_RD_RESET, PC_RD_FINISH)

  /** The layout keeps the channels apart: the out buffer is the 8 KB behind the table, the in buffer the
      rest of the zone. */
  lemma ChannelsApart(i: nat)
    ensures WellWired(WRITE_CHANNEL) && WellWired(READ_CHANNEL)
    ensures !(Uses(WRITE_CHANNEL, i) && Uses(READ_CHANNEL, i))
    ensures InBuffer(WRITE_CHANNEL, i) <==> 0x800 <= i < 0x1000
    ensures InBuffer(READ_CHANNEL, i) <==> 0x1000 <= i < 0x10_0000
  {
  }

  /** The host's stores in both channels are the driver's commands, and the values it waits for are
      those that the queries poll for. */
  lemma HostMovesAreDriverCalls(zone: seq<Word>)
    requires |zone| == ZONE_WORDS
    ensures var c := WRITE_CHANNEL;
            && zone[c.senderWord := c.senderReset] == ControlStore(zone, WriteReset)
            && zone[c.senderWord := c.senderFinish] == ControlStore(zone, WriteFin)
            && c.receiverReset == ReadyValue(WriteQReset) && c.receiverFinish == ReadyValue(WriteQFin)
    ensures var c := READ_CHANNEL;
            && zone[c.receiverWord := c.receiverReset] == ControlStore(zone, ReadReset)
            && zone[c.receiverWord := c.receiverFinish] == ControlStore(zone, ReadFin)
            && c.senderReset == ReadyValue(ReadQReset) && c.senderFinish == ReadyValue(ReadQFin)
  {
  }

  // ----- the two ends

  datatype Sender = ToReset | AwaitReset | Writing(next: nat, message: Message) | AwaitFinish
  datatype Receiver = AwaitSenderReset | ToAnswer | AwaitSenderFinish | Reading(read: Message)

  /** How long the message in the buffer is, the applications tell each other outside the handshake. */
  datatype Ends = Ends(s: Sender, r: Receiver, length: nat, sent: seq<Message>, received: seq<Message>)

  predicate SenderStep(c: Wiring, z: seq<Word>, e: Ends, z': seq<Word>, e': Ends)
    requires WellWired(c) && |z| == ZONE_WORDS
  {
    match e.s
    case ToReset =>
      z' == z[c.senderWord := c.senderReset] && e' == e.(s := AwaitReset)
    case AwaitReset =>
      z' == z && z[c.receiverWord] == c.receiverReset
      && e'.s.Writing? && |e'.s.message| <= c.length && e' == e.(s := Writing(0, e'.s.message))
    case Writing(next, message) =>
      if next < c.length && next < |message|
      then z' == z[c.buffer + next := message[next]] && e' == e.(s := Writing(next + 1, message))
      else
        && z' == z[c.senderWord := c.senderFinish]
        && e' == e.(s := AwaitFinish, length := |message|, sent := e.sent + [message])
    case AwaitFinish =>
      z' == z && z[c.receiverWord] == c.receiverFinish && e' == e.(s := ToReset)
  }

  predicate ReceiverStep(c: Wiring, z: seq<Word>, e: Ends, z': seq<Word>, e': Ends)
    requires WellWired(c) && |z| == ZONE_WORDS
  {
    match e.r
    case AwaitSenderReset =>
      z' == z && z[c.senderWord] == c.senderReset && e' == e.(r := ToAnswer)
    case ToAnswer =>
      z' == z[c.receiverWord := c.receiverReset] && e' == e.(r := AwaitSenderFinish)
    case AwaitSenderFinish =>
      z' == z && z[c.senderWord] == c.senderFinish && e' == e.(r := Reading([]))
    case Reading(read) =>
      if |read| < e.length && |read| < c.length
      then z' == z && e' == e.(r := Reading(read + [z[c.buffer + |read|]]))
      else
        && z' == z[c.receiverWord := c.receiverFinish]
        && e' == e.(r := AwaitSenderReset, received := e.received + [read])
  }

  predicate ChannelStep(c: Wiring, z: seq<Word>, e: Ends, z': seq<Word>, e': Ends)
    requires WellWired(c) && |z| == ZONE_WORDS
  {
    SenderStep(c, z, e, z', e') || ReceiverStep(c, z, e, z', e')
  }

  const IDLE: Ends := Ends(ToReset, AwaitSenderReset, 0, [], [])

  // ----- the invariant

  function InFlight(e: Ends): seq<Message>
    requires |e.received| <= |e.sent|
  {
    e.sent[|e.received|..]
  }

  predicate Holds(c: Wiring, z: seq<Word>, message: Message)
    requires WellWired(c) && |z| == ZONE_WORDS
  {
    |message| <= c.length && z[c.buffer..c.buffer + |message|] == message
  }

  /** Everything sent is everything received and then at most one message, which the buffer holds. */
  predicate Inv(c: Wiring, z: seq<Word>, e: Ends)
    requires WellWired(c) && |z| == ZONE_WORDS
  {
    && e.received <= e.sent
    && match e.s
       case ToReset =>
         e.received == e.sent && !e.r.Reading?
         && (z[c.senderWord] == c.senderFinish ==> e.r == AwaitSenderReset)
       case AwaitReset =>
         e.received == e.sent && !e.r.Reading? && z[c.senderWord] == c.senderReset
       case Writing(next, message) =>
         e.received == e.sent && !e.r.Reading? && z[c.senderWord] == c.senderReset
             && z[c.receiverWord] == c.receiverReset
         && next <= |message| <= c.length && z[c.buffer..c.buffer + next] == message[..next]
       case AwaitFinish =>
         z[c.senderWord] == c.senderFinish
         && if e.received == e.sent then e.r == AwaitSenderReset
            else
              && |e.sent| == |e.received| + 1 && z[c.receiverWord] == c.receiverReset
              && Holds(c, z, e.sent[|e.received|]) && e.length == |e.sent[|e.received|]|
              && (e.r.Reading? ==> e.r.read <= e.sent[|e.received|])
  }

  lemma SenderKeepsInv(c: Wiring, z: seq<Word>, e: Ends, z': seq<Word>, e': Ends)
    requires WellWired(c) && |z| == ZONE_WORDS && Inv(c, z, e) && SenderStep(c, z, e, z', e')
    ensures |z'| == ZONE_WORDS && Inv(c, z', e')
  {
    if e.s.Writing? {
      var n, m := e.s.next, e.s.message;
      if n < |m| {
        assert z'[c.buffer..c.buffer + n + 1] == z[c.buffer..c.buffer + n] + [m[n]];
        assert m[..n + 1] == m[..n] + [m[n]];
      } else {
        assert m[..n] == m && z'[c.buffer..c.buffer + n] == z[c.buffer..c.buffer + n];
      }
    }
  }

  lemma ReceiverKeepsInv(c: Wiring, z: seq<Word>, e: Ends, z': seq<Word>, e': Ends)
    requires WellWired(c) && |z| == ZONE_WORDS && Inv(c, z, e) && ReceiverStep(c, z, e, z', e')
    ensures |z'| == ZONE_WORDS && Inv(c, z', e')
  {
    assert z'[c.buffer..c.buffer + c.length] == z[c.buffer..c.buffer + c.length];
    if e.s.Writing? {
      assert z'[c.buffer..c.buffer + e.s.next] == z[c.buffer..c.buffer + e.s.next];
    }
    if e.r.Reading? {
      var k, m := |e.r.read|, e.sent[|e.received|];
      if k < e.length {
        assert z[c.buffer + k] == z[c.buffer..c.buffer + |m|][k] == m[k];
        assert m[..k + 1] == m[..k] + [m[k]];
      } else {
        assert e.r.read == m;
        assert e.received + [m] == e.sent;
      }
    }
  }

  // ----- both channels at once

  datatype State = State(zone: seq<Word>, write: Ends, read: Ends)

  /** Any other access to the zone: words that neither channel uses may change at will. */
  predicate OtherStep(cw: Wiring, cr: Wiring, s: State, s': State)
    requires |s.zone| == ZONE_WORDS
  {
    && |s'.zone| == ZONE_WORDS && s'.write == s.write && s'.read == s.read
    && forall i :: 0 <= i < ZONE_WORDS && (Uses(cw, i) || Uses(cr, i)) ==> s'.zone[i] == s.zone[i]
  }

  predicate Next(cw: Wiring, cr: Wiring, s: State, s': State)
    requires WellWired(cw) && WellWired(cr) && |s.zone| == ZONE_WORDS
  {
    || (ChannelStep(cw, s.zone, s.write, s'.zone, s'.write) && s'.read == s.read)
    || (ChannelStep(cr, s.zone, s.read, s'.zone, s'.read) && s'.write == s.write)
    || OtherStep(cw, cr, s, s')
  }

  /** A run of the two channels, from any contents of the zone. */
  predicate IsRun(run: seq<State>) {
    && |run| > 0 && (forall i :: 0 <= i < |run| ==> |run[i].zone| == ZONE_WORDS)
    && run[0].write == IDLE && run[0].read == IDLE
    && forall i :: 0 <= i < |run| - 1 ==> Next(WRITE_CHANNEL, READ_CHANNEL, run[i], run[i + 1])
  }

  predicate BothInv(s: State) {
    |s.zone| == ZONE_WORDS && Inv(WRITE_CHANNEL, s.zone, s.write) && Inv(READ_CHANNEL, s.zone, s.read)
  }

  // A step of anything that leaves a channel's words alone leaves its invariant alone.
  lemma InvFramed(c: Wiring, z: seq<Word>, z': seq<Word>, e: Ends)
    requires WellWired(c) && |z| == ZONE_WORDS && |z'| == ZONE_WORDS && Inv(c, z, e)
    requires forall i :: 0 <= i < ZONE_WORDS && Uses(c, i) ==> z'[i] == z[i]
    ensures Inv(c, z', e)
  {
  }

  lemma StepWritesOwnWords(c: Wiring, z: seq<Word>, e: Ends, z': seq<Word>, e': Ends, i: nat)
    requires WellWired(c) && |z| == ZONE_WORDS && ChannelStep(c, z, e, z', e')
    requires i < ZONE_WORDS && !Uses(c, i)
    ensures |z'| == ZONE_WORDS && z'[i] == z[i]
  {
  }

  lemma ChannelKeepsOther(c: Wiring, other: Wiring, z: seq<Word>, e: Ends, z': seq<Word>, e': Ends, o: Ends)
    requires WellWired(c) && WellWired(other) && |z| == ZONE_WORDS && ChannelStep(c, z, e, z', e')
    requires forall i: nat :: !(Uses(c, i) && Uses(other, i))
    requires Inv(c, z, e) && Inv(other, z, o)
    ensures |z'| == ZONE_WORDS && Inv(c, z', e') && Inv(other, z', o)
  {
    if SenderStep(c, z, e, z', e') {
      SenderKeepsInv(c, z, e, z', e');
    } else {
      ReceiverKeepsInv(c, z, e, z', e');
    }
    forall i | 0 <= i < ZONE_WORDS && Uses(other, i) ensures z'[i] == z[i] {
      StepWritesOwnWords(c, z, e, z', e', i);
    }
    InvFramed(other, z, z', o);
  }

  lemma NextKeepsBoth(s: State, s': State)
    requires BothInv(s)
    requires Next(WRITE_CHANNEL, READ_CHANNEL, s, s')
    ensures BothInv(s')
  {
    var cw, cr := WRITE_CHANNEL, READ_CHANNEL;
    forall i: nat ensures !(Uses(cw, i) && Uses(cr, i)) { ChannelsApart(i); }
    if ChannelStep(cw, s.zone, s.write, s'.zone, s'.write) && s'.read == s.read {
      ChannelKeepsOther(cw, cr, s.zone, s.write, s'.zone, s'.write, s.read);
    } else if ChannelStep(cr, s.zone, s.read, s'.zone, s'.read) && s'.write == s.write {
      ChannelKeepsOther(cr, cw, s.zone, s.read, s'.zone, s'.read, s.write);
    } else {
      InvFramed(cw, s.zone, s'.zone, s.write);
      InvFramed(cr, s.zone, s'.zone, s.read);
    }
  }

  lemma {:induction false} RunKeepsInv(run: seq<State>, i: nat)
    requires IsRun(run) && i < |run|
    ensures BothInv(run[i])
  {
    if i > 0 {
      RunKeepsInv(run, i - 1);
      assert Next(WRITE_CHANNEL, READ_CHANNEL, run[i - 1], run[i - 1 + 1]);
      NextKeepsBoth(run[i - 1], run[i]);
    }
  }

  // ----- what the runs guarantee

  /** In every state of every run, on each channel separately: what was sent is what was received,
      followed by at most one message still in flight. */
  lemma NothingLostOrDoubled(run: seq<State>, i: nat)
    requires IsRun(run) && i < |run|
    ensures forall e <- [run[i].write, run[i].read] ::
              e.received <= e.sent && |e.sent| <= |e.received| + 1 && e.sent == e.received + InFlight(e)
  {
    RunKeepsInv(run, i);
  }

  /** In every state of every run, nobody writes a buffer while the other side reads it: a sender writes
      under its own RESET, and a receiver reads under the sender's FINISH, which alone entitles it to. */
  lemma BuffersNeverShared(run: seq<State>, i: nat)
    requires IsRun(run) && i < |run|
    ensures !(run[i].write.s.Writing? && run[i].write.r.Reading?)
    ensures !(run[i].read.s.Writing? && run[i].read.r.Reading?)
    ensures run[i].write.s.Writing? ==> run[i].zone[WRITE_CONTROL] == PC_WT_RESET
    ensures run[i].write.r.Reading? ==> run[i].zone[WRITE_CONTROL] == PC_WT_FINISH
    ensures run[i].read.s.Writing? ==> run[i].zone[READ_STATUS] == DSP_WT_RESET
    ensures run[i].read.r.Reading? ==> run[i].zone[READ_STATUS] == DSP_WT_FINISH
  {
    RunKeepsInv(run, i);
  }

  /** The abstract one-place queue: put when empty, get the head, or nothing. */
  predicate QueueStep(q: seq<Message>, got: seq<Message>, q': seq<Message>, got': seq<Message>) {
    || (q' == q && got' == got)
    || (q == [] && |q'| == 1 && got' == got)
    || (|q| == 1 && q' == [] && got' == got + q)
  }

  lemma ChannelRefinesQueue(c: Wiring, z: seq<Word>, e: Ends, z': seq<Word>, e': Ends)
    requires WellWired(c) && |z| == ZONE_WORDS && Inv(c, z, e) && ChannelStep(c, z, e, z', e')
    ensures |e'.received| <= |e'.sent|
    ensures QueueStep(InFlight(e), e.received, InFlight(e'), e'.received)
  {
    if SenderStep(c, z, e, z', e') {
      SenderKeepsInv(c, z, e, z', e');
      if e.s.Writing? && e'.s == AwaitFinish {
        assert InFlight(e') == [e.s.message];
      }
    } else {
      ReceiverKeepsInv(c, z, e, z', e');
      if e.r.Reading? && e'.r == AwaitSenderReset {
        assert InFlight(e) == [e.sent[|e.received|]] && e.r.read == e.sent[|e.received|];
      }
    }
  }

  /** Every step of the two channels is a step of a one-place queue on each of them. */
  lemma RunRefinesQueues(run: seq<State>, i: nat)
    requires IsRun(run) && i + 1 < |run|
    ensures var s, s' := run[i], run[i + 1];
            && |s.write.received| <= |s.write.sent| && |s'.write.received| <= |s'.write.sent|
            && |s.read.received| <= |s.read.sent| && |s'.read.received| <= |s'.read.sent|
            && QueueStep(InFlight(s.write), s.write.received, InFlight(s'.write), s'.write.received)
            && QueueStep(InFlight(s.read), s.read.received, InFlight(s'.read), s'.read.received)
  {
    RunKeepsInv(run, i);
    var cw, cr, s, s' := WRITE_CHANNEL, READ_CHANNEL, run[i], run[i + 1];
    assert Next(cw, cr, s, s');
    if ChannelStep(cw, s.zone, s.write, s'.zone, s'.write) && s'.read == s.read {
      ChannelRefinesQueue(cw, s.zone, s.write, s'.zone, s'.write);
    } else if ChannelStep(cr, s.zone, s.read, s'.zone, s'.read) && s'.write == s.write {
      ChannelRefinesQueue(cr, s.zone, s.read, s'.zone, s'.read);
    }
  }

  // ----- when a channel can get stuck

  /** Nothing either end waits for is there. */
  ghost predicate Stuck(c: Wiring, z: seq<Word>, e: Ends)
    requires WellWired(c) && |z| == ZONE_WORDS
  {
    forall z': seq<Word>, e': Ends :: !ChannelStep(c, z, e, z', e')
  }

  /** RESET in the receiver's word means that the receiver has answered and not finished. */
  predicate Fresh(c: Wiring, z: seq<Word>, e: Ends)
    requires WellWired(c) && |z| == ZONE_WORDS
  {
    && (z[c.receiverWord] == c.receiverReset <==> e.r == AwaitSenderFinish || e.r.Reading?)
    && (e.s == AwaitFinish && e.received == e.sent ==> z[c.receiverWord] == c.receiverFinish)
  }

  lemma StepKeepsFresh(c: Wiring, z: seq<Word>, e: Ends, z': seq<Word>, e': Ends)
    requires WellWired(c) && |z| == ZONE_WORDS && Inv(c, z, e) && Fresh(c, z, e) && ChannelStep(c, z, e, z', e')
    ensures |z'| == ZONE_WORDS && Fresh(c, z', e')
  {
  }

  function SenderMove(c: Wiring, z: seq<Word>, e: Ends): (seq<Word>, Ends)
    requires WellWired(c) && |z| == ZONE_WORDS
  {
    match e.s
    case ToReset => (z[c.senderWord := c.senderReset], e.(s := AwaitReset))
    case AwaitReset => (z, e.(s := Writing(0, [])))
    case Writing(next, message) =>
      if next < c.length && next < |message|
      then (z[c.buffer + next := message[next]], e.(s := Writing(next + 1, message)))
      else (z[c.senderWord := c.senderFinish], e.(s := AwaitFinish, length := |message|, sent := e.sent + [message]))
    case AwaitFinish => (z, e.(s := ToReset))
  }

  function ReceiverMove(c: Wiring, z: seq<Word>, e: Ends): (seq<Word>, Ends)
    requires WellWired(c) && |z| == ZONE_WORDS
  {
    match e.r
    case AwaitSenderReset => (z, e.(r := ToAnswer))
    case ToAnswer => (z[c.receiverWord := c.receiverReset], e.(r := AwaitSenderFinish))
    case AwaitSenderFinish => (z, e.(r := Reading([])))
    case Reading(read) =>
      if |read| < e.length && |read| < c.length then (z, e.(r := Reading(read + [z[c.buffer + |read|]])))
      else (z[c.receiverWord := c.receiverFinish], e.(r := AwaitSenderReset, received := e.received + [read]))
  }

  ghost predicate SenderMayMove(c: Wiring, z: seq<Word>, e: Ends)
    requires WellWired(c) && |z| == ZONE_WORDS
  {
    exists z': seq<Word>, e': Ends :: SenderStep(c, z, e, z', e')
  }

  ghost predicate ReceiverMayMove(c: Wiring, z: seq<Word>, e: Ends)
    requires WellWired(c) && |z| == ZONE_WORDS
  {
    exists z': seq<Word>, e': Ends :: ReceiverStep(c, z, e, z', e')
  }

  /** The host's waits are the driver's queries: a waiting host moves on exactly when a sample of the
      status word shows what its query polls for, and stays where it is on every other sample. */
  lemma HostWaitsAreQueries(z: seq<Word>, e: Ends)
    requires |z| == ZONE_WORDS
    ensures e.s == AwaitReset ==> (SenderMayMove(WRITE_CHANNEL, z, e) <==> z[WRITE_STATUS] == ReadyValue(WriteQReset))
    ensures e.s == AwaitFinish ==> (SenderMayMove(WRITE_CHANNEL, z, e) <==> z[WRITE_STATUS] == ReadyValue(WriteQFin))
    ensures e.r == AwaitSenderReset ==>
              (ReceiverMayMove(READ_CHANNEL, z, e) <==> z[READ_STATUS] == ReadyValue(ReadQReset))
    ensures e.r == AwaitSenderFinish ==>
              (ReceiverMayMove(READ_CHANNEL, z, e) <==> z[READ_STATUS] == ReadyValue(ReadQFin))
  {
    var s, r := SenderMove(WRITE_CHANNEL, z, e), ReceiverMove(READ_CHANNEL, z, e);
    if e.s == AwaitReset && z[WRITE_STATUS] == ReadyValue(WriteQReset) {
      assert SenderStep(WRITE_CHANNEL, z, e, s.0, s.1);
    }
    if e.s == AwaitFinish && z[WRITE_STATUS] == ReadyValue(WriteQFin) {
      assert SenderStep(WRITE_CHANNEL, z, e, s.0, s.1);
    }
    if e.r == AwaitSenderReset && z[READ_STATUS] == ReadyValue(ReadQReset) {
      assert ReceiverStep(READ_CHANNEL, z, e, r.0, r.1);
    }
    if e.r == AwaitSenderFinish && z[READ_STATUS] == ReadyValue(ReadQFin) {
      assert ReceiverStep(READ_CHANNEL, z, e, r.0, r.1);
    }
  }

  /** As long as RESET in the receiver's word is fresh, some step is always possible. */
  lemma FreshNeverStuck(c: Wiring, z: seq<Word>, e: Ends)
    requires WellWired(c) && |z| == ZONE_WORDS && Inv(c, z, e) && Fresh(c, z, e)
    ensures !Stuck(c, z, e)
  {
    var s, r := SenderMove(c, z, e), ReceiverMove(c, z, e);
    assert ChannelStep(c, z, e, s.0, s.1) || ChannelStep(c, z, e, r.0, r.1);
  }

  ghost predicate Reaches(c: Wiring, z: seq<Word>, e: Ends, n: nat, z': seq<Word>, e': Ends)
    requires WellWired(c) && |z| == ZONE_WORDS
    decreases n
  {
    if n == 0 then z' == z && e' == e
    else
      exists z1: seq<Word>, e1: Ends ::
        && ChannelStep(c, z, e, z1, e1) && |z1| == ZONE_WORDS
        && Reaches(c, z1, e1, n - 1, z', e')
  }

  ghost predicate CanGetStuck(c: Wiring, z: seq<Word>, e: Ends)
    requires WellWired(c) && |z| == ZONE_WORDS
  {
    exists n: nat, z': seq<Word>, e': Ends :: Reaches(c, z, e, n, z', e') && |z'| == ZONE_WORDS && Stuck(c, z', e')
  }

  lemma StepTowardsStuck(c: Wiring, z: seq<Word>, e: Ends, z1: seq<Word>, e1: Ends)
    requires WellWired(c) && |z| == ZONE_WORDS && |z1| == ZONE_WORDS
    requires ChannelStep(c, z, e, z1, e1) && CanGetStuck(c, z1, e1)
    ensures CanGetStuck(c, z, e)
  {
    var n: nat, z': seq<Word>, e': Ends :| Reaches(c, z1, e1, n, z', e') && |z'| == ZONE_WORDS && Stuck(c, z', e');
    assert Reaches(c, z, e, n + 1, z', e');
  }

  lemma {:induction false} StaleWhileWriting(c: Wiring, z: seq<Word>, e: Ends)
    requires WellWired(c) && |z| == ZONE_WORDS
    requires e.s.Writing? && e.s.next <= |e.s.message| <= c.length && e.r == AwaitSenderReset
    requires z[c.receiverWord] == c.receiverReset
    ensures CanGetStuck(c, z, e)
    decreases |e.s.message| - e.s.next
  {
    var (z1, e1) := SenderMove(c, z, e);
    assert SenderStep(c, z, e, z1, e1);
    if e.s.next < |e.s.message| {
      StaleWhileWriting(c, z1, e1);
    } else {
      assert Stuck(c, z1, e1);
      assert Reaches(c, z1, e1, 0, z1, e1);
    }
    StepTowardsStuck(c, z, e, z1, e1);
  }

  lemma {:induction false} FreshForEver(c: Wiring, z: seq<Word>, e: Ends, n: nat, z': seq<Word>, e': Ends)
    requires WellWired(c) && |z| == ZONE_WORDS && Inv(c, z, e) && Fresh(c, z, e) && Reaches(c, z, e, n, z', e')
    ensures |z'| == ZONE_WORDS && Inv(c, z', e') && Fresh(c, z', e')
    decreases n
  {
    if n > 0 {
      var z1: seq<Word>, e1: Ends :| ChannelStep(c, z, e, z1, e1) && |z1| == ZONE_WORDS
          && Reaches(c, z1, e1, n - 1, z', e');
      StepKeepsFresh(c, z, e, z1, e1);
      if SenderStep(c, z, e, z1, e1) {
        SenderKeepsInv(c, z, e, z1, e1);
      } else {
        ReceiverKeepsInv(c, z, e, z1, e1);
      }
      FreshForEver(c, z1, e1, n - 1, z', e');
    }
  }

  /** A freshly opened channel can get stuck exactly when RESET already stands in the receiver's
      word: the sender then takes the stale word for an answer and runs past the receiver. */
  lemma StuckIffStale(c: Wiring, z: seq<Word>)
    requires WellWired(c) && |z| == ZONE_WORDS
    ensures CanGetStuck(c, z, IDLE) <==> z[c.receiverWord] == c.receiverReset
  {
    if z[c.receiverWord] == c.receiverReset {
      var (z1, e1) := SenderMove(c, z, IDLE);
      var (z2, e2) := SenderMove(c, z1, e1);
      StaleWhileWriting(c, z2, e2);
      StepTowardsStuck(c, z1, e1, z2, e2);
      StepTowardsStuck(c, z, IDLE, z1, e1);
    } else if CanGetStuck(c, z, IDLE) {
      var n: nat, z': seq<Word>, e': Ends :| Reaches(c, z, IDLE, n, z', e') && |z'| == ZONE_WORDS && Stuck(c, z', e');
      FreshForEver(c, z, IDLE, n, z', e');
      FreshNeverStuck(c, z', e');
    }
  }

  // ----- messages get through

  ghost predicate CanReach(c: Wiring, z: seq<Word>, e: Ends, z': seq<Word>, e': Ends)
    requires WellWired(c) && |z| == ZONE_WORDS
  {
    |z'| == ZONE_WORDS && exists n: nat :: Reaches(c, z, e, n, z', e')
  }

  lemma Stays(c: Wiring, z: seq<Word>, e: Ends)
    requires WellWired(c) && |z| == ZONE_WORDS
    ensures CanReach(c, z, e, z, e)
  {
    assert Reaches(c, z, e, 0, z, e);
  }

  lemma StepThen(c: Wiring, z: seq<Word>, e: Ends, z1: seq<Word>, e1: Ends, z': seq<Word>, e': Ends)
    requires WellWired(c) && |z| == ZONE_WORDS && |z1| == ZONE_WORDS
    requires ChannelStep(c, z, e, z1, e1) && CanReach(c, z1, e1, z', e')
    ensures CanReach(c, z, e, z', e')
  {
    var n: nat :| Reaches(c, z1, e1, n, z', e');
    assert Reaches(c, z, e, n + 1, z', e');
  }

  lemma {:induction false} ReachThen(
      c: Wiring, z: seq<Word>, e: Ends, n: nat, z1: seq<Word>, e1: Ends, z': seq<Word>, e': Ends)
    requires WellWired(c) && |z| == ZONE_WORDS && |z1| == ZONE_WORDS
    requires Reaches(c, z, e, n, z1, e1) && CanReach(c, z1, e1, z', e')
    ensures CanReach(c, z, e, z', e')
    decreases n
  {
    if n > 0 {
      var z2: seq<Word>, e2: Ends :|
        ChannelStep(c, z, e, z2, e2) && |z2| == ZONE_WORDS && Reaches(c, z2, e2, n - 1, z1, e1);
      ReachThen(c, z2, e2, n - 1, z1, e1, z', e');
      StepThen(c, z, e, z2, e2, z', e');
    }
  }

  // The receiver reads the rest of the message in and answers FINISH, and the sender sees that.
  lemma {:induction false} ReadsIn(c: Wiring, z: seq<Word>, e: Ends, m: Message) returns (z': seq<Word>, e': Ends)
    requires WellWired(c) && |z| == ZONE_WORDS && Holds(c, z, m) && e.length == |m|
    requires e.s == AwaitFinish && e.r.Reading? && e.r.read <= m
    ensures CanReach(c, z, e, z', e')
    ensures e' == e.(s := ToReset, r := AwaitSenderReset, received := e.received + [m])
    decreases |m| - |e.r.read|
  {
    var (z1, e1) := ReceiverMove(c, z, e);
    var k := |e.r.read|;
    if k < |m| {
      assert z[c.buffer + k] == z[c.buffer..c.buffer + |m|][k] == m[k];
      assert m[..k + 1] == m[..k] + [m[k]];
      z', e' := ReadsIn(c, z1, e1, m);
    } else {
      assert e.r.read == m;
      z', e' := z1, e1.(s := ToReset);
      Stays(c, z', e');
      assert SenderStep(c, z1, e1, z', e');
      StepThen(c, z1, e1, z', e', z', e');
    }
    assert ReceiverStep(c, z, e, z1, e1);
    StepThen(c, z, e, z1, e1, z', e');
  }

  // The sender writes the rest of the message out and stores FINISH, and the receiver takes it.
  lemma {:induction false} WritesOut(c: Wiring, z: seq<Word>, e: Ends, m: Message) returns (z': seq<Word>, e': Ends)
    requires WellWired(c) && |z| == ZONE_WORDS && |m| <= c.length
    requires e.s.Writing? && e.s.message == m && e.s.next <= |m| && e.r == AwaitSenderFinish
    requires z[c.buffer..c.buffer + e.s.next] == m[..e.s.next]
    ensures CanReach(c, z, e, z', e')
    ensures e' == Ends(ToReset, AwaitSenderReset, |m|, e.sent + [m], e.received + [m])
    decreases |m| - e.s.next
  {
    var (z1, e1) := SenderMove(c, z, e);
    var k := e.s.next;
    if k < |m| {
      assert z1[c.buffer..c.buffer + k + 1] == z[c.buffer..c.buffer + k] + [m[k]];
      assert m[..k + 1] == m[..k] + [m[k]];
      z', e' := WritesOut(c, z1, e1, m);
    } else {
      assert z1[c.buffer..c.buffer + k] == z[c.buffer..c.buffer + k] && m[..k] == m;
      z', e' := ReadsIn(c, z1, e1.(r := Reading([])), m);
      assert ReceiverStep(c, z1, e1, z1, e1.(r := Reading([])));
      StepThen(c, z1, e1, z1, e1.(r := Reading([])), z', e');
    }
    assert SenderStep(c, z, e, z1, e1);
    StepThen(c, z, e, z1, e1, z', e');
  }

  /** Any message that fits the buffer gets through, whatever the zone holds, and both ends are then where
      they were. */
  lemma Delivers(c: Wiring, z: seq<Word>, e: Ends, m: Message) returns (z': seq<Word>, e': Ends)
    requires WellWired(c) && |z| == ZONE_WORDS && |m| <= c.length
    requires e.s == ToReset && e.r == AwaitSenderReset
    ensures CanReach(c, z, e, z', e')
    ensures e' == Ends(ToReset, AwaitSenderReset, |m|, e.sent + [m], e.received + [m])
  {
    var z1, e1 := z[c.senderWord := c.senderReset], e.(s := AwaitReset);
    var e2 := e1.(r := ToAnswer);
    var z3, e3 := z1[c.receiverWord := c.receiverReset], e2.(r := AwaitSenderFinish);
    var e4 := e3.(s := Writing(0, m));
    z', e' := WritesOut(c, z3, e4, m);
    assert SenderStep(c, z3, e3, z3, e4);
    StepThen(c, z3, e3, z3, e4, z', e');
    assert ReceiverStep(c, z1, e2, z3, e3);
    StepThen(c, z1, e2, z3, e3, z', e');
    assert ReceiverStep(c, z1, e1, z1, e2);
    StepThen(c, z1, e1, z1, e2, z', e');
    assert SenderStep(c, z, e, z1, e1);
    StepThen(c, z, e, z1, e1, z', e');
  }

  /** So does any sequence of such messages, in order. */
  lemma {:induction false} DeliversAll(c: Wiring, z: seq<Word>, e: Ends, ms: seq<Message>)
    returns (z': seq<Word>, e': Ends)
    requires WellWired(c) && |z| == ZONE_WORDS && forall m <- ms :: |m| <= c.length
    requires e.s == ToReset && e.r == AwaitSenderReset
    ensures CanReach(c, z, e, z', e')
    ensures e'.sent == e.sent + ms && e'.received == e.received + ms
    ensures e'.s == ToReset && e'.r == AwaitSenderReset
    decreases |ms|
  {
    if |ms| == 0 {
      z', e' := z, e;
      Stays(c, z, e);
    } else {
      var z1, e1 := Delivers(c, z, e, ms[0]);
      z', e' := DeliversAll(c, z1, e1, ms[1..]);
      var n: nat :| Reaches(c, z, e, n, z1, e1);
      ReachThen(c, z, e, n, z1, e1, z', e');
      assert [ms[0]] + ms[1..] == ms;
    }
  }
}
