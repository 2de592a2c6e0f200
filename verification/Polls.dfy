/** Bounded polling of a word that the device may change between any two reads. */
module Polls {
  import opened Words32

  /** A device word: its k-th read returns samples(k), and only reading it counts. */
  class VolatileWord {
    const samples: nat -> Word
    var readCount: nat

    constructor (samples: nat -> Word)
      ensures this.samples == samples && readCount == 0
    {
      this.samples := samples;
      readCount := 0;
    }

    method Read() returns (v: Word)
      modifies this`readCount
      ensures v == samples(old(readCount)) && readCount == old(readCount) + 1
    {
      v := samples(readCount);
      readCount := readCount + 1;
    }
  }

  // ----- the generic search

  /** How many samples a poll of bound n takes when sample i passes the test iff hit(i), from sample i on. */
  function ReadsTaken(hit: nat -> bool, i: nat, n: nat): nat
    decreases n
  {
    if n == 0 then 0 else if hit(i) then 1 else 1 + ReadsTaken(hit, i + 1, n - 1)
  }

  /** 0 for a match, -1 for a timeout: the loop counter has also counted the matching read. */
  function PollResult(hit: nat -> bool, n: nat): int {
    if ReadsTaken(hit, 0, n) < n then 0 else -1
  }

  predicate HitAt(hit: nat -> bool, i: nat) {
    hit(i)
  }

  lemma {:induction false} ReadsStopAtFirstHit(hit: nat -> bool, i: nat, n: nat)
    ensures var r := ReadsTaken(hit, i, n);
            && r <= n
            && (forall k: nat :: i <= k < i + r - 1 ==> !HitAt(hit, k))
            && (r < n ==> r > 0 && HitAt(hit, i + r - 1))
            && (r == n > 0 && !HitAt(hit, i + n - 1) ==> forall k: nat :: i <= k < i + n ==> !HitAt(hit, k))
    decreases n
  {
    if n > 0 && !hit(i) {
      ReadsStopAtFirstHit(hit, i + 1, n - 1);
    }
  }

  lemma {:induction false} SameHits(hit1: nat -> bool, hit2: nat -> bool, i: nat, n: nat)
    requires forall k: nat :: hit1(k) == hit2(k)
    ensures ReadsTaken(hit1, i, n) == ReadsTaken(hit2, i, n)
    decreases n
  {
    if n > 0 {
      SameHits(hit1, hit2, i + 1, n - 1);
    }
  }

  /** A poll succeeds exactly when one of the first n - 1 samples passes: a match on the
      last permitted read is reported as a timeout. It never reads past the first match. */
  lemma PollExact(hit: nat -> bool, n: nat)
    ensures PollResult(hit, n) == 0 <==> exists k: nat :: k < n - 1 && HitAt(hit, k)
    ensures PollResult(hit, n) == 0 || PollResult(hit, n) == -1
    ensures ReadsTaken(hit, 0, n) <= n
    ensures forall k: nat :: k < ReadsTaken(hit, 0, n) - 1 ==> !HitAt(hit, k)
  {
    ReadsStopAtFirstHit(hit, 0, n);
    var r := ReadsTaken(hit, 0, n);
    if r < n {
      assert r - 1 < n - 1 && HitAt(hit, r - 1);
    }
  }

  // ----- the three polls are instances of it

  method PollEqualValue(address: VolatileWord, pollVal: Word, maxPollCount: nat) returns (retVal: int)
    requires maxPollCount < 0x1_0000_0000
    modifies address`readCount
    ensures var start := old(address.readCount);
            var hit := (i: nat) => address.samples(start + i) == pollVal;
            && retVal == PollResult(hit, maxPollCount)
            && address.readCount == start + ReadsTaken(hit, 0, maxPollCount)
  {
    ghost var start := address.readCount;
    ghost var hit := (i: nat) => address.samples(start + i) == pollVal;
    var loopCount, stopPoll := 0, 0;
    while loopCount < maxPollCount && stopPoll == 0
      invariant loopCount <= maxPollCount && address.readCount == start + loopCount
      invariant Pending(hit, loopCount, maxPollCount, stopPoll != 0)
    {
      var realTimeVal := address.Read();
      if realTimeVal == pollVal {
        stopPoll := 1;
      }
      loopCount := loopCount + 1;
    }
    retVal := if loopCount < maxPollCount then 0 else -1;
  }

  // After count reads, the poll still has its own future, or has just hit.
  ghost predicate Pending(hit: nat -> bool, count: nat, n: nat, stopped: bool)
    requires count <= n
  {
    ReadsTaken(hit, 0, n) == count + if stopped then 0 else ReadsTaken(hit, count, n - count)
  }

  lemma EqualPollDecides(address: VolatileWord, start: nat, pollVal: Word, n: nat)
    ensures var result := PollResult((i: nat) => address.samples(start + i) == pollVal, n);
            && (result == 0 || result == -1)
            && (result == 0 <==> exists j: nat :: start <= j && j + 1 < start + n && address.samples(j) == pollVal)
  {
    var hit := (i: nat) => address.samples(start + i) == pollVal;
    PollExact(hit, n);
    if k: nat :| k < n - 1 && HitAt(hit, k) {
      assert address.samples(start + k) == pollVal;
    }
    if j: nat :| start <= j && j + 1 < start + n && address.samples(j) == pollVal {
      assert HitAt(hit, j - start);
    }
  }

  method PollValue(address: VolatileWord, pollVal: Word, maxPollCount: nat) returns (retVal: int)
    requires maxPollCount < 0x1_0000_0000
    modifies address`readCount
    ensures var start := old(address.readCount);
            var hit := (i: nat) => CommonBit(address.samples(start + i), pollVal);
            && retVal == PollResult(hit, maxPollCount)
            && address.readCount == start + ReadsTaken(hit, 0, maxPollCount)
  {
    ghost var start := address.readCount;
    ghost var hit := (i: nat) => CommonBit(address.samples(start + i), pollVal);
    var loopCount, stopPoll := 0, 0;
    while loopCount < maxPollCount && stopPoll == 0
      invariant loopCount <= maxPollCount && address.readCount == start + loopCount
      invariant Pending(hit, loopCount, maxPollCount, stopPoll != 0)
    {
      var realTimeVal := address.Read();
      if CommonBit(realTimeVal, pollVal) {
        stopPoll := 1;
      }
      loopCount := loopCount + 1;
    }
    retVal := if loopCount < maxPollCount then 0 else -1;
  }

  // The test of a comparing poll: pass i compares the i-th samples of the two words, or two successive
  // samples where they are one and the same word.
  function Agreement(p: VolatileWord, q: VolatileWord, a: nat, b: nat): nat -> bool {
    (i: nat) =>
      if p == q then p.samples(a + 2 * i + 1) == p.samples(a + 2 * i)
      else q.samples(b + i) == p.samples(a + i)
  }

  lemma AgreesWithOther(p: VolatileWord, q: VolatileWord, a: nat, b: nat, n: nat)
    requires p != q
    ensures PollResult(Agreement(p, q, a, b), n) == 0
            <==> exists j: nat :: b <= j && j + 1 < b + n && q.samples(j) == p.samples(a + (j - b))
  {
    var hit := Agreement(p, q, a, b);
    PollExact(hit, n);
    if k: nat :| k < n - 1 && HitAt(hit, k) {
      assert q.samples(b + k) == p.samples(a + k);
    }
    if j: nat :| b <= j && j + 1 < b + n && q.samples(j) == p.samples(a + (j - b)) {
      assert HitAt(hit, j - b);
    }
  }

  lemma AgreesWithItself(p: VolatileWord, a: nat, n: nat)
    ensures PollResult(Agreement(p, p, a, a), n) == 0
            <==> exists j: nat :: a <= j && (j - a) % 2 == 0 && j + 2 < a + 2 * n && p.samples(j) == p.samples(j + 1)
  {
    var hit := Agreement(p, p, a, a);
    PollExact(hit, n);
    if k: nat :| k < n - 1 && HitAt(hit, k) {
      assert p.samples(a + 2 * k) == p.samples(a + 2 * k + 1);
    }
    if j: nat :| a <= j && (j - a) % 2 == 0 && j + 2 < a + 2 * n && p.samples(j) == p.samples(j + 1) {
      var k := (j - a) / 2;
      assert j == a + 2 * k && HitAt(hit, k);
    }
  }

  lemma AgreementDecides(p: VolatileWord, q: VolatileWord, a: nat, b: nat, n: nat)
    requires p == q ==> a == b
    ensures var result := PollResult(Agreement(p, q, a, b), n);
            && (result == 0 || result == -1)
            && (p != q ==>
                  (result == 0
                   <==> exists j: nat :: b <= j && j + 1 < b + n && q.samples(j) == p.samples(a + (j - b))))
            && (p == q ==>
                  (result == 0
                   <==> exists j: nat :: a <= j && (j - a) % 2 == 0 && j + 2 < a + 2 * n
                          && p.samples(j) == p.samples(j + 1)))
  {
    if p == q {
      AgreesWithItself(p, a, n);
    } else {
      AgreesWithOther(p, q, a, b, n);
    }
  }

  // One more pass, on the samples it takes.
  lemma AnotherPass(p: VolatileWord, q: VolatileWord, a: nat, b: nat, count: nat, n: nat, v: Word, w: Word)
    requires count < n && Pending(Agreement(p, q, a, b), count, n, false)
    requires p == q ==> v == p.samples(a + 2 * count) && w == p.samples(a + 2 * count + 1)
    requires p != q ==> v == p.samples(a + count) && w == q.samples(b + count)
    ensures Pending(Agreement(p, q, a, b), count + 1, n, v == w)
  {
  }

  // The passes of the polling loop: how many are made.
  method ComparePasses(p: VolatileWord, q: VolatileWord, maxPollCount: nat) returns (loopCount: nat)
    modifies p`readCount, q`readCount
    ensures loopCount == ReadsTaken(Agreement(p, q, old(p.readCount), old(q.readCount)), 0, maxPollCount)
    ensures p == q ==> p.readCount == old(p.readCount) + 2 * loopCount
    ensures p != q ==>
              p.readCount == old(p.readCount) + loopCount && q.readCount == old(q.readCount) + loopCount
  {
    ghost var a, b := p.readCount, q.readCount;
    loopCount := 0;
    var stopPoll := 0;
    while loopCount < maxPollCount && stopPoll == 0
      invariant loopCount <= maxPollCount
      invariant p == q ==> p.readCount == a + 2 * loopCount
      invariant p != q ==> p.readCount == a + loopCount && q.readCount == b + loopCount
      invariant Pending(Agreement(p, q, a, b), loopCount, maxPollCount, stopPoll != 0)
    {
      var setTimeVal := p.Read();
      var realTimeVal := q.Read();
      AnotherPass(p, q, a, b, loopCount, maxPollCount, setTimeVal, realTimeVal);
      if realTimeVal == setTimeVal {
        stopPoll := 1;
      }
      loopCount := loopCount + 1;
    }
  }

  /** Waits until the two words read the same: it returns 0 exactly when they do so in one of the first
      n - 1 passes. Where both pointers name one word, a pass takes two successive samples of it. */
  method PollCompareValue(p: VolatileWord, q: VolatileWord, maxPollCount: nat) returns (retVal: int)
    requires maxPollCount < 0x1_0000_0000
    modifies p`readCount, q`readCount
    ensures var taken := ReadsTaken(Agreement(p, q, old(p.readCount), old(q.readCount)), 0, maxPollCount);
            && (p == q ==> p.readCount == old(p.readCount) + 2 * taken)
            && (p != q ==> p.readCount == old(p.readCount) + taken && q.readCount == old(q.readCount) + taken)
    ensures retVal == 0 || retVal == -1
    ensures var a, b := old(p.readCount), old(q.readCount);
            p != q ==>
              (retVal == 0
               <==> exists j: nat :: b <= j && j + 1 < b + maxPollCount && q.samples(j) == p.samples(a + (j - b)))
    ensures var a := old(p.readCount);
            p == q ==>
              (retVal == 0
               <==> exists j: nat :: a <= j && (j - a) % 2 == 0 && j + 2 < a + 2 * maxPollCount
                      && p.samples(j) == p.samples(j + 1))
  {
    AgreementDecides(p, q, p.readCount, q.readCount, maxPollCount);
    var loopCount := ComparePasses(p, q, maxPollCount);
    retVal := if loopCount < maxPollCount then 0 else -1;
  }

  // ----- the same search taken one sample at a time, for use as a step of a protocol

  datatype Polling = Waiting(count: nat) | Finished(success: bool)

  function OnSample(readCount: nat, hit: bool, n: nat): Polling {
    if hit then Finished(readCount + 1 < n)
    else if readCount + 1 < n then Waiting(readCount + 1)
    else Finished(false)
  }

  predicate PollBySteps(hit: nat -> bool, readCount: nat, n: nat)
    requires readCount < n
    decreases n - readCount
  {
    match OnSample(readCount, hit(readCount), n)
    case Finished(success) => success
    case Waiting(next) => PollBySteps(hit, next, n)
  }

  /** Stepping sample by sample decides what the polling loop decides. */
  lemma {:induction false} StepsAgree(hit: nat -> bool, readCount: nat, n: nat)
    requires readCount < n
    ensures PollBySteps(hit, readCount, n) <==> readCount + ReadsTaken(hit, readCount, n - readCount) < n
    decreases n - readCount
  {
    if !hit(readCount) && readCount + 1 < n {
      StepsAgree(hit, readCount + 1, n);
    }
  }
}
