/** What the upload leaves in the device's memories. */
module UploadProperties {
  import opened Words32
  import opened BootImage
  import opened Uploader

  // ----- the reference: every word of a section sent on its own

  function WordStores(core: nat, address: Word, words: seq<Word>): seq<Store>
    decreases |words|
  {
    if |words| == 0 then []
    else Transfer(core, address, [words[0]]) + WordStores(core, (address + 4) % 0x1_0000_0000, words[1..])
  }

  function Span(r: Region): nat {
    match r case L2 => 0x100_0000 case Msmc => 0x1_0000_0000 case Ddr => 0x1_0000_0000
  }

  /** The block reaches over the start of its region or over the end of the masked address range. */
  predicate Straddles(r: Region, address: Word, n: nat) {
    var m := Masked(r, address);
    n > 0 && (m < Start(r) <= m + 4 * (n - 1) || (Start(r) <= m && Span(r) <= m + 4 * (n - 1)))
  }

  predicate NoBlockStraddles(r: Region, address: Word, words: seq<Word>)
    decreases |words|
  {
    if |words| < 64 then !Straddles(r, address, |words|)
    else !Straddles(r, address, 64) && NoBlockStraddles(r, (address + 0x100) % 0x1_0000_0000, words[64..])
  }

  lemma MaskedAdvance(r: Region, address: Word, k: nat)
    requires k <= 0x100
    ensures var m := Masked(r, address);
            Masked(r, (address + k) % 0x1_0000_0000) == if m + k < Span(r) then m + k else m + k - Span(r)
  {
  }

  lemma TransferOne(core: nat, r: Region, address: Word, w: Word)
    requires RegionOf(core) == Some(r)
    ensures Transfer(core, address, [w])
         == if Masked(r, address) < Start(r) then [] else [Store(r, (Masked(r, address) - Start(r)) / 4, w)]
  {
  }

  // The stores of a run, the first one set apart.
  lemma RunByWord(core: nat, r: Region, address: Word, words: seq<Word>, first: nat, rest: seq<Store>)
    requires RegionOf(core) == Some(r) && Start(r) <= Masked(r, address) && |words| > 0
    requires first == (Masked(r, address) - Start(r)) / 4 && rest == RunOfStores(r, first + 1, words[1..])
    ensures RunOfStores(r, first, words) == Transfer(core, address, [words[0]]) + rest
  {
    TransferOne(core, r, address, words[0]);
  }

  lemma {:induction false} WordsInside(core: nat, r: Region, address: Word, words: seq<Word>)
    requires RegionOf(core) == Some(r) && Start(r) <= Masked(r, address)
    requires |words| > 0 ==> Masked(r, address) + 4 * (|words| - 1) < Span(r)
    ensures WordStores(core, address, words) == RunOfStores(r, (Masked(r, address) - Start(r)) / 4, words)
    decreases |words|
  {
    if |words| > 0 {
      var next, first := (address + 4) % 0x1_0000_0000, (Masked(r, address) - Start(r)) / 4;
      var rest := RunOfStores(r, first + 1, words[1..]);
      if |words| > 1 {
        MaskedAdvance(r, address, 4);
        WordsInside(core, r, next, words[1..]);
      }
      assert WordStores(core, next, words[1..]) == rest;
      RunByWord(core, r, address, words, first, rest);
    }
  }

  lemma {:induction false} WordsBelow(core: nat, r: Region, address: Word, words: seq<Word>)
    requires RegionOf(core) == Some(r)
    requires |words| > 0 ==> Masked(r, address) + 4 * (|words| - 1) < Start(r)
    ensures WordStores(core, address, words) == []
    decreases |words|
  {
    if |words| > 0 {
      TransferOne(core, r, address, words[0]);
      MaskedAdvance(r, address, 4);
      WordsBelow(core, r, (address + 4) % 0x1_0000_0000, words[1..]);
    }
  }

  lemma {:induction false} WordsEnter(core: nat, r: Region, address: Word, words: seq<Word>)
    requires RegionOf(core) == Some(r) && 0 < |words| <= 64
    requires Masked(r, address) < Start(r) <= Masked(r, address) + 4 * (|words| - 1)
    ensures |WordStores(core, address, words)| > 0 && WordStores(core, address, words)[0].index == 0
    decreases |words|
  {
    var next, rest := (address + 4) % 0x1_0000_0000, words[1..];
    TransferOne(core, r, address, words[0]);
    MaskedAdvance(r, address, 4);
    if Masked(r, next) < Start(r) {
      WordsEnter(core, r, next, rest);
    } else {
      TransferOne(core, r, next, rest[0]);
    }
  }

  lemma {:induction false} WordsLeave(core: nat, r: Region, address: Word, words: seq<Word>)
    requires RegionOf(core) == Some(r) && 0 < |words| <= 64
    requires Start(r) <= Masked(r, address) && Span(r) <= Masked(r, address) + 4 * (|words| - 1)
    ensures var n := |WordStores(core, address, words)|;
            n < |words| && (Span(r) - Start(r)) / 4 <= (Masked(r, address) - Start(r)) / 4 + n
    decreases |words|
  {
    var next, rest := (address + 4) % 0x1_0000_0000, words[1..];
    TransferOne(core, r, address, words[0]);
    MaskedAdvance(r, address, 4);
    if Masked(r, address) + 4 < Span(r) {
      WordsLeave(core, r, next, rest);
    } else {
      WordsBelow(core, r, next, rest);
    }
  }

  predicate AllBelow(stores: seq<Store>, n: nat) {
    forall s <- stores :: s.index < n
  }

  lemma AllBelowConcat(a: seq<Store>, b: seq<Store>, n: nat)
    requires AllBelow(a, n) && AllBelow(b, n)
    ensures AllBelow(a + b, n)
  {
  }

  lemma {:induction false} WordsStayBelowEnd(core: nat, r: Region, address: Word, words: seq<Word>)
    requires RegionOf(core) == Some(r)
    ensures AllBelow(WordStores(core, address, words), (Span(r) - Start(r)) / 4)
    decreases |words|
  {
    if |words| > 0 {
      var next := (address + 4) % 0x1_0000_0000;
      TransferOne(core, r, address, words[0]);
      WordsStayBelowEnd(core, r, next, words[1..]);
      AllBelowConcat(Transfer(core, address, [words[0]]), WordStores(core, next, words[1..]), (Span(r) - Start(r)) / 4);
    }
  }

  lemma AddressSum(address: Word, n: nat)
    requires n > 0
    ensures ((address + 4) % 0x1_0000_0000 + 4 * (n - 1)) % 0x1_0000_0000 == (address + 4 * n) % 0x1_0000_0000
  {
  }

  lemma ConcatFront(core: nat, address: Word, a: seq<Word>, b: seq<Word>, next: Word, rest: seq<Store>)
    requires |a| > 0 && next == (address + 4) % 0x1_0000_0000
    requires WordStores(core, next, a[1..] + b) == WordStores(core, next, a[1..]) + rest
    ensures WordStores(core, address, a + b) == WordStores(core, address, a) + rest
  {
    assert (a + b)[1..] == a[1..] + b && (a + b)[0] == a[0];
    Associate(Transfer(core, address, [a[0]]), WordStores(core, next, a[1..]), rest);
  }

  lemma {:induction false} WordStoresConcat(core: nat, address: Word, a: seq<Word>, b: seq<Word>, far: Word)
    requires far == (address + 4 * |a|) % 0x1_0000_0000
    ensures WordStores(core, address, a + b) == WordStores(core, address, a) + WordStores(core, far, b)
    decreases |a|
  {
    if |a| == 0 {
      assert a + b == b;
    } else {
      var next := (address + 4) % 0x1_0000_0000;
      AddressSum(address, |a|);
      WordStoresConcat(core, next, a[1..], b, far);
      ConcatFront(core, address, a, b, next, WordStores(core, far, b));
    }
  }

  // ----- one block: the same stores exactly when it does not straddle

  lemma BlockIsWords(core: nat, r: Region, address: Word, words: seq<Word>)
    requires RegionOf(core) == Some(r) && |words| <= 64 && !Straddles(r, address, |words|)
    ensures Transfer(core, address, words) == WordStores(core, address, words)
  {
    if Masked(r, address) < Start(r) {
      WordsBelow(core, r, address, words);
    } else {
      WordsInside(core, r, address, words);
    }
  }

  // A straddling block differs from its words at a place that nothing sent afterwards can make good.
  lemma StraddlingDiffers(core: nat, r: Region, address: Word, words: seq<Word>, after: seq<Store>,
                           wordsAfter: seq<Store>)
    requires RegionOf(core) == Some(r) && |words| <= 64 && Straddles(r, address, |words|)
    requires |after| > 0 ==> after[0].index > 0 || Masked(r, address) >= Start(r)
    requires AllBelow(wordsAfter, (Span(r) - Start(r)) / 4)
    ensures Transfer(core, address, words) + after != WordStores(core, address, words) + wordsAfter
  {
    var t, n := Transfer(core, address, words), WordStores(core, address, words);
    if Masked(r, address) < Start(r) {
      WordsEnter(core, r, address, words);
      assert t == [] && t + after == after;
      assert (n + wordsAfter)[0].index == 0;
    } else {
      WordsLeave(core, r, address, words);
      assert (t + after)[|n|] == t[|n|] && t[|n|].index >= (Span(r) - Start(r)) / 4;
      if |wordsAfter| > 0 {
        assert wordsAfter[0] in wordsAfter && (n + wordsAfter)[|n|] == wordsAfter[0];
      }
    }
  }

  lemma FirstOfBlocks(core: nat, r: Region, address: Word, words: seq<Word>)
    requires RegionOf(core) == Some(r) && Masked(r, address) >= Start(r) + 4
    ensures |BlockStores(core, address, words)| > 0 && |words| > 0 ==> BlockStores(core, address, words)[0].index > 0
    ensures |words| == 0 ==> BlockStores(core, address, words) == []
  {
  }

  lemma LastBlockIff(core: nat, r: Region, address: Word, words: seq<Word>)
    requires RegionOf(core) == Some(r) && |words| < 64
    ensures Transfer(core, address, words) == WordStores(core, address, words) <==> !Straddles(r, address, |words|)
  {
    if Straddles(r, address, |words|) {
      StraddlingDiffers(core, r, address, words, [], []);
      assert Transfer(core, address, words) + [] == Transfer(core, address, words);
      assert WordStores(core, address, words) + [] == WordStores(core, address, words);
    } else {
      BlockIsWords(core, r, address, words);
    }
  }

  lemma FirstBlockIff(core: nat, r: Region, address: Word, head: seq<Word>, next: Word, rest: seq<Word>)
    requires RegionOf(core) == Some(r) && |head| == 64 && next == (address + 0x100) % 0x1_0000_0000
    ensures Transfer(core, address, head) + BlockStores(core, next, rest)
            == WordStores(core, address, head) + WordStores(core, next, rest)
            <==> !Straddles(r, address, 64) && BlockStores(core, next, rest) == WordStores(core, next, rest)
  {
    var after, wordsAfter := BlockStores(core, next, rest), WordStores(core, next, rest);
    if Straddles(r, address, 64) {
      MaskedAdvance(r, address, 0x100);
      if Masked(r, address) < Start(r) {
        FirstOfBlocks(core, r, next, rest);
      }
      WordsStayBelowEnd(core, r, next, rest);
      StraddlingDiffers(core, r, address, head, after, wordsAfter);
    } else {
      BlockIsWords(core, r, address, head);
      SamePrefix(Transfer(core, address, head), after, wordsAfter);
    }
  }

  lemma SamePrefix(t: seq<Store>, a: seq<Store>, b: seq<Store>)
    ensures t + a == t + b <==> a == b
  {
    assert (t + a)[|t|..] == a && (t + b)[|t|..] == b;
  }

  /** Copying a section in 256-byte blocks makes exactly the stores that sending its words one by
      one makes, if and only if no block reaches over an end of the region's address range. */
  lemma {:induction false} BlockingInvisibleIff(core: nat, r: Region, address: Word, words: seq<Word>)
    requires RegionOf(core) == Some(r)
    ensures BlockStores(core, address, words) == WordStores(core, address, words)
            <==> NoBlockStraddles(r, address, words)
    decreases |words|
  {
    if |words| < 64 {
      LastBlockIff(core, r, address, words);
    } else {
      var head, rest, next := words[..64], words[64..], (address + 0x100) % 0x1_0000_0000;
      assert words == head + rest;
      WordStoresConcat(core, address, head, rest, next);
      FirstBlockIff(core, r, address, head, next, rest);
      BlockingInvisibleIff(core, r, next, rest);
    }
  }

  /** Where it fails: eight words from 0x007FFFF0 straddle the start of L2, so the one block is
      dropped whole although half of its words have an address in the region. */
  lemma StraddlingExample(words: seq<Word>)
    requires |words| == 8
    ensures BlockStores(0, 0x007F_FFF0, words) == [] && WordStores(0, 0x007F_FFF0, words) != []
  {
    assert Straddles(L2, 0x007F_FFF0, 8);
    BlockingInvisibleIff(0, L2, 0x007F_FFF0, words);
  }

  function WordTableStores(coreNum: nat, ss: seq<Section>): seq<Store> {
    if |ss| == 0 then []
    else WordStores(Route(coreNum, ss[0].address), ss[0].address, ss[0].words) + WordTableStores(coreNum, ss[1..])
  }

  /** The whole table, section after section, is the word-by-word table where no block straddles. */
  lemma {:induction false} TableIsWordByWord(coreNum: nat, ss: seq<Section>)
    requires forall k :: 0 <= k < |ss| ==>
               NoBlockStraddles(RegionOf(Route(coreNum, ss[k].address)).value, ss[k].address, ss[k].words)
    ensures TableStores(coreNum, ss) == WordTableStores(coreNum, ss)
    decreases |ss|
  {
    if |ss| > 0 {
      var core := Route(coreNum, ss[0].address);
      BlockingInvisibleIff(core, RegionOf(core).value, ss[0].address, ss[0].words);
      TableIsWordByWord(coreNum, ss[1..]);
    }
  }

  // ----- a section that lies in its region

  predicate WellPlaced(s: Section) {
    var r := RegionOf(Route(0, s.address)).value;
    Start(r) <= Masked(r, s.address) && Masked(r, s.address) + 4 * |s.words| <= Span(r)
  }

  lemma {:induction false} InsideNeverStraddles(r: Region, address: Word, words: seq<Word>)
    requires Start(r) <= Masked(r, address) && Masked(r, address) + 4 * |words| <= Span(r)
    ensures NoBlockStraddles(r, address, words)
    decreases |words|
  {
    if |words| > 64 {
      MaskedAdvance(r, address, 0x100);
      InsideNeverStraddles(r, (address + 0x100) % 0x1_0000_0000, words[64..]);
    } else if |words| == 64 {
      assert |words[64..]| == 0;
    }
  }

  /** A section inside its region becomes one unbroken run of stores from its own address,
      whether or not that address is aligned to a block. */
  lemma SectionIsOneRun(coreNum: nat, s: Section)
    requires WellPlaced(s)
    ensures var r := RegionOf(Route(0, s.address)).value;
            SectionStores(coreNum, s) == RunOfStores(r, (Masked(r, s.address) - Start(r)) / 4, s.words)
  {
    var core := Route(coreNum, s.address);
    var r := RegionOf(core).value;
    InsideNeverStraddles(r, s.address, s.words);
    BlockingInvisibleIff(core, r, s.address, s.words);
    WordsInside(core, r, s.address, s.words);
  }

  lemma NoWordsNoStores(coreNum: nat, s: Section)
    requires s.words == []
    ensures SectionStores(coreNum, s) == []
    ensures forall r: Region, first: nat :: RunOfStores(r, first, s.words) == []
  {
  }

  /** By address: a section in the 16 MB from 0x0C000000 goes to MSMC, at its distance from there. */
  lemma MsmcSection(coreNum: nat, s: Section)
    requires 0x0C00_0000 <= s.address && s.address + 4 * |s.words| <= 0x0D00_0000
    ensures SectionStores(coreNum, s) == RunOfStores(Msmc, (s.address - 0x0C00_0000) / 4, s.words)
  {
    if s.words == [] {
      NoWordsNoStores(coreNum, s);
    } else {
      SectionIsOneRun(coreNum, s);
    }
  }

  /** A section from 0x80000000 on goes to DDR. */
  lemma DdrSection(coreNum: nat, s: Section)
    requires 0x8000_0000 <= s.address && s.address + 4 * |s.words| <= 0x1_0000_0000
    ensures SectionStores(coreNum, s) == RunOfStores(Ddr, (s.address - 0x8000_0000) / 4, s.words)
  {
    SectionIsOneRun(coreNum, s);
  }

  /** A section at a local address, or at the global address of any core, goes to L2, if its low 24 bits
      are from 0x800000 on. */
  lemma L2Section(coreNum: nat, s: Section)
    requires s.address / 0x100_0000 == 0 || 0x10 <= s.address / 0x100_0000 <= 0x1F
    requires 0x80_0000 <= s.address % 0x100_0000 && s.address % 0x100_0000 + 4 * |s.words| <= 0x100_0000
    ensures SectionStores(coreNum, s) == RunOfStores(L2, (s.address % 0x100_0000 - 0x80_0000) / 4, s.words)
  {
    SectionIsOneRun(coreNum, s);
  }

  // ----- the core number

  lemma {:induction false} SameRegionSameStores(c1: nat, c2: nat, address: Word, words: seq<Word>)
    requires RegionOf(c1) == RegionOf(c2)
    ensures BlockStores(c1, address, words) == BlockStores(c2, address, words)
    decreases |words|
  {
    if |words| >= 64 {
      SameRegionSameStores(c1, c2, (address + 0x100) % 0x1_0000_0000, words[64..]);
    }
  }

  /** The core number never matters: sections meant for any core's L2 go to the one L2 window. */
  lemma {:induction false} CoreNumberIgnored(c1: nat, c2: nat, ss: seq<Section>)
    ensures TableStores(c1, ss) == TableStores(c2, ss)
    decreases |ss|
  {
    if |ss| > 0 {
      SameRegionSameStores(Route(c1, ss[0].address), Route(c2, ss[0].address), ss[0].address, ss[0].words);
      CoreNumberIgnored(c1, c2, ss[1..]);
    }
  }

  // ----- the memories after the upload

  function Lookup(m: Memory, r: Region, i: nat): Option<Word> {
    if i in Words(m, r) then Some(Words(m, r)[i]) else None
  }

  /** The value of the last store to a word, if there is one. */
  function LastTo(stores: seq<Store>, r: Region, i: nat): Option<Word> {
    if |stores| == 0 then None
    else
      var s := stores[|stores| - 1];
      if s.region == r && s.index == i then Some(s.value) else LastTo(stores[..|stores| - 1], r, i)
  }

  /** Every word holds what was last stored to it; a word no store names keeps its value. */
  lemma {:induction false} ReplayKeepsLast(m: Memory, stores: seq<Store>, r: Region, i: nat)
    ensures Lookup(Replay(m, stores), r, i)
         == match LastTo(stores, r, i) case Some(v) => Some(v) case None => Lookup(m, r, i)
  {
    if |stores| > 0 {
      ReplayKeepsLast(m, stores[..|stores| - 1], r, i);
    }
  }

  /** Some store names the word. */
  predicate Hit(stores: seq<Store>, r: Region, i: nat) {
    exists s <- stores :: s.region == r && s.index == i
  }

  lemma FirstIsHit(stores: seq<Store>)
    requires stores != []
    ensures Hit(stores, stores[0].region, stores[0].index)
  {
    assert stores[0] in stores;
  }

  lemma HitEither(a: seq<Store>, b: seq<Store>, r: Region, i: nat)
    ensures Hit(a + b, r, i) <==> Hit(a, r, i) || Hit(b, r, i)
  {
  }

  lemma {:induction false} LastToIffHit(stores: seq<Store>, r: Region, i: nat)
    ensures LastTo(stores, r, i).Some? <==> Hit(stores, r, i)
  {
    if |stores| > 0 {
      var n := |stores| - 1;
      LastToIffHit(stores[..n], r, i);
      HitEither(stores[..n], [stores[n]], r, i);
      assert stores == stores[..n] + [stores[n]];
    }
  }

  const MAGIC_INDEX: nat := 0x1_FFFF

  /** The last store of every upload is the entry word to MAGIC_ADDR, even where a section covers that
      address, so the word read there afterwards is the entry. */
  lemma EntryIsLast(coreNum: nat, image: Image, m: Memory, earlier: seq<Store>)
    ensures UploadStores(coreNum, image) == TableStores(coreNum, image.sections) + [Store(L2, MAGIC_INDEX, image.entry)]
    ensures Lookup(Replay(m, earlier + UploadStores(coreNum, image)), L2, MAGIC_INDEX) == Some(image.entry)
  {
  }

  // ----- which words an upload stores to, wherever its sections are placed

  /** Word k of a section, copied in blocks, goes to index i: the region holds the start of its block, and the
      word stands k % 64 words behind that. */
  predicate Lands(r: Region, address: Word, k: nat, i: nat) {
    var start := Masked(r, (address + 0x100 * (k / 64)) % 0x1_0000_0000);
    Start(r) <= start && i == (start - Start(r)) / 4 + k % 64
  }

  predicate SomeLands(r: Region, address: Word, n: nat, i: nat) {
    exists k: nat :: k < n && Lands(r, address, k, i)
  }

  lemma LandsInNextBlock(r: Region, address: Word, k: nat, i: nat)
    requires k >= 64
    ensures Lands(r, address, k, i) <==> Lands(r, (address + 0x100) % 0x1_0000_0000, k - 64, i)
  {
    var j := k / 64;
    assert (k - 64) / 64 == j - 1 && (k - 64) % 64 == k % 64;
    ModSum(0x100 * (j - 1), address + 0x100);
  }

  lemma LandsInFirstBlock(r: Region, address: Word, k: nat, i: nat)
    requires k < 64
    ensures Lands(r, address, k, i)
            <==> Start(r) <= Masked(r, address) && i == (Masked(r, address) - Start(r)) / 4 + k
  {
  }

  lemma RunHits(r: Region, first: nat, words: seq<Word>, q: Region, i: nat)
    ensures Hit(RunOfStores(r, first, words), q, i) <==> q == r && first <= i < first + |words|
  {
    var run := RunOfStores(r, first, words);
    if q == r && first <= i < first + |words| {
      assert run[i - first] in run && run[i - first].index == i;
    }
  }

  lemma SomeLandsInFirstBlock(r: Region, address: Word, n: nat, i: nat)
    requires n <= 64
    ensures var m := Masked(r, address);
            SomeLands(r, address, n, i) <==> Start(r) <= m && (m - Start(r)) / 4 <= i < (m - Start(r)) / 4 + n
  {
    var m := Masked(r, address);
    forall k: nat | k < n ensures Lands(r, address, k, i) <==> Start(r) <= m && i == (m - Start(r)) / 4 + k {
      LandsInFirstBlock(r, address, k, i);
    }
    if Start(r) <= m && (m - Start(r)) / 4 <= i < (m - Start(r)) / 4 + n {
      assert Lands(r, address, i - (m - Start(r)) / 4, i);
    }
  }

  lemma TransferLands(core: nat, r: Region, address: Word, words: seq<Word>, q: Region, i: nat)
    requires RegionOf(core) == Some(r) && |words| <= 64
    ensures Hit(Transfer(core, address, words), q, i) <==> q == r && SomeLands(r, address, |words|, i)
  {
    var m := Masked(r, address);
    SomeLandsInFirstBlock(r, address, |words|, i);
    if Start(r) <= m {
      RunHits(r, (m - Start(r)) / 4, words, q, i);
    }
  }

  lemma SomeLandsByBlock(r: Region, address: Word, n: nat, i: nat)
    requires n >= 64
    ensures SomeLands(r, address, n, i)
            <==> SomeLands(r, address, 64, i) || SomeLands(r, (address + 0x100) % 0x1_0000_0000, n - 64, i)
  {
    var next := (address + 0x100) % 0x1_0000_0000;
    if SomeLands(r, address, n, i) {
      var k: nat :| k < n && Lands(r, address, k, i);
      if k >= 64 {
        LandsInNextBlock(r, address, k, i);
        assert k - 64 < n - 64 && Lands(r, next, k - 64, i);
      }
    }
    if SomeLands(r, next, n - 64, i) {
      var k: nat :| k < n - 64 && Lands(r, next, k, i);
      LandsInNextBlock(r, address, k + 64, i);
      assert k + 64 < n && Lands(r, address, k + 64, i);
    }
  }

  lemma {:induction false} BlocksLand(core: nat, r: Region, address: Word, words: seq<Word>, q: Region, i: nat)
    requires RegionOf(core) == Some(r)
    ensures Hit(BlockStores(core, address, words), q, i) <==> q == r && SomeLands(r, address, |words|, i)
    decreases |words|
  {
    if |words| < 64 {
      TransferLands(core, r, address, words, q, i);
    } else {
      var next := (address + 0x100) % 0x1_0000_0000;
      TransferLands(core, r, address, words[..64], q, i);
      BlocksLand(core, r, next, words[64..], q, i);
      HitEither(Transfer(core, address, words[..64]), BlockStores(core, next, words[64..]), q, i);
      SomeLandsByBlock(r, address, |words|, i);
    }
  }

  predicate Covers(s: Section, r: Region, i: nat) {
    r == RegionOf(Route(0, s.address)).value && SomeLands(r, s.address, |s.words|, i)
  }

  predicate CoveredBy(ss: seq<Section>, r: Region, i: nat) {
    exists k :: 0 <= k < |ss| && Covers(ss[k], r, i)
  }

  lemma SectionHits(coreNum: nat, s: Section, r: Region, i: nat)
    ensures Hit(SectionStores(coreNum, s), r, i) <==> Covers(s, r, i)
  {
    var core := Route(coreNum, s.address);
    BlocksLand(core, RegionOf(core).value, s.address, s.words, r, i);
  }

  lemma CoveredByCons(s: Section, ss: seq<Section>, r: Region, i: nat)
    ensures CoveredBy([s] + ss, r, i) <==> Covers(s, r, i) || CoveredBy(ss, r, i)
  {
    var all := [s] + ss;
    if Covers(s, r, i) {
      assert Covers(all[0], r, i);
    }
    if CoveredBy(ss, r, i) {
      var k :| 0 <= k < |ss| && Covers(ss[k], r, i);
      assert Covers(all[k + 1], r, i);
    }
  }

  lemma {:induction false} TableHits(coreNum: nat, ss: seq<Section>, r: Region, i: nat)
    ensures Hit(TableStores(coreNum, ss), r, i) <==> CoveredBy(ss, r, i)
    decreases |ss|
  {
    if |ss| > 0 {
      SectionHits(coreNum, ss[0], r, i);
      TableHits(coreNum, ss[1..], r, i);
      HitEither(SectionStores(coreNum, ss[0]), TableStores(coreNum, ss[1..]), r, i);
      CoveredByCons(ss[0], ss[1..], r, i);
      assert [ss[0]] + ss[1..] == ss;
    }
  }

  /** An upload stores to exactly the words its sections cover and the magic word. */
  lemma StoredIff(coreNum: nat, image: Image, r: Region, i: nat)
    ensures Hit(UploadStores(coreNum, image), r, i)
            <==> CoveredBy(image.sections, r, i) || (r == L2 && i == MAGIC_INDEX)
  {
    EntryIsLast(coreNum, image, Memory(map[], map[], map[]), []);
    TableHits(coreNum, image.sections, r, i);
    HitEither(TableStores(coreNum, image.sections), [Store(L2, MAGIC_INDEX, image.entry)], r, i);
  }

  /** Every other word keeps its value, for every image. */
  lemma OtherWordsKept(coreNum: nat, image: Image, m: Memory, r: Region, i: nat)
    requires !CoveredBy(image.sections, r, i) && !(r == L2 && i == MAGIC_INDEX)
    ensures Lookup(Replay(m, UploadStores(coreNum, image)), r, i) == Lookup(m, r, i)
  {
    var all := UploadStores(coreNum, image);
    StoredIff(coreNum, image, r, i);
    LastToIffHit(all, r, i);
    ReplayKeepsLast(m, all, r, i);
  }

  /** A section inside its region covers the words from its own address on, and no others. */
  lemma WellPlacedCovers(s: Section, r: Region, i: nat)
    requires WellPlaced(s)
    ensures var q := RegionOf(Route(0, s.address)).value;
            var first := (Masked(q, s.address) - Start(q)) / 4;
            Covers(s, r, i) <==> r == q && first <= i < first + |s.words|
  {
    var q := RegionOf(Route(0, s.address)).value;
    var first := (Masked(q, s.address) - Start(q)) / 4;
    SectionIsOneRun(0, s);
    SectionHits(0, s, r, i);
    RunHits(q, first, s.words, r, i);
  }

  predicate OutOfRange(s: Section) {
    var r := RegionOf(Route(0, s.address)).value;
    |s.words| > 0 ==> Masked(r, s.address) + 4 * (|s.words| - 1) < Start(r)
  }

  lemma MaskedForward(r: Region, address: Word, d: nat)
    requires Masked(r, address) + d < Span(r)
    ensures Masked(r, (address + d) % 0x1_0000_0000) == Masked(r, address) + d
  {
  }

  /** A section out of its region's range covers no word: it makes no store at all. */
  lemma OutOfRangeStoresNothing(coreNum: nat, s: Section)
    requires OutOfRange(s)
    ensures SectionStores(coreNum, s) == []
    ensures forall r: Region, i: nat :: !Covers(s, r, i)
  {
    var q := RegionOf(Route(0, s.address)).value;
    forall r: Region, i: nat ensures !Covers(s, r, i) {
      forall k: nat | k < |s.words| ensures !Lands(q, s.address, k, i) {
        MaskedForward(q, s.address, 0x100 * (k / 64));
      }
    }
    var stores := SectionStores(coreNum, s);
    if stores != [] {
      FirstIsHit(stores);
      SectionHits(coreNum, s, stores[0].region, stores[0].index);
    }
  }

  /** By address: nothing is stored for a section below L2, and none for one outside L2, MSMC and DDR. */
  lemma NowhereSection(coreNum: nat, s: Section)
    requires var high, n := s.address / 0x100_0000, |s.words|;
             if high == 0 || 0x10 <= high <= 0x1F then s.address % 0x100_0000 + 4 * n <= 0x80_0000
             else high != 0x0C && s.address + 4 * n <= 0x8000_0000
    ensures SectionStores(coreNum, s) == []
  {
    OutOfRangeStoresNothing(coreNum, s);
  }
}
