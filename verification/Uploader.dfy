/** The boot-image uploader: routing by address, the store loop, and the copy in 256-byte blocks. */
module Uploader {
  import opened Words32
  import opened BootImage

  const MAGIC_ADDR: Word := 0x0087_FFFC
  const LL2_START: Word := 0x0080_0000
  const MSMC_START: Word := 0x0C00_0000
  const DDR_START: Word := 0x8000_0000

  // ----- the three device memories behind the BARs

  datatype Region = L2 | Msmc | Ddr

  /** One 32-bit store through a BAR pointer, index counted in words from the BAR's start. */
  datatype Store = Store(region: Region, index: nat, value: Word)

  datatype Memory = Memory(l2: map<nat, Word>, msmc: map<nat, Word>, ddr: map<nat, Word>)

  function Words(m: Memory, r: Region): map<nat, Word> {
    match r case L2 => m.l2 case Msmc => m.msmc case Ddr => m.ddr
  }

  function Put(m: Memory, s: Store): Memory {
    match s.region
    case L2 => m.(l2 := m.l2[s.index := s.value])
    case Msmc => m.(msmc := m.msmc[s.index := s.value])
    case Ddr => m.(ddr := m.ddr[s.index := s.value])
  }

  function Replay(m: Memory, stores: seq<Store>): Memory {
    if |stores| == 0 then m else Put(Replay(m, stores[..|stores| - 1]), stores[|stores| - 1])
  }

  lemma ReplayAppend(m: Memory, a: seq<Store>, s: Store)
    ensures Replay(m, a + [s]) == Put(Replay(m, a), s)
  {
  }

  /** The BAR pointers of the device. Every store made through them is on record, and what
      the memories hold is what those stores, in order, leave of the initial contents. */
  class PcieBars {
    var l2: map<nat, Word>
    var msmc: map<nat, Word>
    var ddr: map<nat, Word>
    ghost const initial: Memory
    ghost var trace: seq<Store>

    function Contents(): Memory
      reads this
    {
      Memory(l2, msmc, ddr)
    }

    ghost predicate Valid()
      reads this
    {
      Contents() == Replay(initial, trace)
    }

    constructor (m: Memory)
      ensures Valid() && initial == m && trace == []
    {
      l2, msmc, ddr := m.l2, m.msmc, m.ddr;
      initial, trace := m, [];
    }

    method Poke(region: Region, index: nat, value: Word)
      requires Valid()
      modifies this
      ensures Valid() && trace == old(trace) + [Store(region, index, value)]
      ensures l2 == (if region == L2 then old(l2)[index := value] else old(l2))
      ensures msmc == (if region == Msmc then old(msmc)[index := value] else old(msmc))
      ensures ddr == (if region == Ddr then old(ddr)[index := value] else old(ddr))
    {
      ReplayAppend(initial, trace, Store(region, index, value));
      match region {
        case L2 => l2 := l2[index := value];
        case Msmc => msmc := msmc[index := value];
        case Ddr => ddr := ddr[index := value];
      }
      trace := trace + [Store(region, index, value)];
    }
  }

  // ----- one transfer

  function RegionOf(coreNum: nat): Option<Region> {
    if coreNum < 8 then Some(L2) else if coreNum == 8 then Some(Msmc) else if coreNum == 9 then Some(Ddr) else None
  }

  function Start(r: Region): nat {
    match r case L2 => LL2_START case Msmc => MSMC_START case Ddr => DDR_START
  }

  /** The address the region sees: the L2 mask keeps 24 bits, the others all 32. */
  function Masked(r: Region, address: Word): Word {
    match r case L2 => address % 0x100_0000 case Msmc => address case Ddr => address
  }

  function RunOfStores(r: Region, index: nat, words: seq<Word>): (stores: seq<Store>)
    ensures |stores| == |words|
    ensures forall i :: 0 <= i < |words| ==> stores[i] == Store(r, index + i, words[i])
  {
    seq(|words|, i requires 0 <= i < |words| => Store(r, index + i, words[i]))
  }

  function RegionTransfer(r: Region, address: Word, words: seq<Word>): seq<Store> {
    if Masked(r, address) < Start(r) then [] else RunOfStores(r, (Masked(r, address) - Start(r)) / 4, words)
  }

  /** The stores one call makes: none for an unknown core or an address below its region. */
  function Transfer(coreNum: nat, address: Word, words: seq<Word>): seq<Store> {
    match RegionOf(coreNum)
    case None => []
    case Some(r) => RegionTransfer(r, address, words)
  }

  /** Core number and address decide where a transfer goes, word by word: below 8 to L2 through the low 24
      bits of the address, 8 to MSMC, 9 to DDR, and nowhere below the start of the memory. */
  lemma TransferByAddress(coreNum: nat, address: Word, words: seq<Word>)
    ensures coreNum < 8 ==>
              Transfer(coreNum, address, words)
              == if address % 0x100_0000 < 0x80_0000 then []
                 else RunOfStores(L2, (address % 0x100_0000 - 0x80_0000) / 4, words)
    ensures coreNum == 8 ==>
              Transfer(coreNum, address, words)
              == if address < 0x0C00_0000 then [] else RunOfStores(Msmc, (address - 0x0C00_0000) / 4, words)
    ensures coreNum == 9 ==>
              Transfer(coreNum, address, words)
              == if address < 0x8000_0000 then [] else RunOfStores(Ddr, (address - 0x8000_0000) / 4, words)
    ensures coreNum > 9 ==> Transfer(coreNum, address, words) == []
  {
  }

  /** The store loop. */
  method StoreWords(bars: PcieBars, region: Region, index: nat, buffer: array<Word>, n: nat)
    requires bars.Valid() && n <= buffer.Length
    modifies bars
    ensures bars.Valid() && bars.trace == old(bars.trace) + RunOfStores(region, index, buffer[..n])
  {
    ghost var all := RunOfStores(region, index, buffer[..n]);
    var ptr, i := index, 0;
    while i < n
      invariant 0 <= i <= n && ptr == index + i
      invariant bars.Valid() && bars.trace == old(bars.trace) + all[..i]
    {
      bars.Poke(region, ptr, buffer[i]);
      assert all[..i + 1] == all[..i] + [all[i]];
      ptr := ptr + 1;
      i := i + 1;
    }
    assert all[..n] == all;
  }

  method WriteDspMemory(bars: PcieBars, coreNum: nat, dspMemAddr: Word, buffer: array<Word>, length: Word)
    returns (written: Word)
    requires bars.Valid() && length / 4 <= buffer.Length
    modifies bars
    ensures bars.Valid() && bars.trace == old(bars.trace) + Transfer(coreNum, dspMemAddr, buffer[..length / 4])
    ensures written == if (coreNum < 8 && dspMemAddr % 0x100_0000 >= 0x80_0000)
                          || (coreNum == 8 && dspMemAddr >= 0x0C00_0000)
                          || (coreNum == 9 && dspMemAddr >= 0x8000_0000)
                       then length else 0
  {
    if length == 0 {
      return 0;
    }
    var region, offset;
    if coreNum < 8 {
      var masked := dspMemAddr % 0x100_0000;
      if masked < LL2_START {
        return 0;
      }
      region, offset := L2, masked - LL2_START;
    } else if coreNum == 8 {
      if dspMemAddr < MSMC_START {
        return 0;
      }
      region, offset := Msmc, dspMemAddr - MSMC_START;
    } else if coreNum == 9 {
      if dspMemAddr < DDR_START {
        return 0;
      }
      region, offset := Ddr, dspMemAddr - DDR_START;
    } else {
      return 0;
    }
    assert RegionOf(coreNum) == Some(region) && Masked(region, dspMemAddr) - Start(region) == offset;
    StoreWords(bars, region, offset / 4, buffer, length / 4);
    return length;
  }

  // ----- the whole upload

  /** Where a section goes, from the high byte of its address. */
  function Route(coreNum: nat, address: Word): nat {
    var high := address / 0x100_0000;
    if high == 0 || high / 16 == 1 then if coreNum < 8 then coreNum else 0
    else if high == 0x0C then 8
    else 9
  }

  function BlockStores(core: nat, address: Word, words: seq<Word>): seq<Store>
    decreases |words|
  {
    if |words| < 64 then Transfer(core, address, words)
    else Transfer(core, address, words[..64])
         + BlockStores(core, (address + 0x100) % 0x1_0000_0000, words[64..])
  }

  function SectionStores(coreNum: nat, s: Section): seq<Store> {
    BlockStores(Route(coreNum, s.address), s.address, s.words)
  }

  function TableStores(coreNum: nat, ss: seq<Section>): seq<Store> {
    if |ss| == 0 then [] else SectionStores(coreNum, ss[0]) + TableStores(coreNum, ss[1..])
  }

  function UploadStores(coreNum: nat, image: Image): seq<Store> {
    TableStores(coreNum, image.sections) + Transfer(0, MAGIC_ADDR, [image.entry])
  }

  method FillBuffer(image: seq<Byte>, at: nat, buffer: array<Word>, n: nat)
    requires at + 4 * n <= |image| && n <= buffer.Length
    modifies buffer
    ensures buffer[..n] == WordsAt(image, at, n)
  {
    var j := 0;
    while j < n
      invariant 0 <= j <= n
      invariant forall k :: 0 <= k < j ==> buffer[k] == WordAt(image, at + 4 * k)
    {
      var word := ByteTo32Bits(image, at + 4 * j);
      buffer[j] := word;
      j := j + 1;
    }
  }

  lemma WordsAtSlice(s: seq<Byte>, at: nat, n: nat, k: nat, m: nat)
    requires at + 4 * n <= |s| && k + m <= n
    ensures WordsAt(s, at, n)[k..k + m] == WordsAt(s, at + 4 * k, m)
  {
  }

  lemma LastBlock(core: nat, address: Word, words: seq<Word>, k: nat)
    requires k <= |words| < k + 64
    ensures BlockStores(core, address, words[k..]) == Transfer(core, address, words[k..|words|])
  {
  }

  /** One pass of the copy loop: a block of the image through the scratch array to the device. */
  method CopyBlock(bars: PcieBars, image: seq<Byte>, at: nat, core: nat, address: Word, n: nat, tempArray: array<Word>,
                   ghost block: seq<Word>)
    requires bars.Valid() && at + 4 * n <= |image| && n <= tempArray.Length == 64
    requires block == WordsAt(image, at, n)
    modifies bars, tempArray
    ensures bars.Valid() && bars.trace == old(bars.trace) + Transfer(core, address, block)
  {
    FillBuffer(image, at, tempArray, n);
    var written := WriteDspMemory(bars, core, address, tempArray, 4 * n);
  }

  lemma Associate(a: seq<Store>, b: seq<Store>, c: seq<Store>)
    ensures (a + b) + c == a + (b + c)
  {
  }

  lemma BlockStep(trace: seq<Store>, core: nat, address: Word, words: seq<Word>, k: nat)
    requires k + 64 <= |words|
    ensures trace + BlockStores(core, address, words[k..])
         == (trace + Transfer(core, address, words[k..k + 64]))
            + BlockStores(core, (address + 0x100) % 0x1_0000_0000, words[k + 64..])
  {
    var rest := words[k..];
    assert rest[..64] == words[k..k + 64] && rest[64..] == words[k + 64..];
    Associate(trace, Transfer(core, address, words[k..k + 64]),
              BlockStores(core, (address + 0x100) % 0x1_0000_0000, words[k + 64..]));
  }

  /** The copy loop over whole blocks. */
  method CopyBlocks(bars: PcieBars, image: seq<Byte>, at: nat, core: nat, address: Word, count: nat,
                    tempArray: array<Word>, ghost words: seq<Word>)
    returns (pos: nat, secStartAddr: Word)
    requires bars.Valid() && tempArray.Length == 64 && 64 * count <= |words|
    requires at + 4 * |words| <= |image| && words == WordsAt(image, at, |words|)
    modifies bars, tempArray
    ensures pos == at + 0x100 * count && bars.Valid()
    ensures bars.trace + BlockStores(core, secStartAddr, words[64 * count..])
            == old(bars.trace) + BlockStores(core, address, words)
  {
    ghost var goal := bars.trace + BlockStores(core, address, words);
    pos, secStartAddr := at, address;
    var i := 0;
    ghost var k := 0;
    assert words[0..] == words;
    while i < count
      invariant 0 <= i <= count && k == 64 * i && pos == at + 4 * k
      invariant bars.Valid() && bars.trace + BlockStores(core, secStartAddr, words[k..]) == goal
    {
      WordsAtSlice(image, at, |words|, k, 64);
      BlockStep(bars.trace, core, secStartAddr, words, k);
      CopyBlock(bars, image, pos, core, secStartAddr, 64, tempArray, words[k..k + 64]);
      secStartAddr := (secStartAddr + 0x100) % 0x1_0000_0000;
      pos, k := pos + 0x100, k + 64;
      i := i + 1;
    }
  }

  /** The copy of one section: whole blocks, then the remainder. The results of the transfers are ignored. */
  method UploadSection(bars: PcieBars, image: seq<Byte>, at: nat, core: nat, address: Word, secSize: Word,
                       ghost words: seq<Word>, tempArray: array<Word>)
    requires bars.Valid() && secSize % 4 == 0 && at + secSize <= |image| && tempArray.Length == 64
    requires words == WordsAt(image, at, secSize / 4)
    modifies bars, tempArray
    ensures bars.Valid() && bars.trace == old(bars.trace) + BlockStores(core, address, words)
  {
    var count := secSize / 0x100;
    var remainder := secSize - count * 0x100;
    var pos, secStartAddr := CopyBlocks(bars, image, at, core, address, count, tempArray, words);
    ghost var k := 64 * count;
    WordsAtSlice(image, at, |words|, k, remainder / 4);
    LastBlock(core, secStartAddr, words, k);
    CopyBlock(bars, image, pos, core, secStartAddr, remainder / 4, tempArray, words[k..|words|]);
  }

  lemma SectionStep(trace: seq<Store>, coreNum: nat, sec: Section, ss: seq<Section>)
    ensures trace + TableStores(coreNum, [sec] + ss) == (trace + SectionStores(coreNum, sec)) + TableStores(coreNum, ss)
  {
    assert ([sec] + ss)[1..] == ss;
    Associate(trace, SectionStores(coreNum, sec), TableStores(coreNum, ss));
  }

  // The table seen from behind a size field: the section that follows, and what is left behind it.
  lemma NextSection(trace: seq<Store>, coreNum: nat, img: seq<Byte>, pos: nat, size: Word, rest: Parsed)
    returns (sec: Section, left: Parsed)
    requires 4 <= pos <= |img| && ParseSections(img, pos - 4) == Some(rest) && size == WordAt(img, pos - 4) && size != 0
    ensures var n := PaddedWords(size);
            && pos + 8 + 4 * n <= |img|
            && sec.address == WordAt(img, pos) && sec.words == WordsAt(img, pos + 4, n)
            && ParseSections(img, pos + 4 + 4 * n) == Some(left)
    ensures trace + TableStores(coreNum, rest.sections)
         == (trace + SectionStores(coreNum, sec)) + TableStores(coreNum, left.sections)
  {
    left := ParseSections(img, pos + 4 + 4 * PaddedWords(size)).value;
    sec := rest.sections[0];
    assert rest.sections == [sec] + left.sections;
    SectionStep(trace, coreNum, sec, left.sections);
  }

  lemma NoSection(trace: seq<Store>, img: seq<Byte>, at: nat, rest: Parsed, coreNum: nat)
    requires at + 4 <= |img| && ParseSections(img, at) == Some(rest) && WordAt(img, at) == 0
    ensures trace + TableStores(coreNum, rest.sections) == trace
  {
  }

  /** The loop body: pads the size, routes the section and copies it; pos stands behind the size field. */
  method UploadNext(bars: PcieBars, image: seq<Byte>, pos: nat, coreNum: nat, size: Word, ghost sec: Section,
                    tempArray: array<Word>)
    returns (next: nat)
    requires bars.Valid() && tempArray.Length == 64
    requires pos + 4 + 4 * PaddedWords(size) <= |image|
    requires sec.address == WordAt(image, pos) && sec.words == WordsAt(image, pos + 4, PaddedWords(size))
    modifies bars, tempArray
    ensures next == pos + 4 + 4 * PaddedWords(size)
    ensures bars.Valid() && bars.trace == old(bars.trace) + SectionStores(coreNum, sec)
  {
    var secSize := AdjustSize(size);
    var secStartAddr := ByteTo32Bits(image, pos);
    var newCoreNum := RouteSection(coreNum, secStartAddr);
    UploadSection(bars, image, pos + 4, newCoreNum, secStartAddr, secSize, sec.words, tempArray);
    next := pos + 4 + secSize;
  }

  /** The table, section by section, through one scratch array. */
  method UploadTable(bars: PcieBars, image: seq<Byte>, coreNum: nat)
    requires bars.Valid() && ParseSections(image, 4).Some?
    modifies bars
    ensures bars.Valid()
    ensures bars.trace == old(bars.trace) + TableStores(coreNum, ParseSections(image, 4).value.sections)
  {
    var tempArray := new Word[64](_ => 0);
    UploadSections(bars, image, coreNum, ParseSections(image, 4).value, tempArray);
  }

  /** The section loop. Its measure is the image left to read. */
  method UploadSections(bars: PcieBars, image: seq<Byte>, coreNum: nat, ghost table: Parsed, tempArray: array<Word>)
    requires bars.Valid() && tempArray.Length == 64 && ParseSections(image, 4) == Some(table)
    modifies bars, tempArray
    ensures bars.Valid() && bars.trace == old(bars.trace) + TableStores(coreNum, table.sections)
  {
    ghost var rest := table;
    ghost var goal := bars.trace + TableStores(coreNum, rest.sections);
    var pos := 4;
    var secSize := ByteTo32Bits(image, pos);
    pos := pos + 4;
    while secSize != 0
      invariant 8 <= pos <= |image| && secSize == WordAt(image, pos - 4)
      invariant ParseSections(image, pos - 4) == Some(rest)
      invariant bars.Valid() && bars.trace + TableStores(coreNum, rest.sections) == goal
      decreases |image| - pos
    {
      ghost var sec;
      sec, rest := NextSection(bars.trace, coreNum, image, pos, secSize, rest);
      pos := UploadNext(bars, image, pos, coreNum, secSize, sec, tempArray);
      secSize := ByteTo32Bits(image, pos);
      pos := pos + 4;
    }
    NoSection(bars.trace, image, pos - 4, rest, coreNum);
  }

  /** The upload: it demands of its caller only that the table does not run off the image. */
  method UploadProgram(bars: PcieBars, image: seq<Byte>, coreNum: nat) returns (retValue: int)
    requires bars.Valid() && ParseImage(image).Some? && coreNum < 0x100
    modifies bars
    ensures bars.Valid()
    ensures bars.trace == old(bars.trace) + UploadStores(coreNum, ParseImage(image).value)
    ensures retValue == 0
  {
    var bootEntryAddr := ByteTo32Bits(image, 0);
    UploadTable(bars, image, coreNum);
    var entryWord := new Word[1](_ => bootEntryAddr);
    assert entryWord[..1] == [bootEntryAddr];
    ghost var before := bars.trace;
    retValue := WriteDspMemory(bars, 0, MAGIC_ADDR, entryWord, 4);
    Associate(old(bars.trace), TableStores(coreNum, ParseImage(image).value.sections),
        Transfer(0, MAGIC_ADDR, [bootEntryAddr]));
    retValue := if retValue == 4 then 0 else -1;
  }

  method AdjustSize(size: Word) returns (secSize: Word)
    ensures secSize == 4 * PaddedWords(size)
  {
    secSize := size;
    if secSize / 4 * 4 != secSize {
      secSize := (secSize / 4 + 1) * 4 % 0x1_0000_0000;
    }
  }

  method RouteSection(coreNum: nat, secStartAddr: Word) returns (newCoreNum: nat)
    ensures newCoreNum == Route(coreNum, secStartAddr)
  {
    var temp := secStartAddr / 0x100_0000;
    if temp == 0x00 || temp / 16 == 0x1 {
      newCoreNum := if coreNum < 8 then coreNum else 0;
    } else if temp == 0x0C {
      newCoreNum := 8;
    } else {
      newCoreNum := 9;
    }
  }
}
