/** Address windows: BAR to DSP on the way in, DSP to host memory on the way out, and where
    the boot loader puts the shared zone. */
module Windows {
  import opened Words32
  import opened BootImage
  import opened Uploader
  import opened UploadProperties

  const PCIE_BASE_ADDRESS: Word := 0x2180_0000

  // Word indices of the application registers; the byte offsets are four times these.
  const OB_SIZE: nat := 0x0C
  const OB_OFFSET_INDEX_0: nat := 0x80
  const OB_OFFSET_HI_0: nat := 0x81

  function IbBar(n: nat): nat { 0xC0 + 4 * n }
  function IbStartLo(n: nat): nat { 0xC1 + 4 * n }
  function IbStartHi(n: nat): nat { 0xC2 + 4 * n }
  function IbOffset(n: nat): nat { 0xC3 + 4 * n }

  /** The PCIE application registers, by word index. */
  class RegisterFile {
    var regs: map<nat, Word>

    constructor (regs: map<nat, Word>)
      ensures this.regs == regs
    {
      this.regs := regs;
    }

    method IoWrite32(value: Word, index: nat)
      modifies this
      ensures regs == old(regs)[index := value]
    {
      regs := regs[index := value];
    }
  }

  // ----- inbound: what the host stores through a BAR reaches which DSP address

  predicate RegisterIs(regs: map<nat, Word>, index: nat, value: int) {
    index in regs && regs[index] == value
  }

  predicate WindowSet(regs: map<nat, Word>, i: nat, start: Word) {
    RegisterIs(regs, IbBar(i), i) && RegisterIs(regs, IbStartLo(i), start) && RegisterIs(regs, IbStartHi(i), 0)
  }

  predicate InboundSet(regs: map<nat, Word>, starts: seq<Word>)
    requires |starts| == 4
  {
    && WindowSet(regs, 0, starts[0]) && RegisterIs(regs, IbOffset(0), PCIE_BASE_ADDRESS)
    && WindowSet(regs, 1, starts[1]) && RegisterIs(regs, IbOffset(1), 0x1080_0000)
    && WindowSet(regs, 2, starts[2]) && RegisterIs(regs, IbOffset(2), MSMC_START)
    && WindowSet(regs, 3, starts[3]) && RegisterIs(regs, IbOffset(3), DDR_START)
  }

  // The registers after the first n windows.
  function FirstWindows(regs: map<nat, Word>, starts: seq<Word>, n: nat): map<nat, Word>
    requires |starts| == 4 && n <= 4
  {
    if n == 0 then regs
    else FirstWindows(regs, starts, n - 1)[IbBar(n - 1) := n - 1][IbStartLo(n - 1) := starts[n - 1]]
        [IbStartHi(n - 1) := 0]
  }

  function InboundRegisters(regs: map<nat, Word>, starts: seq<Word>): map<nat, Word>
    requires |starts| == 4
  {
    WithOffsets(FirstWindows(regs, starts, 4))
  }

  function WithOffsets(regs: map<nat, Word>): map<nat, Word> {
    regs[IbOffset(0) := PCIE_BASE_ADDRESS][IbOffset(1) := 0x1080_0000][IbOffset(2) := MSMC_START]
        [IbOffset(3) := DDR_START]
  }

  lemma OffsetsOnTop(regs: map<nat, Word>, starts: seq<Word>)
    requires |starts| == 4 && forall i: nat :: i < 4 ==> WindowSet(regs, i, starts[i])
    ensures InboundSet(WithOffsets(regs), starts)
  {
  }

  lemma WindowAdded(regs: map<nat, Word>, starts: seq<Word>, n: nat, i: nat)
    requires |starts| == 4 && n < 4 && i <= n
    requires i < n ==> WindowSet(FirstWindows(regs, starts, n), i, starts[i])
    ensures WindowSet(FirstWindows(regs, starts, n + 1), i, starts[i])
  {
  }

  lemma {:induction false} FirstWindowsSet(regs: map<nat, Word>, starts: seq<Word>, n: nat, i: nat)
    requires |starts| == 4 && i < n <= 4
    ensures WindowSet(FirstWindows(regs, starts, n), i, starts[i])
  {
    if i < n - 1 {
      FirstWindowsSet(regs, starts, n - 1, i);
    }
    WindowAdded(regs, starts, n - 1, i);
  }

  lemma {:induction false} FirstWindowsKeep(regs: map<nat, Word>, starts: seq<Word>, n: nat, k: nat)
    requires |starts| == 4 && n <= 4 && !(IbBar(0) <= k < IbBar(n))
    ensures k in FirstWindows(regs, starts, n) <==> k in regs
    ensures k in regs ==> FirstWindows(regs, starts, n)[k] == regs[k]
  {
    if n > 0 {
      FirstWindowsKeep(regs, starts, n - 1, k);
    }
  }

  /** The set-up puts the four windows in place. */
  lemma InboundRegistersSet(regs: map<nat, Word>, starts: seq<Word>)
    requires |starts| == 4
    ensures InboundSet(InboundRegisters(regs, starts), starts)
    ensures forall n | 0 <= n < |starts| ::
              var r := InboundRegisters(regs, starts);
              RegisterIs(r, 0xC0 + 4 * n, n) && RegisterIs(r, 0xC1 + 4 * n, starts[n]) && RegisterIs(r, 0xC2 + 4 * n, 0)
    ensures var r := InboundRegisters(regs, starts);
            && RegisterIs(r, 0xC3, 0x2180_0000) && RegisterIs(r, 0xC7, 0x1080_0000)
            && RegisterIs(r, 0xCB, 0x0C00_0000) && RegisterIs(r, 0xCF, 0x8000_0000)
  {
    forall i: nat | i < 4 ensures WindowSet(FirstWindows(regs, starts, 4), i, starts[i]) {
      FirstWindowsSet(regs, starts, 4, i);
    }
    OffsetsOnTop(FirstWindows(regs, starts, 4), starts);
  }

  /** It changes no register outside the inbound block. */
  lemma OtherRegistersKept(regs: map<nat, Word>, starts: seq<Word>, k: nat)
    requires |starts| == 4 && !(0xC0 <= k <= 0xCF)
    ensures k in InboundRegisters(regs, starts) <==> k in regs
    ensures k in regs ==> InboundRegisters(regs, starts)[k] == regs[k]
  {
    FirstWindowsKeep(regs, starts, 4, k);
  }

  method SetInBound(file: RegisterFile, starts: seq<Word>)
    requires |starts| == 4
    modifies file
    ensures file.regs == InboundRegisters(old(file.regs), starts)
  {
    var i := 0;
    while i < 4
      invariant 0 <= i <= 4
      invariant file.regs == FirstWindows(old(file.regs), starts, i)
    {
      file.IoWrite32(i, IbBar(i));
      file.IoWrite32(starts[i], IbStartLo(i));
      file.IoWrite32(0, IbStartHi(i));
      i := i + 1;
    }
    file.IoWrite32(PCIE_BASE_ADDRESS, IbOffset(0));
    file.IoWrite32(LL2_START + 0x1000_0000, IbOffset(1));
    file.IoWrite32(MSMC_START, IbOffset(2));
    file.IoWrite32(DDR_START, IbOffset(3));
  }

  function BarOf(r: Region): nat {
    match r case L2 => 1 case Msmc => 2 case Ddr => 3
  }

  /** The bus address of a store through the BAR pointer of its region. */
  function BusAddress(starts: seq<Word>, s: Store): nat
    requires |starts| == 4
  {
    starts[BarOf(s.region)] + 4 * s.index
  }

  /** The inbound translation: distance into the window, added to the window's DSP offset. */
  function DspAddress(regs: map<nat, Word>, bar: nat, busAddress: nat): int
    requires IbStartLo(bar) in regs && IbOffset(bar) in regs
  {
    busAddress - regs[IbStartLo(bar)] + regs[IbOffset(bar)]
  }

  /** The address a word sent to a DSP address is meant to reach, L2 seen through core 0's global alias. */
  function GlobalAddress(r: Region, address: Word): Word {
    match r case L2 => 0x1000_0000 + address % 0x100_0000 case Msmc => address case Ddr => address
  }

  /** Routing and inbound windows compose: word j of a section inside its region lands at the
      section's address plus 4 j, rounded down to a word, whatever the BARs' bus addresses are. */
  lemma SectionLands(regs: map<nat, Word>, starts: seq<Word>, coreNum: nat, s: Section, j: nat)
    requires |starts| == 4 && InboundSet(regs, starts)
    requires WellPlaced(s) && j < |s.words|
    ensures var r := RegionOf(Route(0, s.address)).value;
            var stores := SectionStores(coreNum, s);
            && |stores| == |s.words| && stores[j].value == s.words[j] && stores[j].region == r
            && DspAddress(regs, BarOf(r), BusAddress(starts, stores[j]))
               == GlobalAddress(r, s.address) + 4 * j - s.address % 4
  {
    SectionIsOneRun(coreNum, s);
    var r := RegionOf(Route(0, s.address)).value;
    var first := (Masked(r, s.address) - Start(r)) / 4;
    StoreLands(regs, starts, r, first + j, s.words[j]);
    WordOffset(Masked(r, s.address), Start(r));
    GlobalOfMasked(r, s.address);
  }

  // A store lands at its word's distance from the DSP address that its window opens at.
  lemma StoreLands(regs: map<nat, Word>, starts: seq<Word>, r: Region, index: nat, value: Word)
    requires |starts| == 4 && InboundSet(regs, starts)
    ensures DspAddress(regs, BarOf(r), BusAddress(starts, Store(r, index, value)))
            == GlobalAddress(r, Start(r)) + 4 * index
  {
  }

  lemma GlobalOfMasked(r: Region, address: Word)
    ensures GlobalAddress(r, address) - Masked(r, address) == GlobalAddress(r, Start(r)) - Start(r)
    ensures Masked(r, address) % 4 == address % 4
  {
  }

  lemma WordOffset(m: nat, start: nat)
    requires start <= m && start % 4 == 0
    ensures 4 * ((m - start) / 4) == m - start - m % 4
  {
  }

  /** A section lands on the very address it names exactly when that address is aligned and, for
      L2, is core 0's global one: another core's global address is folded onto core 0. */
  lemma LandsWhereNamedIff(regs: map<nat, Word>, starts: seq<Word>, coreNum: nat, s: Section)
    requires |starts| == 4 && InboundSet(regs, starts)
    requires WellPlaced(s) && |s.words| > 0
    ensures var r := RegionOf(Route(0, s.address)).value;
            var stores := SectionStores(coreNum, s);
            && |stores| > 0
            && (DspAddress(regs, BarOf(r), BusAddress(starts, stores[0])) == s.address
                <==> s.address % 4 == 0 && (r == L2 ==> s.address / 0x100_0000 == 0x10))
  {
    SectionLands(regs, starts, coreNum, s, 0);
  }

  // ----- outbound: the window through which the DSP sees host memory

  function WindowBytes(k: nat): nat
    requires k < 4
  {
    match k case 0 => 0x10_0000 case 1 => 0x20_0000 case 2 => 0x40_0000 case _ => 0x80_0000
  }

  /** The smallest window that holds the size, based at the greatest window multiple not above the address. */
  predicate IsWindow(k: nat, base: int, pcAddr: Word, size: Word) {
    && k < 4 && size <= WindowBytes(k) && (forall j: nat :: j < k ==> WindowBytes(j) < size)
    && base % WindowBytes(k) == 0 && base <= pcAddr < base + WindowBytes(k)
  }

  lemma SameWindowSize(k1: nat, k2: nat, size: Word)
    requires k1 < 4 && size <= WindowBytes(k1) && forall j: nat :: j < k1 ==> WindowBytes(j) < size
    requires k2 < 4 && size <= WindowBytes(k2) && forall j: nat :: j < k2 ==> WindowBytes(j) < size
    ensures k1 == k2
  {
  }

  lemma WindowUnique(k1: nat, base1: int, k2: nat, base2: int, pcAddr: Word, size: Word)
    requires IsWindow(k1, base1, pcAddr, size) && IsWindow(k2, base2, pcAddr, size)
    ensures k1 == k2 && base1 == base2
  {
    SameWindowSize(k1, k2, size);
  }

  /** The address under the window's base mask. */
  function PageBase(k: nat, pcAddr: Word): Word
    requires k < 4
  {
    match k
    case 0 => 0x10_0000 * (pcAddr / 0x10_0000)
    case 1 => 0x20_0000 * (pcAddr / 0x20_0000)
    case 2 => 0x40_0000 * (pcAddr / 0x40_0000)
    case _ => 0x80_0000 * (pcAddr / 0x80_0000)
  }

  lemma PageBaseIsWindow(k: nat, pcAddr: Word, size: Word)
    requires k < 4 && size <= WindowBytes(k) && forall j: nat :: j < k ==> WindowBytes(j) < size
    ensures IsWindow(k, PageBase(k, pcAddr), pcAddr, size) && PageBase(k, pcAddr) <= 0xFFF0_0000
  {
    PageBaseAligned(k, pcAddr);
  }

  lemma PageBaseAligned(k: nat, a: Word)
    requires k < 4
    ensures var base := PageBase(k, a);
            base % WindowBytes(k) == 0 && base <= a < base + WindowBytes(k) && base <= 0xFFF0_0000
  {
    match k
    case 0 => Multiples(a / 0x10_0000);
    case 1 => Multiples(a / 0x20_0000);
    case 2 => Multiples(a / 0x40_0000);
    case _ => Multiples(a / 0x80_0000);
  }

  lemma Multiples(q: int)
    ensures (0x10_0000 * q) % 0x10_0000 == 0
    ensures (0x20_0000 * q) % 0x20_0000 == 0
    ensures (0x40_0000 * q) % 0x40_0000 == 0
    ensures (0x80_0000 * q) % 0x80_0000 == 0
  {
  }

  /** Opens outbound window 0 for the range, register by register: the size code in 0x0C, the base with the
      enable bit in 0x80, and no high part in 0x81. Above 8 MB it fails and changes nothing. */
  method DspMemoryMap(file: RegisterFile, pcAddr: Word, size: Word) returns (retValue: int)
    modifies file
    ensures retValue == if size <= 0x80_0000 then 0 else -1
    ensures retValue != 0 ==> file.regs == old(file.regs)
    ensures retValue == 0 ==>
              && 0x0C in file.regs && 0x80 in file.regs && 0x81 in file.regs
              && var k, base := file.regs[0x0C] as nat, file.regs[0x80] as int - 1;
                 var window := if size <= 0x10_0000 then 0x10_0000 else if size <= 0x20_0000 then 0x20_0000
                               else if size <= 0x40_0000 then 0x40_0000 else 0x80_0000;
                 && k == (if size <= 0x10_0000 then 0 else if size <= 0x20_0000 then 1
                          else if size <= 0x40_0000 then 2 else 3)
                 && base % window == 0 && base <= pcAddr < base + window && file.regs[0x81] == 0
                 && IsWindow(k, base, pcAddr, size)
    ensures retValue == 0 ==>
              forall i: nat :: i != 0x0C && i != 0x80 && i != 0x81 ==>
                (i in file.regs <==> i in old(file.regs)) && (i in file.regs ==> file.regs[i] == old(file.regs)[i])
  {
    retValue := 0;
    var obSize := 0;
    if size <= 0x10_0000 {
      obSize := 0;
    } else if size <= 0x20_0000 {
      obSize := 1;
    } else if size <= 0x40_0000 {
      obSize := 2;
    } else if size <= 0x80_0000 {
      obSize := 3;
    } else {
      retValue := -1;
    }
    if retValue == 0 {
      file.IoWrite32(obSize, OB_SIZE);
      var pageBase := PageBase(obSize, pcAddr);
      PageBaseIsWindow(obSize, pcAddr, size);
      file.IoWrite32(pageBase + 1, OB_OFFSET_INDEX_0);
      file.IoWrite32(0x0, OB_OFFSET_HI_0);
    }
  }

  /** The whole range lies in the window exactly when its distance from the base leaves room for it;
      an address aligned to the window always does. */
  lemma RangeInWindowIff(k: nat, base: int, pcAddr: Word, size: Word)
    requires IsWindow(k, base, pcAddr, size)
    ensures pcAddr + size <= base + WindowBytes(k) <==> pcAddr % WindowBytes(k) + size <= WindowBytes(k)
    ensures pcAddr % WindowBytes(k) == 0 ==> base == pcAddr && pcAddr + size <= base + WindowBytes(k)
  {
    PageBaseIsWindow(k, pcAddr, size);
    WindowUnique(k, base, k, PageBase(k, pcAddr), pcAddr, size);
  }

  // ----- the shared zone

  const DMA_TRANSFER_SIZE: Word := 0x40_0000

  /** The alignment code of the boot loader, on 32-bit addresses: the physical address is rounded
      down to 1 MB and the register table is placed as far before the allocation. */
  method AlignZone(file: RegisterFile, dmaVirAddr: Word, dmaPhyAddr: Word)
    returns (alignPhyAddr: Word, registerTable: Word)
    modifies file
    ensures alignPhyAddr == Rounded(dmaPhyAddr) && registerTable == TableAddress(dmaVirAddr, dmaPhyAddr)
    ensures alignPhyAddr % 0x10_0000 == 0 && alignPhyAddr <= dmaPhyAddr < alignPhyAddr + 0x10_0000
    ensures registerTable == (dmaVirAddr + alignPhyAddr - dmaPhyAddr) % 0x1_0000_0000
    ensures 0x0C in file.regs && file.regs[0x0C] == 2
    ensures 0x80 in file.regs && file.regs[0x80] == DspBase(dmaPhyAddr) + 1
    ensures var base := file.regs[0x80] as int - 1; base % 0x40_0000 == 0 && base <= alignPhyAddr < base + 0x40_0000
    ensures 0x81 in file.regs && file.regs[0x81] == 0
    ensures forall i: nat :: i != 0x0C && i != 0x80 && i != 0x81 ==>
              (i in file.regs <==> i in old(file.regs)) && (i in file.regs ==> file.regs[i] == old(file.regs)[i])
  {
    alignPhyAddr := Rounded(dmaPhyAddr);
    var memOffset := (alignPhyAddr - dmaPhyAddr) % 0x1_0000_0000;
    registerTable := (dmaVirAddr + memOffset) % 0x1_0000_0000;
    ModSum(dmaVirAddr, alignPhyAddr - dmaPhyAddr);
    RoundedDown(dmaPhyAddr);
    var retMapVal := DspMemoryMap(file, alignPhyAddr, DMA_TRANSFER_SIZE);
    FourMegabyteWindow(file.regs[0x0C], file.regs[0x80] - 1, alignPhyAddr);
    RoundedTwice(dmaPhyAddr);
  }

  lemma RoundedDown(a: Word)
    ensures Rounded(a) % 0x10_0000 == 0 && Rounded(a) <= a < Rounded(a) + 0x10_0000
  {
  }

  lemma FourMegabyteWindow(k: nat, base: int, a: Word)
    requires IsWindow(k, base, a, DMA_TRANSFER_SIZE)
    ensures k == 2 && base == PageBase(2, a)
  {
    PageBaseIsWindow(2, a, DMA_TRANSFER_SIZE);
    WindowUnique(k, base, 2, PageBase(2, a), a, DMA_TRANSFER_SIZE);
  }

  function Rounded(a: Word): Word {
    0x10_0000 * (a / 0x10_0000)
  }

  lemma RoundedTwice(a: Word)
    ensures PageBase(2, Rounded(a)) == DspBase(a)
  {
  }

  function TableAddress(dmaVirAddr: Word, dmaPhyAddr: Word): Word {
    (dmaVirAddr + (Rounded(dmaPhyAddr) - dmaPhyAddr)) % 0x1_0000_0000
  }

  function DspBase(dmaPhyAddr: Word): Word {
    0x40_0000 * (dmaPhyAddr / 0x40_0000)
  }

  /** The physical byte behind a host address, in one allocation mapped linearly. */
  function PhysicalOf(dmaVirAddr: Word, dmaPhyAddr: Word, address: int): Word {
    (dmaPhyAddr + (address - dmaVirAddr)) % 0x1_0000_0000
  }

  predicate SameByte(dmaVirAddr: Word, dmaPhyAddr: Word, k: nat) {
    PhysicalOf(dmaVirAddr, dmaPhyAddr, TableAddress(dmaVirAddr, dmaPhyAddr) + k)
        == (DspBase(dmaPhyAddr) + k) % 0x1_0000_0000
  }

  lemma HostByte(dmaVirAddr: Word, dmaPhyAddr: Word, k: nat)
    ensures PhysicalOf(dmaVirAddr, dmaPhyAddr, TableAddress(dmaVirAddr, dmaPhyAddr) + k)
         == (Rounded(dmaPhyAddr) + k) % 0x1_0000_0000
  {
    ModSum(dmaPhyAddr + k - dmaVirAddr, dmaVirAddr + (Rounded(dmaPhyAddr) - dmaPhyAddr));
  }

  lemma SameModulo(x: int, y: int, k: nat)
    requires 0 <= y <= x < 0x1_0000_0000
    ensures (x + k) % 0x1_0000_0000 == (y + k) % 0x1_0000_0000 <==> x == y
  {
    if (x + k) % 0x1_0000_0000 == (y + k) % 0x1_0000_0000 {
      var p, q := (x + k) / 0x1_0000_0000, (y + k) / 0x1_0000_0000;
      assert x - y == 0x1_0000_0000 * (p - q);
    }
  }

  // Rounded down to 1 MB and then to 4 MB, or to 4 MB at once.
  lemma BaseBelowRounded(a: Word)
    ensures DspBase(a) == Rounded(a) - Rounded(a) % 0x40_0000
  {
    var m := a / 0x10_0000;
    assert a / 0x40_0000 == m / 4;
    assert Rounded(a) == 0x40_0000 * (m / 4) + 0x10_0000 * (m % 4);
  }

  /** Host and DSP mean the same byte by offset k, for every k of the zone or for none: exactly when the
      rounded-down physical address is a multiple of 4 MB. */
  lemma SidesAgreeIff(dmaVirAddr: Word, dmaPhyAddr: Word, k: nat)
    requires k < DMA_TRANSFER_SIZE
    ensures SameByte(dmaVirAddr, dmaPhyAddr, k) <==> Rounded(dmaPhyAddr) % 0x40_0000 == 0
  {
    HostByte(dmaVirAddr, dmaPhyAddr, k);
    BaseBelowRounded(dmaPhyAddr);
    SameModulo(Rounded(dmaPhyAddr), DspBase(dmaPhyAddr), k);
  }

  /** The table starts inside the allocation exactly when the DMA address is aligned to 1 MB;
      otherwise it lies before it. */
  lemma TableInsideIff(dmaVirAddr: Word, dmaPhyAddr: Word)
    requires dmaVirAddr + DMA_TRANSFER_SIZE <= 0x1_0000_0000
    ensures dmaVirAddr <= TableAddress(dmaVirAddr, dmaPhyAddr) < dmaVirAddr + DMA_TRANSFER_SIZE
            <==> dmaPhyAddr % 0x10_0000 == 0
  {
  }
}
