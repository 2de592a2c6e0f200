/** The shared register table and buffers, and the link layer's two driver calls. */
module LinkLayer {
  import opened Words32
  import opened Polls

  // ----- the register table, member by member, in words

  datatype Register =
    | DPUBootStatus | SetMultiCoreBootStatus | MultiCoreBootStatus | WriteStatus | ReadStatus
    | GetPicNumers | FailPicNumers | DpmOverStatus | DpmStartStatus | DpmAllOverStatus | PushCodeStatus | Reserved0
    | DPUBootControl | WriteControl | ReadControl | UrlNumsReg | ModelType
    | DpmOverControl | DpmStartControl | PushCodeControl | Reserved1

  datatype Member = Member(register: Register, words: nat)

  const TABLE: seq<Member> := [
    Member(DPUBootStatus, 1), Member(SetMultiCoreBootStatus, 1), Member(MultiCoreBootStatus, 1),
    Member(WriteStatus, 1), Member(ReadStatus, 1), Member(GetPicNumers, 1), Member(FailPicNumers, 1),
    Member(DpmOverStatus, 1), Member(DpmStartStatus, 1), Member(DpmAllOverStatus, 1), Member(PushCodeStatus, 1),
    Member(Reserved0, 0x1000 / 4 - 11),
    Member(DPUBootControl, 1), Member(WriteControl, 1), Member(ReadControl, 1), Member(UrlNumsReg, 1),
    Member(ModelType, 1), Member(DpmOverControl, 1), Member(DpmStartControl, 1), Member(PushCodeControl, 1),
    Member(Reserved1, 0x1000 / 4 - 8)]

  /** The word at which member k starts: the sizes of the members before it. */
  function OffsetOf(k: nat): nat
    requires k <= |TABLE|
  {
    if k == 0 then 0 else OffsetOf(k - 1) + TABLE[k - 1].words
  }

  const PUSH_CODE_STATUS: nat := 10
  const WRITE_STATUS: nat := 3
  const READ_STATUS: nat := 4
  const WRITE_CONTROL: nat := 0x401
  const READ_CONTROL: nat := 0x402
  const PUSH_CODE_CONTROL: nat := 0x407
  const TABLE_WORDS: nat := 0x800
  const OUT_WORDS: nat := 2 * 4 * 1024 / 4
  const IN_WORDS: nat := (4 * 1024 * 1024 - 4 * 4 * 1024) / 4
  const ZONE_WORDS: nat := 0x10_0000

  lemma {:induction false} MembersApart(j: nat, k: nat)
    requires j < k <= |TABLE|
    ensures OffsetOf(j) + TABLE[j].words <= OffsetOf(k)
  {
    if j + 1 < k {
      MembersApart(j, k - 1);
    }
  }

  lemma {:induction false} SingleWords(from: nat, k: nat)
    requires from <= k <= |TABLE| && forall i :: from <= i < k ==> TABLE[i].words == 1
    ensures OffsetOf(k) == OffsetOf(from) + (k - from)
  {
    if k > from {
      SingleWords(from, k - 1);
    }
  }

  lemma StatusWords(k: nat)
    requires k <= 11
    ensures OffsetOf(k) == k
  {
  }

  lemma ControlWords(k: nat)
    requires 12 <= k <= 20
    ensures OffsetOf(k) == 0x400 + k - 12
  {
    StatusWords(11);
    assert TABLE[11].words == 0x400 - 11;
    SingleWords(12, k);
  }

  /** The offsets of the handshake words and the size of the table follow from the member list. */
  lemma TableLayout()
    ensures |TABLE| == 21
    ensures TABLE[3].register == WriteStatus && OffsetOf(3) == WRITE_STATUS == 3
    ensures TABLE[4].register == ReadStatus && OffsetOf(4) == READ_STATUS == 4
    ensures TABLE[10].register == PushCodeStatus && OffsetOf(10) == PUSH_CODE_STATUS == 10
    ensures TABLE[13].register == WriteControl && OffsetOf(13) == WRITE_CONTROL == 0x401
    ensures TABLE[14].register == ReadControl && OffsetOf(14) == READ_CONTROL == 0x402
    ensures TABLE[19].register == PushCodeControl && OffsetOf(19) == PUSH_CODE_CONTROL == 0x407
    ensures OffsetOf(21) == TABLE_WORDS == 0x800
  {
    StatusWords(3);
    StatusWords(4);
    StatusWords(10);
    ControlWords(13);
    ControlWords(14);
    ControlWords(19);
    ControlWords(20);
    assert TABLE[20].words == 0x400 - 8;
  }

  // ----- opening a link

  class LinkLayerHandler {
    var registerTable: nat
    var outBuffer: nat
    var inBuffer: nat
    var outBufferLength: nat
    var inBufferLength: nat
    var readConfirmReg: nat
    var writeConfirmReg: nat

    constructor ()
    {
      registerTable, outBuffer, inBuffer, outBufferLength, inBufferLength := 0, 0, 0, 0, 0;
      readConfirmReg, writeConfirmReg := 0, 0;
    }

    predicate InTable(address: nat)
      reads this
    {
      registerTable <= address < registerTable + 4 * TABLE_WORDS
    }

    predicate InOutBuffer(address: nat)
      reads this
    {
      outBuffer <= address < outBuffer + outBufferLength
    }

    predicate InInBuffer(address: nat)
      reads this
    {
      inBuffer <= address < inBuffer + inBufferLength
    }

    /** Table, out buffer and in buffer tile the 4 MB zone: every byte of it is in exactly one
        part, and no byte outside it is in any. */
    method Open(table: nat, regVirt: nat) returns (retVal: int)
      modifies this
      ensures registerTable == table
      ensures forall a: nat :: InTable(a) || InOutBuffer(a) || InInBuffer(a) <==> table <= a < table + 4 * ZONE_WORDS
      ensures forall a: nat :: !(InTable(a) && InOutBuffer(a)) && !(InTable(a) && InInBuffer(a))
      ensures forall a: nat :: !(InOutBuffer(a) && InInBuffer(a))
      ensures outBuffer == table + 0x2000 && inBuffer == table + 0x4000
      ensures readConfirmReg == regVirt + 0x180 && writeConfirmReg == regVirt + 0x190
      ensures retVal == 0
    {
      registerTable := table;
      outBufferLength := 2 * 4 * 1024;
      inBufferLength := 4 * 1024 * 1024 - 4 * 4 * 1024;
      outBuffer := table + 4 * TABLE_WORDS;
      inBuffer := outBuffer + outBufferLength;
      readConfirmReg := regVirt + 0x180;
      writeConfirmReg := regVirt + 0x190;
      retVal := 0;
    }
  }

  // ----- the handshake words

  const DSP_RD_RESET: Word := 0x0000_55AA
  const DSP_RD_FINISH: Word := 0x5500_00AA
  const PC_WT_RESET: Word := 0x0000_AA55
  const PC_WT_FINISH: Word := 0xAA00_0055
  const PC_RD_RESET: Word := 0x0000_77BB
  const PC_RD_FINISH: Word := 0x7700_00BB
  const DSP_WT_RESET: Word := 0x0000_BB77
  const DSP_WT_FINISH: Word := 0xBB00_0077

  datatype IoType =
    | Reserver | WriteReset | WriteQReset | WriteFin | WriteQFin | ReadReset | ReadQReset | ReadFin | ReadQFin

  predicate IsQuery(io: IoType) {
    io == WriteQReset || io == WriteQFin || io == ReadQReset || io == ReadQFin
  }

  /** The status value a query waits for. */
  function ReadyValue(io: IoType): Word
    requires IsQuery(io)
  {
    match io
    case WriteQReset => DSP_RD_RESET
    case WriteQFin => DSP_RD_FINISH
    case ReadQReset => DSP_WT_RESET
    case _ => DSP_WT_FINISH
  }

  /** The control word a command sets, and to what; the other types set nothing. */
  function ControlStore(zone: seq<Word>, io: IoType): seq<Word>
    requires |zone| == ZONE_WORDS
  {
    match io
    case WriteReset => zone[WRITE_CONTROL := PC_WT_RESET]
    case WriteFin => zone[WRITE_CONTROL := PC_WT_FINISH]
    case ReadReset => zone[READ_CONTROL := PC_RD_RESET]
    case ReadFin => zone[READ_CONTROL := PC_RD_FINISH]
    case _ => zone
  }

  method ChangeBufferStatus(zone: array<Word>, ioType: IoType) returns (retValue: int)
    requires zone.Length == ZONE_WORDS
    modifies zone
    ensures zone[..] == ControlStore(old(zone[..]), ioType)
    ensures ioType == WriteReset ==> zone[0x401] == 0x0000_AA55
    ensures ioType == WriteFin ==> zone[0x401] == 0xAA00_0055
    ensures ioType == ReadReset ==> zone[0x402] == 0x0000_77BB
    ensures ioType == ReadFin ==> zone[0x402] == 0x7700_00BB
    ensures forall i :: 0 <= i < zone.Length && zone[i] != old(zone[i]) ==>
              if i == 0x401 then ioType == WriteReset || ioType == WriteFin
              else i == 0x402 && (ioType == ReadReset || ioType == ReadFin)
    ensures retValue == 0
  {
    retValue := 0;
    if ioType == WriteReset {
      zone[WRITE_CONTROL] := PC_WT_RESET;
    }
    if ioType == WriteFin {
      zone[WRITE_CONTROL] := PC_WT_FINISH;
    }
    if ioType == ReadReset {
      zone[READ_CONTROL] := PC_RD_RESET;
    }
    if ioType == ReadFin {
      zone[READ_CONTROL] := PC_RD_FINISH;
    }
  }

  /** A query polls the status word of its direction for equality with the value it waits for. */
  method WaitBufferReady(writeStatus: VolatileWord, readStatus: VolatileWord, ioType: IoType, pendtime: nat)
    returns (retValue: int)
    requires IsQuery(ioType) && pendtime < 0x1_0000_0000
    modifies writeStatus`readCount, readStatus`readCount
    ensures var status := if ioType == WriteQReset || ioType == WriteQFin then writeStatus else readStatus;
            var start := old(status.readCount);
            var hit := (i: nat) => status.samples(start + i) == ReadyValue(ioType);
            retValue == PollResult(hit, pendtime) && status.readCount == start + ReadsTaken(hit, 0, pendtime)
    ensures var status := if ioType == WriteQReset || ioType == WriteQFin then writeStatus else readStatus;
            var wanted := if ioType == WriteQReset then 0x0000_55AA else if ioType == WriteQFin then 0x5500_00AA
                          else if ioType == ReadQReset then 0x0000_BB77 else 0xBB00_0077;
            var start := old(status.readCount);
            retValue == 0 <==> exists j: nat :: start <= j && j + 1 < start + pendtime && status.samples(j) == wanted
    ensures retValue == 0 || retValue == -1
  {
    var bufferStatus, readyValue := writeStatus, DSP_RD_RESET;
    if ioType == WriteQReset {
      bufferStatus, readyValue := writeStatus, DSP_RD_RESET;
    }
    if ioType == WriteQFin {
      bufferStatus, readyValue := writeStatus, DSP_RD_FINISH;
    }
    if ioType == ReadQReset {
      bufferStatus, readyValue := readStatus, DSP_WT_RESET;
    }
    if ioType == ReadQFin {
      bufferStatus, readyValue := readStatus, DSP_WT_FINISH;
    }
    ghost var start := bufferStatus.readCount;
    retValue := PollEqualValue(bufferStatus, readyValue, pendtime);
    ghost var polled := (i: nat) => bufferStatus.samples(start + i) == readyValue;
    ghost var wanted := (i: nat) => bufferStatus.samples(start + i) == ReadyValue(ioType);
    assert readyValue == ReadyValue(ioType);
    forall k: nat ensures polled(k) == wanted(k) {}
    SameHits(polled, wanted, 0, pendtime);
    EqualPollDecides(bufferStatus, start, readyValue, pendtime);
  }

  lemma LowestCommon(a: Word, b: Word)
    requires a % 2 == 1 && b % 2 == 1
    ensures CommonBit(a, b)
  {
  }

  /** Why these polls compare for equality: under a mask each status would pass for the other,
      while the boot loader's RESET and FINISH bits are told apart by a mask. */
  lemma MaskedPollWouldConfuse()
    ensures CommonBit(DSP_RD_RESET, DSP_RD_FINISH) && CommonBit(DSP_WT_RESET, DSP_WT_FINISH)
    ensures DSP_RD_RESET != DSP_RD_FINISH && DSP_WT_RESET != DSP_WT_FINISH
    ensures !CommonBit(0x1, 0x10)
  {
    LowestCommon(0x2AD5, 0x2A80_0055);
    LowestCommon(DSP_WT_RESET, DSP_WT_FINISH);
  }
}
