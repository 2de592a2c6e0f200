# Verified model of the DSPC8681 Linux driver

The driver boots TI C6678 DSPs over PCIE and exchanges buffers with them. This project models its
core in Dafny and proves what the code does, for all inputs and all interleavings with the DSP.

## What is modelled

- **CRC-32** (`Gf2`, `ShiftRegister`, `Crc32Table`, `Crc32`, `CrcProperties`). The table-driven loops are
  proved to compute a bit-serial shift register, and that register to compute the one remainder of
  polynomial division over GF(2). What the checksum detects follows from the algebra of polynomials.
  The engine works on bit vectors, the algebra on bit strings of any length. The generator is that of
  IEEE 802.3, section 3.2.9, with the highest bit first.
- **Polls** (`Polls`). A device word is a stream of samples; the three polls are one bounded search.
- **Boot-image upload** (`Words32`, `BootImage`, `Uploader`, `UploadProperties`). The section table with its
  round trips, the upload loops with every store they make, and the memories these stores leave.
- **Address windows** (`Windows`). Inbound and outbound translation, and the placement of the shared zone.
- **Link layer** (`LinkLayer`, `Channel`). The register table, the two driver calls, and the handshake of
  both directions running side by side in one shared memory.
- **Code push** (`BootPush`). The boot loader's handshake with the DSP, one word access at a time.

Outside the CRC engine, words are bounded integers with the 32-bit wrap written out. Masks are written as
remainders and quotients there, and the test that two words share a bit is a recursion over their bits;
`Words32.MasksAreRemainders` and `Words32.CommonBitIsAnd` tie these readings to the operators on bit vectors.

## What the proofs brought to light

- A poll that matches on its last permitted read reports a timeout (`Polls.PollExact`).
- The RESET poll for cores 1 and 2 is not checked (src/bootLoader.c:460). If it runs out, the stale FINISH in
  the status word lets the host pass, the DSP can read the zone while the host overwrites it, and
  0 can be returned with one image taken (`BootPush.OverlapReachable`, `BootPush.ZeroWithoutImagesReachable`).
  Checking that poll as for core 0 would be enough if and only if the status word, which the boot loader never
  clears, does not start with both its RESET and its FINISH bit set (`BootPush.SoundIffUnambiguous`). If it does,
  0 can be returned with no image taken and every poll passed (`BootPush.AmbiguousStartBootsUnseen`).
- A freshly opened channel can get stuck exactly when RESET is still standing in the receiver's word
  (`Channel.StuckIffStale`).
- A comment at src/bootLoader.c:171 says that L2 sections go to the core asked for. They do not: the register
  writes that would select the core are commented out, and the core number never matters
  (`UploadProperties.CoreNumberIgnored`). The model follows the code.
- `uploadProgram` never returns -1, so the result -1 that src/bootLoader.c:284 documents cannot arise from it.
- A 256-byte block that reaches over an end of its region is dropped, or stored, whole
  (`UploadProperties.BlockingInvisibleIff` says exactly when that shows).
- A section size above 0xFFFFFFFC rounds up to zero words (`BootImage.PaddingKeepsDataIff`), and its data is then
  parsed as the next size field (`BootImage.WrappedSizeMisparses`).
- Host and DSP agree on the shared zone only if the DMA address, rounded down to 1 MB, is a multiple of
  4 MB; the table lies before the allocation if the address is not a multiple of 1 MB.
- inc/crc32.h:16 declares `crc32_updateCrc`; src/crc32.c:30 defines `crc32_updataCrc`. The model has the latter.

## Model

| member | source | states |
|---|---|---|
| Crc32Table.TableCorrect | inc/crc32_table.h:1-25 | every table entry is eight bit-serial register steps applied to its index in the top byte |
| Crc32Table.LookUp | src/crc32.c:20 | the lookup the engine performs yields those eight steps |
| ShiftRegister.RunIsRemainder | src/crc32.c:17-21 | for any monic generator with a constant term, the register holds the remainder of start value and input by it, and no other value is one |
| ShiftRegister.TableStep | src/crc32.c:19-20 | why a table works: clocking only the leading bits mixed with the input and moving the rest up equals feeding the input bit by bit |
| ShiftRegister.RunPlus | src/crc32.c:17-21 | the register is linear in start value and input together |
| ShiftRegister.CollisionIffDivisible | src/crc32.c:17-21 | two inputs of one length leave the same register exactly when the generator divides their difference |
| ShiftRegister.ShortBurstIndivisible | src/crc32.c:17-21 | a multiple of the generator whose terms span no more than the register's width is zero |
| Gf2.DivisionUnique | src/crc32.c:17-21 | division by a monic polynomial has at most one quotient and remainder |
| Crc32.TableStepIsRun | src/crc32.c:19-20 | one table step on the 32-bit word is the bit-serial register fed with the byte's eight bits |
| Crc32.WordBitsInjective | src/crc32.c:22 | words are told apart by their bits, so results on bits determine the 32-bit value |
| Crc32.GetCrc | src/crc32.c:10-23 | for every byte string, the word written is the checksum of its bits |
| Crc32.InitCrc | src/crc32.c:25-28 | starts the streamed register at all ones |
| Crc32.UpdateCrc | src/crc32.c:30-35 | shifts the byte's bits into whatever the register holds |
| Crc32.FinalCrc | src/crc32.c:37-40 | complements every bit |
| CrcProperties.ChecksumIsRemainder | src/crc32.c:10-23 | the complemented checksum is the remainder of M(x) x^32 + 0xFFFFFFFF x^n by x^32 + 0x04C11DB7, both directions |
| CrcProperties.StreamMessage | src/crc32.c:25-40 | init, an update for each byte, and final write the checksum of the message |
| CrcProperties.StreamingAgrees | src/crc32.c:10-40 | the 32-bit word so written is the one that the one-shot call writes |
| CrcProperties.PiecesAgree | src/crc32.c:17-21 | a bit string may be cut into pieces anywhere: feeding them one after the other gives its checksum |
| CrcProperties.ChecksumAffine | src/crc32.c:10-23 | the checksum of the exclusive or of three messages is that of their checksums |
| CrcProperties.CollisionIff | src/crc32.c:10-23 | messages of one length have the same checksum exactly when the generator divides their difference |
| CrcProperties.BurstDetected | src/crc32.c:10-23 | different messages that agree outside 32 consecutive bits have different checksums |
| CrcProperties.LongerBurstUnseen | src/crc32.c:10-23 | 33 bits is too many: in every message, anywhere, the generator's own pattern changes the message and not the checksum |
| CrcProperties.ResidueIff | src/crc32.c:10-23 | 32 trailing bits leave the register at 0xC704DD7B exactly when they are the message's checksum |
| CrcProperties.ResidueOfBytes | src/crc32.c:10-23 | the same for four trailing bytes |
| CrcProperties.SpeltBits | src/common.c:11-22 | the four bytes of a word, most significant first, have the word's bits |
| CrcProperties.ResidueOfWord | src/crc32.c:10-23 | appending the four bytes of a word leaves the residue exactly when it is the word the engine writes for the message |
| CrcProperties.BitsInjective | src/crc32.c:17-20 | different byte strings of one length have different bits |
| Polls.PollExact | src/common.c:25-54 | a poll returns 0 exactly when one of the first n - 1 samples passes, takes at most n samples and none after the first that passes |
| Polls.PollEqualValue | src/common.c:25-54 | is that search with the test sample == value, result and samples taken |
| Polls.PollValue | src/common.c:57-86 | is that search with the test that sample and value share a bit |
| Polls.PollCompareValue | src/common.c:87-120 | returns 0 exactly when, in one of the first n - 1 passes, the two samples taken are equal, else -1; where both pointers name one word these are two successive samples of it |
| Polls.StepsAgree | src/common.c:32-51 | taking samples one at a time as protocol steps decides the same as the loop |
| Words32.MasksAreRemainders | src/bootLoader.c:68 | the driver's masks and shifts on 32-bit words are the remainders, quotients and products used in the model |
| Words32.CommonBitIsAnd | src/common.c:70-73 | two words share a bit exactly when their bitwise and, as 32-bit vectors, is not zero |
| Words32.ByteTo32Bits | src/common.c:11-22 | assembles the four bytes at a position, b0 in bits 31-24 down to b3 in bits 7-0 |
| Words32.WordRoundTrip | src/common.c:11-22 | reading a written word gives it back, wherever it stands |
| Words32.BytesRoundTrip | src/common.c:11-22 | writing a read word gives its four bytes back |
| BootImage.PaddingKeepsDataIff | src/bootLoader.c:152-156 | rounding a section size up keeps all its data, and at most three bytes more, exactly when the size is at most 0xFFFFFFFC; above that it keeps none |
| BootImage.WrappedSizeMisparses | src/bootLoader.c:150-214 | for such a size the first data word is parsed as the next size field, and ends the table if it is zero |
| BootImage.ParsesIffTable | src/bootLoader.c:147-214 | a table is parsed to its sections exactly when each non-zero size, address and data word stands in its place, with a zero size behind the last section, and the end is behind that |
| BootImage.ParsesIffImage | src/bootLoader.c:143-214 | an image is parsed exactly when its entry word comes first and such a table stands behind it |
| BootImage.SectionsRoundTrip | src/bootLoader.c:147-214 | parsing an encoded table, with anything before and after it, gives its sections back and ends exactly behind it |
| BootImage.ImageRoundTrip | src/bootLoader.c:143-214 | the same for entry address and table, with bytes behind the table ignored |
| BootImage.ParseThenEncode | src/bootLoader.c:147-214 | conversely the bytes consumed are the encoding of what was parsed |
| Uploader.PcieBars.Poke | src/bootLoader.c:113 | one store changes one word of the memory it names, leaves the other memories, and is put on record |
| Uploader.StoreWords | src/bootLoader.c:111-115 | the store loop makes exactly one store per word, at consecutive indices from its start |
| Uploader.WriteDspMemory | src/bootLoader.c:41-127 | the stores of one transfer, and its result: the length for an address in the range of its core number, else 0 |
| Uploader.TransferByAddress | src/bootLoader.c:57-115 | where a transfer goes, by core number and address: L2 from 0x800000 on in the low 24 bits, MSMC from 0x0C000000, DDR from 0x80000000, otherwise nowhere |
| Uploader.UploadSection | src/bootLoader.c:189-209 | the block loops send the section's words block by block, whatever the remainder |
| Uploader.UploadSections | src/bootLoader.c:147-214 | the section loop sends exactly the parsed sections, reads inside the image and ends |
| Uploader.UploadProgram | src/bootLoader.c:129-229 | for every image whose table does not run off its end, all stores in order; the result is always 0 |
| UploadProperties.BlockingInvisibleIff | src/bootLoader.c:189-209 | blocked copy and word-by-word copy make the same stores if and only if no block reaches over an end of the region's address range |
| UploadProperties.StraddlingExample | src/bootLoader.c:72-75 | concrete section for which they differ |
| UploadProperties.TableIsWordByWord | src/bootLoader.c:150-214 | without such blocks the whole upload is the naive word-by-word one |
| UploadProperties.SectionIsOneRun | src/bootLoader.c:150-209 | a section inside its region becomes one unbroken run of stores, aligned or not |
| UploadProperties.MsmcSection | src/bootLoader.c:179-182 | a section within 0x0C000000 to 0x0D000000 is stored in MSMC, at its distance from 0x0C000000, and nowhere else |
| UploadProperties.DdrSection | src/bootLoader.c:183-186 | a section from 0x80000000 on is stored in DDR, at its distance from there |
| UploadProperties.L2Section | src/bootLoader.c:163-178 | a section with high byte 0 or 0x10 to 0x1F is stored in L2, at the distance of its low 24 bits from 0x800000 |
| UploadProperties.NowhereSection | src/bootLoader.c:72-99 | a section below L2, or below 0x80000000 and not in L2 or MSMC, is stored nowhere |
| UploadProperties.CoreNumberIgnored | src/bootLoader.c:167-178 | the stores do not depend on the core number |
| UploadProperties.ReplayKeepsLast | src/bootLoader.c:111-115 | every memory word holds the value last stored to it, or its old value |
| UploadProperties.EntryIsLast | src/bootLoader.c:217 | the last store of every upload is the entry word at the magic address, which therefore holds it even if a section covers it |
| UploadProperties.StoredIff | src/bootLoader.c:150-217 | for every image, wherever its sections are placed, a word is stored to exactly when a section covers it or it is the magic word |
| UploadProperties.OtherWordsKept | src/bootLoader.c:150-217 | and every other word keeps its value |
| UploadProperties.WellPlacedCovers | src/bootLoader.c:66-115 | a section inside its region covers exactly the words from its own address on |
| UploadProperties.OutOfRangeStoresNothing | src/bootLoader.c:72-75 | a section that lies below its region's start covers no word and makes no store |
| Windows.SetInBound | src/pcie.c:307-326 | the registers after the set-up |
| Windows.InboundRegistersSet | src/pcie.c:315-324 | these hold all four windows with their offsets, by register index |
| Windows.OtherRegistersKept | src/pcie.c:315-324 | and no other register changed |
| Windows.SectionLands | src/bootLoader.c:66-115 | routing and inbound windows compose: word j of a section lands at its DSP address plus 4 j, L2 at core 0's global alias, rounded down to a word |
| Windows.LandsWhereNamedIff | src/bootLoader.c:163-186 | it lands at the address it names exactly when that is aligned and not another core's or a local L2 address |
| Windows.DspMemoryMap | src/bootLoader.c:231-276 | register by register: the code of the smallest fitting window, its base at the greatest multiple not above the address with the enable bit added, and 0; or fails above 8 MB; nothing else changes |
| Windows.WindowUnique | src/bootLoader.c:240-268 | that determines size code and base |
| Windows.RangeInWindowIff | src/bootLoader.c:265-271 | the whole range is visible exactly when the address, taken modulo the window, leaves room for it; always if it is aligned |
| Windows.AlignZone | src/bootLoader.c:310-331 | where the register table and the DSP's 4 MB window are put, and which registers change |
| Windows.SidesAgreeIff | src/bootLoader.c:310-331 | host and DSP mean the same byte by every offset exactly when the rounded address is a multiple of 4 MB |
| Windows.TableInsideIff | src/bootLoader.c:312-322 | the table starts inside the allocation exactly when the DMA address is a multiple of 1 MB |
| LinkLayer.MembersApart | inc/LinkLayer.h:76-102 | members of the register table do not overlap |
| LinkLayer.TableLayout | inc/LinkLayer.h:76-102 | offsets of the handshake words and the size of the table, from the member list |
| LinkLayer.LinkLayerHandler.Open | src/LinkLayer.c:65-87 | table, out buffer and in buffer tile the 4 MB zone: every byte of it in exactly one part, none outside; where they start |
| LinkLayer.ChangeBufferStatus | src/LinkLayer.c:278-335 | which control word each command sets to which value, and that nothing else changes |
| LinkLayer.WaitBufferReady | src/LinkLayer.c:165-260 | each query returns 0 exactly when its direction's status word equals its value in one of the first n - 1 samples, else -1 |
| LinkLayer.MaskedPollWouldConfuse | src/LinkLayer.c:219-220 | under the masked poll that is commented out, each status would pass for the other |
| Channel.HostMovesAreDriverCalls | src/LinkLayer.c:278-311 | the host's stores in the handshake are exactly these commands |
| Channel.HostWaitsAreQueries | src/LinkLayer.c:174-224 | a waiting host moves on exactly when a sample shows what its query polls for, and stays where it is otherwise |
| Channel.ChannelsApart | src/LinkLayer.c:81-82 | which words the two buffers are, and that the words of the two channels are disjoint |
| Channel.SenderKeepsInv | inc/LinkLayer.h:8-24 | every sender step keeps the handshake invariant |
| Channel.ReceiverKeepsInv | inc/LinkLayer.h:8-24 | so does every receiver step |
| Channel.NextKeepsBoth | src/LinkLayer.c:286-311 | a step of either channel, or of anything else in the zone, keeps both invariants |
| Channel.NothingLostOrDoubled | src/LinkLayer.c:165-260 | in every state of every run of both channels, with messages of any lengths, sent is received followed by at most one message |
| Channel.BuffersNeverShared | src/LinkLayer.c:174-197 | nobody writes a buffer while the other side reads it: a sender writes only under its own RESET, a receiver reads only under FINISH |
| Channel.RunRefinesQueues | src/LinkLayer.c:165-311 | every step is a step of a one-place queue on each channel |
| Channel.Delivers | src/LinkLayer.c:174-311 | from rest, whatever the zone holds, any message that fits the buffer can be sent and received |
| Channel.DeliversAll | src/LinkLayer.c:174-311 | and so can any sequence of them, in order |
| Channel.FreshNeverStuck | src/LinkLayer.c:174-197 | some step is always possible while RESET in the receiver's word is fresh |
| Channel.StuckIffStale | src/LinkLayer.c:174-197 | an opened channel can get stuck exactly when RESET already stands in the receiver's word |
| BootPush.HostKeepsInv | src/bootLoader.c:344-511 | every boot loader move that is no lapse keeps the invariant |
| BootPush.DspKeepsInv | inc/bootLoader.h:15-33 | so does every DSP step |
| BootPush.TakenInOrder | src/bootLoader.c:357-485 | in every run without a lapse, if the status word does not start with both its bits set, the images taken are a prefix of the three, intact, and while the zone is copied to the DSP neither reads it nor may start to |
| BootPush.BootedMeansAllTaken | src/bootLoader.c:357-511 | in such a run, result 0 means that all three were taken exactly once, in order, and that RESET stands in the control word |
| BootPush.InitAwaited | src/bootLoader.c:344-361 | the push waits for the init poll: until a sample has shown the DSP ready, or was the last permitted one, the host stores nothing |
| BootPush.PollGoesOnIff | src/bootLoader.c:344-504 | each of the four polls takes another sample exactly when the last one fails its test and samples are left |
| BootPush.ReturnsIff | src/bootLoader.c:361-511 | -2 exactly when the RESET poll of core 0 or a FINISH poll runs out, -4 exactly when the comparison does, 0 exactly when it succeeds, and no other result |
| BootPush.BootedMeansCoresUp | src/bootLoader.c:488-504 | result 0 needs a sample of the cores' boot status equal to 0x07 |
| BootPush.AnsweredMeansNoLapse | src/bootLoader.c:460-461 | from such a start, if every RESET poll succeeded there is no lapse |
| BootPush.AmbiguousStartBootsUnseen | src/bootLoader.c:361-511 | if the status word starts with both bits set, 0 can be returned with no image taken, without a lapse and with every poll passed |
| BootPush.SoundIffUnambiguous | src/bootLoader.c:344-511 | result 0 means that all images were taken, in runs without a lapse and in runs with every RESET poll checked, exactly when the status word does not start so |
| BootPush.UnansweredFinishPassesIff | src/bootLoader.c:468-472 | for cores 1 and 2 the FINISH poll passes at once, with nothing read, exactly when the DSP had not answered RESET |
| BootPush.SlowAnswerReachable | src/bootLoader.c:457-468 | from every start the copy of core 1 can be finished with its RESET poll run out |
| BootPush.OverlapReachable | src/bootLoader.c:457-472 | and then the zone can be overwritten while the DSP reads it |
| BootPush.ZeroWithoutImagesReachable | src/bootLoader.c:457-511 | and 0 can be returned with one image taken |
| BootPush.HostMoveOnTime | src/bootLoader.c:344-511 | with a prompt DSP every move shrinks the number of moves left and no poll runs out |
| BootPush.PromptDspBoots | src/bootLoader.c:344-511 | if every answer shows by the last but one sample its poll may take, boot ends after a bounded number of moves with 0, and all images taken unless the status word started with both bits |
| BootPush.LastSampleIsTooLate | src/common.c:64-83 | one sample later fails, whatever that sample shows |

## Left out

- DSP firmware: it is not in the repository. It appears as the contract in the headers' comments: the receiver answers
  RESET with RESET and on FINISH reads what was written, then answers FINISH. The DSP is assumed to read as many
  words as were pushed, and to wait for RESET first; the words of the table may hold anything at boot.
- BootPush.HostMove: the push part of `bootLoader` is a function on states and not a method, because it interleaves with
  the DSP; the DMA allocation and debug output around it are not captured. The poll bound is a parameter, 0xffffffff in
  the code, and images are sequences of words: the up to three bytes that src/bootLoader.c:358 copies past the end of
  core 0's image are not modelled.
- Channel.NothingLostOrDoubled: how the receiver learns a message's length is left to the applications; the model has
  it known with FINISH. The clients are assumed to issue the calls in the order RESET, QRESET, FIN, QFIN, mirrored
  for reading, and to repeat a query that timed out.
- Channel.StuckIffStale: speaks of one channel by itself, with no other access to its words.
- UploadProperties.TableIsWordByWord: one direction only; for a whole table, stores of different straddling sections could
  agree by coincidence, so the two-way statement is made per section.
- LinkLayer.WaitBufferReady: other types than the four queries leave the status pointer null; they are excluded.
- Uploader.UploadProgram: accesses past the mapped length of a BAR are not modelled; memories are maps of words.
- Windows.SetInBound: bus addresses are 32-bit, as the registers are.
- Module set-up, character device, mmap, ioctl dispatch and the interrupt handler (src/entry.c).
- BAR probing, bus mastering and interrupt registers (the rest of src/pcie.c).
- Code under `#if 0`, `LinkLayer_Close`, logging and allocation failure.
- Cache coherence, PCIE ordering and the byte order of device stores: a 32-bit access is one step.
