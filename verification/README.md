# Verified models of EDK II components

A Dafny model of five parts of EDK II that hold real algorithms, and proofs about them:

* the GDB stub (`EmbeddedPkg/GdbStub`): framed packets with checksums, retries and
  resynchronisation; memory commands; the chunked library list; file I/O under a
  periodic interrupt;
* boot memory on ARM (`ArmPlatformPkg`): placing the UEFI region, splitting resource
  descriptors around the firmware device (FD), dividing and moving temporary RAM;
* the scripts `FormatDosFiles.py`, `PatchCheck.py`, `ConvertMasmToNasm.py` and
  `DetectNotUsedItem.py` (`BaseTools/Scripts`);
* device-tree enumeration (`ArmVirtPkg/FdtClientDxe`, `ArmVirtPkg/HighMemDxe`).

`dafny verify dfyconfig.toml` checks everything. The files are independent but for the
small shared modules `Options`, `Words`, `Text` and `Bytes`, the GDB chain
`GdbPacket` - `GdbTranscript` - `GdbLink` / `GdbQxfer` / `GdbSerialIo`, and
`FormatThenCheck`, which joins the formatter and the patch checker, with `FileCheck` and
`GitHeads` on top of it.

## Main results

* **The link delivers exactly once, or gives up after exactly the limit.** SendPacket and
  calls of ReceivePacket are put against each other byte by byte, over a line that may
  damage any transmission so that its sum disagrees, and any answer. In every interleaving
  nothing but the payload is ever delivered, every interleaving ends, and all of them end in
  the same place, with as many deliveries as transmissions arrived intact
  (`GdbLink.NeverWrong`, `GdbLink.Progress`, `GdbLink.Completes`, `GdbLink.Outcome`). That is
  one delivery or none where answers come through (`GdbLink.ExactlyOnce`).
* **What ReceivePacket accepts, without its states.** A stream delivers `d` if and only if
  it begins with refused attempts followed by one accepted attempt whose last body is `d`;
  every refusal is answered by one '-', the acceptance by one '+'
  (`GdbTranscript.DeliveredExactly`, `GdbTranscript.StreamExplained`). An undamaged frame
  survives if and only if its payload has no '$' and no '#' and is at least two bytes
  shorter than the buffer, or one byte shorter with a zero sum (`GdbTranscript.FrameSurvives`).
  Behind a packet that broke off, a whole frame is delivered under an exact condition on the
  length of the broken one (`GdbTranscript.UnfinishedDropped`).
* **Interrupts are invisible to GdbRead.** Over every interleaving with the periodic
  callback and with calls of GdbWrite before it, GdbRead returns what it would have returned
  alone on one unbroken stretch of the stream (`GdbSerialIo.Transparent`). This holds because
  of `gProcessingFPacket` and only because of it: GdbWrite does not raise the flag, and the
  callback can take its bytes (`GdbSerialIo.ExclusiveExactly`). On a clean line it returns
  the code the debugger sent, whatever that and errno are, and answers errno other than zero
  with that error (`GdbSerialIo.ReadExchange`).
* **The debugger learns the libraries.** A session, unescaped by exclusive or with 20h,
  joined and read line by line, gives name and address of exactly the listed table entries
  (`GdbQxfer.DocumentRead`).
* **The region goes as high as possible**: no other address in memory, below 2^48 and clear
  of the FD, is higher (`MemoryInit.PlacementHighest`).
* **The split conserves memory.** Every address is covered by as many descriptors with the
  same attributes as before (`MemoryInit.SplitConserves`); the FD gets a descriptor of its
  own except in one case that is stated exactly (`MemoryInit.FdIsolated`); the region given
  to PEI lies in one descriptor, clear of the FD (`MemoryInit.RegionUsable`).
* **Five regular expressions are one line format.** `FormatDosFiles.FormatFileExact` and
  `FormatDosFiles.Idempotent` hold for every byte string.
* **A formatted file passes the patch check.** The formatter, the diff git writes for a new
  file, and the checker are put in a row (`FormatThenCheck.FormatAndCheck`). The lines the
  checker reads are given for every ASCII text (`FormatThenCheck.DiffLines`); source text is
  never refused for its layout (`FormatThenCheck.FormattedPasses`); and where CRLF is asked
  for and no submodule is named the verdict has an exact condition on the file before
  formatting (`FormatThenCheck.PassesExactly`).
* **The checker accepts what the formatter would leave alone.** On a file as it stands, where
  CRLF is asked for and no submodule is named, the verdict is good if and only if formatting
  changes nothing, no carriage return stands alone but at the end, and no deprecated macro is
  used (`FileCheck.AcceptedExactly`). The head git writes for a new file meets the
  hypotheses, for every name without spaces (`GitHeads.NewFileHeadFits`).
* **GitDiffCheck's verdict, declaratively** (`PatchCheck.CheckDiff`, `PatchCheck.RegionExact`).
* **Anonymous labels keep their targets** exactly when the label stands alone on its line and
  no ordinary label lies between reference and definition (`AnonLabels.TargetsPreserved`,
  `AnonLabels.KeptExactly`); in NASM a label that begins with a period is local to the
  ordinary label above it (section "Local Labels" of the NASM manual).
  Lines are converted as text; that this is the conversion of their tokens holds under an
  exact condition (`AnonLabels.ConvertedByToken`).

Where code and expectation differ, the code is modelled as it is. One lemma gives the exact
condition under which the expectation holds, another an input, or a family of inputs, for
which it does not:

* a payload that fits the buffer arrives: `GdbTranscript.FrameSurvives`, `GdbTranscript.FullFrame`;
* an unfinished packet is dropped, as the comment above ReceivePacket says:
  `GdbTranscript.UnfinishedDropped`, `GdbTranscript.FrameLost`;
* the size check of an M packet: `GdbMemory.SizeCheckExact`, `GdbMemory.HugeLengthSlipsThrough`;
* the offset expected next is the text handed out so far: `GdbQxfer.OffsetRunsAhead`,
  `GdbQxfer.CountingReaderStuck`;
* what is acknowledged was delivered, once: `GdbLink.Outcome`, `GdbLink.DamagedAnswer`;
* GdbRead returns -1 on error, as its comment says: `GdbSerialIo.MinusOneExactly`,
  `GdbSerialIo.MinusLost`;
* the callback keeps off the bytes of a call: `GdbSerialIo.ExclusiveExactly`, `GdbSerialIo.StolenByte`;
* the region lies in memory and off the FD: `MemoryInit.PlacementSound`,
  `MemoryInit.RegionInsideFd`, `MemoryInit.RegionBelowMemory`;
* the FD gets its own descriptor: `MemoryInit.FdIsolated`, `MemoryInit.FdLeftInside`;
* the FD is found: `MemoryInit.FdFoundExactly`, `MemoryInit.MainTestTooWeak`;
* half of temporary RAM, aligned, fits into it: `TemporaryRam.HeapFits`, `TemporaryRam.HeapOutgrowsRam`;
* the heap arrives whole: `TemporaryRam.HeapMovedExactly`, `TemporaryRam.HeapLost`;
* a jump keeps its target: `AnonLabels.KeptExactly`, `AnonLabels.JumpIntoProcedure`,
  `AnonLabels.CodeBehindLabel`;
* only references are converted: `AnonLabels.ConvertedByToken`, `AnonLabels.NameTornApart`;
* text and line end make up the line: `PatchCheck.CutKeeps`, `PatchCheck.TwoLineEnds`;
* formatted text passes: `FormatThenCheck.PassesExactly`, `FormatThenCheck.BareCarriageReturn`;
* every added line is checked: `FormatThenCheck.PiecesDecide`, `FormatThenCheck.HiddenLine`.

Conventions: a byte stream is a sequence; a read past its end never returns, which methods
report as None. `before` is the byte that lies in front of a string handed to
AsciiStrHexToUintn, which the library reads when the string starts with an x.

## Model

| member | source | states |
|---|---|---|
| `Bytes.HexValue` | EmbeddedPkg/GdbStub/GdbStub.c:414-427 | -1 exactly for characters that are no hexadecimal digit |
| `Bytes.TwoDigits` | MdePkg/Library/BaseLib/SafeString.c:2342-2414 | two hexadecimal digits parse to their value whatever precedes them |
| `Bytes.DigitTable` | EmbeddedPkg/GdbStub/GdbStub.c:41 | the sixteen digits in order, and their values in either case |
| `Bytes.SumAppend` | EmbeddedPkg/GdbStub/GdbStub.c:299-305 | the sum of two texts in a row is the sum of their sums, in eight bits |
| `Bytes.PrefixSkipped` | MdePkg/Library/BaseLib/SafeString.c:2368-2390 | blanks and zeros are skipped, an x behind a zero too, and any other x makes the number zero, by the byte in front of the string if it comes first |
| `GdbPacket.PutFrame` | EmbeddedPkg/GdbStub/GdbStub.c:297-308 | one transmission is '$', the text up to its NUL, '#' and the sum in two upper-case digits |
| `GdbPacket.SendPacket` | EmbeddedPkg/GdbStub/GdbStub.c:274-314 | only identical frames go out, none after a '+', one per answer that is not '+', and at most the retry limit; exactly the limit if no '+' comes |
| `GdbPacket.FrameOfOk` | EmbeddedPkg/GdbStub/GdbStub.c:297-308 | the reply OK goes out as $OK#9A |
| `GdbPacket.AwaitStart` | EmbeddedPkg/GdbStub/GdbStub.c:347-351 | everything before a '$' is skipped without an answer |
| `GdbPacket.CollectBody` | EmbeddedPkg/GdbStub/GdbStub.c:353-366 | the buffer holds the characters since the last '$' up to '#' or until it is full, with their sum |
| `GdbPacket.TryPacket` | EmbeddedPkg/GdbStub/GdbStub.c:346-387 | one trip of the outer loop ends starved, refused with '-' or accepted with '+' |
| `GdbPacket.ReceivePacket` | EmbeddedPkg/GdbStub/GdbStub.c:332-390 | on any stream: what was taken, answered and left in the buffer, the NUL at the index, and that it returns at the first acceptance |
| `GdbPacket.ChecksumExact` | EmbeddedPkg/GdbStub/GdbStub.c:372-376 | two digits of either case are accepted if and only if they are the sum of the body |
| `GdbTranscript.RefusedHeard` | EmbeddedPkg/GdbStub/GdbStub.c:376-386 | refused attempts are answered by one '-' each and leave the receiver waiting for a '$' |
| `GdbTranscript.TakenHeard` | EmbeddedPkg/GdbStub/GdbStub.c:322-383 | after noise, bodies cut off by a further '$' and refused attempts, the last body is delivered with one final '+' |
| `GdbTranscript.StreamExplained` | EmbeddedPkg/GdbStub/GdbStub.c:346-387 | every stream read so far is such a transcript plus one unfinished attempt, and the answers are its refusals and acceptance |
| `GdbTranscript.DeliveredExactly` | EmbeddedPkg/GdbStub/GdbStub.c:332-390 | a stream delivers d if and only if it begins with a transcript whose accepted body is d |
| `GdbTranscript.DeliveredIsSound` | EmbeddedPkg/GdbStub/GdbStub.c:354-382 | what is delivered has no '$' or '#', leaves room for its NUL, and matched its checksum characters |
| `GdbTranscript.FullFrame` | EmbeddedPkg/GdbStub/GdbStub.c:354-376 | a payload one byte shorter than the buffer is taken only if its sum is zero, because '#' is read as a checksum character |
| `GdbTranscript.FrameSurvives` | EmbeddedPkg/GdbStub/GdbStub.c:297-382 | the exact condition under which a frame of SendPacket is delivered by ReceivePacket |
| `GdbTranscript.UnfinishedDropped` | EmbeddedPkg/GdbStub/GdbStub.c:322-387 | a frame behind a packet that broke off is delivered if and only if the broken one leaves room for NUL and '#', or is longer than the buffer and the two characters then taken for its checksum are wrong |
| `GdbTranscript.FrameLost` | EmbeddedPkg/GdbStub/GdbStub.c:322-366 | three characters of a packet fill a buffer of four, and the intact frame behind them is lost |
| `GdbLink.Arriving` | EmbeddedPkg/GdbStub/GdbStub.c:346-387 | no prefix of a transmission is answered; a whole one is answered '+' and delivered if intact, '-' otherwise |
| `GdbLink.DoInv` | EmbeddedPkg/GdbStub/GdbStub.c:274-390 | every byte put, taken or answered keeps the invariant of the link |
| `GdbLink.NeverWrong` | EmbeddedPkg/GdbStub/GdbStub.c:274-390 | in every state of every interleaving only the payload has been delivered, at most once per transmission that arrived intact, whatever becomes of the answers |
| `GdbLink.Outcome` | EmbeddedPkg/GdbStub/GdbStub.c:274-390 | every interleaving that has come to rest ends after the first transmission whose answer is read as '+', or after exactly the limit, with as many deliveries as transmissions arrived intact |
| `GdbLink.ExactlyOnce` | EmbeddedPkg/GdbStub/GdbStub.c:274-390 | where answers come through it ends at the first intact transmission within the limit, delivered once, or after exactly the limit with nothing delivered |
| `GdbLink.DamagedAnswer` | EmbeddedPkg/GdbStub/GdbStub.c:292-383 | a '+' that is not read as such has the payload delivered again; a '-' read as '+' ends the sending with nothing delivered |
| `GdbLink.SendPacketAgrees` | EmbeddedPkg/GdbStub/GdbStub.c:285-311 | the frames put out on the link are exactly those the contract of SendPacket allows for the answers read |
| `GdbLink.Progress` | EmbeddedPkg/GdbStub/GdbStub.c:292-311 | a bound on the remaining moves falls with every move, so no interleaving goes on for ever |
| `GdbLink.Completes` | EmbeddedPkg/GdbStub/GdbStub.c:274-390 | every interleaving can be carried on until no move is left, within the bound |
| `GdbLink.CleanLineDelivers` | EmbeddedPkg/GdbStub/GdbStub.c:274-390 | over a line that damages nothing every payload that fits is delivered once and acknowledged by the first transmission |
| `GdbMemory.TransferFromInBufToMem` | EmbeddedPkg/GdbStub/GdbStub.c:185-207 | exactly the pairs before the first bad digit are stored, nothing else changes, and one OK or one error is sent |
| `GdbMemory.TransferFromMemToOutBufAndSend` | EmbeddedPkg/GdbStub/GdbStub.c:219-255 | memory goes out as two lower-case digits per byte, or error 14 for an invalid address |
| `GdbMemory.ReadFromMemory` | EmbeddedPkg/GdbStub/GdbStub.c:606-643 | the fields of an m packet, the reply, and that a long address is refused with error 11, a long length with 13 and a bad target with 14 |
| `GdbMemory.WriteToMemory` | EmbeddedPkg/GdbStub/GdbStub.c:653-712 | the fields of an M packet, its three checks in order, and the new memory and reply |
| `GdbMemory.RefusedExactly` | EmbeddedPkg/GdbStub/GdbStub.c:690-711 | a long address, a long length and a wrong size are refused in that order with errors 11, 12 and 15 and memory unchanged; a bad digit leaves the bytes before it, byte by byte, and sends error 14 |
| `GdbMemory.ErrorRead` | EmbeddedPkg/GdbStub/GdbStub.c:440-453 | the two digits of an error reply are read back as its number |
| `GdbMemory.DecodeText` | EmbeddedPkg/GdbStub/GdbStub.c:194-251 | every byte string is recovered from its text |
| `GdbMemory.NumberParsed` | MdePkg/Library/BaseLib/SafeString.c:2342-2414 | a number written in hexadecimal is parsed back |
| `GdbMemory.NumberRead` | MdePkg/Library/BaseLib/SafeString.c:2390-2409 | a number is read up to the first character that is no digit, and one beyond 64 bits as the largest there is |
| `GdbMemory.RoundTrip` | EmbeddedPkg/GdbStub/GdbStub.c:185-255 | memory read out and written back by the matching packet holds the bytes read out at every address of the range and is unchanged at every other |
| `GdbMemory.WrittenExactly` | EmbeddedPkg/GdbStub/GdbStub.c:690-711 | the reply is OK if and only if both fields are short, the text has two characters per byte announced, and all are digits |
| `GdbMemory.HugeLengthSlipsThrough` | EmbeddedPkg/GdbStub/GdbStub.c:705-711 | a length whose double wraps passes the size check, and one byte is stored before the error |
| `GdbMemory.SizeCheckExact` | EmbeddedPkg/GdbStub/GdbStub.c:705-706 | the size check admits only the right size if and only if the length is below 2^63 |
| `GdbQxfer.UnescapeEscape` | EmbeddedPkg/GdbStub/GdbStub.c:797-809 | the debugger, which undoes an escape by exclusive or with 20h, recovers every text |
| `GdbQxfer.FlipIsXor` | EmbeddedPkg/GdbStub/GdbStub.c:805 | the escaped character is the exclusive or of the original with 20h, bit by bit |
| `GdbQxfer.EscapedValues` | EmbeddedPkg/GdbStub/GdbStub.c:797-809 | the four characters on the wire, and every other as it is |
| `GdbQxfer.EscapedIsPlain` | EmbeddedPkg/GdbStub/GdbStub.c:797-809 | escaped text has no '$', '#' or '*' |
| `GdbQxfer.EscapedSurvives` | EmbeddedPkg/GdbStub/GdbStub.c:797-812 | escaped text that fits the peer's buffer arrives through SendPacket and ReceivePacket and unescapes to the text |
| `GdbQxfer.XferObjectReadResponse` | EmbeddedPkg/GdbStub/GdbStub.c:783-815 | the buffer holds just the escaped text, the type byte being overwritten, and the count is one more than the text |
| `GdbQxfer.LibraryReader.QxferLibrary` | EmbeddedPkg/GdbStub/GdbStub.c:1014-1087 | one request moves the session globals by the count of the response and leaves in the output buffer what the step function says: refusal, header, next qualifying line or footer |
| `GdbQxfer.QualifiesExactly` | EmbeddedPkg/GdbStub/GdbStub.c:1045-1062 | an entry is listed if and only if it is present, normal, loaded and known to the debugger, and its line is shorter than 1999 characters |
| `GdbQxfer.LinesAppend` | EmbeddedPkg/GdbStub/GdbStub.c:1044-1075 | one more table entry adds its line at the end if it is listed, and nothing otherwise |
| `GdbQxfer.RefusalRead` | EmbeddedPkg/GdbStub/GdbStub.c:1023-1027 | a refused request is answered with error 31 |
| `GdbQxfer.RestOfSession` | EmbeddedPkg/GdbStub/GdbStub.c:1044-1086 | from any point of a session the remaining lines and the footer come, each once, and then offset 0 is expected |
| `GdbQxfer.WholeSession` | EmbeddedPkg/GdbStub/GdbStub.c:1014-1087 | a session at the expected offsets gives header, each qualifying line once in table order, footer, in that many requests |
| `GdbQxfer.CleanRestart` | EmbeddedPkg/GdbStub/GdbStub.c:1023-1031 | any other offset is refused, and the session after it is whole |
| `GdbQxfer.DocumentReceived` | EmbeddedPkg/GdbStub/GdbStub.c:783-1087 | the payloads of a session, unescaped and joined, are the document |
| `GdbQxfer.LineRead` | EmbeddedPkg/GdbStub/GdbStub.c:1054-1060 | name and address are read back from a line, if neither has a quote |
| `GdbQxfer.DocumentRead` | EmbeddedPkg/GdbStub/GdbStub.c:783-1087 | a whole session, unescaped, joined and read line by line, gives exactly the listed libraries in table order between the two fixed lines |
| `GdbQxfer.OffsetRunsAhead` | EmbeddedPkg/GdbStub/GdbStub.c:795-1062 | the expected offset exceeds the text handed out by one per reply |
| `GdbQxfer.OffsetFromStart` | EmbeddedPkg/GdbStub/GdbStub.c:1029-1062 | after n replies short of the footer the offset expected is the length of their texts and n |
| `GdbQxfer.CountingReaderStuck` | EmbeddedPkg/GdbStub/GdbStub.c:1023-1062 | a reader that advances its offset by the bytes received is refused at every second request and sees only the header, for every table |
| `GdbSerialIo.Flags.ParseFReplyPacket` | EmbeddedPkg/GdbStub/SerialIo.c:64-98 | return code, errno and break flag by the first and second comma, and the packet that is no F reply |
| `GdbSerialIo.ReplyParsed` | EmbeddedPkg/GdbStub/SerialIo.c:71-97 | a reply with any return code, errno or none, and break flag or none is read as it was meant, codes from 2^63 on as negative numbers |
| `GdbSerialIo.MinusLost` | EmbeddedPkg/GdbStub/SerialIo.c:76-85 | a return code written with a minus sign, as for a failed call, is read as 0 |
| `GdbSerialIo.MinusOneExactly` | EmbeddedPkg/GdbStub/SerialIo.c:59-76 | -1 comes out if and only if the packet is no F reply or its number reads as the largest of 64 bits |
| `GdbSerialIo.Flags.PeriodicCallBack` | EmbeddedPkg/GdbStub/GdbStub.c:1208-1251 | how many characters are taken, when a single step is added, and that no break stays pending |
| `GdbSerialIo.TickAsCoded` | EmbeddedPkg/GdbStub/GdbStub.c:1208-1251 | the callback event of the interleavings is that method on what is waiting |
| `GdbSerialIo.SendAlone` | EmbeddedPkg/GdbStub/SerialIo.c:139-139 | by its contract a call of SendPacket is the waiting state of the reader |
| `GdbSerialIo.ReceiveAlone` | EmbeddedPkg/GdbStub/SerialIo.c:144-144 | a call of ReceivePacket is the receiving state of the reader |
| `GdbSerialIo.GdbRead` | EmbeddedPkg/GdbStub/SerialIo.c:114-181 | left alone, it returns with what the reader's states give for the bytes taken, or is still inside the call at the end of the stream; the frames it sends are those of the request and of the replies due, each at most as often as the limit |
| `GdbSerialIo.ReadExchange` | EmbeddedPkg/GdbStub/SerialIo.c:138-180 | on a clean line the call returns the code the debugger sent, as a signed number, and answers with an error reply if and only if errno is not 0 |
| `GdbSerialIo.LongestPacket` | EmbeddedPkg/GdbStub/SerialIo.c:120-144 | an undamaged packet is taken by the call if and only if it has at most 126 characters, or 127 with a zero sum |
| `GdbSerialIo.DoUndisturbed` | EmbeddedPkg/GdbStub/SerialIo.c:138-178 | arrivals, calls of either kind, steps and callbacks all keep a guarded call where it would be alone on the bytes it took itself |
| `GdbSerialIo.Transparent` | EmbeddedPkg/GdbStub/SerialIo.c:113-181 | over every interleaving, calls of GdbWrite included, GdbRead returns what it would return alone on one unbroken stretch of the stream |
| `GdbSerialIo.ExclusiveExactly` | EmbeddedPkg/GdbStub/SerialIo.c:21-28 | in schedules that mix both kinds of call, the callback keeps off the bytes of a call in every interleaving if and only if its kind raises the flag |
| `GdbSerialIo.StolenByte` | EmbeddedPkg/GdbStub/SerialIo.c:197-261 | without the flag, as in GdbWrite, the callback takes a character the call waits for |
| `GdbSerialIo.ErrNoInitialised` | EmbeddedPkg/GdbStub/SerialIo.c:168-173 | the packet parsed always sets ErrNo |
| `GdbSerialIo.OneStepPerBreak` | EmbeddedPkg/GdbStub/GdbStub.c:1219-1250 | single steps and the pending flag add up to the breaks raised, in every interleaving |
| `GdbSerialIo.CtrlCInReply` | EmbeddedPkg/GdbStub/SerialIo.c:93-95 | a C in the F reply causes exactly one single step at the next callback, which takes no byte |
| `MemoryInit.PlaceUefiMemory` | ArmPlatformPkg/MemoryInitPei/MemoryInitPeim.c:104-136 | the code in 64-bit arithmetic computes the placement the next rows are about |
| `MemoryInit.PlacementHighest` | ArmPlatformPkg/MemoryInitPei/MemoryInitPeim.c:104-134 | no address that keeps the region in memory, below 2^48 and clear of the FD is higher than the one chosen |
| `MemoryInit.PlacementAddressable` | ArmPlatformPkg/MemoryInitPei/MemoryInitPeim.c:104-108 | a region that fits into the memory below 2^48 is put there |
| `MemoryInit.PlacementFails` | ArmPlatformPkg/MemoryInitPei/MemoryInitPeim.c:117-131 | an assert fails if and only if the FD lies in memory with room on neither side, or lies in memory in part |
| `MemoryInit.RegionAtTop` | ArmPlatformPkg/MemoryInitPei/MemoryInitPeim.c:128-134 | with the FD in flash below memory the region ends with memory |
| `MemoryInit.PlacementSound` | ArmPlatformPkg/MemoryInitPei/MemoryInitPeim.c:104-134 | the region lies in memory below the clamp if and only if it fits, and misses the FD if and only if the FD does not span all of memory |
| `MemoryInit.RegionInsideFd` | ArmPlatformPkg/MemoryInitPei/MemoryInitPeim.c:128-134 | memory of one page inside an FD of three passes both asserts, and the region is put on the FD |
| `MemoryInit.RegionBelowMemory` | ArmPlatformPkg/MemoryInitPei/MemoryInitPeim.c:128-134 | a region larger than memory starts below it |
| `MemoryInit.HobList.DeclareMain` | ArmPlatformPkg/MemoryInitPei/MemoryInitPeiLib.c:95-116 | the main descriptor is added exactly if no descriptor passes the test for it |
| `MemoryInit.MainTestExact` | ArmPlatformPkg/MemoryInitPei/MemoryInitPeiLib.c:98-100 | the test for the main descriptor, free of wrap-around: it begins at or below system memory and ends within or below it |
| `MemoryInit.DeclaredOnce` | ArmPlatformPkg/MemoryInitPei/MemoryInitPeiLib.c:83-116 | the descriptor added has exactly the range of system memory and the six attributes, and a second run adds none |
| `MemoryInit.HoldsFdExact` | ArmPlatformPkg/MemoryInitPei/MemoryInitPeiLib.c:134-136 | a descriptor is taken to hold the FD if and only if it covers every address of it |
| `MemoryInit.HobList.SplitAt` | ArmPlatformPkg/MemoryInitPei/MemoryInitPeiLib.c:138-177 | the descriptor is shrunk in place and the cut pieces and the allocation are appended |
| `MemoryInit.HobList.MemoryPeim` | ArmPlatformPkg/MemoryInitPei/MemoryInitPeiLib.c:95-186 | the final list, and that the assert holds if and only if an FD in memory was held by a descriptor from the start or the main descriptor had to be added |
| `MemoryInit.PiecesCover` | ArmPlatformPkg/MemoryInitPei/MemoryInitPeiLib.c:142-172 | the pieces of one descriptor cover exactly what it covered |
| `MemoryInit.SplitConserves` | ArmPlatformPkg/MemoryInitPei/MemoryInitPeiLib.c:128-186 | every address is covered as often as before, attribute by attribute |
| `MemoryInit.FdIsolated` | ArmPlatformPkg/MemoryInitPei/MemoryInitPeiLib.c:138-177 | of disjoint descriptors at most one is the FD's own afterwards, and one is, exactly unless the FD starts a descriptor that outlasts system memory |
| `MemoryInit.FdLeftInside` | ArmPlatformPkg/MemoryInitPei/MemoryInitPeiLib.c:138-152 | a descriptor list in which the FD gets no descriptor of its own |
| `MemoryInit.FdFound` | ArmPlatformPkg/MemoryInitPei/MemoryInitPeiLib.c:108-136 | the second search succeeds whenever the main descriptor was added |
| `MemoryInit.FdFoundExactly` | ArmPlatformPkg/MemoryInitPei/MemoryInitPeiLib.c:95-136 | some descriptor holds an FD in memory if and only if one did from the start or the main descriptor was added |
| `MemoryInit.MainTestTooWeak` | ArmPlatformPkg/MemoryInitPei/MemoryInitPeiLib.c:98-100 | a descriptor below system memory passes for the main one, and then the search for the FD fails |
| `MemoryInit.RegionInPieces` | ArmPlatformPkg/MemoryInitPei/MemoryInitPeim.c:117-134 | the region lies in a piece of the main descriptor that misses the FD |
| `MemoryInit.RegionUsable` | ArmPlatformPkg/MemoryInitPei/MemoryInitPeim.c:104-140 | placing and splitting together: the region is clear of the FD and inside one final descriptor, clamp included |
| `TemporaryRam.AlignValue` | MdePkg/Include/Base.h:881 | the next multiple of the alignment |
| `TemporaryRam.HeapFits` | ArmPlatformPkg/PrePeiCore/PrePeiCore.c:123 | the aligned half is no more than the whole if and only if the whole is below two bytes or at least one alignment unit |
| `TemporaryRam.HeapOutgrowsRam` | ArmPlatformPkg/PrePeiCore/PrePeiCore.c:123 | eight bytes aligned to sixteen make a heap of sixteen |
| `TemporaryRam.PrimaryMain` | ArmPlatformPkg/PrePeiCore/MainUniCore.c:36-53 | PPI list, heap and stack tile the primary stack area, with the exact condition |
| `TemporaryRam.TemporaryRamSupport` | ArmPlatformPkg/PrePeiCore/PrePeiCore.c:108-144 | memory after the two copies, the delta given to SecSwitchStack, and that every old stack byte is at its address plus that delta |
| `TemporaryRam.StackMoved` | ArmPlatformPkg/PrePeiCore/PrePeiCore.c:125-141 | every old stack byte is found at its address plus the delta, and nothing outside the new area changes |
| `TemporaryRam.HeapLost` | ArmPlatformPkg/PrePeiCore/PrePeiCore.c:134-139 | a memory whose heap is spoilt by a new stack that overlaps it |
| `TemporaryRam.HeapMovedExactly` | ArmPlatformPkg/PrePeiCore/PrePeiCore.c:134-139 | every heap arrives whole if and only if the new stack misses the old heap |
| `TemporaryRam.SameSplit` | ArmPlatformPkg/PrePeiCore/MainUniCore.c:48-53 | the move takes exactly the stack and the heap of the hand-off |
| `FormatDosFiles.LineEndings` | BaseTools/Scripts/FormatDosFiles.py:33-34 | the first two substitutions put a carriage return before every line feed that has none |
| `FormatDosFiles.FileEnd` | BaseTools/Scripts/FormatDosFiles.py:36 | the third ends a file that stops in the middle of a line |
| `FormatDosFiles.LineTrimmed` | BaseTools/Scripts/FormatDosFiles.py:38 | the fourth drops the trailing blanks of a line |
| `FormatDosFiles.TabsExpanded` | BaseTools/Scripts/FormatDosFiles.py:40 | the fifth replaces every tab |
| `FormatDosFiles.ExpandExactly` | BaseTools/Scripts/FormatDosFiles.py:40 | byte by byte, a tab becomes two spaces and every other byte stays |
| `FormatDosFiles.FormatFileExact` | BaseTools/Scripts/FormatDosFiles.py:33-40 | all five equal the line-by-line format for every byte string |
| `FormatDosFiles.Idempotent` | BaseTools/Scripts/FormatDosFiles.py:33-40 | the five substitutions applied twice give what they give once |
| `FormatThenCheck.FormattedPasses` | BaseTools/Scripts/PatchCheck.py:309-420 | the diff that adds a formatted source file is well formed, and is refused only for a deprecated macro |
| `FormatThenCheck.DiffLines` | BaseTools/Scripts/PatchCheck.py:309-313 | what the checker reads of that diff, segment by segment of the file before formatting: the '+' stands only on the first piece of a line, and a last carriage return is closed by git |
| `FormatThenCheck.TidyPasses` | BaseTools/Scripts/PatchCheck.py:309-475 | the same as for source files if a carriage return without a line feed stands at most at the very end and not behind a blank |
| `FormatThenCheck.PassesExactly` | BaseTools/Scripts/PatchCheck.py:309-475 | where CRLF is asked for and no submodule commit is named, the diff passes if and only if the file was tidy in that sense and no added line uses a deprecated macro |
| `FormatThenCheck.PiecesDecide` | BaseTools/Scripts/PatchCheck.py:334-420 | in general, unless a piece reads as a diff command, the format is right and exactly the added pieces before the first piece that is no patch line decide |
| `FormatThenCheck.FormatAndCheck` | BaseTools/Scripts/PatchCheck.py:309-475 | formatter, diff and checker in a row: the verdict by those conditions |
| `FormatThenCheck.BareCarriageReturn` | BaseTools/Scripts/PatchCheck.py:412-475 | a carriage return in the middle of a line is kept by the formatter and refused by the checker |
| `FormatThenCheck.LastCarriageReturn` | BaseTools/Scripts/PatchCheck.py:412-475 | at the end of the file it is kept and accepted |
| `FormatThenCheck.UncheckedBehind` | BaseTools/Scripts/PatchCheck.py:340-350 | behind an exempt line that ends in a bare carriage return, text that is no patch line ends the run, and whatever follows is accepted |
| `FormatThenCheck.HiddenLine` | BaseTools/Scripts/PatchCheck.py:340-350 | a file with a refused line that is accepted because of an earlier line |
| `FormatThenCheck.SplitExactly` | BaseTools/Scripts/PatchCheck.py:312 | the lines the checker makes of any diff join to it, each but the last ends in one of the eight line ends, none holds one before its end, and CR LF is not torn apart |
| `FileCheck.RawLines` | BaseTools/Scripts/PatchCheck.py:309-313 | what the checker reads of the diff that adds a file as it stands, for every ASCII text |
| `FileCheck.AcceptedExactly` | BaseTools/Scripts/PatchCheck.py:309-481 | where CRLF is asked for and no submodule commit is named, a file is accepted if and only if the formatter changes nothing in it, no carriage return stands alone but at its end, and no added line uses a deprecated macro |
| `FileCheck.CheckFile` | BaseTools/Scripts/PatchCheck.py:309-481 | the checker run on the diff gives that verdict |
| `FileCheck.ThreeRefused` | BaseTools/Scripts/PatchCheck.py:466-475 | a tab, a blank at the end of a line and LF alone are each refused |
| `GitHeads.HeaderKinds` | BaseTools/Scripts/PatchCheck.py:399-405 | every kind of header line git writes is taken as one, whatever follows its first words |
| `GitHeads.HeaderWord` | BaseTools/Scripts/PatchCheck.py:399-405 | a line whose first word is none of nine is no header line |
| `GitHeads.Marks` | BaseTools/Scripts/PatchCheck.py:354-397 | diff commands, hunks, binary patches and submodules are recognised, and an ordinary file mode is no submodule |
| `GitHeads.PatchLines` | BaseTools/Scripts/PatchCheck.py:340-345 | what may stand in a hunk by its first characters, and that nothing else may |
| `GitHeads.NewFileHeadFits` | BaseTools/Scripts/PatchCheck.py:353-405 | the head git writes for a new file is one of those the theorems speak of, for every printable name without spaces, and the rules behind it are those of the name |
| `PatchCheck.StripLineEndings` | BaseTools/Scripts/PatchCheck.py:461-465 | a line as splitlines leaves it is cut into its text and its line end |
| `PatchCheck.LineCut` | BaseTools/Scripts/PatchCheck.py:461-465 | the same of the four cuts in a row |
| `PatchCheck.CutKeeps` | BaseTools/Scripts/PatchCheck.py:461-465 | text and reported line end make up the line if and only if no line end of two characters stands behind another one |
| `PatchCheck.TwoLineEnds` | BaseTools/Scripts/PatchCheck.py:461-465 | a line with LF and CRLF at its end loses both and is reported as ending in LF |
| `PatchCheck.CheckAddedLine` | BaseTools/Scripts/PatchCheck.py:460-481 | for every line cut into text and line end, no error is reported if and only if the line end is CRLF or not asked for or a submodule commit is named, no forbidden tab, no white space at the end of the text, and no deprecated macro |
| `PatchCheck.GitDiffCheck.Run` | BaseTools/Scripts/PatchCheck.py:334-420 | a step keeps the invariant, reads no field before it is set, and raises the line number |
| `PatchCheck.GitDiffCheck.RunStart` | BaseTools/Scripts/PatchCheck.py:353-382 | the branch for lines outside a file's patch |
| `PatchCheck.GitDiffCheck.RunPrePatch` | BaseTools/Scripts/PatchCheck.py:383-406 | the branch for header lines |
| `PatchCheck.GitDiffCheck.RunPatch` | BaseTools/Scripts/PatchCheck.py:407-420 | the branch for patch lines, whose last alternative is never taken |
| `PatchCheck.CheckDiff` | BaseTools/Scripts/PatchCheck.py:309-321 | format errors, checked lines and verdict of every diff, declaratively |
| `PatchCheck.RegionExact` | BaseTools/Scripts/PatchCheck.py:334-420 | preamble, header, text hunk and binary patch by the nearest marker above, without states |
| `PatchCheck.SwitchesExact` | BaseTools/Scripts/PatchCheck.py:356-397 | the rules in force come from the last diff command and any submodule line of its header |
| `PatchCheck.HunkVerdict` | BaseTools/Scripts/PatchCheck.py:309-420 | of a diff with one text hunk and no further diff command the format is right, and the added lines up to the first line that is no patch line decide |
| `PatchCheck.BadLine` | BaseTools/Scripts/PatchCheck.py:309-420 | one bad added line behind nothing but added lines makes the verdict bad whatever follows |
| `PatchCheck.BadPreamble` | BaseTools/Scripts/PatchCheck.py:379-381 | text before the first diff command is a format error |
| `PatchCheck.BadHeader` | BaseTools/Scripts/PatchCheck.py:398-405 | a header line of an unknown kind is a format error |
| `PatchCheck.DiffBehindPatch` | BaseTools/Scripts/PatchCheck.py:340-350 | a diff command behind a line that is no patch line is a format error |
| `PatchCheck.BinaryUnchecked` | BaseTools/Scripts/PatchCheck.py:386-411 | the lines of a binary patch are accepted whatever they hold |
| `PatchCheck.NameRead` | BaseTools/Scripts/PatchCheck.py:356 | the file name is what stands between the diff command and the next space |
| `PatchCheck.ExemptNames` | BaseTools/Scripts/PatchCheck.py:360-378 | the names exempt from CRLF and those exempt from both rules |
| `GitHeads.OrdinaryName` | BaseTools/Scripts/PatchCheck.py:360-373 | a file outside BaseTools that is no .sh file and not .gitmodules is exempt from neither |
| `AnonLabels.LabelInjective` | BaseTools/Scripts/ConvertMasmToNasm.py:531-532 | different counts give different labels |
| `AnonLabels.LabelRead` | BaseTools/Scripts/ConvertMasmToNasm.py:531-532 | behind the period stands the count in decimal |
| `AnonLabels.LineConverted` | BaseTools/Scripts/ConvertMasmToNasm.py:521-529 | four replacements in a row put the label for its letter in place of every '@' with one of the four letters, in every line, as text |
| `AnonLabels.ConvertedByToken` | BaseTools/Scripts/ConvertMasmToNasm.py:521-529 | this is the conversion of the line's reference tokens if and only if no other name in it has '@' before one of the four letters, for every alphabet of names |
| `AnonLabels.NameTornApart` | BaseTools/Scripts/ConvertMasmToNasm.py:521-529 | foo@bar becomes foo.-1ar |
| `AnonLabels.AsmConverter.TranslateAsm` | BaseTools/Scripts/ConvertMasmToNasm.py:400-511 | a line that is just '@@:' raises the count and defines it; a line of another branch puts out what that branch does; any other line is converted with the count |
| `AnonLabels.AsmConverter.Convert` | BaseTools/Scripts/ConvertMasmToNasm.py:270-292 | the output is what the lines put out in turn, each by the number of lines above it that are just '@@:' |
| `AnonLabels.DefinedOnce` | BaseTools/Scripts/ConvertMasmToNasm.py:421-423 | exactly the labels from zero up to the number of lines that are just '@@:' are defined, each by one line |
| `AnonLabels.TargetsPreserved` | BaseTools/Scripts/ConvertMasmToNasm.py:421-532 | the converted reference finds the line MASM means if and only if that line is just '@@:' and no ordinary label lies between; what it finds is the line MASM means if and only if no label with code behind it lies between |
| `AnonLabels.FoundExactly` | BaseTools/Scripts/ConvertMasmToNasm.py:421-532 | a converted reference finds the nearest line that is just '@@:' on its side if no ordinary label lies between, and nothing otherwise |
| `AnonLabels.KeptExactly` | BaseTools/Scripts/ConvertMasmToNasm.py:421-532 | a reference finds exactly what it meant in MASM if and only if the line it meant, if any, is just '@@:' and under the same ordinary label |
| `AnonLabels.SameScope` | BaseTools/Scripts/ConvertMasmToNasm.py:468-480 | two lines are under the same ordinary label if and only if none lies between them |
| `AnonLabels.JumpIntoProcedure` | BaseTools/Scripts/ConvertMasmToNasm.py:468-480 | a forward jump over a PROC line loses its target |
| `AnonLabels.CodeBehindLabel` | BaseTools/Scripts/ConvertMasmToNasm.py:421-423 | a label with code behind it goes out unchanged and uncounted, and a jump back to it lands on the label above |
| `InfRewrite.InfFile.Visit` | BaseTools/Scripts/ConvertMasmToNasm.py:871-898 | what one trip of the loop leaves in place of a line, where it stands then, and the recent sources |
| `InfRewrite.InfFile.UpdateInfAsmFile` | BaseTools/Scripts/ConvertMasmToNasm.py:854-901 | the loop ends, and its result is given line by line without the recent sources |
| `InfRewrite.OriginsText` | BaseTools/Scripts/ConvertMasmToNasm.py:871-901 | every line of the result is an old line verbatim or the new line of a rewritten one |
| `InfRewrite.OriginsMembers` | BaseTools/Scripts/ConvertMasmToNasm.py:871-898 | an old line stays if and only if it is not rewritten or its source is kept; a new line comes in if and only if it is the first of its kind in its run |
| `InfRewrite.OriginsOrdered` | BaseTools/Scripts/ConvertMasmToNasm.py:872-898 | the result keeps the order, each line once, a new line before its old one |
| `InfRewrite.OncePerRun` | BaseTools/Scripts/ConvertMasmToNasm.py:873-893 | in a run of rewritten lines every new line has exactly one first occurrence |
| `InfRewrite.LineEndIgnored` | BaseTools/Scripts/ConvertMasmToNasm.py:857-870 | the white space behind a line does not matter to its update |
| `InfRewrite.SpacingIgnored` | BaseTools/Scripts/ConvertMasmToNasm.py:873-893 | two new lines in a run that differ only in the white space around them count as the same |
| `InfRewrite.LinesStayEnded` | BaseTools/Scripts/ConvertMasmToNasm.py:871-901 | a file whose lines all end in a line feed keeps that property |
| `DeviceTree.FindNextMemoryNodeReg` | ArmVirtPkg/FdtClientDxe/FdtClientDxe.c:226-283 | the first enabled memory node after the given one whose reg length is a multiple of 16 |
| `DeviceTree.EnabledExactly` | ArmVirtPkg/FdtClientDxe/FdtClientDxe.c:75-100 | a node is enabled if and only if it has no status or its status is ok or okay |
| `DeviceTree.MemoryNodeExactly` | ArmVirtPkg/FdtClientDxe/FdtClientDxe.c:246-278 | an enabled node counts if and only if its device type is memory and its reg has whole pairs |
| `DeviceTree.TwoWords` | ArmVirtPkg/HighMemDxe/HighMemDxe.c:60-67 | two swapped words and a shift make the 64-bit big-endian number |
| `DeviceTree.DecodeReg` | ArmVirtPkg/HighMemDxe/HighMemDxe.c:59-68 | the countdown reaches zero, reads stay inside the property, every pair comes once in order |
| `DeviceTree.CountdownExact` | ArmVirtPkg/HighMemDxe/HighMemDxe.c:59-68 | the 32-bit countdown comes to zero if and only if it starts at a multiple of 16 |
| `DeviceTree.RegRoundTrip` | ArmVirtPkg/HighMemDxe/HighMemDxe.c:59-68 | regions written to a reg property are read back |
| `DeviceTree.AddRegions` | ArmVirtPkg/HighMemDxe/HighMemDxe.c:70-86 | the regions added are those the services find absent and accept |
| `DeviceTree.AddedApart` | ArmVirtPkg/HighMemDxe/HighMemDxe.c:70-86 | if the services admit only what is clear of what was added, no address is added twice, whatever the tree says |
| `DeviceTree.AddedExactly` | ArmVirtPkg/HighMemDxe/HighMemDxe.c:70-86 | a region on which the answer does not depend on what was added comes in if and only if it is listed, absent and accepted |
| `DeviceTree.InitializeHighMemDxe` | ArmVirtPkg/HighMemDxe/HighMemDxe.c:49-125 | every region of every enabled memory node below the root is looked at once, in tree order |
| `DeviceTree.RegionsAppend` | ArmVirtPkg/HighMemDxe/HighMemDxe.c:49-68 | a node behind the others adds its pairs if it is a memory node, and nothing otherwise |
| `DeviceTree.HasString` | ArmVirtPkg/FdtClientDxe/FdtClientDxe.c:138-144 | the walk over NUL-separated strings finds a name exactly if it is listed before an empty one |
| `DeviceTree.FindNextCompatibleNode` | ArmVirtPkg/FdtClientDxe/FdtClientDxe.c:105-147 | the first enabled node after the given one that lists the name |
| `DeviceTree.StringsOfJoined` | ArmVirtPkg/FdtClientDxe/FdtClientDxe.c:134-144 | a property made of non-empty names lists exactly those |
| `DetectNotUsed.RemovedInFront` | BaseTools/Scripts/DetectNotUsedItem.py:92-93 | deleting by value takes a line from the part not yet looked at and leaves the content of that part |
| `DetectNotUsed.ParseContent` | BaseTools/Scripts/DetectNotUsedItem.py:88-98 | the backward loop stays in bounds and gives the lines that are no comments, stripped, whatever lines are equal |
| `DetectNotUsed.CommentDropped` | BaseTools/Scripts/DetectNotUsedItem.py:92 | a line whose first character but white space is # is dropped |
| `DetectNotUsed.CodeCleaned` | BaseTools/Scripts/DetectNotUsedItem.py:94-97 | a line of code comes out without indentation, comment and trailing white space |
| `DetectNotUsed.CodeKept` | BaseTools/Scripts/DetectNotUsedItem.py:92 | a line of code is never dropped, an empty line is, and one of other white space is not |
| `Text.Stripped` | BaseTools/Scripts/DetectNotUsedItem.py:92-97 | strip takes the white space at both ends and nothing else |

## Left out

- GdbExceptionHandler and the register, breakpoint and single-step code: processor specific; a single step is an event here.
- PeCoffLoaderGetDebuggerInfo: its answer for a table entry is part of the entry.
- GdbMemory.ReadFromMemory: the packet has a comma and the text fits the 2000-byte buffer; the code checks neither before it walks or fills, so other packets have no defined result. A field of 32 characters or more is copied past its buffer before its length is compared; the model gives the reply of the comparison.
- GdbMemory.WriteToMemory: the packet has its comma and colon and the target lies in memory, for the same reason; the same holds of fields of 32 characters or more.
- GdbMemory.WrittenExactly: fields of 32 characters or more, which overflow their buffers before the error reply.
- GdbMemory.TransferFromMemToOutBufAndSend: fewer than 1000 bytes; more run past the output buffer, which the code does not check.
- GdbQxfer.XferObjectReadResponse: the escaped text fits the output buffer, which the code does not check.
- GdbQxfer.LibraryReader.QxferLibrary: every escaped line fits the output buffer, the expected offset does not wrap at 2^64, and the table does not change during a session.
- GdbSerialIo.GdbRead: what an M packet does to memory during the call is in GdbMemory; here only its reply counts.
- GdbSerialIo.Flags.PeriodicCallBack: characters that arrive while it drains the queue count as waiting before it.
- GdbWrite: as a call that does not raise the flag, not as a method of its own.
- GdbLink.Outcome: damage that destroys the framing of a transmission or loses an answer altogether, after which the sender waits for ever.
- MemoryInit.PlaceUefiMemory: system memory and the FD end below 2^64, as the platform settings of a 64-bit machine do, and MAX_ALLOC_ADDRESS is that of AArch64.
- MemoryTypeInformation HOB, the MMU and the virtual memory map: tables handed to other code.
- TemporaryRam.PrimaryMain: the PPI list fits the primary stack area; the code does not check it, and the size left would wrap.
- TemporaryRam.TemporaryRamSupport: sizes of at least two bytes and less than one alignment unit, for which the size of the stack wraps and the copy has no defined result.
- CreatePpiList: copying two tables and setting one flag would only add an easy member.
- PatchCheck.CheckDiff: the list of new binary files, which is only printed, is not kept.
- PatchCheck.CheckAddedLine: the search for deprecated debug macros is a parameter.
- Commit-message, e-mail and subject checks of PatchCheck.py: tables of prefixes.
- AnonLabels.AsmConverter.TranslateAsm: what the other branches put out is part of the line, and the other conversions of a converted line, its comment and dropped empty lines are not modelled.
- AnonLabels.AsmConverter.Convert: the same.
- AnonLabels.TargetsPreserved: no other line puts out what looks like a generated label, and an anonymous label of MASM begins its line without blanks before the colon; references in lines of the other branches are not converted and not considered.
- AnonLabels.NameTornApart: word characters are those of ASCII.
- InfRewrite.InfFile.UpdateInfAsmFile: the search for source names in a line and its spacing is a parameter.
- FormatThenCheck.PassesExactly: a diff that adds a whole file, and texts of printable ASCII, tabs, line feeds and carriage returns; other control characters and other encodings are left out.
- FileCheck.AcceptedExactly: the same; names that are exempt from CRLF are covered by the general verdict of the checker only.
- DetectNotUsed.ParseContent and the other scripts: characters beyond the first 256 count as no white space.
- DeviceTree.FindNextMemoryNodeReg: string properties end in NUL, and nodes are numbered in tree order instead of by offset.
- DeviceTree.AddRegions: memory attributes, which change no region; the services are a function of the regions added so far.
- File access, command lines, git and directory walks.
