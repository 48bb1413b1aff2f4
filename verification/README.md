# PiLoader, verified

PiLoader sends a kernel from a PC to a Raspberry Pi over a serial line. This project models its three
connected parts in Dafny and proves what they promise together.

* **The image splitter and its replay** (`BinarySplit`, `BinaryLoad`, `BinaryImage`, `BinaryCost`). One pass over
  the words of a binary image cuts it into literal and zero parts and takes a zero part back when it turns out too
  short; the upload sends the parts as LOAD and ZERO requests. The parts are shown to be the one canonical
  decomposition; what the upload leaves in memory is stated for either fill, and so is exactly when that is what a
  single LOAD of the image would leave.
* **The checksum** (`Gf2`, `BitSerial`, `CrcTable`, `Crc32`, `CrcProperties`). The byte-at-a-time form with
  its table of 256 entries refines the bit-serial shift register, and the shift register is division of
  polynomials over GF(2). Everything about the checksum (unique remainder, bursts, concatenation, affinity,
  residue) is proved for messages of every length.
* **The boot protocol** (`Protocol`, `Wire`, `Pi`, `PiRuns`, `PiStores`, `Stream`, `Bootproto`, `Dialogue`,
  `Session*`, `PiSteps`, `ClientSteps`, `Resync`, `BootArea*`). The command loop of the Pi and the requests of the PC
  are modelled twice: as classes that work in place on memory and on the bytes of the line, each method proved against
  a specification function; and as two processes that exchange single bytes over two channels, in any order. Safety,
  the exact number of steps, the final memory, refusals, damaged data and resynchronisation are proved for every
  interleaving. Each of the two processes is proved to do, byte by byte, what its class does with the whole stream,
  refused requests and packets of unknown type included. `Wire` says what all this looks like on the line, as literal
  bytes.

`ElfLoad`, `ElfMemory`, `ElfRequests` and `Bootpc` model the other producer of requests and the session driver.
`Upload` and `Files` put everything together: from any list of files in either format, and any final action, to the
memory of the Pi and the packets it has taken, for every schedule.

## How to read it

* A `Memory` is the whole 32-bit address space; `Write(m, a, d)` stores the bytes `d` from address `a` on and
  wraps as addresses on the Pi do. `Effect` and `EffectAll` say what requests are for; `MemoryAfter` and `Answer`
  say what the Pi does with a header and the bytes behind it, whoever sent them.
* `Pi.Serve` is what the command loop makes of any sequence of bytes; its outcome says where the loop stops: in a
  header, in the data of a LOAD, or in a started program. Of a packet of unknown type it drains as many bytes as the
  numbers `arrivals` say have arrived. `Bootproto.ExchangeAll` is what the client makes of a list of requests and any
  bytes that come back.
* A `Session.Config` fixes the place of the bootloader, the requests, the data that the line makes of theirs,
  and the first memory. A schedule is a sequence of enabled steps; a step moves one byte or runs one handler.
  `Stuck` means that neither process can go on. A schedule is `Timely` when the client has nothing to write while the
  line is drained, which is what the delay before the drain is for; every timely schedule can be extended to a timely
  one that is stuck (`SessionTimely.TimelyExtends`). `Agrees` says that the numbers `arrivals` drain what a schedule
  drains; such numbers exist for every schedule (`PiSteps.DrainedAgrees`).
* `EndsAt(c, acts, u)` says that every schedule takes one and the same number of steps and ends in `u`;
  `DoneSystem` is such an end: every request acknowledged, nothing on its way.
* `Stored(files, ds, beef)` says what each binary file stores (`BinaryImage.StoredAt` says which bytes these are); an
  ELF file stores nothing behind the binary ones. `Files.Place` moves on by these lengths, and `Files.FinalByte` is the
  byte of the last file that asks for one. `TypesTaken` lists the first four bytes of every packet that the command
  loop takes from a stream, and `Files.FilesTypes` those that the files are for: for an entry of a program header table
  one LOAD, and one ZERO unless both sizes are equal; for a binary image LOAD and ZERO in turn.
* Zero words of an image are a `seq<bool>`; a decomposition is the sequence of its cuts, in words. Part `j`
  spans the words from `cuts[j]` up to `cuts[j + 1]`; the odd parts are the zero parts.
* Polynomials are sequences of bits, highest term first; a message is read byte by byte, lowest bit first.

Some quantities are facts of the code that decide the exact statements:

* The last `size % 4` bytes of an image are not looked at.
* The upload stops at the first empty part. The first part is empty exactly when all of the first 128 words,
  or of all words there are, are zero; then nothing at all is sent and the load address stays
  (`BinaryLoad.FirstPartEmpty`, `BinaryImage.UploadIsImage`).
* The range check looks at the two end points only, in 32-bit arithmetic. An accepted range can cover the
  whole bootloader, also by wrapping around to it, and a range that ends exactly where the stack page begins is
  refused (`BootArea.AcceptsExactly`).
* The data of a refused LOAD stays on the line and is then taken for packets (`PiRuns.RefusedData`), so a
  refused request can change memory (`PiRuns.RefusedCanWrite`). Which streams leave every memory alone is decided by
  the packets that the loop takes from them (`PiStores.MemoryKeptExactly`). The client reads the refusal first and
  stops (`SessionRefused.RefusedSession`). A refused ZERO has no data and leaves everything as it was
  (`SessionRefused.RefusedShort`).
* The answer to an unknown type brings the two sides back in step if and only if what the Pi holds of an old header
  is shorter than a type or begins with no known one (`Resync.Resynchronised`). Otherwise the PING that follows
  completes the old header: a LOAD stores a piece of the PING, an EXEC starts a program.
* The client looks at the code of a response, never at its data, and a ping asks for RDY.

The documentation and the code disagree in places, and the model follows the code. The README of PiLoader says
that the fill with 0xDEADBEEF works only for ELF files; `zero_section` uses it for the zero parts of binary
files too. With it the upload leaves the image if and only if the image has no zero part
(`BinaryImage.UploadIsImage`); a word and a zero word is the smallest one it changes (`BinaryImage.BeefUpload`).
The README says that the registers
r0-r2 are preserved; `kmain` saves them only when the saved value of r1 is already not zero, so nothing is
claimed about them. The usage text says that the load address increases with each loaded file; it does so only for
binary files of which something is sent.

## Model

| member | source | states |
|---|---|---|
| BinarySplit.SplitBinary | client/binary_loader.c:41-94 | the array holds exactly the parts of the canonical decomposition of the words, then an empty part; its capacity is 8 doubled some number of times and at most twice the peak index plus one, unless it is 8 |
| BinarySplit.SwitchPart | client/binary_loader.c:57-86 | one word either goes on with the part, begins one, or takes a zero part of fewer than 512 bytes back into the literal part before it; the parts stay those between the cuts left standing |
| BinarySplit.AddWord | client/binary_loader.c:55-88 | after one word the parts are those of one more word's cuts |
| BinarySplit.AllocateParts | client/binary_loader.c:26-39 | growth keeps every part in its place, leaves room for one more and doubles only a full array |
| BinarySplit.CutsCanonical | client/binary_loader.c:55-91 | a list of cuts is canonical (its odd parts are exactly the maximal zero runs that have at least 128 words or reach the end) if and only if it is the one that the pass computes |
| BinarySplit.CanonicalUnique | client/binary_loader.c:57-91 | no image has two canonical decompositions |
| BinarySplit.PartCountBound | client/binary_loader.c:60-91 | a canonical decomposition of n words, with the part that ends the list, has at most 2 * (n / 129) + 3 parts |
| BinarySplit.PeakBound | client/binary_loader.c:26-39 | no index in use, not even that of a part taken back later, goes beyond that bound |
| BinaryLoad.LoadBinary | client/binary_loader.c:96-127 | what is requested, whether the client goes on and what it leaves unread are those of the script of the image, up to the first failure; the load address moves on as stated |
| BinaryLoad.UploadParts | client/binary_loader.c:109-123 | the loop requests the parts in order at consecutive addresses and stops at the first empty one |
| BinaryLoad.ReplayFile | client/binary_loader.c:112-123 | going through the parts up to the first empty one is the script of the image: all of its parts, or none |
| BinaryImage.UploadIsImage | client/binary_loader.c:109-123 | the upload leaves every memory as one LOAD of all words of the image would, if and only if one of the first 128 words is not zero, or there is no word, and the fill is zeros or the image has no zero part |
| BinaryImage.UploadEffect | client/bootproto.c:112-127 | for every image and either fill memory is overwritten from the load address on with what is stored: nothing when the first part is empty, otherwise the words of the image with every zero part replaced by that much of the fill |
| BinaryImage.StoredIsImage | client/bootproto.c:112-127 | what is stored is the image under the same exact condition |
| BinaryImage.StoredAt | client/binary_loader.c:57-91 | each byte stored is that of the file, or one of the fill, 0xEF 0xBE 0xAD 0xDE over and over or zero, where its word lies in a run of zero words that has 128 of them or reaches the end |
| BinaryImage.StoredSize | client/binary_loader.c:52-73 | all whole words of the file are stored if one of the first 512 bytes in them is not zero, and nothing if none is |
| BinaryImage.ZeroWordAt | client/binary_loader.c:57-75 | a word counts as zero exactly when its four bytes in the file are |
| BinaryImage.BeefUpload | client/bootproto.c:119-120 | with the fill 0xDEADBEEF a nonzero word followed by a zero word is stored as that word followed by the fill |
| BinaryLoad.FirstPartEmpty | client/binary_loader.c:52-73 | the first part is empty if and only if all of the first 128 words, or of all there are, are zero |
| BinaryImage.PartsEffect | client/binary_loader.c:112-123 | after any number of parts memory holds exactly the bytes of those parts, file or fill, back to back from the load address on |
| BinaryCost.UploadCost | client/binary_loader.c:60-72 | all frames of an upload together are at most 16 bytes longer than one LOAD, less 472 bytes for every zero part that is not the last part |
| BinaryCost.BoundReached | client/binary_loader.c:74-82 | a nonzero word followed by a zero word needs all of the 16 bytes |
| CrcTable.TableEntry | common/crc32.c:46-90 | each of the 256 entries is eight shift/xor steps of its own index with the reflected polynomial |
| Crc32.Crc32 | common/crc32.c:92-103 | the byte loop over the table computes the checksum of the bit-serial register, for every initial value and buffer |
| BitSerial.FeedIsDivision | common/crc32.c:5-18 | what the shift register holds is the remainder of the preloaded message times x^32 divided by the polynomial, with the bits shifted out as quotient |
| CrcProperties.CrcIsRemainder | common/crc32.c:5-18 | a quotient and a remainder divide the preloaded message if and only if they are those of the shift register and the checksum with its complement undone |
| Gf2.DivisionUnique | common/crc32.c:5-7 | division of polynomials over GF(2) has one quotient and one remainder |
| CrcProperties.BurstDetected | common/crc32.c:99-102 | buffers that differ, and only within 32 consecutive bits, never have the same checksum, wherever the burst lies |
| CrcProperties.CrcConcat | common/crc32.c:92-103 | the checksum of one buffer, continued over another, is that of both |
| CrcProperties.CrcAffine | common/crc32.c:99-102 | the checksum of the exclusive or of three buffers of one length is the exclusive or of their checksums |
| CrcProperties.CrcResidue | common/crc32.c:92-103 | any message followed by its own checksum, low byte first, has the checksum 0x2144DF1C |
| Protocol.HeaderRoundTrip | common/bootproto.h:51-57 | what is encoded as a header is decoded to the same header |
| Protocol.HeaderBytes | common/bootproto.h:51-57 | and any 20 bytes are what the header decoded from them is encoded to |
| Protocol.ResponseRoundTrip | common/bootproto.h:70-73 | a response survives the 8 bytes of the line |
| Wire.FrameBytes | common/bootproto.h:51-67 | a request on the line is four literal bytes for its type, the four digits to the base 256 of its address, those of its size, the checksum lowest byte first, the flag byte (1 without watchdog, 2 for 0xDEADBEEF) and three zeros, and its data |
| Wire.RefusedReply | raspi/bootrpi.c:45-65 | a LOAD or ZERO of which an end, read from the bytes, lies between the stack page and the end of the program: answered `45 52 52 0a 02 00 00 00`, memory as it was, and the loop goes on right behind the header |
| Wire.LoadReply | raspi/bootrpi.c:67-75 | any other complete LOAD: stored at the address that is spelled, and answered `41 43 4b 0a 00 00 00 00` or `45 52 52 0a 01 00 00 00` as the checksum bytes are or are not those of the data |
| Wire.LoadWaits | raspi/minilibc.c:24-33 | a LOAD whose data stops short: stored as far as it goes, not answered |
| Wire.ZeroReply | raspi/bootrpi.c:86-87 | any other ZERO: filled with 0xDEADBEEF or zero by the second bit of the flags, and acknowledged |
| Wire.PlainReply | raspi/bootrpi.c:152-166 | PING is answered `52 44 59 0a 00 00 00 00`, REBOOT acknowledged; nothing else happens |
| Wire.ExecReply | raspi/bootrpi.c:90-97 | EXEC is acknowledged and the program at the address that is spelled started, with the watchdog if and only if the first bit of the flags is clear |
| Wire.UnknownReply | raspi/bootrpi.c:116-118 | any other four bytes: ERR followed by these bytes, and what has arrived behind the header is dropped |
| Wire.ClientDecides | client/bootproto.c:28-79 | the first four of eight bytes decide: `52 44 59 0a` for a PING and `41 43 4b 0a` for everything else let the client go on; with fewer than eight it stops |
| Protocol.RequestAnswered | raspi/bootrpi.c:59-103 | the Pi does what a request is for and gives the answer that lets the client go on, or leaves memory alone and answers ERR with the overwrite code, as its range decides |
| Pi.Bootloader.KRead | raspi/minilibc.c:24-33 | stores exactly the bytes asked for, in order, or all there are when the line falls silent |
| Pi.Bootloader.KWrite | raspi/minilibc.c:35-44 | writes the whole buffer and nothing else |
| Pi.Bootloader.MemSet32 | raspi/minilibc.c:46-64 | the word loop and the byte loop together store the little-endian value over and over for exactly the length given, and change no other byte |
| Pi.Bootloader.HandleLoad | raspi/bootrpi.c:59-76 | takes no data when the range is refused; otherwise stores it, checks it as read back from memory, and answers by the checksum |
| Pi.Bootloader.HandleZero | raspi/bootrpi.c:78-88 | fills an accepted range with zeros or 0xDEADBEEF; refuses the others without touching memory |
| Pi.Bootloader.HandleUnknown | raspi/bootrpi.c:105-119 | drains, byte by byte, what has arrived and reports the type |
| Pi.Bootloader.ServePacket | raspi/bootrpi.c:146-171 | one turn of the loop makes of memory and line what the specification of a turn says, for any bytes |
| Pi.Bootloader.KMain | raspi/bootrpi.c:146-171 | the loop makes of any bytes what `Serve` says and stops where it says: in a header, in data, or in a started program |
| PiRuns.ServeFrames | raspi/bootrpi.c:146-171 | the frames of any list of accepted requests are carried out in order, answered once each, and leave the loop at the next packet |
| PiRuns.RefusedData | raspi/bootrpi.c:61-65 | after a refused request the loop goes on with its data as if it were packets |
| PiRuns.RefusedCanWrite | raspi/bootrpi.c:61-65 | there are refused requests that change memory |
| PiStores.ServeByte | raspi/bootrpi.c:146-171 | for any bytes from the PC, every byte of memory at the end is the last one that a packet taken from them stores there, or the one that was there before |
| PiStores.MemoryKeptExactly | raspi/bootrpi.c:59-88 | the loop leaves every memory as it was if and only if no packet that it takes is an accepted LOAD that stores a byte or an accepted ZERO of nonzero size |
| Stream.TypesAnswered | raspi/bootrpi.c:146-171 | from the frames of accepted requests, the last of which may be EXEC, the loop takes exactly one packet each, with the literal type bytes of that request |
| PiRuns.UnknownServed | raspi/bootrpi.c:105-119 | a packet of unknown type whose followers have all arrived is answered with the error that names its type, and nothing is left on the line |
| BootArea.AcceptsExactly | raspi/bootrpi.c:45-57 | with the numbers of the linker, which ranges pass the check, wrapping around or not: those that end below runAddr - 4096, those that begin at runEnd or behind and do not come back, and those that cover everything between |
| BootArea.EndsRefused | raspi/bootrpi.c:53-54 | a range is refused if and only if its first address or the one after its last lies from runAddr - 4096 up to runEnd |
| BootArea.AcceptedMeets | raspi/bootrpi.c:45-57 | an accepted range holds an address from runAddr - 4096 up to runEnd if and only if it covers all of them, wrapping around or not |
| BootArea.SmallIsBounded | raspi/bootrpi.c:45-57 | a range no larger than the program and its stack page cannot cover them |
| BootArea.AreaKept | raspi/bootrpi.c:45-88 | whatever bytes arrive, if no range covers the program and its stack page then every byte from runAddr - 4096 up to runEnd stays as it was |
| BootAreaSteps.AreaKeptThroughout | raspi/minilibc.c:24-33 | under the same condition no step of any schedule changes a byte from runAddr - 4096 up to runEnd, not even while data is coming in or after a refusal |
| BootArea.ClearAccepts | raspi/bootrpi.c:45-57 | every range inside one that is clear of the area, also one that wraps around, is accepted |
| Bootproto.Client.Ping | client/bootproto.c:60-78 | writes one header and goes on only for RDY |
| Bootproto.Client.LoadBuffer | client/bootproto.c:81-93 | writes one whole LOAD frame with the checksum of its data and goes on only for ACK |
| Bootproto.Client.ZeroSection | client/bootproto.c:112-127 | writes one ZERO frame, with the fill flag as configured, and goes on only for ACK |
| Bootproto.Client.ExecProgram | client/bootproto.c:130-144 | writes one EXEC frame, with the watchdog flag as configured, and goes on only for ACK |
| Bootproto.Client.RebootPi | client/bootproto.c:147-159 | writes one REBOOT frame and goes on only for ACK |
| Bootproto.Client.CheckResponse | client/bootproto.c:28-50 | takes eight bytes and goes on if and only if they spell a response with the code ACK |
| Dialogue.ClientMeetsPi | client/bootproto.c:28-144 | what the client writes for accepted requests, the last of which may be EXEC, the Pi carries out in full, ending in its loop or in the program; what it answers the client takes as success to the last byte |
| SessionSafety.EveryStateInv | client/bootproto.c:28-127 | in every state of every interleaving at most one request is outstanding; the channel to the Pi is what is written of its frame and not yet taken; what is read, on its way and still to be written of answers is one response to it; memory is the effect of the requests before it, and of as much of it as has been received; only while a refused LOAD leaves data behind is less said |
| SessionSafety.StepKeepsInv | raspi/bootrpi.c:146-171 | each single step of either process keeps that |
| SessionProgress.SchedulesEnd | client/bootproto.c:28-127 | from any state, in step or not, no schedule is longer than a measure of what is unsent, unread, pending and unanswered |
| SessionProgress.NotStuck | raspi/minilibc.c:24-44 | as long as the client is neither done nor refused, one of the processes can go on |
| SessionProgress.RankStep | client/bootproto.c:28-127 | when every answer is as hoped each step brings the end exactly one step nearer |
| SessionProgress.AllSchedulesAgree | raspi/bootrpi.c:146-171 | when every answer is as hoped all schedules have the same length and the same last state, and none gets stuck before |
| SessionOutcome.AcceptedSession | client/bootproto.c:81-127 | every interleaving of a session with accepted ranges ends with all requests acknowledged, both channels empty and memory overwritten by the requests in order, after a number of steps that depends on the requests only |
| SessionRefused.RefusedSession | raspi/bootrpi.c:61-65 | the client never gets past the first request outside the permitted ranges and ends with the overwrite error; memory, the place where the Pi waits and the bytes still on their way are what the command loop makes of the data of that request, after the requests before it |
| SessionRefused.TimelyRefusal | raspi/bootrpi.c:105-119 | when the drains are timely that end is the same for every schedule |
| SessionRefused.RefusedShort | raspi/bootrpi.c:78-82 | with fewer than 20 bytes of data, none in a ZERO, memory is left as the requests before have made it and the data waits as the beginning of a header |
| SessionRefused.RefusedUnknown | raspi/bootrpi.c:105-119 | data that begins with no known type is thrown away under timely drains: memory is left alone, the Pi is back between packets and one more error is on its way |
| SessionRefused.RefusedKeepsMemory | raspi/bootrpi.c:61-65 | memory is what the requests before have made of it when no packet in the data stores anything |
| SessionOutcome.DamagedSession | raspi/bootrpi.c:67-75 | when a burst of at most 32 bits damages the data of a LOAD, no interleaving acknowledges it: the client ends with the CRC error, and the Pi is back in its loop with both channels empty |
| SessionOutcome.LoadAnswer | raspi/bootrpi.c:69-75 | a LOAD is acknowledged if and only if the data that arrives has the checksum of the data that was sent |
| PiSteps.RunAhead | raspi/bootrpi.c:146-171 | along any schedule, refused requests, damaged data and packets of unknown type included, what the Pi has done and what it would still do is what it was to do with the whole stream from the start |
| PiSteps.StepsRefineLoop | raspi/minilibc.c:24-44 | whenever the Pi can do nothing more, memory, what it waits for and all it has answered are those of the command loop on the whole stream, however the bytes were interleaved and whatever was drained |
| ClientSteps.StepsRefineExchange | client/bootproto.c:28-159 | when neither side can go on, the requests the client has made, whether it has finished and what it leaves unread are those of exchanging whole requests against all that the Pi has written, and what it has written is the frames of these requests |
| SessionEnd.StuckEnd | client/bootproto.c:28-159 | both together: where the two processes stop, each is where its own program, given all of the line at once, would stop |
| SessionTimely.TimelyExtends | raspi/bootrpi.c:105-119 | every timely schedule can be extended to a timely one after which neither process can go on |
| Resync.Resynchronised | raspi/bootrpi.c:105-119 | a Pi that waits for the rest of a header answers the next PING with ERR and the type it has read, drops the rest, and is then in the first state of a new session with its memory as it was, if and only if it holds fewer than four bytes or they begin with no known type |
| Resync.KnownStale | raspi/bootrpi.c:151-169 | when they begin with a known type, every schedule, timely or not, ends with the old header completed by the PING and handled as a packet, and never with the error that an unknown type gives |
| Resync.BackInStep | raspi/bootrpi.c:151-169 | the Pi is between two packets again if and only if the type is unknown, or the old header is an accepted LOAD of exactly the bytes that the PING has left; then these bytes are in memory |
| Resync.NextPingAnswered | raspi/bootrpi.c:105-119 | the PING after that is answered RDY, and nothing else has changed |
| Resync.ShortStale | common/bootproto.h:59-63 | with fewer than four stale bytes the type read is never a known one |
| Resync.StillOutOfStep | raspi/bootrpi.c:151-169 | with the type of PING, ZERO or REBOOT, or of a LOAD that is refused or empty, the two sides stay out of step by as many bytes; memory and the state of the client are those that the old header asks for |
| Resync.StaleLoad | raspi/bootrpi.c:59-76 | with that of an accepted LOAD the rest of the PING is stored; it is answered if that is enough data, and otherwise both sides wait for ever |
| Resync.StaleExec | raspi/bootrpi.c:151-169 | with that of EXEC the Pi runs at the address read, and the client stops because it is told ACK and not RDY |
| ElfLoad.LoadSection | client/bootproto.c:95-109 | sends as many bytes as asked for, those of the file as far as it goes |
| ElfLoad.LoadElf | client/elf.c:69-100 | the requests for the program headers, in order, up to the first failure, and the entry point; which these requests are is the next three rows |
| ElfRequests.SegmentAsked | client/elf.c:88-94 | every address of a segment of type 1 is asked for by exactly one request, the file bytes by a LOAD that comes first and the others by a ZERO; no address outside is, no ZERO has size 0, and entries of other types ask for nothing |
| ElfRequests.ElfCost | client/elf.c:86-95 | an ELF upload writes exactly 20 + filesz bytes for every entry of type 1, 20 more where memsz > filesz, and nothing for the others |
| ElfRequests.WrappedFill | client/elf.c:90-92 | with memsz < filesz the size of the fill wraps around: the ZERO is of 2^32 - (filesz - memsz) bytes |
| ElfMemory.LastSegmentWins | client/elf.c:85-95 | each byte of memory is what the last segment that covers it asks for, file byte or fill; a byte that none covers is as it was |
| ElfMemory.DisjointSegments | client/elf.c:85-95 | disjoint segments are all in memory as a whole, and nothing else has changed |
| ElfMemory.OrderIrrelevant | client/elf.c:85-95 | permuting the program headers of disjoint segments gives the same memory |
| Bootpc.Session | client/bootpc.c:34-77 | the requests of the whole session, up to the first failure, and whether the client gets through; what they come to is stated by Files.SessionEnds and Files.SessionStream |
| Bootpc.LoadFiles | client/bootpc.c:44-57 | each file by its format, in order, with the load address and the entry point carried on; where that puts each file is stated by Files.LastFileWins |
| Upload.BackToBack | client/bootpc.c:44-57 | what binary files store, with either fill, lies back to back in memory from the first load address on, also around the end of the address space, and every request stays within that range |
| Upload.AddressMoved | client/binary_loader.c:112-123 | over any mix of files the load address moves on by exactly the length of what the binary ones have stored; ELF files leave it |
| Upload.EndToEnd | client/bootpc.c:34-77 | for every interleaving and either fill, uploading binary files to a range clear of the bootloader takes a number of steps fixed beforehand and ends with what they store back to back in memory, every other byte as it was, every request acknowledged and the Pi running at the entry address |
| Upload.StoredPlain | client/binary_loader.c:109-123 | without 0xDEADBEEF that is the words of every file of which something is sent |
| Upload.ElfEndToEnd | client/elf.c:85-99 | for every interleaving, uploading an ELF file with segments clear of the bootloader ends with every byte as the last segment that covers it asks for, and the Pi running at the entry point of the file |
| Files.LastFileWins | client/bootpc.c:44-57 | for any mix of files, each byte of memory is what the last file that covers it asks for, and one that none covers is as it was; a binary file lies behind the binary files before it, whatever ELF files come between |
| Files.SessionEnds | client/bootpc.c:34-77 | for every interleaving, any mix of files clear of the bootloader and any action, the session takes a number of steps fixed beforehand and ends with every request acknowledged and memory as in the row above; the Pi runs at the entry of the last ELF file, or the address given if there is none, after `LACT_EXEC`, and is between two packets otherwise |
| Files.SessionStream | client/bootpc.c:42-70 | what the Pi takes from the line in that session, packet by packet: a PING, the LOADs and ZEROs of every file in order and no more, then one EXEC after `LACT_EXEC`, one REBOOT after `LACT_REBOOT`, and nothing after the other actions |

## Left out

- Hardware: UART, timer, LED and watchdog registers, start-up code and relocation are abstracted. Reading a
  byte takes it from a channel; of the delay before draining the model keeps what has arrived when it is over
  (`Session.Timely`, or the numbers given to `KMain`). A reboot asked for does not interrupt the model.
- Pi.Bootloader.HandleUnknown: does not model the timer; how many bytes arrive before the line falls silent is given
  as a number.
- Registers r0-r2 and what a started kernel does.
- Code overwritten by data: memory is data only, so a LOAD that spans the bootloader is stored like any other.
- Pi.Bootloader.KRead: does not model sizes of 2^31 or more, which the source converts to a negative `int`.
- Protocol.Sendable: requests have less than 2^31 bytes of data for the same reason; so have the files.
- Bootproto.Client.Ping: does not model a line closed in the middle of a response, where the source compares
  bytes that were never set; here the client stops.
- Bootproto.Client.Write: does not model a write that is cut short; the source does not look at its result.
- BinarySplit.SplitBinary: part addresses are offsets into the buffer; allocation always succeeds.
- Parsing of ELF headers, the checks of `validate_elf`, the choice between formats, option parsing, serial
  set-up, monitor mode and printing: the model starts from the parsed program headers and options.
- The sample kernel.
