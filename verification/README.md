# KS10 simulator, tunnel, packet filter and tape programs: a verified model

Dafny models of the programs of this archive that carry its weight, each with proofs of what it is
for. `dafny verify dfyconfig.toml` checks them all.

- `Common`: optional values and facts about sequences, for the others.
- `Words`, `MulDiv`, `Float`: KS10 integer and floating arithmetic on 36-bit words. A word is an
  integer below 2^36, and a mask is a remainder by a power of two. The shift-and-subtract dividers,
  the split multiply, the normaliser and the packing are methods with the source's loops, proved
  against `*`, truncating division and exact real values.
- `EventQueue`, `Breakpoints`: the simulator's delta-encoded linked list of events refines a sorted
  list of absolute due times; its sorted table with binary search refines a map.
- `Arc4`, `Tunnel`, `TunnelPeer`, `TunnelEnds`: the encrypted datagram tunnel. Each end is a class
  that ciphers in place; the two ends and the bytes in flight are a state machine, and
  `Tunnel.Safety` is about all its runs. `TunnelEnds.Session` takes two ends in place from the
  handshake through any steps in both directions.
- `Bpf`: the three packet buffers of the Berkeley packet filter, filled by interrupts and emptied by
  a reader that may sleep, with the consumer that walks over the records.
- `Decimal`, `DecimalBack`, `BytePointer`, `Blt`: the restartable conversions between binary and decimal, byte
  pointers, and block transfer. An interrupt or a page fault is an arbitrary choice at each place
  where the source looks for one.
- `Paging`: the translation cache for TOPS-10 paging against a walk of the page tables. The ghost
  field `stale` names the pages whose cached entry a store into a page table may have outdated;
  every other entry is what a walk would give now.
- `Kmc`: the buffer queues of the KMC11 and its two DUP11 lines, with the register handshake.
- `Tape`, `TapeWriter`, `TapeReader`: a BACKUP tape as written by one program and read by another.
  `TapeReader.SaveAndRestore` puts both together over the bytes of the tape.
- `Telnet`: the in-place stripper of Telnet commands against its own state table.
- `Dma`, `Bytes`: block transfers through the Unibus map, byte by byte.

State that the source updates in place is in classes and arrays, and each method states the new
state as a function of the old. Ghost fields hold histories (packets captured, descriptors
accepted, input received) that the class invariants tie to the real state, so that a statement about
one call is a statement about every sequence of calls. Sockets, clocks, interrupts and memory that a
device reads are parameters of the methods.

## Findings

Where the code does not do what its name or its comments suggest, the model follows the code, and
the exact condition is proved.

- `sim_process_event` called late shifts all remaining events by the lateness (`EventQueue.FireOnTime`).
  `sim_is_active` gives 0 for a queued unit that is late by exactly one, and only for that
  (`EventQueue.Queue.IsActive`). `sim_activate` then links such a unit in again, which loses the units
  between, or makes the list a loop (`EventQueue.Queue.Activate`, `EventQueue.LoseUnit`,
  `EventQueue.LoopUnit`). A unit becomes late when the time is brought up to date with a negative
  counter, as by `sim_activate` or `sim_cancel`.
- A datagram of 65536 bytes would be framed with length 0 (`Tunnel.FrameRoundTrip`).
- `dfdv` does not always round the quotient of an unnormalized dividend correctly, as bits are lost
  before it is rounded (`Float.NotAlwaysRight`). It does exactly when the divisor fraction is at
  most twice the dividend fraction, or the remainder, moved up by the places that the quotient
  lacks, stays below the divisor (`Float.WhenRight`, `Float.Dfdv`).
- The offset 400000 (octal) of CVTBDO is its own negative in 18 bits, and CVTDBO undoes it only for
  18-bit bytes (`DecimalBack.DigitBack`).
- ADJBP and IBP differ for a pointer that is not aligned to the left of its word, once it leaves the
  word (`BytePointer.AdjustIsIteration`). From a position over 36, ADJBP by m and then by n is in
  general not ADJBP by m + n (`BytePointer.NotTwice`, `BytePointer.AdjustedTwice`). The undo after a page fault fails for sizes over 36
  (`BytePointer.Redone`).
- A file whose last byte is NUL comes back shortened unless its length is one more than a multiple of
  five; an empty file or one of 1280 bytes makes the extractor look before its buffer
  (`Tape.CharsRoundTrip`). A file time comes back one second early for most times (`Tape.TimeRoundTrip`).
- New AC blocks leave cached entries out of date if the user process table is in page 0 and thus
  partly in the ACs (`Paging.Pager.EntriesInAcs`). `Paging.Pager.Outdate` is such a run, and
  `Paging.Pager.NewBlocks` and `Paging.Pager.Wrubr` say exactly which entries it are.
- A block transfer that is stopped after it has overwritten its own AC, and then executed again, ends
  elsewhere than an uninterrupted one unless it had written the same word (`Blt.Resumed`).
- The Telnet code drops a doubled IAC, and the character after it, instead of taking it for data
  (`Telnet.DoubledIac`); its documentation does not say otherwise, but RFC 854 does.
- `dma_read` of no bytes at an odd address stores one byte (`Dma.Adapter.DmaRead`). A 16-bit write
  also clears the two bits of the half word above it (`Dma.Adapter.UnibusWrite`).

## Model

| member | source | states |
|---|---|---|
| Words.Dmovn | ftp.stacken.kth.se/pub/pdp10/v29upd/pdp10_defs.h:507-508 | negates a two-word integer modulo 2^71 and clears the low sign |
| Words.Mkdneg | ftp.stacken.kth.se/pub/pdp10/v29upd/pdp10_defs.h:509-510 | negates a two-word integer and gives the low word the sign |
| MulDiv.Cpu.Mul | ftp.stacken.kth.se/pub/pdp10/v29upd/pdp10_mdfp.c:199-225 | the signed product of any two words as a double word with equal signs; only (-2^35)^2 overflows, is flagged, and gives -2^70 |
| MulDiv.MultiplySplit | ftp.stacken.kth.se/pub/pdp10/v29upd/pdp10_mdfp.c:209-215 | the product of magnitudes from halves of 18 bits, none of whose sums exceeds 64 bits |
| MulDiv.MultiplyNative | ftp.stacken.kth.se/pub/pdp10/v29upd/pdp10_mdfp.c:216-218 | the product of magnitudes below 2^32 by the 64-bit multiplication of the host |
| MulDiv.Cpu.Imul | ftp.stacken.kth.se/pub/pdp10/v29upd/pdp10_mdfp.c:163-175 | the product modulo 2^35, exact and unflagged if and only if it fits in one word |
| MulDiv.Cpu.Idiv | ftp.stacken.kth.se/pub/pdp10/v29upd/pdp10_mdfp.c:182-195 | truncating quotient and remainder, failing only for a zero divisor; -2^35 by -1 gives the sign word without a flag |
| MulDiv.Cpu.Divi | ftp.stacken.kth.se/pub/pdp10/v29upd/pdp10_mdfp.c:232-261 | truncating quotient and remainder of a double word by a word, failing exactly when the dividend is at least the divisor times 2^35 |
| MulDiv.DivideDouble | ftp.stacken.kth.se/pub/pdp10/v29upd/pdp10_mdfp.c:246-254 | the 35-step shift and subtract loop is division with remainder |
| MulDiv.TruncDivUnique | ftp.stacken.kth.se/pub/pdp10/v29upd/pdp10_mdfp.c:232-261 | the division equation, the bound and the sign of the remainder determine both results |
| MulDiv.Cpu.DivideProduct | ftp.stacken.kth.se/pub/pdp10/v29upd/pdp10_mdfp.c:199-261 | dividing a product by its second factor gives back the first and 0, exactly for a factor that is not -2^35 and a non-zero divisor |
| MulDiv.AbsQuad | ftp.stacken.kth.se/pub/pdp10/v29upd/pdp10_mdfp.c:315-322 | the four-word magnitude: the ripple of complements carries exactly as far as words are zero |
| MulDiv.DivideQuad | ftp.stacken.kth.se/pub/pdp10/v29upd/pdp10_mdfp.c:328-339 | the 70-step loop on four words is division with remainder of 141-bit integers |
| MulDiv.DivideSigned | ftp.stacken.kth.se/pub/pdp10/v29upd/pdp10_mdfp.c:310-347 | the signed four-word division: when it fails, and both results with consistent signs |
| MulDiv.Cpu.Ddiv | ftp.stacken.kth.se/pub/pdp10/v29upd/pdp10_mdfp.c:310-347 | ddiv as an instruction: the four ACs hold the exact quotient and remainder with consistent signs, or the ACs are unchanged and AOV, DCK and T1 set; it fails exactly when the dividend is at least the divisor times 2^70 |
| Float.NormShift | ftp.stacken.kth.se/pub/pdp10/v29upd/pdp10_mdfp.c:643-656 | each hit of the mask table shifts out only zeros |
| Float.Ufp.Normalize | ftp.stacken.kth.se/pub/pdp10/v29upd/pdp10_mdfp.c:651-656 | normalizing ends with the high bit set and keeps fraction times two to the exponent |
| Float.Ufp.Fnorm | ftp.stacken.kth.se/pub/pdp10/v29upd/pdp10_mdfp.c:640-663 | normalizing with a rounding constant, including the carry out of the fraction |
| Float.Funpack | ftp.stacken.kth.se/pub/pdp10/v29upd/pdp10_mdfp.c:619-636 | unpacking gives sign, exponent and fraction, with the one special fraction of -1.0 renormalized |
| Float.Fpack | ftp.stacken.kth.se/pub/pdp10/v29upd/pdp10_mdfp.c:667-684 | packing gives back sign, exponent and the kept fraction bits, complemented for a quotient with a remainder; an exponent below 0 sets AOV, FOV, FXU and T1, one above 255 AOV, FOV and T1; a negative number with no bits kept is the negated exponent alone |
| Float.Repack | ftp.stacken.kth.se/pub/pdp10/v29upd/pdp10_mdfp.c:619-684 | packing what was unpacked gives the same words if and only if the low sign is clear and the fraction is not that of -1.0 |
| Float.RoundedValue | ftp.stacken.kth.se/pub/pdp10/v29upd/pdp10_mdfp.c:640-684 | without an exponent flag, packed words are the value cut, or rounded half away from zero, to the kept bits |
| Float.WordsOfOne | ftp.stacken.kth.se/pub/pdp10/v29upd/pdp10_mdfp.c:619-684 | the words 201400,,0 and 576400,,0 (octal) denote 1.0 and -1.0 |
| Float.NormPack | ftp.stacken.kth.se/pub/pdp10/v29upd/pdp10_mdfp.c:640-684 | normalizing and packing any exact or truncated fraction yields its correctly rounded words, whose fraction is that shifted by the places it lacks |
| Float.Fmp | ftp.stacken.kth.se/pub/pdp10/v29upd/pdp10_mdfp.c:399-411 | the product of two floating words, correctly truncated or rounded in magnitude, with the exponent flags and the sign of the product |
| Float.Fltr | ftp.stacken.kth.se/pub/pdp10/v29upd/pdp10_mdfp.c:465-476 | an integer as a correctly rounded floating word |
| Float.DivideFraction | ftp.stacken.kth.se/pub/pdp10/v29upd/pdp10_mdfp.c:602-611 | the 63-step loop gives floor(a * 2^62 / b) whenever a < 2b; the partial remainder stays below 2b |
| Float.QuotientUnit | ftp.stacken.kth.se/pub/pdp10/v29upd/pdp10_mdfp.c:587-615 | the quotient of two values lies within one unit of the quotient of their fractions |
| Float.WhenRight | ftp.stacken.kth.se/pub/pdp10/v29upd/pdp10_mdfp.c:602-613 | the packed words are the rounded quotient of the operands if and only if the divisor fraction b is at most twice the dividend fraction a, or (2a * 2^62 mod b) * 2^k < b for the k places the integer quotient is shifted |
| Float.NotAlwaysRight | ftp.stacken.kth.se/pub/pdp10/v29upd/pdp10_mdfp.c:602-613 | an input that fails: fraction 2 by 3 * 2^61 |
| Float.RightThoughSmall | ftp.stacken.kth.se/pub/pdp10/v29upd/pdp10_mdfp.c:602-613 | the same dividend by a half is divided exactly, though it is below half the divisor |
| Float.Dfdv | ftp.stacken.kth.se/pub/pdp10/v29upd/pdp10_mdfp.c:587-615 | double floating divide: no divide exactly when the dividend fraction is at least twice the divisor fraction; else the words of the quotient with its sign and flags, correctly rounded if and only if that condition holds, and else a number below it by less than a unit of the integer quotient, rounded |
| EventQueue.Queue.constructor | ftp.stacken.kth.se/pub/pdp10/v29upd/scp.c:383-387 | the empty queue at time 0 with which the simulator starts |
| EventQueue.Inserted | ftp.stacken.kth.se/pub/pdp10/v29upd/scp.c:2517-2542 | insertion by due time keeps the order and puts a unit behind all with the same time |
| EventQueue.Removed | ftp.stacken.kth.se/pub/pdp10/v29upd/scp.c:2553-2571 | removal takes out one unit and moves no other |
| EventQueue.EntriesSorted | ftp.stacken.kth.se/pub/pdp10/v29upd/scp.c:2470-2471 | relative times that are not negative stand for a sorted list of absolute times |
| EventQueue.NearerEntries | ftp.stacken.kth.se/pub/pdp10/v29upd/scp.c:109-111 | passing time and moving the clock as much keeps every absolute time |
| EventQueue.LinkIn | ftp.stacken.kth.se/pub/pdp10/v29upd/scp.c:2530-2540 | linking a unit into the delta list is insertion into the list of absolute times |
| EventQueue.LinkOut | ftp.stacken.kth.se/pub/pdp10/v29upd/scp.c:2561-2566 | unlinking a unit from the delta list is removal from the list of absolute times |
| EventQueue.PoppedAgenda | ftp.stacken.kth.se/pub/pdp10/v29upd/scp.c:2491-2497 | the first link is the first due entry, and the rest of the list keeps its times |
| EventQueue.Queue.IsActive | ftp.stacken.kth.se/pub/pdp10/v29upd/scp.c:2581-2591 | the time until the unit is due, plus one; 0 if and only if the unit is not queued or is late by exactly one |
| EventQueue.Queue.UpdateSimTime | ftp.stacken.kth.se/pub/pdp10/v29upd/scp.c:109-111 | the clock catches up with the interval counter, which the first relative time then is, and no absolute time changes |
| EventQueue.Queue.FindPlace | ftp.stacken.kth.se/pub/pdp10/v29upd/scp.c:2530-2533 | the scan stops behind every unit due at the same time |
| EventQueue.Queue.Activate | ftp.stacken.kth.se/pub/pdp10/v29upd/scp.c:2517-2542 | the agenda is as asked (an idle unit inserted at now plus its delay, however late the queue is; nothing changed for an active one or a negative delay) if and only if the delay is negative or the unit is not queued and late by exactly one; else the links lead back to the unit, or, when its new place is beyond its successor, those between are lost and the rest come sooner by the stated time |
| EventQueue.LoseUnit | ftp.stacken.kth.se/pub/pdp10/v29upd/scp.c:2517-2542 | a run from the empty queue in which activating a late unit loses the other |
| EventQueue.LoopUnit | ftp.stacken.kth.se/pub/pdp10/v29upd/scp.c:2517-2542 | a run from the empty queue in which activating a late unit makes it its own successor |
| EventQueue.Queue.Cancel | ftp.stacken.kth.se/pub/pdp10/v29upd/scp.c:2553-2571 | the unit, if queued, is removed, and every other stays due when it was |
| EventQueue.Queue.Pop | ftp.stacken.kth.se/pub/pdp10/v29upd/scp.c:2491-2497 | the first unit leaves the linked list, idle; the others keep their order |
| EventQueue.Queue.ProcessEvent | ftp.stacken.kth.se/pub/pdp10/v29upd/scp.c:2482-2506 | the loop over due events, whose actions activate and cancel units, fires what the list of absolute times says, in order |
| EventQueue.ProcessPunctual | ftp.stacken.kth.se/pub/pdp10/v29upd/scp.c:2482-2506 | events are fired until an action fails or no unit that is due is left |
| EventQueue.FireOnTime | ftp.stacken.kth.se/pub/pdp10/v29upd/scp.c:2490-2497 | firing adds the lateness of the event to the due times of the others; they stay if and only if the event is on time or alone |
| EventQueue.RespondLast | ftp.stacken.kth.se/pub/pdp10/v29upd/scp.c:2517-2571 | the requests of an action are served in their order, each an insertion at now plus its delay or a removal |
| EventQueue.ProcessAllDue | ftp.stacken.kth.se/pub/pdp10/v29upd/scp.c:2490-2501 | called in time, with actions that cancel nothing, all units due are fired, in order, before any other |
| EventQueue.ProcessExactlyDue | ftp.stacken.kth.se/pub/pdp10/v29upd/scp.c:2490-2501 | with actions that do nothing, exactly the units due are fired and the rest of the queue is as it was |
| Breakpoints.Table.constructor | ftp.stacken.kth.se/pub/pdp10/v29upd/scp.c:2799-2807 | an empty table, of the initial size if there are breakpoint types |
| Breakpoints.Table.Find | ftp.stacken.kth.se/pub/pdp10/v29upd/scp.c:2811-2830 | binary search: the entry of an address, or the gap where it belongs |
| Breakpoints.Table.New | ftp.stacken.kth.se/pub/pdp10/v29upd/scp.c:2834-2851 | the entries above the gap move up by one, unless the table is full |
| Breakpoints.Table.Obtain | ftp.stacken.kth.se/pub/pdp10/v29upd/scp.c:2861-2863 | an entry to fill in for any address while there is room |
| Breakpoints.Table.Set | ftp.stacken.kth.se/pub/pdp10/v29upd/scp.c:2855-2868 | the table as a map with the breakpoint set, and when it is refused |
| Breakpoints.Table.CloseGap | ftp.stacken.kth.se/pub/pdp10/v29upd/scp.c:2880-2882 | one entry is taken out and the order of the others kept |
| Breakpoints.Table.Summarize | ftp.stacken.kth.se/pub/pdp10/v29upd/scp.c:2883-2885 | the summary is the union of the types that are set |
| Breakpoints.Table.Clear | ftp.stacken.kth.se/pub/pdp10/v29upd/scp.c:2872-2887 | the types given, or all without any, are cleared from the entry of the address, which leaves the map with its last type |
| Breakpoints.Table.Count | ftp.stacken.kth.se/pub/pdp10/v29upd/scp.c:2943-2951 | the proceed count goes down by one, but not below zero, and is used up at one |
| Breakpoints.Table.Test | ftp.stacken.kth.se/pub/pdp10/v29upd/scp.c:2940-2954 | a breakpoint is taken exactly when set for the type, not pending here, and counted down |
| Breakpoints.Table.SummaryCovers | ftp.stacken.kth.se/pub/pdp10/v29upd/scp.c:2779-2781 | a type that is not in the summary is set nowhere |
| Arc4.CryptTwice | stacken.kth.se/home/bygg/stuk3.c:202-218 | ciphering twice with the same stream state gives the bytes back |
| Arc4.CryptAppend | stacken.kth.se/home/bygg/stuk3.c:202-218 | ciphering in pieces is ciphering the whole |
| Arc4.AdvanceAdd | stacken.kth.se/home/bygg/stuk3.c:92-103 | the stream state after m + n bytes is that after m and then n |
| Arc4.XorDiffers | stacken.kth.se/home/bygg/stuk3.c:202-209 | a bit of the exclusive or is set exactly when that bit of the two bytes differs |
| Arc4.CryptAt | stacken.kth.se/home/bygg/stuk3.c:202-218 | each byte is ciphered with the key byte of its place |
| Arc4.KeyStreamAt | stacken.kth.se/home/bygg/stuk3.c:180-182 | the key stream is what the steps give, one after the other |
| Arc4.SchedulingSteps | stacken.kth.se/home/bygg/stuk3.c:72-90 | the schedule starts with the identity and takes a byte of the key a step, over and over |
| Arc4.StatePermuted | stacken.kth.se/home/bygg/stuk3.c:72-103 | whatever the key, the state is a permutation of the 256 bytes after the schedule and after any number of steps |
| Arc4.Stream.MixByte | stacken.kth.se/home/bygg/stuk3.c:83-89 | a step of the schedule in bytes: i goes up by one, j by the state byte at i and the key byte, and the two state bytes are exchanged |
| Arc4.Stream.Init | stacken.kth.se/home/bygg/stuk3.c:72-90 | the key schedule, swapped in place, is the fold over the key |
| Arc4.Stream.GetByte | stacken.kth.se/home/bygg/stuk3.c:92-103 | a step in bytes: i goes up by one, j by the state byte at i, the two state bytes are exchanged and no other changes, and the result is the state byte at their sum; as the next state and byte of the stream |
| Arc4.Stream.Apply | stacken.kth.se/home/bygg/stuk3.c:202-218 | a stretch of a buffer is ciphered in place and the rest of it unchanged |
| Arc4.Stream.Expect | stacken.kth.se/home/bygg/stuk3.c:187-189 | the proof is accepted if and only if it is the key stream |
| Tunnel.FrameRoundTrip | stacken.kth.se/home/bygg/stuk3.c:311-376 | a framed datagram comes out whole if and only if it has at most 65535 bytes |
| Tunnel.FrameBytes | stacken.kth.se/home/bygg/stuk3.c:361-365 | a header is two zeros and the length of the datagram, the high byte first |
| Tunnel.Taking | stacken.kth.se/home/bygg/stuk3.c:344-353 | four bytes, and as many more as the last two of them say, make a frame; nothing is emitted for an empty one |
| Tunnel.TakeFrames | stacken.kth.se/home/bygg/stuk3.c:344-353 | from any prefix of a coded stream the receiver takes the whole frames and keeps the partial one |
| Tunnel.StepCarries | stacken.kth.se/home/bygg/stuk3.c:309-377 | every step of either end keeps the invariant of the connection: the cipher states differ by the bytes in flight |
| Tunnel.Safety | stacken.kth.se/home/bygg/stuk3.c:309-377 | in every run, for any partial sends and any cutting of the stream, what comes out is a prefix of the datagrams accepted, the buffer does not overflow, and all come out once the connection drains |
| Tunnel.Progress | stacken.kth.se/home/bygg/stuk3.c:309-377 | from any reachable state with nothing on its way, a datagram of 1 to 65535 bytes is accepted, can be sent and delivered whole, and comes out of the other end |
| TunnelPeer.Peer.SetupKey | stacken.kth.se/home/bygg/stuk3.c:126-143 | the stream key is the 8 bytes of the salt followed by at most 248 bytes of the key, in a buffer of 256 |
| TunnelPeer.Peer.Prove | stacken.kth.se/home/bygg/stuk3.c:174-183 | the proof of an end is the key stream of the salt of the other; equal salts are refused |
| TunnelPeer.Peer.Check | stacken.kth.se/home/bygg/stuk3.c:184-190 | the proof of the other end is accepted exactly when its stream agrees |
| TunnelPeer.Handshake | stacken.kth.se/home/bygg/stuk3.c:158-196 | two ends with the same key succeed unless their salts are equal, and then agree on both cipher states |
| TunnelEnds.Converse | stacken.kth.se/home/bygg/stuk3.c:309-377 | two ends, each sending and receiving in place, do any steps in both directions: the datagrams in and out, and the bytes on their way, are those of the model, and what comes out at each end is a prefix of what went in at the other |
| TunnelEnds.Session | stacken.kth.se/home/bygg/stuk3.c:158-377 | the same from the handshake on, which succeeds unless the salts are equal |
| TunnelEnds.Exchange | stacken.kth.se/home/bygg/stuk3.c:309-377 | after any steps that leave nothing on its way from one end, a datagram that it gets comes out of the other end three steps later, and the other direction has no part in it |
| TunnelPeer.Peer.Timeout | stacken.kth.se/home/bygg/stuk3.c:309-316 | an end with nothing to send queues four zeros, ciphered if there is a key; any other stays as it is |
| TunnelPeer.Peer.Send | stacken.kth.se/home/bygg/stuk3.c:321-328 | the bytes sent are the next ones of the output buffer, and position and count move by as many |
| TunnelPeer.Peer.Input | stacken.kth.se/home/bygg/stuk3.c:355-377 | an end with nothing to send queues the header and the datagram, ciphered from its present state if there is a key; otherwise the datagram is dropped |
| TunnelPeer.Peer.Receive | stacken.kth.se/home/bygg/stuk3.c:329-354 | what is emitted are the whole frames of the buffer and the bytes received, deciphered from the present state; the rest stays |
| TunnelPeer.Peer.Deframe | stacken.kth.se/home/bygg/stuk3.c:344-353 | the loop emits the non-empty datagrams in the buffer and moves the rest down |
| Bpf.Descriptor.constructor | stacken.kth.se/home/bygg/bpf/bpf.c:1193-1208 | two empty buffers, one of them free |
| Bpf.Descriptor.Rotate | stacken.kth.se/home/bygg/bpf/bpf.c:379-384 | the store buffer is held and the free one stored into; nothing is lost |
| Bpf.Descriptor.Append | stacken.kth.se/home/bygg/bpf/bpf.c:1161-1172 | a record goes behind those stored, word aligned |
| Bpf.Descriptor.CatchPacket | stacken.kth.se/home/bygg/bpf/bpf.c:1112-1187 | of a packet the least of the snap length, its length and the buffer size less the header is kept, with its whole length; it is dropped and counted exactly when that does not fit behind the word-aligned store and there is no free buffer; which records are then held and stored, when a late read rotates the buffers and loses its start, and when readers are woken; a held buffer is never touched |
| Bpf.Descriptor.Tap | stacken.kth.se/home/bygg/bpf/bpf.c:1026-1046 | every packet received is counted once, as captured (with its first bytes, as many as are wanted and fit), filtered or dropped for lack of room |
| Bpf.Descriptor.StartRead | stacken.kth.se/home/bygg/bpf/bpf.c:398-417 | a read for other than the buffer size is refused; else its start is noted if reads have a timeout and none is noted, and forgotten otherwise |
| Bpf.Descriptor.Check | stacken.kth.se/home/bygg/bpf/bpf.c:424-443 | a read takes what is held; in immediate mode with anything stored it rotates and takes that; else it sleeps, unless it is not to block and its start plus timeout is not past: then it takes what is stored, or returns nothing |
| Bpf.Descriptor.Awake | stacken.kth.se/home/bygg/bpf/bpf.c:434-469 | after the sleep: interrupted, timed out with or without data, or looking again |
| Bpf.Descriptor.Copy | stacken.kth.se/home/bygg/bpf/bpf.c:475-480 | a read delivers exactly the records held |
| Bpf.Descriptor.FinishRead | stacken.kth.se/home/bygg/bpf/bpf.c:480-488 | the buffer read becomes free and its packets are delivered |
| Bpf.Descriptor.Reset | stacken.kth.se/home/bygg/bpf/bpf.c:577-589 | a flush forgets what is stored and held, and the counters |
| Bpf.HeaderFields | stacken.kth.se/home/bygg/bpf/bpf.c:1164-1171 | the lengths in a record header are read back as written |
| Bpf.RecordBytes | stacken.kth.se/home/bygg/bpf/bpf.c:1161-1171 | a record in bytes: the time stamp, the captured and the whole length and the header length, each with its low byte first, and the packet after as many bytes as the header takes |
| Bpf.ChainAppend | stacken.kth.se/home/bygg/bpf/bpf.c:1131-1172 | a record behind a word-aligned chain of records extends it |
| Bpf.Consumer.Load | ftp.stacken.kth.se/pub/pdp10/v29upd/eth_bpf.h:374-377 | a read fills the buffer with a chain of records |
| Bpf.Consumer.Take | ftp.stacken.kth.se/pub/pdp10/v29upd/eth_bpf.h:381-384 | the walk takes the next packet stored, whole |
| Bpf.Consumer.Walk | ftp.stacken.kth.se/pub/pdp10/v29upd/eth_bpf.h:373-390 | the walk finds the first packet that is wanted, skips exactly those before, and is left behind it |
| Bpf.Consumer.ReadAll | ftp.stacken.kth.se/pub/pdp10/v29upd/eth_bpf.h:365-394 | from the hold buffer to the program: exactly the wanted packets that were held, whole and in order, and they count as delivered |
| Decimal.PowersExact | ftp.stacken.kth.se/pub/pdp10/v29upd/pdp10_xtnd.c:155-178 | the table of double words holds the powers of ten |
| Decimal.DigitsValue | ftp.stacken.kth.se/pub/pdp10/v29upd/pdp10_xtnd.c:268-283 | the digits printed have the value of the number |
| Decimal.NoLeadingZero | ftp.stacken.kth.se/pub/pdp10/v29upd/pdp10_xtnd.c:253-254 | at the minimal width the first digit is not 0 |
| Decimal.WidthUnique | ftp.stacken.kth.se/pub/pdp10/v29upd/pdp10_xtnd.c:253-254 | the width is the only one with the number below its power of ten and not below the one before |
| Decimal.FieldWidth | ftp.stacken.kth.se/pub/pdp10/v29upd/pdp10_xtnd.c:253-254 | the search finds the width of any 71-bit magnitude |
| Decimal.TakeDigit | ftp.stacken.kth.se/pub/pdp10/v29upd/pdp10_xtnd.c:273-275 | repeated subtraction finds the leading digit |
| Decimal.CodesAt | ftp.stacken.kth.se/pub/pdp10/v29upd/pdp10_xtnd.c:244-280 | the byte for a digit is the sum with the sign-extended offset, cut to a word and to the byte size |
| Decimal.PaddingIs | ftp.stacken.kth.se/pub/pdp10/v29upd/pdp10_xtnd.c:255-259 | fill bytes come only if asked for and as many as the number is shorter than the field |
| Decimal.DecodesAt | ftp.stacken.kth.se/pub/pdp10/v29upd/pdp10_xtnd.c:300-308 | a byte is read as its sum with the sign-extended offset, cut to a word |
| Decimal.ScanStops | ftp.stacken.kth.se/pub/pdp10/v29upd/pdp10_xtnd.c:316-319 | the first digit out of range ends the scan: those before it count and those after it are left |
| Decimal.Printer.PendingIs | ftp.stacken.kth.se/pub/pdp10/v29upd/pdp10_xtnd.c:244-285 | a new number is printed in full, after the fill, if its digits fit into the field; of one begun, the digits that are left |
| Decimal.Printer.Execute | ftp.stacken.kth.se/pub/pdp10/v29upd/pdp10_xtnd.c:244-285 | one execution of CVTBDO: done, refused for lack of room, or interrupted with progress and exactly the rest still to print |
| Decimal.Printer.Complete | ftp.stacken.kth.se/pub/pdp10/v29upd/pdp10_xtnd.c:244-285 | interrupted at any points and restarted, CVTBDO prints the padding and the digits of the magnitude and sets the M and N flags, or refuses, as an undisturbed one does |
| Decimal.Parser.Execute | ftp.stacken.kth.se/pub/pdp10/v29upd/pdp10_xtnd.c:295-327 | one execution of CVTDBO: the value, a bad digit, or interrupted with progress and the same outcome to come |
| Decimal.Parser.Complete | ftp.stacken.kth.se/pub/pdp10/v29upd/pdp10_xtnd.c:295-327 | interrupted at any points and restarted, CVTDBO gives the value of the digits with the sign of the M flag and consistent word signs |
| DecimalBack.DigitBack | ftp.stacken.kth.se/pub/pdp10/v29upd/pdp10_xtnd.c:248-308 | a digit coded with an offset is decoded with the opposite offset if and only if the code fits the byte; the offset 400000 (octal) has no opposite but for 18-bit bytes |
| DecimalBack.ScanValue | ftp.stacken.kth.se/pub/pdp10/v29upd/pdp10_xtnd.c:301-316 | digits in range are read as their number modulo 2^71 |
| DecimalBack.NoCoincidence | ftp.stacken.kth.se/pub/pdp10/v29upd/pdp10_xtnd.c:301-316 | other digits that illegible codes can be read as never have the same number modulo 2^71 |
| DecimalBack.RoundTrip | ftp.stacken.kth.se/pub/pdp10/v29upd/pdp10_xtnd.c:244-327 | the digits of any 71-bit magnitude, coded and decoded, are the same if and only if each is legible, and scan to the magnitude if and only if each is legible |
| DecimalBack.ThereAndBack | ftp.stacken.kth.se/pub/pdp10/v29upd/pdp10_xtnd.c:244-327 | printing and parsing, both with any interrupts, succeeds and gives back the signed integer if and only if the field has room and every digit is legible |
| BytePointer.Context.Incbp | ftp.stacken.kth.se/pub/pdp10/v29upd/pdp10_xtnd.c:494-506 | the pointer to the next byte |
| BytePointer.Context.Ibp | ftp.stacken.kth.se/pub/pdp10/v29upd/pdp10_cpu.c:1691-1706 | the pointer in memory is replaced by that to the next byte |
| BytePointer.Context.Adjbp | ftp.stacken.kth.se/pub/pdp10/v29upd/pdp10_cpu.c:1751-1776 | the corrected truncating division finds byte and word at any distance either way; the instruction fails, with AOV, DCK and T1, exactly for a size that gives no byte in a word |
| BytePointer.PackFields | ftp.stacken.kth.se/pub/pdp10/v29upd/pdp10_defs.h:169-171 | a pointer is its position, size, index and address, of 6, 6, 6 and 18 bits from the left |
| BytePointer.ChangedFields | ftp.stacken.kth.se/pub/pdp10/v29upd/pdp10_xtnd.c:494-506 | the word of the next pointer has its fields, and so has that of the undone one |
| BytePointer.ChangedWords | ftp.stacken.kth.se/pub/pdp10/v29upd/pdp10_xtnd.c:494-506 | the increment in bits: the position less the size, or 36 less the size with the address one higher; the undo adds the size to the position modulo 64 |
| BytePointer.LeftBytes | ftp.stacken.kth.se/pub/pdp10/v29upd/pdp10_cpu.c:1760-1763 | the bits left of the position are the bytes to the left and the slack, in the division of C |
| BytePointer.AdjustedAt | ftp.stacken.kth.se/pub/pdp10/v29upd/pdp10_cpu.c:1751-1776 | from any pointer that is not refused, also with a position over 36: the byte and the address are those of the sum; size, slack and bytes per word stay, but for a word of one byte less after a position beyond the end by other than whole bytes |
| BytePointer.AdjustedTwice | ftp.stacken.kth.se/pub/pdp10/v29upd/pdp10_cpu.c:1751-1776 | adjusting twice, if neither is refused, is adjusting by the sum if and only if the slack is not negative, or the sum comes to the first word (or to it again after a round of the whole memory) |
| BytePointer.NotTwice | ftp.stacken.kth.se/pub/pdp10/v29upd/pdp10_cpu.c:1751-1776 | an input for which it is not |
| BytePointer.AdjustedByZero | ftp.stacken.kth.se/pub/pdp10/v29upd/pdp10_cpu.c:1766-1774 | adjusting by zero is the identity if and only if a byte of the word is to the left |
| BytePointer.AdjustedBack | ftp.stacken.kth.se/pub/pdp10/v29upd/pdp10_cpu.c:1751-1776 | adjusting by n and by -n, if neither is refused, is the identity if and only if a byte of the word is to the left |
| BytePointer.AdjustIsIteration | ftp.stacken.kth.se/pub/pdp10/v29upd/pdp10_cpu.c:1691-1776 | adjusting by n >= 1 is n increments if and only if it does not fall short of the first word, and the pointer is aligned to the left of its word or stays in it |
| BytePointer.Aligned | ftp.stacken.kth.se/pub/pdp10/v29upd/pdp10_cpu.c:1762-1766 | the pointers with P = 36 - k * S are those, with k bytes to the left |
| BytePointer.Redone | ftp.stacken.kth.se/pub/pdp10/v29upd/pdp10_xtnd.c:494-638 | undone by adding the size and incremented again, a pointer is where the first increment took it if and only if it stayed in its word or the size is at most 36 |
| BytePointer.Context.Increment | ftp.stacken.kth.se/pub/pdp10/v29upd/pdp10_xtnd.c:510-517 | the increment of a register, with its entry in the change log |
| BytePointer.Context.Xtcln | ftp.stacken.kth.se/pub/pdp10/v29upd/pdp10_xtnd.c:627-638 | exactly the registers in the log are undone |
| BytePointer.Restarted | ftp.stacken.kth.se/pub/pdp10/v29upd/pdp10_xtnd.c:510-638 | an instruction that page-fails after some increments and is executed again increments as if it had not, if and only if that holds of each pointer |
| BytePointer.Context.Faulted | ftp.stacken.kth.se/pub/pdp10/v29upd/pdp10_xtnd.c:510-638 | the same of the increments, the undo and the increments again, on the registers in place |
| Blt.CopiesSource | ftp.stacken.kth.se/pub/pdp10/v29upd/pdp10_cpu.c:1785-1809 | a transfer that reads each word before it overwrites it copies the source and changes nothing else |
| Blt.Fills | ftp.stacken.kth.se/pub/pdp10/v29upd/pdp10_cpu.c:1785-1809 | with the destination one past the source the first word fills the block |
| Blt.Transferred | ftp.stacken.kth.se/pub/pdp10/v29upd/pdp10_cpu.c:1785-1809 | an uninterrupted transfer in words: each word of the destination is that of the source, the AC, if it is outside, has the two addresses behind the last words, also where it is itself copied, and nothing else changes |
| Blt.Resumed | ftp.stacken.kth.se/pub/pdp10/v29upd/pdp10_cpu.c:1785-1809 | executing a stopped transfer again from its AC ends where the uninterrupted one does if and only if the AC still held what BLT had put there, as it does unless it was one of the words of the destination |
| Blt.Memory.Blt | ftp.stacken.kth.se/pub/pdp10/v29upd/pdp10_cpu.c:1785-1809 | it stops before the first word at which a page fault is met, or an interrupt other than before the first; done, the memory after the whole transfer and the AC with the addresses behind it; stopped, the words moved so far and the addresses of the next in the AC; wherever the AC is |
| Blt.Memory.Complete | ftp.stacken.kth.se/pub/pdp10/v29upd/pdp10_cpu.c:1785-1809 | stopped any number of times in any way and executed again, a block transfer whose AC is not in its destination, or only its last word, ends with the memory and the AC of an uninterrupted one |
| Paging.TranslateExpanded | ftp.stacken.kth.se/pub/pdp10/v29upd/pdp10_defs.h:255-256 | an expanded entry leads to the page of the table entry |
| Paging.TwoEntries | ftp.stacken.kth.se/pub/pdp10/v29upd/pdp10_pag.c:347-347 | a word is the entries of an even page, on the left, and of the odd page after it |
| Paging.EntryBits | ftp.stacken.kth.se/pub/pdp10/v29upd/pdp10_pag.c:356-358 | which bits of an entry grant access and writing, and the expanded entry |
| Paging.Pager.PteInWords | ftp.stacken.kth.se/pub/pdp10/v29upd/pdp10_pag.c:341-347 | which half of which word is the entry of a page: the three areas of the executive and that of the user |
| Paging.Pager.WalkInWords | ftp.stacken.kth.se/pub/pdp10/v29upd/pdp10_pag.c:337-361 | where an address leads by the words of the page tables, or that they deny it |
| Paging.Pager.constructor | ftp.stacken.kth.se/pub/pdp10/v29upd/pdp10_cpu.c:2084-2096 | the state after a reset: paging off, no entry filled, nothing out of date |
| Paging.Pager.Fill | ftp.stacken.kth.se/pub/pdp10/v29upd/pdp10_pag.c:337-361 | an entry is filled exactly when the table entry, in the stated half of the stated word, grants the access; it gets the page number and the writeable bit, and no other entry changes |
| Paging.Pager.Read | ftp.stacken.kth.se/pub/pdp10/v29upd/pdp10_pag.c:159-170 | a read gives the word in the page that the stated half of the stated page-table word names, or page-fails when that denies access; with paging off, the word at the address itself |
| Paging.Pager.ReadM | ftp.stacken.kth.se/pub/pdp10/v29upd/pdp10_pag.c:172-183 | the same for a read that needs write access, which may fill the entry of its page only |
| Paging.Pager.Write | ftp.stacken.kth.se/pub/pdp10/v29upd/pdp10_pag.c:206-220 | a store changes the word that walking the tables leads to and no other, and never goes through a page that is not writeable |
| Paging.Pager.AccViol | ftp.stacken.kth.se/pub/pdp10/v29upd/pdp10_pag.c:245-256 | says whether the tables deny the access, and otherwise makes the reference after it safe |
| Paging.Pager.Clrpt | ftp.stacken.kth.se/pub/pdp10/v29upd/pdp10_pag.c:562-574 | the page is up to date again |
| Paging.Pager.Reset | ftp.stacken.kth.se/pub/pdp10/v29upd/pdp10_pag.c:791-799 | both tables are empty, all pages up to date |
| Paging.Pager.SetDynPtrs | ftp.stacken.kth.se/pub/pdp10/v29upd/pdp10_pag.c:504-522 | the AC blocks, tables and table addresses follow from the registers and the mode |
| Paging.Pager.SetMode | ftp.stacken.kth.se/pub/pdp10/v29upd/pdp10_pag.c:504-522 | a change of mode changes the current and previous tables, and outdates no entry |
| Paging.Pager.Wrebr | ftp.stacken.kth.se/pub/pdp10/v29upd/pdp10_pag.c:576-582 | the executive base is changed and no entry is out of date |
| Paging.Pager.NewBlocks | ftp.stacken.kth.se/pub/pdp10/v29upd/pdp10_pag.c:504-522 | with all entries up to date before, new AC blocks leave an entry up to date if and only if the block is the same, or the entry is empty, or its table entry is not in an AC, or the AC of the new block grants and expands to the same |
| Paging.Pager.Outdate | ftp.stacken.kth.se/pub/pdp10/v29upd/pdp10_pag.c:504-522 | a run of two steps from a state with nothing out of date after which a read goes through an entry that the tables deny |
| Paging.OutdateFromReset | ftp.stacken.kth.se/pub/pdp10/v29upd/pdp10_pag.c:504-522 | the same from a reset, in a few steps more |
| Paging.Pager.Wrubr | ftp.stacken.kth.se/pub/pdp10/v29upd/pdp10_pag.c:590-604 | user base and AC blocks are changed as the word says; a new user base empties both tables, else only the page read may be filled and exactly the entries of NewBlocks go out of date |
| Paging.Pager.EntriesInAcs | ftp.stacken.kth.se/pub/pdp10/v29upd/pdp10_pag.c:504-522 | there are such pages exactly when the user process table is in page 0 |
| Kmc.PushedValid | ftp.stacken.kth.se/pub/pdp10/v29upd/dec_kdp.c:428-489 | queueing keeps the order and the bound, whatever the length of the list |
| Kmc.PoppedValid | ftp.stacken.kth.se/pub/pdp10/v29upd/dec_kdp.c:261-326 | what goes back was done before, and goes back in order |
| Kmc.CompletedValid | ftp.stacken.kth.se/pub/pdp10/v29upd/dec_kdp.c:495-525 | completing descriptors moves them, in order, to those that are done |
| Kmc.AddressBack | ftp.stacken.kth.se/pub/pdp10/v29upd/dec_kdp.c:276-310 | a buffer address split over two registers is put together again, whatever the other bits of the second |
| Kmc.Queue.PushList | ftp.stacken.kth.se/pub/pdp10/v29upd/dec_kdp.c:428-455 | the loop over a list queues as many as there is room for |
| Kmc.Queue.Pop | ftp.stacken.kth.se/pub/pdp10/v29upd/dec_kdp.c:276-300 | the first descriptor leaves and the others move down |
| Kmc.ScanFrame | ftp.stacken.kth.se/pub/pdp10/v29upd/dec_kdp.c:364-383 | the descriptors up to the end of a list, and the length of their buffers |
| Kmc.GatheredAt | ftp.stacken.kth.se/pub/pdp10/v29upd/dec_kdp.c:389-401 | byte j of part i of a frame comes from the address in descriptor i, plus j |
| Kmc.FrameEnd | ftp.stacken.kth.se/pub/pdp10/v29upd/dec_kdp.c:364-385 | a frame ends with the first descriptor that is marked last |
| Kmc.StoredInWords | ftp.stacken.kth.se/pub/pdp10/v29upd/dec_kdp.c:507-521 | in the words of a descriptor: where received bytes go, how many of them, and the flags set |
| Kmc.NextFrame | ftp.stacken.kth.se/pub/pdp10/v29upd/dec_kdp.c:364-406 | in the words on the bus: the frame ends with the first descriptor marked last; its message, unless longer than 2000 bytes, has as many bytes as the second words say and, part by part, the bytes at the addresses of the first and third words |
| Kmc.Kmc.TryOutput | ftp.stacken.kth.se/pub/pdp10/v29upd/dec_kdp.c:261-326 | the first completed descriptor of the first queue that has one goes back if the registers are free, with its address in both registers and the end-of-message bit for a receive buffer; the output flag stays set while any is left |
| Kmc.Kmc.Post | ftp.stacken.kth.se/pub/pdp10/v29upd/dec_kdp.c:274-308 | the registers say the line, the direction and the address, with the end-of-message bit for a receive buffer |
| Kmc.Kmc.TryXmit | ftp.stacken.kth.se/pub/pdp10/v29upd/dec_kdp.c:333-422 | a line with no frame on its way sends the next one, and only then |
| Kmc.Kmc.Service | ftp.stacken.kth.se/pub/pdp10/v29upd/dec_kdp.c:819-838 | the descriptors of a frame are done when it is out, and not before |
| Kmc.Kmc.Receive | ftp.stacken.kth.se/pub/pdp10/v29upd/dec_kdp.c:495-546 | at most as many bytes as the second word of the descriptor says are stored from its address on, its flags are set, and the buffer is done; with no buffer the data are lost |
| Kmc.Kmc.Poll | ftp.stacken.kth.se/pub/pdp10/v29upd/dec_kdp.c:844-856 | after the lines are polled, something goes back whenever anything waits and the registers are free |
| Kmc.Kmc.NewBuffers | ftp.stacken.kth.se/pub/pdp10/v29upd/dec_kdp.c:428-489 | a list from the host is accepted in order, as far as there is room |
| Kmc.Kmc.NewTransmit | ftp.stacken.kth.se/pub/pdp10/v29upd/dec_kdp.c:462-489 | transmit buffers are queued, and the next frame of an idle line goes out at once |
| Kmc.Kmc.DoInput | ftp.stacken.kth.se/pub/pdp10/v29upd/dec_kdp.c:590-635 | an input command queues its list for its line and direction, and starts a frame |
| Kmc.Kmc.MasterClear | ftp.stacken.kth.se/pub/pdp10/v29upd/dec_kdp.c:641-663 | all queues and registers are cleared |
| Kmc.Kmc.WriteSel2 | ftp.stacken.kth.se/pub/pdp10/v29upd/dec_kdp.c:774-808 | a register write takes input when RDI is cleared, and lets the first completion out at once when both flags are clear: no completion is left without a wakeup |
| Tape.CharsBack | stacken.kth.se/home/bygg/backup.c:108-122 | five characters packed into a word are read back from its halves without their eighth bits |
| Tape.LastBit | ftp.stacken.kth.se/pub/pdp10/backwr/backwr.c:598-605 | the last bit of a word is the eighth bit of its last character |
| Tape.WordBack | stacken.kth.se/home/bygg/backup.c:66-104 | a word written as five tape bytes is read back as its halves |
| Tape.CharsOfWords | ftp.stacken.kth.se/pub/pdp10/backwr/backwr.c:591-618 | any bytes packed into words are read back without their eighth bits and with zeros up to a whole word |
| Tape.StripPadding | stacken.kth.se/home/bygg/backup.c:357-361 | dropping up to four zeros removes the padding and nothing else exactly when the last byte is not zero or the padding is four |
| Tape.FileLayout | ftp.stacken.kth.se/pub/pdp10/backwr/backwr.c:668-731 | which data are in the first record, and when it is marked as the last |
| Tape.RecordLayout | ftp.stacken.kth.se/pub/pdp10/backwr/backwr.c:733-749 | a data record has the next 2560 bytes or all that are left, which it says |
| Tape.DataLayout | ftp.stacken.kth.se/pub/pdp10/backwr/backwr.c:733-750 | there is a data record for each 2560 bytes, and one for what is left |
| Tape.CharsRoundTrip | ftp.stacken.kth.se/pub/pdp10/backwr/backwr.c:625-754 | extracting the records of any file gives its bytes without their eighth bits if and only if it is not empty, not 1280 bytes long, and its last character is not zero or its length is one more than a multiple of five |
| Tape.FileRoundTrip | ftp.stacken.kth.se/pub/pdp10/backwr/backwr.c:625-754 | extracting the records of a file gives the file back if and only if that holds and no byte has an eighth bit |
| Tape.AsciiRoundTrip | ftp.stacken.kth.se/pub/pdp10/backwr/backwr.c:491-524 | the same of a file with its line feeds expanded |
| Tape.ExpandLength | ftp.stacken.kth.se/pub/pdp10/backwr/backwr.c:452-485 | the length of an expanded file is its length and the number of its line feeds |
| Tape.ExpandOne | ftp.stacken.kth.se/pub/pdp10/backwr/backwr.c:491-524 | a line feed becomes a carriage return and a line feed, any other character itself |
| Tape.TimeRoundTrip | ftp.stacken.kth.se/pub/pdp10/backwr/backwr.c:277-309 | a time comes back from its tape form if and only if its seconds of the day are a multiple of 675, else one second early |
| Tape.UdtHalves | ftp.stacken.kth.se/pub/pdp10/backwr/backwr.c:277-291 | the left half counts days, 40587 for the first of 1970, and the right half the parts of the day that have gone, of 2^18 |
| TapeWriter.AddInRotates | ftp.stacken.kth.se/pub/pdp10/backwr/backwr.c:192-208 | a step of the checksum adds a word and rotates by one |
| TapeWriter.ChecksumMore | ftp.stacken.kth.se/pub/pdp10/backwr/backwr.c:192-208 | a further word is added to the checksum, and the 36-bit sum rotated to the left |
| TapeWriter.HeaderWords | ftp.stacken.kth.se/pub/pdp10/backwr/backwr.c:338-345 | where in a record its kind, flags, size and start of the data are |
| TapeWriter.DiskReader.Aread | ftp.stacken.kth.se/pub/pdp10/backwr/backwr.c:491-524 | bytes come out as the expanded file, across any refill of the buffer |
| TapeWriter.DiskReader.ReadDisk | ftp.stacken.kth.se/pub/pdp10/backwr/backwr.c:530-543 | the next chunk of the input, zeroed to the end of the buffer |
| TapeWriter.Writer.Copy2Tape | ftp.stacken.kth.se/pub/pdp10/backwr/backwr.c:591-618 | bytes go into the record as words, from the given place on |
| TapeWriter.Writer.ChecksumData | ftp.stacken.kth.se/pub/pdp10/backwr/backwr.c:192-208 | the loop computes the checksum of the words |
| TapeWriter.Writer.WriteTape | ftp.stacken.kth.se/pub/pdp10/backwr/backwr.c:224-255 | a record goes onto the tape as five bytes a word, with its checksum over the record without it |
| TapeWriter.Writer.WriteFile | ftp.stacken.kth.se/pub/pdp10/backwr/backwr.c:625-754 | the records of a file go onto the tape, one by one, whatever its size, numbered from 1 on; each data record has the checksum of the names and the place of its first word in the file |
| TapeReader.Extractor.Unpack | stacken.kth.se/home/bygg/backup.c:66-104 | the halves of the words come out of the raw bytes |
| TapeReader.Extractor.FillBuffer | stacken.kth.se/home/bygg/backup.c:347-355 | the characters of the data words |
| TapeReader.Extractor.WriteBuffer | stacken.kth.se/home/bygg/backup.c:347-365 | the characters of the block, stripped of up to four zeros in the last; without data in the last block it looks before its buffer |
| TapeReader.Extractor.Extract | stacken.kth.se/home/bygg/backup.c:400-448 | the loop over blocks yields what the records of the file contain |
| TapeReader.SaveAndRestore | stacken.kth.se/home/bygg/backup.c:400-448 | saving with one program and restoring with the other, byte for byte on the tape, gives any file (with line ends expanded in ASCII mode) without its eighth bits if and only if it is restorable, and the file itself if and only if it has none |
| Telnet.Cut | ftp.stacken.kth.se/pub/pdp10/v29upd/sim_tmxr.c:187-221 | however the input is cut into reads, the same characters are kept and the state is the same |
| Telnet.Transparent | ftp.stacken.kth.se/pub/pdp10/v29upd/sim_tmxr.c:193-201 | data without IAC, and without CR unless in binary mode, is kept as it is |
| Telnet.Command | ftp.stacken.kth.se/pub/pdp10/v29upd/sim_tmxr.c:193-219 | a command of any kind leaves no character, and only WILL or WONT BINARY has an effect |
| Telnet.CarriageReturn | ftp.stacken.kth.se/pub/pdp10/v29upd/sim_tmxr.c:195-201 | outside binary mode a carriage return is kept and the character after it dropped, whatever it is; in binary mode it is like any other |
| Telnet.DoubledIac | ftp.stacken.kth.se/pub/pdp10/v29upd/sim_tmxr.c:202-208 | a doubled IAC is not data: it is dropped with the character after it |
| Telnet.Line.Rmvrc | ftp.stacken.kth.se/pub/pdp10/v29upd/sim_tmxr.c:235-240 | one character is removed, those before it are untouched, and those after it move down |
| Telnet.Line.Drop | ftp.stacken.kth.se/pub/pdp10/v29upd/sim_tmxr.c:193-219 | a character of a command is removed and the state follows the table |
| Telnet.Line.Strip | ftp.stacken.kth.se/pub/pdp10/v29upd/sim_tmxr.c:187-221 | the in-place loop leaves exactly what the state table keeps, touches no accepted character, and ends |
| Telnet.Line.Poll | ftp.stacken.kth.se/pub/pdp10/v29upd/sim_tmxr.c:161-224 | what was waiting still waits, followed by what is kept of the new input; a line in a command always has room to read its end; a closed line is reset |
| Telnet.Line.Getc | ftp.stacken.kth.se/pub/pdp10/v29upd/sim_tmxr.c:137-152 | the next kept character, in order, or nothing |
| Telnet.Line.Reset | ftp.stacken.kth.se/pub/pdp10/v29upd/sim_tmxr.c:84-127 | an empty buffer, normal state, binary mode |
| Dma.SetByteExact | ftp.stacken.kth.se/pub/pdp10/v29upd/pdp10_ksio.c:662-693 | a byte stored through the map is read back and no other byte changes, if different pages are mapped apart |
| Dma.ByteIn | ftp.stacken.kth.se/pub/pdp10/v29upd/pdp10_ksio.c:635-654 | which byte of which half of which word a Unibus address is: the even address the low byte, address bit 1 the right half |
| Dma.StoredExact | ftp.stacken.kth.se/pub/pdp10/v29upd/pdp10_ksio.c:697-735 | exactly the bytes in the range change, each to its value |
| Dma.Aliased | ftp.stacken.kth.se/pub/pdp10/v29upd/pdp10_ksio.c:662-693 | with two pages mapped to one memory page, a byte stored through the one is read through the other: the condition of the exactness is needed |
| Dma.StoredElsewhere | ftp.stacken.kth.se/pub/pdp10/v29upd/pdp10_ksio.c:697-735 | words the range is not mapped to do not change |
| Dma.RoundTrip | ftp.stacken.kth.se/pub/pdp10/v29upd/pdp10_ksio.c:697-766 | what is stored is what is fetched |
| Dma.PutPair | ftp.stacken.kth.se/pub/pdp10/v29upd/pdp10_ksio.c:712-719 | a 16-bit write is the writing of its two bytes |
| Dma.Adapter.WriteMap | ftp.stacken.kth.se/pub/pdp10/v29upd/pdp10_ksio.c:462-469 | flags and page number of a map entry move to their places |
| Dma.Adapter.UnibusRead | ftp.stacken.kth.se/pub/pdp10/v29upd/pdp10_ksio.c:635-654 | an address is mapped by its page number, its bit 17 and the valid bit of the entry; then the low 16 bits of the right half, if address bit 1 is set, or of the left half of the word at page plus offset |
| Dma.Adapter.UnibusWrite | ftp.stacken.kth.se/pub/pdp10/v29upd/pdp10_ksio.c:662-693 | at a mapped address the right half, if address bit 1 is set, or the left half of that word becomes the 16 bits, the other half and all other words are kept; otherwise nothing changes |
| Dma.Adapter.DmaWrite | ftp.stacken.kth.se/pub/pdp10/v29upd/pdp10_ksio.c:697-735 | for odd or even start and length, the bytes before the first unmapped address are stored, and success means all |
| Dma.Adapter.DmaRead | ftp.stacken.kth.se/pub/pdp10/v29upd/pdp10_ksio.c:739-766 | the bytes before the first unmapped address; a length of zero at an odd address counts as one |
| Dma.Adapter.WriteThenRead | ftp.stacken.kth.se/pub/pdp10/v29upd/pdp10_ksio.c:697-766 | reading back a block just written gives the block |

## Left out

- dmul: its carry term compares and then masks with the sign bit, so it is always 0, and no product claim holds.
- fad, dfad, dfmp, fdv, fsc, fix: they share the helpers that fmp, fltr and dfdv exercise.
- EventQueue.Queue.Activate: the wrap of 32-bit times and the rounding of the double-precision clock are not modelled.
- EventQueue.Queue.Cancel: the same times and clock; it is not called on a list that is a loop.
- EventQueue.Queue.ProcessEvent: unit actions are lists of activate and cancel requests with a status; what else devices do is not part of this model.
- Breakpoints.Table.Clear: the selective branch of sim_brk_clrall, which skips entries, and the command strings of breakpoints are left out.
- Tunnel.Safety: connection set-up, select, signals and the loss of the connection are not modelled; datagrams are at most 65535 bytes, as UDP gives them.
- TunnelPeer.Handshake: salts are parameters, not random, and the five-second alarm is left out.
- Bpf.Descriptor.FinishRead: an error of uiomove counts as delivered, as in the source, and a flush or close during the copy is not modelled.
- Bpf.Descriptor.Tap: the filter program is a number of bytes to keep; its machine is not modelled.
- Decimal.Printer.Execute: CVTBDT and CVTDBT, which translate through a table, and page faults at the byte strings are left out; bytes go to a sequence.
- Bpf.Descriptor.Reset: a flush while a reader copies is not modelled.
- Decimal.Parser.Execute: page faults at the source string are left out; bytes come from a sequence.
- BytePointer.AdjustIsIteration: sizes over 36, which no word holds, and pointers that ADJBP refuses are not covered.
- BytePointer.Context.Xtcln: the change log is not bounded to 32 bits; an instruction logs at most two registers.
- Blt.Memory.Blt: virtual memory is one array in which a page fault is an arbitrary choice.
- Blt.Memory.Complete: says nothing of a transfer whose AC is in its destination before the last word; for that `Blt.Resumed` has the condition.
- Paging.Pager.Fill: the page-fail word it composes is left out.
- Paging.Pager.Read: the page-fail word, non-existent memory, console access, the MAP instruction, and TOPS-20 and ITS paging are left out.
- Paging.Pager.Wrebr: an address that selects TOPS-20 paging is excluded.
- Kmc.Kmc.DoInput: lists that no descriptor ends, line numbers beyond the two lines, and control and base input are excluded or do nothing, as in the source.
- Kmc.Kmc.MasterClear: the first register, and the units that it cancels, are left out; the output flag is kept.
- Kmc.Kmc.WriteSel2: byte writes, the other registers, the microcode store and the interrupt bits are left out; the contents of descriptors and buffers are parameters of each call.
- Tape.FileRoundTrip: the name and attribute words are given; parsing and making names, and the end-of-volume records, are left out.
- TapeReader.Extractor.Extract: one file of the tape, from its first record on; argument matching, the skipping of repeated records and eight-bit mode are left out.
- Tape.TimeRoundTrip: local times that are not negative; time zones are left out.
- Telnet.Line.Poll: one line of the multiplexor; lines do not share state. Characters are bytes; the source compares them as signed chars.
- Dma.StoredExact: pages are mapped to different memory pages; without that a byte stored at one address also appears at the other (`Dma.Aliased`).
- The rest of the instruction set, PXCT contexts, boot programs and symbol tables, disk, tape, printer and network controllers, the command parser, and the earlier variants of the tunnel are register plumbing, easy, or repeat what is here.
