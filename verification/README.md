# Verified models of TinyOS algorithms

A Dafny model of the algorithms in TinyOS that are more than register access, with proofs of what they are for: the
host's serial stack, the CRCs, the containers of the simulator, a sort, a sample store and some number handling.
`dafny verify dfyconfig.toml` checks everything.

- **Host serial stack** (`support/sdk/python/tos.py`). `Packet` packs and unpacks binary packets by schema, with the
  Python slicing, shifting and exception behaviour; `PacketRoundTrip` proves that unpacking undoes packing, and
  `PacketFormat` which bytes and bits a field is packed to, what is read from packets that are too short, and which
  exception is raised when.
  `Hdlc` is the framing: byte stuffing, CRC trailer and the reader of a byte source; `HdlcWire` states byte for byte
  what a write puts on the line and what a read makes of anything that comes from it; `HdlcResync` proves what a
  reader gets that joins a stream half-way or behind garbage. `SimpleAM` is the sender that retransmits until it reads
  an acknowledgement of its own number or its deadline passes; `StopAndWait` is the protocol between it and a mote as
  a state machine over lossy, order-keeping channels, with numbers modulo 256, from any starting number and with
  whatever an earlier session has left in the channels; `SenderRefinement` proves that the host's moves in that state
  machine are those of the sender on bytes, and `SenderDeadline` what a deadline costs one call and a whole write.
- **CRC** (four implementations). `Crc` has the shift register fed bit by bit as the reference and proves the bit
  loop, the loop-free form and the Python form equal to it; `CrcTable` does so for the table form, every entry of the
  table included; `CrcPolynomial` proves that the register is the one remainder of polynomial division, the CRC of
  ITU-T Recommendation V.41, section 2; `CrcErrors` proves which transmission errors are always detected, and
  `FrameErrors` that the reader reports a frame whose body such errors have damaged on the line, where they make or
  break no flag or escape byte.
- **TOSSIM** (`tos/lib/tossim`). `Hashtable` relinks entry objects in their bucket chains in place; its meaning is a
  list of values for each key. `EventHeap` is the discrete-event queue: a binary heap in an array that grows.
- **Shellsort** (`tos/lib/byte_radio/shellsort.h`), in place, with the theorem that a pass at one gap keeps the order of
  every earlier gap.
- **Oscilloscope** (`apps/Oscilloscope/java`). `SampleStore` is the growing and then sliding window over one mote's
  samples, and `MoteData` the growing array of all motes, both against maps.
- **Numbers**. `NumberPrinting` is the integer part of the small printf; `FixedPoint` the overflow-avoiding scaling and
  the rounding fixed-point operations.

`Words`, `Sequences`, `Arithmetic` and `Wrappers` hold what these share. Machine words are sequences of bits, lowest
first, because the CRC proofs argue about single bits. Methods with loops or fields are proved against functions; the
theorems are about those functions. Inputs and outputs are values: a serial port is the sequence of bytes and silences
it will deliver and the bytes written to it; printed characters are appended to a string.

Five properties one might expect are false of the code. For each there is an input that shows it and the exact
condition under which it holds:

- `scale32` is documented to need only that a * b fits. That is not enough (`DocumentedRequirementTooWeak`); it is
  right, modulo 2^32, exactly when (x mod b) * a + b / 2 does not wrap, and for all x exactly when
  (b - 1) * a + b / 2 does not.
- `print_hex_oct` pads to the width exactly, unless a minus sign stands before zeros filled in for the precision and
  the width exceeds the precision: then it prints one character too many (`WidthExceeded`, `PrintedWidth`).
- The hash table is not a map from keys to their last values: every growth reverses the values stored under one key, so
  that the thirty-sixth insertion can bring an overwritten value back (`DuplicatesReversed`). It holds what a plain
  map holds throughout a run if and only if no key is inserted while that map has it (`PlainMapExactly`).
- A write with a deadline may return True without any acknowledgement: cut short while skipping other frames, it takes
  the second byte of the last one for a number. One call of `SimpleAM.write` can do so (`CutShort`), and is honest under
  every deadline if and only if no frame it may skip has its number there (`HonestExactly`). `AM.write` makes two such
  calls and can fail even where the first call skips nothing (`WriteCutShort`): it is honest under every pair of
  deadlines if and only if that holds and, where the first acknowledgement to be read carries another number, holds
  for the frames behind that acknowledgement too (`WriteHonestExactly`). As the second byte is the dispatch byte of
  unacknowledged data frames, numbers other than 0 are safe, in one call (`HonestUnlessZero`) and in the whole write
  (`WriteHonestUnlessZero`), where all of these carry dispatch 0.
- A write without deadline may return before the mote has received anything, on an acknowledgement left in the channel
  by an earlier session (`StaleAckEndsFirstWrite`); a leftover data frame can do the same harm once it is acknowledged.
  Every run is safe if and only if no leftover frame carries the number of the first write (`SafeExactly`).

## Model

| member | source | states |
|---|---|---|
| Crc.MessageBitAt | tos/lib/tosboot/crc.h:57-64 | the bits of a message enter the register byte by byte, each from its most significant bit on |
| Crc.GeneratorValue | tos/lib/tosboot/crc.h:61 | the polynomial of the shift register is the constant 0x1021 |
| Crc.CrcByteLoop | tos/lib/tosboot/crc.h:53-67 | the do-while loop feeds the eight bits of the byte, first bit first, to the register |
| Crc.ByteAtOnce | tos/lib/tosboot/crc.h:57-64 | xor-ing a byte into the top half and shifting eight times equals feeding its bits one at a time |
| Crc.ShiftsFold | tos/system/crc.h:91-98 | up to four shifts in closed form, for every register |
| Crc.EightShiftsBit | tos/system/crc.h:91-98 | every bit of the register after eight shifts, in terms of the register before |
| Crc.CrcByteFast | tos/system/crc.h:91-98 | the loop-free form refines the bit-by-bit register for every register and byte |
| Crc.PythonCrc16 | support/sdk/python/tos.py:321-331 | the host's loop over a frame, on words of 16 bits that a shift makes 17 and the mask 16 again, refines the register |
| Crc.PythonShift | support/sdk/python/tos.py:326-330 | one turn of the host's inner loop: the seventeenth bit is cut off again |
| Crc.CrcBytesSnoc | tos/lib/tosboot/crc.h:53-67 | folding the byte function over a message feeds the bits of the message |
| CrcTable.EntryCorrect | tos/chips/xe1205/crc.h:44-77 | each of the 256 table entries is what eight shifts make of its index |
| CrcTable.TableAgrees | tos/chips/xe1205/crc.h:79-83 | the table-driven form equals the bit-by-bit register for every register and byte |
| CrcTable.TableAgreesOnMessages | tos/chips/xe1205/crc.h:79-83 | the same for every message |
| CrcPolynomial.Division | tos/lib/tosboot/crc.h:46-67 | the message polynomial times x^16, plus the raised initial value, is a multiple of the CRC polynomial plus the register |
| CrcPolynomial.RemainderUnique | tos/lib/tosboot/crc.h:46-51 | a polynomial has at most one remainder of degree below 16 |
| CrcPolynomial.CrcIsTheRemainder | tos/lib/tosboot/crc.h:46-67 | the register holds the remainder, and no other register does, for every initial value |
| CrcPolynomial.CrcOfMessage | tos/lib/tosboot/crc.h:46-67 | from 0, the CRC of M is the one remainder of M(x) * x^16 modulo x^16 + x^12 + x^5 + 1 |
| CrcErrors.BurstChangesRegister | tos/lib/tosboot/crc.h:57-64 | bit strings that differ within 16 consecutive bits lead from one register to different ones |
| CrcErrors.BurstDetected | tos/lib/tosboot/crc.h:57-64 | messages of one length that differ within 16 consecutive bits never share a CRC |
| CrcErrors.StepInjective | tos/lib/tosboot/crc.h:60-63 | one bit step never makes two registers equal |
| CrcErrors.ParityOfCrc | tos/lib/tosboot/crc.h:57-64 | the register's parity is that of its initial value and the message together |
| CrcErrors.OddErrorsDetected | tos/lib/tosboot/crc.h:57-64 | messages of one length that differ in an odd number of bits never share a CRC |
| FrameErrors.DamagedFrameRead | support/sdk/python/tos.py:263-279 | any bytes on the line that unescape to a changed body and the right trailer are read as that body, and reported unless the two bodies have the same CRC |
| FrameErrors.BurstReported | support/sdk/python/tos.py:263-279 | such a change within 16 consecutive bits of the body is always reported |
| FrameErrors.OddErrorsReported | support/sdk/python/tos.py:263-279 | so is a change of an odd number of bits |
| FrameErrors.WireBurstReported | support/sdk/python/tos.py:263-279 | wrong bits within 16 consecutive ones of the escaped body on the line are always reported, if they make or break no flag or escape |
| FrameErrors.WireOddErrorsReported | support/sdk/python/tos.py:263-279 | so is an odd number of wrong bits there |
| Packet.Encode | support/sdk/python/tos.py:519-525 | the loop and the reversal give the big-endian bytes of any integer |
| Packet.Decode | support/sdk/python/tos.py:513-517 | the loop reads big-endian bytes as a number |
| Packet.DecodeEncode | support/sdk/python/tos.py:513-525 | decoding an encoded integer leaves its residue modulo 256^size, negative integers included |
| Packet.EncodeDecode | support/sdk/python/tos.py:513-525 | encoding a decoded byte list gives the list back |
| PacketFormat.EncodeDigit | support/sdk/python/tos.py:519-525 | each byte of an encoded integer is a digit to the base 256, the most significant one first |
| PacketFormat.DecodeDigits | support/sdk/python/tos.py:513-517 | the number decoded from bytes has exactly these digits |
| PacketFormat.BitOrDigit | support/sdk/python/tos.py:656 | a binary digit of the "or" is set where one of the operands' is, for integers of either sign |
| PacketFormat.SliceElements | support/sdk/python/tos.py:546-573 | a slice has the elements between its bounds, as far as there are any; negative bounds count from the end |
| PacketFormat.AtElement | support/sdk/python/tos.py:556 | an index is one into the list or counts from its end; others raise IndexError |
| Packet.BitOrDisjoint | support/sdk/python/tos.py:656 | the in-place "or" of a bit field into a byte adds it, as the digits do not overlap |
| Packet.NormaliseSchema | support/sdk/python/tos.py:532-543 | the last unsized entry is given minus the size of what follows it, if that is positive |
| Packet.Payload | support/sdk/python/tos.py:643-664 | packing by schema, for every schema and value list, with the exceptions it raises |
| Packet.Parse | support/sdk/python/tos.py:532-573 | unpacking by schema, for every schema and byte list, with the exceptions it raises |
| PacketFormat.NormalisedAt | support/sdk/python/tos.py:535-542 | for every schema only the last unsized entry changes: it is given minus the sum of the sizes behind it, if that is positive |
| PacketFormat.NormalisedSame | support/sdk/python/tos.py:535-542 | a schema without unsized entries stays as it is |
| PacketFormat.IntRead | support/sdk/python/tos.py:548-550 | an integer field is the number whose digits are the bytes of it that the packet still has |
| PacketFormat.BlobRead | support/sdk/python/tos.py:564-573 | a blob is the bytes of it that the packet still has; an unsized one, all but the minus size at the end |
| PacketFormat.BitsRead | support/sdk/python/tos.py:554-560 | a bit field takes its number of bits and moves the cursor on by as many |
| PacketFormat.BitRead | support/sdk/python/tos.py:554-560 | its bits are the next ones of the byte, the most significant one first |
| PacketFormat.ReadRaises | support/sdk/python/tos.py:546-573 | exactly when an entry raises TypeError, IndexError or ValueError on unpacking |
| PacketFormat.PayloadSucceeds | support/sdk/python/tos.py:643-664 | packing succeeds if and only if no entry lacks a value of its type, a size or room in its byte, and all further values are blobs; for every schema |
| PacketFormat.FirstCauseRaised | support/sdk/python/tos.py:643-660 | packing raises what the first such entry causes |
| PacketFormat.PayloadRaises | support/sdk/python/tos.py:643-664 | so does the whole payload; with all entries packed it raises TypeError for a further number |
| PacketFormat.NothingExtra | support/sdk/python/tos.py:643-664 | with as many values as entries the payload is what the entries are packed to |
| PacketFormat.ExtraAppended | support/sdk/python/tos.py:662-664 | each value beyond the schema is appended as it is |
| PacketFormat.PacketLength | support/sdk/python/tos.py:643-664 | the packet of a well-formed schema is as long as the bits of its values |
| PacketFormat.IntPacked | support/sdk/python/tos.py:648-650 | an integer is in its own bytes right behind the values before it, the most significant byte first |
| PacketFormat.BlobPacked | support/sdk/python/tos.py:660-661 | so is a blob |
| PacketFormat.BitsPacked | support/sdk/python/tos.py:651-659 | a bit field is in the next bits of a byte, from the top |
| PacketRoundTrip.PackSucceeds | support/sdk/python/tos.py:643-664 | packing fitting values of a well-formed schema succeeds at every entry, and leaves the unused bits of an open byte zero |
| PacketRoundTrip.StagesAgree | support/sdk/python/tos.py:643-664 | the finished packet agrees with the bytes and bits settled at every earlier entry |
| PacketRoundTrip.NormaliseAt | support/sdk/python/tos.py:535-542 | an unsized blob's negative size is minus the length of all that follows it; all other entries keep theirs |
| PacketRoundTrip.UnpackStages | support/sdk/python/tos.py:546-573 | after each entry unpacking has recovered the values and stands where packing stood |
| PacketRoundTrip.RoundTrip | support/sdk/python/tos.py:532-573 | unpacking a packed packet gives every value back, integers modulo the size of their field, for every well-formed schema |
| PacketRoundTrip.RoundTripExact | support/sdk/python/tos.py:643-664 | integers that fit come back unchanged |
| Hdlc.Escape | support/sdk/python/tos.py:359-367 | the loop escapes flag and control-escape bytes |
| Hdlc.Unescape | support/sdk/python/tos.py:346-357 | the loop with its flag undoes escapes; what it does with a dangling escape is included |
| Hdlc.EscapeConcat | support/sdk/python/tos.py:359-367 | bytes are escaped one by one |
| HdlcWire.EscapedBytes | support/sdk/python/tos.py:359-367 | 7e becomes 7d 5e, 7d becomes 7d 5d, any other byte stays |
| HdlcWire.PlainUnescaped | support/sdk/python/tos.py:346-357 | bytes without 7d are left alone |
| HdlcWire.EscapeUndone | support/sdk/python/tos.py:346-357 | the first 7d vanishes and inverts bit 5 of whichever byte is behind it; unescaping goes on behind that |
| HdlcWire.EscapeDangling | support/sdk/python/tos.py:346-357 | a 7d with nothing behind it is dropped |
| Hdlc.EscapedHasNoFlag | support/sdk/python/tos.py:359-367 | escaped data holds no flag byte |
| Hdlc.UnescapeEscape | support/sdk/python/tos.py:346-367 | unescaping picks up from any settled state and recovers exactly the escaped bytes |
| Hdlc.DecodeTrailer | support/sdk/python/tos.py:340-344 | the CRC trailer is read low byte first |
| Hdlc.TrailerDecodes | support/sdk/python/tos.py:301-303 | reading back the trailer that was appended gives the CRC |
| HdlcWire.TrailerIsRemainder | support/sdk/python/tos.py:265-271 | two trailer bytes pass the check if and only if, low byte first, they are the remainder of the data times x^16 |
| HdlcWire.Written | support/sdk/python/tos.py:283-307 | a write sends, between two flags and without another, the escaped bytes 44, number, 00, payload and, low byte first, the remainder of these |
| HdlcWire.FrameMeans | support/sdk/python/tos.py:261-279 | the bytes between two flags, whatever they are: all but the last two unescaped ones, and whether these are the remainder; fewer than two give an empty frame with a wrong CRC |
| HdlcWire.ReadsFrame | support/sdk/python/tos.py:228-281 | a read gets the bytes between the first flags and the next, leaves what is behind, and never times out on them |
| HdlcWire.ReadsNothing | support/sdk/python/tos.py:228-281 | where the line falls silent before that, a read times out right there |
| HdlcWire.EveryLine | support/sdk/python/tos.py:228-281 | there is nothing else that can come from the line |
| Hdlc.UnescapeAfter | support/sdk/python/tos.py:346-357 | unescaping behind any settled bytes is unescaping from the start |
| Hdlc.WireOpened | support/sdk/python/tos.py:263-279 | deframing any bytes that unescape to data and two trailer bytes gives the data, and whether the trailer is its CRC |
| Hdlc.FrameOpened | support/sdk/python/tos.py:263-279 | the same for the escaped form of any data and any two trailer bytes |
| Hdlc.FrameRoundTrip | support/sdk/python/tos.py:261-304 | deframing what was framed gives the body with a matching CRC, for every body |
| Hdlc.DataFramePacked | support/sdk/python/tos.py:294-300 | a data frame packs to its protocol, number and dispatch bytes and the payload |
| Hdlc.HDLC.Read | support/sdk/python/tos.py:228-281 | one call, loops and time-outs included, does what the three-state automaton does on the incoming events, and leaves the rest |
| Hdlc.HDLC.Deframe | support/sdk/python/tos.py:263-279 | unescaping, checking the CRC, and cutting flags and CRC off; a wrong CRC is only reported |
| Hdlc.HDLC.Write | support/sdk/python/tos.py:283-307 | puts exactly the frame of the payload under its number on the line |
| HdlcResync.ReadAll | support/sdk/python/tos.py:228-281 | any number of calls of the reader on one source return what `Reads` says |
| HdlcResync.ReadsAreOutputs | support/sdk/python/tos.py:228-281 | successive reads are the automaton's results one by one, and then only time out |
| HdlcResync.FrameRead | support/sdk/python/tos.py:228-281 | a whole frame is read whether the reader is hunting or has just passed a flag |
| HdlcResync.StreamRead | support/sdk/python/tos.py:228-281 | a stream of frames and pauses is read completely, in order, with matching CRCs |
| HdlcResync.JoinAnywhere | support/sdk/python/tos.py:194-201 | joining a stream anywhere yields exactly the frames that lie wholly behind the cut |
| HdlcResync.AfterGarbage | support/sdk/python/tos.py:228-281 | after any garbage at most the first frame is lost; says exactly when, and what the garbage itself yields |
| HdlcResync.SentIsStream | support/sdk/python/tos.py:283-307 | the bytes of successive writes are a stream of whole frames |
| HdlcResync.ReadsOfSuffix | support/sdk/python/tos.py:180-307 | from any suffix of the bytes written, successive reads return the bodies of the frames wholly in it, then time out |
| SimpleAM.AckFrameUnpacked | support/sdk/python/tos.py:676-686 | protocol and number are what the acknowledgement schema unpacks from any frame: its first two bytes, or 0 where they are missing |
| SimpleAM.AM.SimpleWrite | support/sdk/python/tos.py:386-418 | with or without deadline, blocking or not: copies sent, events used, value returned |
| SimpleAM.AM.Write | support/sdk/python/tos.py:457-464 | the number goes up by one modulo 256; without deadline it sends and returns as the sender function says; with one it makes at most two calls and then raises Timeout |
| SenderDeadline.CallIsReads | support/sdk/python/tos.py:386-418 | a call reads until the first acknowledgement or as often as its deadline allows, sends before the first read and before each read behind a time-out, and goes by the last frame read |
| SimpleAM.CallForever | support/sdk/python/tos.py:386-464 | a call without deadline is a part of what the sender function does; a wrong number leads to the next part |
| SenderDeadline.HonestExactly | support/sdk/python/tos.py:386-418 | one call of `SimpleAM.write` returns True only on its own acknowledgement, under every deadline, if and only if no frame to be skipped has its number as second byte |
| SenderDeadline.HonestUnlessZero | support/sdk/python/tos.py:386-418 | where skipped frames have dispatch 0, one call with a number other than 0 is honest under every deadline |
| SenderDeadline.CutShort | support/sdk/python/tos.py:398-418 | for every number, a frame and a deadline that make one call return True without an acknowledgement |
| SenderDeadline.WriteHonestExactly | support/sdk/python/tos.py:457-464 | the two calls of `AM.write` return True only on the write's own acknowledgement, under all deadlines, if and only if no frame to be skipped has its number, neither before the first acknowledgement nor, if that carries another number, behind it |
| SenderDeadline.WriteHonestUnlessZero | support/sdk/python/tos.py:457-464 | where all these frames have dispatch 0, a write with a number other than 0 is honest under all deadlines |
| SenderDeadline.WriteCutShort | support/sdk/python/tos.py:457-464 | a wrong acknowledgement and a data frame behind it that make the second call return True, although nothing is skipped before that acknowledgement |
| SenderDeadline.ForeverHonest | support/sdk/python/tos.py:386-418 | without a deadline the last frame read is an acknowledgement |
| SimpleAM.ReturnsOnlyOnAck | support/sdk/python/tos.py:386-464 | a write returns only after reading an acknowledgement frame with its own number |
| StopAndWait.InvariantKept | support/sdk/python/tos.py:386-418 | every move of host, mote and channels keeps the invariant: in flight are only the current and the previous write |
| StopAndWait.InvariantRead | support/sdk/python/tos.py:386-418 | a read that ends a write means the mote has received that write, although numbers wrap at 256 and old acknowledgements linger |
| StopAndWait.InvariantOfRun | support/sdk/python/tos.py:386-464 | the invariant holds after every run from empty channels |
| StopAndWait.MixedKept | support/sdk/python/tos.py:386-464 | every move keeps: harmless leftovers are read before the first write returns, and what remains without them keeps the invariant |
| StopAndWait.DeliveredIsPrefix | support/sdk/python/tos.py:386-464 | a mote that drops repeated numbers delivers a prefix of what was written |
| StopAndWait.SafeExactly | support/sdk/python/tos.py:386-464 | from any starting number and any leftover data frames and acknowledgements: in every run messages are delivered in order, once each, those of returned writes included, if and only if no leftover carries the first write's number |
| StopAndWait.EveryRunIsSafe | support/sdk/python/tos.py:457-464 | the same of every run from empty channels, where nothing else is delivered |
| StopAndWait.ReturnMeansDelivered | support/sdk/python/tos.py:457-464 | where no leftover carries the first number, the mote has delivered everything written when a write returns |
| StopAndWait.StaleAckEndsFirstWrite | support/sdk/python/tos.py:386-418 | an acknowledgement left over from before the first write can end it, with nothing received |
| SenderRefinement.SenderOnFrames | support/sdk/python/tos.py:386-418 | on a stream of frames and pauses the sender on bytes acts frame by frame |
| SenderRefinement.SenderIsWrite | support/sdk/python/tos.py:386-464 | in every run the current write has returned, and sent as many copies, as `AM.Write` on the bytes of what it has read |
| Hashtable.HashStages | tos/lib/tossim/hashtable.c:58-69 | the hash, stage by stage: -511 i - 1 and 17 i modulo 2^32, and after each a rotation by 14 and by 10 bits xored on, bit by bit |
| Hashtable.LoadLimitIsCeiling | tos/lib/tossim/hashtable.c:53 | the load limit is the least number not below 65 percent of the size |
| Hashtable.IndexFor | tos/lib/tossim/hashtable_private.h:33-35 | a hash value selects a bucket of the table |
| Hashtable.Push | tos/lib/tossim/hashtable.c:155-159 | an entry linked in front of its bucket's chain; all other chains stay |
| Hashtable.Transfer | tos/lib/tossim/hashtable.c:90-97 | the drain loops unlink every entry and push it on its new chain, in bucket order, front to back |
| Hashtable.DrainedIsPermutation | tos/lib/tossim/hashtable.c:85-100 | draining moves every entry exactly once |
| Hashtable.DrainedReverses | tos/lib/tossim/hashtable.c:88-97 | draining reverses the values of every key |
| Hashtable.ChainPicks | tos/lib/tossim/hashtable.c:163-181 | all values of a key lie in the one bucket its hash selects, the one pushed last first |
| Hashtable.ChainRemove | tos/lib/tossim/hashtable.c:199-213 | without one entry its chain loses just that entry and the other chains stay |
| Hashtable.Unlink | tos/lib/tossim/hashtable.c:197-212 | the chain is made to skip the entry, at the head or behind its predecessor |
| Hashtable.LoadLimitGrows | tos/lib/tossim/hashtable.c:15-25 | every expansion raises the load limit |
| Hashtable.Hashtable.Empty | tos/lib/tossim/hashtable.c:43-54 | a new table is valid and empty |
| Hashtable.Hashtable.Create | tos/lib/tossim/hashtable.c:30-55 | refuses a size above 2^30 or a failed allocation, else picks the least listed prime above the size |
| Hashtable.Hashtable.Expand | tos/lib/tossim/hashtable.c:72-100 | grows unless at the last prime or refused memory; keeps every entry and reverses every key's list |
| Hashtable.Hashtable.Insert | tos/lib/tossim/hashtable.c:138-161 | prepends to the key's list after the reversal of a growth, changes no other key, counts one more; without memory for the entry stores and counts nothing; with memory for the table keeps the load bound until the last prime |
| Hashtable.Hashtable.CountOne | tos/lib/tossim/hashtable.c:143-150 | grows just when the new count exceeds the load limit and there is memory and a larger prime |
| Hashtable.Hashtable.AddEntry | tos/lib/tossim/hashtable.c:151-159 | the new entry's value heads the lists of equal keys only |
| Hashtable.Hashtable.Search | tos/lib/tossim/hashtable.c:163-181 | the head of the key's list, or nothing if it is empty |
| Hashtable.Hashtable.Find | tos/lib/tossim/hashtable.c:195-212 | the walk stops at the first entry of the chain that matches, with its predecessor |
| Hashtable.Hashtable.Remove | tos/lib/tossim/hashtable.c:184-215 | drops the head of the key's list and returns it, changes no other key, counts one less |
| Hashtable.Hashtable.Count | tos/lib/tossim/hashtable.c:131-135 | the number of entries in the chains |
| Hashtable.RemovedLists | tos/lib/tossim/hashtable.c:199-213 | taking the first match out of its chain drops the head of its key's list and of no other |
| Hashtable.PlainMapExactly | tos/lib/tossim/hashtable.h:92-99 | throughout a run the lists are those of a plain map if and only if no key is inserted while the map has it |
| Hashtable.UniqueKeysMakeAMap | tos/lib/tossim/hashtable.h:92-99 | with unique keys every list is the one value of the plain map or empty, and equal keys have the same |
| Hashtable.DuplicatesReversed | tos/lib/tossim/hashtable.c:143-161 | thirty-six insertions after which a search finds the older of two values of a key |
| Hashtable.Serve | tos/lib/tossim/hashtable.c:138-215 | one insertion, removal or search: the new list of every key, the new size, and the answer |
| Hashtable.Execute | tos/lib/tossim/hashtable.c:138-215 | any requests on an empty table: lists and answers are those of the run, growing exactly when the load limit is exceeded; with unique keys answers are those of a plain map |
| EventHeap.RootIsLeast | tos/lib/tossim/heap.c:96-103 | the root of an ordered heap has the least key |
| EventHeap.StepUp | tos/lib/tossim/heap.c:203-208 | a swap on the way up moves the only disorder to the parent |
| EventHeap.StepDown | tos/lib/tossim/heap.c:175-194 | a swap with the smaller child moves the only disorder down |
| EventHeap.LastToRoot | tos/lib/tossim/heap.c:115-123 | the last node at the root takes out exactly the old root and disorders only the root |
| EventHeap.Heap.constructor | tos/lib/tossim/heap.c:78-82 | an empty queue of the starting size |
| EventHeap.Heap.GetMinKey | tos/lib/tossim/heap.c:96-103 | the least key queued, or -1 |
| EventHeap.Heap.PopMin | tos/lib/tossim/heap.c:114-128 | takes out one event of least key and keeps all others |
| EventHeap.Heap.TakeRoot | tos/lib/tossim/heap.c:115-123 | the array after the last node has replaced the root |
| EventHeap.Heap.Insert | tos/lib/tossim/heap.c:144-156 | adds exactly the new event, across growth |
| EventHeap.Heap.Expand | tos/lib/tossim/heap.c:130-142 | doubles the array plus one and keeps the nodes |
| EventHeap.Heap.UpHeap | tos/lib/tossim/heap.c:197-209 | restores the order and keeps the nodes |
| EventHeap.Heap.DownHeap | tos/lib/tossim/heap.c:171-195 | restores the order and keeps the nodes |
| EventHeap.Heap.Swap | tos/lib/tossim/heap.c:158-169 | two nodes change places |
| EventHeap.Simulate | tos/lib/tossim/heap.c:96-156 | any insertions and pops on an empty queue: the log has an event for each, but for pops that find it empty, is a possible one and leaves what the queue holds; nothing is lost, and keys never decrease if nothing is scheduled in the past |
| EventHeap.NothingRefused | tos/lib/tossim/heap.c:96-156 | requests that never ask for more pops than insertions are all served |
| EventHeap.TimeIsMonotone | tos/lib/tossim/heap.c:96-128 | if nothing is scheduled before the last popped key, popped keys never decrease |
| EventHeap.EventsConserved | tos/lib/tossim/heap.c:114-156 | over every run, what was inserted is what was popped and what is left |
| EventHeap.DrainingSorts | tos/lib/tossim/heap.c:114-156 | filling and then draining the queue yields a sorted permutation |
| Shellsort.RankInClass | tos/lib/byte_radio/shellsort.h:12-18 | in a gap-sorted sequence an element is at most t just when enough of its class are |
| Shellsort.EarlierGapKept | tos/lib/byte_radio/shellsort.h:12-18 | sorting the classes of another gap keeps the order at an earlier gap |
| Shellsort.SinkStep | tos/lib/byte_radio/shellsort.h:14-18 | one swap of the innermost loop keeps its invariant and every class's values |
| Shellsort.Sink | tos/lib/byte_radio/shellsort.h:14-18 | the innermost loop sorts one more element into its class |
| Shellsort.GapPass | tos/lib/byte_radio/shellsort.h:13-18 | a pass leaves the array gap-sorted with the same values in every class |
| Shellsort.Shellsort | tos/lib/byte_radio/shellsort.h:8-19 | the first `size` elements end up ascending and a permutation; the rest is untouched; all loops terminate |
| SampleStore.Node.constructor | apps/Oscilloscope/java/Node.java:28-33 | a new store holds nothing |
| SampleStore.Node.SetEnd | apps/Oscilloscope/java/Node.java:38-81 | where the window starts and ends, and what it holds before the new samples |
| SampleStore.Node.Restart | apps/Oscilloscope/java/Node.java:39-44 | an index before the window starts a new array |
| SampleStore.Node.MakeRoom | apps/Oscilloscope/java/Node.java:45-70 | extends or slides the array until the new samples fit; kept samples keep their values |
| SampleStore.Node.Extend | apps/Oscilloscope/java/Node.java:46-57 | grows by whole increments up to the largest size |
| SampleStore.Node.Squish | apps/Oscilloscope/java/Node.java:58-69 | slides so that the new samples start one increment before the end |
| SampleStore.Node.MarkMissing | apps/Oscilloscope/java/Node.java:71-75 | the gap before the new samples reads -1 |
| SampleStore.Node.Update | apps/Oscilloscope/java/Node.java:83-91 | the array holds exactly the window of the map model after the message, every access in bounds |
| SampleStore.Node.WriteReadings | apps/Oscilloscope/java/Node.java:88-90 | the readings replace just their places |
| SampleStore.Node.GetData | apps/Oscilloscope/java/Node.java:93-100 | the sample's value in the map model, or -1 |
| SampleStore.Node.MaxX | apps/Oscilloscope/java/Node.java:102-105 | one less than the end of the window |
| SampleStore.KnownIsLatest | apps/Oscilloscope/java/Node.java:35-100 | over every run a readable sample has the value it was last given |
| SampleStore.WindowBounds | apps/Oscilloscope/java/Node.java:35-81 | over every run the window ends with the last message and never outgrows the largest size |
| SampleStore.SampleDropped | apps/Oscilloscope/java/Node.java:35-81 | exactly when a message loses a sample: restart, lower count, or slide |
| SampleStore.SampleRetained | apps/Oscilloscope/java/Node.java:58-69 | a sample stays readable while later messages start at most MAX_SIZE - INCREMENT behind it |
| MoteData.Data.constructor | apps/Oscilloscope/java/Data.java:14-22 | no mote is known at first |
| MoteData.Data.Update | apps/Oscilloscope/java/Data.java:24-43 | updates the one mote's store, across growth, and leaves every other mote's as it was |
| MoteData.Data.Grow | apps/Oscilloscope/java/Data.java:27-36 | doubles the array, or makes it just long enough, keeping every mote |
| MoteData.Data.AddMote | apps/Oscilloscope/java/Data.java:37-41 | a first message makes the mote known, with no samples yet |
| MoteData.Data.UpdateMote | apps/Oscilloscope/java/Data.java:42-43 | only this mote's samples change |
| MoteData.Data.GetData | apps/Oscilloscope/java/Data.java:45-50 | the mote's sample, or -1 for an unknown mote |
| MoteData.Data.MoteMaxX | apps/Oscilloscope/java/Data.java:52-58 | the mote's last sample number, or 0 for an unknown mote |
| MoteData.Data.MaxX | apps/Oscilloscope/java/Data.java:60-75 | the largest last sample number of any mote, or 0 |
| MoteData.Receive | apps/Oscilloscope/java/Data.java:24-43 | any messages in any interleaving leave each mote with what its own messages make of a new store |
| MoteData.MoteSampleIsLatest | apps/Oscilloscope/java/Data.java:24-50 | a readable sample has the value its own mote last sent for it |
| NumberPrinting.NotationsPrinted | tos/lib/printf/generic_printf.h:305-347 | the notations covered are those of %d, %u, %x, %X and %o |
| NumberPrinting.DigitCharIs | tos/lib/printf/generic_printf.h:117-120 | the digits are 0 to 9 and, with the respective correction factor, a to f or A to F |
| NumberPrinting.DigitAt | tos/lib/printf/generic_printf.h:111-122 | each digit, counted from the left, is that of the number's expansion in the base |
| NumberPrinting.ReadDigits | tos/lib/printf/generic_printf.h:111-122 | reading the digits back in their base gives the number, in bases 8, 10 and 16 and both letter cases |
| NumberPrinting.NumeralReadsBack | tos/lib/printf/generic_printf.h:131-134 | leading zeros do not change the number, and fill up to the precision |
| NumberPrinting.ReadingIsInjective | tos/lib/printf/generic_printf.h:111-134 | no other text of the same length stands for the number |
| NumberPrinting.DigitsAreFewest | tos/lib/printf/generic_printf.h:111-122 | no shorter text stands for the number |
| NumberPrinting.ElevenDigits | tos/lib/printf/generic_printf.h:102-104 | a 32-bit number needs at most eleven digits, so the digit loop stays in its buffer |
| NumberPrinting.PrintedReadsBack | tos/lib/printf/generic_printf.h:100-143 | for every value, width and precision the printed text reads back with the right sign |
| NumberPrinting.PrintedWidth | tos/lib/printf/generic_printf.h:124-137 | the width is met if and only if no sign stands before filled-in zeros below the width; otherwise it is one too many |
| NumberPrinting.WidthExceeded | tos/lib/printf/generic_printf.h:124-137 | an input within the buffer's bound that prints five characters for a width of four |
| NumberPrinting.StrLen | tos/lib/printf/generic_printf.h:85 | the number of characters before the terminator |
| NumberPrinting.StrRev | tos/lib/printf/generic_printf.h:81-97 | the characters before the terminator are reversed in place |
| Sequences.ReversedAt | tos/lib/printf/generic_printf.h:81-97 | what reversal does to each character |
| NumberPrinting.WriteDigits | tos/lib/printf/generic_printf.h:111-122 | the loop leaves the number's digits in the buffer, last digit first |
| NumberPrinting.FillUp | tos/lib/printf/generic_printf.h:131-134 | zeros up to the precision |
| NumberPrinting.Finish | tos/lib/printf/generic_printf.h:136-139 | the sign and the terminator |
| NumberPrinting.Compose | tos/lib/printf/generic_printf.h:131-140 | the buffer ends up with the sign, the zeros and the digits in reading order |
| NumberPrinting.Printer.PutChar | tos/lib/printf/generic_printf.h:46-55 | a newline is sent as carriage return and newline, any other character as itself |
| NumberPrinting.ExpandedConcat | tos/lib/printf/generic_printf.h:65-72 | a text is sent character by character |
| NumberPrinting.ExpandedChars | tos/lib/printf/generic_printf.h:46-55 | what each single character is sent as |
| NumberPrinting.Printer.Puts | tos/lib/printf/generic_printf.h:65-72 | all characters before the terminator are sent |
| NumberPrinting.Printer.Pad | tos/lib/printf/generic_printf.h:124-129 | the spaces sent and counted |
| NumberPrinting.Printer.PrintHexOct | tos/lib/printf/generic_printf.h:100-143 | sends exactly the padded, signed, zero-filled number, and counts exactly the characters sent |
| NumberPrinting.Printer.FormatVal | tos/lib/printf/generic_printf.h:208-253 | width and precision as parsed; a malformed text gives -1 and is echoed and counted from its first bad character |
| NumberPrinting.Printer.FormatPrecision | tos/lib/printf/generic_printf.h:236-252 | the part of the parse behind the point |
| NumberPrinting.WidthExactly | tos/lib/printf/generic_printf.h:208-235 | what digits alone mean, what nothing at all means, and what digits before anything but a point do |
| NumberPrinting.PrecisionExactly | tos/lib/printf/generic_printf.h:236-252 | the same behind a point |
| NumberPrinting.WidthUnderstood | tos/lib/printf/generic_printf.h:208-235 | a printed width is parsed as that width |
| NumberPrinting.FormatUnderstood | tos/lib/printf/generic_printf.h:208-253 | a printed width, a point and a printed precision are parsed as those numbers |
| FixedPoint.ScaledRounds | tos/system/scale.h:4-12 | the rounded quotient, as an inequality |
| FixedPoint.Scale32Exact | tos/system/scale.h:13-20 | equal to the rounded quotient modulo 2^32 if and only if the numerator of the remainder term does not wrap |
| FixedPoint.Scale32ExactForAll | tos/system/scale.h:13-20 | the condition on a and b alone that makes it exact for every x, and then exact whenever the result fits |
| FixedPoint.DocumentedRequirementTooWeak | tos/system/scale.h:4-12 | an input that meets the documented requirement and gets a wrong result |
| FixedPoint.ToIntInvertsToFP | apps/breakfast/util/fixedPointUtils.h:35-41 | converting to fixed point and back is the identity, absent overflow |
| FixedPoint.Fits32Exactly | apps/breakfast/util/fixedPointUtils.h:35-46 | what fits in 32 bits with a sign |
| FixedPoint.ToFPExact | apps/breakfast/util/fixedPointUtils.h:35-37 | an integer in fixed point stands for itself |
| FixedPoint.ToIntRounds | apps/breakfast/util/fixedPointUtils.h:39-41 | the integer is within half a unit of the number, halves upwards, also below zero |
| FixedPoint.FpMultRounds | apps/breakfast/util/fixedPointUtils.h:43-46 | so is the product of the exact one |
| FixedPoint.ChainError | apps/breakfast/util/fixedPointUtils.h:43-46 | n multiplications by factors of magnitude at most one are off by at most n half units from the exact product |

## Left out

- Serial ports, sockets, timestamps, logging, the out-of-band hook and the printing of warnings in `tos.py`; a source is the sequence of bytes and silences it delivers.
- The mote's side of the serial protocol: its code is not part of this model. It is assumed to acknowledge every data frame it receives with that frame's number.
- SimpleAM.AM.SimpleWrite: a deadline is the number of looks at the clock that still find it ahead; real time is not modelled, nor the time-out of a single read, which is an event of the source.
- StopAndWait.SafeExactly: is about writes without deadline. A number that the mote remembers from an earlier session counts as a leftover data frame, received first.
- FrameErrors.WireBurstReported: damage that makes or breaks a flag or an escape, or that reaches the trailer, is not covered.
- The `ActiveMessage` header around the payload; the sender is modelled on the packed payload.
- The `sint` and `string` fields of `Packet`, which packing does not encode, and access to fields by name or index.
- Hashtable.Hashtable.Expand: leaves out a successful `realloc` after a failed `malloc`, whose `memset` writes through a pointer just read from uninitialised memory; without memory both are refused.
- Freeing, and `hashtable_destroy`.
- Hashtable.Hashtable.Insert: counts without wrap-around at 2^32; the load limit's floating-point product is an integer ceiling of 65/100.
- `heap_peek_min_data` and `heap_size`, which only read a field; which of several events with equal keys leaves first is not stated.
- Shellsort.Shellsort: elements and indices are unbounded integers, so where `int` has 16 bits sizes above 32767, which overflow the loop variable, are not covered.
- SampleStore.Node.Update: sample numbers are unbounded integers, not 32-bit ones. NREADINGS, INCREMENT and MAX_SIZE are parameters, which covers the MultihopOscilloscope copies too.
- MoteData.Data.Update: leaves out telling the window of a new mote; mote identifiers are not negative, as on the network.
- NumberPrinting.Printer.PrintHexOct: numbers are 32 bits wide, width and precision unbounded; it requires, as the buffer of 40 characters does, that precision and sign stay below 40. The most negative number prints as two's complement negation makes it.
- `float_print`, the `_printf` driver and the UART.
- FixedPoint.FpMult: is defined only where the 32-bit product and sum do not overflow, which C leaves undefined.
- The assembly CRC in `tos/chips/atm128/crc.h`, whose table repeats the one modelled.
- One C or Java function is sometimes several methods here (the stages of `setEnd`, the loops of `shellsort` and `print_hex_oct`), each with its own contract; the recursion of `up_heap` and `down_heap` is kept.
- Drivers, radio stacks, register and packet headers, graphical programs and generated wrappers.
