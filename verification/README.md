# A model of GLIP's data paths

GLIP moves bytes between a host and an FPGA and promises a lossless, ordered FIFO in both directions.
This project models the parts of GLIP that carry that promise, in the form their sources have, and
proves what they keep:

- **The circular buffer** (`CbufLevels`, `Cbuf`, `CbufUtil`, `CbufThreads`). The level arithmetic on
  pointers modulo twice the size; the buffer as a class over an array, in its basic mode
  (write, read) and its API mode (reserve and commit, peek and discard) with the temporary buffers; the
  partial and blocking helpers around it; and one reader and one writer thread on it as a step system in
  which every load of the other side's pointer, every byte copied and every publication is a step of its own.
- **The UART protocol engine** (`UartWire`, `UartSystem`, `UartHost`). The escaping and the credit
  messages; host, both wires, the user and an abstract logic as a step system over whole runs; and the
  thread of the host as a class with `parse_buffer`, `update_credit` and the loop of `thread_func`. The
  class keeps, as ghost state, the run of that system it has followed: every statement that touches shared
  state adds the step it is, user and logic add theirs in between, and `Valid()` says that the fields are
  those of the state the run has reached. So what is proved over every run holds of the thread.
- **The JTAG transfer protocol.** On the target (`JtagFifo`, `JtagInputFsm`, `JtagOutputFsm`,
  `JtagConfigFsm`) each Verilog module is a class with a `Clock` method, proved against a function on its
  registers. `JtagInputFrame`, `JtagOutputFrame` and `JtagConfigFsm` refine the bit-serial runs to words
  and to whole frames, for every word width from 2 on; `JtagTarget` runs the three machines in lockstep on
  one TDI stream and refines a frame to one transaction. On the host, `JtagHost` is the code that sizes
  and builds requests and reads responses, over two circular buffers; `JtagDrscan` is the text exchanged
  with OpenOCD. `JtagLink` puts both ends together, `JtagOpenOcd` carries a request through the text layer
  to the target and back, and `JtagPoll` is the communication thread running against all of this, with the
  user's thread acting between its steps.
- **The word serializer of the TCP interface** (`TcpWords`, `GlipTcp`), cycle by cycle, with the
  socket's thread acting between any two uses of a queue.

`Bits`, `JtagWords` and `JtagBytes` hold the machine arithmetic, bit sequences and byte order the rest uses.

## Where the code does not do what one would expect

- A JTAG transfer that wants fewer words than it sends (0 < rd < wr) and gets all of them from the
  target's fifo runs one response word long: the branch at
  `src/backend_jtag/logic/verilog/glip_jtag_output_fsm.v:201-203` does not advance `word_cnt`. The host
  then reads 0 acknowledged words and takes the number of accepted words for the number of words it
  received. `JtagLink.ExactlyOnce` says that a transfer delivers exactly once if and only if this does
  not happen, in terms of what the fifo holds and what the logic adds to it clock by clock (`Supplied`),
  and `JtagLink.OverrunHappens` exhibits a target and a transfer for which it does. Over a
  whole session everything is delivered exactly once if and only if no response overran
  (`JtagPoll.PollThread`); none does while the read buffer has room for as many words as are sent.
- `jtag_drscan_read` does not reset `field_end` when it removes complete fields from its buffer
  (`src/backend_jtag/sw/backend_jtag.c:602-646`). A read that brings no end of a field, after one that
  did, makes `field_start` wrap below zero, and the run is not defined from there on.
  `JtagReceive.Reads` computes the reads from the reply, what has arrived by each of them, and the room in
  the buffer; `JtagReceive.DrscanRead` shows that a reply is decoded if and only if none of its reads is of
  that kind. `JtagReceive.UnsteadyReply` gives a reply and arrivals for which one is, and
  `JtagReceive.ReadUnsteadyReply` runs the code on them and fails.
- `cbuf_fill_level` loads the other side's pointer twice. If the writer fills the buffer between the
  loads, the reader computes 0 and its call fails although data is there:
  `CbufThreads.SpuriousFailureIffFull` gives the exact condition, `CbufThreads.SpuriousFailureHappens` a run.
- A four-byte word of the TCP interface whose first byte is 0x80 or more has all bits above bit 31 set,
  because the byte is shifted as a signed 32-bit int: `TcpWords.ItemIsBigEndian`. Its low 32 bits, all
  that a 32-bit logic interface looks at, are right.
- The TCP interface never clears the value of its control item, so a message is handed over as it was
  sent if and only if it repeats every earlier bit: `GlipTcp.ControlMessageIsExact`. It also assembles
  messages most significant byte first, while the host sends its 16-bit requests in its own byte order.
  The reset bit is set if and only if some message has it in the byte sent last
  (`GlipTcp.LogicResetIsSeen`); from a little-endian host that is bit 8 of the request
  (`GlipTcp.LittleEndianResetIsSeen`), so none of its reset requests, which are 1, is ever seen
  (`GlipTcp.LogicResetArrivesSwapped`).
- The protocol description has the target answer zeros in the first two words of a JTAG response. The
  output FSM shows bit 0 of the fifo's data port at each of their clocks
  (`JtagOutputFrame.OutputFrame`), so the words are zero if and only if all those bits are clear
  (`JtagOutputFrame.PortIsZero`); if a word waits, if and only if its bit 0 is clear
  (`JtagTarget.HeaderShown`). `JtagTarget.HeaderIsNotZero` gives a frame where they are not. The host
  ignores both words.
- An all-ones header does not only start configuration discovery or carry the side channel: the input
  FSM also pulses `jtag_reset`, which empties both fifos. `JtagTarget.ConfigLosesNothing` says when that
  is harmless: words accepted and acknowledged before survive if and only if the reader of the input fifo
  takes them all up to the pulse, words the logic sent if and only if there were none and none arrived up
  to it. `JtagTarget.ConfigLosesWord` gives a target that loses a word.
- NUM_WORDS is documented as the logarithm of the target's buffer size, and the host computes
  `1 << NUM_WORDS`; the input FSM takes NUM_WORDS itself for the depth of its fifo. The model keeps both;
  only the minimum transfer length depends on it.
- One would expect the three state machines of the JTAG target to move on only while `shift` is set. Where
  they read the header or data, or send counts, they do not look at it: a clock without shift there counts
  as a bit of the word (`JtagInputFsm.HeldClock`, `JtagOutputFsm.HeldClock`, `JtagConfigFsm.HeldClock`), so
  the frames proved here are contiguous shifts.
- The error code of a response, a count word of all ones, is never sent: nothing raises the error
  (`JtagInputFsm.NoErrorIsRaised`, `JtagTarget.NeverAnError`).
- The UART protocol description speaks of sending a new credit of 0x3fff when the credit falls below a
  threshold; the code sends what there is room for, at most that much, whenever the credit is below 0x3fff.

## Model

| member | source | states |
|---|---|---|
| `CbufLevels.MaskIsSlot` | src/cbuf.c:349 | masking a pointer below twice the size gives the array index it stands for |
| `CbufLevels.PtrAddIsAdvance` | src/cbuf.c:167-170 | the masked addition is an advance on a circle of twice the size |
| `CbufLevels.LevelsAreExact` | src/cbuf.c:644-701 | XOR, masks and signed correction give exactly the distance of the pointers; empty, full and free level agree with it |
| `CbufLevels.AdvanceMovesDistance` | src/cbuf.c:167-170 | advancing the write pointer adds to the distance, advancing the read pointer takes from it |
| `CbufLevels.SlotsAreDistinct` | src/cbuf.c:341-366 | positions less than a size apart use different array elements |
| `CbufLevels.SlotAtAdvance` | src/cbuf.c:501-532 | the elements behind an advanced pointer are those further on from the old one |
| `Cbuf.CalcBufsize` | src/cbuf.c:182-195 | a temporary buffer holds the request, is at most twice as large, and is a power of two above it or the size of the ring |
| `Cbuf.Cbuf.constructor` | src/cbuf.c:218-253 | a new buffer is empty |
| `Cbuf.Cbuf.SetHintMaxReadSize` | src/cbuf.c:298-302 | only the hint changes |
| `Cbuf.Cbuf.SetHintMaxWriteSize` | src/cbuf.c:317-321 | only the hint changes |
| `Cbuf.Cbuf.Fill` | src/cbuf.c:675-687 | the number of bytes in the queue |
| `Cbuf.Cbuf.Free` | src/cbuf.c:698-701 | the number of bytes that still fit |
| `Cbuf.Cbuf.Empty` | src/cbuf.c:644-647 | true if and only if the queue is empty |
| `Cbuf.Cbuf.Full` | src/cbuf.c:658-661 | true if and only if the queue holds `size` bytes |
| `Cbuf.Cbuf.Write` | src/cbuf.c:341-366 | appends all bytes, or none and -EINVAL if and only if they do not fit |
| `Cbuf.Cbuf.Reserve` | src/cbuf.c:399-431 | hands out memory for the request if and only if it fits, in the ring or in the temporary buffer, which is replaced only if too small, by one of the hinted size if that is enough |
| `Cbuf.Cbuf.Store` | src/cbuf.c:371-398 | what the third party does with that memory: its bytes stand there, and nothing in the queue changes |
| `Cbuf.Cbuf.Commit` | src/cbuf.c:450-480 | appends exactly the first n bytes of the reserved memory, whatever the copy around the end moves |
| `Cbuf.Cbuf.Read` | src/cbuf.c:501-532 | takes out exactly the next n bytes, or nothing and -EINVAL if and only if there are fewer |
| `Cbuf.Cbuf.Gather` | src/cbuf.c:512-524 | the one or two copies bring the next n bytes together in order |
| `Cbuf.Cbuf.Peek` | src/cbuf.c:559-605 | a pointer behind which the next n bytes stand contiguously, without taking them out; the temporary buffer is replaced only if too small, by one of the hinted size if that is enough |
| `Cbuf.Cbuf.PeekedStays` | src/cbuf.c:559-605 | bytes peeked in the ring stay readable while only the writer goes on |
| `Cbuf.Cbuf.Discard` | src/cbuf.c:621-633 | removes exactly n bytes, or none and -EINVAL |
| `CbufUtil.Read` | src/util.c:271-289 | delivers the next bytes, as many as were there when the call began, at most `size`, while the writer runs |
| `CbufUtil.ReadB` | src/util.c:310-368 | returns 0 only with exactly the next `size` bytes; a timeout delivers what is there, at least what was there at the beginning; any other failure delivers nothing; in every outcome what is delivered is next in order |
| `CbufUtil.Write` | src/util.c:388-395 | appends the front of the data that fitted when the call began, while the reader runs |
| `CbufUtil.WriteB` | src/util.c:416-456 | appends exactly data[..size_written] in order and returns 0 if and only if that is all of it; it fails only after it has filled the buffer |
| `CbufThreads.StoreMissesUnread` | src/cbuf.c:341-366 | a byte stored by the writer hits no byte that is still to be read |
| `CbufThreads.PublishAppends` | src/cbuf.c:450-480 | publishing appends the stored bytes to what can be read |
| `CbufThreads.WriterLevelIsSafe` | src/cbuf.c:675-687 | the free level the writer computes from its loads never exceeds the true one |
| `CbufThreads.ReaderLevelIsSafe` | src/cbuf.c:675-687 | the fill level the reader computes from its loads never exceeds the true one |
| `CbufThreads.RemovalKeepsInv` | src/cbuf.c:621-633 | publishing a removal keeps both threads' expectations |
| `CbufThreads.StepKeepsInv` | src/cbuf.c:108-119 | every step of either thread keeps the invariant |
| `CbufThreads.FirstInFirstOut` | src/cbuf.c:108-119 | in every interleaving of every run the bytes taken out are a prefix of those put in, and the ring holds the rest |
| `CbufThreads.CompletedCalls` | src/cbuf.c:341-366 | a completed write publishes the caller's bytes, a commit the bytes stored through the grant at their offsets, a completed read or a peek has seen exactly the next bytes |
| `CbufThreads.WriterDecision` | src/cbuf.c:341-431 | a load decides if it finds the buffer full or is the second one; then the call goes on with its own argument if and only if the room the load finds suffices, and ends otherwise |
| `CbufThreads.ReaderDecision` | src/cbuf.c:501-633 | the same for read, peek and discard: refused if and only if the level seen is below the argument; a discard takes exactly the next n bytes |
| `CbufThreads.WriteCall` | src/cbuf.c:341-480 | a whole call, the reader anywhere in between: refused, it adds nothing; published, it has added exactly the bytes it was called with, or as many as were committed, at most those reserved, with the stored bytes at their offsets |
| `CbufThreads.ReadCall` | src/cbuf.c:501-633 | the same for a reading call of n: complete, it has taken exactly the next n bytes (shown them, for a peek); refused only if a load that decides sees fewer |
| `CbufThreads.WriteAlone` | src/cbuf.c:341-366 | a write that fits, undisturbed: two loads, a copy of each byte and the publication are a run, and the bytes have been added |
| `CbufThreads.ReadAlone` | src/cbuf.c:501-532 | the same for a read, with one load if the buffer is full |
| `CbufThreads.SpuriousFailureIffFull` | src/cbuf.c:675-687 | a read, a peek or a discard of data that is there fails after its second load if and only if the buffer has just become full |
| `CbufThreads.SpuriousFailureHappens` | src/cbuf.c:675-687 | a run in which this happens |
| `UartWire.PackingIsArithmetic` | src/backend_uart/sw/backend_uart.c:946-949 | the two bytes of a credit message as arithmetic on the amount |
| `UartWire.DebtIsArithmetic` | src/backend_uart/sw/backend_uart.c:926-931 | the shift and mask of a received amount as arithmetic |
| `UartWire.CreditRoundTrip` | src/backend_uart/sw/backend_uart.c:926-949 | unpacking inverts packing for every amount up to 0x7fff; the first byte is never the marker |
| `UartWire.ResetBytes` | src/backend_uart/sw/backend_uart.c:647-671 | the four reset messages are those of the protocol description |
| `UartWire.UpHeadOfMessage` | src/backend_uart/doc/protocol.md:49-56 | a message of the logic is recognised whatever follows it |
| `UartWire.DownHeadOfMessage` | src/backend_uart/doc/protocol.md:58-64 | a message of the host is recognised whatever follows it |
| `UartWire.DecodeUpAppend` | src/backend_uart/sw/backend_uart.c:673-741 | decoding a stream cut anywhere gives the messages of the whole stream |
| `UartWire.DecodeDownAppend` | src/backend_uart/doc/protocol.md:58-64 | the same for the host's stream |
| `UartWire.WireRoundTrip` | src/backend_uart/sw/backend_uart.c:803-813 | any sequence of data bytes, grants and resets decodes to exactly that sequence, with nothing left over |
| `UartWire.EncodingIsUnique` | src/backend_uart/doc/protocol.md:49-64 | no two sequences share an encoding |
| `UartSystem.AssertionsHold` | src/backend_uart/sw/backend_uart.c:673-822 | in every state of the invariant every assertion the source makes on its next statement holds: credit and room for each byte, 0xfe on a full buffer, no wrap of the unsigned subtractions |
| `UartSystem.StepKeepsInv` | src/backend_uart/sw/backend_uart.c:743-826 | every step of host, user and logic keeps framing, conservation of credit and debt, and delivery |
| `UartSystem.StepEmits` | src/backend_uart/sw/backend_uart.c:752-826 | a step puts nothing on the wire to the logic but the byte it sends, or the two levels of a reset |
| `UartSystem.RunSteps` | src/backend_uart/sw/backend_uart.c:743-826 | a run with one more step that can be taken is a run, and ends with that step |
| `UartSystem.LongerRunKeepsHistory` | src/backend_uart/sw/backend_uart.c:743-826 | a longer run forgets nothing: everything read, written, sent, received, granted, stored and parsed, and the bytes that came over the wire, only grow |
| `UartSystem.FlowControl` | src/backend_uart/sw/backend_uart.c:933-959 | over every run, credit is what the logic may still send plus what is on the wires and never exceeds the room; data put on the wire never exceeds what was granted, and `debt` is the difference |
| `UartSystem.EndToEnd` | src/backend_uart/sw/backend_uart.c:790-817 | over every run, bytes read, buffered and in flight are the bytes sent, in order, in both directions |
| `UartSystem.ResetsArePulses` | src/backend_uart/sw/backend_uart.c:753-761 | over every run, the reset levels put on the wire are one pulse, asserted and then released, for each request; the last one sent releases the reset, and the logic has got a front of them |
| `UartSystem.ChunksDoNotMatter` | src/backend_uart/sw/backend_uart.c:679-740 | bytes written and debt added are those of a one-pass decoder of the bytes parsed, however reads cut them |
| `UartSystem.ReachedKeepsPromises` | src/backend_uart/sw/backend_uart.c:743-826 | every state a run from a fresh context reaches keeps flow control, delivery and chunk independence |
| `UartHost.ParsePlainData` | src/backend_uart/sw/backend_uart.c:733-739 | a byte other than the marker is one whole message of the stream, and the step that consumes it writes it |
| `UartHost.ParseDoubledMarker` | src/backend_uart/sw/backend_uart.c:683-688 | a doubled marker inside the chunk is one data byte |
| `UartHost.ParseWholeCredit` | src/backend_uart/sw/backend_uart.c:689-695 | a credit message inside the chunk is counted once |
| `UartHost.ParseCreditCutLate` | src/backend_uart/sw/backend_uart.c:696-702 | a credit message cut before its last byte is completed by one more byte from the wire |
| `UartHost.ParseCutAtMarker` | src/backend_uart/sw/backend_uart.c:706-732 | a marker at the end of the chunk is completed by one or two more bytes |
| `UartHost.Host.constructor` | src/backend_uart/sw/backend_uart.c:984-992 | a fresh context is the start state of the system, with no steps taken |
| `UartHost.Host.UpdateCredit` | src/backend_uart/sw/backend_uart.c:933-959 | follows the run: credit grows by what is free and not promised, at most a tranche, 0 is returned if and only if that is something, the caller goes on where it was, and no data is sent |
| `UartHost.Host.WaitForCredit` | src/backend_uart/sw/backend_uart.c:710-715 | follows the run: ends if and only if there is credit for two words; observed still waiting, the user has left the input buffer full but for at most one byte |
| `UartHost.Host.ParseBuffer` | src/backend_uart/sw/backend_uart.c:673-741 | follows the run: consumes its chunk and at most two more bytes and stops on a message boundary, although it overwrites its buffer; no data is sent; it waits on only for a user who does not read |
| `UartHost.Host.ResetEnd` | src/backend_uart/sw/backend_uart.c:994-1016 | follows the run to the head of the loop: the first tranche is granted and the three bytes of the first credit are parsed |
| `UartHost.Host.ReadPart` | src/backend_uart/sw/backend_uart.c:768-788 | follows the run: parses as many bytes as the read returns and room and scratch buffer allow, and at most two more, or one whole credit message if there is no room; no data is sent, `debt` only grows |
| `UartHost.Host.SendBytes` | src/backend_uart/sw/backend_uart.c:803-814 | follows the run: exactly the bytes taken are added, in order, to the data on the wire to the logic |
| `UartHost.Host.WritePartOfLoop` | src/backend_uart/sw/backend_uart.c:790-817 | follows the run: the front of the output buffer, min(its length, debt, 256) bytes, is added to the data on the wire, leaves the buffer and is taken off the debt |
| `UartHost.Host.CreditPartOfLoop` | src/backend_uart/sw/backend_uart.c:819-822 | follows the run: a grant of what is free, at most a tranche, if and only if the credit is below a tranche |
| `UartHost.Host.EmitReset` | src/backend_uart/sw/backend_uart.c:753-761 | follows the run: exactly fe 83 fe 81 goes onto the wire, decoded as an asserted and a released reset behind what is in flight |
| `UartHost.Host.Round` | src/backend_uart/sw/backend_uart.c:752-823 | one round follows the run: exactly one reset pulse goes out if it is requested, otherwise none; what has come in is read on; of the output buffer at least what debt and scratch buffer allowed at its beginning is sent |
| `UartHost.Host.ThreadFunc` | src/backend_uart/sw/backend_uart.c:743-826 | any number of rounds follow the run, each reading and resetting as `Round` says for its own inputs, unless one still waits for the user to read; so no byte is lost or reordered in either direction, credit fits the room, the debt is what was granted and not spent, what was stored is what a one-pass decoder makes of the bytes parsed, the reset levels sent are those requested, and earlier history is kept |
| `JtagWords.ValOfToBits` | src/backend_jtag/logic/verilog/glip_jtag_input_fsm.v:138-153 | a word's bits stand for the number they were made from |
| `JtagWords.ToBitsOfVal` | src/backend_jtag/logic/verilog/glip_jtag_input_fsm.v:138-153 | and the number gives the bits back |
| `JtagWords.AnyOneIsPositive` | src/backend_jtag/logic/verilog/glip_jtag_input_fsm.v:153 | the OR reduction is "not zero" |
| `JtagWords.AllOnesIsMaximal` | src/backend_jtag/logic/verilog/glip_jtag_input_fsm.v:147 | the AND reduction is "the largest number" |
| `JtagFifo.Fifo.InReady` | src/backend_jtag/logic/verilog/glip_jtag_fifo.v:77 | in_ready if and only if fewer than LENGTH words are stored |
| `JtagFifo.Fifo.OutValid` | src/backend_jtag/logic/verilog/glip_jtag_fifo.v:75 | out_valid if and only if a word is stored |
| `JtagFifo.Fifo.OutFlit` | src/backend_jtag/logic/verilog/glip_jtag_fifo.v:74 | the oldest word, if there is one |
| `JtagFifo.Fifo.ShiftRegister` | src/backend_jtag/logic/verilog/glip_jtag_fifo.v:94-110 | each array element after a clock, from the array before it |
| `JtagFifo.Fifo.Clock` | src/backend_jtag/logic/verilog/glip_jtag_fifo.v:71-110 | the one-hot pointer stays at the element count and the array refines a bounded queue, with simultaneous push and pop |
| `JtagInputFsm.Module.InputFsm` | src/backend_jtag/logic/verilog/glip_jtag_input_fsm.v:112-225 | the combinational block is the next-state function |
| `JtagInputFsm.Module.Clock` | src/backend_jtag/logic/verilog/glip_jtag_input_fsm.v:227-244 | so are the registers after an edge |
| `JtagInputFsm.NoErrorIsRaised` | src/backend_jtag/logic/verilog/glip_jtag_input_fsm.v:112-244 | no clock raises the error output |
| `JtagInputFsm.HeldClock` | src/backend_jtag/logic/verilog/glip_jtag_input_fsm.v:123-224 | a clock without shift changes nothing between frames and while words are dropped; where header or data are read it counts as a bit of the word |
| `JtagInputFrame.StepMovesWords` | src/backend_jtag/logic/verilog/glip_jtag_input_fsm.v:93-110 | at every clock a word is pushed only into a fifo with room, the reader takes the oldest word, and a reset drops the rest |
| `JtagInputFrame.HeaderWord` | src/backend_jtag/logic/verilog/glip_jtag_input_fsm.v:124-167 | the first word is classified: all ones, zero, or a length |
| `JtagInputFrame.IgnoreWord` | src/backend_jtag/logic/verilog/glip_jtag_input_fsm.v:169-178 | the second word changes nothing |
| `JtagInputFrame.PacketWord` | src/backend_jtag/logic/verilog/glip_jtag_input_fsm.v:180-208 | a data word is pushed and counted if and only if the fifo has room at its last bit |
| `JtagInputFrame.DroppedWords` | src/backend_jtag/logic/verilog/glip_jtag_input_fsm.v:210-223 | afterwards nothing is pushed and the count stands still |
| `JtagInputFrame.FillsByPushes` | src/backend_jtag/logic/verilog/glip_jtag_input_fsm.v:94-110 | the fifo grows by no more than is pushed |
| `JtagInputFrame.DataWords` | src/backend_jtag/logic/verilog/glip_jtag_input_fsm.v:180-223 | over any drain pattern a front of the data is pushed, up to the first word boundary that finds the fifo full |
| `JtagInputFrame.InputFrame` | src/backend_jtag/logic/verilog/glip_jtag_input_fsm.v:112-244 | the whole frame: exactly the first n of the announced words are pushed, acc_cnt is n, and n covers at least the room there was; nothing for an all-ones header |
| `JtagOutputFsm.Module.ReadRequest` | src/backend_jtag/logic/verilog/glip_jtag_output_fsm.v:104-185 | the states that read the request are the next-state function |
| `JtagOutputFsm.Module.Answer` | src/backend_jtag/logic/verilog/glip_jtag_output_fsm.v:187-295 | so are the states that answer |
| `JtagOutputFsm.Module.Clock` | src/backend_jtag/logic/verilog/glip_jtag_output_fsm.v:298-320 | so are the registers after an edge |
| `JtagOutputFsm.HeldClock` | src/backend_jtag/logic/verilog/glip_jtag_output_fsm.v:104-296 | a clock without shift holds the machine up between frames, in the payload and while it is silent; the states of header and counts go on |
| `JtagOutputFrame.NothingLost` | src/backend_jtag/logic/verilog/glip_jtag_output_fsm.v:104-296 | over any clocks, words taken and waiting are the words that were there and those that came, in order |
| `JtagOutputFrame.PortIsZero` | src/backend_jtag/logic/verilog/glip_jtag_output_fsm.v:119-185 | a header word is zero if and only if bit 0 of the data port is clear at each of its clocks, whatever arrives meanwhile |
| `JtagOutputFrame.WriteLengthWord` | src/backend_jtag/logic/verilog/glip_jtag_output_fsm.v:119-152 | the first word is stored as the write length, or starts configuration, while TDO shows bit 0 of the data port |
| `JtagOutputFrame.ReadLengthWord` | src/backend_jtag/logic/verilog/glip_jtag_output_fsm.v:154-185 | the second word decides what the payload starts with, and takes the first word if and only if one is wanted and the fifo is not empty at its last clock; TDO shows bit 0 of the data port |
| `JtagOutputFrame.SendDataWord` | src/backend_jtag/logic/verilog/glip_jtag_output_fsm.v:187-224 | a payload word shows the word taken, and takes the next one if and only if one is still wanted and the fifo is not empty at its last clock |
| `JtagOutputFrame.NoDataWord` | src/backend_jtag/logic/verilog/glip_jtag_output_fsm.v:226-247 | a padding word shows zeros |
| `JtagOutputFrame.CountWriteWord` | src/backend_jtag/logic/verilog/glip_jtag_output_fsm.v:249-269 | shows the input FSM's count |
| `JtagOutputFrame.ErrorWord` | src/backend_jtag/logic/verilog/glip_jtag_output_fsm.v:249-269 | while the input FSM reports an error the count word is all ones |
| `JtagOutputFrame.CountReadWord` | src/backend_jtag/logic/verilog/glip_jtag_output_fsm.v:271-281 | shows the number of words taken |
| `JtagOutputFrame.QueueBalance` | src/backend_jtag/logic/verilog/glip_jtag_output_fsm.v:104-296 | what is taken and what waits grow together by exactly what comes in |
| `JtagOutputFrame.SendWords` | src/backend_jtag/logic/verilog/glip_jtag_output_fsm.v:187-281 | from any payload word on, words are taken up to the first word whose last clock finds the fifo empty, and the words on TDO are those, padding and the counts |
| `JtagOutputFrame.SuppliesAll` | src/backend_jtag/logic/verilog/glip_jtag_output_fsm.v:187-224 | all wanted words are taken if and only if the fifo is empty at none of the clocks where one is due; never fewer than were waiting |
| `JtagOutputFrame.OutputFrame` | src/backend_jtag/logic/verilog/glip_jtag_output_fsm.v:104-320 | the whole response: two header words that show the data port, then the words taken, padding, both counts; one word is taken at the last clock of each word from the second on, up to the first that finds the fifo empty, so the number taken is exact in what waited and what arrived; one word long exactly in the case named above |
| `JtagConfigFsm.Module.Clock` | src/backend_jtag/logic/verilog/glip_jtag_config_discovery_fsm.v:74-165 | one clock is the next-state function |
| `JtagConfigFsm.HeldClock` | src/backend_jtag/logic/verilog/glip_jtag_config_discovery_fsm.v:74-147 | a clock without shift keeps the header read so far; the states that answer go on |
| `JtagConfigFsm.HeaderWord` | src/backend_jtag/logic/verilog/glip_jtag_config_discovery_fsm.v:85-105 | the first word starts an answer if and only if it is all ones, and otherwise a data transfer |
| `JtagConfigFsm.ConfigFrame` | src/backend_jtag/logic/verilog/glip_jtag_config_discovery_fsm.v:107-147 | behind an all-ones header the answer is WORD_WIDTH, NUM_WORDS |
| `JtagConfigFsm.PulseInFrame` | src/backend_jtag/logic/verilog/glip_jtag_config_discovery_fsm.v:107-123 | the logic is reset for exactly one clock if and only if bit 0 of the second word is set |
| `JtagConfigFsm.SilentFrame` | src/backend_jtag/logic/verilog/glip_jtag_config_discovery_fsm.v:83-147 | any other header keeps this machine silent for the whole shift |
| `JtagTarget.RunProjects` | src/backend_jtag/logic/verilog/glip_jtag_toplevel.v:183-234 | in lockstep each machine runs as it would alone on its share of the clocks |
| `JtagTarget.HeaderAgreement` | src/backend_jtag/logic/verilog/glip_jtag_toplevel.v:183-234 | after any first word the three machines agree on what kind of frame it is |
| `JtagTarget.IdleKeepsReady` | src/backend_jtag/logic/verilog/glip_jtag_toplevel.v:111-117 | clocks between frames push and take nothing |
| `JtagTarget.CaptureStarts` | src/backend_jtag/logic/verilog/glip_jtag_input_fsm.v:210-223 | Capture-DR makes the input FSM listen |
| `JtagTarget.ExitKeepsFinished` | src/backend_jtag/logic/verilog/glip_jtag_toplevel.v:111-117 | clocks between the shift and the update push and take nothing |
| `JtagTarget.UpdateMakesReady` | src/backend_jtag/logic/verilog/glip_jtag_input_fsm.v:227-235 | Update-DR brings all three machines back to waiting |
| `JtagTarget.ReportIsCount` | src/backend_jtag/logic/verilog/glip_jtag_toplevel.v:218-234 | the count the output FSM samples is the one the input FSM has at that word |
| `JtagTarget.NeverAnError` | src/backend_jtag/logic/verilog/glip_jtag_input_fsm.v:112-244 | so no run of the target ever replaces the count of accepted words by the error code |
| `JtagTarget.RoomProjects` | src/backend_jtag/logic/verilog/glip_jtag_input_fsm.v:180-208 | the fifo has room at the last clock of a data word in the lockstep run if and only if it has for the input FSM alone |
| `JtagTarget.AcceptedWords` | src/backend_jtag/logic/verilog/glip_jtag_input_fsm.v:180-223 | a data frame's accepted words are a front of those sent, up to the first word that ends with the input fifo full, and the count is stable when it is reported |
| `JtagTarget.AnsweredWords` | src/backend_jtag/logic/verilog/glip_jtag_output_fsm.v:154-296 | a data frame's response reports the words taken, as many as the output fifo supplies with what arrives, and that count |
| `JtagTarget.Transaction` | src/backend_jtag/logic/verilog/glip_jtag_toplevel.v:183-234 | a frame is one transaction: exactly the words up to the first that ends with the input fifo full are accepted, exactly as many words as the output fifo supplies with what arrives are taken, the response says so, the machines can end the frame |
| `JtagTarget.ConfigTransaction` | src/backend_jtag/logic/verilog/glip_jtag_toplevel.v:183-234 | a configuration frame pushes and takes nothing and answers WORD_WIDTH, NUM_WORDS; exactly the words drained up to the reset pulse leave the input fifo, and the output fifo holds exactly what arrived behind it |
| `JtagTarget.ConfigLosesNothing` | src/backend_jtag/logic/verilog/glip_jtag_toplevel.v:76-79 | accepted words survive such a frame if and only if all are drained up to the pulse, sent words if and only if there were none up to it |
| `JtagTarget.ConfigLosesWord` | src/backend_jtag/logic/verilog/glip_jtag_toplevel.v:76-79 | a target that loses a word |
| `JtagTarget.LogicResetPulse` | src/backend_jtag/logic/verilog/glip_jtag_config_discovery_fsm.v:107-123 | in any shift the logic is reset for exactly one clock if the header is all ones and bit 0 of the second word is set, otherwise never |
| `JtagTarget.FrameIsRun` | src/backend_jtag/logic/verilog/glip_jtag_toplevel.v:183-234 | a frame is the run of its clocks |
| `JtagTarget.HeaderShown` | src/backend_jtag/logic/verilog/glip_jtag_output_fsm.v:119-185 | the header words of a response repeat bit 0 of the waiting word; zero if and only if it is clear |
| `JtagTarget.HeaderIsNotZero` | src/backend_jtag/logic/verilog/glip_jtag_output_fsm.v:119-185 | a response whose header is not zero |
| `JtagBytes.BytesOfWordsOf` | src/backend_jtag/sw/backend_jtag.c:931-958 | bytes packed to words and unpacked are the same bytes |
| `JtagBytes.WordsOfBytesOf` | src/backend_jtag/sw/backend_jtag.c:931-958 | words unpacked to bytes and packed are the same words |
| `JtagHost.GrowBuf` | src/backend_jtag/sw/backend_jtag.c:879-885 | always larger, at most doubled or by 32 KiB, whichever is less |
| `JtagHost.Host.constructor` | src/backend_jtag/sw/backend_jtag.c:177-220 | two empty buffers of 64 KiB |
| `JtagHost.Host.CalcPayloadLen` | src/backend_jtag/sw/backend_jtag.c:903-919 | for the level of the write buffer at the beginning and the room in the read buffer at the end: wr and rd are within them, a direction gets less than there is only if it gets all that is wanted, and the payload is less than wanted only if both get all there is; both fit their buffers while the user runs; never 0xFFFF words |
| `JtagHost.SizesAreFair` | src/backend_jtag/sw/backend_jtag.c:903-919 | the same of the sizes of every transfer in a session; fewer wanted than sent only if the read buffer has no more room |
| `JtagHost.AdaptedBounds` | src/backend_jtag/sw/backend_jtag.c:848-860 | the wanted length after a transfer: at least the target buffer size and at most MAX_PAYLOAD_WORDS; between these half as much again after a good transfer, three tenths after a poor one, otherwise unchanged; never less after a good one, never more than that or than the buffer size after others |
| `JtagHost.Host.PeekData` | src/backend_jtag/sw/backend_jtag.c:997-1003 | the bytes copied through the peeked pointer are the front of the write buffer although the user writes meanwhile |
| `JtagHost.Host.BuildReq` | src/backend_jtag/sw/backend_jtag.c:972-1009 | -ENOMEM if and only if the buffer is too small, otherwise sizes, data and zeros |
| `JtagHost.Host.Request` | src/backend_jtag/sw/backend_jtag.c:827-834 | growing the buffer ends with the request for the front of the write buffer |
| `JtagHost.Host.ParseResp` | src/backend_jtag/sw/backend_jtag.c:1011-1024 | discards the acknowledged bytes and adds the received ones, each only if the buffer allows it |
| `JtagHost.Host.AdaptWanted` | src/backend_jtag/sw/backend_jtag.c:848-860 | the wanted length after a good, a poor or a middling transfer, at least the target buffer size and at most MAX_PAYLOAD_WORDS; the bound against 0xFFFF never has an effect of its own |
| `JtagLink.ClockedSpellsWords` | src/backend_jtag/sw/backend_jtag.c:541-564 | the clocks of a scan spell the words of the request on TDI |
| `JtagLink.RequestWords` | src/backend_jtag/sw/backend_jtag.c:981-993 | the header words read back as wr and rd, and wr is not all ones |
| `JtagLink.RequestData` | src/backend_jtag/sw/backend_jtag.c:995-1003 | the data words are the peeked bytes |
| `JtagLink.RequestRest` | src/backend_jtag/sw/backend_jtag.c:972-1009 | behind the data every word of a request is zero |
| `JtagLink.ScanIsTransaction` | src/backend_jtag/sw/backend_jtag.c:541-564 | a whole DR scan of a request, with any idle clocks around it, is one transaction between two idle states; the words taken are those supplied by what waited, what arrived before the shift, and what arrives in it |
| `JtagLink.CountsRead` | src/backend_jtag/sw/backend_jtag.c:1018-1019 | the counts the host reads are those of the transaction, or a zero and the write count if the response overruns |
| `JtagLink.PayloadRead` | src/backend_jtag/sw/backend_jtag.c:1022-1023 | the words the host stores are the words the target gave away |
| `JtagLink.ExactlyOnce` | src/backend_jtag/sw/backend_jtag.c:1011-1024 | host and target agree on what was sent and received if and only if not (0 < rd < wr and the fifo supplies all rd words), a condition on the fifo and the arrivals before the scan; never when that many words were waiting |
| `JtagLink.OverrunHappens` | src/backend_jtag/logic/verilog/glip_jtag_output_fsm.v:201-203 | a target and a transfer whose books do not agree |
| `JtagOpenOcd.CommandIsShifted` | src/backend_jtag/sw/backend_jtag.c:706-781 | what OpenOCD shifts for the command of a request, chopped to words, is the request |
| `JtagOpenOcd.Drscan` | src/backend_jtag/sw/backend_jtag.c:541-564 | the text layer is transparent if and only if the reply comes in steadily: command, OpenOCD, target, reply and decoding give the response of a scan of the request |
| `JtagPoll.DiscoveryScan` | src/backend_jtag/sw/backend_jtag.c:502-522 | discovery learns word width and NUM_WORDS, pushes and takes nothing, and empties the input fifo |
| `JtagPoll.DiscoveryDoesNotReset` | src/backend_jtag/sw/backend_jtag.c:502-522 | at no clock of its shift does discovery reset the logic |
| `JtagPoll.BooksDoNotMatter` | src/backend_jtag/logic/verilog/glip_jtag_toplevel.v:183-234 | the histories kept for the books do not influence the target |
| `JtagPoll.Discover` | src/backend_jtag/sw/backend_jtag.c:502-522 | whatever an earlier session left: the state is that after a scan of the discovery request, its assertions hold, the buffer size is 1 << NUM_WORDS, and a new account begins |
| `JtagPoll.BooksKeepDelivery` | src/backend_jtag/sw/backend_jtag.c:1021-1023 | books that agree extend what was delivered, while the user appends |
| `JtagPoll.TransferBooks` | src/backend_jtag/sw/backend_jtag.c:825-846 | a transfer's books agree if it does not overrun, and fall apart by at least one word if it does; whether it overruns depends on the request, the fifo and the arrivals alone |
| `JtagPoll.TransferMovesSurplus` | src/backend_jtag/sw/backend_jtag.c:1021-1023 | how many words are on the target's side only: unchanged by the first kind, more after the second |
| `JtagPoll.Round` | src/backend_jtag/sw/backend_jtag.c:825-861 | one round, with the user acting at every point, is one scan of one request: its sizes are those both buffers and the wanted length give, its data the next bytes of the write buffer; the target is the scanned one and the books follow the counts of the answer; keeps delivery if the response does not overrun, adds to the words on the target's side only if it does |
| `JtagPoll.LogIsChain` | src/backend_jtag/sw/backend_jtag.c:825-861 | every transfer of a session is such a scan, and begins where the one before it left the target and the host's books: bytes sent, words wanted, bytes received |
| `JtagPoll.RoomRulesOutOverruns` | src/backend_jtag/sw/backend_jtag.c:903-919 | no transfer of a session overruns that found room in the read buffer for as many words as it sends |
| `JtagPoll.PollThread` | src/backend_jtag/sw/backend_jtag.c:802-868 | after discovery and any number of transfers, each one scan of the next request, from where the one before it left target and books, the words accepted by the target are the bytes taken from the write buffer and the words it gave away are the bytes put into the read buffer, if and only if no response overran; it stops early only at a reply that does not come in steadily |
| `JtagDrscan.DigitRoundTrip` | src/backend_jtag/sw/backend_jtag.c:679-692 | a printed digit of either case is read back |
| `JtagDrscan.HexByteRoundTrip` | src/backend_jtag/sw/backend_jtag.c:679-692 | so is a byte |
| `JtagDrscan.HexstringToBinarrayLe` | src/backend_jtag/sw/backend_jtag.c:662-671 | the loop decodes a field, last byte first |
| `JtagDrscan.FieldRoundTrip` | src/backend_jtag/sw/backend_jtag.c:662-692 | a field printed most significant byte first is decoded to its bytes |
| `JtagDrscan.CmdBuf.Append` | src/backend_jtag/sw/backend_jtag.c:795-800 | appends to the text under the condition the source asserts |
| `JtagDrscan.FieldsTextLength` | src/backend_jtag/sw/backend_jtag.c:741-762 | at most 14 characters for each started group of four bytes |
| `JtagDrscan.RequestTextFits` | src/backend_jtag/sw/backend_jtag.c:712-715 | the command of every request the host builds fits its buffer and OpenOCD's line |
| `JtagDrscan.DrscanWrite` | src/backend_jtag/sw/backend_jtag.c:706-781 | the loops print the command; no append assertion fires and no line is too long |
| `JtagDrscan.DecimalRoundTrip` | src/backend_jtag/sw/backend_jtag.c:744 | the field sizes are read back from their decimal text |
| `JtagDrscan.FieldIsRead` | src/backend_jtag/sw/backend_jtag.c:742-760 | a reader of drscan commands finds one field of the right size and number, whatever follows |
| `JtagDrscan.NumberBits` | src/backend_jtag/sw/backend_jtag.c:749-756 | shifting that number least significant bit first is shifting the field's bytes in order |
| `JtagDrscan.CommandShiftsRequest` | src/backend_jtag/sw/backend_jtag.c:706-781 | reading the printed command and shifting its fields puts exactly the words of the request on the wire, bit by bit |
| `JtagReceive.NextRead` | src/backend_jtag/sw/backend_jtag.c:602-646 | whether reads stay steady with one more |
| `JtagReceive.ScanRead` | src/backend_jtag/sw/backend_jtag.c:621-640 | the loop over one read decodes every field that ends in it; no assertion fires |
| `JtagReceive.DrscanRead` | src/backend_jtag/sw/backend_jtag.c:579-651 | a reply that comes in in pieces of any size is decoded if and only if, after the first field has ended, every read that the arrivals and the buffer give brings the end of a field |
| `JtagReceive.UnsteadyReply` | src/backend_jtag/sw/backend_jtag.c:642-645 | a reply and arrivals whose reads are computed and are not of that kind |
| `JtagReceive.ReadUnsteadyReply` | src/backend_jtag/sw/backend_jtag.c:579-651 | the code fails on that reply |
| `JtagReceive.WholeReplyIsSteady` | src/backend_jtag/sw/backend_jtag.c:579-651 | a reply that fits the first buffer and is there as a whole at the first read is always decoded |
| `JtagDrscan.ReplyRoundTrip` | src/backend_jtag/sw/backend_jtag.c:612-637 | decoding OpenOCD's answer gives back the bytes that were scanned, for digits of either case |
| `TcpWords.NextByte` | src/backend_tcp/logic/dpi/GlipTcp.cpp:83-84 | the OR with the shifted byte adds the byte to the item |
| `TcpWords.ItemIsBigEndian` | src/backend_tcp/logic/dpi/GlipTcp.cpp:81-90 | a complete item is the big-endian number of its bytes if and only if it has fewer than four bytes or its first byte is below 0x80; its low 32 bits always are |
| `TcpWords.SplitAt` | src/backend_tcp/logic/dpi/GlipTcp.cpp:108 | shift and mask give the byte of the big-endian expansion |
| `TcpWords.SplitOfBigEndian` | src/backend_tcp/logic/dpi/GlipTcp.cpp:81-121 | splitting inverts assembling |
| `TcpWords.BigEndianOfSplit` | src/backend_tcp/logic/dpi/GlipTcp.cpp:81-121 | assembling inverts splitting, for words that fit |
| `TcpWords.ExpandOfGroup` | src/backend_tcp/logic/dpi/GlipTcp.cpp:81-121 | sending back the words read gives the bytes that arrived, for every width up to four |
| `TcpWords.GroupOfExpand` | src/backend_tcp/logic/dpi/GlipTcp.cpp:81-121 | reading the bytes of words gives the words, if no four-byte word has its top bit set |
| `GlipTcp.GlipTcp.constructor` | src/backend_tcp/logic/dpi/GlipTcp.cpp:15-31 | for every width up to 64 bits: nothing has arrived or been sent |
| `GlipTcp.GlipTcp.Reset` | src/backend_tcp/logic/dpi/GlipTcp.cpp:33-53 | everything on its way is dropped |
| `GlipTcp.GlipTcp.AssembleControl` | src/backend_tcp/logic/dpi/GlipTcp.cpp:63-73 | bytes move from the control queue to its item in order; the item is complete if enough were there |
| `GlipTcp.GlipTcp.AssembleRead` | src/backend_tcp/logic/dpi/GlipTcp.cpp:81-87 | bytes move from the queue to the item in order; the item is complete if enough were there |
| `GlipTcp.GlipTcp.SendWrite` | src/backend_tcp/logic/dpi/GlipTcp.cpp:105-114 | bytes move from the item to the queue in order; all of them if there was room |
| `GlipTcp.GlipTcp.NextCycle` | src/backend_tcp/logic/dpi/GlipTcp.cpp:55-124 | the state bits say which items are complete or gone, and each is as soon as its bytes or its room are there; nothing is lost or reordered, control bytes included, however often it stalls; what was delivered and what was read stays so |
| `GlipTcp.GlipTcp.ReadData` | src/backend_tcp/logic/dpi/GlipTcp.cpp:133-136 | for words of up to four bytes, the big-endian value of the next whole word, exactly when the item is |
| `GlipTcp.GlipTcp.ReadAck` | src/backend_tcp/logic/dpi/GlipTcp.cpp:138-142 | that word counts as read, its bytes with it, and the next one starts |
| `GlipTcp.GlipTcp.WriteData` | src/backend_tcp/logic/dpi/GlipTcp.cpp:144-150 | the word counts as written |
| `GlipTcp.GlipTcp.ControlMsg` | src/backend_tcp/logic/dpi/GlipTcp.cpp:126-131 | returns the bits of all messages so far, whose bytes are a front of those that came in |
| `GlipTcp.GlipTcp.StreamsAreFaithful` | src/backend_tcp/logic/dpi/GlipTcp.cpp:55-150 | in every state, words read of up to four bytes are the grouping of a front of the input, for every width bytes sent are a front of the expansion of the words written, and the control value is that of a front of the control bytes that came in |
| `GlipTcp.ControlMessageIsExact` | src/backend_tcp/logic/dpi/GlipTcp.cpp:65-131 | a control message is handed over as sent if and only if it repeats every earlier bit |
| `GlipTcp.ControlBits` | src/backend_tcp/logic/dpi/GlipTcp.cpp:65-73 | after any control stream the item holds exactly the bits that some byte of it carries |
| `GlipTcp.LogicResetIsSeen` | src/backend_tcp/logic/dpi/GlipTcp.cpp:65-131 | the logic sees a reset if and only if the second byte of some message has its bit 0 set |
| `GlipTcp.LittleEndianResetIsSeen` | src/backend_tcp/sw/backend_tcp.c:387-402 | for messages of a little-endian host, if and only if some message has bit 8 set |
| `GlipTcp.LogicResetArrivesSwapped` | src/backend_tcp/sw/backend_tcp.c:387-402 | none of its reset requests is seen, however many; the first one arrives as 0x100 |

## Left out

- Memory is sequentially consistent and allocation succeeds; buffer sizes are at most 2^30, so that the `int` helpers `min` and `max`, `1 <<` and the size computations do not overflow.
- CbufUtil.Read: takes each level as one atomic read, so the -1 that a spurious level can cause in the source does not occur.
- CbufUtil.ReadB: takes each level as one atomic read, and observes at most `polls` waits; a timeout or another failure of the wait may come at any of them. With the two loads of `cbuf_fill_level` apart, the call may also fail spuriously, as `CbufThreads` shows.
- CbufUtil.WriteB: the same; no claim is made about when a wait ends, in particular not about the wait that passes 0 where a level is expected (src/util.c:440-445).
- The mutex, the condition variable, waiting and cancellation in the circular buffer, and `cbuf_free`.
- CbufThreads.CompletedCalls: the copy to and from the temporary buffers in API mode is not a step of its own; the class `Cbuf` models it.
- UartHost.Host.ParseBuffer: the loop that waits for credit at a marker ends only if the user reads; `patience` bounds how long it is observed, and `stuck` says that it still waits.
- UartHost.Host.Round: the host's two buffers are sequences here; `Cbuf` proves that the circular buffer behaves like one. A message of several bytes is put on the wire in one step.
- UartSystem.EndToEnd: starts from a fresh context. `credit` is not cleared when the same context is opened again; baud rate detection, the trash byte after reset and the draining of the device are not modelled. The logic side is a peer that follows the protocol description; its Verilog is not part of this model.
- JtagTarget.Transaction: the TAP of IEEE Std 1149.1 is not modelled, only its use: Capture-DR, a contiguous shift, Update-DR, and clocks that do none of these. The fifo between the clock domains on the output side and the logic are queues; on the input side whether the fifo behind takes a word is chosen freely at every clock.
- JtagLink.ExactlyOnce: two-byte words only; hosts with little-endian byte order.
- JtagPoll.PollThread: NUM_WORDS at most 30, beyond which the source's shift is not defined. Where a reply that does not come in steadily makes the run undefined, the account ends before that transfer.
- JtagHost.Host.AdaptWanted: the factors 0.9, 0.5, 1.5 and 0.3 are exact fractions, not doubles; what is delivered does not depend on the result.
- JtagReceive.DrscanRead: where positions wrap the run is taken as undefined and followed no further; a closed connection and read errors are left out.
- JtagOpenOcd.Drscan: OpenOCD's command syntax and answer format are as its documentation describes them: decimal size, hexadecimal value, fields shifted least significant bit first.
- JtagHost.Host.ParseResp: a response whose read count reaches beyond its end is excluded, since what the source then copies is memory that is not part of the response; the transaction lemmas show that no target sends one.
- JtagTarget.ConfigTransaction: the fifos between the clock domains, which the reset pulse empties as well, are outside; what the logic has not taken from them is lost too.
- JTAG errors and control: `err` paths of the socket, starting and stopping OpenOCD, and a logic reset requested while transfers go on, which drops words as said above.
- GlipTcp.GlipTcp.AssembleRead: the value of words of more than four bytes, whose first bytes the source shifts by 32 or more in an int; it is left open.
- GlipTcp.GlipTcp.NextCycle: sockets and the body of the socket's thread, which is any sequence of arrivals and removals; a reset while a cycle is under way.
- GlipTcp.GlipTcp.ReadData: the value seen by the logic is the low WIDTH bits; the DPI wrapper that cuts them out is not modelled.
- The FX2 and FX3 backends, the SystemC model, the tools, option parsing and logging: plumbing around the same buffers, or logic that depends on the flag timing of a chip that is not described here.
