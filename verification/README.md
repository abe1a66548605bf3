# SCHC fragmentation and compression: a Dafny model

The repository implements Static Context Header Compression and fragmentation (RFC 8724, RFC 9011, RFC 9441)
together with its own ARQ-FEC fragmentation mode. This project models its protocol core and proves what that core
is for:

- **ARQ-FEC** (`FragmentationSCHC/src/schcArqFec`): a packet becomes a 10 x k matrix, its rows are erasure-coded to
  n symbols, the columns travel as 10-byte tiles, and any k of them rebuild the packet. `ArqFecSession` joins sender
  and receiver by channels that lose, reorder and duplicate, proves session safety over every run that does not
  duplicate an All-1 nobody asked for, and says exactly when such a duplicate does harm; `ArqFecRepairs` says when
  the receiver has counted enough and what one loss-free repair round achieves; `ArqFecIntegrity` says what a
  receiver may hand over whatever arrives; `FecMatrix` proves the reconstruction.
- **ACK-on-Error** (`FragmentationSCHC/src/schcAckOnError`) in its session and compound modes: tiles, windows,
  bitmaps, acknowledgements and the retransmission loop. `AckOnErrorSession` proves reassembly safety and agreement
  over every run of channels that lose, reorder and repeat; `AckOnErrorRuns` says exactly which settings have runs
  that leave a buffer or refuse a complete packet; `AckOnErrorReceipts` states every reaction of the receiver;
  `AckOnErrorRepairs` extends any run by one loss-free repair round that finishes a compound session, and says
  exactly what is resent in session mode; `AckOnErrorRounds` extends session-mode runs by rounds to the end.
- **The RCS**: the CRC-32 of the source is tied to polynomial division over GF(2), which is defined on its own
  (`RcsDivision`), and to the published check value (`RcsCheckValue`).
- **The wire codec** (`FragmentationSCHC/src/SCHCMessage.cpp`): the builders, the classification and the decoder,
  on real byte strings. Both sessions exchange these bytes; nothing is abstracted away between them.
- **The compressor** (`CompressionSCHC/src`): the bit writer, the rule-search automaton, matching operators and
  residues and packets with a decompressor after section 7.4 of RFC 8724, bit-field extraction and base64.

## How it is built

State is modelled as in the source: a class per object whose fields the source updates (`Sender`, `Receiver`,
`SchcMessage`, `BitWriter`, `Machine`), with the source's loops. Every such method is proved equal to a function on
a context value (`Ctx`), and runs, invariants and theorems speak about these functions. An access outside a buffer,
which the source leaves undefined, leads to a state `Fault`; the session theorems say when that state is reachable.

Modules, bottom up: `Bytes` (bits, packing, concatenation), `Rcs` (the CRC-32), `RcsDivision`, `RcsCheckValue`,
`Message` (formats as functions) and `MessageCodec` (their loops), `Tiling`, `Numbering`, `Retransmission`,
`WindowBitmaps`, `FecMatrix`; `ArqFecReceiver`, `ArqFecSender`, `ArqFecSession`, `ArqFecRepairs`, `ArqFecIntegrity`;
`AckOnErrorReceiver`, `AckOnErrorSender`, `AckOnErrorSession`, `AckOnErrorRuns`, `AckOnErrorReceipts`,
`AckOnErrorRepairs`, `AckOnErrorRounds`; `BitWriting`, `BitFields`, `Base64`, `Base64Groups`, `Rules`, `RuleSearch`,
`Residues`, `Decompression`.

Assumptions, all stated as `Admissible` or `Recovers` where they are used:

- ARQ-FEC: a packet of at least ten bytes, at most 252 symbols in a row, room for one tile in a frame, the same
  overhead on both sides. libcorrect is an encoder/decoder pair with one hypothesis: up to r erasures of a row, given
  as an increasing list of positions, are recovered (`FecMatrix.SomeCodeRecovers` shows that such codes exist).
- ACK-on-Error: a packet of 1 to 2520 bytes, frames of 1 to 63 tiles. What the receiver's RCS register holds before
  the All-1 is arbitrary.
- `get_msg_type` leaves its result uninitialised on a message none of its branches covers. The one such message the
  senders emit is the bare header of a packet of at most ten bytes, which has no full tile; the receivers are taken
  to ignore it.
- One event at a time per session.

## Where the code differs from its documentation or intent

The model follows the code. The following is proved of it or visible in it.

- The All-1 is sent only if the last fragment *starts* in the last window; otherwise the sender waits without having
  sent it (`ArqFecSender.TransmissionIsPlan`, `AckOnErrorSender.TransmissionExact`).
- ARQ-FEC's INIT sends at most 63 tiles and then waits if they fit one frame, even when there are more windows;
  transmission is complete exactly when that does not happen (`ArqFecSender.TransmissionExactly`).
- ARQ-FEC is unsafe over a channel that duplicates, in exactly one way: an All-1 that closes the transmission of its
  own accord and comes first ends the receiver with nothing delivered, and a copy of it is then acknowledged with
  ACK(3,1). Whether a setting has such a run is decided by packet length, overhead and frame size
  (`ArqFecSession.DuplicationBreaksSafety`, `ArqFecSession.ClosesItselfInNumbers`). Duplicates of everything else,
  and of an All-1 sent in answer to ACK(1,1), do no harm (`ArqFecSession.SessionSafety`).
- In ARQ-FEC a compound ACK for a single window is nine bytes and is typed as a plain ACK, which
  `WAIT_X_SESSION_ACK` ignores (`ArqFecSession.ReportTaken`); and when n is a multiple of 63 the All-1's flag is a
  regular tile's, which is then never resent. A loss-free repair round finishes the session exactly when that tile
  is not needed (`ArqFecRepairs.RepairRound`). The sender never starts its retransmission timer, so a report that is
  lost is not asked for again.
- In ARQ-FEC, INIT stores the first fragment without counting symbols: when that fragment alone carries k tiles, the
  receiver stays in RCV_WINDOW until the next message (`ArqFecRepairs.WaitsForAllOneExactly`).
- In ACK-on-Error's repair phase a fragment that runs over the end of its window writes outside the bitmap row. That
  is the only way to leave a buffer (`AckOnErrorSession.OnlyLateFragmentsFault`). Such a fragment is always one of
  the first transmission that comes late (`AckOnErrorRuns.SpanningIsPlanned`, `AckOnErrorRuns.ResendNeverSpans`), and
  a setting has a run in which it does exactly when there is more than one window and the tiles of a frame do not
  divide 63 (`AckOnErrorRuns.FaultsInNumbers`).
- An All-1 that completes the packet in the repair phase ends the receiver, but is answered with C = 0 unless the
  last window is full (`AckOnErrorSession.LateAllOneAnswer`); the sender then never ends
  (`AckOnErrorRuns.RefusesInNumbers`, `AckOnErrorRuns.RefusedForGood`).
- In session mode `decodeMsg` appends a NACK's bits behind the 63 flags, and RESEND only looks at those 63
  (`Message.NegativeAckAppends`, `AckOnErrorSender.SessionNackIgnored`): the first NACK about a window resends all of
  it, later ones nothing (`AckOnErrorRepairs.SessionRepairExactly`). So a session finishes if nothing resent is lost
  (`AckOnErrorRounds.SessionFinishes`), and a window whose repair is lost is not repaired again
  (`AckOnErrorRounds.SessionRound`).
- A NACK whose last 0 ends on an octet carries one octet of ones more than it needs (`Message.CompressionShortens`).
- Values lie right-aligned in their bytes but are written and split as if left-aligned. VALUE_SENT recovers exactly
  the values that fill their bytes or are zero; LSB exactly those that fill their bytes or have zeros in their first
  `msbLength` bits, and have nothing but zeros between those and their last sixteen; mappings work exactly for the
  first 128 targets. The four-bit IPv6 version does not survive VALUE_SENT, nor a flow label such as 0x10000 LSB
  (`Residues.ValueSentExactly`, `Residues.LsbExactly`, `Residues.MappingExactly`, `Residues.VersionIsLost`,
  `Residues.FlowLabelIsLost`).
- The compressor never compares the length an entry gives with the field's; the decompressor relies on them being
  the same.
- The output step fails exactly when a payload follows a rule identifier and residue that do not end on a byte
  (`Residues.StGen`).
- The ACK-on-Error receiver decodes as the device side of LoRaWAN; the model decodes as the gateway side, without
  which it would read fragments as acknowledgements. `_nWindows` and `_last_window` are never initialised in the
  receivers: 4 and 0 are taken. `w` is unset at lines 382 and 624 of the ACK-on-Error `RCV_WINDOW` file: the last
  window is taken, as ARQ-FEC does.

## Model

| member | source | states |
|---|---|---|
| `ArqFecSession.SessionSafety` | FragmentationSCHC/src/schcArqFec/SCHCArqFecSender_WAIT_X_SESSION_ACK.cpp:15-145 | in every run over channels that lose, reorder and duplicate frames and answers, all but an All-1 nobody asked for: at most one packet is delivered, it is the sender's, the sender reaches END only after that delivery, and neither side accesses anything outside its buffers |
| `ArqFecSession.ReceiverStates` | FragmentationSCHC/src/schcArqFec/SCHCArqFecReceiver_WAIT_X_MISSING_FRAGS.cpp:121-228 | in every such run: WAIT_X_ALL1 means enough symbols; WAIT_X_MISSING means not enough, with last tile and RCS already the sender's; every marked symbol is the sender's |
| `ArqFecSession.StepKeepsInvariant` | FragmentationSCHC/src/schcArqFec/SCHCArqFecReceiver_RCV_WINDOW.cpp:143-237 | every event (start, execution, arrival, loss, duplication) keeps the session invariant: an All-1 nobody asked for exists once and is gone when the receiver repairs or has ended, one that was asked for finds enough symbols or a receiver that has delivered, ACK(3,1) only after delivery |
| `ArqFecSession.DuplicationBreaksSafety` | FragmentationSCHC/src/schcArqFec/SCHCArqFecReceiver_INIT.cpp:54-62 | for every admissible setting: some run with duplication lets the sender end with nothing delivered if and only if the transmission closes itself with an All-1; then two copies of it that come first make the receiver end empty-handed and acknowledge |
| `ArqFecSession.ClosesItselfInNumbers` | FragmentationSCHC/src/schcArqFec/SCHCArqFecSender_SEND.cpp:210-228 | that condition in numbers: one window, or a frame holds under a window and the last multiple of its tiles below n lies in the last window |
| `ArqFecSession.ClosingExactly` | FragmentationSCHC/src/schcArqFec/SCHCArqFecSender_INIT.cpp:92-223 | the last planned fragment of INIT and SEND starts in the last window exactly under that condition |
| `ArqFecSession.FragmentsFitMtu` | FragmentationSCHC/src/schcArqFec/SCHCArqFecSender_SEND.cpp:105-120 | in every such run no regular fragment is longer than the MTU |
| `ArqFecSession.ReceivesFragment` | FragmentationSCHC/src/schcArqFec/SCHCArqFecReceiver_RCV_WINDOW.cpp:29-142 | a fragment in each receiver state, in terms of the distinct tiles received: INIT takes its tiles; RCV_WINDOW takes them and goes to WAIT_X_ALL1 with exactly ACK(1,1) if and only if the tiles, this fragment's included, number k or more, and otherwise stays without reply; WAIT_X_MISSING likewise delivers the packet with ACK(3,1) and ends, or stays silent; the other states ignore it |
| `ArqFecSession.ReceivesAllOne` | FragmentationSCHC/src/schcArqFec/SCHCArqFecReceiver_WAIT_X_ALL_1.cpp:53-154 | the All-1 in each state: ends the session without delivery in INIT, is ignored in WAIT_X_MISSING, acknowledged again in END; in the other two it delivers the packet when k distinct tiles are there, and is otherwise answered with exactly the report of the new context, which waits for missing fragments |
| `ArqFecSession.ReceivesAckRequest` | FragmentationSCHC/src/schcArqFec/SCHCArqFecReceiver_WAIT_X_MISSING_FRAGS.cpp:178-228 | an ACK request in each state: ends the session in INIT; in the repair phase it is answered with exactly the receiver's report and changes nothing; is ignored elsewhere |
| `ArqFecSession.ConcludesWithPacket` | FragmentationSCHC/src/schcArqFec/SCHCArqFecReceiver_RCV_WINDOW.cpp:165-204 | enough symbols and the All-1's contents make the RCS check pass: ACK(3,1), the sender's packet delivered, END |
| `ArqFecSession.SenderStarts` | FragmentationSCHC/src/schcArqFec/SCHCArqFecSender_INIT.cpp:78-223 | INIT sends a well-numbered fragment, and an All-1 only when the transmission closes itself there |
| `ArqFecSession.SenderSends` | FragmentationSCHC/src/schcArqFec/SCHCArqFecSender_SEND.cpp:94-263 | SEND keeps tile pointer = 63 W + 62 - FCN with W inside the session; fragments are cut where their number says; an All-1 only with the last one, and only when the transmission closes itself |
| `ArqFecSession.SenderResends` | FragmentationSCHC/src/schcArqFec/SCHCArqFecSender_RESEND_MISSING_FRAGS.cpp:106-291 | RESEND emits only fragments of the session and, at the end, an ACK request; it never sends an All-1 |
| `ArqFecSession.SenderReceives` | FragmentationSCHC/src/schcArqFec/SCHCArqFecSender_SEND.cpp:19-91 | every answer in every state: ACK(1,1) in SEND makes it emit exactly the All-1 with the packet's RCS and residue and wait; ACK(3,1) ends a sender that waits or resends; a compound ACK makes a waiting sender resend what it decodes to; nothing else changes anything |
| `ArqFecSession.ReportTaken` | FragmentationSCHC/src/schcArqFec/SCHCArqFecSender_WAIT_X_SESSION_ACK.cpp:112-131 | the receiver's report at a waiting sender: with two windows or more it enters RESEND with exactly the windows reported and the receiver's flags for them; with one window, typed as a plain ACK, it changes nothing |
| `ArqFecSender.ResendAllIsRun` | FragmentationSCHC/src/schcArqFec/SCHCArqFecSender_RESEND_MISSING_FRAGS.cpp:106-291 | repeated executions of RESEND emit the fragments of one whole repair, then one ACK request, and return to WAIT_X_SESSION_ACK with an empty list |
| `ArqFecRepairs.WaitsForAllOneExactly` | FragmentationSCHC/src/schcArqFec/SCHCArqFecReceiver_RCV_WINDOW.cpp:121-140 | in every run: a receiver that has begun and not ended waits for the All-1 exactly when k distinct tiles have arrived in more than one fragment (INIT does not count); one that waits for missing fragments got fewer; its flags are those of the tiles that arrived |
| `ArqFecRepairs.EarlyEnd` | FragmentationSCHC/src/schcArqFec/SCHCArqFecSender_SEND.cpp:19-91 | any run in which ACK(1,1) is under way to a sender still in SEND extends to one in which the sender stops sending, answers with the All-1, the packet is delivered and the sender ends |
| `ArqFecRepairs.RepairRound` | FragmentationSCHC/src/schcArqFec/SCHCArqFecSender_RESEND_MISSING_FRAGS.cpp:106-291 | one loss-free repair round, as an extension of any run in which both wait and a report of two windows or more is under way: it arrives and RESEND runs until the sender waits; when the fragments emitted have arrived, in any order, the receiver has ended, with the packet delivered, if and only if there is a parity symbol, or the tile in the All-1's position does not exist or had arrived; then its answer ends the sender |
| `ArqFecRepairs.RepairCarries` | FragmentationSCHC/src/schcArqFec/SCHCArqFecReceiver_RCV_WINDOW.cpp:206-232 | those fragments carry exactly the tiles the receiver misses, but for one in the All-1's position |
| `ArqFecIntegrity.OnlyAnnouncedPackets` | FragmentationSCHC/src/schcArqFec/SCHCArqFecReceiver_RCV_WINDOW.cpp:161-204 | whatever messages arrive, corrupted, foreign and forged ones included: at most one packet is handed over, and only one whose RCS came in an All-1 |
| `ArqFecIntegrity.ConcludesExactly` | FragmentationSCHC/src/schcArqFec/SCHCArqFecReceiver_RCV_WINDOW.cpp:165-204 | what is put together is handed over, with ACK(3,1) and END, exactly when its RCS is the one stored; otherwise nothing is said and the given state follows |
| `ArqFecIntegrity.LeavesBuffersExactly` | FragmentationSCHC/src/schcArqFec/SCHCArqFecReceiver_RCV_WINDOW.cpp:29-142 | for any context and message: the receiver leaves its buffers exactly on an All-1 too short for an RCS where one is read, or on a fragment whose tiles do not fit where fragments are read; INIT takes k off before it counts tiles, the other states do not |
| `ArqFecSession.ReportIsReport` | FragmentationSCHC/src/schcArqFec/SCHCArqFecReceiver_RCV_WINDOW.cpp:206-232 | the compound ACK of a receiver decodes at any sender of the session, names windows of the session and keeps the shape of its bitmaps |
| `FecMatrix.Reconstruction` | FragmentationSCHC/src/schcArqFec/SCHCArqFecReceiver_RCV_WINDOW.cpp:314-402 | when the check for enough symbols passes, every row has at most r erasures, and decoding, flattening and appending the last tile give exactly the packet |
| `FecMatrix.AnyKOfN` | FragmentationSCHC/src/schcArqFec/SCHCArqFecReceiver_RCV_WINDOW.cpp:74-98 | for any sequence of stored runs of tiles, in any order and repetition: the check passes exactly when k distinct tiles arrived, and then the packet is rebuilt |
| `FecMatrix.StoringKeepsFaithful` | FragmentationSCHC/src/schcArqFec/SCHCArqFecReceiver_RCV_WINDOW.cpp:280-294 | storing tiles cut from the sender's matrix keeps every marked symbol equal to the sender's: column = tile number |
| `FecMatrix.DecodedRowsRight` | FragmentationSCHC/src/schcArqFec/SCHCArqFecReceiver_RCV_WINDOW.cpp:327-381 | row-wise decoding restores the data matrix |
| `FecMatrix.ErasuresExact` | FragmentationSCHC/src/schcArqFec/SCHCArqFecReceiver_RCV_WINDOW.cpp:338-345 | the erasure list holds exactly the columns not received, in increasing order; received and erased columns add up to n |
| `FecMatrix.FlattenedPacket` | FragmentationSCHC/src/schcArqFec/SCHCArqFecSender_INIT.cpp:336-383 | the data matrix, flattened row by row, and the residual bytes are the packet |
| `FecMatrix.ColumnIsTile` | FragmentationSCHC/src/schcArqFec/SCHCArqFecSender_INIT.cpp:436-473 | tile t of the serialised matrix is column t |
| `FecMatrix.SomeCodeRecovers` | FragmentationSCHC/src/schcArqFec/SCHCArqFecSender_INIT.cpp:385-416 | the hypothesis on the erasure code is satisfiable: by a checksum for rows of any length with one parity symbol, by repetition for single symbols with any number of them |
| `ArqFecReceiver.Receiver.Execute` | FragmentationSCHC/src/schcArqFec/SCHCArqFecReceiver.cpp:131-189 | one message: new fields, answers and deliveries are those of the context function `Receive` the session theorems speak about |
| `ArqFecReceiver.Receiver.ExecuteInit` | FragmentationSCHC/src/schcArqFec/SCHCArqFecReceiver_INIT.cpp:40-173 | INIT learns k, sizes the matrices, stores the first fragment; any other message ends the session |
| `ArqFecReceiver.Receiver.StoreTiles` | FragmentationSCHC/src/schcArqFec/SCHCArqFecReceiver_RCV_WINDOW.cpp:74-98 | the loop over tiles equals overwriting whole columns and setting the flags of consecutive tiles, across a window boundary too |
| `ArqFecReceiver.Receiver.StoreTileInMatrix` | FragmentationSCHC/src/schcArqFec/SCHCArqFecReceiver_RCV_WINDOW.cpp:280-294 | writes one tile into column 63 (w + 1) - fcn - 1 and marks it, every other cell unchanged |
| `ArqFecReceiver.Receiver.CheckEnoughSymbols` | FragmentationSCHC/src/schcArqFec/SCHCArqFecReceiver_RCV_WINDOW.cpp:314-325 | true exactly when every row of the map sums to k or more |
| `ArqFecReceiver.Receiver.DecodeMatrix` | FragmentationSCHC/src/schcArqFec/SCHCArqFecReceiver_RCV_WINDOW.cpp:327-381 | decodes row by row, giving up at the first row with too many erasures or a decoder failure |
| `ArqFecReceiver.Receiver.FlattenMatrix` | FragmentationSCHC/src/schcArqFec/SCHCArqFecReceiver_RCV_WINDOW.cpp:383-402 | the rows one after the other |
| `ArqFecReceiver.Receiver.CheckIntegrity` | FragmentationSCHC/src/schcArqFec/SCHCArqFecReceiver_RCV_WINDOW.cpp:165-204 | decodes, compares the RCS, and on a match delivers, acknowledges and ends; otherwise goes to the given state |
| `ArqFecReceiver.Receiver.AcceptFragment` | FragmentationSCHC/src/schcArqFec/SCHCArqFecReceiver_WAIT_X_MISSING_FRAGS.cpp:51-112 | a later fragment: last window, k, tiles, flags, with out-of-buffer accesses made explicit |
| `ArqFecReceiver.Receiver.AcceptAllOne` | FragmentationSCHC/src/schcArqFec/SCHCArqFecReceiver_WAIT_X_ALL_1.cpp:53-148 | the All-1: last tile, window, RCS and flag taken over, then delivery or report |
| `ArqFecSender.Sender.Begin` | FragmentationSCHC/src/schcArqFec/SCHCArqFecSender_INIT.cpp:17-223 | INIT as a whole: context and frames are those of `Start` |
| `ArqFecSender.Sender.GenerateDataMatrix` | FragmentationSCHC/src/schcArqFec/SCHCArqFecSender_INIT.cpp:336-383 | rows of k consecutive bytes; the remaining bytes as bits |
| `ArqFecSender.Sender.GenerateEncodedMatrix` | FragmentationSCHC/src/schcArqFec/SCHCArqFecSender_INIT.cpp:385-416 | every row encoded |
| `ArqFecSender.Sender.Serialise` | FragmentationSCHC/src/schcArqFec/SCHCArqFecSender_INIT.cpp:436-473 | the matrix column by column |
| `ArqFecSender.Sender.DivideInTiles` | FragmentationSCHC/src/schcArqFec/SCHCArqFecSender_INIT.cpp:243-308 | ten-byte tiles, the packed residual bits as last tile, and the number of windows |
| `ArqFecSender.Sender.SendTiles` | FragmentationSCHC/src/schcArqFec/SCHCArqFecSender_SEND.cpp:94-263 | one execution of SEND equals `SendNext`, with the 8-bit counters written out |
| `ArqFecSender.Sender.ResendTiles` | FragmentationSCHC/src/schcArqFec/SCHCArqFecSender_RESEND_MISSING_FRAGS.cpp:106-291 | one execution of RESEND equals `ResendNext` |
| `ArqFecSender.Sender.OnMessage` | FragmentationSCHC/src/schcArqFec/SCHCArqFecSender_WAIT_X_SESSION_ACK.cpp:15-145 | one message, in SEND, WAIT_X_SESSION_ACK and RESEND, equals `Receive` |
| `ArqFecSender.TransmissionExactly` | FragmentationSCHC/src/schcArqFec/SCHCArqFecSender_INIT.cpp:92-223 | the fragments of INIT and SEND partition the tiles in order exactly when the packet takes one window or a frame holds less than a window; then each is numbered after its first tile |
| `ArqFecSender.TransmissionIsPlan` | FragmentationSCHC/src/schcArqFec/SCHCArqFecSender_SEND.cpp:104-263 | the frames emitted are the planned fragments, followed by the All-1 exactly when the last fragment starts in the last window |
| `Numbering.SendPlanExact` | FragmentationSCHC/src/schcArqFec/SCHCArqFecSender_SEND.cpp:104-207 | fragments partition [start, nFullTiles) in order; FCN stays in 0..62, W in 0..3, no fragment has more tiles than a frame, `get_tile_ptr` maps each back to its first tile |
| `Numbering.AdvanceExact` | FragmentationSCHC/src/schcAckOnError/SCHCAckOnErrorSender_SEND.cpp:169-180 | the counter update keeps the numbering exactly when the fragment has at most FCN + 63 tiles |
| `Numbering.OverExactly` | FragmentationSCHC/src/schcAckOnError/SCHCAckOnErrorSender_SEND.cpp:169-180 | a plan has a fragment that runs over its window exactly when there are more than 63 tiles and a frame's tiles do not divide 63 |
| `Numbering.LastPieceStarts` | FragmentationSCHC/src/schcAckOnError/SCHCAckOnErrorSender_SEND.cpp:182-208 | the last fragment starts at the last multiple of a frame's tiles |
| `Numbering.ReceiverFindsTile` | FragmentationSCHC/src/schcArqFec/SCHCArqFecReceiver_RCV_WINDOW.cpp:254-278 | the receiver's tile and bitmap pointers invert the sender's numbering |
| `Retransmission.RunExact` | FragmentationSCHC/src/schcAckOnError/SCHCAckOnErrorSender_RESEND_MISSING_FRAG.cpp:278-388 | the loop sends each tile marked 0 below the last pointer of a reported window exactly once and no other tile; no fragment spans windows or exceeds the frame |
| `Retransmission.RunAloneExact` | FragmentationSCHC/src/schcAckOnError/SCHCAckOnErrorSender_RESEND_MISSING_FRAG.cpp:184-276 | the same without a list: each tile of the current window marked 0 is sent exactly once and no other; afterwards the window's flags are set and all else is as before |
| `Retransmission.ResendDecreases` | FragmentationSCHC/src/schcArqFec/SCHCArqFecSender_RESEND_MISSING_FRAGS.cpp:242-290 | every execution shortens the list of windows or removes zeros from the current one, and never gets stuck |
| `Retransmission.EmittedOnce` | FragmentationSCHC/src/schcArqFec/SCHCArqFecSender_RESEND_MISSING_FRAGS.cpp:193-240 | one execution: a tile sent was wanted and is not wanted afterwards; every other tile is wanted as before |
| `Retransmission.EmittedLongest` | FragmentationSCHC/src/schcAckOnError/SCHCAckOnErrorSender_RESEND_MISSING_FRAG.cpp:299-352 | one execution sends a fragment exactly when a tile of its window is missing, from the first missing tile on, cut short only by the frame, the window's end or a tile that is not missing |
| `Retransmission.FindGap` | FragmentationSCHC/src/schcAckOnError/SCHCAckOnErrorSender_RESEND_MISSING_FRAG.cpp:299-313 | the search loop finds the first missing tile, -1 if none, and the length of its run |
| `Retransmission.MarkSent` | FragmentationSCHC/src/schcAckOnError/SCHCAckOnErrorSender_RESEND_MISSING_FRAG.cpp:347-351 | sets exactly the flags of the tiles sent |
| `Retransmission.AnyMissing` | FragmentationSCHC/src/schcAckOnError/SCHCAckOnErrorSender_RESEND_MISSING_FRAG.cpp:354-365 | true exactly when a flag below the last pointer is 0 |
| `Tiling.TilingExact` | FragmentationSCHC/src/schcAckOnError/SCHCAckOnErrorSender_INIT.cpp:32-33 | for packets of 1 to 2520 bytes: tiles and last tile give the packet, the last tile has 1 to 10 bytes, and the All-1's position belongs to no regular tile |
| `Tiling.DivideInTiles` | FragmentationSCHC/src/schcAckOnError/SCHCAckOnErrorSender_INIT.cpp:77-164 | cuts full tiles and last tile and counts windows |
| `Tiling.ExtractTiles` | FragmentationSCHC/src/schcAckOnError/SCHCAckOnErrorSender_SEND.cpp:246-264 | the bytes of consecutive tiles |
| `Rcs.CalculateCrc32` | FragmentationSCHC/src/schcArqFec/SCHCArqFecSender_INIT.cpp:310-334 | the nested loops compute the RCS function, which `RcsDivision.CrcIsRemainder` ties to polynomial division |
| `RcsDivision.CrcIsRemainder` | FragmentationSCHC/src/schcArqFec/SCHCArqFecSender_INIT.cpp:310-334 | the RCS is the complement of the one remainder, in reflected order, of the message times x^32 with its first 32 coefficients complemented, divided over GF(2) by the generator with exponents 32, 26, 23, 22, 16, 12, 11, 10, 8, 7, 5, 4, 2, 1, 0 |
| `RcsDivision.RemainderUnique` | FragmentationSCHC/src/schcArqFec/SCHCArqFecSender_INIT.cpp:310-334 | division by that generator leaves one remainder of degree below 32 and no other |
| `RcsCheckValue.CheckValue` | FragmentationSCHC/src/schcArqFec/SCHCArqFecSender_INIT.cpp:313 | the published check value: the characters 123456789 give 0xCBF43926 |
| `Rcs.BurstDetected` | FragmentationSCHC/src/schcArqFec/SCHCArqFecSender_INIT.cpp:310-334 | packets of equal length that differ only within four consecutive bytes have different RCS values |
| `Rcs.ShiftsLinear` | FragmentationSCHC/src/schcArqFec/SCHCArqFecSender_INIT.cpp:320-331 | the shift/XOR rounds are linear |
| `Rcs.FeedInjective` | FragmentationSCHC/src/schcArqFec/SCHCArqFecSender_INIT.cpp:315-332 | feeding the same bytes keeps different registers different |
| `Message.BitmapCompressionLossless` | FragmentationSCHC/src/SCHCMessage.cpp:121-184 | the bits after the header, extended with ones and cut to the window, are the bitmap; the message is always whole bytes, so the error branch is dead (section 8.3.2.1 of RFC 8724) |
| `Message.CompressionShortens` | FragmentationSCHC/src/SCHCMessage.cpp:121-163 | a compressed NACK has floor((p + 4) / 8) + 1 bytes, p being the position of the last 0: at most one more than any message the bitmap can be read from, and one byte for a full bitmap |
| `Message.UncompressedReadBack` | FragmentationSCHC/src/SCHCMessage.cpp:186-234 | without compression the bits after the header are the bitmap, then zeros |
| `Message.NegativeAckAppends` | FragmentationSCHC/src/SCHCMessage.cpp:426-446 | decoding a NACK in the window and session modes appends the received bits to the row |
| `Message.CompoundRoundTrip` | FragmentationSCHC/src/SCHCMessage.cpp:447-487 | decoding an encoded list of windows gives the list in order and copies exactly those rows; one window makes a message typed as plain ACK |
| `Message.CompoundBitsSections` | FragmentationSCHC/src/SCHCMessage.cpp:255-320 | floor((padded bits - 1) / 65) is the number of windows under 1 to 8 padding bits |
| `Message.OutOfBoundsExactly` | FragmentationSCHC/src/SCHCMessage.cpp:447-487 | whatever the bits, decoding sections leaves the caller's bitmaps exactly when one names a window without a row there |
| `Message.ReadFragments` | FragmentationSCHC/src/SCHCMessage.cpp:14-52 | byte for byte, and read back: a regular fragment is 64 W + FCN and the payload, an ACK request 64 W; classification, W, FCN and payload are as built |
| `Message.ReadAllOne` | FragmentationSCHC/src/SCHCMessage.cpp:73-98 | an All-1 is 64 W + 63, four bytes of RCS and the last tile, and gives them back |
| `Message.ReadPositiveAck` | FragmentationSCHC/src/SCHCMessage.cpp:100-119 | an ACK with C = 1 is the byte 64 W + 32; decoded, it touches no bitmap in ARQ-FEC and fills the row of its window in the other modes |
| `Message.ReadAborts` | FragmentationSCHC/src/SCHCMessage.cpp:328-411 | aborts of either side are classified as such, and a receiver abort touches no bitmap |
| `Message.PeersAgree` | FragmentationSCHC/src/SCHCMessage.cpp:328-384 | under each rule the reassembling side takes fragments, All-1s and ACK requests for what they are, and the fragmenting side acknowledgements: rule 20 uplink, rule 21 downlink |
| `Message.LastZeroMeaning` | FragmentationSCHC/src/SCHCMessage.cpp:129-134 | the compression cuts after the last 0: only ones follow |
| `MessageCodec.SchcMessage.CreateSchcAck` | FragmentationSCHC/src/SCHCMessage.cpp:100-234 | the builder's bit vectors pack into the message format, with and without compression |
| `MessageCodec.SchcMessage.CompressBitmap` | FragmentationSCHC/src/SCHCMessage.cpp:121-163 | trailing ones dropped, then ones up to whole octets |
| `MessageCodec.SchcMessage.CreateSchcAckCompound` | FragmentationSCHC/src/SCHCMessage.cpp:236-326 | the loops over windows and flags produce the compound format |
| `MessageCodec.SchcMessage.ClassifyMsg` | FragmentationSCHC/src/SCHCMessage.cpp:328-384 | the branch cascade is the classification function, and notes W, FCN and C |
| `MessageCodec.SchcMessage.DecodeFragment` | FragmentationSCHC/src/SCHCMessage.cpp:386-425 | fields of an arriving fragment |
| `MessageCodec.SchcMessage.DecodeAck` | FragmentationSCHC/src/SCHCMessage.cpp:400-487 | bitmaps and window list after an acknowledgement, in every mode |
| `MessageCodec.SchcMessage.DecodeCompound` | FragmentationSCHC/src/SCHCMessage.cpp:447-487 | the loop that eats the bit vector section by section |
| `MessageCodec.PackBits` | FragmentationSCHC/src/SCHCMessage.cpp:300-318 | octets of bits to bytes |
| `MessageCodec.UnpackBits` | FragmentationSCHC/src/SCHCMessage.cpp:426-432 | bytes to bits, most significant first |
| `WindowBitmaps.MarkTile` | FragmentationSCHC/src/schcArqFec/SCHCArqFecReceiver_RCV_WINDOW.cpp:78-88 | sets one flag, in this window or the next |
| `WindowBitmaps.MarkNext` | FragmentationSCHC/src/schcAckOnError/SCHCAckOnErrorReceiver_RCV_WINDOW.cpp:324-346 | flag by flag equals marking a range of tiles |
| `WindowBitmaps.WindowsWithError` | FragmentationSCHC/src/schcAckOnError/SCHCAckOnErrorReceiver_RCV_WINDOW.cpp:661-670 | incomplete windows before the last in order, then always the last |
| `WindowBitmaps.IncompleteBefore` | FragmentationSCHC/src/schcAckOnError/SCHCAckOnErrorReceiver_RCV_WINDOW.cpp:661-670 | lists only incomplete windows, and all of them |
| `WindowBitmaps.ErrorWindowsExactly` | FragmentationSCHC/src/schcAckOnError/SCHCAckOnErrorReceiver_RCV_WINDOW.cpp:661-670 | the windows reported increase, the last window comes last, and before it exactly those with a missing tile |
| `WindowBitmaps.IsComplete` | FragmentationSCHC/src/schcAckOnError/SCHCAckOnErrorReceiver_RCV_WINDOW.cpp:796-808 | 1 exactly when all 63 flags are set |
| `AckOnErrorSession.ReassemblySafety` | FragmentationSCHC/src/schcAckOnError/SCHCAckOnErrorReceiver_RCV_WINDOW.cpp:821-855 | in every run over channels that lose, reorder and repeat, in both modes: a marked tile is the sender's; all full tiles and the All-1 make the buffer the packet and the check true |
| `AckOnErrorSession.Agreement` | FragmentationSCHC/src/schcAckOnError/SCHCAckOnErrorSender_WAIT_X_ACK.cpp:13-160 | in every run: the sender ends only after the receiver has ended with a successful integrity check, and if the All-1 arrived, what the receiver holds has the packet's RCS; the sender never leaves a buffer |
| `AckOnErrorRepairs.RepairRound` | FragmentationSCHC/src/schcAckOnError/SCHCAckOnErrorSender_RESEND_MISSING_FRAG.cpp:278-388 | one loss-free repair round, as an extension of any run of a compound session in which both sides wait and the All-1 is stored: timeout, ACK request, report, RESEND until the sender waits; if every fragment emitted arrives, in any order and number, the receiver's check succeeds and it ends, and with its answer the sender ends |
| `AckOnErrorSession.RoundEnds` | FragmentationSCHC/src/schcAckOnError/SCHCAckOnErrorReceiver_WAIT_X_MISSING_FRAG.cpp:536-615 | the receiver's part of that round, for any receiver short of fragments and any waiting sender |
| `AckOnErrorSession.RepairFramesAreRun` | FragmentationSCHC/src/schcAckOnError/SCHCAckOnErrorSender_WAIT_X_ACK.cpp:95-150 | decoding the report makes the sender emit each missing tile exactly once |
| `AckOnErrorSession.ReportTaken` | FragmentationSCHC/src/schcAckOnError/SCHCAckOnErrorSender_WAIT_X_ACK.cpp:95-150 | a report, of one window or several, sets window list and bitmaps to the receiver's and starts the repair |
| `AckOnErrorSession.CompleteMeansPacket` | FragmentationSCHC/src/schcAckOnError/SCHCAckOnErrorReceiver_WAIT_X_MISSING_FRAG.cpp:797-831 | all full tiles and the All-1: buffer equals packet, check true |
| `AckOnErrorSession.StoresFragment` | FragmentationSCHC/src/schcAckOnError/SCHCAckOnErrorReceiver_RCV_WINDOW.cpp:324-346 | a fragment marks exactly its own tiles and stores the sender's bytes |
| `AckOnErrorSession.LateFragmentFault` | FragmentationSCHC/src/schcAckOnError/SCHCAckOnErrorReceiver_WAIT_X_MISSING_FRAG.cpp:571-582 | a fragment leaves the bitmap row exactly when it comes in the repair phase and runs over the end of its window |
| `AckOnErrorSession.OnlyLateFragmentsFault` | FragmentationSCHC/src/schcAckOnError/SCHCAckOnErrorReceiver_WAIT_X_MISSING_FRAG.cpp:571-582 | in every run: an arriving frame makes the receiver leave a buffer if and only if it carries tiles of two windows and comes in the repair phase |
| `AckOnErrorRuns.FaultsExactly` | FragmentationSCHC/src/schcAckOnError/SCHCAckOnErrorReceiver_WAIT_X_MISSING_FRAG.cpp:571-582 | some run makes the receiver leave a buffer if and only if a planned fragment runs over its window and some run makes the receiver wait for missing fragments |
| `AckOnErrorRuns.FaultsInNumbers` | FragmentationSCHC/src/schcAckOnError/SCHCAckOnErrorReceiver_WAIT_X_MISSING_FRAG.cpp:571-582 | in session mode, and in compound mode unless the RCS register already holds the RCS of the full tiles: some run does if and only if there is more than one window and the tiles of a frame do not divide 63 |
| `AckOnErrorRuns.SpansInNumbers` | FragmentationSCHC/src/schcAckOnError/SCHCAckOnErrorSender_SEND.cpp:169-180 | a planned fragment runs over its window exactly under that condition |
| `AckOnErrorRuns.SpanningIsPlanned` | FragmentationSCHC/src/schcAckOnError/SCHCAckOnErrorSender_SEND.cpp:147-208 | in every run, a fragment over two windows is one that SEND planned |
| `AckOnErrorRuns.ResendNeverSpans` | FragmentationSCHC/src/schcAckOnError/SCHCAckOnErrorSender_RESEND_MISSING_FRAG.cpp:278-351 | what RESEND sends never runs over the end of a window and fits the frame |
| `AckOnErrorRuns.FragmentsFitMtu` | FragmentationSCHC/src/schcAckOnError/SCHCAckOnErrorSender_SEND.cpp:17-18 | in every run no regular fragment is longer than the MTU |
| `AckOnErrorSession.LateAllOneAnswer` | FragmentationSCHC/src/schcAckOnError/SCHCAckOnErrorReceiver_WAIT_X_MISSING_FRAG.cpp:674-745 | an All-1 that completes the packet in the repair phase ends the receiver but is acknowledged exactly when the last window has 62 regular tiles |
| `AckOnErrorRuns.RefusesExactly` | FragmentationSCHC/src/schcAckOnError/SCHCAckOnErrorReceiver_WAIT_X_MISSING_FRAG.cpp:687-743 | some run refuses a complete packet with C = 0 if and only if the All-1 is sent, the last window has a free place beside it, and some run waits with all full tiles stored |
| `AckOnErrorRuns.RefusesInNumbers` | FragmentationSCHC/src/schcAckOnError/SCHCAckOnErrorReceiver_WAIT_X_MISSING_FRAG.cpp:687-743 | in session mode, and in compound mode unless the RCS register already holds the RCS of the full tiles: some run does if and only if the All-1 is sent, there is a full tile, and the last window has not 62 of them |
| `AckOnErrorRuns.RefusedForGood` | FragmentationSCHC/src/schcAckOnError/SCHCAckOnErrorReceiver_WAIT_X_MISSING_FRAG.cpp:687-743 | after such a refusal the sender never ends, in any continuation of the run |
| `AckOnErrorRuns.ClosesInNumbers` | FragmentationSCHC/src/schcAckOnError/SCHCAckOnErrorSender_SEND.cpp:182-223 | the All-1 is sent exactly when there is no full tile or the last multiple of a frame's tiles below their number lies in the last window |
| `AckOnErrorSession.TakesAllOne` | FragmentationSCHC/src/schcAckOnError/SCHCAckOnErrorReceiver_RCV_WINDOW.cpp:610-651 | the All-1's flag touches no regular tile |
| `AckOnErrorSession.ReceiverStaysHonest` | FragmentationSCHC/src/schcAckOnError/SCHCAckOnErrorReceiver_RCV_WINDOW.cpp:281-755 | no frame of the session falsifies or forgets a tile; END and the fault state absorb |
| `AckOnErrorSession.ReceiverAnswers` | FragmentationSCHC/src/schcAckOnError/SCHCAckOnErrorReceiver_WAIT_X_MISSING_FRAG.cpp:260-745 | every answer is decodable whatever the sender's bitmaps hold; C = 1 is only sent on ending |
| `AckOnErrorSession.SenderSends` | FragmentationSCHC/src/schcAckOnError/SCHCAckOnErrorSender_SEND.cpp:147-232 | SEND keeps its numbering and sends the All-1 from the last window only |
| `AckOnErrorSession.SenderReceives` | FragmentationSCHC/src/schcAckOnError/SCHCAckOnErrorSender_WAIT_X_ACK.cpp:13-160 | only an answer with C = 1 ends the sender; window lists and bitmaps keep their shape |
| `AckOnErrorSession.WaitsOnlyWhenShort` | FragmentationSCHC/src/schcAckOnError/SCHCAckOnErrorReceiver_RCV_WINDOW.cpp:610-755 | in both modes the receiver waits for missing fragments with the All-1 stored, and in compound mode at all, only after a failed check |
| `AckOnErrorReceipts.NeverWaitsInVain` | FragmentationSCHC/src/schcAckOnError/SCHCAckOnErrorReceiver_WAIT_X_MISSING_FRAG.cpp:317-342 | in every run, in both modes: a receiver that has the All-1 has left RCV_WINDOW, and if it still waits for missing fragments its check has failed and a tile is missing |
| `AckOnErrorReceipts.FragmentInRepair` | FragmentationSCHC/src/schcAckOnError/SCHCAckOnErrorReceiver_WAIT_X_MISSING_FRAG.cpp:260-385 | in both modes, a fragment in the repair phase that stays in its window: exactly its tiles are stored; if the check then succeeds, as it does when all tiles and the All-1 are there, the receiver ends with exactly one answer, C = 1; otherwise it waits, silent but for the NACK about the next incomplete window when session mode has completed this one |
| `AckOnErrorReceipts.RequestInRepair` | FragmentationSCHC/src/schcAckOnError/SCHCAckOnErrorReceiver_WAIT_X_MISSING_FRAG.cpp:387-460 | in both modes, an ACK request in the repair phase ends the receiver with exactly C = 1 if the check succeeds, and otherwise changes nothing and gets the complaint |
| `AckOnErrorReceipts.AllOneInRepair` | FragmentationSCHC/src/schcAckOnError/SCHCAckOnErrorReceiver_WAIT_X_MISSING_FRAG.cpp:462-530 | in both modes, an All-1 in the repair phase: a successful check ends the receiver, with C = 1 only if the last window is full; otherwise one complaint and waiting |
| `AckOnErrorReceipts.AllOneInWindow` | FragmentationSCHC/src/schcAckOnError/SCHCAckOnErrorReceiver_RCV_WINDOW.cpp:359-460 | in both modes, the All-1 in RCV_WINDOW: if the check succeeds, as it does when all tiles are there, END with exactly one answer, C = 1; otherwise the repair phase with exactly one complaint |
| `AckOnErrorReceipts.RequestInWindow` | FragmentationSCHC/src/schcAckOnError/SCHCAckOnErrorReceiver_RCV_WINDOW.cpp:462-530 | an ACK request in RCV_WINDOW: ends a receiver without fragments silently; otherwise it complains and waits, unless in compound mode the check succeeds |
| `AckOnErrorReceipts.FragmentInWindow` | FragmentationSCHC/src/schcAckOnError/SCHCAckOnErrorReceiver_RCV_WINDOW.cpp:283-357 | a fragment in RCV_WINDOW is stored, across a window boundary too, without an answer |
| `AckOnErrorReceipts.NackSays` | FragmentationSCHC/src/schcAckOnError/SCHCAckOnErrorReceiver_WAIT_X_MISSING_FRAG.cpp:350-385 | a session-mode complaint is a NACK of the first incomplete window from a given one on, the last window if none before it is, and all its flags can be read from it |
| `AckOnErrorReceipts.NackFindsMissing` | FragmentationSCHC/src/schcAckOnError/SCHCAckOnErrorReceiver_WAIT_X_MISSING_FRAG.cpp:420-460 | with the All-1 stored and the check failed, the window named misses a regular tile |
| `AckOnErrorReceipts.ReportSays` | FragmentationSCHC/src/schcAckOnError/SCHCAckOnErrorReceiver_RCV_WINDOW.cpp:655-685 | a compound complaint decodes, at any sender, to the incomplete windows in order, then the last, and to the receiver's flags for exactly those |
| `AckOnErrorReceipts.LeavesBuffersExactly` | FragmentationSCHC/src/schcAckOnError/SCHCAckOnErrorReceiver_WAIT_X_MISSING_FRAG.cpp:260-745 | for any context and message, in both modes: the receiver leaves its buffers exactly on an All-1 too short for an RCS or a fragment whose tiles do not fit |
| `AckOnErrorSender.TransmissionExact` | FragmentationSCHC/src/schcAckOnError/SCHCAckOnErrorSender_SEND.cpp:147-223 | from packet to WAIT_X_ACK: the frames are fragments that partition the full tiles in order under invertible numbers, and the All-1 exactly when the last of them starts in the last window |
| `AckOnErrorSender.ResendAllIsRun` | FragmentationSCHC/src/schcAckOnError/SCHCAckOnErrorSender_RESEND_MISSING_FRAG.cpp:278-388 | repeated executions emit the fragments of a whole repair and return to WAIT_X_ACK with an empty list |
| `AckOnErrorSender.ResendAloneIsRun` | FragmentationSCHC/src/schcAckOnError/SCHCAckOnErrorSender_RESEND_MISSING_FRAG.cpp:184-276 | session mode: repeated executions emit the fragments of the repair of one window and return to WAIT_X_ACK |
| `AckOnErrorSender.BoundedAttempts` | FragmentationSCHC/src/schcAckOnError/SCHCAckOnErrorSender_WAIT_X_ACK.cpp:162-194 | an unanswered sender asks 9 - attempts more times and then goes to ERROR |
| `AckOnErrorSender.NineRequests` | FragmentationSCHC/src/schcAckOnError/SCHCAckOnErrorSender_WAIT_X_ACK.cpp:162-194 | a sender that is never answered asks nine times and then goes to ERROR |
| `AckOnErrorSender.TakesPackets` | FragmentationSCHC/src/schcAckOnError/SCHCAckOnErrorSender_INIT.cpp:34-67 | INIT takes packets of up to 2520 bytes and leaves larger ones |
| `AckOnErrorSender.SessionNackIgnored` | FragmentationSCHC/src/schcAckOnError/SCHCAckOnErrorSender_WAIT_X_ACK.cpp:70-94 | in session mode a NACK leaves the 63 flags the retransmission looks at unchanged |
| `AckOnErrorRepairs.SessionRepairExactly` | FragmentationSCHC/src/schcAckOnError/SCHCAckOnErrorSender_RESEND_MISSING_FRAG.cpp:184-276 | session mode, in every run: a NACK makes RESEND emit every regular tile of its window exactly once if the window has not been resent, nothing otherwise, whatever its bitmap says; and then the window has been resent |
| `AckOnErrorRepairs.FirstNackFindsNothingResent` | FragmentationSCHC/src/schcAckOnError/SCHCAckOnErrorSender_WAIT_X_ACK.cpp:70-94 | session mode, in every run: the first NACK about a window finds it not resent |
| `AckOnErrorRepairs.ResentForGood` | FragmentationSCHC/src/schcAckOnError/SCHCAckOnErrorSender_RESEND_MISSING_FRAG.cpp:241-245 | session mode: a window once resent stays so in every continuation of a run |
| `AckOnErrorRounds.SessionRound` | FragmentationSCHC/src/schcAckOnError/SCHCAckOnErrorReceiver_WAIT_X_MISSING_FRAG.cpp:317-385 | one repair round of session mode, as an extension of any run in which both wait: ask, NACK about the first window that misses a tile, RESEND until the sender waits; when what it emitted has arrived, in any order and number, the receiver has ended with a successful check and its answer ends the sender, or the window is complete and the next round is about a later one; a window resent before brings nothing |
| `AckOnErrorRounds.SessionFinishes` | FragmentationSCHC/src/schcAckOnError/SCHCAckOnErrorSender_WAIT_X_ACK.cpp:70-94 | from any run in which both wait and no window that misses a tile has been resent, at most as many loss-free rounds as windows end both sides, the receiver with a successful check |
| `AckOnErrorSender.Sender.Begin` | FragmentationSCHC/src/schcAckOnError/SCHCAckOnErrorSender_INIT.cpp:15-67 | INIT: refuses more than 2520 bytes, otherwise tiles, RCS, empty bitmaps, SEND |
| `AckOnErrorSender.Sender.SendTiles` | FragmentationSCHC/src/schcAckOnError/SCHCAckOnErrorSender_SEND.cpp:115-233 | one execution of SEND equals `SendNext` |
| `AckOnErrorSender.Sender.ResendTiles` | FragmentationSCHC/src/schcAckOnError/SCHCAckOnErrorSender_RESEND_MISSING_FRAG.cpp:134-388 | one execution of RESEND in either mode equals `ResendNext`, a window outside the bitmaps included |
| `AckOnErrorSender.Sender.AcceptAck` | FragmentationSCHC/src/schcAckOnError/SCHCAckOnErrorSender_WAIT_X_ACK.cpp:13-160 | an acknowledgement in either mode equals `Receive` |
| `AckOnErrorSender.Sender.TimerExpired` | FragmentationSCHC/src/schcAckOnError/SCHCAckOnErrorSender_WAIT_X_ACK.cpp:162-194 | ask again or give up |
| `AckOnErrorReceiver.Receiver.Execute` | FragmentationSCHC/src/schcAckOnError/SCHCAckOnErrorReceiver.cpp:50-103 | one message: fields and answers are those of the context function `Receive` |
| `AckOnErrorReceiver.Receiver.ExecuteWindow` | FragmentationSCHC/src/schcAckOnError/SCHCAckOnErrorReceiver_RCV_WINDOW.cpp:281-755 | RCV_WINDOW in both modes |
| `AckOnErrorReceiver.Receiver.ExecuteMissing` | FragmentationSCHC/src/schcAckOnError/SCHCAckOnErrorReceiver_WAIT_X_MISSING_FRAG.cpp:258-745 | WAIT_X_MISSING_FRAG in both modes, as the function whose reactions `AckOnErrorReceipts` states |
| `AckOnErrorReceiver.Receiver.StoreTiles` | FragmentationSCHC/src/schcAckOnError/SCHCAckOnErrorReceiver_RCV_WINDOW.cpp:324-346 | the storing loop equals overwriting a range of tiles and setting a range of flags |
| `AckOnErrorReceiver.Receiver.IntegrityCheck` | FragmentationSCHC/src/schcAckOnError/SCHCAckOnErrorReceiver_RCV_WINDOW.cpp:821-855 | compares the RCS of tiles and last tile with the register |
| `AckOnErrorReceiver.Receiver.AcceptFragment` | FragmentationSCHC/src/schcAckOnError/SCHCAckOnErrorReceiver_RCV_WINDOW.cpp:283-357 | last window, tiles, flags and next tile pointer after a fragment |
| `AckOnErrorReceiver.Receiver.NextIncomplete` | FragmentationSCHC/src/schcAckOnError/SCHCAckOnErrorReceiver_RCV_WINDOW.cpp:413-460 | the first incomplete window from a position on, the last window if none |
| `WindowBitmaps.FirstIncompleteExactly` | FragmentationSCHC/src/schcAckOnError/SCHCAckOnErrorReceiver_WAIT_X_MISSING_FRAG.cpp:350-385 | an incomplete window with only complete ones before it, or the last |
| `BitWriting.BitWriter.WriteMsb` | CompressionSCHC/src/SCHC_Packet.cpp:49-77 | appends exactly the first nbits of the data, on the fast and the general path, and refuses short data |
| `BitWriting.BitWriter.CopyBytes` | CompressionSCHC/src/SCHC_Packet.cpp:60-67 | the byte copy appends the same bits as the bit loop |
| `BitWriting.BitWriter.CopyBits` | CompressionSCHC/src/SCHC_Packet.cpp:69-76 | the bit loop appends exactly those bits |
| `BitWriting.BitWriter.WriteU64` | CompressionSCHC/src/SCHC_Packet.cpp:35-47 | appends the low nbits of the value, refuses more than 64 |
| `BitWriting.BitWriter.WriteOneBit` | CompressionSCHC/src/SCHC_Packet.cpp:15-25 | appends one bit, relying on the zeros ahead because only ones are OR-ed in |
| `BitWriting.BitWriter.PadToByte` | CompressionSCHC/src/SCHC_Packet.cpp:27-33 | appends zeros up to a whole byte |
| `BitWriting.BitWriter.WriteBytesAligned` | CompressionSCHC/src/SCHC_Packet.cpp:91-106 | appends whole bytes, refused exactly when unaligned and non-empty |
| `BitWriting.BitWriter.EnsureCapacity` | CompressionSCHC/src/SCHC_Packet.cpp:9-13 | grows to ceil(bits / 8) bytes, keeping what is written and zeros after it |
| `BitWriting.ByteCopyIsBitCopy` | CompressionSCHC/src/SCHC_Packet.cpp:60-67 | copying bytes onto bytes is writing their bits |
| `BitWriting.BufferIsPacked` | CompressionSCHC/src/SCHC_Packet.cpp:9-13 | the bits written determine the buffer: packed bits followed by zeros |
| `BitFields.FieldMeansItsBits` | CompressionSCHC/src/PacketParser.cpp:31-95 | for every buffer, offset and width, the normalised extraction read as a big-endian number is the number formed by those bits |
| `BitFields.ShiftDivides` | CompressionSCHC/src/PacketParser.cpp:72-85 | the carry-propagating byte shift divides by a power of two |
| `BitFields.ExtractBitsBe` | CompressionSCHC/src/PacketParser.cpp:31-55 | the extraction loop, with the out-of-range error |
| `BitFields.ShiftRightBitsBe` | CompressionSCHC/src/PacketParser.cpp:72-85 | the carry loop moves all bits by the shift |
| `BitFields.NormalizeExtractedValue` | CompressionSCHC/src/PacketParser.cpp:88-95 | right-aligns an extraction |
| `Base64.DecodeUndoesEncode` | CompressionSCHC/src/SCHC_RulesManager.cpp:280-317 | decoding undoes encoding for byte strings of any length, padding included |
| `Base64Groups.EncodedInGroups` | CompressionSCHC/src/SCHC_RulesManager.cpp:299-317 | for byte strings of any length: three bytes become the four symbols of section 4 of RFC 4648, and one or two bytes left over are padded as it says |
| `Base64Groups.SymbolsOfAlphabet` | CompressionSCHC/src/SCHC_RulesManager.cpp:277-302 | the symbols are the alphabet of RFC 4648 in order |
| `Base64.Base64ToHex` | CompressionSCHC/src/SCHC_RulesManager.cpp:280-297 | the decoding loop with its 32-bit accumulator computes the decoding function |
| `Base64.BytesToBase64` | CompressionSCHC/src/SCHC_RulesManager.cpp:299-317 | the encoding loop computes the encoding function |
| `Base64.WrapKeepsLowBits` | CompressionSCHC/src/SCHC_RulesManager.cpp:288-293 | only the low bits of a wrapped accumulator matter |
| `RuleSearch.SelectsLowestRule` | CompressionSCHC/src/SCHC_Compressor.cpp:191-264 | for packets of distinct field identifiers: the lowest compression rule that names each identifier once and only ones of the packet, whose directions match and whose operators hold, unless a lower fitting rule stops the machine; without either the lowest default rule, otherwise failure |
| `RuleSearch.FreshSearch` | CompressionSCHC/src/SCHC_Compressor.cpp:191-264 | for any packet and rules: which of the outcomes a fresh search has, both ways |
| `RuleSearch.SearchIsRight` | CompressionSCHC/src/SCHC_Compressor.cpp:208-250 | the same from any position and memory of the search |
| `RuleSearch.LinearSteps` | CompressionSCHC/src/SCHC_Compressor.cpp:93-131 | FIND_RULE and MO execute at most twice the number of rules plus one times |
| `RuleSearch.OccurExactly` | CompressionSCHC/src/SCHC_Compressor.cpp:218-245 | greedy matching of entries to fields succeeds exactly when all directions match and no identifier is named more often than the packet has it |
| `RuleSearch.AcceptedExactly` | CompressionSCHC/src/SCHC_Compressor.cpp:307-404 | with distinct identifiers in packet and rule: MO accepts exactly when every entry that does not ignore holds on its field, and breaks exactly when, after entries that hold, it comes to one it cannot evaluate |
| `RuleSearch.AppliesExactly` | CompressionSCHC/src/SCHC_Compressor.cpp:307-404 | in a packet of distinct identifiers: any rule is accepted exactly when it applies, and breaks the search exactly when it fits and the machine stops on it |
| `RuleSearch.Machine.Run` | CompressionSCHC/src/SCHC_Compressor.cpp:93-131 | the alternation of the two handlers ends in the state of the search function after exactly its number of steps |
| `RuleSearch.Machine.StFindRule` | CompressionSCHC/src/SCHC_Compressor.cpp:191-264 | next candidate, default rule noticed on the way, error without either |
| `RuleSearch.Machine.StMo` | CompressionSCHC/src/SCHC_Compressor.cpp:307-404 | accepts with the mapping indices, rejects, or stops on an operator it cannot evaluate |
| `RuleSearch.Machine.ScanFields` | CompressionSCHC/src/SCHC_Compressor.cpp:322-388 | the loop over fields with its use of the flags |
| `RuleSearch.Machine.Mapping` | CompressionSCHC/src/SCHC_Compressor.cpp:338-358 | first equal value, whose index counts only if it is not negative as a signed byte |
| `Rules.ValueSizeInBits` | CompressionSCHC/src/SCHC_Compressor.cpp:36-43 | the counting loop |
| `Rules.SizeIsLeast` | CompressionSCHC/src/SCHC_Compressor.cpp:36-43 | the result is the least number of bits, at least one, that holds the value |
| `Rules.MsbComparator` | CompressionSCHC/src/SCHC_Compressor.cpp:46-64 | true exactly when both are long enough and their first bits agree |
| `Rules.LsbExtractor` | CompressionSCHC/src/SCHC_Compressor.cpp:67-89 | the number of the last bits, of at most sixteen of them |
| `Residues.Lossless` | CompressionSCHC/src/SCHC_Compressor.cpp:406-474 | for an accepted rule of lossless pairs that covers all packet fields, and gives the lengths of those sent in full or in part, a decompressor after section 7.4 of RFC 8724 recovers every field from rule and residue alone |
| `Residues.EntriesRoundTrip` | CompressionSCHC/src/SCHC_Compressor.cpp:433-446 | MO and CDA agree on the order of the mapping indices |
| `Residues.EntryRoundTrip` | CompressionSCHC/src/SCHC_Compressor.cpp:422-466 | what one entry writes, the decompressor reads back |
| `Residues.ValueSentExactly` | CompressionSCHC/src/SCHC_Compressor.cpp:425-431 | VALUE_SENT recovers a field exactly when it fills its bytes or is zero |
| `Residues.VersionIsLost` | CompressionSCHC/src/PacketParser.cpp:116-122 | the four-bit version field of an IPv6 packet is sent as zero |
| `Residues.LsbExactly` | CompressionSCHC/src/SCHC_Compressor.cpp:448-460 | for a field in as few bytes as it needs: LSB recovers it exactly when it fills its bytes or its first msbLength bits are zero, and nothing but zeros lies between those and its last sixteen bits |
| `Residues.FlowLabelIsLost` | CompressionSCHC/src/PacketParser.cpp:116-134 | an instance: the 20-bit flow label 0x10000 with eight bits for MSB is sent in twelve bits and not recovered |
| `Residues.MappingExactly` | CompressionSCHC/src/SCHC_Compressor.cpp:338-358 | an accepted mapping recovers its field exactly when the value is among the first 128 of the list |
| `Residues.StCda` | CompressionSCHC/src/SCHC_Compressor.cpp:406-474 | the residue written is that of the residue function, or it fails with it |
| `Residues.WriteEntry` | CompressionSCHC/src/SCHC_Compressor.cpp:422-466 | what one action writes, and when the writer refuses |
| `Residues.StGen` | CompressionSCHC/src/SCHC_Compressor.cpp:477-510 | rule identifier, residue, payload, padding, as `Decompression.PacketReadsBack` takes them apart; fails exactly when a payload follows an unaligned header |
| `Residues.StNoCompress` | CompressionSCHC/src/SCHC_Compressor.cpp:268-304 | rule identifier and the packet as it is, padded |
| `Residues.Compress` | CompressionSCHC/src/SCHC_Compressor.cpp:93-131 | search, residue and packet together: succeeds exactly when the search finds a rule whose residue can be written, with an identifier of at most 32 bits and a header that ends on a byte if a payload follows, or a default rule; then residue and packet are that rule's |
| `Decompression.PacketReadsBack` | CompressionSCHC/src/SCHC_Compressor.cpp:477-510 | the packet of an accepted rule of lossless pairs is whole bytes; its first bits are the identifier, and behind them the decompressor finds the value of every entry's field, then the payload, then fewer than eight zeros |
| `Decompression.DecompressInverts` | CompressionSCHC/src/SCHC_Compressor.cpp:93-131 | with identifiers none of which starts another, what the compressor emits is decompressed from rules and packet alone: the same rule, every field and the payload for a rule of lossless pairs that covers all fields, the raw packet for a default rule |

## Left out

- Stacks, backhaul, orchestrator, configuration, threads, log files, printing, satellite timing, and all timers but
  the ACK-on-Error sender's: plumbing around the protocol.
- Random and counter-based drops in the receivers: they are losses of the channel.
- The ACK_END_WIN mode of ACK-on-Error: its sender does not compare the ACK's window with its own, so that any claim
  needs an artificial channel. The codec's decoding in that mode is covered.
- Progress of ARQ-FEC after a report or an ACK request is lost: the sender has no way to ask again. What a round
  achieves when nothing of it is lost is `ArqFecRepairs.RepairRound`.
- Reed-Solomon itself: a code is any pair of functions that recovers r erasures.
- ARQ-FEC overhead as floating point: a fraction, rounded up as the code does.
- `_tilesArray` and `_currentTile_ptr` of the ARQ-FEC receiver: written and never read.
- `_send_schc_ack_req_flag` of the ACK-on-Error sender: only SEND reads it and only on leaving does SEND set it; SEND
  is not entered again.
- The builder of sender aborts.
- Empty packets and frames of more than 63 tiles (641 bytes or more, beyond LoRaWAN) in ACK-on-Error: the counters
  then leave their range (`Numbering.AdvanceExact` says exactly when).
- The COMPUTE and device-identifier actions, the IPv6/UDP header parser around the bit-field routines, the idle and
  parse states of the compressor, its error codes for missing packets, loading rules from YANG or JSON, and lists of
  more than 65535 target values.
- BitWriting.BitWriter.WriteMsb: the 32-bit bit length is unbounded here, so that its overflow at 512 MB is not
  modelled.
- Base64.Base64ToHex: the signed left shift beyond 31 bits, undefined in older C++, is modelled as 32-bit
  wrap-around.
- RuleSearch.SelectsLowestRule: stated for packets that name each field once; `RuleSearch.FreshSearch` covers every
  packet in terms of the greedy matching the code performs.
- RuleSearch.AppliesExactly: stated for packets that name each field once, as the parser delivers them; with a field
  twice, what MO accepts depends on the order in which entries take fields.
- RuleSearch.AcceptedExactly: stated for packets and rules that name each field once, for the same reason.
- Session counters, which only number sessions, interactive rule creation, and memory estimates, which are printed.
