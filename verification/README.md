# A verified model of the file transfer and its HTTP building blocks

This project models, in Dafny 4.11, the peer-to-peer file transfer of the command-line tool and
the stateful pieces of the HTTP library that both programs of the repository include, and proves
what they promise over every run and every input.

`dafny verify dfyconfig.toml` checks the whole project.

## What is modelled

**The stop-and-wait transfer.** `Protocol` holds the messages, the constants and the cutting of a
file into payloads of 1272 bytes. `Sender.Session` is the sending peer with the fields of the
original: a phase, an offset, the record of the last chunk, the cache of the last packet, and a
file stream that stays failed after a short read. Every method is proved against a reference
sender that has no cache and no stream and reads the file afresh for each packet, so the
retransmission cache is shown to be invisible. `SenderRuns` follows a session over every sequence
of datagrams from anybody; `SenderAnswers` says what its packets carry, when it answers and when it
closes. `Receiver.ReceiveFile` is the receive loop with its write offset and its retry budget,
proved equal to a fold over the outcomes of its waits; `ReceiverRuns` says for every history how it
returns, what it writes and what it sends. `HandshakeRounds` is the loop that finds the peer, and
shows that a session admits its hello.

`Transfer` joins both peers by a network. Whatever was sent stays deliverable, any number of
times, in any order, or not at all, and a time-out may happen at any moment; this is loss,
duplication and reordering in one. A datagram carries both of its readings, as a handshake packet
and as a control packet, because the same bytes are read one way or the other depending on the
state of the reader; `Messages` derives both readings from the numbered fields of the schemas. Prefix safety and packet conservation hold with arbitrary datagrams from
arbitrary endpoints reaching the session. `HonestTransfer` lets only the receiver's own ACKs reach
the session, while anybody may send it everything that is neither an ACK nor an error, and proves
the window. `Recovery` gives the exact condition under which one round of time-out and answer
advances the transfer, from every state that runs with arbitrary packets at the session can
reach. `Progress` proves recovery after arbitrary loss in honest runs, the exact traffic of a
loss-free run, and when a closed session means that the receiver returned true.

**Multipart form data.** `Multipart` is the streaming parser on values, `MultipartParser` the
class whose character buffer is moved and grown in place, `MultipartRoundTrip` the serialiser and
the round trip under every split of the text, `MultipartLimits` the exact condition under which
that round trip holds. `FormReader` adds a reader of the two header lines and shows that whole
forms come back; `MultipartRuns` says what holds of the parser on any text. `Text` holds the facts about searching for a delimiter of which only a part
may have arrived.

**Chunked transfer coding.** `ChunkedCoding` is the encoder, the number syntax and the decoder on
values; `ChunkedStream` is the decoder over a stream that answers every read with as little as it
likes, with the line reader that keeps short lines in a fixed buffer and longer ones in a growing
string. `ChunkedSyntax` says which lines and sizes are read at all and that nothing but chunked
text is decoded to its end; `ChunkedContent` is the loop that reads a body.

**Byte ranges.** `Ranges` holds normalising and coalescing on values, `RangeRequests` the operations
that validate the ranges of a request in place, sort and coalesce them, and when they are refused,
in terms of the positions asked for.

**Addresses and hashes.** `Stun` is the walk over the attributes of a STUN response, `Address` and
`Decimal` the packing of the local address into the registered one, `HashLoop` the block-wise
file hash with its hexadecimal printing, `Wire` the sizes of datagrams.

## What the proofs found

- A closed session tells that `receive_file` returned true for the empty file and for no other
  (`Progress.ClosingMeansSuccessOnlyForTheEmptyFile`). When only DONE is lost, the receiver's
  time-out repeats its last ACK, which the session takes for the final one
  (`Progress.LosingDoneClosesTheSessionButFailsTheReceiver`). The receiver has every byte by then,
  and it returns true exactly if a DONE that is still under way arrives before its budget is spent
  (`Progress.OnlyALateDoneHelps`).
- In honest runs one round of time-out and answer advances the transfer exactly when DONE is not
  already out for a non-empty file and another time-out would be left
  (`Progress.HonestRoundAdvancesExactly`).
- With arbitrary packets at the session, the receiver must besides wait for the sender's offset
  or the next one (`Recovery.RoundAdvancesExactly`). For every file that is not empty, one ACK the
  receiver never sent moves the sender out of its reach (`Recovery.AnUnsentAckOutruns`). Then no
  number of rounds moves either peer, and whatever anybody sends, the receiver gets on exactly if
  a DATA for its offset that was sent earlier still arrives in time
  (`Recovery.OnlyALateDataRescues`).
- A header line of a form item is refused by some splits of the text as soon as it has 8192
  characters, although the comparison is written for longer lines only: the search result
  that is compared with the limit is the length of the buffer while the line break is missing.
- The STUN loop can read behind the 1024-octet receive buffer for a message that fills it, and for
  no shorter one (`Stun.ReadsStayInsideExactly`).
- Coalesced ranges come out strictly separated, in whatever order the sort leaves equal starts,
  exactly if the position in front of every repeated range is covered (`Ranges.SeparatedExactly`).
- Form content that holds a line break followed by the boundary is cut short, and the serialiser
  does not prevent it. Such content, a header line that is too long or not accepted, and a text
  without items are exactly what breaks the round trip (`MultipartLimits.RoundTripsExactly`).
- The serialised text of no items at all never makes the parser valid.
- What follows the closing boundary is dropped if it arrives together with it
  (`MultipartRuns.EpilogueIsDropped`); a line break that arrives later starts a new entry.
- When the parser has accepted the closing boundary it may stand in the state before a new entry
  or in the boundary state, depending on where the text was cut; it is valid in both.
- A 128-byte allowance for the packet header suffices for transfer ids of up to 109 bytes and no
  longer ones.
- A packed address comes back exactly if the public part has no `;`, the local part has no `:`,
  and the port fits an `int`, because it is read by `std::stoi`.

## Model

| member | source | states |
|---|---|---|
| Protocol.BoundaryNext | cli_tool/include/session.hpp:177-187 | payloads tile the file: the offset after a boundary is again `min(k * 1272, size)` |
| Sender.Session.constructor | cli_tool/include/session.hpp:39-44 | a new session waits for a hello, has sent nothing and satisfies the invariant |
| Sender.Session.ReadChunk | cli_tool/include/session.hpp:250-252 | a seek and read deliver exactly the next at most 1272 bytes of the file, or nothing once the stream has failed; a short read leaves it failed |
| Sender.Session.SendNextChunk | cli_tool/include/session.hpp:247-285 | sends the packet a fresh read at the offset would build (DATA before the end, DONE exactly at the end) and establishes cache coherence, although the stream may have failed before |
| Sender.Session.ResendCurrentChunk | cli_tool/include/session.hpp:238-245 | repeating the cached packet sends exactly what rereading the file would send |
| Sender.Session.ValidateToken | cli_tool/include/session.hpp:287-294 | the metadata is replaced exactly if the lookup succeeds |
| Sender.Session.HandleHandshakePacket | cli_tool/include/session.hpp:90-145 | new state and answer are those of the reference sender for every packet: silence, BAD_PACKET, INVALID_TOKEN, or a server hello; the invariant is kept |
| Sender.Session.HandleGetRequest | cli_tool/include/session.hpp:147-170 | first GET starts at offset 0 or reports TRANSFER_NOT_FOUND and closes; every later GET is answered by the packet at the offset |
| Sender.Session.HandleAck | cli_tool/include/session.hpp:172-192 | an ACK of the end closes after DONE, an ACK of the next offset advances, an ACK of the current offset resends, anything else is ignored; cache coherence is kept |
| Sender.Session.HandleControlPacket | cli_tool/include/session.hpp:194-215 | dispatch on the packet: GET, ACK, error (closes), everything else and garbage ignored |
| Sender.Session.HandlePacket | cli_tool/include/session.hpp:217-231 | for every datagram and source the session with cache and stream does what the reference sender does, and keeps the retransmission-cache invariant |
| SenderRuns.StepMovesForward | cli_tool/include/session.hpp:217-231 | one datagram never moves the phase or the offset back, a closed session is silent, and past the hello the peer is fixed and gets every answer |
| SenderRuns.RunOnlyMovesForward | cli_tool/include/session.hpp:90-231 | over every run and every continuation of it the phase, the offset and the sent packets only grow, a closed session is frozen, and once a hello was admitted the peer and the metadata are fixed and all later packets go to that peer |
| SenderRuns.OffsetIsAlwaysABoundary | cli_tool/include/session.hpp:172-192 | at every moment of every run the offset is `min(k * 1272, size)` for some `k` |
| SenderRuns.OnlyAnAdmittingHelloAuthenticates | cli_tool/include/session.hpp:90-145 | a waiting session becomes authenticated if and only if a version-1 hello with a known token arrives; every other datagram leads to the stated refusal |
| SenderRuns.TransferNeedsAnAdmittingHello | cli_tool/include/session.hpp:90-170 | in every run each DATA or DONE goes to the endpoint of an earlier admitted hello and carries what the file holds at some boundary |
| SenderRuns.Serve | cli_tool/src/server.cpp:45-61 | the receive loop, which stops at a closed session, leaves the session and its sent packets exactly as the run over all datagrams says |
| SenderAnswers.PacketsAreWellFilled | cli_tool/include/session.hpp:90-285 | over every run: a DATA carries the registered id and `file[off..min(off+1272,size)]` at a multiple of 1272; a DONE carries the registered id, size and hash; both go to a peer admitted with that metadata; errors are sent only for a file that does not open, server hellos only to admitted peers with the id they asked for |
| SenderAnswers.AnswersExactly | cli_tool/include/session.hpp:90-231 | a session answers with at most one packet, and exactly: when waiting, everything that parses; later, GETs and ACKs of the current or the next offset except the final ACK |
| SenderAnswers.ClosesExactly | cli_tool/include/session.hpp:103-124 | a session closes exactly on a hello it does not admit, on an error, on a GET for a file that does not open, and on the final ACK |
| SenderAnswers.MovesExactly | cli_tool/include/session.hpp:177-188 | the offset moves exactly on an ACK of the next packet, and then to it |
| SenderAnswers.MissingFileIsReported | cli_tool/include/session.hpp:152-158 | a file that does not open is reported under the id of the request, and the session closes |
| Receiver.ReceiveFile | cli_tool/src/client.cpp:159-254 | the loop returns, for every history of waits, the output, offset, retries, status and sent packets of the fold over that history |
| Receiver.FinishedStays | cli_tool/src/client.cpp:175-254 | after `receive_file` returned nothing that arrives changes anything |
| Receiver.RetriesCountTheSilence | cli_tool/src/client.cpp:174-243 | while the loop runs, `retries` is the number of time-outs since the last packet from the peer, and below 20 |
| Receiver.SilenceIsTheLongest | cli_tool/src/client.cpp:178-182 | that number is the largest count of time-outs in any final stretch of the history that has no packet from the peer; strangers do not matter |
| Receiver.TimesOutExactlyAfterTwentySilentWaits | cli_tool/src/client.cpp:174-252 | over every history, a time-out is reported if and only if, while it was waiting, 20 time-outs occurred with no packet from the peer between them |
| ReceiverRuns.ReturnsExactly | cli_tool/src/client.cpp:209-252 | over every history: true is returned if and only if, while it waited, a DONE of this transfer with the received size arrived and the hash of the output agreed; a hash mismatch if and only if it did not agree; an error if and only if the peer sent one; a time-out if and only if the twentieth in a row came |
| ReceiverRuns.SuccessMeansTheHashAgrees | cli_tool/src/client.cpp:223-232 | over every history, true is returned only with an output whose hash is the expected one |
| ReceiverRuns.OutputIsWhatWasAccepted | cli_tool/src/client.cpp:188-203 | over every history, the output is the concatenation of the payloads of this transfer that arrived exactly where the ones before them end, and the write offset is its length |
| ReceiverRuns.WriteAtExactly | cli_tool/src/client.cpp:197-199 | writing at an offset, byte by byte: the payload, then what was there, then zeros |
| ReceiverRuns.SpeaksExactly | cli_tool/src/client.cpp:176-249 | one packet for each time-out, for each DATA of this transfer at or before the write offset and for the DONE that is accepted, nothing else; any datagram of the peer, and nothing else, refills the budget |
| HandshakeRounds.PerformHandshake | cli_tool/src/client.cpp:108-131 | at most 20 rounds, each greeting every candidate once; the result is the source of the first server hello for this token, and none exactly if none of the 20 waits brought one |
| HandshakeRounds.RoundsGreetEverybody | cli_tool/src/client.cpp:108-115 | in every round every candidate is sent the same hello, in order |
| HandshakeRounds.HelloIsAdmittedExactly | cli_tool/src/client.cpp:84-89 | a waiting session admits this hello if and only if the token is not empty and registered; it answers its source with one packet, which is accepted if and only if the hello was admitted |
| HandshakeRounds.OnlyTheOwnAnswerIsAccepted | cli_tool/src/client.cpp:120-121 | the answer to a hello for another token is not accepted |
| Messages.ControlReadsBack | proto/v1/control.proto:7-42 | written field by field and read with the own schema, every control message comes back |
| Messages.HandshakeReadsBack | proto/v1/handshake.proto:7-50 | and every handshake message |
| Messages.BothReadings | proto/v1/handshake.proto:43-50 | what a reader of the other schema makes of a message: a repeated hello is a GET, a server hello an ACK of nothing, an early GET a hello without a version |
| Transfer.ExecAppend | cli_tool/src/client.cpp:175-251 | running two event sequences after each other is running their concatenation |
| Transfer.SessionIsTruthful | cli_tool/include/session.hpp:247-285 | whoever drives the session, each DATA it sends carries exactly `file[off..min(off+1272,size)]`, and a DONE for the receiver's id carries the size of the file |
| Transfer.ReceiverExtendsThePrefix | cli_tool/src/client.cpp:188-233 | any truthful message, in any order and any number of times, keeps the output a prefix of the file |
| Transfer.StepKeepsSafe | cli_tool/src/client.cpp:175-251 | every event keeps prefix safety |
| Transfer.OutputIsAlwaysAPrefix | cli_tool/src/client.cpp:175-233 | over every run with loss, duplication, reordering, time-outs and arbitrary datagrams at the session: the output is `file[..current_offset]`, and if `receive_file` returns true it is the whole file; nothing is assumed about the hash |
| Transfer.StepAnswersAtMostOnce | cli_tool/include/session.hpp:217-231 | one delivery or time-out causes at most one packet |
| Transfer.TrafficIsConserved | cli_tool/src/client.cpp:165-249 | over every run, packets sent by both sides are at most 1 plus packets delivered plus time-outs |
| Transfer.ReceiverIsTheLoop | cli_tool/src/client.cpp:175-251 | in every run of both peers together the receiver is the receive loop, fed with what its waits brought |
| Transfer.SenderIsTheSession | cli_tool/include/session.hpp:217-231 | in every run of both peers together the sender is the session on its own, and the wire holds exactly what it sent |
| HonestTransfer.WaitingKnowsNothing | cli_tool/include/session.hpp:93-101 | a session that still waits, whatever reached it, has sent nothing but BAD_PACKET errors |
| HonestTransfer.AdmittedIsInWindow | cli_tool/src/client.cpp:159-174 | the state after the receiver's hello was admitted satisfies the window invariant, whatever reached the session before, with one server hello more under way |
| HonestTransfer.SenderKeepsWindow | cli_tool/include/session.hpp:172-215 | a packet the receiver may have sent, or anything from anybody that is neither an ACK nor an error, keeps the window at the session |
| HonestTransfer.ReceiverKeepsWindow | cli_tool/src/client.cpp:182-239 | any message of the session that is under way keeps the window when it reaches the receiver |
| HonestTransfer.StepKeepsWindow | cli_tool/src/client.cpp:175-251 | every honest event keeps the window |
| HonestTransfer.WindowHolds | cli_tool/include/session.hpp:172-192 | over every honest run, after any wait for the hello: `current_offset` is the sender's offset or the next one, every DATA under way starts at a boundary at or before the sender's offset and carries the file's bytes, every ACK under way is a boundary at most `current_offset` |
| HonestTransfer.FinalAckIsSound | cli_tool/src/client.cpp:209-233 | over every honest run, after any wait for the hello: no DATA beyond `current_offset` and no DONE with another size or hash can arrive, so neither mismatch branch is taken, and a closed session means that every byte was written |
| Recovery.JoinedHolds | cli_tool/include/session.hpp:194-231 | over every run from the admitted hello on, with arbitrary packets at the session before and after, the peers stay bound to each other at boundaries of the file, everything under way is what the file holds up to the sender's offset, every ACK is at most `current_offset`, and the output is a prefix of the file |
| Recovery.NudgeIsAnswered | cli_tool/src/client.cpp:240-249 | from every such state, a time-out whose packet arrives makes the session send exactly the packet the receiver waits for if it can; otherwise it closes, or stays where it is when the receiver is out of reach |
| Recovery.AnswerIsTaken | cli_tool/src/client.cpp:193-233 | when that packet arrives the receiver has exactly the next payload more, or returns true |
| Recovery.RoundAdvancesExactly | cli_tool/src/client.cpp:240-249 | from every state of every run, whoever sends what to the session, one undisturbed round brings the next payload or the end if and only if another time-out would be left, the session is open, the receiver waits for the sender's offset or the next one, and DONE is not already out for a non-empty file |
| Recovery.RoundsOutOfReach | cli_tool/include/session.hpp:177-191 | out of that reach no number of undisturbed rounds moves either peer |
| Recovery.OnlyALateDataRescues | cli_tool/include/session.hpp:172-191 | over every run from a state out of that reach, whoever sends what, the write offset moves if and only if a DATA for it that was already under way arrives while the receiver waits |
| Recovery.AnUnsentAckOutruns | cli_tool/include/session.hpp:172-188 | one ACK of the first payload that the receiver did not send puts it out of reach if and only if the file is not empty; no round changes that, and the first DATA, if it still arrives, does |
| Progress.HonestRoundAdvancesExactly | cli_tool/src/client.cpp:240-249 | from every honest state in which the receiver waits, one undisturbed round raises `current_offset` to `min(+1272, size)` or returns true if and only if DONE is not already out for a non-empty file and this is not the last time-out; when DONE is out the session closes and the receiver has every byte |
| Progress.OneRound | cli_tool/src/client.cpp:240-249 | such a round ends the transfer at the end of the file and otherwise leads to a state from which the next round advances again |
| Progress.RoundsComplete | cli_tool/src/client.cpp:240-249 | whatever was lost before, `ceil(remaining/1272) + 1` undisturbed rounds complete the transfer with the whole file |
| Progress.RoundsCompleteExactly | cli_tool/src/client.cpp:175-252 | from every honest state in which the receiver waits, these rounds end in success if and only if DONE is not already out for a non-empty file and another time-out would be left |
| Progress.TheLastTimeoutEndsTheWait | cli_tool/src/client.cpp:175-252 | for every file the state after 19 time-outs is honest and waiting, DONE is not out, and its round only ends the wait |
| Progress.Payloads | cli_tool/include/session.hpp:270-284 | the DATA packets from an offset on: exactly `ceil(remaining/1272)` of them, all to the peer |
| Progress.Acks | cli_tool/src/client.cpp:203 | the ACKs for these packets: as many |
| Progress.ClimbRung | cli_tool/src/client.cpp:196-203 | one delivered DATA and its delivered ACK write one payload and put the next packet on the wire |
| Progress.ClimbLadder | cli_tool/src/client.cpp:196-203 | by induction over the file: all payloads from any offset on, delivered in order, lead to the end with exactly the expected traffic |
| Progress.ReachDone | cli_tool/include/session.hpp:166-285 | from the admitted hello, the loss-free run up to DONE reaches the state in which the whole file is written and DONE is under way |
| Progress.DoneAndFinalAck | cli_tool/include/session.hpp:180-184 | delivering DONE and the final ACK makes the receiver return true and the session close without further traffic |
| Progress.LossFreeRun | cli_tool/include/session.hpp:166-285 | a loss-free run returns true with the whole file, closes the session, and uses exactly `ceil(size/1272)` DATA, one DONE and `ceil(size/1272) + 1` ACKs, for size 0 and exact multiples too |
| Progress.WaitOut | cli_tool/src/client.cpp:240-253 | `n` time-outs in a row raise `retries` by `n` and end the loop at 20 |
| Progress.LosingDoneClosesTheSessionButFailsTheReceiver | cli_tool/include/session.hpp:178-184 | for every non-empty file there is a run in which only DONE is lost, the session closes, and the receiver, with every byte written, reports a time-out |
| Progress.ClosingMeansSuccessOnlyForTheEmptyFile | cli_tool/include/session.hpp:177-184 | in every honest run a closed session means that `receive_file` returned true, if and only if the file is empty |
| Progress.OnlyALateDoneHelps | cli_tool/include/session.hpp:217-219 | once the session is closed nothing more is sent, and the receiver returns true if and only if a DONE sent earlier arrives while it still waits |
| MultipartParser.FormDataParser.constructor | shared/include/net/httplib.h:6638-6640 | a new parser is in the initial state with an empty buffer |
| MultipartParser.FormDataParser.BufAppend | shared/include/net/httplib.h:6685-6701 | moving the unread input to the front, growing the buffer and copying in place append exactly the data to the unread input |
| MultipartParser.FormDataParser.BufErase | shared/include/net/httplib.h:6703 | drops exactly the first characters of the unread input |
| MultipartParser.FormDataParser.BufHead | shared/include/net/httplib.h:6656 | the first characters of the unread input |
| MultipartParser.FormDataParser.StartWith | shared/include/net/httplib.h:6643-6650 | true if and only if the text occurs at this place of the unread input |
| MultipartParser.FormDataParser.BufFind | shared/include/net/httplib.h:6662-6683 | the search that skips to the next first character finds the first occurrence in the unread input, or its length if there is none |
| MultipartParser.FormDataParser.ReadHeaderLines | shared/include/net/httplib.h:6486-6566 | the header loop consumes exactly the complete lines up to the empty one, a rejected one or the end of the buffer |
| MultipartParser.FormDataParser.ReadBodyPart | shared/include/net/httplib.h:6567-6589 | delivers the content before the boundary, or all but a boundary's length of characters, and changes state accordingly |
| MultipartParser.FormDataParser.ReadBoundaryEnd | shared/include/net/httplib.h:6590-6606 | decides between a next entry, the end, and waiting for more |
| MultipartParser.FormDataParser.TakeTurn | shared/include/net/httplib.h:6473-6607 | one turn of the switch does what the parser on values does |
| MultipartParser.FormDataParser.ParsePiece | shared/include/net/httplib.h:6467-6611 | for every state and every piece of input the in-place parser ends in the state, with the callbacks and the result, of the parser on values |
| Text.Find | shared/include/net/httplib.h:6662-6683 | the result is an occurrence with none before it, or the length of the text when nothing occurs |
| Text.FindInPart | shared/include/net/httplib.h:6569-6588 | a delimiter that cannot overlap itself is found exactly where it was put, unless it has not fully arrived: no straddling delimiter is missed or invented |
| MultipartRoundTrip.Serialize | shared/include/net/httplib.h:6747-6790 | the item-by-item concatenation is the text of the grammar |
| MultipartRoundTrip.IsBoundaryValid | shared/include/net/httplib.h:6735-6745 | true if and only if every character is a letter, a digit, `-` or `_` |
| MultipartRoundTrip.SerializedIsBoundaryAfter | shared/include/net/httplib.h:6777-6790 | the serialised text, regrouped: a first boundary followed by sections and boundaries, as the parser reads it |
| MultipartRoundTrip.TurnKeepsThePlace | shared/include/net/httplib.h:6473-6607 | from every place in the grammar and every part of the text that has arrived, one turn succeeds and leads to a place that still owes exactly the missing entries |
| MultipartRoundTrip.PiecesKeepThePlace | shared/include/net/httplib.h:6467-6611 | from every place in the grammar, feeding any pieces of the remaining text is accepted and ends at the end of the grammar with all entries delivered |
| MultipartRoundTrip.RoundTripUnderAnySplit | shared/include/net/httplib.h:6467-6611 | for every boundary without CR (all allowed characters qualify), every preamble without the first boundary and every way of cutting the serialised text of at least one item no piece is refused, the parser ends valid, and per item and in order the callbacks received the data of its header lines and exactly its content |
| FormReader.FormComesBack | shared/include/net/httplib.h:6747-6790 | with a reader of the two header lines, items whose names hold no quote come back, under every split, with their names, file names, content types and contents |
| FormReader.DispositionIsRead | shared/include/net/httplib.h:6752-6755 | the name and the file name are read back from the line that the serialiser writes |
| FormReader.OnePlainItem | shared/include/net/httplib.h:6747-6790 | the text of one plain item, character by character |
| FormReader.BoundaryCharactersExactly | shared/include/net/httplib.h:6735-6745 | the allowed characters, by their codes |
| MultipartRuns.LoopSettles | shared/include/net/httplib.h:6472-6610 | after every accepted piece, whatever the text, nothing more can be made of what is unread; of a body no more than the length of the boundary is held back |
| MultipartRuns.CallsStopAtTheFirstRefusal | shared/include/net/httplib.h:6467-6611 | over every text in any pieces the callbacks are called up to their first refusal; a piece is refused only for that, for a header line that is not accepted or for one that is too long, and the parser is not valid after the first two |
| MultipartRuns.NothingComesAfterAFalseBoundary | shared/include/net/httplib.h:6590-6603 | anything but a line break or two dashes behind a boundary stalls the parser for good |
| MultipartRuns.EpilogueIsDropped | shared/include/net/httplib.h:6597-6600 | what arrives together with the closing dashes is dropped |
| MultipartLimits.NoItemsIsNeverValid | shared/include/net/httplib.h:6474-6480 | the text of no items never makes the parser valid, under any split and for any boundary without CR |
| MultipartLimits.FeedLongLine | shared/include/net/httplib.h:6486-6488 | a header line of 8192 characters or more, cut after 8193 characters, is refused |
| MultipartLimits.PiecesStayFinal | shared/include/net/httplib.h:6467-6611 | once an item's boundary was found, nothing that is fed afterwards changes what was collected for it |
| MultipartLimits.SpoiledByContent | shared/include/net/httplib.h:6567-6576 | content that holds the boundary behind a line break ends there, and what was collected is wrong for good |
| MultipartLimits.BadLineIsRefusedSomewhere | shared/include/net/httplib.h:6486-6517 | wherever in the items a header line that is too long or not accepted stands, some way of cutting the whole text is refused |
| MultipartLimits.BreakerSpoilsSomeSplit | shared/include/net/httplib.h:6467-6611 | with such a line or such content anywhere in the items, some way of cutting the text is refused or loses something |
| MultipartLimits.RoundTripsExactly | shared/include/net/httplib.h:6467-6611 | the round trip holds under every split if and only if there is an item, every header line is accepted and shorter than 8192 characters, and no content holds the boundary behind a line break |
| ChunkedCoding.FromIToHex | shared/include/net/httplib.h:3448-3456 | the loop that prepends low digits prints the number |
| ChunkedCoding.HexRoundTrip | shared/include/net/httplib.h:10484-10486 | reading a printed size with its line break by `strtoul` gives back every 64-bit size, in at most 16 digits |
| ChunkedSyntax.SizeIsRead | shared/include/net/httplib.h:10484-10486 | behind blanks, a sign and `0x` the digits are read up to the first other character, with negation and the largest number on overflow |
| ChunkedSyntax.NoSizeIsRead | shared/include/net/httplib.h:10485 | without a digit there is no size |
| ChunkedSyntax.CaseDoesNotMatter | shared/include/net/httplib.h:10484 | the size in any line does not depend on the case of its letters |
| ChunkedSyntax.NulEndsTheLine | shared/include/net/httplib.h:10484 | a NUL hides what follows it in a line |
| ChunkedSyntax.BadSizesAreRefused | shared/include/net/httplib.h:10485-10486 | a missing size and the largest one end the decoding |
| ChunkedCoding.WriteContentChunked | shared/include/net/httplib.h:6042-6107 | any sequence of writes followed by `done` emits the chunks of the non-empty ones, the last chunk and an empty trailer section |
| ChunkedCoding.NextLineOf | shared/include/net/httplib.h:3987-4025 | a line without CR is read up to its line break, whatever follows |
| ChunkedSyntax.NextLineExactly | shared/include/net/httplib.h:3987-4025 | no line is read exactly at the end of the text and when the first 32768 characters hold no line break; otherwise it ends with the first line break, or with the text |
| ChunkedSyntax.ChunkEndsExactly | shared/include/net/httplib.h:10512-10516 | a chunk ends with a line break and nothing else |
| ChunkedSyntax.BodyEndsExactly | shared/include/net/httplib.h:10521-10526 | a body without trailers ends exactly at an empty line |
| ChunkedSyntax.TakingContinues | shared/include/net/httplib.h:10501-10516 | characters that were taken, followed by what completes the rest, complete the chunk they were taken from |
| ChunkedSyntax.StaysOnlyChunked | shared/include/net/httplib.h:10474-10519 | on any text, what was delivered is always the beginning of a payload of which the text so far is the chunked form |
| ChunkedSyntax.OneChunk | shared/include/net/httplib.h:6055-6106 | the text of one write, character by character |
| ChunkedCoding.OpenKeepsPending | shared/include/net/httplib.h:10479-10499 | reading a size line on the encoder's text opens the next non-empty write with its true size, or finishes exactly when nothing is pending |
| ChunkedCoding.TakeKeepsPending | shared/include/net/httplib.h:10501-10518 | however few characters a read brings, they are the next pending ones, and what is pending afterwards is the rest |
| ChunkedStream.StreamLineReader.constructor | shared/include/net/httplib.h:3961-3964 | a new reader holds an empty line |
| ChunkedStream.StreamLineReader.Append | shared/include/net/httplib.h:4027-4038 | the fixed and the growing buffer together are one string that one character is appended to |
| ChunkedStream.StreamLineReader.CStr | shared/include/net/httplib.h:3966-3972 | the C string read through the pointer is the line up to its first NUL, in either buffer |
| ChunkedStream.StreamLineReader.GetLine | shared/include/net/httplib.h:3987-4025 | reads exactly the next line with its line break (or the unfinished rest), fails at the end of the stream and for lines over 32768 characters |
| ChunkedStream.ChunkedDecoder.ReadPayload | shared/include/net/httplib.h:10474-10519 | for every stream and any pattern of short reads one call is one step of the decoder on values, fails only for the stated reasons, and consumes input whenever it delivers |
| ChunkedStream.NeverStuck | shared/include/net/httplib.h:10501-10516 | on the encoder's text an open chunk can always be read on |
| ChunkedStream.PayloadIsNextPending | shared/include/net/httplib.h:10474-10519 | on the encoder's text a call never fails, returns 0 exactly when nothing is pending, and otherwise delivers the next pending characters with their true offset and chunk size |
| ChunkedContent.ReadTrailers | shared/include/net/httplib.h:10521-10526 | one line is read: none is a failure, an empty one ends the body, any other begins a trailer section |
| ChunkedContent.ReadContentChunked | shared/include/net/httplib.h:5748-5781 | round trip: for any writes, any short reads, any buffer size and any callback the body is exactly the concatenation of the writes; PayloadTooLarge only when that exceeds the limit, an error only when the callback refuses the next piece of it; on any text, success means that it was a chunked body with exactly this payload; every piece of the body was accepted by the callback |
| Ranges.CoalesceKeepsPositions | shared/include/net/httplib.h:6799-6845 | for validated sorted ranges the result covers exactly the same positions, stays within the content and is sorted by start |
| Ranges.ReachedRepeatsComeOutSeparated | shared/include/net/httplib.h:6827-6842 | if every repeated range touches or overlaps something that starts before it, the result is strictly separated |
| Ranges.SeparatedExactly | shared/include/net/httplib.h:6795-6845 | the result is strictly separated in every order by start if and only if the position in front of every repeated range is covered |
| Ranges.DistinctRangesComeOutSeparated | shared/include/net/httplib.h:6827-6839 | without identical ranges in the input the result is strictly separated |
| Ranges.NormaliseKeepsTheRequest | shared/include/net/httplib.h:6867-6888 | a normalised range within the content holds exactly the positions asked for: all, a suffix, or a part |
| Ranges.OverlapsOnlyGrow | shared/include/net/httplib.h:6897-6904 | stopping at the third overlap decides the same as counting all of them |
| RangeRequests.SortByStart | shared/include/net/httplib.h:6795-6797 | a permutation in order of start |
| RangeRequests.FindOverlap | shared/include/net/httplib.h:6897-6904 | true if and only if the range overlaps an earlier one |
| RangeRequests.OverlapIsSharing | shared/include/net/httplib.h:6898-6899 | two ranges overlap if and only if they share a position; touching is not enough |
| RangeRequests.OverlapCountIsExact | shared/include/net/httplib.h:6896-6906 | the running count is the number of ranges that overlap an earlier one |
| RangeRequests.SatisfiableExactly | shared/include/net/httplib.h:6867-6894 | a range is accepted if and only if it asks for the whole of a non-empty content, for its last 1 to `len` bytes, or for a part that starts inside it |
| RangeRequests.RefusedExactly | shared/include/net/httplib.h:6860-6907 | a request is refused if and only if it has more than 1024 ranges, one that is not satisfiable, or three that ask for a position an earlier one asked for |
| RangeRequests.DisjointRangesAreServed | shared/include/net/httplib.h:6896-6904 | up to 1024 satisfiable ranges without a common position are never refused |
| RangeRequests.Request.CoalesceRanges | shared/include/net/httplib.h:6792-6846 | the loop over the sorted ranges computes the coalescing of some order by start |
| RangeRequests.OneMoreProcessed | shared/include/net/httplib.h:6891-6906 | checking and counting one range more is checking and counting all of them |
| RangeRequests.Request.Validate | shared/include/net/httplib.h:6853-6907 | in-place normalisation reports an error if and only if a range lies outside the content or more than two overlap an earlier one, and then exactly the ranges up to the first refused one are normalised; otherwise all are |
| RangeRequests.Request.RangeError | shared/include/net/httplib.h:6848-6914 | an error exactly for a 2xx answer to a request that is refused in the sense of `RefusedExactly`, with the ranges normalised up to the first refused one; otherwise the ranges cover exactly the positions asked for, within the content, sorted, and separated if the position in front of every repeated range is covered |
| Stun.DottedInOrder | cli_tool/include/utils.hpp:155-162 | the text of the unmasked address is that of its four octets, the first one first, each unmasked by its octet of the cookie |
| Stun.PortInOrder | cli_tool/include/utils.hpp:154 | the port is the number of its two unmasked octets, the high one first |
| Stun.FindMappedAddress | cli_tool/include/utils.hpp:149-169 | on any octets the loop ends, stays aligned, and returns what the scan on values finds; address and port are those of the received octets of an XOR-MAPPED-ADDRESS at an aligned place; it reads nothing behind the buffer when there is room behind the message |
| Stun.ScanIsWalk | cli_tool/include/utils.hpp:149-167 | on complete attributes no read leaves the buffer and the scan finds what the walk over the received octets finds |
| Stun.ReadsStayInsideExactly | cli_tool/include/utils.hpp:137-158 | no message of `n` octets makes the loop read behind a buffer of `size` octets if and only if `n < 28` or `n / 4 * 4 + 4 <= size` |
| Stun.RoomInAnAlignedBuffer | cli_tool/include/utils.hpp:137-149 | for a buffer of a multiple of four octets, such as 1024, that means a message that does not fill it |
| Stun.WalkFindsTheFirst | cli_tool/include/utils.hpp:149-167 | for any list of attributes of any lengths and padding the encoded list is well formed and the walk finds the first XOR-MAPPED-ADDRESS, or none |
| Stun.DecodeEncode | cli_tool/include/utils.hpp:153-158 | unmasking the masked address and port is the identity |
| Stun.ParseEncode | cli_tool/include/utils.hpp:149-167 | encoding an address behind any other attributes and parsing is the identity |
| Decimal.StoiReadsToDecimal | cli_tool/include/utils.hpp:59 | reading a printed number gives it back if it fits an `int` and throws otherwise |
| Decimal.StoiExactly | cli_tool/include/utils.hpp:59 | behind blanks and a sign the digits are read up to the first other character; without digits, or outside the range of an `int`, it throws |
| Address.UnpackPack | cli_tool/include/utils.hpp:50-78 | unpacking the packed address gives back public address, local address and port, whatever the separate fields say |
| Address.UnpackPackExactly | cli_tool/include/utils.hpp:288-293 | with only the packed field at hand this holds if and only if the public part has no `;`, the local part no `:`, and the port fits an `int` |
| Address.UnpackWithoutPort | cli_tool/include/utils.hpp:60-63 | a packed local address without a port is read with the default port 5173 |
| Address.UnpackAnyPort | cli_tool/include/utils.hpp:55-59 | whatever stands behind the colon is read by `stoi`; a negative port wraps around to 32 bits |
| Address.PackedForm | cli_tool/include/utils.hpp:288-293 | the form of the packed field, character by character |
| Address.UnpackPublicOnly | cli_tool/include/utils.hpp:63-78 | without a local address the public one comes back unchanged exactly if it has no `;`, and the local ones are those of the separate fields where there are any |
| HashLoop.Refill | cli_tool/include/crypto.hpp:21-22 | a read delivers the next bytes of the file and succeeds only if it filled the buffer |
| HashLoop.ComputeFileHash | cli_tool/include/crypto.hpp:12-38 | for every file length the blocks fed to the digest are full ones of 4096 bytes and a non-empty last one, and concatenate to exactly the file, and for a streaming digest the result is the printed digest of the whole file at once |
| HashLoop.HexStringExactly | cli_tool/include/crypto.hpp:34-36 | byte by byte: the lower-case digit of its high half, then that of its low half |
| HashLoop.ToHex | cli_tool/include/crypto.hpp:33-37 | two digits for every byte of the digest, in order |
| HashLoop.BlocksDoNotMatter | cli_tool/include/crypto.hpp:21-30 | for every streaming digest and every way of cutting the file the result is that of hashing the file at once |
| HashLoop.HexStringInjective | cli_tool/src/client.cpp:223-229 | printed hashes are equal if and only if the digests are |
| Wire.VarintLength | proto/v1/control.proto:18 | a number takes at most `k` octets if and only if it is below `128^k` |
| Wire.ShortIdFits | cli_tool/include/session.hpp:273-284 | every DATA datagram with an id of at most 109 bytes, any 64-bit offset and any payload of up to 1272 bytes has at most 1400 bytes |
| Wire.LongIdDoesNotFit | cli_tool/include/types.h:20-22 | with a longer id some full payload does not fit |
| Wire.HeaderAllowanceIsExact | cli_tool/include/types.h:20-22 | every DATA datagram fits the 1400-byte buffers of both peers if and only if the id has at most 109 bytes |
| Wire.PacketsAreNotEmpty | cli_tool/include/session.hpp:239 | a serialised packet is never empty, so an empty cache means that nothing was sent |
| Wire.DatagramReadsBack | proto/v1/control.proto:16-42 | a DATA datagram reads back field by field, in numbers, order and values |
| Wire.VarintReadsBack | proto/v1/control.proto:18 | every number reads back, whatever follows it |

## Left out

- Sockets, timers, console output and HTTP calls are replaced by events: a datagram arrives (a hole-punching one does not parse), or a wait times out. Exceptions of `send_to` and failures to write the output file are not modelled.
- Hello signatures, nonces, session keys and the `SecurePacket` message: the transfer does not depend on them. `HandshakeFinish` occurs only as one of the ways a datagram can be read.
- Protobuf messages are modelled as numbered fields (`Messages`), and a DATA datagram in octets (`Wire`); the octets of the other messages are not. Error messages carry their code and no text.
- The member `m_file_id` and the display name of the file, which nothing reads.
- 64-bit wrap-around: sender and receiver offsets stay at most the file size, so it cannot occur there; the sizes in `Wire` and `ChunkedCoding` are bounded explicitly.
- Receiver.ReceiveFile: the history of waits is finite, as an unlimited one from strangers would keep the loop waiting for ever.
- Progress.RoundsComplete: covers the states from which the rounds can succeed; `Progress.RoundsCompleteExactly` shows that from all others they do not.
- HandshakeRounds.PerformHandshake: what the 20 waits bring is given in advance; a `send_to` that throws is skipped by the original and counts as sent here.
- FormReader.FormComesBack: the reader of header lines is one that understands what the serialiser writes; the regular expressions of the original accept more.
- MultipartParser.FormDataParser.ReadHeaderLines: the regular expressions, trimming and decoding of one header line are a function of the form data so far and the line, which may reject it; a rejected line leaves the form data as it was, while the original may have recorded a part of it.
- MultipartLimits.RoundTripsExactly: is about items whose header lines hold no line break; what a line with a line break inside is read as depends on the reading of one header line.
- MultipartRoundTrip.RoundTripUnderAnySplit: callbacks that refuse are part of the parser model, but the round trip is about callbacks that accept; the closing boundary is followed by CRLF and no further epilogue (an epilogue that arrives together with the closing dashes is dropped, a line break that arrives later starts a new entry).
- ChunkedContent.ReadContentChunked: a stream over a fixed text, so reads report the end and never an error.
- ChunkedContent.ReadTrailers: a trailer section that is not empty gives a result of its own; its fields are not read.
- ChunkedCoding.WriteContentChunked: no compression, no trailers, and a stream that accepts every write.
- ChunkedCoding.HexRoundTrip: a write of `ULONG_MAX` characters is printed and read back, but the decoder takes that size for an overflow; such writes are excluded from the round trip.
- RangeRequests.SortByStart: sorting is modelled as an insertion sort on values; callers rely only on its being an ordered permutation.
- Stun.FindMappedAddress: a read behind the end of the receive buffer is undefined in the original and an outcome of its own here; the address family is not looked at, as in the original, so addresses that are not IPv4 are read as if they were.
- Address.UnpackPack: the JSON record around the addresses is not modelled; a field that has the wrong type is not covered.
- HashLoop.ComputeFileHash: SHA-256 is an abstract streaming hash, and a file that cannot be opened is not covered.
- The central server and its database, token generation, percent encoding, and everything else in the HTTP library.
