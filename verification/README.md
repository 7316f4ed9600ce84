# A verified model of rMake's protocols and in-place algorithms

rMake builds packages in chroots, on several nodes that talk over a message bus. This
project models the parts of it that carry their own algorithms or protocols, and proves what
they promise. `dafny verify dfyconfig.toml` checks all of it.

- **The message bus.** `Headers`, `FrameParts`, `Envelopes`, `MessageBus` (from
  `rmake/messagebus/envelope.py` and `messageprocessor.py`): a message is a 32-byte lead, a
  block of text headers and a payload. Writers and readers are resumable objects. Two message
  processors over a socket that takes and gives any number of bytes deliver every queued
  message once, in order. `BusClient` (from `busclient.py`) adds registration, stamping and
  the answers to remote calls. `Pipes` (from `rmake/lib/pipereader.py`) is the smaller
  relative: texts sent through a pipe after their lengths. `Progress` bounds what either
  leaves undone.
- **The lock file and the cache it guards.** `Locking` and `ChrootCache` (from
  `rmake/lib/locking.py` and `chrootcache.py`): state machines over the atomic steps of any
  number of processes, for a lock file that is unlinked and created again while others have it
  open. The cache's state machine contains the lock's, and takes its steps.
- **Algorithms with state.** `Commit` (the table of what a commit clones), `CommitOutcome`
  (what that table comes to, told from the troves alone) and `CommitClones` (the clone list,
  sources included), `UpdateSpecs` (the
  restrictions on what a rebuild updates), `Publisher` (corked, re-entrant event delivery),
  `RepoCache` and `CachingSource` (two read-through caches), `LogStore` (a log kept in two
  files and followed by polling), `NodeStore` (free job slots), `HttpAddress` (printing and
  parsing addresses), `AuthCache` (sliding expiry of sessions).
- `Bytes` and `Wrappers` hold byte strings, numbers, sorting, and the usual two datatypes.

## How it is modelled

- A byte string is a Dafny `string` with one character per byte. Exceptions are `Result` or
  `Option` values, and an assertion of the source that can fail is an error value.
- Objects whose methods change their fields are classes. What such a method does is stated
  against a function of its old state (what a writer has still to send, what a table should
  hold, what is owed to a subscriber), and the guarantees are proved of those functions.
- Code whose point is that many processes interleave (the lock file, the chroot cache, a log
  that is polled while it is written) is a state machine: `Next` has one case per system call
  or file operation, `Inv` is its invariant, and the guarantees hold in every state of every run.
- What the code leaves to Conary, the repository or the system is a parameter with a stated
  assumption: `findTroves` returns some of the troves it is given; the repository answers each
  question independently of the others; hashes are injective; a frozen list of troves read
  back lists the same troves. `fcntl` locks are those of the System Interfaces volume of
  POSIX.1-2017. The library functions of Python 2.7 that matter (`split`, `int`, `urlsplit`,
  `urlunsplit`, `seek`, the gzip reader) are written out.

## Where the code promises less than it seems to

Each of these is a lemma or a clause below.

- A header map survives printing and reading exactly when it is in normal form
  (`Headers.RoundTripExact`): leading blanks, unsorted lists and one-item lists do not.
- A bus message with an empty payload stops its reader: it is never a whole message
  (`MessageBus.EmptyPayloadFails`), its reader gets to the payload (`MessageBus.EmptyPayloadIsNext`),
  and the next call raises (`MessageBus.MessageProcessor.ProcessData`).
- A remote call made before the client is registered files its callback under
  `<no messageId>`; the answer, which carries the real id, never reaches it
  (`BusClient.Client.WhoHears`). A callback that raises, as the default one does, is not removed by
  its final answer (`BusClient.Client.HandleMessage`, `BusClient.Client.RaisingStays`).
- A commit is all or nothing for each trove when no trove is committed already. One that is, be
  it earlier or later in the list, can make another be cloned in part
  (`Commit.CommittedTroveBreaksOff`, `CommitOutcome.LaterCommittedTears`). For every list that
  mixes the two kinds, a trove ends whole or not at all exactly when it does not stand or is not
  torn (`CommitOutcome.WholeUnlessTorn`, `CommitOutcome.AllWholeExactly`): standing is decided
  by the keys and versions of the troves to be committed, as far as they are placed, and being
  torn by the keys of the committed ones alone. A trove that shares no key with a committed one is never torn
  (`CommitOutcome.ApartIsWhole`).
- A trove can be left out for one that is left out itself (`Commit.LoserMayHaveNoKeptRival`). It
  always loses to a kept one exactly when no trove beats another, is discarded later and leaves
  the other without a rival (`CommitOutcome.KeptRivalsExactly`); so it does when the troves come
  in the order of their versions (`CommitOutcome.AscendingKeepsRivals`).
- An empty text that is sent last through a pipe is returned only when something else comes, or
  the end of the file (`Pipes.Line.Run`).
- Jobs that are not in BUILD or STARTED and have more than one chroot at work reduce the
  count of free slots; the lemma `NodeStore.CountIsRight` says exactly when that shows.
- An address survives printing and parsing exactly when it meets eight conditions
  (`HttpAddress.PrintThenParse`); among them brackets that occur in user, password and host must
  come in both kinds, since `urlsplit` refuses the rest.
- A poll that counts its mark from the end of a log raises once only the compressed file is
  left (`LogStore.FromTheEnd`).
- Dependency results that come from the cache have lost their time stamps and may be in
  another order (`RepoCache.Cache.CachedIsUncached`).

## Model

| member | source | states |
|---|---|---|
| `Bytes.BigEndianRoundTrip` | rmake/messagebus/envelope.py:84-91 | the fixed-width integers of the lead can be read back |
| `Bytes.BigEndianAt` | rmake/messagebus/envelope.py:84-91 | each byte of a fixed-width integer of the lead, the most significant first |
| `Bytes.LittleEndianRoundTrip` | rmake/lib/pipereader.py:28-33 | a packed length can be read back |
| `Bytes.LittleEndianAt` | rmake/lib/pipereader.py:28-33 | each byte of a packed length, the least significant first |
| `Bytes.SortStringsSorts` | rmake/messagebus/envelope.py:169-170 | the items of a header are printed sorted, none lost or added |
| `Bytes.LexExactly` | rmake/messagebus/envelope.py:169-170 | the order of the items is that of the first byte in which they differ |
| `Headers.LinesConcat` | rmake/messagebus/envelope.py:197-207 | splitting a block into lines can stop anywhere and resume from the unfinished line |
| `Headers.ReadLinesConcat` | rmake/messagebus/envelope.py:197-207 | reading lines in two goes is reading them in one, errors included |
| `Headers.SortKeys` | rmake/messagebus/envelope.py:155-165 | the keys are printed once each, the four fixed ones first, then in byte order |
| `Headers.PrintedInOrder` | rmake/messagebus/envelope.py:156-165 | message type, message id, session id and time stamp come first as far as there are any, then the others in byte order |
| `Headers.TypeComesFirst` | rmake/messagebus/envelope.py:155-171 | a message with a type is printed with it in the first line, as key, colon, blank and value |
| `Headers.ReadPrintedLine` | rmake/messagebus/envelope.py:170-182 | a printed line is read back as its key and its value without leading blanks |
| `Headers.ReadLineExactly` | rmake/messagebus/envelope.py:173-182 | what any line does, for every way of spacing it: blank, without a colon after its first word, or a header with the rest of the line as its value |
| `Headers.AppendExactly` | rmake/messagebus/envelope.py:146-153 | a header that occurs again gets one item more and becomes a list; the others stay |
| `Headers.UnfinishedRaises` | rmake/messagebus/envelope.py:208-216 | a block that does not end with a newline raises |
| `Headers.PrintThenRead` | rmake/messagebus/envelope.py:155-216 | reading what was printed gives the normal form of the headers, for all headers that can be printed by lines |
| `Headers.RoundTripExact` | rmake/messagebus/envelope.py:146-182 | printing and reading gives the map back if and only if no value starts with a blank and lists are sorted with two items at least |
| `FrameParts.LeadRoundTrip` | rmake/messagebus/envelope.py:102-118 | a frozen lead can be thawed, for all sizes that fit its fields |
| `FrameParts.LeadLayout` | rmake/messagebus/envelope.py:84-118 | the 32 bytes of a lead, each field at its place |
| `FrameParts.FitsExactly` | rmake/messagebus/envelope.py:84-88 | the protocol has 16 bits, the sizes 32 |
| `FrameParts.ThawedExactly` | rmake/messagebus/envelope.py:102-118 | 32 bytes are thawed to a lead if and only if it freezes to them; the wrong magic raises |
| `FrameParts.PLead.ThawFromStream` | rmake/messagebus/envelope.py:55-81 | a lead that arrives in pieces is that of thawing its 32 bytes at once; until then the bytes are kept and the fields unchanged |
| `FrameParts.PHeader.Freeze` | rmake/messagebus/envelope.py:155-171 | the loops print the headers in their order |
| `FrameParts.PHeader.ReadLine` | rmake/messagebus/envelope.py:173-182 | a line adds its header, or raises and changes nothing |
| `FrameParts.PHeader.TakeLines` | rmake/messagebus/envelope.py:199-207 | all completed lines are read and just the unfinished one is kept |
| `FrameParts.PHeader.ThawFromStream` | rmake/messagebus/envelope.py:189-216 | however a block is cut, headers and errors are in the end those of reading it at once |
| `Envelopes.Envelope.ThawLead` | rmake/messagebus/envelope.py:302-304 | one piece of the lead, at most what is missing of it |
| `Envelopes.Envelope.ThawHeader` | rmake/messagebus/envelope.py:306-309 | one piece of the header block, of the size the lead announces |
| `Envelopes.Envelope.ThawPayload` | rmake/messagebus/envelope.py:397-417 | one piece of the payload; the message is complete with the last byte announced; raises if and only if the lead announces none |
| `Envelopes.Envelope.ThawFromStream` | rmake/messagebus/envelope.py:368-424 | at most one receive of a bounded size; a completed message is what reading its whole frame at once gives; an error comes from the bytes received, and a payload announced as empty is one |
| `Envelopes.FrameLayout` | rmake/messagebus/envelope.py:228-287 | a frame is a lead of protocol 1 with both sizes, then the header block, then the payload |
| `Envelopes.EnvelopeWriter.SendHead` | rmake/messagebus/envelope.py:236-254 | what was accepted of lead and header block, and what is left, make up what was left before; it stops early only when the socket takes no more |
| `Envelopes.EnvelopeWriter.SendPayload` | rmake/messagebus/envelope.py:261-287 | the same for the payload; finished exactly when all announced bytes are accepted |
| `Envelopes.EnvelopeWriter.Call` | rmake/messagebus/envelope.py:228-287 | accepted bytes and remaining bytes make up the frame over any calls, and each call adds as much as the socket takes; true exactly when nothing remains |
| `MessageBus.MessageProcessor.SendMessage` | rmake/messagebus/messageprocessor.py:47-53 | the message goes to the end of the queue |
| `MessageBus.MessageProcessor.ProcessData` | rmake/messagebus/messageprocessor.py:27-39 | one read, which takes something if anything is asked for; hands out the message whose frame was received, and otherwise keeps the partial envelope; raises at a payload announced as empty |
| `MessageBus.ExtractedExactly` | rmake/messagebus/messageprocessor.py:41-45 | a message is built if and only if it has a type and no header is a list; headers and payload stay as they are |
| `MessageBus.MessageProcessor.SendData` | rmake/messagebus/messageprocessor.py:61-74 | the bytes moved are the next of those pending, of the message being written or else the first of the queue, and as many as the socket takes |
| `MessageBus.ReceivedUnchanged` | rmake/messagebus/messages.py:177-184 | a message is received as it was sent if and only if no header value starts with a blank |
| `MessageBus.NoFrameError` | rmake/messagebus/envelope.py:368-424 | no part of the bytes of a message that can be sent makes the reader raise |
| `MessageBus.WholeFrame` | rmake/messagebus/messageprocessor.py:41-45 | a complete frame among the bytes of a message is that message's frame, and reads as the message |
| `MessageBus.EmptyPayloadFails` | rmake/messagebus/envelope.py:398-400 | the frame of a message without payload is an error, and never counts as a whole message |
| `MessageBus.EmptyPayloadIsNext` | rmake/messagebus/envelope.py:390-400 | a reader that has got all of such a frame is at its payload, where the next call raises |
| `MessageBus.Link.SendMessage` | rmake/messagebus/messageprocessor.py:47-53 | queueing keeps the invariant of the connection: delivered is first sent, and the bytes on their way are those of the rest |
| `MessageBus.Link.SendData` | rmake/messagebus/messageprocessor.py:61-74 | a write to a socket that takes any number of bytes keeps the invariant, and writes as many of the first message |
| `MessageBus.Link.ProcessData` | rmake/messagebus/messageprocessor.py:27-39 | a read of any length keeps the invariant, never raises, and reads something if there is anything |
| `MessageBus.Link.Run` | rmake/messagebus/messageprocessor.py:27-74 | for every interleaving of sends, writes and reads of any lengths: delivered messages are those sent first, once and in order, and all of them when nothing is left on the way; what is left is at most what the schedule leaves undone |
| `MessageBus.Link.Perform` | rmake/messagebus/messageprocessor.py:27-74 | what one action does about what is left: queueing adds the bytes of the frame, a write to a willing socket and a read with all written make progress |
| `MessageBus.EnoughActions` | rmake/messagebus/messageprocessor.py:58-74 | with as many willing writes as bytes to write and then as many reads as bytes to read, nothing is left |
| `Progress.EnoughIsEnough` | rmake/messagebus/messageprocessor.py:58-74 | the same for what any connection has to write and to read |
| `MessageBus.ReadAgrees` | rmake/messagebus/envelope.py:368-424 | what a reader can read belongs to the first message not yet delivered |
| `MessageBus.HandOutStep` | rmake/messagebus/messageprocessor.py:34-37 | a message handed out is the first one due, and exactly its bytes are used up |
| `MessageBus.NothingLeft` | rmake/messagebus/messageprocessor.py:58-59 | with nothing queued, half sent or in the socket, no message is due |
| `BusClient.IdInjective` | rmake/messagebus/busclient.py:359-362 | message ids of different sessions or counts differ, for all session ids |
| `BusClient.IdsLookLikeThis` | rmake/messagebus/busclient.py:359-362 | an id is the session id, a colon and the count in decimal |
| `BusClient.Session.Stamp` | rmake/messagebus/busclient.py:359-362 | the message gets the session's id and the next count |
| `BusClient.Session.SendMessage` | rmake/messagebus/busclient.py:349-357 | before registration messages wait, except connection requests; afterwards each is stamped and sent; order and numbering invariants hold |
| `BusClient.Session.Register` | rmake/messagebus/busclient.py:311-320 | all that waited is sent in order with increasing numbers, and nothing else is stamped |
| `BusClient.Session.InOrderOnce` | rmake/messagebus/busclient.py:311-362 | at any time the application's messages are sent or waiting in the order they were sent, with increasing numbers and distinct ids; only connection requests go unstamped |
| `BusClient.Client.CallRemoteMethod` | rmake/messagebus/busclient.py:159-164 | a call made while registered files its callback under a new id; one made before files it under the missing id, replacing any there |
| `BusClient.Client.Take` | rmake/messagebus/busclient.py:181-187 | an answer goes to the callback of its call, whose further calls are made in order, each with its callback; the entry goes if and only if the answer is final and the callback returns |
| `BusClient.Client.HandleMessage` | rmake/messagebus/busclient.py:177-190 | what a registration, a call, an answer and any other message change, and which calls are made in reaction; settled calls stay settled |
| `BusClient.Client.WhoHears` | rmake/messagebus/busclient.py:159-187 | a stamped message has a callback if and only if it is a call made while registered and not finally answered; calls made too early never have |
| `BusClient.Client.RaisingStays` | rmake/messagebus/busclient.py:166-187 | a callback that always raises keeps its entry for ever |
| `BusClient.Client.Dealt` | rmake/messagebus/busclient.py:181-187 | recording an answer keeps the history sound: every answer went to its caller and none came after a final one |
| `Pipes.PipeReader.HandleRead` | rmake/lib/pipereader.py:57-94 | a returned text is the next one sent; otherwise none is lost, and bytes are used up; the reader closes exactly at the end of the file |
| `Pipes.PipeReader.ReadText` | rmake/lib/pipereader.py:60-75 | the text is returned with its last byte, an empty one without reading |
| `Pipes.PipeReader.ReadLength` | rmake/lib/pipereader.py:76-94 | the length is known with its eighth byte |
| `Pipes.PipeReader.NothingLeft` | rmake/lib/pipereader.py:60-75 | with all bytes read every text was returned, but for an empty one that takes one more call |
| `Pipes.PipeWriter.Send` | rmake/lib/pipereader.py:136-139 | the length and the text are appended to what is to be written |
| `Pipes.PipeWriter.HandleWrite` | rmake/lib/pipereader.py:141-147 | what is written and what is left make up what was left; something is written if there was anything |
| `Pipes.Line.Run` | rmake/lib/pipereader.py:57-163 | for every order of sends, writes, reads and a close: the texts returned are those sent first, and all of them when nothing is on the way; without a close, what is left is at most what the schedule leaves undone, but for an empty text at the end |
| `Pipes.FrameLayout` | rmake/lib/pipereader.py:28-33 | a text on the wire is its length in eight bytes and itself |
| `Pipes.Line.Perform` | rmake/lib/pipereader.py:57-163 | what one action does about what is left to be written and read |
| `Pipes.EnoughActions` | rmake/lib/pipereader.py:154-163 | enough writes and then enough reads leave nothing |
| `Locking.NextInv` | rmake/lib/locking.py:57-105 | every step of every process keeps the invariant of locks and path |
| `Locking.UnlinkIsAlone` | rmake/lib/locking.py:100-103 | who is about to unlink is the only one relying on the file |
| `Locking.MutualExclusion` | rmake/lib/locking.py:57-105 | in every run two processes hold the lock at once only if both share it, and the path names the inode locked |
| `Locking.OpensThePath` | rmake/lib/locking.py:58-58 | opening gives the file the path names, or a new one that nobody has open or locked |
| `Locking.UnlinkIsSafe` | rmake/lib/locking.py:93-105 | a release unlinks the file it has locked, and nobody holds the lock then |
| `Locking.BlockedByMovers` | rmake/lib/locking.py:74-90 | no deadlock: who cannot move waits for a lock, and all who have locks can move |
| `Locking.WaiterCanSucceed` | rmake/lib/locking.py:57-105 | from every state there is a continuation in which a process that waits, wherever it is in its attempts, gets its lock |
| `Locking.OthersCanAllGiveUp` | rmake/lib/locking.py:93-105 | from every state the other processes can run, on their own, until none of them has a lock |
| `Locking.WaitingIsNotRefused` | rmake/lib/locking.py:79-90 | acquiring with wait never returns False |
| `Locking.RefusedForCause` | rmake/lib/locking.py:57-84 | in every run, an attempt that failed met a conflicting lock of another process without blocking, or a path that no longer named its file, and has done nothing since |
| `Locking.WaitsAfterFailing` | rmake/lib/locking.py:82-90 | a waiting process that failed once blocks from then on, until it has the lock |
| `Locking.BlocksAfterFailing` | rmake/lib/locking.py:82-90 | in every run only a waiting process that failed before blocks |
| `Locking.BlockedExactly` | rmake/lib/locking.py:57-72 | a process cannot move if and only if its attempt blocks and the lock is not to be had |
| `Locking.AloneSucceeds` | rmake/lib/locking.py:57-105 | with no competitor the lock is had in three steps and released in three, and the file is gone |
| `ChrootCache.NextInv` | rmake/lib/chrootcache.py:276-300 | every step of every operation, lock steps included, keeps the invariant |
| `ChrootCache.WriterIsAlone` | rmake/lib/chrootcache.py:276-300 | while the cached root is copied in or removed, no other process uses it |
| `ChrootCache.NoOverlap` | rmake/lib/chrootcache.py:276-300 | in every run only copies out overlap with each other |
| `ChrootCache.RestoresAreWhole` | rmake/lib/chrootcache.py:288-295 | in every run each restore has read a whole root that a store had finished |
| `ChrootCache.StoredWereCopiedIn` | rmake/lib/chrootcache.py:282-284 | in every run, what counts as stored was copied in by a store before |
| `ChrootCache.LoneOperation` | rmake/lib/chrootcache.py:276-300 | an operation alone, whichever way it runs: a store fills an empty path and leaves a filled one, a restore reads the root that is there, a removal empties the path |
| `ChrootCache.LoneCompletes` | rmake/lib/chrootcache.py:276-300 | an operation alone can run through, with that outcome, and leaves no lock file |
| `ChrootCache.OnlyStoresGiveUp` | rmake/lib/chrootcache.py:279-281 | in every run only a store gives up for a busy lock |
| `ChrootCache.BusyStoreGivesUp` | rmake/lib/chrootcache.py:279-281 | a store that finds the lock taken gives up in three steps and has changed nothing |
| `ChrootCache.RestoresOverlap` | rmake/lib/chrootcache.py:292-294 | a restore can join another that is copying out |
| `Commit.BuildTable` | rmake/cmdline/commit.py:108-182 | the nested loops with their breaks build the table of the specification |
| `Commit.BuildBinaries` | rmake/cmdline/commit.py:138-181 | the loop over the binaries of one trove, with both breaks and the removal of a loser |
| `Commit.DiscardWhole` | rmake/cmdline/commit.py:163-169 | discarding a trove removes all of its binary entries and nothing else |
| `Commit.PlaceBinariesInv` | rmake/cmdline/commit.py:138-181 | placing a trove leaves every trove so far whole, or dropped and beaten |
| `Commit.AllOrNothing` | rmake/cmdline/commit.py:108-185 | with no trove committed already, each trove is cloned with all its binaries in their own versions, or not at all and beaten by one whose version is not later; nothing else is cloned but sources |
| `Commit.KeptTrovesDisjoint` | rmake/cmdline/commit.py:142-181 | no two kept troves want the same name, branch and flavor |
| `Commit.CommittedTroveBreaksOff` | rmake/cmdline/commit.py:144-148 | a trove that meets a committed one keeps the binaries placed before it |
| `Commit.PlacedExactly` | rmake/cmdline/commit.py:138-181 | whether a trove ends whole, in part or dropped is known from the table before its first binary is placed |
| `Commit.WholeUnlessBrokenOff` | rmake/cmdline/commit.py:142-178 | a trove is placed whole or not at all if and only if the first of its binaries to be stopped, if any, is its very first or is stopped by a trove not yet committed |
| `CommitClones.SourcesCloned` | rmake/cmdline/commit.py:122-136 | the sources cloned are exactly those of the local troves, with or without their binaries |
| `CommitClones.BinariesCloned` | rmake/cmdline/commit.py:138-185 | the binaries cloned are exactly those that survive of the troves that stand |
| `CommitClones.SourceOnlyClones` | rmake/cmdline/commit.py:133-136 | with sources alone to be committed, the clone list is exactly the sources of the local troves |
| `CommitClones.TableNotes` | rmake/cmdline/commit.py:110-146 | each branch cloned from is mapped to its parent, the sources to check are those of the local troves, and a trove built elsewhere is noticed |
| `CommitClones.RefusedExactly` | rmake/cmdline/commit.py:127-132 | a commit is refused if and only if two versions of one source component are in it |
| `CommitOutcome.CommittedStep` | rmake/cmdline/commit.py:116-120 | a committed trove takes its keys from whoever has them and moves no trove that stands |
| `CommitOutcome.LocalStep` | rmake/cmdline/commit.py:138-181 | placing a trove gives the entries that the keys and versions of the troves so far say |
| `CommitOutcome.TableHoldsOutcome` | rmake/cmdline/commit.py:108-182 | for every list of committed and uncommitted troves, the table holds exactly what survives of the troves that stand, and a committed binary at every key taken |
| `CommitOutcome.EnteredExactly` | rmake/cmdline/commit.py:108-182 | a binary is in the table if and only if its trove stands and it survives the committed ones |
| `CommitOutcome.WholeUnlessTorn` | rmake/cmdline/commit.py:108-185 | a trove ends whole or not at all if and only if it does not stand or committed ones before and after it take none or all of its places |
| `CommitOutcome.AllWholeExactly` | rmake/cmdline/commit.py:108-185 | the commit is all or nothing for every trove if and only if no trove that stands is torn |
| `CommitOutcome.AloneUnlessTorn` | rmake/cmdline/commit.py:108-185 | for a trove that shares no key with another to be committed, being torn alone decides |
| `CommitOutcome.ApartIsWhole` | rmake/cmdline/commit.py:108-185 | a trove that shares no key with a committed one is cloned whole or dropped, having lost to one not later, whatever else is committed already |
| `CommitOutcome.LaterCommittedTears` | rmake/cmdline/commit.py:118-119 | a committed trove that comes later takes one of the keys of a trove that stands |
| `CommitOutcome.FallenWasBeaten` | rmake/cmdline/commit.py:149-178 | a trove that does not stand gave way to one that did, or was displaced |
| `CommitOutcome.KeptRivalsExactly` | rmake/cmdline/commit.py:149-178 | every trove left out has a kept one to which it may lose, if and only if none beats another, is discarded later and leaves it without a rival |
| `CommitOutcome.AscendingKeepsRivals` | rmake/cmdline/commit.py:149-178 | in the order of versions, every trove left out shares a key with a kept one that is not later |
| `Commit.LoserMayHaveNoKeptRival` | rmake/cmdline/commit.py:149-178 | a trove can be left out though it has no key in common with a kept one |
| `Publisher.Publisher.Subscribe` | rmake/lib/publisher.py:87-98 | a function is added once to the state's list; nothing else changes |
| `Publisher.Publisher.Emit` | rmake/lib/publisher.py:57-85 | corked, the event is saved for its subscribers, dispatchers and listeners, and nobody is called; else the dispatchers get it as a list and then the listeners, with all that follows, exactly once; what it calls for is owed, and made up for |
| `Publisher.Publisher.EmitNow` | rmake/lib/publisher.py:70-85 | calling subscribers while corked, then uncorking, makes exactly the deliveries owed |
| `Publisher.OneForEachPlace` | rmake/lib/publisher.py:60-81 | an event calls for one delivery for each place a function has among the dispatchers and among the listeners of its state |
| `Publisher.Publisher.SaveForAll` | rmake/lib/publisher.py:60-69 | each subscriber gets the event behind what is saved for it, and keeps the form in which it was first saved |
| `Publisher.Publisher.Uncork` | rmake/lib/publisher.py:38-55 | the last cork off, everything saved is handed over exactly once, in any order of functions, to a dispatcher as one list and to a listener one by one, with all that follows; else nothing changes but the count |
| `Publisher.Publisher.Execute` | rmake/lib/publisher.py:35-85 | any program of emits and nested corks keeps the balance of deliveries owed and made, whatever state the functions called keep; if they keep none, it has the effect of its events alone |
| `Publisher.Publisher.ExactlyOnce` | rmake/lib/publisher.py:35-85 | outside all corks and calls, the deliveries made are, as a multiset, those that all emitted events call for, whoever emitted them and however functions react |
| `Publisher.Publisher.Call` | rmake/lib/publisher.py:43-48 | a call makes one delivery; corked, what the function emits is saved in order |
| `Publisher.Publisher.RunQuietly` | rmake/lib/publisher.py:35-85 | if subscribers do not emit, each receives exactly the events it subscribed to, once each in emission order, however corked, and nothing stays behind |
| `Publisher.ExactlyItsEvents` | rmake/lib/publisher.py:57-81 | a function's part of the deliveries called for is its events in order, whatever is corked |
| `Publisher.TotalConcat` | rmake/lib/publisher.py:38-48 | what two lists of deliveries lead to adds up |
| `Publisher.TotalSplit` | rmake/lib/publisher.py:42-48 | what is owed can be handed over function by function |
| `Publisher.TotalUnfold` | rmake/lib/publisher.py:70-85 | making deliveries and saving what they cause leaves exactly that owed |
| `RepoCache.Cache.Scan` | rmake/lib/repocache.py:154-176 | dependencies in the store are found; the others, sorted again, line up with the places noted |
| `RepoCache.InOrderSorts` | rmake/lib/repocache.py:162-162 | the dependencies of a set come by the tag of their class, and then by name |
| `RepoCache.IdentitiesCount` | rmake/lib/repocache.py:83-87 | a list of troves counts for its identities only, each as often as it occurs |
| `RepoCache.Cache.MissingAnswer` | rmake/lib/repocache.py:183-186 | the j-th missing dependency in sorted order is the one at the j-th place noted, so results and places line up |
| `RepoCache.Cache.FillIn` | rmake/lib/repocache.py:180-195 | the repository's results land in their places and in the store, which stays coherent |
| `RepoCache.Cache.AddAnswer` | rmake/lib/repocache.py:187-193 | storing an answer keeps the store coherent, since hashes do not collide |
| `RepoCache.Cache.ResolveDependenciesByGroups` | rmake/lib/repocache.py:150-196 | every dependency set gets, in its sorted order, the repository's answers, or those answers read back where the store had them; the store stays coherent, holds every answer afterwards, and is unchanged if read-only |
| `RepoCache.Cache.CachedIsUncached` | rmake/lib/repocache.py:83-87 | whatever the store holds, answers name the troves the repository names, and equal its answers where nothing was stored |
| `RepoCache.Cache.GetFileContents` | rmake/lib/repocache.py:273-298 | contents are the repository's, in order, from a coherent store or fetched; the store holds them afterwards |
| `RepoCache.Cache.GetChangeSets` | rmake/lib/repocache.py:220-271 | changesets are the repository's; raises if and only if a job is no install or its trove is missing; the store holds them afterwards |
| `RepoCache.Cache.HasTroves` | rmake/lib/repocache.py:198-218 | the answer for every trove is the repository's |
| `LogStore.NextInv` | rmake/db/logstore.py:82-112 | every file operation of the writer and every step of a poll keeps the invariant |
| `LogStore.NextFiles` | rmake/db/logstore.py:92-112 | both files stay in step with the log, while opening, copying, writing and closing |
| `LogStore.NextClient` | rmake/db/database.py:319-332 | what a client has stays the log up to its mark |
| `LogStore.NoGapNoRepeat` | rmake/db/database.py:319-332 | in every run a client polling from 0 with the returned marks has exactly the beginning of what was written, also when files come and go during its polls |
| `LogStore.BothHoldTheLog` | rmake/db/logstore.py:82-112 | between writes both files hold all writes of all sessions; between sessions the compressed one does |
| `LogStore.PollCatchesUp` | rmake/db/logstore.py:59-73 | a poll between sessions brings a client fully up to date |
| `LogStore.ReadGivesAll` | rmake/db/database.py:326-332 | a read at a mark within the file gives all the rest of it, and the mark is its end |
| `LogStore.PollRuns` | rmake/db/database.py:319-332 | a poll can always be made; it gives all that the file found holds, and changes nothing but what the client has |
| `LogStore.PollFollows` | rmake/db/database.py:319-332 | a poll of a build that runs leaves the client with all that was written before its read |
| `LogStore.SessionRuns` | rmake/db/logstore.py:92-112 | from between sessions one that writes any data can run; the log is that much longer then, and the compressed file holds all of it |
| `LogStore.NoLogYet` | rmake/db/database.py:322-325 | a poll without any log gives nothing and the mark 0 |
| `LogStore.RaisesExactly` | rmake/db/logstore.py:68-73 | a poll raises only over a compressed file that is being extended or should be read from its end |
| `LogStore.FromTheEnd` | rmake/db/database.py:326-332 | a negative mark gives the end of the plain file, and raises exactly when only the compressed file is found |
| `UpdateSpecs.ApplyIsComplete` | rmake/cmdline/buildcmd.py:361-381 | one spec keeps the packages: the names used stay those of the new list |
| `UpdateSpecs.ChosenIsComplete` | rmake/cmdline/buildcmd.py:351-381 | for all specs the result is drawn from old and new troves and has exactly the new list's names |
| `UpdateSpecs.ApplyToPackage` | rmake/cmdline/buildcmd.py:361-381 | what one spec does to one package: nothing, or its matches replace the others that match |
| `UpdateSpecs.Unconcerned` | rmake/cmdline/buildcmd.py:354-376 | a package no spec concerns stays as built or is updated, as the sense of the first spec says |
| `UpdateSpecs.LastDecides` | rmake/cmdline/buildcmd.py:351-381 | the last spec that concerns a package decides it |
| `UpdateSpecs.AddMention` | rmake/cmdline/buildcmd.py:331-340 | specs mentioned again move to the end and take the new sense |
| `UpdateSpecs.MeantExactly` | rmake/cmdline/buildcmd.py:307-334 | a restriction updates if and only if it does not start with a dash; its specs are the packages matching the rest of its name, or that name, with the version and flavor asked |
| `UpdateSpecs.SingleRestriction` | rmake/cmdline/buildcmd.py:315-381 | what a single restriction, with a dash or without, does to every package |
| `UpdateSpecs.SingleDash` | rmake/cmdline/buildcmd.py:315-381 | for a single `-x`, the packages that match keep their old troves and every other package is the new one |
| `UpdateSpecs.SinglePlain` | rmake/cmdline/buildcmd.py:315-381 | for a single `x`, the packages that match or are new are the new ones and every other package keeps its old troves |
| `UpdateSpecs.MatchUpdateRestrictions` | rmake/cmdline/buildcmd.py:289-382 | the loops apply each mentioned spec with the sense of its last mention, later mentions later; packages are never dropped or invented |
| `NodeStore.GetSlotCount` | rmake/db/nodestore.py:135-140 | the slots of active nodes, but at least one |
| `NodeStore.NodeAdds` | rmake/db/nodestore.py:135-140 | one node more adds its slots if it is active, and else nothing |
| `NodeStore.GroupByJob` | rmake/db/nodestore.py:117-125 | every job with active chroots on active nodes, with their number, and no other |
| `NodeStore.ChrootAdds` | rmake/db/nodestore.py:117-125 | one chroot more adds one for the job of its trove if chroot and node are active |
| `NodeStore.UsedIs` | rmake/db/nodestore.py:126-131 | what is counted as used is what current jobs need plus what others have beyond one chroot |
| `NodeStore.GetEmptySlots` | rmake/db/nodestore.py:104-132 | the exact count, for all tables; never negative and never above total slots less current jobs |
| `NodeStore.JobAdds` | rmake/db/nodestore.py:112-131 | one job more takes a slot, or one for each of its chroots, if it was started or builds |
| `NodeStore.CountIsRight` | rmake/db/nodestore.py:104-132 | the count is what current jobs leave free if and only if no other job has two chroots at work or nothing is left |
| `HttpAddress.PrintThenRead` | rmake/lib/rpcproxy.py:174-181 | a printed port can be read back |
| `HttpAddress.HostPartSplits` | rmake/lib/rpcproxy.py:125-129 | host and port come apart again, bracketed or not; an empty host raises |
| `HttpAddress.UserPartSplits` | rmake/lib/rpcproxy.py:161-169 | user and password come apart again when host has no `@` and user no `:` |
| `HttpAddress.ReassembledExactly` | rmake/lib/rpcproxy.py:145-152 | path, query and fragment come back from being taken apart if and only if none that is started is empty |
| `HttpAddress.PrintThenParse` | rmake/lib/rpcproxy.py:125-191 | for every http or https address with a host, printing and parsing restores it if and only if it is restorable |
| `HttpAddress.RestorableIsRestored` | rmake/lib/rpcproxy.py:125-191 | what exactly is parsed from a restorable address that was printed |
| `HttpAddress.DefaultPort` | rmake/lib/rpcproxy.py:107-123 | without a port, with credentials and brackets or not, an https address has port 443 and an http address port 80 |
| `HttpAddress.DefaultPortPlainly` | rmake/lib/rpcproxy.py:107-123 | the same for a plain host |
| `HttpAddress.PortIsNumber` | rmake/lib/rpcproxy.py:174-181 | a port that is no number raises |
| `HttpAddress.NumberWithBlanks` | rmake/lib/rpcproxy.py:177-178 | a number is read with blanks around it and with either sign |
| `HttpAddress.PasswordNotShown` | rmake/lib/rpcproxy.py:125-139 | an address printed without its password does not show it |
| `HttpAddress.OtherSchemasRefused` | rmake/lib/rpcproxy.py:101-104 | other schemas are refused |
| `HttpAddress.HalfBracketsRefused` | rmake/lib/rpcproxy.py:148-148 | brackets of one kind only are refused |
| `HttpAddress.GoodQuery` | rmake/lib/rpcproxy.py:151-152 | a query survives being taken apart if and only if it is not empty |
| `HttpAddress.GoodFragment` | rmake/lib/rpcproxy.py:151-152 | so does a fragment |
| `HttpAddress.EmptyParts` | rmake/lib/rpcproxy.py:161-187 | empty brackets are an empty host, and an empty user is none |
| `HttpAddress.NumberForLocation` | rmake/lib/rpcproxy.py:148-157 | a number after `https:` makes the whole text the path |
| `AuthCache.AuthenticationCache.DeleteOld` | rmake/db/authcache.py:72-77 | purges expired rows at most every five seconds; every row expires after the last purge |
| `AuthCache.AuthenticationCache.Cache` | rmake/db/authcache.py:50-70 | the session is remembered, and the invariant kept |
| `AuthCache.AuthenticationCache.CheckCache` | rmake/db/authcache.py:79-91 | a hit was touched less than 905 seconds ago, a session touched within 900 is hit, and a hit is a touch |
| `AuthCache.AuthenticationCache.HitsAreRecent` | rmake/db/authcache.py:72-91 | what a purge leaves is recent, and what is recent is left |
| `CachingSource.Lookup` | rmake/lib/recipeutil.py:438-439 | the entry found is one for this very request; none is found only if there is none |
| `CachingSource.CachingSource.FindTroves` | rmake/lib/recipeutil.py:426-447 | the result, error or mapping, is that of the source for every request; the cache stays right |
| `CachingSource.CachingSource.FindTrove` | rmake/lib/recipeutil.py:449-450 | one trove is found as in the source; nothing found is an error |

## Left out

- Sockets, polling loops, reconnection, timeouts, forking and signals; one connection is modelled, and partial frames are those of that connection.
- The blocking path of reading an envelope and its `maxRead` argument, which the bus does not use.
- Bus messages as shared objects: `messageQueue` holds the contents of messages rather than envelope objects, so changing a message's header dictionary after it was queued is not captured; header values are strings, in the form numbers are printed in.
- Leads whose stream set has its fields in another order or with other sizes: they count as `BadLead`; the layout is that of the tests in `rmake_test/functional_test/pluginstest/messagebustest/envelopetest.py`.
- MessageBus.Link.Run: assumes of each message what its classes give it, headers that are words with values free of newlines, a message type, a payload that is not empty, and sizes below 2 to the 32; `Envelope.setHeaders` checks none of it.
- Logging, and the payload's XML-RPC form.
- BusClient.Session.SendMessage: a message object is sent at most once; sending it again would stamp the object that is still queued.
- BusClient.Session.Register: does not take an empty session id while messages wait; the loop over them would not end.
- BusClient.Client.HandleMessage: the same; and what a local method does with a call is its own sending of messages.
- Short-circuit calls to oneself, and an exception's way out of a callback.
- LockFile as a class: acquiring and releasing are steps of a state machine, since what matters is how they interleave; errors other than EAGAIN and several lock objects of one process for one path are not captured.
- Crashes in the middle of copying a root, the `.used` marker, temporary names, tar-based caches, listing and pruning.
- The rest of a commit: which jobs and troves are chosen, exclusions, the clone itself and what follows; versions are compared by a given rank.
- CompressedLogWriter as a class: writing, closing and polling are steps of a state machine, since they interleave; crashes between the two files and deletion of logs are not captured. Reading a compressed file while it is being extended may raise, and the client polls again.
- Publisher.Publisher.Uncork: exceptions in subscribed functions, which reset the count of corks, and subscriptions made from inside one, are not captured; a dispatcher's reaction to a list of events is that to each in turn.
- Publisher.Publisher.Emit: exceptions in subscribed functions, which clear what is saved, are not captured.
- Publisher.Publisher.EmitNow: the same.
- Publisher.Publisher.Execute: the same; and events published in reaction have smaller levels, so that publishing ends.
- The order in which specs of one restriction are applied: it is that of a Python set, so any order.
- RepoCache.Cache.ResolveDependenciesByGroups: does not model the caller that returns an empty mapping when there are no groups; hash keys are abstract questions rather than texts.
- Concurrent use of one repository cache, and its temporary files.
- The tables' other columns and the methods that change them; slot counting reads a snapshot.
- HTTPAddress as a class: an address is a value, built whole instead of having its password set afterwards; schemas other than http and https are refused, as the dispatching function does for those it does not know.
- Retries on a locked authentication database, and the memcache variant; a cache starts with no rows of its own sessions.
- Command lines, display, XML-RPC handlers, job storage, schema migration and the C helpers: thin layers over libraries, or copying of columns.
