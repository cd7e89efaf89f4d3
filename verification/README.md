# A verified model of the ESP32 WhatsApp platform layer

This project models the parts of the firmware that hold its state and its protocols, and proves what they promise.

* **The flash-backed store** (`Prelude`, `RecordName`, `Records`, `Image`, `SessionSlots`, `Nvs`, `Flash`, `RecordRuns`, `Lru`,
  `LruRecency`, `Mirrors`, `Store`, `StoreRuns`, `Replay`, `Boot`). The NVS partition is a class that applies one write or
  removal at a time; each may fail, and a ghost trail keeps every content the flash has had, which is what a power loss can
  leave. A namespace of hashed names is seen as a plain map from logical keys; SHA-256 is any function to 32 bytes, so names
  may collide. The store keeps capped mirrors in RAM over it; its invariant says how each mirror relates to flash on boards
  with and without PSRAM, and any run of its operations is served as by a store that keeps nothing in RAM. Opening replays
  the records, finishes an interrupted reset and settles the latest sync key.
* **Maintenance** (`Supervisor`). The coordinator and the maintenance task run among requesters and writers that may act
  wherever maintenance lets them.
* **The WebSocket codec** (`Sockets`, `WsCodec`, `WsClient`, `WsWire`; RFC 6455). The resumable reader is proved against a
  parser of the whole stream, for every way the stream is delivered. Like the reader, the parser accepts length forms that
  are not the shortest. `WsWire` says in bytes what the parser makes of frames.
* **The transport worker** (`Outbound`, `Transport`). One socket thread and one executor over a bounded event channel and a
  bounded write queue; the worker drives the modelled WebSocket client, and a ghost log of its attempts to write says what
  a server can read of them.
* **HTTP bodies** (`Chunked`, `ChunkedWire`, `ChunkedReader`, `HttpHead`, `Http`, `HttpText`; RFC 9112). The chunked reader
  against a decoder of the whole input, which accepts exactly the encodings, and the buffered and the streaming response
  path against one meaning of a response. `HttpText` says in characters what status, framing and body a response has.
* **Trusted-contact tokens** (`TcTokens`).

`dafny verify dfyconfig.toml` checks everything.

## How the statements read

* *Fault.* Where a contract says "but for faults", a ghost counter records each time the medium failed; the contract
  speaks about the runs in which it did not move.
* *Fit, reopenable.* A flash content is reopenable when the boot accepts it. A running store stays fit, and every content
  in its trail is reopenable: no writable store is one that cannot be opened again.
* *Mirrors.* Identity, session and sync-key mirrors are parts of flash; pre-key, signed pre-key and sender-key mirrors
  equal it. So every load answers what a store without mirrors would.
* *Reset.* `ResetMoment` is what a power loss during a reset can leave, `BootMoment` what one during a boot can leave;
  `Boot.ResetIsAllOrNothing` chains any number of them. `MaintenanceMoment` is the same for a maintenance run with its
  retries.

## What turned out otherwise

* Token order. The two upserts of a trusted-contact token are meant to converge whatever order they arrive in.
  `TcTokens.OrderIsIrrelevantIff` says exactly when they do; three cases are left out. With a real token received: an empty
  one at or after the time of the newest, or a different one of that very time. With empty tokens only: two of different
  times. With no token at all: two touches of different times, of which the entry keeps the first as its own timestamp.
  `TcTokens.EmptyTokenMakesOrderMatter` is an input of the first kind.
* Would-block. The comment at `src/ws.rs:22-24` says that the reader returns nothing on would-block and timed-out reads;
  the code at `src/ws.rs:497-502` does the same for interrupted ones. The model follows the code.
* Pong. The answer to a ping is sent at `src/transport.rs:441-443` and its failure ignored, so what was written of it stays in
  the stream before whatever is written next, and the server takes the next frame for the rest of the pong. A `send` can
  then be told of success for a message that is never read: `Transport.CutPongState` is such a worker. Client and server
  stay in step exactly when no attempt leaves a frame cut short (`Outbound.InSyncIff`, `Outbound.NextJobIsReadIff`), and
  as long as they do every success reported is kept (`Transport.ReportedJobsAreRead`).
* Sync keys. When the second write of a new sync key fails, flash names a latest key that RAM does not. The next boot takes
  that key if one of its id was stored before, and else the newest; `Boot.LatestAfterTornSyncKey` says exactly when it
  agrees with the running store, `Boot.RewritingStoredKeyDisagrees` gives an input for which it does not.
* Session clear. One that fails part-way leaves RAM in agreement with flash exactly when the board has no PSRAM or nothing was
  erased (`Mirrors.MirrorsAfterFailedClearIff`); with PSRAM an erased session may stay mirrored until the retry
  (`Mirrors.ErasedSessionStaysMirrored`).

## Model

| member | source | states |
|---|---|---|
| RecordNames.RecordName | src/storage.rs:874-889 | The shift-and-or loop stays in bounds and yields fifteen characters, character i encoding bits 5i to 5i+4 of the digest |
| RecordNames.NameKeepsExactly75Bits | src/storage.rs:872-889 | Two digests share a name if and only if their first 75 bits agree |
| RecordNames.NameCharacter | src/storage.rs:874-889 | Each character of a name from the weights of its five bits |
| Records.DecodeEncode | src/storage.rs:830-870 | A record of any key up to 512 bytes and any value decodes to exactly that key and value |
| Records.EncodeDecode | src/storage.rs:830-870 | The format is canonical: what decodes is the encoding of what it decodes to, with the key bound kept |
| Records.RecordBytes | src/storage.rs:830-870 | The format byte by byte: magic, key length low byte first, key, value; a record decodes to a key and a value, and is their encoding, exactly when it is laid out so |
| Records.PutContents | src/storage.rs:576-587 | Filing a record under a free name, or over the same key, changes that logical key and no other |
| Records.DeleteContents | src/storage.rs:591-620 | Removing a key's record removes that logical key and no other |
| Records.CountsAgree | src/storage.rs:767-774 | Every record is filed under a logical key of its own: there are as many records as logical keys, so the durable budget counts keys |
| Images.SubMapReplayable | src/storage.rs:414-457 | Whatever is left of a replayable namespace after erasures passes the count, size, name and format checks of the replay |
| Images.PutKeepsFit | src/storage.rs:507-587 | A put that passed the slot check leaves a store the next boot accepts; only its own key changed |
| Images.DeleteKeepsFit | src/storage.rs:591-620 | A delete leaves a store the next boot accepts; only its own key is gone |
| Images.SlotVerdictIff | src/storage.rs:507-560 | What the slot check reads from flash accepts exactly those records |
| Images.ReplayableIff | src/storage.rs:363-457 | A namespace passes the boot replay exactly when it is not too full and each record, byte by byte, is one whose key and value pass and which sits under the name of its key |
| Images.LoadedDeviceIff | src/storage.rs:318-336 | The boot finds a device exactly when the blob under its name is a record of the device key with a payload in bounds that parses, and none exactly when there is no such blob |
| Images.LoadedMarkerIff | src/storage.rs:659-675 | The same for the marker of the latest sync key |
| SessionSlot.SessionSlots.Matches | src/storage/session_slots.rs:11-17 | Tells an uncached name, a cached match and a cached mismatch apart |
| SessionSlot.SessionSlots.Remember | src/storage/session_slots.rs:20-29 | The new state in full: the name moves to the back with its key, the oldest of eight is forgotten |
| SessionSlot.RememberedOnlyForgets | src/storage/session_slots.rs:20-29 | One slot per name, never more than eight, and nothing in the cache but the new slot and old ones under other names |
| SessionSlot.RememberedKeepsRecent | src/storage/session_slots.rs:22-28 | Nothing is forgotten while there is room, and then only the oldest slot |
| NvsPartition.Nvs.SetBlob | src/storage.rs:718-733 | A blob and its commit are one step: applied, or failed with nothing changed |
| NvsPartition.Nvs.RemoveBlob | src/storage.rs:735-741 | Removing an absent blob commits nothing; otherwise one step |
| NvsPartition.Nvs.ReadBlob | src/storage.rs:808-828 | Absent, too large, or the blob itself; a fault only when the medium fails |
| NvsPartition.Nvs.EraseNamespace | src/storage.rs:743-765 | Success means the namespace was seen empty; at every moment, failed or not, only records of that namespace are missing |
| FlashRecords.FlashNamespaces.LoadRecord | src/storage.rs:460-494 | Answers what the namespace, seen as a plain map, holds under the key; fails only by a fault |
| FlashRecords.FlashNamespaces.CheckRecordSlot | src/storage.rs:507-560 | With or without the cache, a record is accepted, under the key's own name, exactly when it is small enough and either replaces the key's own record or finds its name free and room left; but for faults |
| FlashRecords.CachedVerdict | src/storage.rs:530-541 | A cached slot answers exactly what reading the flash would answer |
| FlashRecords.FlashNamespaces.PutRecord | src/storage.rs:562-587 | Accepted exactly as the slot check says, but for faults; then its own logical key changes and no other. A refused or failed one changes nothing |
| FlashRecords.FlashNamespaces.DeleteRecord | src/storage.rs:591-620 | Removes its own key only; an absent key is harmless, a record of another key under the name is refused |
| FlashRecords.FlashNamespaces.LoadRecords | src/storage.rs:363-457 | Yields every logical key once with its value exactly when the count, size and name checks all hold, but for faults |
| FlashRecords.EntriesEnumerate | src/storage.rs:374-404 | Records met in any name order are the entries of the plain map, each key once |
| FlashRecords.FlashNamespaces.SaveDevice | src/storage.rs:338-361 | Once saved, the device is what the next boot loads; refused only for its size |
| FlashRecords.FlashNamespaces.LoadDevice | src/storage.rs:318-336 | Absent, unreadable, or the device whose record is filed under the right key |
| FlashRecords.FlashNamespaces.SaveLatestSyncKeyId | src/storage.rs:677-686 | Once saved, the marker reads back as that id, and a pending reset is neither raised nor cleared |
| FlashRecords.FlashNamespaces.LoadLatestSyncKeyId | src/storage.rs:659-675 | The recorded id, none, or a reason it cannot be read |
| FlashRecords.FlashNamespaces.PutLatestSyncKey | src/storage.rs:1663-1679 | Marker then key: success records both, one after the other; failure leaves the contents as they were or with the new marker added, and is explained by a fault or the slot check |
| FlashRecords.FlashNamespaces.HasSignalRecords | src/storage.rs:622-636 | True exactly when one of the six Signal namespaces holds a record |
| FlashRecords.FlashNamespaces.EraseSignal | src/storage.rs:639-650 | Success leaves device and reset marker alone and nothing else; on the way records only disappear |
| FlashRecords.FlashNamespaces.CompleteReset | src/storage.rs:652-657 | Every moment still carries the reset marker or is already blank |
| FlashRecords.FlashNamespaces.ResetAll | src/storage.rs:692-703 | The marker comes before the first erasure and goes after the last; success leaves the blank store |
| FlashRecords.FlashNamespaces.ClearSessions | src/storage.rs:1178-1183 | Erases the session records alone, keeps the rest reopenable, and counts what was on flash |
| FlashRecords.FlashNamespaces.NamespaceAddresses | src/storage.rs:790-806 | The addresses returned are exactly the logical keys stored |
| RecordRuns.Run | src/storage.rs:460-620 | Refinement over whole runs: any sequence of puts, deletes and loads behaves as a plain map to which the successful writes were applied, and whatever fails does so for a fault, the slot check, or a record of another key under the name |
| RecordRuns.SteppedRefines | src/storage.rs:460-620 | What each operation does on its own makes the whole run a run of the plain map |
| FlashRecords.ResetMomentsReopen | src/storage.rs:692-703 | Every moment of a reset can be reopened |
| FlashRecords.ResetMomentTransitive | src/storage.rs:692-703 | A reset taken up again where a failure or a power loss left it is still a reset of the original contents |
| Lru.Trim | src/storage.rs:186-248 | The eviction loop drops the oldest overflow from order and map, one key at a time, sparing the protected one |
| Lru.TouchTracks | src/storage.rs:171-176 | Touching keeps the order a permutation of the map's keys |
| Lru.RemoveTracks | src/storage.rs:177-181 | Removing keeps the order a permutation of the map's keys |
| Lru.EvictShape | src/storage.rs:229-248 | What survives an eviction is the protected key, if it was old, and then the youngest keys in their order |
| Lru.TrimKeeps | src/storage.rs:200-248 | After trimming the order is still a permutation of the keys, the protected key is kept, and the size is within the cap, plus one for a protected key |
| Lru.TrimWithProtectedLast | src/storage.rs:1680-1685 | When the protected key is the one just used the cap itself is met |
| LruRecency.UsedKeyStaysMirrored | src/storage.rs:158-193 | Whatever came before, a used key stays through any later events until it is deleted, all is cleared, or at least cap distinct other keys are used |
| Mirrors.IdentityStaysMirrored | src/storage.rs:200-208 | Without PSRAM a used identity stays mirrored until deleted, reset, or eight distinct other identities are used |
| Mirrors.IdentityUsed | src/storage.rs:1258-1261 | Mirroring an identity that flash holds, with its eviction, keeps every mirror in agreement with flash |
| Mirrors.UseKeepsYoungest | src/storage.rs:170-220 | What a use leaves mirrored: with PSRAM everything, without it exactly the youngest entries up to the cap |
| Mirrors.UseKeepsYoungestAndLatest | src/storage.rs:221-248 | For sync keys: the eight youngest, and the latest besides if it is older |
| Mirrors.SessionUsed | src/storage.rs:1401-1403 | The same for sessions, whose mirror is empty without PSRAM |
| Mirrors.NumberStored | src/storage.rs:1494-1516 | Pre-key and signed pre-key mirrors stay equal to flash under little-endian keys |
| Prelude.LeBytesWeights | src/storage.rs:1508 | The weights of the four bytes under which a pre-key number is filed |
| Mirrors.SyncKeyUsed | src/storage.rs:1680-1685 | Recording a sync key keeps the mirror sound, the latest key in it, and within eight keys when it is the latest |
| Mirrors.SyncMirrorFacts | src/storage.rs:221-248 | In every state: the order is a permutation of the keys, the latest key is mirrored, every mirrored key is on flash, at most nine keys without PSRAM |
| Mirrors.MirrorCheckAgrees | src/storage.rs:902-909 | The capacity check on a mirror refuses nothing that flash itself would accept |
| Mirrors.NumberCheckAgrees | src/storage.rs:902-909 | The same for the mirrors keyed by number |
| Store.NvsStore.PutIdentity | src/storage.rs:1240-1263 | Success means it was written while unsealed, to its own key only, and mirrored as used last; it is refused only for the seal, a fault, or a record that cannot be filed: too large, name taken by another key, or no room. A key already stored can always be rewritten |
| Store.NvsStore.PutIdentitiesBatch | src/storage.rs:1270-1306 | A failure part-way leaves exactly the prefix before it, on flash and, use by use, in the mirrors; it stops only for the seal, a fault, or the verdict of flash on the next entry |
| Store.NvsStore.LoadIdentity | src/storage.rs:1308-1330 | Hit, miss and eviction alike answer what flash holds; either way what was found counts as used last, and nothing else changes |
| Store.NvsStore.DeleteIdentity | src/storage.rs:1332-1341 | Gone from flash and mirror, everything else kept |
| Store.NvsStore.GetSession | src/storage.rs:1343-1365 | Answers what flash holds, whatever was evicted, and counts as a use of what was found |
| Store.NvsStore.PutSession | src/storage.rs:1367-1405 | As for identities, with the size refused before the seal is looked at |
| Store.NvsStore.PutSessionsBatch | src/storage.rs:1411-1447 | A failure part-way leaves exactly the prefix before it, on flash and in the mirrors, identities untouched; it stops only for the seal, a fault, or the verdict of flash on the next entry |
| Store.NvsStore.DeleteSession | src/storage.rs:1449-1458 | Gone from flash and mirror, everything else kept |
| Store.NvsStore.HasSignalStateForUser | src/storage.rs:1467-1492 | True exactly when some persisted session or identity address belongs to the user, on both boards |
| Mirrors.AddressOfOwner | src/storage.rs:1468-1475 | `owner@server` and `owner:device@server` are addresses of that owner and of no other user id, longer or shorter |
| Store.NvsStore.StoreNumbered | src/storage.rs:1494-1560 | Pre-keys and signed pre-keys: written to their own key, mirrored, refused only for the seal, a fault, or a record that cannot be filed |
| Store.NvsStore.LoadNumbered | src/storage.rs:1518-1564 | The RAM answer is what flash holds |
| Store.NvsStore.RemoveNumbered | src/storage.rs:1522-1583 | Gone from flash and mirror, everything else kept |
| Store.NvsStore.PutSenderKey | src/storage.rs:1585-1607 | Written to its own key, and the mirror equals flash again; refused only for the seal, a fault, or a record that cannot be filed |
| Store.NvsStore.GetSenderKey | src/storage.rs:1609-1611 | The RAM answer is what flash holds |
| Store.NvsStore.DeleteSenderKey | src/storage.rs:1613-1622 | Gone from flash, and the mirror equals flash again |
| Store.NvsStore.GetSyncKey | src/storage.rs:1627-1646 | Answers what flash holds, parsed, whatever was evicted, and counts as a use of what was found |
| Store.NvsStore.SetSyncKey | src/storage.rs:1648-1695 | Success records the key and the marker, makes it the latest and brings the mirror within eight; failure leaves RAM as it was and flash as it was or with the new marker added, and comes only of the seal, a fault, or a record that cannot be filed |
| Store.NvsStore.SaveDevice | src/storage.rs:2020-2029 | Saved on flash and in RAM, or nothing changed |
| Store.NvsStore.LoadDevice | src/storage.rs:2031-2033 | The RAM answer is what the next boot would load |
| Store.NvsStore.DeviceExists | src/storage.rs:2035-2037 | True exactly when the next boot would load a device |
| Store.NvsStore.SealWrites | src/storage.rs:1204-1207 | From then on, with the contracts of the writes, no persisted write succeeds |
| Store.NvsStore.ClearSessions | src/storage.rs:1175-1187 | Sessions gone from flash and RAM, all else kept; a failure can be retried, and leaves RAM in agreement with flash exactly when the board has no PSRAM or nothing was erased |
| Mirrors.MirrorsAfterFailedClearIff | src/storage.rs:1175-1187 | After a session clear that failed part-way the mirrors agree with flash if and only if there is no PSRAM or nothing was erased |
| Mirrors.ErasedSessionStaysMirrored | src/storage.rs:1178-1184 | An input on which they do not: with PSRAM, one session, its record erased before the clear fails |
| Store.NvsStore.Reset | src/storage.rs:1193-1199 | Blank flash and empty RAM, or a moment of the reset that the next boot or another try completes; a failed one leaves the store usable exactly when it changed nothing |
| StoreRuns.Run | src/storage.rs:1175-1695 | Any run of store operations, whatever fails: each is answered, and changes flash, as by a store that keeps nothing in RAM, and fails only for the seal, a fault, or what that store refuses; without PSRAM every identity used is still mirrored unless deleted, reset, or eight others were used since. It ends early only where a failed erasure strands RAM, and then flash can be reopened and erased again |
| StoreRuns.RecentlyUsedIsMirrored | src/storage.rs:200-208 | The residency of identities, from the uses that the operations of a run and their answers amount to |
| Replay.ReplayCapped | src/storage.rs:975-1011 | Succeeds exactly when every record passes; the mirror then holds, with PSRAM, all records, and without it exactly those met last, as many as the cap allows |
| Replay.ReplayNumbered | src/storage.rs:1012-1030 | Succeeds exactly when every key is four bytes; the mirror then equals flash |
| Replay.ReplaySenderKeys | src/storage.rs:1031-1041 | Succeeds exactly when every key is UTF-8; the mirror then equals flash |
| Replay.ReplaySyncKeys | src/storage.rs:1042-1070 | Although it evicts as it goes, the replay keeps the newest key of the whole namespace, and at least as many keys as fit |
| Boot.RetainLatest | src/storage.rs:1096-1104 | Retaining the latest key alone is a sound mirror |
| Boot.ResolveLatest | src/storage.rs:1071-1104 | The recorded id wins if its key is on flash and can be read; otherwise the newest. Without PSRAM every sync key stays mirrored if they all fit; else a full mirror, or the latest alone |
| Boot.Open | src/storage.rs:945-1127 | Opens exactly the contents that can be reopened, but for faults; mirrors agree with flash and are as full as the replay makes them; the latest key is settled; every moment of the boot can be reopened |
| Boot.BootMomentReopens | src/storage.rs:960-964 | A power loss during recovery leaves contents that can be recovered in turn |
| Boot.ResetIsAllOrNothing | src/storage.rs:692-703 | Over any number of power losses, in the reset and in any following boots: the store as it was, or a blank one |
| Boot.UnlinkedResetLeavesNothing | src/storage.rs:1105-1108 | The same chain for a store that was not linked: no device, no Signal record and no reset marker after the next boot |
| Boot.BlankKeepsNothing | src/storage.rs:639-703 | A blank store has no device, no Signal record, no latest-key marker and no reset marker |
| Boot.NextBootAgreesIff | src/storage.rs:1071-1104 | For any contents a running store keeps: the next boot is bound to agree with RAM on the latest key if and only if the marker names a stored key and it is that one, or the marker names none and it alone is the newest |
| Boot.LatestAfterTornSyncKey | src/storage.rs:1661-1679 | After a failure between the two writes of a sync key, its id new or stored before: which keys the next boot may take, and exactly when it is bound to agree with RAM |
| Boot.RewritingStoredKeyDisagrees | src/storage.rs:1661-1679 | An input on which it does not: a stored key rewritten while another is the latest |
| Supervisor.MaintenanceCoordinator.Request | src/supervisor.rs:136-152 | An open window accepts every request and tells only the first caller ever to start; a closed one accepts none |
| Supervisor.MaintenanceCoordinator.Requested | src/supervisor.rs:154-160 | The greatest of all accepted actions, or a reboot |
| Supervisor.MaintenanceCoordinator.BeginReboot | src/supervisor.rs:165-172 | Closes the window exactly when nothing accepted outranks what was applied |
| Supervisor.MaintenanceCoordinator.IsIdle | src/supervisor.rs:174-177 | Idle exactly when open and nothing was ever accepted |
| Supervisor.Attempt | src/storage.rs:1219-1227 | Any persisted write: once sealed it changes nothing at all |
| Supervisor.Others | src/supervisor.rs:136-152 | Any number of requests and writes in between keep the coordinator and the store sound |
| Supervisor.RunMaintenance | src/supervisor.rs:191-282 | Requests and writes of others fall between any two steps, also between the last look at what is requested and the closing of the window. Without a fault three rounds reach the reboot. Then: window closed and the greatest accepted action applied. After a plain reboot the store was never sealed and flash is as others left it; otherwise it is the action's outcome on the contents at the seal. Maintenance writes nothing before the seal, and every content after it is a moment of maintenance |
| Supervisor.Round | src/supervisor.rs:218-276 | One round without a fault applies whatever was accepted before it, and fails to close only because something greater was accepted since; it seals only if something greater than a reboot was accepted |
| Supervisor.NextBootAfterMaintenance | src/supervisor.rs:217-276 | After a reset the next boot finds nothing; after a session clear no session and all else as at the seal |
| Supervisor.MaintenanceIsAllOrNothing | src/supervisor.rs:217-276 | Over any number of power losses, in maintenance with its retries and in any following boots: the store at the seal less some sessions, or a blank one |
| WsCodec.ParseExtends | src/ws.rs:212-253 | More bytes only extend the frames already parsed, and an error is final |
| WsCodec.HeadIsLocal | src/ws.rs:345-446 | The verdict on a header stands whatever follows it |
| WsCodec.AdmittedIsBounded | src/ws.rs:401-434 | What is checked before allocation bounds frame plus partial message by max(max_frame, max_message + 125) |
| WsCodec.FrameRoundTrip | src/ws.rs:345-446 | An admitted frame parses back to itself and leaves the rest of the stream alone |
| WsCodec.ControlsPass | src/ws.rs:466-469 | Control frames are delivered in order and leave the message in progress alone |
| WsCodec.MessageDeliveredOnce | src/ws.rs:450-494 | Any cut of a message into frames, with any control frames between them, is delivered once, whole, after those control frames |
| WsWire.EachOpcode | src/ws.rs:450-494 | The bytes of a ping, a pong, a text and a binary frame, and what each delivers, whatever follows |
| WsWire.CloseRoundTrip | src/ws.rs:564-575 | The bytes of a close frame, code high byte first, deliver that code and reason; an empty one delivers that there was none |
| WsWire.BadClose | src/ws.rs:564-575 | A close payload of one byte, or with a reason that is not UTF-8, is a protocol error |
| WsWire.RefusedIff | src/ws.rs:345-446 | The complete list of protocol errors in a header, on its bytes and the limits; with one of them nothing more is ever delivered |
| WsWire.LengthForms | src/ws.rs:388-400 | The three forms of a length, by the weights of their bytes |
| WebSocket.WsClient.Fill | src/ws.rs:307-327 | Takes from the front of what is unread, leftover or stream; no byte is lost or repeated |
| WebSocket.WsClient.TakeHeader | src/ws.rs:345-390 | The first two bytes are judged before more is awaited; a header cut anywhere is resumed; it stops short only when the stream does |
| WebSocket.WsClient.ReadHeader | src/ws.rs:345-446 | A header is admitted or refused as the one-shot parser does, before anything is allocated; it stops short only when the stream does |
| WebSocket.WsClient.FillPayload | src/ws.rs:330-342 | A payload cut anywhere is resumed; it stops short only when the stream does |
| WebSocket.WsClient.Deliver | src/ws.rs:450-494 | A complete frame has the effect the parser gives it |
| WebSocket.WsClient.ReadFrame | src/ws.rs:212-253 | Returns what the one-shot parser finds next in everything sent so far and later, for every delivery, and nothing only when the stream made it wait or failed; retained bytes never exceed max(max_frame, max_message + 125) |
| WebSocket.WsClient.ReadAll | src/ws.rs:212-253 | Repeated calls return the frames of the one-shot parse, then its error or the end; one call more than the frames left and the waits on the way reaches it, unless the stream fails |
| WebSocket.Connect | src/ws.rs:147-199 | The client reads exactly what follows the blank line of the answer, leftover included; it is refused only by a fault, too many waits, an answer cut off or too long, or the checks on it; an accepted answer exceeds the limit by less than one read |
| WebSocket.WsClient.SendFrame | src/ws.rs:269-304 | Writes the frame of opcode, payload and mask, or a prefix of it on a fault; oversize control frames are refused unwritten |
| WebSocket.WsClient.WriteFrame | src/ws.rs:276-304 | The 256-byte blocks amount to the masked payload |
| WebSocket.ClientFrameRoundTrip | src/ws.rs:269-304 | A server reads FIN, the opcode and the exact payload, and the length form is the shortest |
| WsWire.ClientFrameBytes | src/ws.rs:276-304 | The bytes of a client frame up to 64 KiB: header, mask bit and length, mask, masked payload |
| WsWire.MaskedBitwise | src/ws.rs:292-304 | Each masked bit is the exclusive or of the payload bit and that of the mask byte whose turn it is |
| Transport.Link.Submit | src/transport.rs:191-202 | Accepted exactly when the queue is alive and has room; refused without effect |
| Transport.Link.Poll | src/transport.rs:203-207 | A job is answered with success exactly if it was written, after all those submitted before it; with failure exactly if it was taken and its write failed; abandoned exactly if it was never taken and the queue is gone |
| Transport.Link.SendBlocking | src/transport.rs:477-483 | The worker blocks on a full channel only when the write queue is gone and nobody awaits a write |
| Transport.Link.DropQueue | src/transport.rs:477-483 | Dropping the queue resolves every job in it |
| Transport.ForwardPending | src/transport/write_completion.rs:16-28 | The retained event is delivered, kept for a full channel, or lost to a closed one |
| Transport.Perform | src/transport/write_completion.rs:43-58 | Writes the frame whoever still waits and logs the attempt, then resolves the job with the outcome of that attempt |
| Transport.DrainWrites | src/transport.rs:398-419 | Jobs are written in submission order until none is left, one fails, or the burst is over, so every job there was gets written or a whole burst does; the bytes sent are those of the log, and its binary frames reported a success are the jobs written |
| Transport.ReadStep | src/transport.rs:432-474 | One poll: a binary message is retained, a ping answered and the attempt logged, a close or an error ends the run; nothing is read after a close |
| Transport.Serve | src/transport.rs:389-483 | The whole loop, as a receiver that stays is told it. At every moment: Connected, then the binary messages of the frames read, in wire order, all but perhaps the last, which is retained. At the end one Disconnected; nothing missing after a server close or read error, at most one message after shutdown or write failure. Every round but the last reads a frame, waits for the stream or finds the channel full, so enough rounds see the end. What was sent is the log of attempts: its successful binary frames are the jobs written, its pongs answer the pings in order. A shutdown requested beforehand ends it in the first round |
| Transport.Round | src/transport.rs:389-475 | A shutdown requested before the round ends the run in it: nothing more is read, and nothing written but a close frame. A round that goes on has read a frame, waited for the stream or found the channel full, exactly one of them, and has written every job there was or a whole burst |
| Transport.WsThread | src/transport.rs:303-485 | A failure to connect has its reason and is told by a single Disconnected; otherwise the story of the frames after the upgrade, inbound and outbound, so far or to the end, and enough rounds see the end; a disconnect requested beforehand ends it |
| Transport.ReportedJobsAreRead | src/transport.rs:203-207 | While no frame was cut short, and so whenever no write failed, a job whose sender was told of success is read by the server as a binary message, at its place in the order of submission |
| Transport.Emit | src/transport.rs:398-443 | What a send puts on the wire, whole, cut short or nothing, is what its entry in the log says |
| Outbound.IntactIsRead | src/transport.rs:398-443 | From attempts none of which is cut short a server reads exactly the frames written in full, in order, and holds nothing |
| Outbound.InSyncIff | src/transport.rs:398-443 | Client and server are in step at every moment of a run if and only if no attempt leaves a frame cut short |
| Outbound.NextJobIsReadIff | src/transport.rs:398-443 | A job written in full after a reply is read if and only if the reply was not cut short |
| Outbound.CutPongHidesJob | src/transport.rs:441-443 | The run of attempts after which a job reported a success is never read: the server reads no message at all |
| Transport.CutPongState | src/transport.rs:441-443 | A worker in that state: books in order, the sender told of success, no message read |
| Outbound.JobsAreRead | src/transport.rs:398-443 | With no frame cut short the jobs reported a success are the binary frames the server reads, but for one last job that failed and went out nevertheless |
| Chunked.DecodeEncode | src/http_chunked.rs:39-93 | Decoding inverts encoding for every body, chunk split, extension and trailer within the metadata budget, whatever follows |
| ChunkedWire.AcceptedIsEncoded | src/http_chunked.rs:39-93 | The converse: whatever is accepted is an encoding of the data it decodes to, followed by what is left |
| Chunked.HexRoundTrip | src/http_chunked.rs:57-65 | Every size has digits that parse back to it |
| ChunkedWire.HexIff | src/http_chunked.rs:57-65 | Digits have a value exactly if they spell it: in either case, after any zeros |
| Chunked.DecodeStays | src/http_chunked.rs:39-93 | A finished body does not depend on what follows it |
| Chunked.TruncationFails | src/http_chunked.rs:39-93 | Every strict prefix of an encoding is an error, never a shorter success |
| ChunkedReading.ChunkedReader.Line | src/http_chunked.rs:22-35 | The line the limit allows, consumed exactly, or an error |
| ChunkedReading.ChunkedReader.Trailers | src/http_chunked.rs:66-80 | The trailer loop ends on its shrinking budget, which never goes below zero |
| ChunkedReading.ChunkedReader.Read | src/http_chunked.rs:39-93 | Any buffer size and any source pieces: the bytes returned are the next of the decoded body; nothing only at its proper end |
| ChunkedReading.ChunkedReader.ReadToEnd | src/http_chunked.rs:39-93 | Gives the decoded body exactly when the decoder of the whole input succeeds, but for faults |
| HttpHead.ParseBodyFraming | src/http_client.rs:475-502 | The scan that gives up at the first bad line yields the framing of the whole head |
| HttpText.FramingIff | src/http_client.rs:475-502 | Line by line: a length exactly when one line alone carries content-length, writes out that number, and no line is about transfer encoding; chunked exactly when one line alone says so and no line gives a length; until the close exactly for neither; anything else is refused |
| HttpText.NumberIff | src/http_client.rs:490 | A number parses exactly if it is spelled by decimal digits, after any zeros and an optional plus sign, and is below the limit of its type |
| HttpText.FieldLineIs | src/http_client.rs:480-489 | The name and the value of a header line, with any space around them; the name is compared without case |
| HttpText.SameNameIff | src/http_client.rs:483-489 | Names are the same exactly when they differ at most in the case of ASCII letters |
| HttpText.LinesOfJoined | src/http_client.rs:479 | Lines come back as they were joined by CRLF, a last one without an ending included |
| HttpText.StatusIs | src/http_client.rs:504-515 | A status line of version, space, the digits of a number, and nothing or space and anything: the status is the number, if it fits sixteen bits |
| HttpText.StatusIff | src/http_client.rs:504-515 | For any first line: the status is what its second word writes out |
| HttpHead.BlankLineIgnored | src/http_client.rs:443-444 | Status and framing are the same with the blank line included, as streaming has it, and without, as the buffered path has it |
| Http.ParseHttpResponse | src/http_client.rs:517-547 | The buffered parser gives exactly the meaning of the response |
| HttpText.ReplyIs | src/http_client.rs:517-547 | What follows the first blank line is the body: all of it, or as much as the head declares, or there is no reply |
| HttpText.ChunkedReplyIs | src/http_client.rs:517-547 | A chunked response yields what its chunks hold |
| Http.DoRequest | src/http_client.rs:348-390 | The read loop succeeds exactly on responses within the size limit that have a meaning, but for faults |
| Http.ExactLengthReader.Read | src/http_client.rs:400-419 | Never more than the declared length, and an early end is an error |
| Http.DoStreamingRequest | src/http_client.rs:421-467 | Draining the body it returns gives the meaning of the response; refused only without meaning, with too long a head, or by a fault; a head is never accepted that is longer than the limit by more than one read |
| Http.FetchBothWays | src/http_client.rs:348-547 | The two paths agree: same status and body, or neither succeeds |
| TcTokens.TcTokenStore.TouchSenderTimestamp | src/storage.rs:1925-1953 | The contact's entry takes the touch, no other entry changes |
| TcTokens.TcTokenStore.StoreReceived | src/storage.rs:1960-1987 | The contact's entry takes or outdates the token, no other entry changes |
| TcTokens.OrderIsIrrelevantIff | src/storage.rs:1925-1987 | All orders of the same upserts end in the same entry if and only if they are settled |
| TcTokens.NewestTokenAndLargestTouch | src/storage.rs:1925-1987 | With a newest token the entry holds it and the largest sender timestamp |
| TcTokens.UniqueTokensAreSettled | src/storage.rs:1955-1987 | Non-empty tokens unique per timestamp are settled |
| TcTokens.EmptyTokenMakesOrderMatter | src/storage.rs:1969-1974 | Two upserts whose order shows: a token and an empty token of the same time |

## Left out

- Failed allocations: folded into the faults of the medium.
- Streaming replay (`src/storage.rs:414-457`): each record is visited as it is read; the model reads them all and then replays them, so the peak memory of the boot is not captured.
- RAM between an erasure that strands it and its retry: `StoreRuns.Run` ends there, and only says that flash is sound, that after a session clear every other mirror agrees with it, and that the erasure can be tried again; maintenance has sealed the store by then.
- Supervisor.Others: reads by other tasks are not among the interleaved steps, because they change neither flash nor the requests.
- Supervisor.RunMaintenance: tries an arbitrary but fixed number of rounds, because a medium that never stops failing keeps maintenance in its loop; without a fault three are proved to be enough.
- Transport.Serve: is watched for an arbitrary but fixed number of rounds and writes per round, because nothing bounds the life of a connection; a run still going on when the watch ends has its story so far.
- Transport.Link.SendBlocking: takes for granted that the receiver eventually makes room or goes away.
- Transport.Perform: does not model that the payload is released before its sender is woken.
- WsCodec.AdmittedIsBounded: assumes a message limit below the largest address, because at that limit the saturating sum admits any length.
- The upgrade request and the checks on the answer's headers: a parameter of `WebSocket.Connect`; so is how often it waits, in place of the 15-second deadline.
- UTF-8, JSON, SHA-256, white space: uninterpreted; of JSON only that what was written reads back is used, of UTF-8 decoding only that appended ASCII is appended, of white space only that digits are none.
- Writing an HTTP request, URLs, TLS, timeouts: not modelled; a timeout is a fault.
- The chunked reader's own 512-byte buffer: the source hands out arbitrary pieces instead.
- `cancel_start` (`src/supervisor.rs:180-184`): reached only when the executor's queue is gone.
- Listings, counts, the largest pre-key id, the device counter: read-only views of state that is modelled.
- RAM-only protocol maps other than the tokens, app-state versions and MACs, message secrets, expiry of tokens: direct map operations.
- Locks and mutex poisoning: each store method, coordinator method and channel operation is one step.
- Logging out and disconnecting the client during maintenance, dashboard, logging, metrics, network bring-up, core dumps: foreign calls.
