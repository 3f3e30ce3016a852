# A verified model of the registries, the write-back cache and the gate wire stack

The project models the parts of the repository whose correctness cannot be read off one function:

- **Registries over etcd** (`registry/player.go`, `registry/service.go`, `registry/peer.go`). Many nodes change one
  key-value store with transactions guarded by create revisions, and keep local copies fed by their own calls and
  by a watch. `Etcd` is the store with one revision per transaction. `Players` and `Services` are the two protocols as
  state machines over every interleaving of nodes, with lost requests and replies, crashes, restarts and stale
  requests; `Recovery` is what a node knows after a crash. `Watch` joins the service protocol to one node's copy of the
  table, `Peers` is the copy of the node attributes. `PlayerRegistry` and
  `ServiceRegistry` are the calls themselves as methods of objects, each proved to commit the protocol's transaction.
- **The word trie** (`registry/service.go`) that indexes service names: `TrieModel` is what it stands for, a map from
  word sequences to paths, and `Trie` the linked nodes that are changed in place.
- **The write-back document cache** that `gen/gen_model/gen_model.go` generates (the `userarr` template, for one
  schema: primary key, secondary key, id, payload): `WriteBack` is the cache as a value, with the invariant that ties
  flags and trackers to the collection; `UserArr` is the generated code with its document objects. `BehaviorLog` is the
  sibling template of `gen/gen_behavior/gen_behavior.go`, a batched queue that puts a batch back when its write fails.
- **The gate wire stack** (`gate/packet/codec.go`, `gate/message/message.go`, `gate/crypto/crypto.go`,
  `gate/conn.go`): `Packet`/`Codec`, `Message`/`MessageCodec` and `Crypto` are the layers, `Outbound` composes them from
  a `Push` or `Response` to what the client receives, `Inbound` and `Conn` follow the bytes a server reads through the
  handshake to the messages it hands on.

Objects that the code changes in place are classes with the same fields; each carries a ghost value, tied to the
fields by its `Valid()`, and every method says that this value changes as the specification function says. The main
results are the lemmas about those functions and about runs of the state machines.

Where the code does not keep what one would expect, the model follows the code and a lemma says exactly when it does:

- With two node types `/user/U` changes hands under its first holder (`Players.TwoTypesDisagree`), exactly by the
  transactions of another type on that user (`Players.UserKeyChanges`). The revision a lock returns is usable for an
  unlock exactly when no other type held the user (`Players.LockRevisionUsable`).
- After a restart the entries are and stay exact precisely as long as no request of the node commits and no reply tells
  it anything new (`Recovery.RestartRecovers`); whole calls of its own, with their replies, keep them exact
  (`Recovery.LockCallKeepsExact`, `Recovery.UnlockCallKeepsExact`). A late lock, unlock or sweep of the dead process spoils them
  (`Recovery.StaleRequestUndoesRecovery`, reachable by `Recovery.StaleSweepReachable`); the other users of the node keep
  entries that unlock in any case (`Recovery.RecoveredEntryStays`).
- A start-up cleanup does not ask who owns the name (`Services.CleanupKeepsPairing`). Entries that a watch rebuilt carry
  revision 0, so a shutdown leaves them in the store (`Services.ShutdownUndoesRegister`).
- A registration whose reply comes after its own delete event leaves a stale entry (`Watch.LateReturnHappens`). The copy
  of the table stays on track exactly when each reply finds its name in the copy or events still to come forget it
  (`Watch.Converges`), as for a node that gives up no name whose registration has not returned (`Watch.CarefulConverges`).
- Unregistering a service that nobody owns is an index out of range (`ServiceRegistry.Registry.UnregisterService`).
- An address that is stored as the empty string leaves the url set (`Peers.UrlFollowsAddress`).
- Loading documents with a secondary key stored twice starts the cache out of step (`WriteBack.LoadAgrees`), and a save
  whose write fails altogether loses what it tracked (`WriteBack.FailedSaveLoses`).
- A batch of the log queue whose write reported an error after some or all of its inserts were carried out, as when the
  reply is lost, can never succeed again, since they meet their own ids (`BehaviorLog.RunKeepsInv`).
- A payload of one to three bytes can stay in the stream decoder although all of it has arrived (`Packet.BoundedLag`,
  `Packet.LagHappens`). The client's acknowledgement has such a payload.
- The packet encoder does not check the size limit that the decoder enforces (`Packet.EncodeDecode`).
- A payload that cannot be encrypted is sent as an empty one, and an empty response without a secret is lost
  (`Outbound.OneArrives`).
- The client of this repository does not encrypt requests although the server decrypts them under a secret; what the
  server hands on is the decryption of what was sent, whoever made it (`Inbound.RequestArrives`).

## Model

| member | source | states |
|---|---|---|
| Players.LockKeepsGood | registry/player.go:226-273 | a lock keeps the peer-type key and the holder's local key paired, with one create revision, and the revision it returns is honest |
| Players.UnlockKeepsGood | registry/player.go:275-315 | an unlock with an honest revision removes a whole lock or nothing |
| Players.SweepKeepsGood | registry/player.go:183-213 | a shutdown sweep keeps the keys paired |
| Players.LockOutcome | registry/player.go:226-273 | in a paired store a lock is granted exactly when no node of the caller's type has a local key of that user, whatever else is held; it then makes the caller the holder in three keys and changes no other, a refused one changes nothing |
| Players.UnlockOutcome | registry/player.go:275-315 | an unlock with an honest revision is carried out exactly when all three keys carry it, and then removes exactly these three |
| Players.SweepOutcome | registry/player.go:192-211 | a sweep removes exactly the three keys of a user whose local key of the node is there, and nothing otherwise |
| Players.TicketsSurvive | registry/player.go:183-315 | no transaction of anybody makes a revision that some node knows, or that is on the wire, dangerous |
| Players.SnapshotIsHonest | registry/player.go:137-152 | the entries read back at a restart are honest, and are all of the node's local keys |
| Players.RunKeepsInv | registry/player.go:137-315 | pairing and honesty hold after every run of locks, unlocks, sweeps, crashes and recoveries, with late, repeated and lost messages |
| Players.ExclusionPerType | registry/player.go:226-250 | in every reachable state the peer-type key names a node iff that node has its local key, and at most one node of a type holds a user |
| Players.Fencing | registry/player.go:192-211 | while a node holds a user, no step of another node, whatever stale entry it acts on, touches a key of that lock |
| Players.RunKeepsAgreed | registry/player.go:232-298 | as long as one type only locks a user, the user key and the peer-type key are the same entry or both absent |
| Players.ThreeKeysAgree | registry/player.go:232-298 | with one type, the three keys name the same holder in every reachable state, with one create revision |
| Players.LockRevisionUsable | registry/player.go:245-289 | the revision a lock returns unlocks exactly when the user key did not exist before |
| Players.TwoTypesDisagree | registry/player.go:232-250 | in every state where nobody holds a user, one lock of each of two types leaves two holders, and the user key names the second at the first one's create revision |
| Players.UserKeyChanges | registry/player.go:192-298 | a holder loses the user key to a step of another node exactly when that is a committing transaction of another type on that user |
| Recovery.SnapshotIsExact | registry/player.go:90-152 | with one type, a snapshot holds exactly the users whose user key names the node, each with a revision that unlocks and its login time |
| Recovery.OwnStepKeepsEntries | registry/player.go:137-315 | once a node's entries are exact, a step of the node keeps them so exactly when it commits nothing and tells the node nothing new |
| Recovery.SnapshotStaysExact | registry/player.go:137-152 | over any run a snapshot stays exact exactly as long as no request of its own node commits |
| Recovery.EntriesStayExact | registry/player.go:90-315 | over any run exact entries stay exact exactly as long as no request of the node commits and no reply or crash changes what it knows |
| Recovery.OthersLeaveAlone | registry/player.go:137-315 | no run of the other nodes changes what a node holds, what it knows, or its messages |
| Recovery.RestartRecovers | registry/player.go:137-152 | after a crash at any point: what is read back is exactly what is held, stays so until the read returns exactly when no request of the node commits meanwhile, and then is what the node knows, for exactly as long as EntriesStayExact says |
| Recovery.EntryStays | registry/player.go:226-315 | a user held with an entry that unlocks stays so in every run without a crash, a release of that user or a reply about it, whatever else the node and the others do |
| Recovery.RecoveredEntryStays | registry/player.go:137-152 | so every recovered user can be unlocked at any later time, also after other calls of the node |
| Recovery.LockCallKeepsExact | registry/player.go:226-273 | a whole lock call of the node, up to its reply, leaves exact entries exact, with the new user |
| Recovery.UnlockCallKeepsExact | registry/player.go:275-315 | so does a whole unlock call, without the user |
| Recovery.RecoveryRestoresEntry | registry/player.go:90-117 | an entry that is still good before a crash comes back unchanged, for any mix of types |
| Recovery.StaleRequestUndoesRecovery | registry/player.go:183-315 | each lock, unlock or sweep of the dead process that still commits after a recovery leaves an entry without a held user or a held user without an entry |
| Recovery.StaleSweepReachable | registry/player.go:183-213 | such a request is on the wire after a lock, its reply and the start of a sweep |
| PlayerRegistry.Registry.LockLocalUser | registry/player.go:226-273 | the call commits the protocol's lock unless the request is lost; in a paired store it succeeds exactly when no node of the type has a local key of the user; the local entry changes only when the reply arrives, and then carries the revision; a refusal names the known holder of the peer-type key |
| PlayerRegistry.Registry.UnlockLocalUser | registry/player.go:275-315 | the call commits the protocol's unlock with the revision of the local entry and drops the entry only on a successful reply; a refusal names the known holder of the peer-type key |
| PlayerRegistry.Registry.UnregisterLocalPlayers | registry/player.go:183-213 | in whatever order entries are visited, a shutdown removes exactly the three keys of each user that has a local entry, a local key in the store and a request that gets through |
| PlayerRegistry.Registry.OnLocalKvAdd | registry/player.go:90-117 | one key read back becomes an entry with its login time and create revision, unless there is one or the value is not a login time |
| PlayerRegistry.Registry.RecoverSelfPeerPlayers | registry/player.go:90-152 | the entries become the snapshot, existing ones winning; an error is reported exactly when a local key does not hold a login time |
| PlayerRegistry.Registry.WhereIsUser | registry/player.go:317-340 | a local entry answers with this node; otherwise the answer is the known peer that the user key names, and nothing else |
| PlayerRegistry.LockThenUnlock | registry/player.go:226-315 | a lock and an unlock right after it leave the store as it was, exactly when no other type held the user |
| Services.RunKeepsInv | registry/service.go:408-611 | pairing and honest revisions hold after every run of start-ups, cleanups, registrations, removals, shutdowns and crashes |
| Services.RegisterOutcome | registry/service.go:525-579 | in a paired store a registration is granted exactly when no node lists the service, whatever else there is; it makes the caller the owner in both keys and changes no other |
| Services.RemovalOutcome | registry/service.go:413-611 | a removal, a shutdown and a cleanup are carried out exactly when the caller owns the service, when its key has the given revision, when anybody owns it; each then removes exactly both keys |
| Services.OwnershipPaired | registry/service.go:547-592 | a service names its owner iff the owner lists it, in every reachable state |
| Services.NeverTouchesOthers | registry/service.go:413-511 | no step of a node changes either key of a registration of another node |
| Services.StartLeavesNothing | registry/service.go:413-440 | a node that has finished its start-up cleanup owns nothing of an earlier process |
| Services.CleanupKeepsPairing | registry/service.go:413-440 | a cleanup keeps the pairing iff nobody else owns the name |
| Services.ShutdownUndoesRegister | registry/service.go:483-511 | a shutdown at the revision a registration returned undoes it; at revision 0 it undoes nothing |
| Watch.StepsAreLegalEvents | registry/service.go:408-611 | every step of the ownership protocol changes the service table by at most one event, a put of an absent name by its new owner or a delete by the owner |
| Watch.StoreIsHarmless | registry/service.go:564-564 | storing an own registration early changes what the copy will become exactly when the name was absent and no later event forgets it |
| Watch.ReplayOfTwo | registry/service.go:331-406 | two copies that differ in one name end equal exactly when the events contain a delete of it, or a put by that owner before any other event on it |
| Watch.StandsForgets | registry/service.go:442-481 | the events up to an own put that still stands always forget an early entry |
| Watch.LogIsTable | registry/service.go:408-611 | the events of every run of the protocol are legal and add up to the service table in the store |
| Watch.StepKeepsTrack | registry/service.go:331-579 | a copy that its unread events complete stays so in every step of any node but one: a reply that neither finds its name in the copy nor is forgotten |
| Watch.ReturnIsHarmless | registry/service.go:554-568 | a registration that returns while it stands is harmless, however early or late |
| Watch.Converges | registry/service.go:331-481 | for every interleaving of all nodes' protocol steps with this node's replies and events, the unread events complete the copy throughout exactly when every reply is harmless; then, with all events read, the copy is the table in the store |
| Watch.CarefulConverges | registry/service.go:525-611 | every reply is harmless for a node that gives up no name whose registration has not returned |
| Watch.LateReturnIsStale | registry/service.go:554-568 | a registration that returns after everything was read and the name is gone leaves a stale entry, cured exactly by events that forget it |
| Watch.LateReturnHappens | registry/service.go:525-611 | registering and giving up a name and reading both events before the first call returns leads there from every state in step with the table |
| Watch.LateReturnReachable | registry/service.go:408-452 | a node that has just started is in such a state |
| TrieModel.AddedIsInsert | registry/service.go:60-90 | the walk of an insertion keeps the tree well formed and pruned and inserts exactly one path |
| TrieModel.DeletedIsRemove | registry/service.go:236-253 | the walk of a removal with its pruning removes exactly one path and leaves no node without a set node below |
| TrieModel.WalksAgree | registry/service.go:92-117 | the three-level removal of trie, header and inner nodes is one uniform walk in a pruned tree |
| TrieModel.ExtensionsAreBelow | registry/service.go:119-154 | what lies below a node is exactly the set of stored strict extensions of its words |
| TrieModel.EveryNodeLeadsToStored | registry/service.go:194-253 | below every node of a pruned tree something is stored |
| TrieModel.EmptyWhenNothingStored | registry/service.go:92-117 | once every path is deleted no node is left |
| TrieModel.StripIs | registry/service.go:62-66 | a leading slash makes no difference to the words, and nothing else is dropped |
| TrieModel.QueryMeans | registry/service.go:119-234 | a path asks for the names that strictly extend its words, with or without a slash before and behind them; "/" and every path that starts with two slashes ask for all names, the empty path for none |
| Trie.WordTrie.Add | registry/service.go:60-90 | the linked nodes then store exactly the old paths and the new one; an empty inner word is refused and nothing changes |
| Trie.WordTrie.HeaderAdd | registry/service.go:165-192 | the loop that walks and makes nodes is the insertion walk |
| Trie.WordTrie.Delete | registry/service.go:92-117 | exactly the one path is gone and pruning is complete; an error is returned exactly when the first word has no header |
| Trie.WordTrie.HeaderDelete | registry/service.go:194-210 | the header's part of the removal walk |
| Trie.WordTrie.NodeDelete | registry/service.go:236-253 | the recursive part of the removal walk, with its not-found result |
| Trie.WordTrie.Search | registry/service.go:119-144 | every stored path that strictly extends the words of the query, with or without a slash before and behind them, is returned once and nothing else; a path that starts with two slashes, like a bare slash, returns all |
| Trie.WordTrie.HeaderSearch | registry/service.go:212-234 | the same from one header down |
| Trie.WordTrie.Collect | registry/service.go:262-270 | appends each path stored at or below a node once |
| ServiceRegistry.StoredIsCached | registry/service.go:350-370 | what a put event does to the table is what the watch model says |
| ServiceRegistry.RemovedIsCached | registry/service.go:379-406 | what a delete event does to the table is what the watch model says |
| ServiceRegistry.NewNamesDiffer | registry/service.go:513-522 | names made for applications are equal only for the same base name and the same id, and never the base name |
| ServiceRegistry.Registry.OnKvAdd | registry/service.go:331-377 | a put event enters an unknown name with its owner into table and index, keeps a known one, and refuses names of other lengths and unknown peers |
| ServiceRegistry.Registry.OnKvDelete | registry/service.go:379-406 | a delete event takes exactly this name out of table, index and own services |
| ServiceRegistry.Registry.RegisterService | registry/service.go:513-579 | the call commits the protocol's registration of the base name, followed by the application id if asked for; it succeeds exactly when nobody owns that name; then both keys, table, index and own services gain this name and no other, and they change only on a successful reply; a refusal names the known owner |
| ServiceRegistry.Registry.UnregisterService | registry/service.go:581-611 | the call commits the protocol's removal, succeeds exactly when the node owns the service, names the known owner on a refusal, and panics exactly when nobody owns it |
| ServiceRegistry.Registry.UnregisterServices | registry/service.go:483-511 | in whatever order, a shutdown removes exactly both keys of the own services whose stored revision is that of the entry and whose request gets through |
| ServiceRegistry.Registry.InitServices | registry/service.go:408-452 | start-up removes the names left over, then the table is exactly what the store says, with the own services among it; an error is reported exactly when a key cannot be read |
| ServiceRegistry.CleanupIsOwn | registry/service.go:413-440 | in a paired store the cleanup removes exactly the node's own keys |
| ServiceRegistry.Registry.WhereIsService | registry/service.go:615-646 | a lookup by index answers with every name in the table that strictly extends the words of the query, with or without a slash before and behind them, each once, or with exactly the given number of them; a plain lookup with the one entry |
| ServiceRegistry.AnswersAreNames | registry/service.go:564-637 | an index that agrees with the table answers with names of the table only, all that match |
| Peers.CopyAgrees | registry/peer.go:335-378 | after a snapshot and any events, every record says exactly what is stored about its peer |
| Peers.EventKeepsAgreement | registry/peer.go:159-260 | one put or delete event keeps all records in agreement with the store |
| Peers.UrlFollowsAddress | registry/peer.go:159-260 | url and address are empty together exactly when no empty address is stored |
| Peers.PeerRegistry.OnKvPut | registry/peer.go:159-229 | a put changes one record as specified, makes a peer that is new, and sets the node's own peer; a record that is there stays the same object |
| Peers.PeerRegistry.OnKvDelete | registry/peer.go:231-261 | a delete changes one record as specified |
| Peers.PeerRegistry.InitPeers | registry/peer.go:335-350 | in whatever order the keys come, the records agree with the snapshot |
| Peers.PeerRegistry.WatchPeers | registry/peer.go:352-378 | the event loop replays the events |
| WriteBack.AnyOrder | gen/gen_model/gen_model.go:847-893 | bulk writes with one write per id give the same collection in every order |
| WriteBack.TouchKeepsInv | gen/gen_model/gen_model.go:406-464 | a setter keeps the link between flags, trackers and collection, also on a deleted document |
| WriteBack.AddKeepsInv | gen/gen_model/gen_model.go:466-479 | so does an insertion under a fresh id |
| WriteBack.DeleteKeepsInv | gen/gen_model/gen_model.go:481-496 | so does a deletion |
| WriteBack.ClearKeepsInv | gen/gen_model/gen_model.go:510-524 | so does clearing |
| WriteBack.FlushNeverFails | gen/gen_model/gen_model.go:847-890 | no write of a save can fail, in whatever order the writes are made |
| WriteBack.SaveAgrees | gen/gen_model/gen_model.go:847-890 | a save leaves the documents of its primary key equal to the cached ones and no other document changed |
| WriteBack.RunKeepsInv | gen/gen_model/gen_model.go:391-890 | the invariant holds after every run of adds, setters, deletes, clears and saves |
| WriteBack.LoadAgrees | gen/gen_model/gen_model.go:897-923 | a load starts in agreement exactly when no secondary key is stored twice |
| WriteBack.EverySaveAgrees | gen/gen_model/gen_model.go:391-922 | from such a load, after any run, one more save in any order makes the collection equal to the dictionary, fails nowhere, and touches no other primary key |
| WriteBack.RunIsDictionary | gen/gen_model/gen_model.go:406-530 | in every run of adds, setters, deletes, clears and saves the cache with its flags and trackers is the plain dictionary of what was asked for |
| WriteBack.LoadShows | gen/gen_model/gen_model.go:897-923 | a load starts from the dictionary of what the query found, the last document of a key winning |
| WriteBack.SavedIsAsked | gen/gen_model/gen_model.go:847-895 | after any run from a load with unique keys, one more save leaves exactly the documents of that dictionary stored under the primary key |
| WriteBack.FlushesArePermutations | gen/gen_model/gen_model.go:847-889 | the write lists of a save are permutations of each other with one write per id |
| WriteBack.FailedSaveLoses | gen/gen_model/gen_model.go:874-893 | when no write of a save is carried out, as when its request is lost, the invariant survives exactly when nothing was added and no dirty document had changed |
| UserArr.Collection.BulkWrite | gen/gen_model/gen_model.go:888-893 | the unordered write makes every write once, in some order, or none when the request is lost; it reports an error iff a write failed or request or reply was lost |
| UserArr.Document.SetPayload | gen/gen_model/gen_model.go:406-415 | the setter changes the represented cache as specified, with its early return |
| UserArr.Arr.SetDirty | gen/gen_model/gen_model.go:453-464 | the document becomes dirty unless it is tracked in any way already |
| UserArr.Arr.Add | gen/gen_model/gen_model.go:466-479 | a new document object with this id and these keys is attached and tracked, or the key conflict is reported and nothing changes |
| UserArr.Arr.Delete | gen/gen_model/gen_model.go:481-496 | the document leaves the dictionary and is tracked as deleted only, or is not found |
| UserArr.Arr.Clear | gen/gen_model/gen_model.go:510-524 | every cached document is tracked as deleted, the rest is emptied |
| UserArr.Arr.Get | gen/gen_model/gen_model.go:527-530 | the attached object of the key, if any |
| UserArr.Arr.Models | gen/gen_model/gen_model.go:852-872 | the three loops build one write for each deleted, added and dirty document |
| UserArr.Arr.Settle | gen/gen_model/gen_model.go:874-884 | the clearing loops lower the flags and empty the trackers, and keep the deleted ones |
| UserArr.Save | gen/gen_model/gen_model.go:847-895 | the save makes exactly the tracked writes unless the request is lost; under the invariant collection and cache are then equal, and it reports success iff it was answered or had nothing to write |
| UserArr.Load | gen/gen_model/gen_model.go:897-923 | the array represents the results in their order, the last document of a key winning |
| BehaviorLog.InsertedIs | gen/gen_behavior/gen_behavior.go:416-417 | an unordered insert adds exactly the entries that the store carries out and that are new |
| BehaviorLog.FailedIs | gen/gen_behavior/gen_behavior.go:417-429 | the store reports an error iff some entry was not carried out or met its id; otherwise the batch is appended in order |
| BehaviorLog.SyncOutcome | gen/gen_behavior/gen_behavior.go:388-429 | the answer of a sync, queue and collection after it, said of the queue, the collection and the inserts that are carried out alone |
| BehaviorLog.RunKeepsInv | gen/gen_behavior/gen_behavior.go:299-429 | with logs, syncs, partial writes and lost replies interleaved in any way, every logged entry is queued, in one batch or written, and waits at most once; what is written and waiting stays so for ever |
| BehaviorLog.ExactlyOnce | gen/gen_behavior/gen_behavior.go:418-429 | every entry is at exactly one place iff no bulk write reported an error after it was carried out, wholly or in part |
| BehaviorLog.OrderKept | gen/gen_behavior/gen_behavior.go:313-408 | without failures, written, in flight and queued entries in a row are the log in its order |
| BehaviorLog.OneSync | gen/gen_behavior/gen_behavior.go:388-429 | a sync that is carried out and answered moves a batch from the front of the queue to the end of the collection |
| BehaviorLog.Drains | gen/gen_behavior/gen_behavior.go:388-429 | k such syncs write the first k batches of the queue in its order and leave the rest; the queue is empty iff k batches cover it |
| BehaviorLog.DrainsAtOnce | gen/gen_behavior/gen_behavior.go:401-407 | with step 0 one sync writes everything |
| BehaviorLog.Dao.Log | gen/gen_behavior/gen_behavior.go:299-316 | one entry with a fresh id goes to the end of the queue |
| BehaviorLog.Dao.Take | gen/gen_behavior/gen_behavior.go:399-408 | the batch is the front of the queue, or all of it when shorter than the step or with step 0; a negative step panics |
| BehaviorLog.Dao.Finish | gen/gen_behavior/gen_behavior.go:417-429 | on an error, be it of the store or a lost reply, the whole batch goes to the end of the queue |
| BehaviorLog.Dao.Sync | gen/gen_behavior/gen_behavior.go:388-429 | for a queue and a collection in which no id occurs twice: a sync takes the step, or all, off the front of the queue; it reports an error exactly when no reply comes, or one of these entries is not carried out or meets its id, and they are then back at the end of the queue; otherwise it reports their number and they are at the end of the collection; on an empty queue it does nothing |
| Packet.LengthRoundTrip | gate/packet/codec.go:82-96 | three length bytes carry a length exactly when it fits into 24 bits |
| Packet.LengthUnique | gate/packet/codec.go:82-96 | every three bytes are the encoding of the length they decode to |
| Packet.FrameLayout | gate/packet/codec.go:69-96 | the layout in numbers: types 1 to 10, three length bytes with the most significant first, then the payload |
| Packet.HeaderLimits | gate/packet/codec.go:28-39 | a header is refused for a type other than 1 to 10, and otherwise exactly for a length above 65536, each with its own error |
| Packet.EncodeDecode | gate/packet/codec.go:70-80 | an encoded packet is read back exactly when its payload is within the limit, which the encoder does not check |
| Packet.WholeFrame | gate/packet/codec.go:70-80 | its bytes are one whole packet and nothing more under the same condition |
| Packet.ParseFrames | gate/packet/codec.go:41-67 | packets encoded one after the other are read back in order, whatever follows |
| Packet.DrainParses | gate/packet/codec.go:56-66 | the draining loop gives out exactly the whole packets, and fails exactly at an illegal header |
| Packet.ScanParses | gate/packet/codec.go:41-67 | the same for one call, in every state that calls leave behind |
| Packet.FailureDrops | gate/packet/codec.go:62-65 | a failing call gives out nothing |
| Packet.Conservation | gate/packet/codec.go:28-67 | for every cutting of every stream: decoding fails iff an illegal header is reached, with the error of the first one, and until then input is encodings given out, pending header, buffered bytes |
| Packet.BoundedLag | gate/packet/codec.go:46-61 | the packets given out are a prefix of the reading at one go, short by one packet exactly when a header with payload of one to three bytes is pending, its payload is there and fewer than four bytes are buffered |
| Packet.CaughtUp | gate/packet/codec.go:46-61 | a call that finds four bytes in the buffer leaves nothing behind |
| Packet.Delivered | gate/packet/codec.go:41-67 | legal packets, cut anywhere, come out in order without error, all but perhaps a short last one |
| Packet.LagHappens | gate/packet/codec.go:46-55 | every payload of one to three bytes stays behind when the cut is after its header |
| Codec.Encode | gate/packet/codec.go:70-80 | fills a buffer with type, three length bytes and payload, or refuses a type other than 1 to 10 |
| Codec.IntToByteArray | gate/packet/codec.go:90-96 | the buffer holds the three length bytes |
| Codec.ByteArrayToInt | gate/packet/codec.go:82-88 | the shifting loop computes the length |
| Codec.Decoder.ReadHeader | gate/packet/codec.go:28-39 | one header leaves the buffer; a bad type keeps the old length, a bad length is stored |
| Codec.Decoder.Decode | gate/packet/codec.go:41-67 | packets, error and state are those of the specification, for every state |
| Codec.DecodeAll | gate/packet/codec.go:41-67 | fed chunk after chunk, the error of the first illegal header of the stream if it has one, otherwise a prefix of all packets, at most one short |
| Message.VarintRoundTrip | gate/message/message.go:99-113 | an id is read back from its groups, with its length, whatever follows |
| Message.VarintIsId | gate/message/message.go:99-113 | an id takes k bytes exactly when it is below 128^k and not below 128^(k-1); they are its base-128 digits, the lowest first, all but the last with the top bit |
| Message.GroupsAddUp | gate/message/message.go:137-151 | the id ends with the first byte below 128, and each group counts with the weight of its place |
| Message.EncodedIsWire | gate/message/message.go:81-124 | the layout of an encoded message in numbers: flag byte, digits of the id for types 0 and 2, code with the high byte first or length and route for all types but 2, data; other types are refused |
| Message.DecodedFails | gate/message/message.go:126-181 | for every input: when decoding succeeds and with which error it fails, a code cut off by the end of the buffer being the panic |
| Message.DecodedIsLaidOut | gate/message/message.go:126-181 | a decoded message is laid out in its bytes: type, id as the groups say, route or code, data at the end |
| Message.RoundTrip | gate/message/message.go:88-181 | a message decodes to itself exactly when its route fits, a notification or push has id 0, and a response has data and no route |
| Message.SpareUnread | gate/message/message.go:155-159 | a successful decoding does not depend on what lies behind the message in its buffer |
| Message.SetKeepsFaithful | gate/message/message.go:183-197 | setting a code keeps every coded route decodable iff no other route has that code |
| Message.SetAllKeepsFaithful | gate/message/message.go:183-197 | a dictionary without clashes makes every coded route decodable |
| Message.LastEntryWins | gate/message/message.go:183-197 | of several entries for one route or one code the last one wins |
| Message.OtherEntriesStay | gate/message/message.go:183-197 | routes and codes without an entry stay as they were |
| Message.DictionaryRoundTrip | gate/message/message.go:88-197 | with such a dictionary every message round-trips, under the remaining conditions exactly |
| MessageCodec.Codec.SetDictionary | gate/message/message.go:183-197 | in whatever order the entries come, both tables are set entry after entry; a route that is alone in its trimmed form gets its code there, and the code of a single route leads to its trimmed form |
| MessageCodec.Codec.EncodeId | gate/message/message.go:99-113 | the loop appends the base-128 digits of the id and not one byte more |
| MessageCodec.Codec.Encode | gate/message/message.go:88-124 | the bytes are those of the specification and have the layout in numbers, or the type is refused |
| MessageCodec.Codec.DecodeId | gate/message/message.go:137-151 | the loop with 64-bit wrap-around reads the sum of the groups modulo 2^64, and leaves the offset alone when no group ends the id |
| MessageCodec.Codec.Decode | gate/message/message.go:126-181 | message and every error are those of the specification |
| Crypto.PaddingComesOff | gate/crypto/crypto.go:102-113 | padding is removed again exactly when its length fits into a byte (section 6.3 of RFC 5652) |
| Crypto.PaddingIs | gate/crypto/crypto.go:102-106 | padding goes up to the next multiple of the block size, at least one byte, and every byte of it is its length; nothing else is a padding |
| Crypto.UnPaddingTakes | gate/crypto/crypto.go:108-113 | padding is removed exactly when its last byte is its length, whatever its other bytes are; a last byte beyond the whole length panics |
| Crypto.BlocksInverse | gate/crypto/crypto.go:69-97 | decrypting block by block undoes encrypting block by block (section 6.1 of NIST SP 800-38A) |
| Crypto.BlocksAreEcb | gate/crypto/crypto.go:69-97 | each output block is the cipher of the input block at its place (section 6.1 of NIST SP 800-38A) |
| Crypto.EcbTurnsBack | gate/crypto/crypto.go:69-97 | what was encrypted so decrypts so, block by block, to what it was |
| Crypto.EncryptDecrypt | gate/crypto/crypto.go:55-99 | every payload, also the empty one, comes back, and the length of its encryption is the next multiple of eight |
| Crypto.DesEncrypt | gate/crypto/crypto.go:55-78 | the loop over advancing slices fills the output, which decrypts block by block to the data and its padding, every byte of which is its length; a key of a length other than eight is refused; the length check cannot fail |
| Crypto.DesDecrypt | gate/crypto/crypto.go:80-100 | the loop decrypts each block at its place and unpads, with exactly the conditions of every error and the panics of unpadding |
| Outbound.OneArrives | gate/conn.go:73-127 | the bytes of a send are one packet of which the client makes the message with type, id, route and bytes as sent, exactly under a condition on id, size, secret, route and emptiness that can be checked before the call |
| Outbound.SendIs | gate/conn.go:73-127 | what a send puts on the wire in numbers: a packet of type 3 with a push or response of that id, no route, and the data, its padded encryption, or nothing when the key is unusable; only a response to id 0 is refused |
| Outbound.ProcessedIs | gate/client/client.go:560-616 | of any packet the client ignores types other than 3, and of its messages types other than 2 and 3; it drops what does not decrypt and stops at what does not decode |
| Outbound.AllArrive | gate/client/client.go:560-616 | packet after packet, the client receives every message once, in order |
| Outbound.Pipeline | gate/conn.go:73-127 | whatever is sent and however it is cut, the client receives the messages as sent and in order; only a last packet with a payload below four bytes can be missing |
| Outbound.NothingLateWithSecret | gate/conn.go:197-207 | with a secret nothing is missing |
| Inbound.RequestArrives | gate/conn.go:506-567 | a request or notification is handed on with its route and id and a given payload exactly when its route fits and its data is or decrypts to that payload |
| Inbound.EncryptedIsPlain | gate/conn.go:537-546 | what a client encrypts with the secret is handed on as it was |
| Inbound.HandledOtherwise | gate/conn.go:506-567 | every outcome of any packet, in numbers: type 4 ignored, types other than 3 refused, messages of types other than 0 and 1 refused, each decryption error, recovered and unrecovered panics |
| Inbound.AllHandled | gate/conn.go:506-567 | packet after packet, requests and notifications are handed on with route, id and decrypted data, each once, in order, heartbeats between them ignored |
| Inbound.InOrder | gate/conn.go:209-320 | however the two parts of a client's bytes are cut, the connection opens exactly when a packet beyond the handshake has come out, and its packets are handshake, acknowledgement and the rest, in order |
| Inbound.Pipeline | gate/conn.go:209-408 | from a client's handshake, acknowledgement and requests, cut anywhere, to what is handed on: exactly the requests, each once and in order, all but perhaps a last packet with a payload below four bytes |
| Inbound.OnlyHere | gate/conn.go:227-245 | at most one read is the first to bring packets, and none after a decoding error |
| Conn.Connection.Serialize | gate/conn.go:197-207 | encrypts under a secret, passes through without |
| Conn.Connection.Push | gate/conn.go:73-97 | queues exactly the specified bytes, an empty payload when encryption fails |
| Conn.Connection.Response | gate/conn.go:100-127 | the same with the request id; id 0 is refused and nothing is queued |
| Conn.Connection.ProcessMessage | gate/conn.go:523-567 | hands on a decrypted request or notification, or returns the error, a panic of unpadding among them |
| Conn.Connection.ProcessPacket | gate/conn.go:506-521 | data is decoded and processed, a heartbeat ignored, everything else refused |
| Conn.Connection.RecvHandshake | gate/conn.go:209-282 | succeeds exactly when the first read that brings packets brings one accepted handshake, and sets the secret; otherwise the error says which condition failed first |
| Conn.Connection.RecvHandshakeAck | gate/conn.go:284-323 | succeeds exactly when the next packet is the acknowledgement, and returns all packets behind it; otherwise the error says why |
| Conn.Connection.ReadLoop | gate/conn.go:367-408 | everything behind the acknowledgement is handed on, none lost or repeated between the two loops, up to the first error, which is returned: of a packet, else of the decoder, else of the socket |
| Conn.Connection.Serve | gate/conn.go:326-408 | over the life of a connection exactly the packets behind the acknowledgement are handled, in wire order; without an opened connection nothing is |

## Left out

- Key strings are structured values: their formatting, splitting and the checks for malformed keys are not modelled; words and ids hold no slash.
- etcd, gRPC, MongoDB, sockets, TLS, JSON, RSA and the DES cipher: transactions are atomic, watch events ordered, documents keyed by id, the cipher a pair of inverse functions per key.
- Callbacks to handlers, middleware and the resolver, log lines, timeouts, heartbeats, the writer goroutine and closed channels: they do not change the modelled state.
- The watch of a node's own player keys (registry/player.go:154-181) is never started (registry/registry.go:110) and not modelled.
- Recovery.RestartRecovers: for one node type, as the user key is not the holder's otherwise; RecoveryRestoresEntry is for any mix.
- Players.ThreeKeysAgree: claimed for users that one node type locks; UserKeyChanges and TwoTypesDisagree say what happens otherwise.
- Services.NeverTouchesOthers: one live process per full name, whose transactions end with it, is part of the model; CleanupKeepsPairing shows what that is for.
- Watch.Converges: the owner of a put is known to the peer registry when the event arrives; ServiceRegistry.Registry.OnKvAdd has the other case.
- Watch.Converges: the watching node's own crash is a step of the protocol like any other; what its dead process would still read is of no interest.
- The trie is used by one caller at a time: `add` and `delete` release the outer lock before they have finished, which is not modelled.
- Header nodes and inner nodes of the trie share one class, since their fields are the same.
- Peers: `registerSelf`, `unregisterSelf` and the resolver are not modelled.
- UserArr.Load: the results of the query have distinct ids, as the store keys documents by id; cursor and decoding errors are one parameter.
- The exported `SetDirty` of a document is the setter without a new value; the generated `SetId`, `Range`, `Count` and the other templates are not modelled.
- WriteBack: a bulk write of which the store carries out a part during a save, and a unique index beside the id in the database, are not modelled.
- BehaviorLog.RunKeepsInv: an empty batch, which two racing syncs can produce, counts as a write that succeeds; it changes nothing either way. Creation times are not modelled.
- After an illegal header the decoder is not used again; its state is still the one the code leaves.
- Payloads are copied sequences; that the code hands out slices of the decoder's buffer shows only in the bytes behind a message.
- The private `compressed` field of a message is never read and not modelled; trimming of routes is a parameter.
- Outbound.Pipeline: the client is modelled on values, after its handshake; both ends have the same dictionary and secret.
- Conn.Connection.Serve: the reads are a given list that ends in a read error; what the handshake callback decides is a parameter; the answer to a handshake is assumed to be written. A missing message handler, which is refused first, is not modelled.
- The order in which the store visits keys and Go visits maps is arbitrary in every loop.
