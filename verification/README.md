# Verification model of nfsserve

A Dafny model of the stateful parts of the NFS version 3 server crate and of its two example file systems, with
proofs of what they promise. `dafny verify dfyconfig.toml` checks everything.

- **Codec** (`Bytes`, `Xdr`, `Streams`, `Rpc`, `Nfs`). XDR types are values of a datatype of schemas: words, booleans,
  enums, fixed and variable opaques, word arrays, structs, boolean unions and tagged unions. One encoder and one
  decoder run on schemas, once as functions and once as methods over a writer and a reader. The proofs are by
  induction on schemas, and the RPC message and the NFS structures are instances. A tagged union either rejects an
  unlisted discriminant or keeps a default, as its `deserialize` does.
- **Record marking** (`RecordMarking`). The message handler as a state machine whose steps are the arrival of some
  bytes, the read of a fragment header and the read of a fragment body.
- **Tasks** (`Tracker`, `RpcWire`, `Tasks`, `TaskHistory`, `TaskClock`, `TaskConservation`). The transaction table,
  `handle_rpc`, and a transition system of the tasks spawned for records: arrival, retransmission check, reading of
  the completion time, marking, answering, a panic of the handler, and the clock being set, in any order. The
  retransmission rule is also stated without the table, on the log of what was started and finished, and without any
  stamp, in readings of the clock during the run; the three are proved to agree.
- **READDIRPLUS** (`ReadDirPlus`, `Enumeration`, `MirrorListing`, `MirrorClient`). The handler with its two byte
  budgets, a parser for its replies, and the client's loop that resumes after the last entry received, over an
  unchanged directory or over one that changes between calls. `MirrorListing` composes this with the cache: between
  the calls any operations run, and during each the disk answers anything. `MirrorClient` says it of the bytes: the
  client goes on at the cookie it reads, and what it has read are the ids, names and attributes of the directory's
  entries.
- **MirrorFS** (`FsMap`, `FsMapSafety`, `FsMapTree`, `FsMapCollect`, `FsMapEffects`, `FsMapOutcomes`, `FsMapRuns`,
  `MirrorFs`). `FsMap` says what each operation does to the maps; the class `MirrorFs.FSMap` runs the operations in
  place and is proved to do just that. What the disk answers is a parameter of every operation and is not constrained:
  each `Stat`, listing, creation, removal and rename answer may be anything. Two layers of invariants are proved: one
  for all runs, one for runs whose renames are tame.
- **DemoFS** (`DemoFs`, `ChunkedRead`). The vector of entries, updated in place, and reading in chunks.

Automatic induction is switched off in the lemmas where it would apply, so each proof is the one written down.

## Where the code does not do what one would expect

- A rename keeps the tree of cached entries if and only if it is tame (`FsMapTree.AfterMoveTree`,
  `FsMapTree.RenameKeepsTreeIffTame`): the target path is not mapped, the moved entry has no live cached child, and the
  target directory is not the moved entry itself with a cached child set; or source and target are the same path. A
  rename onto a mapped path, or of a directory with live cached children, leaves stale entries behind
  (examples/mirrorfs.rs:616-636). `FsMapRuns.RenameOntoExistingBreaksTree` is a run of three operations that does so.
- The recursion of `collect_all_children` ends if and only if no cycle of cached children is reachable from where it
  starts (`FsMapCollect.EndsIffNoCycle`). After renames that are not tame there can be one: in `FsMapRuns.RunCanCycle`
  eight operations on a fresh cache make two directories cached children of each other, and a getattr of one that has
  vanished then recurses without end. The methods of `MirrorFs.FSMap` require that the recursions end, of the deleted
  id and only where the operation deletes (`FsMapCollect.OpEnds`); in a tree they do (`FsMapCollect.TreeOperationsEnd`).
- `refresh_dir_list` never updates `children_meta` (`FsMapEffects.RunStamps`), so a directory is listed anew every time
  while its metadata differ from those its entry was made with.
- The data of a DemoFS write that does not extend the file is dropped (examples/demo.rs:138-142), so what was written
  reads back if and only if the write extended the file or wrote what was there (`DemoFs.WrittenThenRead`); a write
  over the start of a.txt is one that does not (`DemoFs.WriteIsDropped`).
- An RPC message type other than CALL and REPLY is not rejected: the body keeps its default, a call of RPC version 0,
  and the client is answered with a version mismatch whose bounds are both 0 (`RpcWire.UnknownTypeMismatches`). The
  discriminants of `reply_body` and `rejected_reply` behave alike, and an unlisted `accept_stat` becomes GARBAGE_ARGS
  (`Rpc.UnknownReplyTypes`).
- `serialize` refuses vectors of u32::MAX elements (src/xdr.rs:109), `deserialize` takes them.
- A call whose handler panics stays in progress: all its retransmissions are dropped (`Tasks.AbortedBlocksForEver`).
- READDIRPLUS subtracts 128 from `maxcount` without a check (src/nfs_handlers.rs:904), so the handler requires
  `maxcount >= 128` once the handle is valid.

## Model

| member | source | states |
|---|---|---|
| `Bytes.Be32Inverse` | src/xdr.rs:77-85 | the big-endian bytes of a word and the word determine each other |
| `Bytes.Be64Inverse` | src/xdr.rs:88-96 | the same for 64-bit words |
| `Bytes.Be32IsBigEndian` | src/xdr.rs:77-85 | the bytes of a word, most significant first, are its digits to base 256 |
| `Bytes.Be64IsBigEndian` | src/xdr.rs:88-96 | the same for 64-bit words |
| `Bytes.Le64IsLittleEndian` | src/vfs.rs:248-268 | in a handle the least significant byte comes first |
| `Xdr.RoundTrip` | src/xdr.rs:42-231 | decoding the encoding of any value of any type, followed by any bytes, gives the value and leaves exactly those bytes |
| `Xdr.PrefixFree` | src/xdr.rs:42-231 | no encoding of a type is a proper prefix of another, and different values have different encodings |
| `Xdr.DecodeTolerates` | src/xdr.rs:20-52 | input that differs from an encoding only in nonzero boolean words and pad bytes decodes to the same value, leaving what follows |
| `Xdr.DecodeParsed` | src/xdr.rs:107-182 | whatever is accepted gives a value of the type and a suffix of the input; for types without lenient unions the bytes consumed are as many as its encoding and differ from it only in nonzero boolean words and pad bytes |
| `Xdr.DecodesExactly` | src/xdr.rs:200-229 | for those types, bytes decode to a value and a rest if and only if the value has the type and they are its encoding up to booleans and padding |
| `Xdr.EncodingIsAligned` | src/xdr.rs:107-132 | encodings are a multiple of four bytes long |
| `Xdr.OpaqueLayout` | src/xdr.rs:107-132 | n opaque bytes take 4 + 4 * ((n + 3) / 4) bytes: the length, the bytes, and zeros up to a whole word |
| `Xdr.FixedSizeIsSize` | src/xdr.rs:166-182 | types without variable parts have encodings of one length |
| `Streams.WriteCounter.WriteAll` | src/write_counter.rs:28-43 | bytes are appended to the inner writer and counted |
| `Streams.Reader.ReadExact` | src/xdr.rs:98-105 | all the bytes asked for are taken, or the read fails |
| `Streams.Serialize` | src/xdr.rs:42-231 | appends exactly the encoding and counts its length |
| `Streams.SerializeBlob` | src/xdr.rs:108-120 | length, bytes and zero padding |
| `Streams.SerializeWords` | src/xdr.rs:144-152 | the element loop writes the length and every word |
| `Streams.Deserialize` | src/xdr.rs:42-231 | reads the value the decoder gives and consumes exactly its bytes, or fails when the decoder does |
| `Streams.DeserializeWords` | src/xdr.rs:153-161 | the element loop reads as many words as the length says, or fails |
| `Rpc.MsgRoundTrip` | src/rpc.rs:175-447 | an RPC message decodes from its encoding, and what follows is left |
| `Rpc.MsgIsAligned` | src/rpc.rs:175-447 | its encoding is whole words long |
| `Rpc.SuccessHeader` | src/rpc.rs:501-510 | a success header is these six words, 24 bytes |
| `Rpc.AcceptedLayout` | src/rpc.rs:337-405 | an accepted reply word by word, with each acceptance status by its number |
| `Rpc.DeniedLayout` | src/rpc.rs:419-447 | a rejection word by word, with each reason by its number |
| `Rpc.ProgUnavailWords` | src/rpc.rs:459-468 | a call of an unknown program is answered with these six words |
| `Rpc.VersMismatchWords` | src/rpc.rs:493-499 | a call of another RPC version is answered with these six words |
| `Rpc.CallLayout` | src/rpc.rs:175-447 | a call is its xid, CALL, version, program, program version and procedure, the credentials and the verifier, each a flavour and padded opaque bytes |
| `Rpc.AuthUnixReadsBack` | src/rpc.rs:102-109 | stamp, machine name, uid, gid and gids are readable as AUTH_UNIX credentials and read back |
| `Rpc.UnknownMessageType` | src/rpc.rs:189-202 | an unlisted message type leaves a call whose words are all 0, and consumes nothing after it |
| `Rpc.UnknownReplyTypes` | src/rpc.rs:296-446 | an unlisted reply or rejection leaves its default, an acceptance status from 5 on reads as GARBAGE_ARGS, and nothing after it is consumed |
| `Rpc.SerializeMsg` | src/rpc.rs:175-188 | writes and counts the message's encoding |
| `Rpc.DeserializeMsg` | src/rpc.rs:189-202 | reads a message and leaves its arguments, or fails |
| `Nfs.NfsTypesDecodeExactly` | src/nfs.rs:439-561 | attributes, weak cache consistency data, settable attributes, handles and the arguments of READ, WRITE, SETATTR, MKDIR, SYMLINK, READDIR and READDIRPLUS decode exactly, round trip and are whole words long |
| `Nfs.AttrLayout` | src/nfs.rs:258-280 | attributes on the wire are the fourteen fields in order |
| `Nfs.SattrLayout` | src/nfs.rs:525-533 | settable attributes on the wire: mode, uid, gid and size, each if set, and what becomes of the two times |
| `Nfs.ArgumentLayouts` | src/nfs_handlers.rs:805-991 | the arguments of LOOKUP, READ, WRITE and READDIRPLUS, field by field |
| `Nfs.ChangeArgumentLayouts` | src/nfs.rs:525-561 | the arguments of SETATTR, guarded or not, MKDIR, SYMLINK and READDIR, field by field |
| `Nfs.ResultLayouts` | src/nfs.rs:337-370 | READ's result, weak cache consistency data and a READDIR entry, field by field |
| `Nfs.AttrSize` | src/nfs.rs:258-280 | encoded attributes are 84 bytes |
| `ReadDirPlus.HandleRoundTrip` | src/vfs.rs:248-268 | a handle gives back its id while the server that issued it runs; a later server calls it stale, an earlier one bad, and bad is what is not 16 bytes long |
| `ReadDirPlus.EntrySize` | src/nfs_handlers.rs:763-778 | an encoded entry with attributes and handle is 132 + 4 * ((n + 3) / 4) bytes for a name of n bytes |
| `ReadDirPlus.EntryLayout` | src/nfs_handlers.rs:932-939 | an entry on the wire: fileid, name, the fileid again as cookie, attributes, and a handle |
| `ReadDirPlus.StatusLayout` | src/nfs_handlers.rs:819-985 | a reply without a listing: the success header, the status word by its number, and the directory attributes if there are any |
| `ReadDirPlus.SerializeEntries` | src/nfs_handlers.rs:928-967 | the loop writes the longest prefix of the page that stays below both budgets, and knows whether it was all of it |
| `ReadDirPlus.SerializeListing` | src/nfs_handlers.rs:914-975 | header, status, attributes, verifier, the entries, the end of the list and the eof flag |
| `ReadDirPlus.NfsProc3ReadDirPlus` | src/nfs_handlers.rs:805-991 | the whole reply in each case: unusable handle, failed readdir, listing |
| `ReadDirPlus.ReplyBound` | src/nfs_handlers.rs:904-981 | a reply with attributes is at most max(132, maxcount - 121) bytes |
| `ReadDirPlus.ParseEntriesInverse` | src/nfs_handlers.rs:928-969 | a list of any length reads back as exactly its entries, with what follows left |
| `ReadDirPlus.ReplyReadsBack` | src/nfs_handlers.rs:922-981 | every successful reply reads back as attributes, verifier, the committed entries in order and the eof flag, with nothing left over |
| `ReadDirPlus.ReplyCarries` | src/nfs_handlers.rs:922-981 | so a client reads, of each committed entry, its id, its id as cookie, its name, its fourteen attributes and a handle that leads to its id; and the directory's attributes and modification time |
| `Enumeration.ServedIsNext` | src/nfs_handlers.rs:904-981 | a call sends the next stretch of the listing, and eof exactly if nothing is left |
| `Enumeration.ClientSees` | src/nfs_handlers.rs:805-991 | parsing the reply's bytes gives those entries and that eof |
| `Enumeration.Progress` | src/nfs_handlers.rs:950-967 | at least one entry is sent if and only if one is left and the budgets hold it |
| `Enumeration.ResumesAfter` | examples/demo.rs:304-311 | the cookie of an entry resumes right after it, in both file systems |
| `Enumeration.ListingIsComplete` | src/nfs_handlers.rs:904-981 | listing an unchanged directory until eof gives it whole and in order under any budgets; if they always hold the next entry, eof comes within max(1, n) calls |
| `Enumeration.ReadsTheReply` | src/nfs_handlers.rs:805-991 | what a client reads in a reply are the entries sent and the eof, and the cookie it goes on at is the last entry's id |
| `Enumeration.FetchIsComplete` | src/nfs_handlers.rs:904-981 | a client that resumes at the cookies it reads has read, at eof, the whole unchanged directory in order, each entry with all its fields |
| `Enumeration.WanderingIsSafe` | examples/mirrorfs.rs:432-459 | however the directory changes between calls, no id comes twice, none comes that was never there, and at eof every id that was there throughout has come |
| `MirrorListing.CutsThePage` | examples/mirrorfs.rs:427-459 | the page cut from a child set is, in ids, names, attributes and end, the page of the ascending listing from where the cookie resumes; readdir fails if and only if one of its ids is dangling |
| `MirrorListing.TurnServed` | src/nfs_handlers.rs:904-981 | a READDIRPLUS answered from that page serves the child set's listing, and its last id is where the next call resumes |
| `MirrorListing.WalkIsSafe` | examples/mirrorfs.rs:409-463 | listing a directory over any states of the cache, with any operations and disk answers between and during the calls: no id is received twice, each was in the child set of some call, and at eof every id that was in the child set of each call has been received |
| `MirrorListing.RelistedChildren` | examples/mirrorfs.rs:187-206 | a readdir that lists the directory anew pages through exactly the ids of the names the disk listed |
| `MirrorListing.ListedNameArrives` | examples/mirrorfs.rs:409-463 | a name the disk lists at every call, under one id, is received exactly once |
| `MirrorListing.PagedSetsLackZero` | examples/mirrorfs.rs:409-425 | in every state of every run the child set that is paged through lacks id 0, so cookie 0 is unambiguous |
| `MirrorClient.ShownFields` | examples/mirrorfs.rs:443-451 | an entry is shown with its id and, field by field, the metadata the cache has of it |
| `MirrorClient.ShownNameFinds` | examples/mirrorfs.rs:75-81 | the name an entry of a directory is shown under is one by which lookup finds it there |
| `MirrorClient.PagesNameTheirEntries` | examples/mirrorfs.rs:427-459 | in a tree this holds of every entry of every page |
| `MirrorClient.RelistedNames` | examples/mirrorfs.rs:187-206 | after a listing the names shown over the whole directory are exactly those the disk listed |
| `MirrorClient.BrowseWalks` | src/nfs_handlers.rs:928-969 | what a client reads over several calls, going on at the cookies it reads, are the entries of the walk: each with its id, name, attributes and a handle that leads to it |
| `MirrorClient.BrowseIsSafe` | examples/mirrorfs.rs:409-463 | from the bytes of the replies, over any states of the cache and disk answers: no id is read twice, each was in the child set of some call, and at eof every id in the child set of each call has been read |
| `MirrorClient.ListedNameIsRead` | examples/mirrorfs.rs:409-463 | a name the disk lists at every call, under one id, is read exactly once, as the name of that id |
| `FsMap.AscendingUnique` | examples/mirrorfs.rs:443-443 | iterating over a child set in ascending order yields one sequence |
| `FsMapSafety.SoundInit` | examples/mirrorfs.rs:51-66 | the initial cache is sound |
| `FsMapSafety.ApplySound` | examples/mirrorfs.rs:94-233 | every operation, whatever the disk answers, keeps the cache sound and hands out only new ids |
| `FsMapSafety.AllRunsSound` | examples/mirrorfs.rs:83-233 | in every reachable state mapped paths lead to live entries with that path, ids are below the counter, only the root has id 0, the others' attributes carry their id, and symbols resolve |
| `FsMapSafety.RenameSound` | examples/mirrorfs.rs:573-643 | this includes renames onto existing targets and of directories |
| `FsMapSafety.DeadIdsStayDead` | examples/mirrorfs.rs:217-231 | an id that is no longer live is never live again |
| `FsMapSafety.HitsAreLive` | examples/mirrorfs.rs:337-343 | a child found through the maps is live, not the root and under its path, so lookup's test and rename's unwrap never fail |
| `FsMapSafety.PathsInjective` | examples/mirrorfs.rs:31-38 | no two paths map to one id |
| `FsMapSafety.CreateAllKnows` | examples/mirrorfs.rs:189-206 | a listing makes every name found known and its child set is exactly their ids; if all were known it hands out none |
| `FsMapSafety.RelistKeepsIds` | examples/mirrorfs.rs:172-209 | listing a directory again with the same names gives the same child set and no new id |
| `FsMapTree.OneParent` | examples/mirrorfs.rs:22-29 | a live entry has at most one caching parent |
| `FsMapTree.ApplyTree` | examples/mirrorfs.rs:94-233 | every operation keeps the tree, rename when it is tame |
| `FsMapTree.TameRunsKeepTree` | examples/mirrorfs.rs:309-643 | runs whose renames are tame keep the maps mutual inverses and children one component below their parents |
| `FsMapTree.MoveKeepsTreeIffTame` | examples/mirrorfs.rs:616-636 | a move keeps the tree if and only if it is tame |
| `FsMapTree.AfterMoveTree` | examples/mirrorfs.rs:603-636 | the maps are a tree after a rename's update if and only if the rename is tame |
| `FsMapTree.RenameKeepsTreeIffTame` | examples/mirrorfs.rs:573-643 | so for the whole rename when the refreshes of its directories delete nothing |
| `FsMapRuns.RenameOntoExistingBreaksTree` | examples/mirrorfs.rs:573-643 | from a fresh cache, two creations and a rename of one file onto the other leave two live entries with one path; the state before was a tree and the rename not tame |
| `FsMapTree.CreateFsObjectTree` | examples/mirrorfs.rs:260-325 | creation keeps the tree |
| `FsMapTree.RemoveTree` | examples/mirrorfs.rs:530-571 | removal keeps the tree |
| `FsMapEffects.GetAttrAgrees` | examples/mirrorfs.rs:368-378 | getattr answers exactly when the id is live and the disk has the file with the same type; the answer has the id and the disk's type, size and modification time, with all the disk's metadata if one of these had changed and the cached ones if not; nothing else changes; each failure has its status |
| `FsMapEffects.LookupFindsLive` | examples/mirrorfs.rs:337-366 | the id lookup answers is live and has the path of the directory and the name |
| `FsMapEffects.LookupFindsListed` | examples/mirrorfs.rs:352-362 | a name the disk lists is found when the directory is listed anew |
| `FsMapEffects.CreatedMeta` | examples/mirrorfs.rs:211-233 | a new entry holds the disk's metadata and no child set, an entry already there only has its metadata renewed, and no other entry changes |
| `FsMapEffects.ListedMetadata` | examples/mirrorfs.rs:187-206 | the listing loop leaves each name with the metadata listed for it last |
| `FsMapEffects.CreateThenLookup` | examples/mirrorfs.rs:307-324 | an object created is live with the metadata the disk gave, is in its directory's cached list, and is what lookup then answers without the disk |
| `FsMapEffects.RemoveThenFind` | examples/mirrorfs.rs:546-563 | a removed name is found no more and its id is dead |
| `FsMapEffects.RenameThenFind` | examples/mirrorfs.rs:603-640 | a renamed entry keeps its id under the new name while both directories are live, the old name finds nothing and no other path changes its id |
| `FsMapEffects.CreateJoinsList` | examples/mirrorfs.rs:307-324 | a created object joins its directory's cached child set, and no other changes |
| `FsMapEffects.RemoveLeavesList` | examples/mirrorfs.rs:546-563 | a removed file leaves its directory's cached child set, and no other changes |
| `FsMapEffects.RenameMovesChild` | examples/mirrorfs.rs:603-640 | a rename moves the entry from the one cached child set to the other, and changes no other entry and no other path |
| `FsMapEffects.RunStamps` | examples/mirrorfs.rs:172-206 | no operation updates the metadata a directory's cached listing is compared with |
| `FsMapOutcomes.RelistOutcome` | examples/mirrorfs.rs:172-209 | the child set is kept while the directory looks as it did when its entry was made, and otherwise becomes the ids of the names listed; each failure has its status |
| `FsMapOutcomes.ReadDirOutcome` | examples/mirrorfs.rs:409-425 | what readdir pages through, or the status it fails with, for each answer of the disk |
| `FsMapOutcomes.RelistedMetadata` | examples/mirrorfs.rs:187-206 | after a readdir that lists the directory anew each name has the metadata the disk gave for it |
| `FsMapOutcomes.LookupOutcome` | examples/mirrorfs.rs:337-366 | when lookup succeeds, and with which status it fails |
| `FsMapOutcomes.SetAttrOutcome` | examples/mirrorfs.rs:465-477 | setattr keeps and answers what the disk reports, changes nothing else, and nothing at all when it fails |
| `FsMapOutcomes.CreateOutcome` | examples/mirrorfs.rs:260-325 | when creation succeeds, and with which status it fails |
| `FsMapOutcomes.RemoveOutcome` | examples/mirrorfs.rs:530-571 | remove succeeds exactly if the disk removed the file; otherwise nothing changes |
| `FsMapOutcomes.RenameOutcome` | examples/mirrorfs.rs:573-643 | rename succeeds exactly if the disk renamed the file; otherwise nothing changes |
| `FsMapOutcomes.CreateRefreshes` | examples/mirrorfs.rs:307-324 | a creation leaves its directory as the disk has it: forgotten if it is gone or retyped, and otherwise with its type, size and modification time |
| `FsMapOutcomes.RemoveRefreshes` | examples/mirrorfs.rs:563-571 | so does a removal |
| `FsMapOutcomes.RenameRefreshes` | examples/mirrorfs.rs:636-643 | so does a rename, of both directories |
| `FsMapCollect.VisitsExactlyReachable` | examples/mirrorfs.rs:83-92 | the recursion visits an id if and only if it is reachable through cached children of live entries |
| `FsMapCollect.EndsIffNoCycle` | examples/mirrorfs.rs:83-92 | the recursion from an id ends if and only if no cycle of cached children of live entries is reachable from it, and then within the number of live entries and one |
| `FsMapCollect.DeletesWhenItSaysSo` | examples/mirrorfs.rs:136-164 | refresh deletes exactly when the file is gone or of another type |
| `FsMapCollect.RefreshEndsIffNoCycle` | examples/mirrorfs.rs:128-171 | a refresh ends if and only if it deletes nothing or reaches no cycle |
| `FsMapCollect.TreeTerminates` | examples/mirrorfs.rs:83-92 | in a tree the recursion ends from every id |
| `FsMapCollect.TreeOperationsEnd` | examples/mirrorfs.rs:83-102 | in a tree every operation ends, a tame rename too |
| `FsMapCollect.VisitsBelow` | examples/mirrorfs.rs:83-92 | in a tree it visits only live ids below the one it started from |
| `FsMapCollect.VisitsOnce` | examples/mirrorfs.rs:83-92 | and none of them twice |
| `FsMapCollect.DeletionInTree` | examples/mirrorfs.rs:94-102 | deletion removes exactly the live ids reached, from both maps, and changes nothing else |
| `FsMapRuns.RunCanCycle` | examples/mirrorfs.rs:616-636 | a run of eight operations from a fresh cache makes two entries cached children of each other, and a getattr that deletes one of them does not end |
| `MirrorFs.FSMap.constructor` | examples/mirrorfs.rs:51-66 | the initial maps |
| `MirrorFs.FSMap.CollectAllChildren` | examples/mirrorfs.rs:83-92 | appends exactly the visit of an id |
| `MirrorFs.FSMap.DeleteEntry` | examples/mirrorfs.rs:94-102 | the removal loop deletes everything reachable |
| `MirrorFs.FSMap.FindChild` | examples/mirrorfs.rs:114-127 | the id mapped for a directory's path and an interned name |
| `MirrorFs.FSMap.RefreshEntry` | examples/mirrorfs.rs:128-171 | deletion, reload or nothing, by what the disk says |
| `MirrorFs.FSMap.RefreshDirList` | examples/mirrorfs.rs:172-209 | the listing loop creates an entry for each name and sets the child set, unless the cached one is current |
| `MirrorFs.FSMap.CreateEntry` | examples/mirrorfs.rs:211-233 | a mapped path keeps its id, another gets the next one |
| `MirrorFs.FSMap.CreateFsObject` | examples/mirrorfs.rs:260-325 | the new maps and result, with each error |
| `MirrorFs.FSMap.Lookup` | examples/mirrorfs.rs:337-366 | a hit, or refresh, relisting and a second search |
| `MirrorFs.FSMap.GetAttr` | examples/mirrorfs.rs:368-378 | the refreshed attributes |
| `MirrorFs.FSMap.SetAttr` | examples/mirrorfs.rs:465-477 | the attributes the disk reports afterwards |
| `MirrorFs.FSMap.ReadDir` | examples/mirrorfs.rs:409-463 | the page after the cookie, or the error, and the maps after refresh and relisting |
| `MirrorFs.FSMap.ShowPage` | examples/mirrorfs.rs:427-459 | the loop shows the ids above the cookie in order, at most max(1, max_entries) of them, and fails at a dangling one |
| `MirrorFs.FSMap.Remove` | examples/mirrorfs.rs:530-571 | forgets the removed path and its id, and refreshes the directory |
| `MirrorFs.FSMap.Rename` | examples/mirrorfs.rs:573-643 | moves the entry to its new path and child set, and refreshes both directories |
| `RecordMarking.TakeFirst` | src/rpcwire.rs:107-126 | the fragment read from a stream is the one written there |
| `RecordMarking.HeaderBits` | src/rpcwire.rs:107-141 | the first bit of a fragment header marks the last fragment, the other 31 are the length |
| `RecordMarking.DrainSplit` | src/rpcwire.rs:107-126 | bytes may be delivered in any pieces |
| `RecordMarking.DrainRecords` | src/rpcwire.rs:180-208 | records cut into any fragments, empty ones included, read back as exactly those records |
| `RecordMarking.DrainUnfinished` | src/rpcwire.rs:180-183 | the completed fragments of an unfinished record are what is kept |
| `RecordMarking.RunReassembles` | src/rpcwire.rs:180-208 | in every run the records handed to tasks are a prefix of those the delivered bytes hold; when the handler is blocked they are all of them and cur_fragment holds the completed fragments of the unfinished one |
| `RecordMarking.RecordsArrive` | src/rpcwire.rs:107-208 | any records, cut and delivered in any way, arrive exactly and in order |
| `RecordMarking.SocketMessageHandler.ReadFragment` | src/rpcwire.rs:107-126 | one step of reading: the header and the room for the body, or the body |
| `RecordMarking.SocketMessageHandler.Loop` | src/tcp.rs:42-49 | read is repeated until bytes are missing |
| `RecordMarking.WriteFragment` | src/rpcwire.rs:128-141 | a reply is written as one last fragment |
| `RecordMarking.WrittenReadsBack` | src/rpcwire.rs:128-141 | a written reply shorter than 2^31 reads back as one record, whatever follows |
| `RpcWire.HandleRpc` | src/rpcwire.rs:30-87 | result, bytes written and table for each kind of record |
| `RpcWire.TrackedExactly` | src/rpcwire.rs:35-50 | a record reaches the retransmission check under an xid and program if and only if it is, up to pad bytes, a version 2 call with them and readable credentials, followed by any arguments |
| `RpcWire.MismatchedExactly` | src/rpcwire.rs:35-48 | it is answered with a version mismatch if and only if it is a call of another version with readable credentials, or of neither message type |
| `RpcWire.BrokenOtherwise` | src/rpcwire.rs:35-87 | and refused if and only if it is neither: a reply, a call with unreadable credentials, or no message |
| `RpcWire.UnixCallsAreTracked` | src/rpcwire.rs:35-50 | the usual call, given byte by byte with AUTH_UNIX credentials, reaches the retransmission check |
| `RpcWire.CallsAreTracked` | src/rpcwire.rs:35-50 | a well-formed call of version 2 reaches the retransmission check with its xid and program |
| `RpcWire.RepliesAreBroken` | src/rpcwire.rs:83-86 | a reply is refused |
| `RpcWire.UnknownTypeMismatches` | src/rpcwire.rs:44-48 | a record of another message type is answered with a version mismatch |
| `Tracker.NothingStale` | src/transaction_tracker.rs:46-52 | right after a check no completion is older than the retention period, and nothing in progress was evicted |
| `Tracker.TransactionTracker.IsRetransmission` | src/transaction_tracker.rs:23-33 | housekeeping, then the key is seen or inserted in progress |
| `Tracker.TransactionTracker.MarkProcessed` | src/transaction_tracker.rs:36-43 | a key in the table becomes completed at the time read before locking; without the key nothing changes |
| `Tasks.AlwaysExclusive` | src/rpcwire.rs:50-82 | over all interleavings and any clock, the keys in progress in the table are exactly those being executed, each by one task |
| `Tasks.MarkFindsItsKey` | src/transaction_tracker.rs:36-43 | mark_processed finds its key, in progress |
| `Tasks.AbortedBlocksForEver` | src/rpcwire.rs:50-82 | when the handler of a call panics its key stays in progress in every continuation, and every later check of it finds a retransmission |
| `TaskHistory.CheckDecidesBlocked` | src/transaction_tracker.rs:23-33 | the table's answer is the rule on the log: in progress, or finished at t with now <= t + retention |
| `TaskHistory.RetentionWindow` | src/transaction_tracker.rs:23-52 | under a nondecreasing clock, in every interleaving, calls are dropped by exactly that rule, and two executions of one key are separated by a completion more than the retention before the second |
| `TaskHistory.StepSeparated` | src/rpcwire.rs:50-82 | every step keeps executions of one key apart |
| `TaskClock.CheckedByReadings` | src/transaction_tracker.rs:23-52 | in every run whose clock never goes back a call is dropped if and only if one of its key is executing or read the clock, when it was done, at a time t with now <= t + retention |
| `TaskClock.NotAgainWithinRetention` | src/transaction_tracker.rs:36-52 | a call whose task read the clock at t is not executed again at any reading up to t + retention |
| `TaskClock.RunInOrder` | src/transaction_tracker.rs:36-43 | every completion is stamped between the start of its call and now |
| `TaskClock.AnsweredAsEnded` | src/rpcwire.rs:50-87 | each message queued is the outcome its record or its handler calls for |
| `TaskClock.HandledAtOnce` | src/rpcwire.rs:30-87 | a task that is not interrupted leaves the table and the message that `handle_rpc` does |
| `TaskConservation.RecordsConserved` | src/rpcwire.rs:180-208 | on every connection records completed equal replies and errors queued, calls dropped, tasks in flight and panicked tasks, and each message answers a task of its own |
| `TaskConservation.RepliesWithinExecutions` | src/rpcwire.rs:35-87 | answers to a key's calls never exceed its executions |
| `DemoFs.RunsWellFormed` | examples/demo.rs:132-262 | runs of create, write and setattr keep ids equal to positions, directory lists distinct, in range and of entries with that parent, and sizes equal to lengths |
| `DemoFs.ListingIsProper` | examples/demo.rs:304-311 | so a cookie is unambiguous |
| `DemoFs.CreateThenLookup` | examples/demo.rs:150-204 | a created file is what lookup finds if and only if the name was not found before |
| `DemoFs.WriteThenRead` | examples/demo.rs:132-148 | what was written reads back if and only if the write extended the file or changed nothing |
| `DemoFs.WrittenThenRead` | examples/demo.rs:132-148 | the same for a write to a file of the vector |
| `DemoFs.WriteIsDropped` | examples/demo.rs:138-142 | a write over the start of a.txt leaves what was there |
| `DemoFs.WriteChanges` | examples/demo.rs:132-148 | a write that extends a file keeps what was before the offset, fills a gap with zeros and ends with the data; any other leaves the bytes; nothing else changes |
| `DemoFs.SetAttrChanges` | examples/demo.rs:210-262 | each owner and time goes to its own field, a size keeps the bytes below it and fills up with zeros, and nothing else changes |
| `DemoFs.CreateChanges` | examples/demo.rs:150-171 | creation adds an empty file of the name, last in its directory's list, and changes nothing else |
| `DemoFs.LookupAnswers` | examples/demo.rs:181-204 | "." is the directory, ".." its parent, and any other name its first child of that name, or there is none |
| `DemoFs.DemoFS.constructor` | examples/demo.rs:85-118 | the initial vector, well formed |
| `DemoFs.DemoFS.Write` | examples/demo.rs:132-148 | the written vector and the new attributes |
| `DemoFs.DemoFS.Create` | examples/demo.rs:150-171 | the vector with the new entry, listed if its parent is a directory |
| `DemoFs.DemoFS.Lookup` | examples/demo.rs:181-204 | the directory, its parent or the first entry of the name, with each error |
| `DemoFs.DemoFS.SetAttr` | examples/demo.rs:210-262 | the times, owners and size asked for, and the resized contents |
| `DemoFs.DemoFS.Read` | examples/demo.rs:264-287 | the chunk of a file, or the error |
| `DemoFs.DemoFS.ReadDir` | examples/demo.rs:289-330 | the page after the cookie's position, or a refused cookie |
| `ChunkedRead.ReadChunk` | examples/mirrorfs.rs:392-406 | the clamped range is the rest of the file cut to count |
| `ChunkedRead.EofIsTheEnd` | src/vfs.rs:119-124 | eof is said exactly by the call that reaches the end |
| `ChunkedRead.ReadsWholeFile` | examples/demo.rs:275-284 | any positive counts read the whole file within max(1, length) calls |

## Left out

- Sockets, the accept loop, address binding, logging and tokio's scheduler; a connection is its byte stream, its queue of messages and its tasks, and is not closed after an error.
- Bytes of a fragment body that arrived while the rest is awaited stay in the modelled stream until all are there; the end of the stream is not modelled.
- Real file-system calls (stat, listing, create, remove, rename, open, seek): their answers are parameters. MirrorFS's write, readlink and path handling touch no modelled state.
- A failing `metadata()` of a directory entry (examples/mirrorfs.rs:197) and other panics of MirrorFS under its lock.
- Handlers other than READDIRPLUS, among them the constant replies of FSSTAT, PATHCONF, FSINFO and ACCESS, and the port mapper and mount programs.
- READDIR's continuation: `readdir_simple` always starts at 0, so only READDIRPLUS is claimed to page.
- `path_to_id`'s walk, metadata conversion and the making of a generation number.
- i32 and i64 codecs, which no modelled message uses.
- Wrap-around of `next_fileid`: the counter is unbounded.
- Poisoning of DemoFS's lock and indexing beyond its vector: `Allowed` states which calls do not panic. Names that are not UTF-8, on which create panics, are not told apart.
- DemoFS's remove, rename, mkdir and symlink, which always fail.
- Names are taken to be shorter than u32::MAX bytes where they are serialized.
- MirrorListing.WalkIsSafe: assumes that the id counter has not passed 2^64 at any call, where the source's would wrap.
- Xdr.DecodeParsed: says nothing of the bytes consumed by types that hold a union with a default, because an unlisted discriminant reads as another value's encoding; `RpcWire.TrackedExactly` says it for calls, and `Rpc.UnknownMessageType` and `Rpc.UnknownReplyTypes` for the defaults.
- Streams.WriteCounter.WriteAll: does not model short or failing writes of the inner writer.
- RecordMarking.SocketMessageHandler.Loop: does not model the break on a read error or at the end of the stream.
- RpcWire.HandleRpc: does not keep the decoded credentials, which no modelled handler reads, and takes what a program's handler writes as a parameter.
- Enumeration.ListingIsComplete: claims no bound on the calls when the budgets do not hold the next entry, because the server then answers with an empty page that is not the last.
