# Verified model of the vault's core algorithms and protocols

An end-to-end encrypted file vault with a browser client (TypeScript), a file system client (Rust) and a server
(Python). This project models the parts of it whose correctness is least visible from reading one function, and proves
what they promise, for all inputs and, where several threads are involved, for all interleavings.

| part | files |
|---|---|
| The dictionary matcher behind the password meter: a trie in growing arrays with failure links, against plain substring search | `Suffixes.dfy`, `Coverage.dfy`, `AhoCorasick.dfy`, `Matcher.dfy` |
| The incrementally kept index of the vault tree, against recomputation from its entries | `Order.dfy`, `FsNames.dfy`, `NameTable.dfy`, `NameChoice.dfy`, `VaultIndex.dfy`, `VaultPlaces.dfy`, `VaultHistory.dfy` |
| The write buffer made of a block cache, a spill file and implicit zeros, against a plain byte array, under a shared budget | `ScratchStore.dfy`, `Scratch.dfy`, `ScratchRuns.dfy` |
| Saving a write buffer while it is edited | `WriteBack.dfy`, `WriteBackProgress.dfy`, `WriteBuffer.dfy` |
| Sync against concurrent local creates and deletes | `SyncProtocol.dfy`, `SyncDeletes.dfy`, `SyncReturns.dfy`, `SyncExact.dfy` |
| The chunked file format, its writer, its four sequential readers and its concurrent random-access reader | `ChunkFormat.dfy`, `ChunkTheorems.dfy`, `ChunkIo.dfy`, `BrowserReaders.dfy`, `ChunkedSource.dfy`, `ChunkedProgress.dfy` |
| Padding, and files sealed as one message, checked in memory and as a stream | `Padding.dfy`, `SingleMessage.dfy` |
| The healing planner of each client, and the names the browser shows | `HealRules.dfy`, `HealFields.dfy`, `Heal.dfy`, `ShownNames.dfy` |
| Resumable uploads in parts | `PartUpload.dfy`, `UploadRuns.dfy` |

Code that changes things step by step is a class or a method with loops, proved against a specification over values;
protocols between threads are state machines whose steps are the critical sections of the code, and their theorems are
about every run. `dafny verify dfyconfig.toml` checks everything.

Where the code does less than one might expect, the model follows the code and says exactly when the promise holds:

- `analyze` measures the longest word that ends at each position, and counts a letter once. A letter inside a word is
  missed exactly when a word that starts after the letter ends sooner; `Coverage.MissedIffHidden` states this,
  `Coverage.CountedIffFirstCover` says exactly which letters are counted, and `Coverage.CoveredLetterCanBeMissed` gives a
  text and a dictionary where one is not.
- A locally deleted record can come back in four ways. `SyncDeletes.CarefulFor` names the step that opens each, for one
  record at a time: `SyncDeletes.NeverReadded` shows that without them the record never comes back, whatever happens to
  other records, and `SyncReturns.CarelessReadds` that after any one of them, in any run, it can.
- A part upload that begins after the completion has looked at the markers and before it has moved the file can spoil the
  completed file. `UploadRuns.CompletedIsAccepted` shows that without one the file is right, and
  `UploadRuns.NotCalmSpoils` that after one, in any run, the file can be wrong. `UploadRuns.SameBodiesComplete` gives the
  other way to be safe: only ever uploading a part with one body.
- A write buffer is marked clean before its target is changed to the new record. `WriteBack.CleanMeansSaved` says which
  record holds the bytes at every clean moment, and `WriteBack.CleanBeforeTurning` is a run in which it is not yet the
  target's.
- The chunked readers differ in how many chunks they allow: 2^32 in the file system client, 2^32 - 1 in the page, no limit
  in the service worker. `BrowserReaders.ReadersAgreeIff` says exactly for which sizes they agree on every ciphertext.
- The names a folder shows are determined by its entries exactly if no two of them share a file name
  (`NameChoice.FolderDeterminedIff`, and for one entry `NameChoice.NameDeterminedIff`); otherwise even the set of names is
  open (`NameChoice.ListDeterminedIff`). An index gets to different names for the same entries: by putting an entry back
  (`VaultHistory.PutBack`), and by letting one come and go (`VaultHistory.ComeAndGo`). Places, children, registries,
  dependents and alias counts depend only on the entries (`VaultIndex.EntriesDetermineIndex`).
- The healing planners have no answer for some records that share an id (`Heal.DuplicateIdsHaveNoPlan`); their callers
  pass each id once, and `Heal.PlanIndex` and `Heal.PlanRecords` state the plans for what the callers have.

## Model

| member | source | states |
|---|---|---|
| AhoCorasick.StateOutput | client/src/ahocorasick.ts:84-116 | the node that spells the longest live suffix of the text carries the length of the longest dictionary word ending there, 0 if none |
| AhoCorasick.SearchDescends | client/src/ahocorasick.ts:99-114 | each failure step moves to the next shorter live suffix, strictly less deep, so the walks end |
| AhoCorasick.SearchFinds | client/src/ahocorasick.ts:109-116 | a child found on the walk is the longest live suffix of the longer text |
| AhoCorasick.OutputInherited | client/src/ahocorasick.ts:100-103 | a node that ends no word inherits from its failure link the longest word that ends there |
| AhoCorasick.AhoCorasick.Child | client/src/ahocorasick.ts:59-64 | scanning the sibling list finds the one child under a letter, or says there is none |
| AhoCorasick.AhoCorasick.Insert | client/src/ahocorasick.ts:66-82 | the trie gains the prefixes of one word and marks its end, whatever the arrays have to grow |
| AhoCorasick.AhoCorasick.BuildFailLinks | client/src/ahocorasick.ts:84-107 | breadth first, every node gets the link to its longest proper live suffix and the length of its longest word end |
| AhoCorasick.AhoCorasick.constructor | client/src/ahocorasick.ts:19-33 | from any list of words, an automaton of its non-empty words of at most 65535 units |
| AhoCorasick.AhoCorasick.Advance | client/src/ahocorasick.ts:109-116 | after each letter the current node spells the longest suffix of the text so far that starts a dictionary word |
| AhoCorasick.AhoCorasick.HasMatch | client/src/ahocorasick.ts:118-125 | true exactly if some dictionary word occurs in the text |
| AhoCorasick.AhoCorasick.Analyze | client/src/ahocorasick.ts:127-151 | the number of positions where a word ends, and the share of counted letters, between 0 and 1, 0 for no text |
| Matcher.FindAny | client/src/ahocorasick.ts:19-125 | from the list of words to the answer: true exactly if a listed word of at most 65535 letters stands somewhere in the text |
| Matcher.Measure | client/src/ahocorasick.ts:19-151 | from the list of words to the counts: how many letters end a listed word, and the share of letters that the word ending first at or after them contains |
| Matcher.CountedIff | client/src/ahocorasick.ts:136-143 | which letters are counted, said of the listed words and the text alone |
| Suffixes.LongestWordEndOfLiveSuffix | client/src/ahocorasick.ts:100-103 | the longest word that ends a text also ends its longest live suffix |
| Coverage.CountedIffFirstCover | client/src/ahocorasick.ts:136-143 | a letter is counted exactly if the first word end at or after it belongs to a word that reaches back to it |
| Coverage.MissedIffHidden | client/src/ahocorasick.ts:136-143 | a covered letter is missed exactly if an earlier word end hides it |
| Coverage.CoveredLetterCanBeMissed | client/src/ahocorasick.ts:136-143 | a text with a covered letter that is not counted |
| Coverage.TallyStep | client/src/ahocorasick.ts:133-145 | each step of the loop keeps the tally: counted letters before i, word ends before i, last end |
| FsNames.SplitExt | lethean_fuse/src/vault.rs:200-205 | stem and extension make up the name; there is an extension exactly if the last dot is neither the first nor the last byte, and it starts there |
| FsNames.NumberedNameInjective | lethean_fuse/src/vault.rs:207-215 | no two numbers give a name the same numbered form, even where the stem is cut |
| FsNames.NumberedNameFits | lethean_fuse/src/vault.rs:207-215 | a numbered name is at most 255 bytes whenever its number and extension are |
| FsNames.NumberedNameIs | lethean_fuse/src/vault.rs:207-215 | a numbered name is the stem, a space, the number in brackets and the extension; where that is more than 255 bytes the stem ends at its last character that leaves room, and nothing of it is kept if there is no room |
| FsNames.DigitsAreDecimal | lethean_fuse/src/vault.rs:207-215 | the number is written in decimal digits without a leading zero |
| FsNames.FreeNumber | lethean_fuse/src/vault.rs:257-277 | the search for a number ends, at the first one from 2 on whose name is free |
| NameTable.TakenOk | lethean_fuse/src/vault.rs:257-277 | taking one's own name, from an alias if need be, settles the taker and unsettles at most the one it was taken from |
| NameTable.AliasedOk | lethean_fuse/src/vault.rs:257-277 | giving an entry a free numbered name keeps names and entries in correspondence |
| NameTable.PlacedOk | lethean_fuse/src/vault.rs:327-333 | an entry put into a folder holds no name yet, and everyone else is as settled as before |
| NameTable.ClearedOk | lethean_fuse/src/vault.rs:279-303 | taking an entry's name away leaves all others as they were |
| NameTable.RemovedOk | lethean_fuse/src/vault.rs:335-360 | after an entry has left, only entries with the freed names need placing again |
| NameTable.NothingUnsettled | lethean_fuse/src/vault.rs:349-352 | where no alias exists, removing a real name leaves nothing to repair |
| NameTable.RealNameIsShown | lethean_fuse/src/vault.rs:257-303 | if an entry has a file name, some entry in its folder with that very file name shows it: an alias never keeps a real name |
| NameTable.NamesAreOneToOne | lethean_fuse/src/vault.rs:1872-1895 | the shown names of a folder and the entries placed there correspond one to one |
| VaultIndex.ResolveIsPlaceOf | lethean_fuse/src/vault.rs:309-325 | the registries kept along the way give the same place as the set of entries; `VaultPlaces.PlacedRight` says which place that is |
| VaultPlaces.PlacedRight | lethean_fuse/src/vault.rs:309-325 | in every index each entry is where its fields and the other folders' put it: format 1 under its stated parent or at the root; format 2 under the stated parent if that folder bears the reference, else the first folder that does, else the same among the folders made from it, else nowhere |
| VaultPlaces.LookedUpPlace | lethean_fuse/src/vault.rs:309-325 | the same of the set of entries alone, for an entry not yet in the index too |
| VaultPlaces.NowhereIff | lethean_fuse/src/vault.rs:309-325 | an entry with a parent reference is nowhere exactly if no other folder bears it or was made from it |
| VaultPlaces.NamedRight | lethean_fuse/src/vault.rs:230-277 | in every index an entry is found in its folder under its file name, or, while another entry of that file name shows it there, under that name numbered from two on |
| VaultPlaces.NamedPlainly | lethean_fuse/src/vault.rs:257-277 | an entry whose file name nobody else in its folder has shows that name |
| VaultIndex.PlaceUnaffected | lethean_fuse/src/vault.rs:362-375 | an entry whose parent reference is not carried by a folder keeps its place when that folder comes or goes |
| VaultIndex.VaultIndex.PlaceName | lethean_fuse/src/vault.rs:257-277 | names one entry, stealing its own name back from an alias and renaming that one, or else under the first free number from two on; it ends because every steal removes an alias |
| VaultIndex.VaultIndex.Compact | lethean_fuse/src/vault.rs:279-303 | all entries of one file name are named afresh, the one with the lowest number, or the first id among equals, gets the name itself, and the table is settled again |
| Order.LessIff | lethean_fuse/src/vault.rs:317-324 | ids are ordered by the first letter in which they differ, and a proper prefix comes first |
| VaultIndex.VaultIndex.Detach | lethean_fuse/src/vault.rs:335-360 | takes an entry out of its folder and settles the names it leaves |
| VaultIndex.VaultIndex.Attach | lethean_fuse/src/vault.rs:327-333 | puts an entry where it resolves to (`VaultPlaces.LookedUpPlace` and `VaultPlaces.PlainPlace` say where), under a settled name |
| VaultIndex.VaultIndex.ReattachDependents | lethean_fuse/src/vault.rs:362-375 | afterwards every entry is again where its parent reference resolves to |
| VaultIndex.VaultIndex.Insert | lethean_fuse/src/vault.rs:385-409 | adds an entry unless its id is known; every derived map is again what the entries determine, and a new entry that is no folder and whose name is taken gets the first free number |
| VaultIndex.VaultIndex.Remove | lethean_fuse/src/vault.rs:411-432 | drops an entry; every derived map is again what the entries determine |
| VaultIndex.VaultIndex.FindChild | lethean_fuse/src/vault.rs:1872-1876 | finds exactly the entry that is shown under the name in the folder |
| VaultIndex.VaultIndex.ListChildren | lethean_fuse/src/vault.rs:1882-1895 | lists every entry of the folder once, no two under one name, and each listed name leads back to its entry |
| VaultIndex.EntriesDetermineIndex | lethean_fuse/src/vault.rs:309-432 | two indexes with the same entries agree on places, children, registries, dependents and alias counts, however they came about |
| VaultIndex.AliasCountDetermined | lethean_fuse/src/vault.rs:239-255 | the number of aliases in a folder is its entries less their distinct file names |
| VaultIndex.RegistryDetermined | lethean_fuse/src/vault.rs:377-432 | a registry holds exactly the ids that carry each key |
| VaultIndex.Replay | lethean_fuse/src/vault.rs:385-432 | any run of inserts and removes ends in a valid index of the entries it should hold |
| NameChoice.NameDeterminedIff | lethean_fuse/src/vault.rs:257-303 | an entry's shown name is the same in all settled tables of the same entries exactly if no other entry in its folder has its file name |
| NameChoice.FolderDeterminedIff | lethean_fuse/src/vault.rs:257-303 | a folder's shown names are, exactly if no two of its entries share a file name |
| NameChoice.ListDeterminedIff | lethean_fuse/src/vault.rs:1882-1895 | and so is the set of its shown names |
| VaultHistory.PutBack | lethean_fuse/src/vault.rs:335-432 | in any index, where two entries of a folder share a file name, removing the one that shows it and inserting it again leaves the same entries, and that one under another name |
| VaultHistory.ComeAndGo | lethean_fuse/src/vault.rs:257-360 | in any index, an entry whose file name an alias shows, inserted and removed again, leaves the same entries, and a folder that no longer lists that name |
| ScratchStore.SpilledOk | lethean_fuse/src/scratch.rs:243-266 | a block sealed into its slot is what that slot reads as, and every other block reads the same |
| Scratch.Scratch.WriteSlot | lethean_fuse/src/scratch.rs:243-266 | seals the block for its own number under a nonce higher than every one before it, adds it to the history of all sealings, and leaves every other slot alone |
| ScratchStore.SealedOnceMore | lethean_fuse/src/scratch.rs:250-253 | in the history of a buffer's sealings nonces only grow, so no two are the same |
| ScratchStore.StoredOk | lethean_fuse/src/scratch.rs:332-359 | new data in a cached block is what that block reads as, and every other block reads the same |
| ScratchStore.ForgottenOk | lethean_fuse/src/scratch.rs:385-416 | forgetting the blocks past the end keeps everything before it and makes the rest zero |
| ScratchStore.WrittenContents | lethean_fuse/src/scratch.rs:332-359 | bytes written block by block are those of one write into a plain array with a zero-filled gap |
| ScratchStore.ResizedContents | lethean_fuse/src/scratch.rs:385-416 | cutting and extending read as on a plain array |
| Scratch.ScratchPool.TryReserve | lethean_fuse/src/scratch.rs:72-83 | reserves a block exactly if the budget allows it; what is used stays the sum of the shares |
| Scratch.ScratchPool.Release | lethean_fuse/src/scratch.rs:85-87 | gives blocks back; what is used stays the sum of the shares |
| Scratch.Scratch.EvictLru | lethean_fuse/src/scratch.rs:290-305 | the first block in the order of use, the one used longest ago, leaves cache and order, written out if dirty; no byte changes |
| Scratch.Scratch.Touch | lethean_fuse/src/scratch.rs:233-241 | using a cached block moves it to the end of the order of use, and the others keep theirs |
| Scratch.Scratch.CacheBlock | lethean_fuse/src/scratch.rs:320-330 | afterwards the block is in the cache, last in the order of use, and reads as before if it was loaded; no other byte changes |
| Scratch.Scratch.MakeRoom | lethean_fuse/src/scratch.rs:307-318 | ends, with room for one more block within budget and limit; no byte changes |
| Scratch.Scratch.WriteAt | lethean_fuse/src/scratch.rs:332-359 | the contents become what a plain array would hold; refused exactly where the end overflows 64 bits; one generation later |
| Scratch.Scratch.ReadAt | lethean_fuse/src/scratch.rs:361-383 | returns exactly that part of the contents, from cache, spill file or implicit zeros |
| Scratch.Scratch.SetLen | lethean_fuse/src/scratch.rs:385-416 | the contents are cut or extended with zeros; every kept byte past the end is zero |
| Scratch.Scratch.Drop | lethean_fuse/src/scratch.rs:428-440 | everything the buffer reserved goes back to the pool |
| ScratchRuns.Machine.OthersHold | lethean_fuse/src/scratch.rs:72-87 | what one buffer reserves, evicts or gives back leaves every other buffer as it was, even in the middle of a write |
| Scratch.ScratchPool.OthersAct | lethean_fuse/src/scratch.rs:72-87 | whatever other buffers reserve and give back, the budget is kept and this buffer's share is its own |
| ScratchRuns.Run | lethean_fuse/src/scratch.rs:332-440 | in any run that opens, writes, cuts and drops any number of buffers on one budget, with the blocks of their writes interleaved in any way, and other buffers reserving and giving back before every access to the budget, each reads back as a plain byte array would, and no buffer has ever sealed two blocks under one nonce |
| WriteBack.InvKept | lethean_fuse/src/fuse_fs.rs:850-927 | every step, deletes of replaced records among them, keeps: what is marked committed has been uploaded, unless edited since, and its record is not one to be deleted |
| WriteBack.CleanMeansSaved | lethean_fuse/src/fuse_fs.rs:850-927 | in every run a clean buffer's bytes are exactly those of a record: the target's, or, between marking and turning to the new target, the one just saved |
| WriteBack.MarkedTurns | lethean_fuse/src/fuse_fs.rs:898-907 | turning to the new target makes that record the target's |
| WriteBack.CleanBeforeTurning | lethean_fuse/src/fuse_fs.rs:898-907 | a run in which the buffer is clean and its target's record still holds the old content |
| WriteBack.EditStaysDirty | lethean_fuse/src/scratch.rs:192-216 | an edit during an upload leaves the buffer dirty however that upload ends |
| WriteBack.SavedIsNotLost | lethean_fuse/src/vault.rs:2297-2310 | in every run, once the server has answered for a save, its record keeps what was sent until it has answered for another, however commits fail and whenever replaced records are deleted |
| WriteBack.OpenedIsNotLost | lethean_fuse/src/vault.rs:2297-2310 | and what the file held when it was opened is kept until the first such answer |
| WriteBackProgress.CanBeSaved | lethean_fuse/src/fuse_fs.rs:850-927 | from every state of every run, without another edit, commits can leave the buffer clean with exactly its bytes in its target's record |
| WriteBack.InvInitial | lethean_fuse/src/fuse_fs.rs:1594-1626 | buffers opened on existing, truncated and new files start in a state the invariant allows |
| WriteBuffer.DoWrite | lethean_fuse/src/fuse_fs.rs:1736-1754 | writing to the block-cached buffer is the protocol's write |
| WriteBuffer.DoReadMore | lethean_fuse/src/scratch.rs:458-471 | what the upload reads next is what the protocol's step sends |
| WriteBuffer.DoMark | lethean_fuse/src/scratch.rs:192-206 | marking the generation the upload began with is the protocol's mark, whatever has been written since |
| WriteBuffer.OpenEmpty | lethean_fuse/src/fuse_fs.rs:1594-1598 | a new buffer marked dirty is the protocol's start for new and truncated files |
| WriteBuffer.OpenExisting | lethean_fuse/src/fuse_fs.rs:1613-1620 | a buffer filled and marked committed is its start for existing files |
| SyncProtocol.NeverDropped | lethean_fuse/src/vault.rs:1413-1604 | in every run, a record that is in the index and stays on the server stays in the index, or is hidden by healing, until a local delete forgets it |
| SyncProtocol.HealLeavesCopy | lethean_fuse/src/vault.rs:1606-1646 | healing hides a record only while an identical copy stays in the index |
| SyncProtocol.GoneIsGoneKept | lethean_fuse/src/vault.rs:1413-1604 | every step keeps: once the second listing is in, a record that is to be dropped has left the server, and its id is not given out again |
| SyncDeletes.InvKept | lethean_fuse/src/vault.rs:1413-1604 | every step that is careful about a record keeps what makes its delete safe: it has left the server or is hidden, and a sync that knows it will find it journalled |
| SyncDeletes.NeverReadded | lethean_fuse/src/vault.rs:949-1059 | in every run whose steps about one record are careful, that record, once a local delete has taken it out, never comes back |
| SyncReturns.CarelessReadds | lethean_fuse/src/vault.rs:1413-1604 | in every run, after a step that is not careful about a record a local delete has taken it out, and the run can go on so that it is back |
| SyncReturns.SplitForgetReadds | lethean_fuse/src/vault.rs:2037-2042 | from any state: the apply phase checks a record between the two halves of its forgetting, and adds it back |
| SyncReturns.RefusedDeleteReadds | lethean_fuse/src/vault.rs:1011-1045 | from any state: a delete the server refuses is taken for done, the record is shown again, and the next sync adds it |
| SyncReturns.OvertakenCreateReadds | lethean_fuse/src/vault.rs:1270-1279 | from any state: a create that returns after its own record's delete puts it back |
| SyncReturns.OvertakingHealReadds | lethean_fuse/src/vault.rs:1652-1659 | from any state: a record that healing has hidden before its delete forgets it is put back when its copy is lost |
| SyncReturns.FinishSync | lethean_fuse/src/vault.rs:1413-1604 | from any state a sync can be brought to its end without touching the server or what is hidden, even if it lets every record pass; what a sync achieves is said by the rows that follow |
| SyncExact.SyncedIsExact | lethean_fuse/src/vault.rs:1413-1604 | in every run, when a sync that nothing interrupts has ended, every record being readable, none hidden and no two alike, the index holds exactly the server's records |
| SyncExact.SyncUpdates | lethean_fuse/src/vault.rs:1413-1604 | and from every such state there is one, ending with the index as the server has it |
| SyncExact.StepsAhead | lethean_fuse/src/vault.rs:1413-1604 | every step of a running sync but healing brings its end nearer |
| SyncExact.GoneIsDropped | lethean_fuse/src/vault.rs:1491-1498 | in every run, whatever runs beside it: what a sync found gone is out of the index when its apply phase ends, unless touched locally since the sync began |
| SyncExact.ModifiedIsTaken | lethean_fuse/src/vault.rs:1499-1520 | a record found in another version has that version in the index, unless it was touched or hidden locally, could not be read, or was then hidden by healing |
| SyncExact.NewIsTaken | lethean_fuse/src/vault.rs:1499-1520 | and a record the index did not have is in it, under the same conditions |
| SyncExact.CreatedIsShown | lethean_fuse/src/vault.rs:1270-1279 | when a create ends the index has the record, as it was posted if a sync has not put it there before |
| SyncReturns.ForgettingCanBeSplit | lethean_fuse/src/vault.rs:2037-2042 | a careful run gets to the first of these states |
| SyncReturns.DeleteCanBeRefused | lethean_fuse/src/vault.rs:1011-1045 | a careful run gets to the second |
| SyncReturns.CreateCanBeOvertaken | lethean_fuse/src/vault.rs:1270-1279 | a careful run gets to the third |
| SyncReturns.HealingCanOvertake | lethean_fuse/src/vault.rs:1606-1646 | a careful run gets to the fourth |
| ChunkFormat.ChunkCountCovers | lethean_fuse/src/crypto/chunked.rs:22-28 | the chunks cover the file and all but the last are needed |
| ChunkFormat.NonceForInjective | lethean_fuse/src/crypto/chunked.rs:37-46 | different chunks get different nonces |
| ChunkFormat.AadForInjective | lethean_fuse/src/crypto/chunked.rs:48-56 | the associated data tells format, index and last chunk apart |
| ChunkTheorems.NonceIs | lethean_fuse/src/crypto/chunked.rs:37-46 | a nonce is the prefix and then the index in four bytes, most significant first |
| ChunkTheorems.AadIs | lethean_fuse/src/crypto/chunked.rs:48-56 | the associated data is the label of the second format, the index in four bytes, and 1 for the last chunk, else 0 |
| ChunkTheorems.SealedChunkIs | lethean_fuse/src/crypto/chunked.rs:128-155 | chunk i is sealed from the file's bytes from i times the chunk size on, filled up with zeros, and flagged as last exactly if the file does not go on after it |
| ChunkTheorems.FillerMatters | lethean_fuse/src/crypto/chunked.rs:72-77 | an opened chunk is accepted if it is long enough and, in the second format, only zeros follow the file's part; the first format never looks |
| ChunkTheorems.RoundTrip | lethean_fuse/src/crypto/chunked.rs:22-77 | a sealed file has the announced length and opens to the file |
| ChunkTheorems.IdealExists | lethean_fuse/src/crypto/chunked.rs:58-70 | the cipher the theorems assume exists, whatever has been sealed with it |
| ChunkTheorems.OnlySealedChunkOpens | lethean_fuse/src/crypto/chunked.rs:58-70 | under an ideal cipher a chunk opens only in its own place of its own file |
| ChunkTheorems.OnlySealedFileOpens | lethean_fuse/src/crypto/chunked.rs:188-230 | the only ciphertext accepted is the one that was sealed: no reordering, repetition, truncation, extension or change |
| ChunkIo.ReadFull | lethean_fuse/src/crypto/chunked.rs:175-186 | reads until the buffer is full or the source ends, however the source fragments |
| ChunkIo.ChunkedEncryptReader.Read | lethean_fuse/src/crypto/chunked.rs:157-173 | the bytes read so far are a prefix of the sealed file; the end comes only when all of it has been read |
| ChunkIo.EncryptAll | lethean_fuse/src/crypto/chunked.rs:128-173 | for any source fragmentation and any buffer sizes the whole sealed file, of the announced length; fails exactly if the source is short, the prefix wrong or there are too many chunks |
| ChunkIo.DecryptChunked | lethean_fuse/src/crypto/chunked.rs:188-230 | opens exactly what the format says, within its limits on chunk size and count |
| BrowserReaders.DecryptWhole | client/src/crypto-encrypt-core.ts:515-541 | opens exactly what the format says, into a buffer of the file's size |
| BrowserReaders.DecryptStream | client/src/crypto-encrypt-core.ts:543-608 | however the ciphertext is split, completes on exactly what the whole-file reader accepts, with the same bytes |
| BrowserReaders.ChunkedDecryptor.Transform | client/src/download-sw.ts:207-217 | keeps the emitted bytes equal to what the complete chunks received so far open to |
| BrowserReaders.DecryptInWorker | client/src/download-sw.ts:175-222 | however the ciphertext is split, completes on exactly the ciphertexts the format accepts, with the same bytes |
| BrowserReaders.OpenEveryWay | client/src/download-sw.ts:175-222 | all four sequential readers give what the format says within the limits each has, and nothing beyond them |
| BrowserReaders.HonestFileOpens | client/src/crypto-encrypt-core.ts:503-541 | every reader gives a file back from its sealed form, 16 bytes a chunk longer, exactly within its limits: sizes up to 2^53 - 1 and 2^32 - 1 chunks in the page, chunks of 1024 bytes to 256 MiB and 2^32 of them in the file system client |
| BrowserReaders.ReadersAgreeIff | client/src/crypto-encrypt-core.ts:503-509 | the page, and the file system client, agree with the service worker on every ciphertext exactly if the sizes are within their limits |
| BrowserReaders.PageRefusesMore | client/src/download-sw.ts:175-181 | a ciphertext of 2^32 chunks that the service worker opens and the page does not |
| ChunkedSource.LoadersOkKept | lethean_fuse/src/vault.rs:742-810 | every step keeps: one loader per loading chunk, ready chunks hold their slice |
| ChunkedSource.OneLoaderPerChunk | lethean_fuse/src/vault.rs:746-784 | at any time of any run a chunk has at most one loader |
| ChunkedSource.ReadyNeverChanges | lethean_fuse/src/vault.rs:702-709 | a ready chunk stays ready with the same content, its part of the file |
| ChunkedSource.ResidentAtRest | lethean_fuse/src/vault.rs:786-803 | with no load half counted, the counter is the total plain size of the ready chunks |
| ChunkedSource.ReadReturnsSlice | lethean_fuse/src/vault.rs:638-740 | whatever blobs the server sends, a read of any length at any offset that returns gives exactly the part of the file asked for, as far as the file reaches, across chunk borders, whoever loaded the chunks |
| ChunkedSource.Fetch | lethean_fuse/src/vault.rs:812-854 | loading a chunk opens its range of the blob and keeps the file's part of it; `ChunkedProgress.HonestFetch` says that the sealed file does load |
| ChunkedProgress.HonestFetch | lethean_fuse/src/vault.rs:812-854 | from the file as it was sealed every chunk of up to 2^32 loads, and gives the file's bytes from i times the chunk size on |
| ChunkedProgress.ReadCanReturn | lethean_fuse/src/vault.rs:638-810 | from every state of every run a read that has begun can go on, an honest server provided, until it returns the bytes it asked for, whatever the other threads are in the middle of |
| ChunkedProgress.ReadGivesFile | lethean_fuse/src/vault.rs:638-740 | in every run a read begun for a length at an offset returns the file's bytes from there up to that length or the file's end |
| ChunkedSource.FetchedIsSlice | lethean_fuse/src/vault.rs:812-854 | under an ideal cipher a chunk that loads from any blob is its part of the file |
| Padding.PaddedIsLeast | lethean_fuse/src/crypto/aead.rs:102-109 | padding picks the least bucket or step multiple that holds n |
| Padding.PaddedMonotoneIdempotent | lethean_fuse/src/crypto/aead.rs:102-145 | padded sizes keep order and are their own padded size, for contents and metadata alike |
| Padding.PaddedSizeIs | lethean_fuse/src/crypto/aead.rs:91-109 | contents are padded to the least of 16 KiB, 64 KiB, and so on by fours up to 256 MiB, 1 GiB, and then multiples of 256 MiB that holds them; a padded size stays as it is |
| Padding.PaddedMetadataSizeIs | lethean_fuse/src/crypto/aead.rs:135-145 | metadata to the least power of two from 64 to 4096, and then multiple of 4096 |
| Padding.PadMetadataIs | lethean_fuse/src/crypto/aead.rs:147-153 | padded metadata is its length in four bytes, itself, and zeros |
| Padding.MetadataRoundTrip | lethean_fuse/src/crypto/aead.rs:147-153 | the strict reader accepts exactly the padded form of some bytes and returns them |
| Padding.OnlyPaddedComesBack | lethean_fuse/src/crypto/aead.rs:304-313 | whatever the strict reader accepts is the padded form of what it returns |
| Padding.PadMetadataBytes | lethean_fuse/src/crypto/aead.rs:147-153 | the buffer filled in place is the padded form |
| SingleMessage.AcceptedIsPadded | lethean_fuse/src/crypto/aead.rs:368-391 | the plain texts accepted for a content are exactly those padded from it, or from a gzip stream that unpacks to it and nothing more; without a length only the empty text is |
| SingleMessage.PadToBucketIs | lethean_fuse/src/crypto/aead.rs:111-120 | padded contents are themselves and then zeros up to the least size contents are padded to |
| SingleMessage.LegacyContentIs | lethean_fuse/src/crypto/aead.rs:359-371 | in format 1 the padding is cut off at a known length, and what is left is the content or unpacks to it |
| SingleMessage.DecompressExactly | lethean_fuse/src/crypto/aead.rs:340-357 | succeeds exactly if the decoder yields the expected number of bytes and has then consumed all of its input |
| SingleMessage.ContentUnique | lethean_fuse/src/crypto/aead.rs:368-391 | a plain text stands for at most one content, so two checks that accept it give the same bytes |
| SingleMessage.FinishSingleContent | lethean_fuse/src/crypto/aead.rs:359-391 | in each format accepts exactly the plain texts of some content and returns that content |
| SingleMessage.DecompressBytes | lethean_fuse/src/crypto/aead.rs:48-54 | gives all a gzip stream unpacks to, and fails exactly if the decoder does |
| SingleMessage.StreamSingle | lethean_fuse/src/vault.rs:2456-2521 | for any fragmentation of the stream, accepts what the check in memory accepts of a file and writes the same bytes |
| HealRules.WalksAreShort | lethean_fuse/src/heal.rs:26-122 | following successors takes at most three steps and never comes back |
| HealRules.ReachesShown | lethean_fuse/src/heal.rs:26-122 | from every record a walk of at most three steps reaches a record that stays shown: no lineage is hidden entirely |
| HealRules.RankFalls | lethean_fuse/src/heal.rs:26-122 | a successor is hidden, if at all, by a later rule than the record it succeeds |
| HealRules.DecidedOnce | lethean_fuse/src/heal.rs:26-122 | every hidden record has one successor and one kind |
| HealRules.LeftHiddenIffChainEnds | lethean_fuse/src/heal.rs:71-118 | a record the first two rules leave is hidden exactly if its chain of replacements ends, and points to that end |
| HealFields.DecidedByFields | lethean_fuse/src/heal.rs:26-122 | on the records' own fields, exactly what happens to each: a later copy gives way to the first; of the first copies of one node, one whose revision (none counts as 0) is higher than all others' takes the place of all others, and if the highest is shared none gives way; of the files left, one gives way to the end of its chain of first replacements if there is an end |
| HealFields.ListingFits | lethean_fuse/src/heal.rs:26-122 | a list of the decisions says exactly that of every record, and nothing else |
| HealFields.SupersededAre | lethean_fuse/src/heal.rs:44-66 | rule 2 alone, on the fields of the records it is given |
| HealRules.EndsOrGoesOn | lethean_fuse/src/heal.rs:96-119 | a chain that does not end can be followed for any number of steps |
| HealRules.CyclesHideNothing | lethean_fuse/src/heal.rs:96-119 | a chain that runs into a cycle hides nothing |
| HealRules.ClientsDecideAlike | client/src/dedupe-core.ts:77-137 | two sets of the same records whose fingerprints tell the same ones apart get the same decisions |
| HealRules.ClientsListAlike | client/src/dedupe-core.ts:77-137 | and the same list of decisions, in whatever order the records came |
| Heal.Plan | lethean_fuse/src/heal.rs:26-122 | the list, by id, of exactly what happens to each record by the three rules, said on the records' fields |
| Heal.HealPlan | client/src/dedupe-core.ts:77-137 | the list, by id, of exactly what happens to each record by the three rules, said on the records' fields |
| Heal.PlanIndex | lethean_fuse/src/vault.rs:1606-1630 | for the records of an index, in whatever order it gives them, the list of exactly their decisions |
| Heal.UniqueById | client/src/dedupe-core.ts:45-48 | keeps exactly the first record of each id |
| Heal.PlanRecords | client/src/dedupe-core.ts:45-137 | for any records, the list of exactly the decisions about the first of each id |
| Heal.DuplicateIdsHaveNoPlan | lethean_fuse/src/heal.rs:26-40 | four records, two with one id, whose decisions no list can hold |
| Heal.HideCopies | lethean_fuse/src/heal.rs:29-40 | rule 1, whatever the order of the groups |
| Heal.FindStale | lethean_fuse/src/heal.rs:44-66 | rule 2, whatever the order of the groups and however they are keyed: exactly the records that another of their node outdates, each with the one of the highest revision |
| Heal.FindReplacements | lethean_fuse/src/heal.rs:71-95 | for each file the first id among its replacements |
| Heal.Follow | lethean_fuse/src/heal.rs:98-114 | the end of a chain, or the knowledge that it has none |
| Heal.ResolveChains | lethean_fuse/src/heal.rs:96-119 | exactly the files whose chain ends, each with that end; the cyclic ones drop out |
| Heal.TextKeyIsTupleKey | client/src/dedupe-core.ts:89-94 | the browser's text key groups as the pair of kind and reference does |
| ShownNames.NumberedInjective | client/src/dedupe-core.ts:32-35 | no two numbers give a name the same numbered form |
| ShownNames.NumberedAlike | client/src/dedupe-core.ts:32-35 | the browser writes stem, number and extension in full, so it numbers a name like the mounted folder exactly as long as the name fits in 255 bytes |
| ShownNames.FreeName | client/src/dedupe-core.ts:37-43 | the search ends, at the name itself or its first free number |
| ShownNames.ShownNames | client/src/dedupe-core.ts:139-152 | every record is shown, no two under one name; the first bearer of a name keeps it and nobody's number is a real name |
| PartUpload.StartUpload | server/main.py:469-474 | accepts exactly the numbers within limits for which the parts cover the file and all are needed; too large is told from wrong |
| PartUpload.PartsTile | server/main.py:439-442 | every byte of the file is in exactly one part |
| PartUpload.SessionDir.PwriteAll | server/storage.py:313-318 | writes the whole buffer however short the single writes are |
| PartUpload.SessionDir.WritePartStreamed | server/storage.py:321-369 | accepted exactly if the stream does not stall and has the expected length; then the part's place holds the body; in any case only that place changes and the marker is there only if accepted |
| PartUpload.AcceptedIff | server/storage.py:332-364 | a stream is accepted exactly if it never stalls and delivers the expected number of bytes |
| PartUpload.VerdictIs | server/storage.py:332-364 | otherwise the first thing that goes wrong decides: a stall, the piece that exceeds the expected length, or an end that comes short |
| PartUpload.WholeFile | server/main.py:514-543 | with every part in place the file is the bodies in order |
| PartUpload.Upload.UploadPart | server/main.py:514-543 | an accepted body is recorded in its place; a refused one takes its own part's marker only |
| PartUpload.Upload.Complete | server/main.py:552-583 | succeeds exactly if all parts are marked, and then the file is the last accepted bodies in order |
| UploadRuns.CompletedIsAccepted | server/main.py:552-583 | for uploads of different parts interleaved step by step, in any order, with failures and repetitions, the completed file is the last accepted bodies in order, if no upload begins between the completion's check and its move |
| UploadRuns.CompletedStays | server/storage.py:380-383 | and it no longer changes |
| UploadRuns.CompletedHadAll | server/main.py:552-583 | in every run, calm or not, a completed upload had every part accepted |
| UploadRuns.LateBeginSpoils | server/main.py:556-575 | from any state between the check and the move, one more upload of any part, which then fails, leaves a completed file that is not the accepted bodies |
| UploadRuns.NotCalmSpoils | server/main.py:556-575 | every run with such an upload can go on, from there, to complete a wrong file: the condition is needed as well as enough |
| UploadRuns.EverySessionCanSpoil | server/main.py:514-583 | and every session has such a run |
| UploadRuns.SameBodiesComplete | server/main.py:552-583 | in any run, the completed file is right if each part is only ever uploaded with the same body |

## Left out

- AES-GCM, HKDF and SHA-256: an ideal authenticated cipher, given as a function; keys, wrapping and key derivation are not modelled.
- Gzip: an uninterpreted decoder that yields bytes, ends or fails, and says how much it has consumed.
- Disk and network failures inside a write buffer: its theorems are about runs without I/O errors.
- Wake-ups, timeouts, retries in time and liveness: a waiting thread is one whose step is not enabled yet.
- Int32 node numbers and the largest typed array of a JavaScript engine: node counts are unbounded, as are array sizes.
- 64-bit overflow of nonce counters, generations and journal sequence numbers, and of chunk sizes times counts.
- JavaScript numbers and Python's float division: sizes are integers; both round correctly for sizes the programs accept.
- Offset paging: a listing is one snapshot of the server; the optional second listing of a suspicious sync is modelled.
- Healing inside sync hides identical copies, and puts one back or forgets it once deleted; the other rules of the planner, which hide nothing from the index, and quarantine decoding are not in the sync model.
- The journal entry and the end of a healing delete are one step.
- Discarded write buffers, remote changes to a record being saved, the inode table and the notification of the kernel.
- Reads after a failed read of the encrypting reader: its state is described only up to the first failure.
- Format 1 single messages when streamed, and the empty content of records without a content length when streamed.
- ScratchRuns.Run: while one buffer of the run writes a block or is cut, the run's other buffers wait; any number of further buffers may reserve and give back in between, so a run of one buffer covers every interleaving with others.
- The two halves of a journal entry (its number is drawn, then it is stored) are one step.
- ChunkedSource.ResidentAtRest: says nothing while a load has been counted and not finished.
- NameTable.RealNameIsShown: says which names are real, not which entry of several with one file name shows it; that depends on order.
- Heal.Plan: asks for distinct ids, as its caller gives it; `Heal.PlanIndex` is the plan for what that caller has.
- Heal.HealPlan: asks for distinct ids, as its caller gives it, and for revisions that are natural numbers; `Heal.PlanRecords` takes any records.
- The sort order of directory listings, caches, thumbnails, worker pools and everything of the user interface.
- Limits that are configuration (sizes of uploads and parts) have their default values.
- Server quotas, session expiry, authorisation and abandoned sessions: an upload is one session from start to completion.
