# Verified models of open-vm-tools

The project models the parts of open-vm-tools whose behaviour spans many steps, and
proves what they keep over all inputs, all runs and all reachable states. Each
module stands for one component.

| module | component |
|---|---|
| `Transport` | the HGFS channel, its locks and the pending-request list, as an interleaved protocol and as code |
| `AttrCache` | the attribute cache in its list and hash forms, with the 32-bit age arithmetic |
| `Coherence`, `CacheRace` | the FUSE calls that read, fill and invalidate that cache, in sequence and racing |
| `Session` | creating, losing and re-creating the protocol session from inside reply parsing |
| `Versions` | the global version switches, alone and interleaved |
| `ReadDir`, `Escape` | directory enumeration and the escaping of names |
| `FileIO` | the chunked read and write loops |
| `ReadOnly` | deleting and renaming entries the host protects |
| `LogCache` | log messages while log IO is suspended |
| `GuestLib` | version negotiation and statistics of the guest library |
| `CertStore` | the trusted certificate store |
| `Unescape`, `PathStrip`, `CommandLine`, `CommandSplit` | three string routines that rewrite a buffer |
| `Common`, `Memory` | error numbers, options, and moving bytes inside a buffer |

Conventions. The host, the file system and the clock are parameters: an arbitrary
function or sequence of answers, so a theorem holds for every host. Concurrency is a
state machine over atomic steps; a run is any sequence of enabled steps. Code that
updates fields or buffers is a class or a method with loops, proved against a
function; the theorems are about that function. Memory allocation succeeds.

The model follows the code also where it does less than its documentation says or a
reader would expect:

- HgfsRead is documented to return an error, but reports a failed request as the
  bytes read so far (`FileIO.Handle.Read`).
- A stale answer to create-session leaves the session disabled even if the nested
  creation succeeded (`Session.CreateSpec`).
- A version 2 setattr never sets the attribute mask, and version 1 sends the
  effective permissions as the owner's (`ReadOnly.RestoreByVersion`).
- A create-session reply whose payload is cut short or overlaps the header still
  enables the session (`Session.BadReplyDisables`).
- A partly failed write, a set whose attributes cannot be read back and a refused
  delete leave a stale copy cached (`Coherence.FailureWindow`), and a directory rename
  leaves the copies of what was inside it (`Coherence.RenameCoherence`).
- A getattr can store what it fetched after another thread's write was invalidated
  (`CacheRace.StaleIffOvertaken`).
- Clearing a read-only bit works from a cached copy of the attributes, which may be old
  (`ReadOnly.RestoreLeavesWhatWasSeen`).
- access looks up the bare path but stores under the prefixed one
  (`Coherence.AccessFetchExact`).
- After an undecodable statistics count the update still reports success and the
  getters read old data (`GuestLib.GettersReadLastReply`).
- A destroyed session stays enabled unless the host confirms the destruction
  (`Session.DestroyLeavesEnabledIff`).
- The write loop believes the size the host reports, and skips what it claims
  (`FileIO.Handle.Write`).
- A late reaction to a rejection moves a version switch up again
  (`Versions.RisesIffLate`).
- Adding a certificate goes ahead when the search for it failed
  (`CertStore.AddIsSetAddExactly`).
- The command splitter loses a character after a backslash, adds a missing closing
  quote, and reads an uninitialised buffer if nothing split the command, or past its end
  (`CommandLine.SpelledIff`, `CommandLine.TerminatedIff`).

`dafny verify dfyconfig.toml` checks the whole project.

## Model

| member | source | states |
|---|---|---|
| `Transport.EveryRunKeepsInv` | open-vm-tools/vmhgfs-fuse/transport.c:321-364 | After every interleaving of any number of concurrent sends, host decisions and teardowns: mutual exclusion of the channel lock, channel and backdoor pointer in step, the list without duplicates and holding exactly the requests between enqueue and unlink, and for each call its request state, dispatch count and return value in step. |
| `Transport.StepKeepsInv` | open-vm-tools/vmhgfs-fuse/transport.c:321-364 | Every atomic step of every call keeps that invariant. |
| `Transport.SendOutcome` | open-vm-tools/vmhgfs-fuse/transport.c:321-364 | A returned call is off the list; it returned 0 exactly when its request is completed; otherwise the request is unsent; it reached the host at most twice, and not at all exactly when the result is ENOTCONN; it gave up only when the host would not open a channel for it, or refused it a second time. |
| `Transport.ChannelConnected` | open-vm-tools/vmhgfs-fuse/transport.c:74-90 | Whenever the channel lock is free an active channel is connected, and every send goes out on a connected channel held by the sender. |
| `Transport.QuiescentListEmpty` | open-vm-tools/vmhgfs-fuse/transport.c:436-457 | With no send in progress the pending list is empty and the lock free: the assertion of the teardown. |
| `Transport.TeardownCloses` | open-vm-tools/vmhgfs-fuse/transport.c:436-457 | After a teardown there is no channel, and nothing on the list. |
| `Transport.NoDeadlock` | open-vm-tools/vmhgfs-fuse/transport.c:321-364 | While some call has not returned, some call can move. |
| `Transport.CallIsBounded` | open-vm-tools/vmhgfs-fuse/transport.c:321-364 | No call ever takes more than ten steps of its own, in any interleaving. |
| `Transport.SoloIsRun` | open-vm-tools/vmhgfs-fuse/transport.c:321-364 | The undisturbed call computed by the code is one run of the interleaved protocol in which only that call moves, so all of the above holds of it. |
| `Transport.RemoveFromSpec` | open-vm-tools/vmhgfs-fuse/transport.c:197-207 | Unlinking removes one request, keeps the others, keeps them distinct. |
| `Transport.Client.SendRequest` | open-vm-tools/vmhgfs-fuse/transport.c:321-364 | The imperative send with its one retry: the whole new state, including an unchanged pending list, for each combination of host decisions. |
| `Transport.Client.SendWithRetry` | open-vm-tools/vmhgfs-fuse/transport.c:343-350 | Send, reset the channel on failure, send once more: channel, list, request and result. |
| `Transport.Client.QueueAndSend` | open-vm-tools/vmhgfs-fuse/transport.c:341-350 | An answered request leaves the list as it was; an unanswered one stays at its end. |
| `Transport.Client.Leave` | open-vm-tools/vmhgfs-fuse/transport.c:352-363 | The lock is released first; only a failed request is then dequeued. |
| `Transport.Client.ChannelOpen` | open-vm-tools/vmhgfs-fuse/transport.c:74-90 | A channel is published only if the host opened it; otherwise it is torn down again. |
| `Transport.Client.ChannelClose` | open-vm-tools/vmhgfs-fuse/transport.c:109-119 | Closing leaves the backdoor disconnected and no active channel. |
| `Transport.Client.ChannelReset` | open-vm-tools/vmhgfs-fuse/transport.c:140-153 | Close then open, reporting whether a channel is active. |
| `Transport.Client.BackdoorSend` | open-vm-tools/vmhgfs-fuse/bdhandler.c:159-196 | No dispatch unless connected; an answer completes the request and unlinks it, a refusal leaves both alone. |
| `Transport.Client.Unlink` | open-vm-tools/vmhgfs-fuse/request.c:433-448 | The list walk removes the first occurrence, and nothing if there is none. |
| `AttrCache.AgeExact` | open-vm-tools/vmhgfs-fuse/cache.c:315-339 | The narrowed 32-bit age, exactly, for all representable clock readings in either order. |
| `AttrCache.FreshIffRecent` | open-vm-tools/vmhgfs-fuse/cache.c:315-339 | An entry is fresh iff it was set at most CACHE_TIMEOUT whole seconds ago, for forward steps below 2^31 s and backward steps up to 2133437384 s. |
| `AttrCache.FreshExact` | open-vm-tools/vmhgfs-fuse/cache.c:315-339 | Fresh or not for every pair of representable times: the residues modulo 2^32 that pass. |
| `AttrCache.FreshBeyondStepBack` | open-vm-tools/vmhgfs-fuse/cache.c:321-329 | One second beyond that backward step an entry from the future counts as fresh. |
| `AttrCache.FreshAfterWrap` | open-vm-tools/vmhgfs-fuse/cache.c:321-329 | After 2^31 seconds an old entry counts as fresh again. |
| `AttrCache.ZeroStampExact` | open-vm-tools/vmhgfs-fuse/cache.c:408-419 | An entry stamped 0 is stale exactly when the seconds since 1601, modulo 2^32, lie strictly between CACHE_TIMEOUT and 2^31, for every representable time. |
| `AttrCache.ZeroStampStale` | open-vm-tools/vmhgfs-fuse/cache.c:408-419 | An entry stamped 0 by an invalidation is stale exactly for Unix times in [1240428290, 3387911936), among 32-bit times. |
| `AttrCache.InvalidationIgnored` | open-vm-tools/vmhgfs-fuse/cache.c:408-419 | Where a zero stamp counts as fresh, a hash entry is still a hit after its invalidation. |
| `AttrCache.HashHitIsRecent` | open-vm-tools/vmhgfs-fuse/cache.c:315-419 | Over every history of sets, invalidations and purges of any entries: a hash hit is the value of the latest set for that path, at most CACHE_TIMEOUT seconds old, not invalidated since. The one condition beside a sane clock: for a path without a live set, a zero stamp is stale at the lookup. |
| `AttrCache.ListHitIsRecent` | open-vm-tools/vmhgfs-fuse/cache.c:108-269 | The same for the list cache, with its purge by age, at every time. |
| `AttrCache.HashRefinesReference` | open-vm-tools/vmhgfs-fuse/cache.c:315-462 | Under the same condition the hash cache answers exactly as the reference map of recent sets, except that it answers nothing for a path that a purge has taken since its latest set. |
| `AttrCache.HashWrongIff` | open-vm-tools/vmhgfs-fuse/cache.c:315-462 | A hash hit is wrong exactly if the path was set, then invalidated, then not taken by a purge, and a zero stamp is fresh at the lookup. |
| `AttrCache.ListRefinesReference` | open-vm-tools/vmhgfs-fuse/cache.c:108-269 | The list cache answers exactly as the reference map at every point of every history whose clock is not turned back: its purge is invisible. |
| `AttrCache.PurgeKeepsTheYoung` | open-vm-tools/vmhgfs-fuse/cache.c:245-269 | A purge of the list leaves exactly the paths whose latest set is at most 10 seconds old. |
| `AttrCache.ListCache.Get` | open-vm-tools/vmhgfs-fuse/cache.c:108-137 | The list walk is the fresh lookup of the abstract map. |
| `AttrCache.ListCache.Set` | open-vm-tools/vmhgfs-fuse/cache.c:156-190 | Overwrites in place or prepends; never two entries for a path; the abstract map gets the new stamp. |
| `AttrCache.ListCache.Invalidate` | open-vm-tools/vmhgfs-fuse/cache.c:209-225 | Removes the path and nothing else. |
| `AttrCache.ListCache.Purge` | open-vm-tools/vmhgfs-fuse/cache.c:245-269 | Removes exactly the entries older than CACHE_PURGE_TIME. |
| `AttrCache.HashCache.Get` | open-vm-tools/vmhgfs-fuse/cache.c:315-339 | The table lookup is the fresh lookup. |
| `AttrCache.HashCache.Set` | open-vm-tools/vmhgfs-fuse/cache.c:358-389 | Stores the value with the current stamp. |
| `AttrCache.HashCache.Invalidate` | open-vm-tools/vmhgfs-fuse/cache.c:408-419 | Keeps the entry, stamped 0. |
| `AttrCache.HashCache.Purge` | open-vm-tools/vmhgfs-fuse/cache.c:439-462 | Below the threshold nothing; at or above it exactly HASH_PURGE_SIZE - 1 entries stay, all unchanged. |
| `Coherence.CacheIsCoherent` | open-vm-tools/vmhgfs-fuse/main.c:122-1155 | After every run of succeeding getattr, access, create, mkdir, symlink, chmod, chown, truncate, utimens, write, unlink, rmdir and harmless rename calls with clock ticks and purges anywhere, a hit equals what the server holds for the prefixed path; for both cache kinds and every base path. The list needs no condition on the clock, the hash table only that a zero stamp is stale at the lookup. |
| `Coherence.CacheIsInvisible` | open-vm-tools/vmhgfs-fuse/main.c:122-1155 | After every such run from an empty cache a getattr reports, for every path, what the calls alone say: the attributes the last call for it gave, across renames of its parents. The hash table asks that a zero stamp be stale at each utimens and at the end. |
| `Coherence.ServerIsPlain` | open-vm-tools/vmhgfs-fuse/main.c:122-1155 | And so does the server. |
| `Coherence.StepKeepsCoherent` | open-vm-tools/vmhgfs-fuse/main.c:122-1155 | Each succeeding call keeps the cache coherent with the server, a rename if no live copy lies below its source. |
| `Coherence.RenameCoherence` | open-vm-tools/vmhgfs-fuse/main.c:605-634 | A rename, which moves whole directories on the server, keeps the cache coherent iff no live copy of anything below its source is cached: only the two ends are invalidated. |
| `Coherence.RenameMissesChild` | open-vm-tools/vmhgfs-fuse/main.c:605-634 | Where it fails: after a getattr of anything inside a directory and a rename of the directory, the cache still answers for a path the server no longer has. |
| `Coherence.RenamedParent` | open-vm-tools/vmhgfs-fuse/main.c:605-634 | One such input: /d/f is looked up, then /d is renamed to /e. |
| `Coherence.MovedSpec` | open-vm-tools/vmhgfs-fuse/main.c:605-634 | What the server does: paths outside both trees stay, the source tree is emptied, and everything that was inside it, and nothing else, is inside the target with its attributes. |
| `Coherence.FileRenameHarmless` | open-vm-tools/vmhgfs-fuse/main.c:605-634 | Renaming anything but a directory is always harmless. |
| `Coherence.LookupExactly` | open-vm-tools/vmhgfs-fuse/main.c:122-1155 | What a lookup sees after any run, failing calls and directory renames included: the value the server held when the key was last stored, if that is at most CACHE_TIMEOUT seconds ago and nothing dropped it since, and nothing otherwise. Asked is, of a stored key, a sane clock (less than 2^31 s forward, at most 2133437384 s back since the store) and, of any other key in the hash table, that a zero stamp is stale at the lookup. |
| `Coherence.BoundedStaleness` | open-vm-tools/vmhgfs-fuse/main.c:122-1155 | If the clock is not turned back, the run spans less than 2^31 s and, in the hash table, a zero stamp is stale at the lookup: every hit after any run is a value the server held for that path at most CACHE_TIMEOUT seconds ago. |
| `Coherence.FailureWindow` | open-vm-tools/vmhgfs-fuse/main.c:1117-1155 | After a call that changed the server and then failed (partial write, set without read-back, refused delete), a getattr at any later time reports what the server held when the path was last stored iff that is at most CACHE_TIMEOUT seconds ago, and the new attributes otherwise. |
| `Coherence.CacheEntry` | open-vm-tools/vmhgfs-fuse/main.c:122-1155 | The entry of a key after any run: attributes and stamp of the last store since which nothing dropped it, or nothing live. |
| `Coherence.FailedWriteIsMissed` | open-vm-tools/vmhgfs-fuse/main.c:1141-1149 | A getattr before and one after a partly failed write both report the old attributes: the invalidation is skipped. |
| `Coherence.AccessFetchExact` | open-vm-tools/vmhgfs-fuse/main.c:233-259 | access judges by the right file when the base is empty or nothing fresh is cached under the bare path, and otherwise by the attributes of the bare path; it goes wrong exactly if something fresh is cached there and the two files differ. |
| `Coherence.AccessUsesOtherFile` | open-vm-tools/vmhgfs-fuse/main.c:233-259 | Below a non-empty base, right after a getattr of p, access of base + p is judged by the attributes of p, a different file. |
| `Coherence.Fuse.Getattr` | open-vm-tools/vmhgfs-fuse/main.c:122-148 | With a coherent cache: returns the current server attributes whenever it returns any, and fills the cache with them. |
| `Coherence.Fuse.AccessAttr` | open-vm-tools/vmhgfs-fuse/main.c:233-259 | The attributes access judges by and the cache it leaves: one call of the runs, which keeps the cache coherent. |
| `Coherence.Fuse.SetattrAndRefresh` | open-vm-tools/vmhgfs-fuse/main.c:698-868 | chmod, chown and truncate: set, read back, cache; which requests failed decides server and cache. |
| `Coherence.Fuse.SetTimes` | open-vm-tools/vmhgfs-fuse/main.c:888-971 | utimens in full, whichever of its requests fail: result and state are those of the lookup alone, of lookup and set, or of lookup, set and read-back; symbolic links are left alone; with a coherent cache success keeps it so. |
| `Coherence.Fuse.WriteFile` | open-vm-tools/vmhgfs-fuse/main.c:1117-1155 | A write invalidates the cached attributes iff its result is not negative. |
| `Coherence.Fuse.Remove` | open-vm-tools/vmhgfs-fuse/main.c:486-547 | unlink and rmdir: success removes the file and invalidates its path; a refusal, which may have changed the permissions, invalidates nothing. |
| `Coherence.Fuse.Make` | open-vm-tools/vmhgfs-fuse/main.c:448-467 | create, mkdir and symlink change the server and leave the cache alone. |
| `Coherence.Fuse.Move` | open-vm-tools/vmhgfs-fuse/main.c:605-634 | Success moves the subtree on the server and invalidates both ends; a refusal, which may have changed the target, invalidates neither. |
| `CacheRace.StaleIffOvertaken` | open-vm-tools/vmhgfs-fuse/main.c:139-147 | Getattr against write from different threads, in every interleaving: once all writers have invalidated, the cached copy is stale iff the run holds, in this order, the fetch of a getattr, a write, the invalidation of that write, and the store of that getattr, with nothing touching the cache after it. |
| `CacheRace.EveryRunKeepsInv` | open-vm-tools/vmhgfs-fuse/main.c:1141-1149 | The server counts the writes of the run; every writer invalidates after its write; nothing fetched or cached is newer than the server. |
| `CacheRace.RaceLeavesStale` | open-vm-tools/vmhgfs-fuse/main.c:1141-1149 | Such an interleaving exists: fetch, write, invalidate, store. |
| `Escape.RoundTrip` | open-vm-tools/lib/hgfs/hgfsEscape.c:873-953 | Undoing the escape gives every name back, for every valid pair of tables. |
| `Escape.EscapeInjective` | open-vm-tools/lib/hgfs/hgfsEscape.c:937-953 | Different names stay different once escaped. |
| `Escape.NameRoundTrip` | open-vm-tools/lib/hgfs/hgfsEscape.c:698-851 | Restoring reverses escaping on every name of any number of components. |
| `Escape.UndoWholeName` | open-vm-tools/lib/hgfs/hgfsEscape.c:828-851 | In place, component after component: the buffer holds the restored name; the size returned leaves out the final NUL and an empty last component, which the loop does not visit. |
| `Escape.EscapedIsLegal` | open-vm-tools/lib/hgfs/hgfsEscape.c:169-250 | The escaped form holds no illegal character and is at most twice as long. |
| `Escape.EscapeUnchangedIff` | open-vm-tools/lib/hgfs/hgfsEscape.c:169-250 | A name is left alone exactly if it holds no illegal character and nothing that reads as an escape sequence. |
| `Escape.UndoUnchangedIff` | open-vm-tools/lib/hgfs/hgfsEscape.c:873-911 | Restoring leaves a name alone exactly if nothing in it reads as an escape sequence. |
| `Escape.TablesAreValid` | open-vm-tools/lib/hgfs/hgfsEscape.c:111-118 | The Linux and macOS tables are valid. |
| `Escape.GetComponentSize` | open-vm-tools/lib/hgfs/hgfsEscape.c:974-981 | Counts the added characters exactly; none iff the name is unchanged. |
| `Escape.AddEscape` | open-vm-tools/lib/hgfs/hgfsEscape.c:169-250 | One escaped place: the output is the escaped prefix, or it does not fit. |
| `Escape.DoComponent` | open-vm-tools/lib/hgfs/hgfsEscape.c:937-953 | Writes the escaped name and a NUL; fails exactly when they do not fit. |
| `Escape.UndoComponent` | open-vm-tools/lib/hgfs/hgfsEscape.c:873-911 | In place: the component becomes its unescaped form and the components behind it move along unchanged. |
| `Escape.IsSequenceAt` | open-vm-tools/lib/hgfs/hgfsEscape.c:570-598 | The three-character test of the loop is the test on the text produced so far. |
| `ReadDir.Readdir` | open-vm-tools/vmhgfs-fuse/dir.c:555-604 | For every directory, batch size and point of version fallback, the filler gets a prefix of the legal entries in server order, each once, escaped; a finished listing is complete; if all names fit, it fails only because the host refused, or rejected version 1. |
| `ReadDir.ReadFromReply` | open-vm-tools/vmhgfs-fuse/dir.c:242-435 | One reply: position, entries handed over and the outcome, including an over-long name, the end marker, an escape failure and a full filler. |
| `ReadDir.Search.RequestEntries` | open-vm-tools/vmhgfs-fuse/dir.c:456-516 | A rejected request is sent again one version lower, and nothing else is; the switch stays where the last request went out; rejection is final only in version 1; success iff the host answered, with a reply for the offset asked for. |
| `ReadDir.HandEntry` | open-vm-tools/vmhgfs-fuse/dir.c:318-419 | One entry: which of the five outcomes. |
| `ReadDir.HandNext` | open-vm-tools/vmhgfs-fuse/dir.c:318-430 | One round of the reply loop: either the listing goes on with one more entry accounted for, or the reply is left with the reason stated. |
| `ReadDir.StayOn` | open-vm-tools/vmhgfs-fuse/dir.c:361-369 | After an escape failure the entry pointer does not move: the rest of the reply only counts on. |
| `ReadDir.CompleteSpec` | open-vm-tools/vmhgfs-fuse/dir.c:555-604 | The entry-by-entry account of a listing is the reference listing, and exists iff every legal name fits once escaped. |
| `ReadDir.ListingSpec` | open-vm-tools/vmhgfs-fuse/dir.c:316-395 | Every name of at most 255 bytes has its place in the listing, in server order, with its attributes, and unescaping what is shown there gives it back; nothing else is listed. |
| `FileIO.Handle.Read` | open-vm-tools/vmhgfs-fuse/file.c:667-705 | Whatever short reads the host serves: the bytes returned are the file at that offset, the rest is zeroed; a failed request is reported as the bytes before it, never as an error; falling short means end of file or an empty answer. |
| `FileIO.Handle.DoRead` | open-vm-tools/vmhgfs-fuse/file.c:534-647 | One request, sent again in version 1 exactly if version 3 was rejected: at most what was asked, the right bytes, the rest of the buffer untouched; each failure with its error; a reply longer than asked is an error. |
| `FileIO.Handle.ReadChunk` | open-vm-tools/vmhgfs-fuse/file.c:684-698 | One round extends the bytes read so far and asks for at most HGFS_LARGE_IO_MAX. |
| `FileIO.Handle.Write` | open-vm-tools/vmhgfs-fuse/file.c:852-894 | Whatever sizes the host reports, byte for byte: the file is the old one with the pieces that went out written into it, each piece beginning where the host claimed the one before ended; a non-negative result is the end of the last piece; without a claim beyond what was sent there are no gaps; an error hides that pieces may have been written. |
| `FileIO.Handle.DoWrite` | open-vm-tools/vmhgfs-fuse/file.c:728-832 | One request, sent again in version 1 exactly if version 3 was rejected: exactly the bytes the host takes are written; the reported size is passed on, narrowed to a signed int, so a claim of 2^31 or more is an error; each failure with its error. |
| `FileIO.Handle.WriteChunk` | open-vm-tools/vmhgfs-fuse/file.c:870-887 | One round adds a piece that begins at the end of the one before. |
| `FileIO.Handle.SendChunk` | open-vm-tools/vmhgfs-fuse/file.c:870-885 | At most HGFS_LARGE_IO_MAX bytes of the data go out at the position reached. |
| `FileIO.NoGapsIsOneWrite` | open-vm-tools/vmhgfs-fuse/file.c:852-894 | Without gaps the pieces are one write of the data up to their end. |
| `FileIO.PatchedThen` | open-vm-tools/vmhgfs-fuse/file.c:870-887 | A further piece written at the end of the last one patches the file with both. |
| `FileIO.ClaimLosesByte` | open-vm-tools/vmhgfs-fuse/file.c:877-889 | A claim of one byte more than was sent: the write counts as complete and the last byte never went out. |
| `FileIO.WriteThenRead` | open-vm-tools/vmhgfs-fuse/file.c:852-894 | A full write without a claim beyond what was sent, followed by a read, gives the data back, short only if a read request failed or was served nothing. |
| `FileIO.WriteAtJoin` | open-vm-tools/vmhgfs-fuse/file.c:870-887 | Writing adjacent chunks is writing them at once. |
| `FileIO.WriteAtSpec` | open-vm-tools/vmhgfs-fuse/file.c:852-894 | A write changes exactly its range; new bytes outside it are zero. |
| `FileIO.ReadAfterWrite` | open-vm-tools/vmhgfs-fuse/file.c:667-705 | What was written is read back. |
| `Session.EnabledCarriesLatestId` | open-vm-tools/vmhgfs-fuse/session.c:91-417 | In every run of create, destroy and ordinary requests against every reply stream, between operations an enabled session carries the id of the latest reply that established one. |
| `Session.CreateSpec` | open-vm-tools/vmhgfs-fuse/session.c:176-237 | Creation in full: the mutual recursion uses one reply more than the host repeats "stale"; the session ends enabled iff the very first reply establishes it, with its id and version. |
| `Session.BadReplyDisables` | open-vm-tools/vmhgfs-fuse/session.c:91-157 | For every reply that is not a well-formed grant, before every reply stream: the session ends enabled iff the reply slips through the checks (payload cut short, or starting inside the header), and the client goes down iff the deciding reply is a success without payload. |
| `Session.GrantEnables` | open-vm-tools/vmhgfs-fuse/session.c:91-157 | A well-formed grant enables the session under the id it carries and uses one reply. |
| `Session.CutPayloadEnables` | open-vm-tools/vmhgfs-fuse/session.c:134-148 | A payload of one byte enables the session. |
| `Session.OverlappingPayloadEnables` | open-vm-tools/vmhgfs-fuse/request.c:169-188 | So does a payload that overlaps the header. |
| `Session.StaleRequest` | open-vm-tools/vmhgfs-fuse/request.c:368-413 | A stale answer to a request: the request fails with EIO, and the session is usable afterwards iff the next reply establishes it. |
| `Session.RequestSpec` | open-vm-tools/vmhgfs-fuse/request.c:368-413 | Any request against any stream: its result is that of the first reply, read as old-style or new-style; the session stays as it was unless an old-style reply ends it or a stale answer brings another. |
| `Session.CreateAndDestroyResults` | open-vm-tools/vmhgfs-fuse/session.c:176-417 | The results of creating and destroying a session, by the first reply. |
| `Session.DestroyOfStaleRecreates` | open-vm-tools/vmhgfs-fuse/session.c:361-417 | A destroy answered "stale" creates a new session, which stays enabled. |
| `Session.DestroyLeavesEnabledIff` | open-vm-tools/vmhgfs-fuse/session.c:361-417 | After a destroy the session is still enabled exactly if the request got no usable answer, an error status, or "stale" followed by a reply that establishes a session; for every stream of replies that does not bring the client down. |
| `Session.DestroyCrashesIff` | open-vm-tools/vmhgfs-fuse/session.c:361-417 | And it brings the client down exactly if the answer is "stale" and the reply that decides the creation is a success without payload. |
| `Session.DestroyNotSentKeeps` | open-vm-tools/vmhgfs-fuse/session.c:361-417 | A destroy that could not be sent leaves the session as it was. |
| `Session.ToLinux` | open-vm-tools/vmhgfs-fuse/fsutil.c:607-656 | Each Linux error for exactly its status codes, EIO for 10 and every code above 14. |
| `Session.Client.CreateProcessResult` | open-vm-tools/vmhgfs-fuse/session.c:91-157 | Header, flag and status checks decide id, version and whether the session is enabled. |
| `Session.Client.GetReplyStatus` | open-vm-tools/vmhgfs-fuse/request.c:368-413 | The status, after re-creating a stale session; a short reply turns the session off. |
| `Session.Client.CreateSession` | open-vm-tools/vmhgfs-fuse/session.c:176-237 | The imperative creation is the function the theorems are about; it terminates on the reply stream. |
| `Session.Client.DestroySession` | open-vm-tools/vmhgfs-fuse/session.c:361-417 | The imperative destruction is the function the theorems are about. |
| `Versions.Switches.Call` | open-vm-tools/vmhgfs-fuse/file.c:400-457 | One call alone, of a kind that gives up on a denial: one request more than rejections, each rejection moves its switch one version down, no other switch moves, rejection is final only in version 1, and success means that the first answer that is no rejection is fine. |
| `Versions.Switches.CallProtected` | open-vm-tools/vmhgfs-fuse/dir.c:852-965 | A delete or rename alone: the answers decide the number of requests, the first denial being retried if the read-only bit can be cleared and the first rejection if it was in version 3; only its own switch and those of getattr and setattr move, and only down. |
| `Versions.SendsAtMostThree` | open-vm-tools/vmhgfs-fuse/dir.c:852-965 | Such a call sends at most three requests, two if it starts in version 1 or the bit cannot be cleared. |
| `Versions.SendsOneNumber` | open-vm-tools/vmhgfs-fuse/dir.c:852-965 | The answers decide how many requests there are. |
| `Versions.DeniedThenFine` | open-vm-tools/vmhgfs-fuse/dir.c:908-931 | A denial that clearing the bit cures takes two requests. |
| `Versions.Switches.ClearReadOnly` | open-vm-tools/vmhgfs-fuse/fsutil.c:707-745 | Clearing the read-only bit succeeds iff the attributes are at hand and setting them succeeds; it moves no switch but those of getattr and setattr, and only down. |
| `Versions.Switches.constructor` | open-vm-tools/vmhgfs-fuse/filesystem.c:82-102 | Every switch starts at version 3. |
| `Versions.EveryRunKeepsInv` | open-vm-tools/vmhgfs-fuse/fsutil.c:453-519 | In every interleaving of calls that read and write a switch without a lock: what each call has sent and whether it has cleared a read-only bit, against the switch and the calls that reacted to a rejection. |
| `Versions.RequestsBounded` | open-vm-tools/vmhgfs-fuse/fsutil.c:453-519 | In every interleaving of n calls no call sends more than n + 2 requests of a three-version kind, three for delete and rename, two for the other kinds. |
| `Versions.FlightBoundsRequests` | open-vm-tools/vmhgfs-fuse/fsutil.c:453-519 | However many calls ran before or after: a call of a three-version kind sends at most two requests more than there were calls in flight in version 3 when the switch left version 3. |
| `Versions.FlightBoundReached` | open-vm-tools/vmhgfs-fuse/file.c:400-457 | For every n > 0 there is an interleaving with n such calls in which one call sends n + 2 requests. |
| `Versions.StepSpends` | open-vm-tools/vmhgfs-fuse/fsutil.c:453-519 | Every further version 2 request that becomes possible uses up a call in flight. |
| `Versions.ThreeRequestsReached` | open-vm-tools/vmhgfs-fuse/dir.c:899-950 | A delete or rename sends three requests: version 3 rejected, version 1 denied, version 1 again. |
| `Versions.VersionThreeTwice` | open-vm-tools/vmhgfs-fuse/dir.c:908-931 | Denied first, it sends version 3 twice. |
| `Versions.NeverBackToThree` | open-vm-tools/vmhgfs-fuse/fsutil.c:453-519 | Once a rejection of version 3 is recorded, no later step returns the switch to 3. |
| `Versions.LateReactionRaisesSwitch` | open-vm-tools/vmhgfs-fuse/file.c:400-457 | The switch is not monotone under interleaving: a late reaction moves it from 1 up to 2, and a call sends version 2 twice. |
| `Versions.RisesIffLate` | open-vm-tools/vmhgfs-fuse/file.c:400-457 | In every run a step raises the switch exactly if a call of a three-version kind reacts to a rejection of version 3 when the switch is at 1. |
| `Versions.OnlyMovesDown` | open-vm-tools/vmhgfs-fuse/fsutil.c:453-519 | Over any stretch of any run without such a step the switch only moves down. |
| `ReadOnly.RestoreUndoesClear` | open-vm-tools/vmhgfs-fuse/fsutil.c:707-784 | With version 3 and the current attributes seen, clear then restore leaves the original permissions with the owner write bit off: the identity iff the entry was read-only. |
| `ReadOnly.RestoreLeavesWhatWasSeen` | open-vm-tools/vmhgfs-fuse/fsutil.c:715-740 | With any attributes seen, an old cached copy included: fields both seen and kept end up as seen, the owner without write, all others as they were. |
| `ReadOnly.RestoreIsIdentityIff` | open-vm-tools/vmhgfs-fuse/fsutil.c:707-784 | The entry comes back exactly when the fields seen and kept were the current ones, the owner write bit off. |
| `ReadOnly.RestoreByVersion` | open-vm-tools/vmhgfs-fuse/file.c:1103-1302 | Through every pair of setattr versions and for any attributes seen: where each field ends up. Version 2 sends an empty mask, version 1 the effective permissions. |
| `ReadOnly.RemoveProtected` | open-vm-tools/vmhgfs-fuse/dir.c:852-965 | The delete and rename retry machine against every answer stream: the answers decide the number of requests (the first denial is retried if the bit can be cleared, the first rejection if in version 3), the result, whether the entry is gone, and its permissions, from the attributes seen, cached or fetched. |
| `ReadOnly.DeniedOnce` | open-vm-tools/vmhgfs-fuse/dir.c:908-931 | Denied once, then fine: two requests, and the entry is gone. |
| `ReadOnly.DeniedTwice` | open-vm-tools/vmhgfs-fuse/dir.c:926-935 | Denied twice: a read-only entry is left as it was. |
| `ReadOnly.FetchedFields` | open-vm-tools/vmhgfs-fuse/fsutil.c:147-159 | Group and other bits that the host does not keep are seen as those of the owner, all else as it is. |
| `LogCache.CacheIsLastOfStream` | open-vm-tools/libvmtools/vmtoolsLog.c:436-521 | After every history of messages, suspends and resumes, the cache is the last min(n, cap) of the n file-bound messages accepted since a suspend with no resume behind it, and the drop count is the rest, modulo 2^32. |
| `LogCache.SuspendedExactly` | open-vm-tools/libvmtools/vmtoolsLog.c:1310-1330 | Log IO is suspended exactly after a suspend with no resume behind it. |
| `LogCache.HeldBack` | open-vm-tools/libvmtools/vmtoolsLog.c:458-510 | From a suspend to the next resume no file handler is handed anything. |
| `LogCache.UnsuspendedDelivers` | open-vm-tools/libvmtools/vmtoolsLog.c:511-514 | Unless log IO is suspended, a message goes out at once, whatever its handler. |
| `LogCache.PassesThrough` | open-vm-tools/libvmtools/vmtoolsLog.c:458-514 | A handler that writes no file has been handed everything accepted for it, in order, suspended or not. |
| `LogCache.Conservation` | open-vm-tools/libvmtools/vmtoolsLog.c:436-521 | Accepted = delivered + cached + dropped, as multisets, at every point. |
| `LogCache.HandlerSeesSubsequence` | open-vm-tools/libvmtools/vmtoolsLog.c:398-423 | Each handler receives a subsequence of the messages accepted for it, in order, at every point. |
| `LogCache.OrderInvariant` | open-vm-tools/libvmtools/vmtoolsLog.c:436-521 | What a handler has received, followed by what is cached for it, is in order; only file handlers are cached. |
| `LogCache.ResumeFlushes` | open-vm-tools/libvmtools/vmtoolsLog.c:1321-1349 | Resume hands over exactly the last cap messages held back, then its own notes, the one about dropped messages only if some were dropped; the cache is empty and the count 0. |
| `LogCache.Logger.Log` | open-vm-tools/libvmtools/vmtoolsLog.c:436-521 | One accepted message: delivered, cached, or cached in place of the oldest. |
| `LogCache.Logger.SuspendIO` | open-vm-tools/libvmtools/vmtoolsLog.c:1310-1314 | The flag is set and nothing else changes. |
| `LogCache.Logger.ResumeIO` | open-vm-tools/libvmtools/vmtoolsLog.c:1321-1349 | The flush loop, then the notes the function logs itself. |
| `GuestLib.NegotiationBounded` | open-vm-tools/libguestlib/vmGuestLib.c:348-434 | Against every host: one to three requests, at most two without a session; only versions 2 and 3 are asked for; the outcome is the reply to the last request. |
| `GuestLib.SettlesOnHighest` | open-vm-tools/libguestlib/vmGuestLib.c:348-434 | Against a steady host: exactly when the outcome is version 3, and exactly when it is version 2; a handle that settled on 2 stays there unless its session changes. |
| `GuestLib.GettersReadLastReply` | open-vm-tools/libguestlib/vmGuestLib.c:437-571 | After an update that leaves a session, a getter hands out x iff the last reply holds a valid statistic of value x under that id, says not available iff it holds one that is not valid, and unsupported iff the id is above 17 (version 2) or above the announced count or 37 (version 3); if that count does not decode, it reads the buffer as earlier updates left it. |
| `GuestLib.EveryRunIsSound` | open-vm-tools/libguestlib/vmGuestLib.c:590-612 | In every run of updates against every host, a getter has no information or says what the last reply says under that id, unless the count of that reply does not decode. |
| `GuestLib.SuccessWithoutInfo` | open-vm-tools/libguestlib/vmGuestLib.c:546-557 | An update reports success and leaves no session exactly when the host sent session 0 or the statistics broke off or came out of order. |
| `GuestLib.UpdateOutcome` | open-vm-tools/libguestlib/vmGuestLib.c:428-571 | How an update ends: not enabled iff the host refused; success iff the answer has the version asked for and its size; a failure leaves no session; success leaves the session of the reply unless the statistics broke off or came out of order. |
| `GuestLib.UpdateKeepsInv` | open-vm-tools/libguestlib/vmGuestLib.c:479-566 | The handle version stays in {0, 2, 3}; a decoded array holds at most 37 entries, entry i with id i + 1. |
| `GuestLib.StaleAfterBadCount` | open-vm-tools/libguestlib/vmGuestLib.c:508-511 | A reply with a bad count leaves the previous value readable, and the update reports success. |
| `GuestLib.GuestLibHandle.NegotiateVersion` | open-vm-tools/libguestlib/vmGuestLib.c:348-434 | The request loop; terminates on (session set, version), and the branch that parses a version is unreachable. |
| `GuestLib.GuestLibHandle.Unmarshal` | open-vm-tools/libguestlib/vmGuestLib.c:529-557 | The decoding loop succeeds iff the announced statistics decode with ids 1, 2, 3, ... |
| `GuestLib.GuestLibHandle.UpdateInfo` | open-vm-tools/libguestlib/vmGuestLib.c:590-612 | The whole new handle and the error. |
| `CertStore.EveryRunIsDense` | open-vm-tools/guestproxycerttool/cert_tool.c:229-487 | In every run of adds and removes, whatever fails, the files under every hash are numbered 0 to n - 1. |
| `CertStore.EveryRunIsTheSet` | open-vm-tools/guestproxycerttool/cert_tool.c:229-487 | If the additions are harmless, the files under a hash are the set that the successful commands make, each certificate once. |
| `CertStore.AddIsSetAddExactly` | open-vm-tools/guestproxycerttool/cert_tool.c:229-274 | Adding acts on the set exactly under the harmless failures: a lost directory overwrites version 0, an unreadable file lets in a second copy, a short write leaves a truncated file. |
| `CertStore.AddSucceedsIff` | open-vm-tools/guestproxycerttool/cert_tool.c:229-274 | Without failures an addition succeeds iff the certificate is not there, and stores it behind the others. |
| `CertStore.AddCommandSucceedsIff` | open-vm-tools/guestproxycerttool/cert_tool.c:229-274 | So does the command on every dense store under every true listing. |
| `CertStore.LostDirectory` | open-vm-tools/guestproxycerttool/cert_tool.c:229-274 | A directory that cannot be searched: the new certificate replaces version 0, reported as success. |
| `CertStore.UnreadableFile` | open-vm-tools/guestproxycerttool/cert_tool.c:229-274 | An unreadable file: a certificate that is there is stored a second time. |
| `CertStore.ShortWrite` | open-vm-tools/guestproxycerttool/cert_tool.c:229-274 | A short write: the command fails and a truncated certificate stays. |
| `CertStore.RemoveIsSetRemove` | open-vm-tools/guestproxycerttool/cert_tool.c:434-487 | Removing is removal from the set, whatever fails; without failures it succeeds iff the certificate is there. |
| `CertStore.RemoveTakesOne` | open-vm-tools/guestproxycerttool/cert_tool.c:434-487 | A successful removal takes out exactly one copy, so a certificate stored twice stays trusted. |
| `CertStore.FindOnDense` | open-vm-tools/guestproxycerttool/cert_util.c:285-336 | The search ignores the order of the directory listing: first version with equal contents, highest version, or the first unreadable file. |
| `CertStore.AddKeepsDense` | open-vm-tools/guestproxycerttool/cert_tool.c:229-274 | Adding refines the sequence operation and touches no other hash. |
| `CertStore.RemoveKeepsDense` | open-vm-tools/guestproxycerttool/cert_tool.c:434-487 | Removing (the last version moves into the gap) refines the sequence operation and touches no other hash. |
| `CertStore.SortAscending` | open-vm-tools/guestproxycerttool/cert_util.c:183-201 | The sorted listing is ascending with the same members. |
| `CertStore.TrustStore.Find` | open-vm-tools/guestproxycerttool/cert_util.c:285-336 | The comparison loop is the search function. |
| `CertStore.TrustStore.AddTrustCert` | open-vm-tools/guestproxycerttool/cert_tool.c:229-274 | Files and result of the add command. |
| `CertStore.TrustStore.RemoveTrustCert` | open-vm-tools/guestproxycerttool/cert_tool.c:434-487 | Files and result of the remove command. |
| `Unescape.MsgUnescape` | open-vm-tools/libvmtools/i18n.c:437-480 | In place, for every message: the pure left-to-right unescape, terminated, nothing beyond the old terminator changed. |
| `Unescape.UndoPrint` | open-vm-tools/libvmtools/i18n.c:437-480 | Undoes the matching escape printer on every text. |
| `Unescape.PrintInjective` | open-vm-tools/libvmtools/i18n.c:437-480 | Different texts have different escaped forms. |
| `Unescape.UnchangedIffNoEscape` | open-vm-tools/libvmtools/i18n.c:437-480 | The text is unchanged iff it holds no known escape, and shorter otherwise. |
| `Unescape.ReplaceAt` | open-vm-tools/libvmtools/i18n.c:469-473 | A replacement keeps the finished and unfinished parts undoing to the same result. |
| `Unescape.Replace` | open-vm-tools/libvmtools/i18n.c:469-473 | One replacement; the length counter equals the bytes left, and one byte beyond the terminator is read. |
| `PathStrip.StripIsCanonical` | open-vm-tools/vmblock-fuse/fsops.c:513-548 | For every path the result is its root and its components joined by single separators. |
| `PathStrip.StripIsNormal` | open-vm-tools/vmblock-fuse/fsops.c:513-548 | The result has no doubled and no trailing separator (a lone root aside); exactly such paths are left alone. |
| `PathStrip.SameIffSamePath` | open-vm-tools/vmblock-fuse/fsops.c:513-548 | Two paths strip to the same text iff they have the same root status and components; idempotent. |
| `PathStrip.OperandIsStripped` | open-vm-tools/vmblock-fuse/fsops.c:603-615 | Behind a control character the operand is stripped as a path of its own, except that separators only become empty. |
| `PathStrip.SameBlock` | open-vm-tools/vmblock-fuse/fsops.c:603-615 | Two operands name the same block iff they are the same path, or both have no components. |
| `PathStrip.WriteMeans` | open-vm-tools/vmblock-fuse/fsops.c:594-625 | Every write: longer than PATH_MAX is too long; a first character a adds, d removes, the block whose path is the root and the joined components of the operand up to its first NUL; any other is invalid. |
| `PathStrip.EmptyWrite` | open-vm-tools/vmblock-fuse/fsops.c:594-625 | The empty write is invalid. |
| `PathStrip.RemovesWhatWasAdded` | open-vm-tools/vmblock-fuse/fsops.c:608-615 | A write removes the block that another added iff their operands are the same path, or both have no components. |
| `PathStrip.StripExtraPathSeparators` | open-vm-tools/vmblock-fuse/fsops.c:513-548 | In place: the buffer holds the stripped path, terminated, and its length is returned. |
| `PathStrip.BlockWrite` | open-vm-tools/vmblock-fuse/fsops.c:581-626 | The command a write stands for, as WriteMeans describes it. |
| `CommandLine.ArgumentsSpellCommand` | open-vm-tools/libDeployPkg/linuxDeployment.c:1272-1347 | A command whose quotes pair up, without a bare backslash and with a bare blank: whatever the buffer held, every token is terminated inside it, there is one argument more than bare blanks, and together they spell the command. |
| `CommandLine.SpelledIff` | open-vm-tools/libDeployPkg/linuxDeployment.c:1285-1311 | Tokens and blanks spell the command exactly when it has no bare backslash and its quotes pair up, or when everything behind its first bare backslash and companion is quotes and the command has an even rest. |
| `CommandLine.ScanMeaning` | open-vm-tools/libDeployPkg/linuxDeployment.c:1285-1311 | What the scan finds is what the text says, position by position: characters are lost iff a backslash stands outside quotes before the end; without one, tokens end exactly at the blanks outside quotes, and the last quote closes iff the quotes pair up. |
| `CommandLine.TerminatedIff` | open-vm-tools/libDeployPkg/linuxDeployment.c:1278-1315 | The last token is terminated inside the buffer iff a split cleared the buffer and left room behind the token, or a terminator happened to lie there. |
| `CommandLine.QuoteIsNotTerminated` | open-vm-tools/libDeployPkg/linuxDeployment.c:1292-1298 | A single quote fills the buffer and leaves no terminator, whatever the buffer held. |
| `CommandLine.TokensStandAlone` | open-vm-tools/libDeployPkg/linuxDeployment.c:1292-1298 | Without bare backslashes there is one token more than bare blanks, and each token scanned again is one token: a quoted blank never splits. |
| `CommandLine.ArgumentsAreTokens` | open-vm-tools/libDeployPkg/linuxDeployment.c:1278-1315 | With balanced quotes the arguments are the tokens iff there was a split or the uninitialised buffer happened to hold a terminator. |
| `CommandLine.LastLength` | open-vm-tools/libDeployPkg/linuxDeployment.c:1278-1315 | The last token and the blanks never exceed the command by more than the added quote, so the token stays inside the buffer. |
| `CommandLine.BackslashJoinsArguments` | open-vm-tools/libDeployPkg/linuxDeployment.c:1286-1291 | Behind a backslash and its companion even a blank is lost: two arguments come out as one. |
| `CommandLine.TokensAndBlanks` | open-vm-tools/libDeployPkg/linuxDeployment.c:1299-1307 | One token more than splitting blanks, and woven together they are what was written. |
| `CommandSplit.GetFormattedCommandLine` | open-vm-tools/libDeployPkg/linuxDeployment.c:1272-1347 | The loop over the token buffer computes the argument vector, or finds that the last token runs past the buffer; all writes stay inside it. |
| `CommandSplit.CopyUntilQuote` | open-vm-tools/libDeployPkg/linuxDeployment.c:1294-1296 | Copies up to the next quote or the end. |

## Left out

- Packet layouts, name conversion to the cross-platform form, and request ids: byte-level packing that would add only size arithmetic.
- Windows special cases of name escaping, and the treatment of empty components when a whole name is escaped.
- Opens that truncate, and times of parent directories: outside the coherence claim, because the code does not touch the cache for them.
- The lock kept by the hash cache when an allocation fails, and every other allocation failure.
- Changes on the server that do not go through this client: the cache serves its copy for the timeout.
- The linked lists of the transport and of the command splitter are sequences: pointer updates and aliasing are not modelled.
- GLib containers, the merge sort behind the certificate listing, XDR decoding of single statistics, and string statistics of the guest library.
- File names in the certificate directory that do not have the form hash.version, and matches of the unanchored search pattern inside longer names.
- Fatal log messages, log levels, domains and reconfiguration while log IO is suspended.
- The table of file blocks behind the control file, and the development-only listing command.
- Certificate and key generation, package extraction, process spawning, mount helpers and the command-line tools: foreign calls and I/O.
- ReadDir.Readdir: assumes that the server lists fewer than 2^32 entries, no empty name, which the protocol uses as its end marker, and no name with a NUL: the code relies on one path component per entry (dir.c:336-343).
- ReadDir.HandEntry: assumes a name without a NUL, for the same reason.
- FileIO.Handle.Write: stops, with wild set, when the host claims to have taken more than the whole buffer; the code goes on from behind the buffer.
- Coherence.Fuse.WriteFile: does not model a write to a file that another call removed while it was open.
- AttrCache.HashHitIsRecent: asks, of a path whose latest event is an invalidation, that a zero stamp be stale at the lookup, because otherwise the code itself calls it fresh; HashWrongIff says exactly when.
- AttrCache.HashRefinesReference: asks the same, for the same reason.
- Coherence.Fuse.Move: a rename that the server grants has distinct ends, neither inside the other, and an empty target.
- Unescape.MsgUnescape: asks for one byte beyond the terminator if the text holds a known escape, because the move reads it.
- GuestLib.EveryRunIsSound: excludes a last reply whose count does not decode, because there the code reads old data; GettersReadLastReply says what it reads.
- CertStore.EveryRunIsTheSet: excludes the failures under which the code does not act on the set; AddIsSetAddExactly shows that these are all of them.
