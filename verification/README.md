# Verification of the protobuf runtime and message code of ChattingClient

A Dafny model of the parts of this repository that are hard to get right, with
proofs that hold for all inputs, all runs and all interleavings. `dafny verify
dfyconfig.toml` checks it.

**Arena** (`arena.cc`, `arena.h`). `ArenaProtocol` is the allocator as steps of
any number of threads on any number of arenas: cache check, hint load, hint check,
list walk, new block, lock, list publish, hint publish, counting, cache set, bump
read and bump write, mixed with creation, reset and destruction. `CleanupProtocol`
splits the cleanup push into exchange and link. `Arena` is the class itself, with
linked blocks and real thread caches, one call at a time, any calls in a row.
`ArenaLayout` holds the sizes that both share.

**Descriptor pool** (`descriptor.cc`). `PoolTables` is the undo log behind nested
checkpoints, shown to be a stack of nested transactions. `PoolLoading` loads files
from a fallback database, with recursion through imports and re-entry from
cross-linking; a pool over a sound database stays sound through every query.
`SymbolLookup` is scoped name lookup with dependency enforcement,
`PublicDependencies` the closure under public imports, `Oneofs` the linking of
oneofs, `FieldNames` the derived names and the proto3 check. `DottedNames` holds
what is said about qualified names.

**Symbol index** (`descriptor_database.cc`). `SymbolIndex` is the ordered map and
its floor lookup, `DescriptorIndex` the class around it. One promise of the header
is false of the code: the map is said never to hold a key that encloses another.
When every key sorts after a new name, `FindLastLessOrEqual` returns the first key,
which `AddSymbol` then steps past unchecked; `a.b` and then `a` are both accepted,
and `a.z` is then not found. The model follows the code. `AddedKeepsSeparate` and
`RunKeepsSeparate` say exactly when the invariant holds, `GapLosesSymbols` exactly
which lookups the gap loses. The walk of `FindAllExtensionNumbers` starts at number
0, so registered negative numbers are not reported; `NegativeNumberIsSkipped` has one.

**Messages** (`Protocols.pb.cc`, `Protocols.pb.h`, `arenastring.*`). `RoomCodec`
and `LoginCodec` say what the generated code of `Room_List` and `User_Login`
computes, `RoomMessage` and `LoginMessage` are the classes, with has-bits and
strings updated in place, each method tied to those functions. `StringOwnership`
follows the heap strings of any number of messages through one operation,
`StringRuns` through whole programs. `WireFormat`, `UnknownFields` and `CodedStream`
are the parts of the runtime below them: varints and tags as the Protocol Buffers
Encoding specification defines them ("Base 128 Varints", "Signed Integers",
"Length-Delimited Records", "Packed Repeated Fields", "Last One Wins"), unknown
fields with groups, and streams over one flat array. Input that is cut short is
accepted exactly when the cut is between two fields (`CutFields`), but for packed
lists: the list parser accepts a packed field at the end of the input that claims
more bytes than there are; the model follows the code, and `PackedOverrun` says
exactly when. `Basics` holds what several modules share.

## Assumptions

- Sizes, positions and sums in the arena do not wrap; the block header has 32
  bytes, as with pointers of eight bytes; a user's block is aligned. The block
  allocator returns memory that is in use nowhere else.
- A pointer to an arena block remembers the life of the arena in which the block
  was published and dangles after it. The code never compares such pointers.
- Every load, store and exchange is atomic; resets, destructions and cleanups find
  their arena quiescent, as the header of `Arena` demands.
- Database files are finite in number, and a file is returned under the name asked
  for. There is no underlay, unknown dependencies are disallowed, no import is weak.
- Callers add to the tables only names made by `AllocateString` and descriptors
  from the pool's allocations.
- No stale `mutable_` pointer is written through, and no string is handed to
  `set_allocated_` twice.
- Input arrays have fewer than 2^31 - 1 bytes: at exactly that length the stream takes
  its limit for none, and a packed field that reaches the end yields no elements.

## Model

| member | source | states |
|---|---|---|
| ArenaProtocol.RegionsAreApart | ChattingClient/protobuf/src/google/protobuf/arena.cc:173-227 | after every run from the start, over any arenas and threads, the regions handed out in an arena's present life are pairwise disjoint, and each lies in a block of the thread that got it, past the header, below the block's position, at a multiple of 8 |
| ArenaProtocol.CacheIsFindBlock | ChattingClient/protobuf/src/google/protobuf/arena.cc:186-192 | after every run, a thread cache whose id equals an arena's lifecycle id holds a block that is live in that arena, and it is the one FindBlock would return if and only if that thread is not between publishing a block there and caching it |
| ArenaProtocol.NoStepDangles | ChattingClient/protobuf/src/google/protobuf/arena.cc:186-216 | in every run, a pointer that a step is about to follow (cache, hint, list walk, bump) points to a live block of the arena |
| ArenaProtocol.BumpsNeverRace | ChattingClient/protobuf/src/google/protobuf/arena.cc:205-212 | in every run, two threads that are about to read or write a block's position have different blocks, though no lock is held |
| ArenaProtocol.StepKeepsInv | ChattingClient/protobuf/src/google/protobuf/arena.cc:61-312 | every step of every thread, every allocation start, creation, reset and destruction keeps the invariant over all arenas, thread caches and lock holders |
| ArenaProtocol.RunKeepsInv | ChattingClient/protobuf/src/google/protobuf/arena.cc:61-312 | the invariant holds along every run |
| ArenaProtocol.StepKeepsArena | ChattingClient/protobuf/src/google/protobuf/arena.cc:154-227 | one step of one thread keeps the arena's invariant and changes nothing that another thread relies on |
| ArenaProtocol.OthersKeepPc | ChattingClient/protobuf/src/google/protobuf/arena.cc:173-227 | what a thread inside AllocateAligned relies on is untouched by any step of another thread |
| ArenaProtocol.BumpKeeps | ChattingClient/protobuf/src/google/protobuf/arena.cc:205-212 | bumping a position keeps blocks and regions well formed and disjoint, and the sums equal |
| ArenaProtocol.PublishKeeps | ChattingClient/protobuf/src/google/protobuf/arena.cc:154-162 | publishing a block keeps blocks and regions well formed and disjoint, the sums equal, and the growth and use rules |
| ArenaProtocol.PublishEvolves | ChattingClient/protobuf/src/google/protobuf/arena.cc:154-162 | publishing shows other threads only one more block of this thread |
| ArenaProtocol.NewLifeKeepsInv | ChattingClient/protobuf/src/google/protobuf/arena.cc:61-108 | creating or resetting an arena gives it an id no cache holds, except the calling thread's when it gets the user's block |
| ArenaProtocol.DestroyKeepsInv | ChattingClient/protobuf/src/google/protobuf/arena.cc:95-102 | destroying an arena without changing its id leaves no live arena that a cache could wrongly match |
| ArenaProtocol.FindBlockIsNewest | ChattingClient/protobuf/src/google/protobuf/arena.cc:304-312 | the list walk returns the thread's newest block |
| ArenaProtocol.QuiescentSpace | ChattingClient/protobuf/src/google/protobuf/arena.cc:229-242 | when no thread is inside an arena, the space used is the sum of the aligned requests since the last reset, and space_allocated_ is the sum of the block sizes |
| ArenaProtocol.StepConserves | ChattingClient/protobuf/src/google/protobuf/arena.cc:164-227 | every step conserves: what was requested is what was handed out plus what threads are still owed, so nothing is handed out twice or lost |
| ArenaProtocol.WasteIsBounded | ChattingClient/protobuf/src/google/protobuf/arena.cc:122-139 | after every run, a thread with at least two blocks has less than twice its used bytes as the capacity of all its blocks but the newest |
| ArenaProtocol.SpaceBound | ChattingClient/protobuf/src/google/protobuf/arena.cc:214-227 | the same for any block list in which a thread started a block only when its last had no room |
| ArenaProtocol.GrowthOfRun | ChattingClient/protobuf/src/google/protobuf/arena.cc:122-134 | after every run, a thread's newest block is exponentially large in the number of its blocks, or at the size limit |
| ArenaProtocol.SizesOfRun | ChattingClient/protobuf/src/google/protobuf/arena.cc:122-139 | after every run, a block the arena allocated has the start size if it is its thread's first, and otherwise twice the size of the thread's block before it or the limit, whichever is less; it is larger only if it holds a single request that asked for exactly that much |
| ArenaProtocol.UserBlockStays | ChattingClient/protobuf/src/google/protobuf/arena.cc:104-108 | until an arena is destroyed it keeps its options and, through every reset, the block its user supplied |
| ArenaLayout.NewBlockSizeIsCapped | ChattingClient/protobuf/src/google/protobuf/arena.cc:122-134 | the size of a new block: never past the limit or twice the last size unless one request calls for more, and then no more than that |
| ArenaLayout.AlignIsTight | ChattingClient/protobuf/src/google/protobuf/arena.cc:174-175 | rounding a request gives the next multiple of 8 |
| CleanupProtocol.QuiescentListIsWhole | ChattingClient/protobuf/src/google/protobuf/arena.cc:164-171 | after every interleaving of pushes, each an exchange and later a link, once none is in flight the list leads through every node exchanged since the last cleanup, each once, newest first |
| CleanupProtocol.RunPushesAll | ChattingClient/protobuf/src/google/protobuf/arena.cc:164-171 | at quiescence every node ever filled is in that list |
| CleanupProtocol.StepKeepsInv | ChattingClient/protobuf/src/google/protobuf/arena.cc:164-171 | every fill, exchange, link and cleanup keeps the broken-list invariant: a node is linked to its predecessor in exchange order, or one thread is about to link it |
| CleanupProtocol.CleanupList | ChattingClient/protobuf/src/google/protobuf/arena.cc:294-302 | the walk over such a list runs each element's cleanup once, in reverse order of exchange: the ith cleanup is that of the ith last element |
| Arena.Arena.constructor | ChattingClient/protobuf/src/google/protobuf/arena.cc:61-93 | a new arena has the next lifecycle id of the generator it keeps, and an empty list, or the user's block, owned and cached by the calling thread; no other cache that knows only ids given out before can match it |
| Arena.Arena.AllocateAligned | ChattingClient/protobuf/src/google/protobuf/arena.cc:173-203 | returns aligned memory at the old position of one of the thread's blocks, or at the start of a new one when its newest has no room; the new one has the start size, or twice the newest or the limit, whichever is less, or exactly what the request needs; nothing else moves; the lifecycle id stays, the caller's cache and every other thread's stay right, and the space used grows by the aligned request |
| Arena.Arena.SlowAlloc | ChattingClient/protobuf/src/google/protobuf/arena.cc:214-227 | the same, through FindBlock, also setting cache and hint; other threads' caches stay right |
| Arena.Arena.AllocFromBlock | ChattingClient/protobuf/src/google/protobuf/arena.cc:205-212 | advances the position and returns the old one; every cache stays right, and the space used grows by what was taken |
| Arena.Arena.NewBlock | ChattingClient/protobuf/src/google/protobuf/arena.cc:122-147 | a block of the thread that starts past the request, of the start size, of twice the last size capped by the limit, or exactly as large as the request needs |
| Arena.Arena.AddBlock | ChattingClient/protobuf/src/google/protobuf/arena.cc:154-162 | the block heads the list, the hint points to it if it has room, and the sum of sizes is kept |
| Arena.Arena.FindBlock | ChattingClient/protobuf/src/google/protobuf/arena.cc:304-312 | the thread's newest block, or null if and only if it has none |
| Arena.Arena.SpaceUsed | ChattingClient/protobuf/src/google/protobuf/arena.cc:234-242 | the loop returns the space used, the sum over the list of the bytes past the headers |
| Arena.Arena.FreeBlocks | ChattingClient/protobuf/src/google/protobuf/arena.cc:248-292 | returns the sum of the block sizes and frees each block once, newest first, except the oldest when the user supplied it; that one starts over, owned and cached by the caller |
| Arena.Arena.Reset | ChattingClient/protobuf/src/google/protobuf/arena.cc:104-108 | the same under a new lifecycle id, the last that the generator gave out, so that no other cache matches; the space used is 0 and another reset may follow |
| Arena.Run | ChattingClient/protobuf/src/google/protobuf/arena.cc:61-312 | after any calls to allocate and reset by any threads, the arena is valid, every cache that matches it holds its thread's newest block, and the space used is the sum of the aligned requests since the last reset |
| PoolTables.RollbackRestores | ChattingClient/protobuf/src/google/protobuf/descriptor.cc:505-540 | whatever happens inside a transaction (adds, failed adds, nested checkpoints that are cleared or rolled back), rolling it back gives back the three maps, the four vectors and the outer checkpoints exactly |
| PoolTables.OuterCheckpointsStay | ChattingClient/protobuf/src/google/protobuf/descriptor.cc:505-540 | steps that never close one of the first checkpoints leave what they saved unchanged |
| PoolTables.RunKeeps | ChattingClient/protobuf/src/google/protobuf/descriptor.cc:589-594 | no run leaves a map key that points into a freed string, or a value that points to a freed allocation, now or after any rollback |
| PoolTables.AddRefines | ChattingClient/protobuf/src/google/protobuf/descriptor.cc:1023-1088 | an add, failed ones included, and its log entry refine the transaction machine: every saved state is undone to what it was |
| PoolTables.CheckpointRefines | ChattingClient/protobuf/src/google/protobuf/descriptor.cc:811-813 | opening a checkpoint saves the present contents |
| PoolTables.ClearRefines | ChattingClient/protobuf/src/google/protobuf/descriptor.cc:815-825 | closing a checkpoint keeps the contents and all outer saved states |
| PoolTables.CutBackTwice | ChattingClient/protobuf/src/google/protobuf/descriptor.cc:827-872 | undoing the log in two stages is undoing it in one |
| PoolTables.Tables.AddCheckpoint | ChattingClient/protobuf/src/google/protobuf/descriptor.cc:811-813 | refines the machine: saves the contents |
| PoolTables.Tables.ClearLastCheckpoint | ChattingClient/protobuf/src/google/protobuf/descriptor.cc:815-825 | refines the machine; with the last checkpoint the log is committed |
| PoolTables.Tables.RollbackToLastCheckpoint | ChattingClient/protobuf/src/google/protobuf/descriptor.cc:827-872 | refines the machine: contents are those saved last; keys are erased before the strings they are read from are freed |
| PoolTables.Tables.AddSymbol | ChattingClient/protobuf/src/google/protobuf/descriptor.cc:1023-1031 | adds and logs a name with its symbol, or refuses one that is present and changes nothing; all else is as it was |
| PoolTables.Tables.AddFile | ChattingClient/protobuf/src/google/protobuf/descriptor.cc:1039-1046 | the same for files |
| PoolTables.Tables.AddExtension | ChattingClient/protobuf/src/google/protobuf/descriptor.cc:1079-1087 | the same for extensions: the pair of type and number leads to the field given |
| PoolTables.Tables.AllocateString | ChattingClient/protobuf/src/google/protobuf/descriptor.cc:1101-1105 | a new string, last in its vector, everything else unchanged at every checkpoint |
| PoolTables.Tables.AllocateMessage | ChattingClient/protobuf/src/google/protobuf/descriptor.cc:1108-1112 | the same for messages |
| PoolTables.Tables.AllocateFileTables | ChattingClient/protobuf/src/google/protobuf/descriptor.cc:1114-1118 | the same for file tables |
| PoolTables.Tables.AllocateBytes | ChattingClient/protobuf/src/google/protobuf/descriptor.cc:1120-1130 | the same for raw memory; nothing at all for size 0 |
| PoolLoading.ImportsAreClosedAndAcyclic | ChattingClient/protobuf/src/google/protobuf/descriptor.cc:3992-4144 | in a clean pool, whatever a file imports however indirectly is loaded, earlier, and is not the file itself |
| PoolLoading.AllPrefixesArePackages | ChattingClient/protobuf/src/google/protobuf/descriptor.cc:3807-3832 | in a clean pool, every dotted prefix of a package is a package |
| PoolLoading.TabledWithFile | ChattingClient/protobuf/src/google/protobuf/descriptor.cc:3765-3832 | with a file added, still every symbol is declared by the loaded file it is recorded for, and everything a loaded file declares is in the table |
| PoolLoading.PrefixesMeans | ChattingClient/protobuf/src/google/protobuf/descriptor.cc:3807-3832 | a package's prefixes are itself and what comes before one of its dots |
| PoolLoading.ValidPackageMeans | ChattingClient/protobuf/src/google/protobuf/descriptor.cc:3807-3852 | a legal package is identifiers joined by single dots |
| PoolLoading.SoundIsAddable | ChattingClient/protobuf/src/google/protobuf/descriptor.cc:4079-4144 | in a sound database, a file whose imports are loaded clashes with nothing in a pool that holds exactly what its files declare |
| PoolLoading.LookupsAreQuiet | ChattingClient/protobuf/src/google/protobuf/descriptor.cc:3509-3516 | cross-linking a loaded file of a sound database loads nothing: what it asks for is declared by the file or its imports, or the database names no file for it, or one of those; names tried in outer scopes where nothing has them are among these |
| PoolLoading.LocatedIsLoadable | ChattingClient/protobuf/src/google/protobuf/descriptor.cc:1722-1761 | a symbol that the database locates and that is missing is in a file not loaded yet, and none of the checks against false positives keeps that file from being loaded |
| PoolLoading.DescriptorPool.BuildFile | ChattingClient/protobuf/src/google/protobuf/descriptor.cc:3981-4033 | terminates on every import graph, cyclic ones included, with nested loads from cross-linking; success or failure only adds files and symbols, restores checkpoints and pending files, and keeps a clean pool clean; in a sound database, below everything being loaded, it succeeds; without a database a new file is built only if it clashes with nothing, is then built if it has no error of its own, and adds exactly itself and its symbols |
| PoolLoading.DescriptorPool.BuildFileImpl | ChattingClient/protobuf/src/google/protobuf/descriptor.cc:4035-4243 | one transaction: after a success the files are those before, this file and what it brought in, after a failure files and symbols are what they were; a success means that imports were loaded and not repeated, definitions did not clash and the package is legal; a sound file whose imports are loaded is built, with a sound database or with none |
| PoolLoading.DescriptorPool.AddContents | ChattingClient/protobuf/src/google/protobuf/descriptor.cc:4093-4243 | without an error, a pool that was clean before the file is clean with it, whatever cross-linking loaded |
| PoolLoading.DescriptorPool.AddOwn | ChattingClient/protobuf/src/google/protobuf/descriptor.cc:4093-4191 | the same for the file's own package, imports and definitions |
| PoolLoading.DescriptorPool.AddPackage | ChattingClient/protobuf/src/google/protobuf/descriptor.cc:3807-3832 | inserting the child before the parent and stopping at the first package present leaves every package with its parents, unless an error is reported; a valid package that clashes with nothing is added, and success means that the package is legal |
| PoolLoading.DescriptorPool.LinkDependencies | ChattingClient/protobuf/src/google/protobuf/descriptor.cc:4097-4144 | accepts if and only if every import is an earlier file and none is listed twice; stops early if and only if the file imports itself |
| PoolLoading.DescriptorPool.CrossLink | ChattingClient/protobuf/src/google/protobuf/descriptor.cc:3497-3521 | any lookups, each of which may re-enter the loader, terminate, only add, and keep a clean pool clean; quiet lookups load nothing |
| PoolLoading.DescriptorPool.TryFindFileInFallbackDatabase | ChattingClient/protobuf/src/google/protobuf/descriptor.cc:1686-1698 | loads a file by name or marks it bad; only adds, keeps clean |
| PoolLoading.DescriptorPool.TryFindSymbolInFallbackDatabase | ChattingClient/protobuf/src/google/protobuf/descriptor.cc:1722-1761 | loads whatever file the database names for a symbol, false positives included; only adds, keeps clean |
| PoolLoading.DescriptorPool.IsSubSymbolOfBuiltType | ChattingClient/protobuf/src/google/protobuf/descriptor.cc:1700-1720 | true exactly when a dotted prefix of the name is a symbol other than a package |
| PoolLoading.DescriptorPool.BuildFileFromDatabase | ChattingClient/protobuf/src/google/protobuf/descriptor.cc:3387-3400 | skips files known bad, remembers failures; only adds, keeps clean |
| PoolLoading.DescriptorPool.FindFileByName | ChattingClient/protobuf/src/google/protobuf/descriptor.cc:1285-1300 | between public operations the pool is clean and no transaction is open, before and after; a sound pool (a database with its imports present and acyclic, no clashes, no lookup that needs a file not imported) stays sound whatever was asked before, and a file is found exactly when the database has it |
| PoolLoading.DescriptorPool.FindSymbolByName | ChattingClient/protobuf/src/google/protobuf/descriptor.cc:903-924 | the same; a result is the table's entry, recorded for a loaded file that declares the symbol; a sound pool stays sound, and a symbol that its database locates is found |
| PoolLoading.DescriptorPool.BuildFileDirectly | ChattingClient/protobuf/src/google/protobuf/descriptor.cc:3361-3371 | without a database: a new file is built only if every import is there and none repeated, nothing it defines is there or defined twice and its package is legal; it is built if moreover it clashes with no package and has no error of its own; what is added is the file with exactly its packages and definitions, and a failure changes nothing |
| SymbolLookup.DescriptorBuilder.LookupSymbolNoPlaceholder | ChattingClient/protobuf/src/google/protobuf/descriptor.cc:3567-3639 | a name with a leading dot is looked up as it stands; a compound name in the innermost scope with a visible message, package, enum or service called like its first part, and nowhere else; a simple name in the innermost scope that has an answer; without such a scope the name as it stands; the loop terminates because the scope shrinks, and an undefined resolved name is recorded exactly for a compound name that settled in a scope and is missing there |
| SymbolLookup.View.CompoundNames | ChattingClient/protobuf/src/google/protobuf/descriptor.cc:3577-3625 | where a compound name is looked for: the innermost scope with a visible aggregate called like its first part, or none |
| SymbolLookup.View.SimpleNames | ChattingClient/protobuf/src/google/protobuf/descriptor.cc:3626-3632 | where a simple name is looked for: the innermost scope with anything visible of that name, or with a message or enum when types are asked for |
| SymbolLookup.View.OthersArePassedOver | ChattingClient/protobuf/src/google/protobuf/descriptor.cc:3623-3625 | a field, oneof, enum value or method never decides where a compound name is looked for |
| SymbolLookup.View.SeenMeans | ChattingClient/protobuf/src/google/protobuf/descriptor.cc:3527-3565 | what may be seen: the entry of the table when dependencies are not enforced, when it is of the file itself or of an import, and when it is a package that one of these is in |
| SymbolLookup.InPackageMeans | ChattingClient/protobuf/src/google/protobuf/descriptor.cc:3543-3558 | a file is in a package when its own is that package or begins with it and a dot |
| SymbolLookup.View.ResolveIsInnermost | ChattingClient/protobuf/src/google/protobuf/descriptor.cc:3577-3589 | the settled name is in the innermost scope that commits, whatever the scopes outside it hold |
| SymbolLookup.View.ResolveAtRoot | ChattingClient/protobuf/src/google/protobuf/descriptor.cc:3600-3605 | when no scope commits, only the name itself is tried |
| SymbolLookup.View.InnerHidesOuter | ChattingClient/protobuf/src/google/protobuf/descriptor.cc:3577-3589 | an inner aggregate named like the first part hides every outer one, even if the rest exists only outside |
| SymbolLookup.View.TypeModeFindsTypes | ChattingClient/protobuf/src/google/protobuf/descriptor.cc:3627-3632 | in type mode a simple name found in a scope is a type |
| SymbolLookup.DescriptorBuilder.FindSymbol | ChattingClient/protobuf/src/google/protobuf/descriptor.cc:3527-3565 | finds exactly what may be seen; a symbol that is there and refused is recorded with its file and its name, and nothing else changes that record |
| SymbolLookup.DescriptorBuilder.TryScope | ChattingClient/protobuf/src/google/protobuf/descriptor.cc:3607-3638 | one turn of the loop settles exactly when the scope shows a message, package, enum or service called like the first part of a compound name, or anything, or a type when types are asked for, called like a simple name |
| PublicDependencies.DescriptorBuilder.RecordPublicDependencies | ChattingClient/protobuf/src/google/protobuf/descriptor.cc:3490-3495 | terminates on any finite graph, with sharing and cycles; adds only what is needed, and all that the files it adds import publicly |
| PublicDependencies.DescriptorBuilder.BuildDependencySet | ChattingClient/protobuf/src/google/protobuf/descriptor.cc:4165-4169 | from an empty set: the least set that holds the direct imports and is closed under public imports |
| PublicDependencies.LeastIsReachable | ChattingClient/protobuf/src/google/protobuf/descriptor.cc:3490-3495 | that set is the set of files that chains of public imports reach |
| Oneofs.MessageDescriptor.LinkOneofs | ChattingClient/protobuf/src/google/protobuf/descriptor.cc:5016-5075 | each oneof gets an array of exactly its fields in declaration order, each field its index there, no write is out of bounds, and an error is raised exactly when a oneof is empty or not one run |
| Oneofs.MessageDescriptor.CountFields | ChattingClient/protobuf/src/google/protobuf/descriptor.cc:5019-5042 | counts each oneof's fields and complains exactly of fields that break a run |
| Oneofs.MessageDescriptor.AllocateFields | ChattingClient/protobuf/src/google/protobuf/descriptor.cc:5044-5062 | an array of the right length for each oneof; complains exactly of empty oneofs |
| Oneofs.MessageDescriptor.FillFields | ChattingClient/protobuf/src/google/protobuf/descriptor.cc:5064-5075 | every field is written to its place |
| Oneofs.BreaksMeansNotContiguous | ChattingClient/protobuf/src/google/protobuf/descriptor.cc:5023-5037 | the one check per field finds every oneof that is not one run, and no other |
| Oneofs.MembersAre | ChattingClient/protobuf/src/google/protobuf/descriptor.cc:5069-5073 | the fields of a oneof are those that name it, in declaration order |
| Oneofs.PlaceOf | ChattingClient/protobuf/src/google/protobuf/descriptor.cc:5069-5073 | the number of earlier fields of a oneof is a field's index in it, within bounds |
| FieldNames.CheckKeepsNamesApart | ChattingClient/protobuf/src/google/protobuf/descriptor.cc:5454-5471 | fields of a message that passes the check have pairwise different derived JSON and camel-case names |
| FieldNames.DerivedNamesSquashAlike | ChattingClient/protobuf/src/google/protobuf/descriptor.cc:177-218 | lowercasing and dropping underscores is unchanged by both derivations |
| FieldNames.ReportedNothing | ChattingClient/protobuf/src/google/protobuf/descriptor.cc:5454-5471 | the check passes exactly when all squashed names differ |
| FieldNames.ReportedMeans | ChattingClient/protobuf/src/google/protobuf/descriptor.cc:5454-5471 | the reports are exactly the fields that squash like an earlier one, each with the first such field |
| FieldNames.JsonNameMeans | ChattingClient/protobuf/src/google/protobuf/descriptor.cc:201-218 | the JSON name has every character but the underscores, in order; a small letter is raised exactly when it follows an underscore |
| FieldNames.CamelCaseMeans | ChattingClient/protobuf/src/google/protobuf/descriptor.cc:177-199 | the camel-case name: the same, but the first character is lower case when that was asked for and upper case otherwise |
| FieldNames.SquashedAt | ChattingClient/protobuf/src/google/protobuf/descriptor.cc:5412-5424 | the squashed name has every character but the underscores, in order, capitals lowered |
| FieldNames.CheckIsStricter | ChattingClient/protobuf/src/google/protobuf/descriptor.cc:5454-5456 | it rejects a pair whose derived names differ |
| FieldNames.CheckFieldNames | ChattingClient/protobuf/src/google/protobuf/descriptor.cc:5454-5471 | reports each field that squashes like an earlier one, with the first such field |
| FieldNames.ToCamelCase | ChattingClient/protobuf/src/google/protobuf/descriptor.cc:177-199 | the loop computes the recursive definition |
| FieldNames.ToJsonName | ChattingClient/protobuf/src/google/protobuf/descriptor.cc:201-218 | the loop computes the recursive definition |
| FieldNames.ToLowercaseWithoutUnderscores | ChattingClient/protobuf/src/google/protobuf/descriptor.cc:5412-5424 | the loop computes the recursive definition |
| SymbolIndex.FindIsLinearSearch | ChattingClient/protobuf/src/google/protobuf/descriptor_database.cc:181-188 | when no key encloses another, the floor lookup equals trying every entry, for every query, legal characters or not |
| SymbolIndex.HitIsSound | ChattingClient/protobuf/src/google/protobuf/descriptor_database.cc:181-188 | unconditionally, a hit is the value of a key that is the name or a dotted prefix of it |
| SymbolIndex.ExactKeyIsFound | ChattingClient/protobuf/src/google/protobuf/descriptor_database.cc:181-188 | unconditionally, a name that is a key is found |
| SymbolIndex.BetweenIsEnclosed | ChattingClient/protobuf/src/google/protobuf/descriptor_database.h:211-219 | a legal name that sorts between a scope and a name in it is in the scope, because the dot sorts below every other legal character |
| SymbolIndex.EnclosesIsSubSymbol | ChattingClient/protobuf/src/google/protobuf/descriptor_database.cc:228-234 | IsSubSymbol is: equal, or a prefix followed by a dot |
| SymbolIndex.LinearSearchMeaning | ChattingClient/protobuf/src/google/protobuf/descriptor_database.h:185-192 | the reference search misses exactly when no key encloses the name |
| SymbolIndex.DetectsConflicts | ChattingClient/protobuf/src/google/protobuf/descriptor_database.cc:98-127 | the two checks of AddSymbol find only real conflicts, and, when no key encloses another, every conflict except in the gap |
| SymbolIndex.AddedKeepsSeparate | ChattingClient/protobuf/src/google/protobuf/descriptor_database.cc:86-136 | an AddSymbol keeps the invariant if and only if it held and the name is not added in the gap: all keys sort after it, it encloses the first and not the second |
| SymbolIndex.RunKeepsSeparate | ChattingClient/protobuf/src/google/protobuf/descriptor_database.cc:86-136 | over any sequence of calls, the invariant holds at the end if and only if it held at the start and no call met the gap |
| SymbolIndex.RunFindsByLinearSearch | ChattingClient/protobuf/src/google/protobuf/descriptor_database.cc:86-188 | from an empty index, after any calls that did not meet the gap, every lookup is the linear search |
| SymbolIndex.GapLosesSymbols | ChattingClient/protobuf/src/google/protobuf/descriptor_database.cc:98-136 | what the gap costs: of the symbols that only the new name encloses, exactly those sorting before the first old key are found |
| SymbolIndex.GapExample | ChattingClient/protobuf/src/google/protobuf/descriptor_database.cc:98-136 | a concrete run that meets the gap and a symbol it loses |
| SymbolIndex.ValidateSymbolName | ChattingClient/protobuf/src/google/protobuf/descriptor_database.cc:236-249 | the loop accepts exactly the legal names |
| SymbolIndex.LegalMeans | ChattingClient/protobuf/src/google/protobuf/descriptor_database.cc:236-249 | the legal characters are those of identifiers and the dot, which sorts below the others; identifiers are legal |
| SymbolIndex.QualifiedIsLegal | ChattingClient/protobuf/src/google/protobuf/descriptor_database.cc:236-249 | an identifier in a legal scope is legal |
| DescriptorIndex.Index.AddSymbol | ChattingClient/protobuf/src/google/protobuf/descriptor_database.cc:86-136 | the whole new index; refuses only illegal names and real conflicts, accepts a conflict only in the gap |
| DescriptorIndex.Index.AddExtension | ChattingClient/protobuf/src/google/protobuf/descriptor_database.cc:151-173 | registers fully qualified extensions, refuses duplicates, passes over the others |
| DescriptorIndex.RefusedIfClash | ChattingClient/protobuf/src/google/protobuf/descriptor_database.cc:52-173 | registering things in order stops only if one of them is illegal or clashes with what was there before or with one declared earlier in the same file; when no call of AddSymbol meets the gap, it stops if and only if there is such a clash |
| DescriptorIndex.RegisterAllAdds | ChattingClient/protobuf/src/google/protobuf/descriptor_database.cc:52-173 | nothing registered before is lost, and whatever is new was declared and maps to the file, after a failure too |
| DescriptorIndex.RegisterAllFinds | ChattingClient/protobuf/src/google/protobuf/descriptor_database.cc:52-173 | after a success every declared symbol and every fully qualified extension is registered |
| DescriptorIndex.ItemsHold | ChattingClient/protobuf/src/google/protobuf/descriptor_database.cc:66-83 | what AddFile registers, in its order, is exactly what the file declares, extensions nested in messages at any depth included |
| DescriptorIndex.DeclaredNames | ChattingClient/protobuf/src/google/protobuf/descriptor_database.cc:66-83 | what is declared is called by its name, after the file's package and a dot if it has one |
| DescriptorIndex.DeclaredInPackage | ChattingClient/protobuf/src/google/protobuf/descriptor_database.cc:66-68 | with a package, every declared name lies inside it and is not the package itself |
| DescriptorIndex.NestedIsFound | ChattingClient/protobuf/src/google/protobuf/descriptor_database.cc:181-188 | whatever is nested in an entry's name is found there, when no key encloses another |
| DescriptorIndex.Index.AddFile | ChattingClient/protobuf/src/google/protobuf/descriptor_database.cc:52-83 | registers what the file declares, in order, up to the first refusal; after success each top-level message, enum, extension and service is found under its name in the file's package, names nested in them too when no key encloses another, and every fully qualified extension, nested at any depth, is registered; new keys are such names and map to the file; a failure means the file was there, or something it declares is illegal or clashes with the index before the call or with something else it declares, and, when no call meets the gap, every such clash is a failure; earlier entries stay in any case |
| DescriptorIndex.Index.AddNestedExtensions | ChattingClient/protobuf/src/google/protobuf/descriptor_database.cc:138-149 | after success the fully qualified extensions declared in a message at any depth are registered; fails if and only if one of them was registered before the call or two of them are the same; earlier entries stay in any case |
| DescriptorIndex.Index.FindAllExtensionNumbers | ChattingClient/protobuf/src/google/protobuf/descriptor_database.cc:198-213 | appends, in ascending order, exactly the registered numbers of the type that are not negative |
| DescriptorIndex.NegativeNumberIsSkipped | ChattingClient/protobuf/src/google/protobuf/descriptor_database.cc:198-213 | a registered negative number of the type at which the walk never arrives |
| DescriptorIndex.Index.Find | ChattingClient/protobuf/src/google/protobuf/descriptor_database.cc:181-188 | the floor lookup, equal to the linear search under the invariant |
| RoomCodec.ParseIsMerge | ChattingClient/ChattingClient/Protocols.pb.cc:3956-4045 | parsing the bytes of b into any message, whatever bytes follow, is merging b into it and parsing on, for all values, lists and unknown fields that came from parsing |
| RoomCodec.ParseEncodedIsMerge | ChattingClient/ChattingClient/Protocols.pb.cc:3956-4045 | parsing exactly the bytes of b into any message gives the same state as merging b |
| RoomCodec.RoundTrip | ChattingClient/ChattingClient/Protocols.pb.cc:4047-4080 | parsing what was serialized into an empty message gives the message back |
| RoomCodec.ConcatenationIsMerge | ChattingClient/ChattingClient/Protocols.pb.cc:4177-4198 | parsing two concatenated encodings is merging twice |
| RoomCodec.ParseKeepsGood | ChattingClient/ChattingClient/Protocols.pb.cc:3956-4045 | parsing any bytes, even to a failure, leaves no stray has-bit, no value behind a clear bit, and only well-formed unknown fields |
| RoomCodec.ReserializeIsStable | ChattingClient/ChattingClient/Protocols.pb.cc:3956-4080 | whatever bytes were parsed, serializing the result and parsing again gives the same message |
| RoomCodec.ParseFields | ChattingClient/ChattingClient/Protocols.pb.cc:3956-4045 | fields of any kind, in any order and number, each do their work in turn: an int32 is the low 32 bits of its varint, the last of several wins, elements of either form append, and a field of another kind than its number's is unknown |
| RoomCodec.EncodeIsFields | ChattingClient/ChattingClient/Protocols.pb.cc:4047-4080 | the encoding is the fields that are set, in number order, then the unknown ones |
| RoomCodec.CutFields | ChattingClient/ChattingClient/Protocols.pb.cc:3956-4045 | input without packed lists that is cut short is accepted exactly when the cut is between two fields |
| RoomCodec.CutEncoding | ChattingClient/ChattingClient/Protocols.pb.cc:3956-4045 | an encoding that is cut short is accepted exactly when it is cut between two fields |
| RoomCodec.OverlongUnknown | ChattingClient/protobuf/src/google/protobuf/wire_format.cc:92-104 | an unknown string that claims more bytes than there are is refused, and what there was is kept |
| RoomCodec.OversizedUnknown | ChattingClient/protobuf/src/google/protobuf/wire_format.cc:92-104 | an unknown string whose length does not fit an int is refused |
| RoomCodec.BadTag | ChattingClient/protobuf/src/google/protobuf/wire_format.cc:120-132 | an end-group tag outside a group and a wire type that does not exist are refused |
| RoomCodec.DeepGroup | ChattingClient/protobuf/src/google/protobuf/wire_format.cc:105-119 | groups nested deeper than the recursion limit are refused |
| RoomCodec.Example | ChattingClient/ChattingClient/Protocols.pb.cc:4047-4080 | a message byte by byte |
| RoomCodec.PackedMeansTheSame | ChattingClient/ChattingClient/Protocols.pb.cc:3980-3997 | the packed and the unpacked form of the list parse alike |
| RoomCodec.PackedOverrun | ChattingClient/protobuf/src/google/protobuf/wire_format_lite_inl.h:330-343 | a packed field that claims more bytes than there are is refused if and only if its size does not fit an int or the bytes left are not whole varints; otherwise it is read as if the size had been right |
| RoomCodec.WholeVarintsAreRead | ChattingClient/protobuf/src/google/protobuf/wire_format_lite_inl.h:330-343 | the elements of a packed field are read to the end exactly when, from every byte on, a byte with a clear high bit comes within ten |
| RoomCodec.PackedPastTheEnd | ChattingClient/protobuf/src/google/protobuf/io/coded_stream.cc:119-142 | a packed field at the end of the input that claims more bytes than there are is accepted |
| RoomCodec.EncodedLength | ChattingClient/ChattingClient/Protocols.pb.cc:4117-4160 | the length of the encoding, part by part |
| RoomMessage.RoomList.MergePartialFromCodedStream | ChattingClient/ChattingClient/Protocols.pb.cc:3956-4045 | the loop computes the parse function, with the inner loop over unpacked elements for any reserved capacity |
| RoomMessage.RoomList.ParseField | ChattingClient/ChattingClient/Protocols.pb.cc:3962-4036 | one turn of the loop, every tag and every failure included |
| RoomMessage.RoomList.ParseFieldBody | ChattingClient/ChattingClient/Protocols.pb.cc:3966-4036 | the switch over a tag that was read: each branch does what the parse function does after that tag |
| RoomMessage.RoomList.ReadRepeated | ChattingClient/protobuf/src/google/protobuf/wire_format_lite_inl.h:230-246 | reading one element and then any number while the tag repeats is parsing them one by one |
| RoomMessage.RoomList.ReadPacked | ChattingClient/protobuf/src/google/protobuf/wire_format_lite_inl.h:330-343 | reads a size, clamps it to the bytes left, and appends the packed values; a failing one keeps those before it |
| RoomMessage.RoomList.ParseFromArray | ChattingClient/protobuf/src/google/protobuf/message_lite.cc:139-144 | clears, parses, and succeeds exactly when all bytes were consumed and room_index is present |
| RoomMessage.RoomList.ByteSizeLong | ChattingClient/ChattingClient/Protocols.pb.cc:4117-4160 | the exact number of bytes of the encoding, cached if it fits an int |
| RoomMessage.RoomList.SerializeWithCachedSizes | ChattingClient/ChattingClient/Protocols.pb.cc:4047-4080 | writes to a stream, field by field and unknown field by unknown field, the same bytes as the array writer |
| RoomMessage.RoomList.InternalSerializeWithCachedSizesToArray | ChattingClient/ChattingClient/Protocols.pb.cc:4082-4115 | writes the same encoding to an array, at the target and nowhere else |
| RoomMessage.RoomList.MergeFrom | ChattingClient/ChattingClient/Protocols.pb.cc:4177-4198 | merges: present fields win, lists and unknown fields append |
| RoomMessage.RoomList.CopyFrom | ChattingClient/ChattingClient/Protocols.pb.cc:4207-4212 | becomes equal to the other message, itself included |
| RoomMessage.RoomList.Clear | ChattingClient/ChattingClient/Protocols.pb.cc:3939-3954 | becomes the empty message |
| RoomMessage.RoomList.InternalSwap | ChattingClient/ChattingClient/Protocols.pb.cc:4223-4232 | exchanges the two messages |
| LoginCodec.ParseIsMerge | ChattingClient/ChattingClient/Protocols.pb.cc:673-747 | as for Room_List, with string fields |
| LoginCodec.ParseEncodedIsMerge | ChattingClient/ChattingClient/Protocols.pb.cc:673-747 | parsing exactly the bytes of b into any message gives the same state as merging b |
| LoginCodec.RoundTrip | ChattingClient/ChattingClient/Protocols.pb.cc:749-786 | parsing what was serialized into an empty message gives the message back |
| LoginCodec.ConcatenationIsMerge | ChattingClient/ChattingClient/Protocols.pb.cc:885-907 | parsing two concatenated encodings is merging twice |
| LoginCodec.ParseKeepsGood | ChattingClient/ChattingClient/Protocols.pb.cc:673-747 | parsing any bytes, even to a failure, keeps has-bits, values and unknown fields consistent |
| LoginCodec.ReserializeIsStable | ChattingClient/ChattingClient/Protocols.pb.cc:673-786 | whatever bytes were parsed, serializing the result and parsing again gives the same message |
| LoginCodec.ParseFields | ChattingClient/ChattingClient/Protocols.pb.cc:673-747 | fields of any kind, in any order and number, each do their work in turn: an int32 is the low 32 bits of its varint, the last of several wins, strings replace, and a field of another kind than its number's is unknown |
| LoginCodec.EncodeIsFields | ChattingClient/ChattingClient/Protocols.pb.cc:749-786 | the encoding is the fields that are set, in number order, then the unknown ones |
| LoginCodec.CutFields | ChattingClient/ChattingClient/Protocols.pb.cc:673-747 | input that is cut short is accepted exactly when the cut is between two fields |
| LoginCodec.CutEncoding | ChattingClient/ChattingClient/Protocols.pb.cc:673-747 | an encoding that is cut short is accepted exactly when it is cut between two fields |
| LoginCodec.OverlongString | ChattingClient/protobuf/src/google/protobuf/io/coded_stream.cc:268-299 | a string that claims more bytes than there are is refused, and the field keeps what there was |
| LoginCodec.OversizedString | ChattingClient/protobuf/src/google/protobuf/wire_format_lite.cc:583-592 | a string whose length does not fit an int is refused, and the field keeps what it had |
| LoginCodec.OverlongUnknown | ChattingClient/protobuf/src/google/protobuf/wire_format.cc:92-104 | an unknown string that claims more bytes than there are is refused, and what there was is kept |
| LoginCodec.OversizedUnknown | ChattingClient/protobuf/src/google/protobuf/wire_format.cc:92-104 | an unknown string whose length does not fit an int is refused |
| LoginCodec.BadTag | ChattingClient/protobuf/src/google/protobuf/wire_format.cc:120-132 | an end-group tag outside a group and a wire type that does not exist are refused |
| LoginCodec.DeepGroup | ChattingClient/protobuf/src/google/protobuf/wire_format.cc:105-119 | groups nested deeper than the recursion limit are refused |
| LoginCodec.Example | ChattingClient/ChattingClient/Protocols.pb.cc:749-786 | a message byte by byte |
| LoginMessage.UserLogin.MergePartialFromCodedStream | ChattingClient/ChattingClient/Protocols.pb.cc:673-747 | the loop computes the parse function, and gains and destroys only strings of this message |
| LoginMessage.UserLogin.ParseFieldBody | ChattingClient/ChattingClient/Protocols.pb.cc:683-740 | one tag's branch, every failure included |
| LoginMessage.UserLogin.ParseFromArray | ChattingClient/protobuf/src/google/protobuf/message_lite.cc:139-144 | clears, parses, and succeeds exactly when all bytes were consumed |
| LoginMessage.UserLogin.ByteSizeLong | ChattingClient/ChattingClient/Protocols.pb.cc:831-868 | the exact number of bytes of the encoding |
| LoginMessage.UserLogin.SerializeWithCachedSizes | ChattingClient/ChattingClient/Protocols.pb.cc:749-786 | writes to a stream, field by field and unknown field by unknown field, the same bytes as the array writer |
| LoginMessage.UserLogin.InternalSerializeWithCachedSizesToArray | ChattingClient/ChattingClient/Protocols.pb.cc:788-829 | writes the same encoding to an array, at the target and nowhere else |
| LoginMessage.UserLogin.MergeFrom | ChattingClient/ChattingClient/Protocols.pb.cc:885-907 | merges; the strings are copied, so the messages stay apart |
| LoginMessage.UserLogin.Copied | ChattingClient/ChattingClient/Protocols.pb.cc:593-610 | the copy constructor: equal to the other message, which keeps its strings, with new strings of its own |
| LoginMessage.UserLogin.CopyFrom | ChattingClient/ChattingClient/Protocols.pb.cc:916-921 | becomes equal to the other message |
| LoginMessage.UserLogin.InternalSwap | ChattingClient/ChattingClient/Protocols.pb.cc:931-939 | exchanges the two messages and the strings they own |
| LoginMessage.UserLogin.Clear | ChattingClient/ChattingClient/Protocols.pb.cc:651-671 | reads empty, keeps its strings for reuse |
| LoginMessage.UserLogin.SharedDtor | ChattingClient/ChattingClient/Protocols.pb.cc:623-626 | destroys exactly the strings the message owns |
| LoginMessage.UserLogin.SetStringField | ChattingClient/ChattingClient/Protocols.pb.h:1712-1717 | sets value and has-bit; owns a string afterwards |
| LoginMessage.UserLogin.MutableStringField | ChattingClient/ChattingClient/Protocols.pb.h:1737-1741 | sets the has-bit and hands out the field's own string |
| LoginMessage.UserLogin.ReleaseStringField | ChattingClient/ChattingClient/Protocols.pb.h:1742-1746 | clears the has-bit and passes the string to the caller, still live |
| LoginMessage.UserLogin.SetAllocatedStringField | ChattingClient/ChattingClient/Protocols.pb.h:1747-1755 | destroys the old string and takes over the new one, or clears |
| LoginMessage.UserLogin.ClearStringField | ChattingClient/ChattingClient/Protocols.pb.h:1704-1707 | reads empty, bit clear, string kept |
| StringRuns.Run | ChattingClient/ChattingClient/Protocols.pb.cc:585-939 | any script of sets, writes through mutable pointers, releases, hand-overs, clears, merges, copies, swaps, parses with and without clearing, and messages made, copied and destroyed, in any order over any number of messages: at its end a set string bit means the pointer is not the shared default, a clear bit means the field reads empty or zero, no two fields or the program own the same heap string, owned strings are live and no live string is lost, and every message and string holds what independent values would hold |
| StringOwnership.Step | ChattingClient/ChattingClient/Protocols.pb.h:1671-1755 | any set, write through a mutable pointer, release, set_allocated, clear or parse, clearing first or not, on any one of any number of messages keeps the world; the message has the value that operation gives, the others theirs, and strings gained are new or come from the program |
| StringOwnership.Combine | ChattingClient/ChattingClient/Protocols.pb.cc:885-921 | so does any merge or copy, with the merged or copied value; strings gained are new |
| StringOwnership.Swap | ChattingClient/ChattingClient/Protocols.pb.cc:931-939 | so does any swap: the two messages exchange values and the strings they own |
| StringOwnership.Create | ChattingClient/ChattingClient/Protocols.pb.cc:585-592 | so does a new message, with fields of its own and no strings |
| StringOwnership.CreateCopy | ChattingClient/ChattingClient/Protocols.pb.cc:593-610 | so does a copy-constructed one, with the same value and new strings |
| StringOwnership.Destroy | ChattingClient/ChattingClient/Protocols.pb.cc:618-626 | so does destroying one: it frees exactly its strings |
| StringOwnership.LedgerStep | ChattingClient/protobuf/src/google/protobuf/arenastring.h:200-203 | a step that makes new strings, destroys and exchanges its own keeps: one owner each, none lost, none dangling |
| ArenaString.ArenaStringPtr.SetNoArena | ChattingClient/protobuf/src/google/protobuf/arenastring.h:204-211 | makes a string on the default, overwrites in place otherwise |
| ArenaString.ArenaStringPtr.AssignWithDefault | ChattingClient/protobuf/src/google/protobuf/arenastring.cc:41-49 | copies the contents unless both pointers are the same |
| ArenaString.ArenaStringPtr.MutableNoArena | ChattingClient/protobuf/src/google/protobuf/arenastring.h:227-232 | the field's own string, made if needed |
| ArenaString.ArenaStringPtr.ReleaseNoArena | ChattingClient/protobuf/src/google/protobuf/arenastring.h:234-242 | gives the string away and returns to the default |
| ArenaString.ArenaStringPtr.SetAllocatedNoArena | ChattingClient/protobuf/src/google/protobuf/arenastring.h:244-254 | destroys the old string and takes over the new one |
| UnknownFields.SkipFieldRoundTrip | ChattingClient/protobuf/src/google/protobuf/wire_format.cc:76-134 | skipping a serialized unknown field, groups included, keeps exactly that field |
| UnknownFields.SkipMessageRoundTrip | ChattingClient/protobuf/src/google/protobuf/wire_format.cc:136-155 | and so for whole groups, up to their end tag |
| UnknownFields.SkipFieldWellFormed | ChattingClient/protobuf/src/google/protobuf/wire_format.cc:76-134 | whatever bytes are skipped, what is kept is well formed, after a failure too |
| UnknownFields.TruncatedField | ChattingClient/protobuf/src/google/protobuf/wire_format.cc:76-134 | a field of any kind that is cut short, groups at any depth included, is refused |
| UnknownFields.TruncatedMessage | ChattingClient/protobuf/src/google/protobuf/wire_format.cc:136-155 | the contents of a group that are cut short are refused or left unclosed |
| UnknownFields.OverlongBytes | ChattingClient/protobuf/src/google/protobuf/wire_format.cc:92-104 | a length past the end of the input is refused, and what there was is kept |
| UnknownFields.OversizedBytes | ChattingClient/protobuf/src/google/protobuf/wire_format.cc:92-104 | a length that does not fit an int is refused |
| UnknownFields.BadWireType | ChattingClient/protobuf/src/google/protobuf/wire_format.cc:120-132 | an end-group tag out of place and the wire types 6 and 7 are refused |
| UnknownFields.MismatchedEnd | ChattingClient/protobuf/src/google/protobuf/wire_format.cc:111-118 | a group that the end tag of another number closes is refused |
| UnknownFields.WithinBudget | ChattingClient/protobuf/src/google/protobuf/wire_format.cc:105-119 | what a recursion budget allows is exactly the groups no deeper than it |
| UnknownFields.TooDeep | ChattingClient/protobuf/src/google/protobuf/wire_format.cc:105-119 | groups deeper than the budget are refused, wherever the deepest is |
| UnknownFields.EndsFieldMeans | ChattingClient/protobuf/src/google/protobuf/wire_format.cc:136-155 | where a list of fields may be cut: after the bytes of some of its first fields |
| UnknownFields.VarintExample | ChattingClient/protobuf/src/google/protobuf/wire_format.cc:181-217 | a varint field byte by byte |
| UnknownFields.Fixed32Example | ChattingClient/protobuf/src/google/protobuf/wire_format.cc:181-217 | a 32-bit field byte by byte |
| UnknownFields.Fixed64Example | ChattingClient/protobuf/src/google/protobuf/wire_format.cc:181-217 | a 64-bit field byte by byte |
| UnknownFields.BytesAndGroupExample | ChattingClient/protobuf/src/google/protobuf/wire_format.cc:181-217 | a string and an empty group byte by byte |
| UnknownFields.SetSizeIsLength | ChattingClient/protobuf/src/google/protobuf/wire_format.cc:312-355 | the computed size of unknown fields is the number of bytes written |
| WireFormat.VarintRoundTrip | ChattingClient/protobuf/src/google/protobuf/io/coded_stream.cc:543-570 | a varint reads back |
| WireFormat.VarintDigits | ChattingClient/protobuf/src/google/protobuf/io/coded_stream.h:1206-1215 | the bytes of a varint are the value's digits to base 128, least first, all but the last with the high bit set |
| WireFormat.ReadVarintDigits | ChattingClient/protobuf/src/google/protobuf/io/coded_stream.cc:543-570 | what is read has the low seven bits of the bytes as its digits, up to the first byte with a clear high bit |
| WireFormat.TruncatedVarint | ChattingClient/protobuf/src/google/protobuf/io/coded_stream.cc:543-570 | a varint that is cut short is malformed |
| WireFormat.LittleEndianDigits | ChattingClient/protobuf/src/google/protobuf/io/coded_stream.h:1226-1255 | the bytes of a fixed-width value are its digits to base 256, least first |
| WireFormat.Int32IsModulo | ChattingClient/protobuf/src/google/protobuf/wire_format_lite_inl.h:60-68 | an int32 is its varint modulo 2^32 |
| WireFormat.VarintSizeIsLength | ChattingClient/protobuf/src/google/protobuf/io/coded_stream.cc:829-836 | the size formula by multiplication is the number of bytes, for all 64-bit values |
| WireFormat.Int32SizeIsLength | ChattingClient/protobuf/src/google/protobuf/io/coded_stream.h:1302-1308 | ten bytes for negative values, and exact otherwise |
| WireFormat.SignExtendRoundTrip | ChattingClient/protobuf/src/google/protobuf/io/coded_stream.h:1217-1224 | a negative int32 survives sign extension and truncation |
| WireFormat.LittleEndianRoundTrip | ChattingClient/protobuf/src/google/protobuf/io/coded_stream.h:1226-1255 | fixed-width values read back |
| CodedStream.WriteVarintToArray | ChattingClient/protobuf/src/google/protobuf/io/coded_stream.h:1206-1215 | writes the varint at the target and nowhere else |
| CodedStream.CodedOutputStream.WriteUnknownFields | ChattingClient/protobuf/src/google/protobuf/wire_format.cc:181-217 | the loop writes the unknown fields to a stream, groups by recursion, byte for byte as the array writer does |
| CodedStream.SerializeUnknownToArray | ChattingClient/protobuf/src/google/protobuf/wire_format.cc:219-252 | writes the unknown fields at the target and nowhere else |
| CodedStream.CodedInputStream.ReadTagWithCutoff | ChattingClient/protobuf/src/google/protobuf/io/coded_stream.h:1063-1112 | the one-byte and two-byte fast paths and the fallback all give the tag that comes next, or 0, whether it is within the cutoff, and whether the input ended |
| CodedStream.CodedInputStream.ReadTagFallback | ChattingClient/protobuf/src/google/protobuf/io/coded_stream.cc:506-541 | the tag that comes next; a malformed one leaves the position alone when a varint was sure to end in the buffer, and takes the bytes there are otherwise |
| CodedStream.CodedInputStream.ReadVarintBytes | ChattingClient/protobuf/src/google/protobuf/io/coded_stream.cc:543-570 | the byte loop reads exactly the varint, and fails after ten bytes or at the end of the input |
| CodedStream.CodedInputStream.SkipFieldInto | ChattingClient/protobuf/src/google/protobuf/wire_format.cc:76-134 | skips one field over the stream, groups by recursion, and keeps exactly what the skip function keeps, after a failure too |
| CodedStream.CodedInputStream.SkipMessageInto | ChattingClient/protobuf/src/google/protobuf/wire_format.cc:136-155 | the loop over the fields of a group keeps what the skip function keeps and remembers the tag that ended it |
| CodedStream.SpliceMeaning | ChattingClient/protobuf/src/google/protobuf/io/coded_stream.h:1195-1224 | writing bytes at a position changes them and nothing else |

## Left out

- The other messages of `Protocols.proto` have the same field shapes; only bool fields are not covered.
- Weak memory orderings, the allocation hooks, address sanitizer poisoning and the `Create` overloads of the arena.
- Input split over several buffers, nested input limits other than those of packed fields, aliasing and raw buffers of the coded streams.
- UTF-8 verification in the generated code, whose result is ignored, and reflection.
- Underlays, placeholders, weak dependencies and lazily loaded extensions of the descriptor pool.
- Descriptor fields other than those that loading, lookup and linking depend on, options, source locations, comments and error messages.
- Which of its lookups cross-linking makes, and whether options and validation of a file that is not sound raise errors, are arbitrary in `PoolLoading`: its claims hold for every choice.
- `ExistingFileMatchesProto` may answer anything in `PoolLoading`.
- PoolLoading.DescriptorPool.RollbackToLastCheckpoint: works on a stack of saved contents; that the undo log implements such a stack is what module PoolTables proves.
- PoolLoading.DescriptorPool.FindFileByName: promises success only for sound databases; a database in which cross-linking must load files that no import provides can fail depending on the order of loading.
- PoolLoading.DescriptorPool.FindSymbolByName: promises success only for a symbol whose file the database names and whose dotted prefixes no other file defines; for other symbols the database may name any file.
- CodedStream.CodedInputStream.SkipFieldInto: passes down what is left of the recursion budget where the stream counts it; where a failed read leaves the position is not stated.
- ArenaProtocol.RegionsAreApart: states disjointness by block and offset; that different blocks do not overlap is the allocator's promise.
- The `known_bad` sets and the set of extensions loaded are not part of the undo log and not of its theorem.
- Explicit `json_name` options, which the proto3 name check does not look at either.
- Sockets, menus and threads of the chat client itself.
