# The engine's stores and registries, in Dafny

A model of four parts of the engine and proofs about them.

* **The document store.** `Store` keeps documents in namespaces, on disk through `FileDriver` and in
  memory in a two-way index. `FileTree` is the ideal directory tree, `FileDrivers.FileDriver` changes it
  step by step, `DocNamesIndex.DocNames` is the index, `Stores.Store` couples both, and `StoreView` is
  what a client may rely on: a partial map from names to documents. Every operation of `Stores.Store`
  keeps the coupling (`Valid`) and takes the view (`Seen`) exactly one step of `StoreView.Apply` further,
  errors included. Opening a store again over the same tree gives the same index.
* **The key-value databases.** The counts of users per database and scope, once as the objects they are
  (`HandlerCounts`, `KvdbManagerObjects`), once as atomic steps under a readers-writer lock
  (`HandlerInterleaving`), and the run of a manager that must not drop a database from under a handler
  (`KvdbManagers`). Paging is done on 32-bit words.
* **The geo registry and the MMDB dump.** Two maps that stay inverse on every exit, recovery from
  the internal documents after a restart, and the mutually recursive dump of a flattened MMDB value
  into a JSON document through JSON Pointer paths.
* **The path codecs.** Splitting, joining, unescaping, dotted paths, JSON Pointers as in section 3 of
  RFC 6901, names as text.

Code that works in place is a class or a method with loops, proved against a function of its inputs or of
the old state; the lemmas are about those functions.

## What does not hold, and exactly when it does

* A dump writes map keys into its paths unescaped. For a value whose maps repeat no key, the document comes
  out right if and only if no key contains `/`, `~` or NUL (`MmdbExact.DumpExactly`).
* `formatJsonPath` and `DotPath` disagree on backslashes. They agree if and only if the path is not empty
  and every run of backslashes is one before a dot, or two or three before something else or the end
  (`PathAgreement.FormatAgrees`).
* `createDB(name, path)` is not atomic: the load stores one entry after the other, and its rollback drops the whole
  database. A call that fails leaves every database with the entries it had if and only if the file could not be read;
  or the database was there, its drop fails or the number of its live handlers is no multiple of 2^32, and it holds
  already the last value of every key stored before the failure; or it was not there, and could not be created or is
  dropped again (`KvdbContents.CreateFromAtomic`). `KvdbContents.HalfLoaded` is an input where the rollback is refused
  and one new entry stays.
* Usage counts are 32-bit words. In every run, and in every interleaving, they are right all along if and only
  if no scope of a database is ever held 2^32 times at once (`KvdbManagers.CountsExactly`,
  `HandlerInterleaving.CountsExactly`); one handler too many leaves an entry that counts zero
  (`HandlerCounts.CountWraps`), and two handlers too many, released again, make the scope forgotten while 2^32 - 1
  handlers are live (`KvdbManagers.WrapForgets`). Runs that get there from the start are given (`KvdbManagers.WrapReached`,
  `KvdbManagers.CountsGoWrong`, `HandlerCrowd.CountsGoWrong`).
* While the counts are right, a deletion is refused by their 32-bit sum exactly when the number of live handlers
  is no multiple of 2^32 (`KvdbManagers.DeleteRefusedExactly`). So a call takes a database from under a
  live handler if and only if it is a deletion, or a failed load, whose drop succeeds, of a database that is there
  and has a positive multiple of 2^32 live handlers (`KvdbManagers.ServedExactly`, over whole runs
  `KvdbManagers.RunServesExactly`).
* A call of `remoteUpsertDb` installs a database that no attempt matched if and only if it asks for downloads,
  every attempt brings one with another hash, and the last can be written and opened
  (`GeoRegistry.MismatchInstalled`).
* `remoteUpsertDb` of a registered database with another path changes the path in its document only; the two
  paths go apart exactly then (`GeoRegistry.PathsAgreeExactly`), and a restart where every database opens gives the
  same registry, paths included, exactly when they agree (`GeoRegistry.RestartAll`).
* A restart where some databases do not open registers exactly the others, and deletes the documents of those that do
  not open as far as the store lets it; registry and documents are in step again exactly when it could delete them all
  (`GeoRegistry.Restart`).
* `replaceAll` of t by r may leave an occurrence. It leaves none in any text if and only if there is no p with
  0 < p < |t| such that one of r and `t[p..]` begins with the other and no occurrence of t in `t[..p] + t` begins
  before p (`StringUtils.ReplacesAllExactly`). A single character, which is how it is called, has no such p
  (`StringUtils.ReplacedChar` gives the whole result); "ab" and "b" have (`StringUtils.OccurrenceLeftInAab`).
* A page is the slice it should be if and only if its end fits in a 32-bit word, or the slice is empty and the page,
  whose first entry is counted modulo 2^32, is too (`KvdbPaging.PageExactly`); the first pages together
  are the beginning of the listing if and only if each of them is (`KvdbPaging.PagesExactly`). The first page past
  the bound is empty (`KvdbPaging.FirstPastBound`); a page that shows something comes again exactly as many pages later as make a multiple of
  2^32 records (`KvdbPaging.PageComesAgain`).
* Setting one path leaves what is at another, apart from it, alone if and only if it neither fills an array up past it,
  nor appends an element it leads to, nor makes an object of an array it leads into (`JsonPointer.SetApart`).

## Assumptions

* The parts of a name are plain file names: not empty, without `/`, not `.` or `..`. The root path has no
  trailing separator. A file system call whose preconditions hold succeeds, and nobody else changes the tree.
* Documents are JSON trees; printing and parsing them is taken to be the identity.
* Paths and hashes contain no NUL where a document of the geo registry is read back (`GeoStore.EncodeReads` says
  that this is exactly what it takes).
* What the network, the hash, the MMDB and RocksDB libraries answer is a parameter of the call
  (`GeoRegistry.World`, the booleans and numbers of `KvdbManagers.Op` and `KvdbContents.Call`).
* `JsonPointer` states the behaviour of `rapidjson::Pointer` that the engine relies on: it is given a C string,
  `Set` creates what is missing, an index is a 32-bit number.

## Model

| member | source | states |
|---|---|---|
| Stores.Store.Open | src/engine/source/store/src/store.cpp:246-345 | over any tree it fails exactly when the namespaces collection holds a stray file or a name that is too long; over the tree of a valid store it never fails, the result is valid and its index is the same as before |
| Stores.Store.LoadNamespaces | src/engine/source/store/src/store.cpp:323-344 | the loop over the namespaces: no error exactly on a loadable tree, and then every file of every namespace has its name indexed under a namespace that holds it |
| Stores.Store.Visit | src/engine/source/store/src/store.cpp:256-304 | the recursive visitor terminates on every tree, fails exactly when something below is too deep, and indexes exactly the files below, keeping names already indexed |
| Stores.Store.ReadDoc | src/engine/source/store/src/store.cpp:356-369 | the document of the view under that name, or an error exactly when the view has none |
| Stores.Store.ReadCol | src/engine/source/store/src/store.cpp:377-395 | answered from the index, it is the one-level listing of the directory of the real name, sorted and without repetition, and an error exactly when there is no such directory |
| Stores.Store.ExistsCol | src/engine/source/store/src/store.cpp:403-408 | true exactly when the view has a document of that namespace strictly below the name |
| Stores.Store.GetNamespace | src/engine/source/store/src/store.cpp:349-354 | the namespace of the document in the view, or none |
| Stores.Store.ExistsDoc | src/engine/source/store/src/store.cpp:397-401 | true exactly when the view has the document |
| Stores.Store.CreateDoc | src/engine/source/store/src/store.cpp:410-435 | keeps index and tree coupled; succeeds exactly for a document that repeats no key under a name that is no document and fits beside the others, and then the view has it, in its namespace, and nothing else changed; on every error the view is as before |
| Stores.Store.UpdateDoc | src/engine/source/store/src/store.cpp:437-453 | keeps the coupling; succeeds exactly when the view has the name and the document repeats no key, and then only the document changes, not its namespace |
| Stores.Store.UpsertDoc | src/engine/source/store/src/store.cpp:455-483 | an update of a name of the same namespace, a creation of a new name, refused for a name of another namespace; both under the conditions of the two |
| Stores.Store.DeleteDoc | src/engine/source/store/src/store.cpp:485-510 | succeeds exactly when the view has the name, and exactly that name goes |
| Stores.Store.DeleteCol | src/engine/source/store/src/store.cpp:512-533 | succeeds exactly when the view has a document of the namespace strictly below the name, and exactly those go |
| Stores.Store.CreateInternalDoc | src/engine/source/store/src/store.cpp:535-549 | succeeds exactly outside "namespaces" for a document that repeats no key and a name that is, holds and lies under no internal document; then the view has it and nothing else changed |
| Stores.Store.ReadInternalDoc | src/engine/source/store/src/store.cpp:551-554 | reads the internal documents, and by real name also those of the namespaces |
| Stores.Store.UpdateInternalDoc | src/engine/source/store/src/store.cpp:556-570 | succeeds exactly outside "namespaces" on an internal document that is there, with one that repeats no key, and replaces it alone |
| Stores.Store.UpsertInternalDoc | src/engine/source/store/src/store.cpp:572-591 | either of the two, by what is there |
| Stores.Store.DeleteInternalDoc | src/engine/source/store/src/store.cpp:593-607 | succeeds exactly outside "namespaces" on an internal document that is there, and exactly that one goes |
| Stores.SeenIsTree | src/engine/source/store/src/store.cpp:246-607 | what the view of a valid store is on disk: a document v of namespace ns is the file "namespaces"/ns/v with that content, an internal document is any other file |
| Stores.CutName | src/engine/source/store/src/store.cpp:12-32 | the distinct names cut after one more part, in the order of names |
| Stores.CutIsEntry | src/engine/source/store/src/store.cpp:382-394 | a cut name is listed exactly when its real name is an entry of the directory; needs that no directory is empty |
| StoreView.ReadsLastWrite | src/engine/source/store/src/store.cpp:356-483 | in every run, what is read is the document of the last successful write, in the namespace it went to |
| StoreView.GoneAfterDelete | src/engine/source/store/src/store.cpp:485-533 | in every run, a deleted document stays gone until it is created again |
| StoreView.UntouchedStays | src/engine/source/store/src/store.cpp:410-607 | no run changes an entry that none of its successful operations is about |
| StoreView.CreateThenDelete | src/engine/source/store/src/store.cpp:410-510 | deleting what was just created gives back the view before |
| StoreView.NamespaceSticks | src/engine/source/store/src/store.cpp:437-483 | a name changes its namespace only by way of a deletion |
| StoreView.RunKeeps | src/engine/source/store/src/store.cpp:410-607 | in every run no document is at once a collection of its namespace, names fit and no document repeats a key |
| StoreLaws.UpdateAccepted | src/engine/source/store/src/store.cpp:410-533 | in every run, after a creation or upsert that was accepted and until the name is removed, the name stays there, and an update of it is accepted exactly when its document repeats no key, and is read then |
| StoreLaws.ReadsLastInternal | src/engine/source/store/src/store.cpp:535-607 | in every run, what is read of an internal document is its last successful write, and nothing after a removal |
| StoreLaws.InternalStays | src/engine/source/store/src/store.cpp:410-607 | no run changes an internal document that none of its successful operations is about |
| StoreRuns.ReplayAndOpen | src/engine/source/store/src/store.cpp:246-607 | after any run of operations on a valid store, the view is the run of the view, and a store opened over the same tree is valid with the same index and the same view |
| StoreRuns.StartAndReplay | src/engine/source/store/src/store.cpp:246-607 | the same from an empty directory on |
| StoreLink.RealVirtualRoundTrip | src/engine/source/store/include/store/store.hpp:28-73 | a real name reads back as the virtual name it was made of, and only such names are read |
| StoreLink.LinkedUnique | src/engine/source/store/src/store.cpp:246-345 | a tree determines the index that is coupled to it |
| StoreLink.CollectionSeen | src/engine/source/store/src/store.cpp:403-408 | the index and the tree agree on which collections exist |
| StoreLoad.LinkedLoads | src/engine/source/store/src/store.cpp:246-345 | the tree of a valid store loads, and every index that loading can give is the one before |
| DocNamesIndex.DocNames.FilterByPrefix | src/engine/source/store/src/store.cpp:131-144 | exactly the names of the namespace strictly below the prefix, each once |
| DocNamesIndex.DocNames.Add | src/engine/source/store/src/store.cpp:187-198 | keeps the multimap the inverse of the map, each pair once; adds only a new name |
| DocNamesIndex.DocNames.ChangeNamespaceId | src/engine/source/store/src/store.cpp:158-185 | keeps the inverse; moves exactly that name |
| DocNamesIndex.DocNames.Del | src/engine/source/store/src/store.cpp:200-220 | keeps the inverse; removes exactly that name |
| DocNamesIndex.DocNames.DelCol | src/engine/source/store/src/store.cpp:222-238 | keeps the inverse while erasing during the iteration; removes exactly the names of the namespace strictly below |
| DocNamesIndex.IsPrefixMeaning | src/engine/source/store/src/store.cpp:95-116 | the comparison part by part is the (strict) prefix relation |
| FileDrivers.FileDriver.CreateDoc | src/engine/source/store/drivers/fileDriver/src/fileDriver.cpp:65-123 | adds exactly that document or reports the first reason not to, leaving the tree alone; no empty directory arises |
| FileDrivers.FileDriver.ReadDoc | src/engine/source/store/drivers/fileDriver/src/fileDriver.cpp:125-170 | succeeds exactly on the documents of the tree and gives them back; a collection is told from nothing |
| FileDrivers.FileDriver.UpdateDoc | src/engine/source/store/drivers/fileDriver/src/fileDriver.cpp:172-227 | replaces exactly that document |
| FileDrivers.FileDriver.UpsertDoc | src/engine/source/store/drivers/fileDriver/src/fileDriver.cpp:229-239 | either of the two, by what is there |
| FileDrivers.FileDriver.RemoveEmptyParentDirs | src/engine/source/store/drivers/fileDriver/src/fileDriver.cpp:241-265 | removes exactly the chain of ancestors left empty, never the root |
| FileDrivers.FileDriver.DeleteDoc | src/engine/source/store/drivers/fileDriver/src/fileDriver.cpp:267-297 | removes exactly that document and the directories it leaves empty |
| FileDrivers.FileDriver.ReadCol | src/engine/source/store/drivers/fileDriver/src/fileDriver.cpp:299-333 | every entry of the directory once; fails exactly without such a directory or when an entry's name is too long |
| FileDrivers.FileDriver.DeleteCol | src/engine/source/store/drivers/fileDriver/src/fileDriver.cpp:370-411 | removes exactly what lies below and the directories left empty |
| FileTree.PutFileKeeps | src/engine/source/store/drivers/fileDriver/src/fileDriver.cpp:94-122 | creating a document and its directories keeps the tree a tree, changes one document, leaves no empty directory |
| FileTree.PutFileLaw | src/engine/source/store/drivers/fileDriver/src/fileDriver.cpp:94-122 | exactly the document and the directories above it are new, and everything else is as it was |
| FileTree.EraseLaw | src/engine/source/store/drivers/fileDriver/src/fileDriver.cpp:241-297 | exactly the path, what lies below it, and the directories above it that held nothing else are gone |
| FileTree.EraseKeeps | src/engine/source/store/drivers/fileDriver/src/fileDriver.cpp:241-297 | erasing with the directories left empty restores that every directory but the root has a document beneath it |
| FileTree.PruneReached | src/engine/source/store/drivers/fileDriver/src/fileDriver.cpp:246-262 | where the removal loop stops, nothing left empty remains and nothing else is gone |
| FileTree.CleanDetermined | src/engine/source/store/drivers/fileDriver/src/fileDriver.cpp:241-297 | a tree without empty directories is determined by its documents |
| FileTree.CreateThenErase | src/engine/source/store/drivers/fileDriver/src/fileDriver.cpp:65-297 | creating and deleting a document leaves no trace, not even a directory |
| JsonModel.CheckDuplicateKeys | src/engine/source/base/src/json.cpp:666-687 | an error exactly when some object reached through objects repeats a key, and it names such a key |
| JsonModel.DuplicatesExactly | src/engine/source/base/src/json.cpp:666-687 | a document is refused exactly when a path through members alone leads to an object with two members of the same key, read as C strings |
| Names.InsertSortedProperty | src/engine/source/base/include/base/name.hpp:123-132 | a set of names iterates in strictly increasing lexicographic order |
| Names.NameOrder | src/engine/source/base/include/base/name.hpp:123-132 | the order of names is a strict total order |
| Names.NameLessMeaning | src/engine/source/base/include/base/name.hpp:123-132 | a name comes before another exactly when it is a beginning of it or has the smaller part at the first difference; parts compare so by characters |
| Names.SortedUnique | src/engine/source/store/src/store.cpp:31-31 | a listing in that order is determined by what it contains, so a collection has one listing |
| NameText.SplitText | src/engine/source/base/src/utils/stringUtils.cpp:6-32 | the pieces between delimiters, none of which holds one: joined again they are the text, but for one delimiter in front and one that ends it |
| NameText.ParseExactly | src/engine/source/base/include/base/name.hpp:28-105 | a text stands for a name exactly when it is its parts joined by '/', with or without one more '/' at either end |
| KvdbManagers.CountDown | src/engine/source/kvdb/src/refCounter.cpp:11-24 | below 2^32 one less, the others as before, and one less in the sum |
| KvdbManagers.ReleasedScopes | src/engine/source/kvdb/src/kvdbHandlerCollection.cpp:66-81 | a removal keeps that no entry counts zero and no instance is empty, and concerns one database |
| HandlerCounts.HandlerCollection.AddKVDBHandler | src/engine/source/kvdb/src/kvdbHandlerCollection.cpp:46-64 | one more for that database and scope on 32 bits, through shared instances; every other count of every database as it was |
| HandlerCounts.HandlerCollection.RemoveKVDBHandler | src/engine/source/kvdb/src/kvdbHandlerCollection.cpp:66-81 | one less on 32 bits, the scope gone with its last holder and the database with its last scope; a removal of what is not there takes no count away, and no other count changes |
| HandlerCounts.AddThenRemove | src/engine/source/kvdb/src/kvdbHandlerCollection.cpp:46-81 | removing undoes adding, even where the count wraps around |
| HandlerCounts.CountWraps | src/engine/source/kvdb/src/refCounter.cpp:6-9 | one more handler is counted as one more, and leaves no zero entry, exactly below the largest word; there the entry counts zero |
| HandlerInterleaving.NoAddIsLost | src/engine/source/kvdb/src/kvdbHandlerCollection.cpp:46-81 | in every interleaving of adds and removals, however often a scope is held, a scope is only ever added to the instance that the map holds |
| HandlerInterleaving.RunSound | src/engine/source/kvdb/src/kvdbHandlerCollection.cpp:46-81 | every step of every interleaving keeps the lock discipline, that no handler works on an instance the map no longer holds, and that databases do not share one |
| HandlerInterleaving.CountsExactly | src/engine/source/kvdb/src/kvdbHandlerCollection.cpp:46-81 | in every interleaving the counts are the numbers of handlers in every state if and only if no scope is ever held 2^32 times at once |
| HandlerCrowd.CountsGoWrong | src/engine/source/kvdb/src/kvdbHandlerCollection.cpp:46-64 | 2^32 handlers of one scope that add themselves one after the other make them go wrong |
| HandlerInterleaving.CountsLiveHandlers | src/engine/source/kvdb/src/kvdbHandlerCollection.cpp:46-81 | in such an interleaving, at rest, each count is the number of live handlers, with no zero or empty entry |
| HandlerInterleaving.FewHandlers | src/engine/source/kvdb/src/kvdbHandlerCollection.cpp:46-81 | with fewer than 2^32 handlers in all, no scope is ever held 2^32 times |
| HandlerInterleaving.RunKeeps | src/engine/source/kvdb/src/kvdbHandlerCollection.cpp:46-81 | while no scope is held 2^32 times, every step also keeps the exact counts and that only the writer sees an empty instance |
| HandlerInterleaving.NoDeadlock | src/engine/source/kvdb/src/kvdbHandlerCollection.cpp:46-81 | as long as a handler is not gone, some handler can take a step |
| HandlerInterleaving.AddAloneCounts | src/engine/source/kvdb/src/kvdbHandlerCollection.cpp:46-64 | uninterrupted, the steps of an add are the sequential call, on the fast and the slow path, whatever the counts |
| HandlerInterleaving.RemoveAloneCounts | src/engine/source/kvdb/src/kvdbHandlerCollection.cpp:66-81 | uninterrupted, the steps of a removal are the sequential call, also where the database is not listed any more |
| KvdbManagers.CountsExactly | src/engine/source/kvdb/src/kvdbManager.cpp:93-253 | in every run the counts are the numbers of live handlers all along if and only if no scope is ever held 2^32 times at once |
| KvdbManagers.ServedExactly | src/engine/source/kvdb/src/kvdbManager.cpp:151-253 | which call takes a database from under a live handler: exactly the deletion or failed load whose drop succeeds on a database with a positive multiple of 2^32 live handlers |
| KvdbManagers.RunServesExactly | src/engine/source/kvdb/src/kvdbManager.cpp:111-253 | over every run in which no scope is held 2^32 times, the handlers keep their databases all along if and only if no call is such a one |
| KvdbManagers.WrapForgets | src/engine/source/kvdb/src/kvdbManager.cpp:93-208 | from a scope counted 2^32 - 1, two handlers more and their release leave its database droppable with 2^32 - 1 handlers live |
| KvdbManagers.WrapReached | src/engine/source/kvdb/src/kvdbManager.cpp:93-208 | a run from the start gets there, and a deletion then takes the database from under all of them |
| KvdbManagers.CountsGoWrong | src/engine/source/kvdb/src/kvdbManager.cpp:93-208 | in that run the counts are not right all along |
| KvdbManagers.LiveHandlersServed | src/engine/source/kvdb/src/kvdbManager.cpp:111-253 | in every run with fewer than 2^32 live handlers, the database of a live handler is there, on the column family it was built on |
| KvdbManagers.FewCalls | src/engine/source/kvdb/src/kvdbManager.cpp:111-135 | a run of fewer than 2^32 calls never has more live handlers |
| KvdbManagers.RunKeeps | src/engine/source/kvdb/src/kvdbManager.cpp:93-253 | in every run with small scopes and no such call, databases are kept and counts are the numbers of live handlers, by scope and in sum |
| KvdbManagers.DeleteRefusedExactly | src/engine/source/kvdb/src/kvdbManager.cpp:151-164 | after every run in which no scope was held 2^32 times, a deletion is refused exactly when the live handlers are no multiple of 2^32 |
| KvdbManagers.DeleteRefused | src/engine/source/kvdb/src/kvdbManager.cpp:151-164 | with fewer than 2^32 live handlers, exactly when one of them uses the database |
| KvdbContents.FailedLoad | src/engine/source/kvdb/src/kvdbManager.cpp:220-295 | the databases with their entries after a load that failed: what was stored before the failure stays in the database, which is dropped exactly when the drop succeeds and its live handlers are a multiple of 2^32; no other database changes |
| KvdbContents.CreateFromAtomic | src/engine/source/kvdb/src/kvdbManager.cpp:220-295 | exactly when a call that fails leaves every database with the entries it had |
| KvdbContents.HalfLoaded | src/engine/source/kvdb/src/kvdbManager.cpp:220-295 | an input where it does not, although no database appears or goes |
| KvdbContents.StoredSame | src/engine/source/kvdb/src/kvdbManager.cpp:277-292 | storing entries one after the other changes nothing exactly when every key has the last value it is given |
| KvdbContents.OthersKept | src/engine/source/kvdb/src/kvdbManager.cpp:111-295 | every call, of the manager or of a handler, leaves every other database as it is, also where the handler's own was dropped under it |
| KvdbContents.HandlersReadTheirOwn | src/engine/source/kvdb/src/kvdbHandler.cpp:13-224 | in every run with fewer than 2^32 live handlers, each handler reads the database it was asked for |
| KvdbContents.ReadsLastSet | src/engine/source/kvdb/src/kvdbHandler.cpp:32-224 | what a handler stored is in its database until a call that may change that entry, whatever other calls come |
| KvdbContents.GoneAfterRemove | src/engine/source/kvdb/src/kvdbHandler.cpp:85-124 | what a handler removed stays out of its database until a call that may change that entry |
| KvdbContents.LoadLaw | src/engine/source/kvdb/src/kvdbManager.cpp:220-295 | a load without error leaves the database there, with the last value given to every key; every key not given is as it was, absent in a new database, and so is every other database |
| KvdbContents.DeleteLaw | src/engine/source/kvdb/src/kvdbManager.cpp:151-208 | while the counts are right: which error a deletion reports, by the number of live handlers, and that one that succeeds takes exactly that database away |
| KvdbContents.DoAllManaged | src/engine/source/kvdb/src/kvdbManager.cpp:111-295 | a run with entries is a run of the manager, so what is proved of its counts and handlers holds of it |
| KvdbManagerObjects.KVDBManager.GetKVDBHandlersCount | src/engine/source/kvdb/src/kvdbManager.cpp:93-109 | the loop on 32 bits gives the sum of the counts modulo 2^32 |
| KvdbManagerObjects.KVDBManager.GetKVDBHandler | src/engine/source/kvdb/src/kvdbManager.cpp:111-135 | a handler on the present column family, counted, exactly when the database exists |
| KvdbManagerObjects.KVDBManager.DestroyHandler | src/engine/source/kvdb/src/kvdbHandler.cpp:27-30 | the handler is no longer counted |
| KvdbManagerObjects.KVDBManager.Set | src/engine/source/kvdb/src/kvdbHandler.cpp:32-73 | stores the entry exactly when the column family of the handler is still there and the library does |
| KvdbManagerObjects.KVDBManager.Remove | src/engine/source/kvdb/src/kvdbHandler.cpp:85-124 | removes the entry under the same condition |
| KvdbManagerObjects.KVDBManager.Read | src/engine/source/kvdb/src/kvdbHandler.cpp:183-224 | the value in the database the handler has the name of, or an error |
| KvdbManagerObjects.KVDBManager.LoadDBFromJson | src/engine/source/kvdb/src/kvdbManager.cpp:255-295 | stores the entries up to the first that fails; without a failure every key has the last value it is given, and every other key and database is as it was |
| KvdbManagerObjects.KVDBManager.DeleteDB | src/engine/source/kvdb/src/kvdbManager.cpp:151-208 | refused, while the counts are right, exactly when the live handlers are no multiple of 2^32; without an error exactly that database is gone |
| KvdbManagerObjects.KVDBManager.CreateDB | src/engine/source/kvdb/src/kvdbManager.cpp:210-218 | a database that exists is left alone; a new one is empty |
| KvdbManagerObjects.KVDBManager.CreateDBFromFile | src/engine/source/kvdb/src/kvdbManager.cpp:220-253 | the databases and their entries after the load and the rollback, and the error of the step that failed last; no error exactly when the file is read, the database is there or can be created and every entry is stored, and then the database holds the last value given to every key and all else as it was |
| KvdbManagerObjects.GetKVDBScopesInfo | src/engine/source/kvdb/src/kvdbManager.cpp:40-77 | over every table of words, the nested loops give the transpose: the same pairs with the same counts, no empty row |
| KvdbManagerObjects.TransposedBack | src/engine/source/kvdb/src/kvdbManager.cpp:40-91 | transposing twice gives back the table exactly when no row of it was empty |
| KvdbManagerObjects.TransposedOnce | src/engine/source/kvdb/src/kvdbManager.cpp:40-77 | a table has one transpose |
| KvdbTotals.SameTotal | src/engine/source/kvdb/src/kvdbManager.cpp:40-91 | both tables have the same grand total |
| KvdbPaging.PageContent | src/engine/source/kvdb/src/kvdbHandler.cpp:226-322 | the loop gives the page of the filtered listing, every entry of it one of the database whose key begins with the prefix, or the error of a missing database, a missing column family or a failed iteration |
| KvdbPaging.PageSlice | src/engine/source/kvdb/src/kvdbHandler.cpp:288-308 | the page is its slice when its end fits in a word, and empty otherwise |
| KvdbPaging.PageZero | src/engine/source/kvdb/src/kvdbHandler.cpp:288-308 | page 0 is empty |
| KvdbPaging.PagesConcatenate | src/engine/source/kvdb/src/kvdbHandler.cpp:226-322 | while page times records fits in a word, the pages make up the listing without gap or repeat |
| KvdbPaging.PageExactly | src/engine/source/kvdb/src/kvdbHandler.cpp:288-308 | for distinct entries a page is the slice it should be if and only if its end fits in a word or both are empty |
| KvdbPaging.PagesExactly | src/engine/source/kvdb/src/kvdbHandler.cpp:226-322 | pages 1 to n make up the beginning of the listing if and only if each of them fits |
| KvdbPaging.FirstPastBound | src/engine/source/kvdb/src/kvdbHandler.cpp:288-308 | the first page whose end does not fit in a word is empty, whatever is left to show |
| KvdbPaging.PageComesAgain | src/engine/source/kvdb/src/kvdbHandler.cpp:288-289 | a page that shows something comes again exactly after a multiple of 2^32 records |
| KvdbPaging.MatchingDistinct | src/engine/source/kvdb/src/kvdbHandler.cpp:293-308 | entries with distinct keys stay distinct under the filter |
| KvdbPaging.MatchingLaw | src/engine/source/kvdb/src/kvdbHandler.cpp:232-247 | an entry is found exactly when it is in the listing and its key is the prefix and some rest; the empty prefix finds the whole listing |
| KvdbPaging.MatchingConcat | src/engine/source/kvdb/src/kvdbHandler.cpp:293-308 | the filter goes over a listing piece by piece, so the order is that of the listing |
| KvdbPaging.MatchingOne | src/engine/source/kvdb/src/kvdbHandler.cpp:293-308 | one entry is kept exactly when its key is the prefix and some rest |
| GeoManagers.Manager.Load | src/engine/source/geo/src/manager.cpp:49-113 | with an answer of its own for each document: registers what the documents tell, drops the documents of databases that do not open as far as the store does; throws exactly when a listed document has no path, no type or a type other than "city" and "asn" |
| GeoManagers.Manager.AddDbUnsafe | src/engine/source/geo/src/manager.cpp:173-229 | succeeds exactly when the type and the name are free and the file opens; then both maps have the database, and its document has path, hash and type where hash and store do not fail; otherwise nothing changes |
| GeoManagers.Manager.UpsertStoreEntry | src/engine/source/geo/src/manager.cpp:116-157 | writes the document of the database, or none when the file, the hash or the store fails |
| GeoManagers.Manager.RemoveDbUnsafe | src/engine/source/geo/src/manager.cpp:231-279 | forgets exactly the name in both maps, and its document where the store deletes it; no error exactly when the database and its document were there and the store did |
| GeoManagers.Manager.FetchContent | src/engine/source/geo/src/manager.cpp:405-450 | the first attempt with the right hash is the result when every earlier one brought nothing or another hash; an exception exactly when a hash that cannot be computed comes first, a failure exactly when no attempt decides and one brought nothing, and the last content when every one brought another hash |
| GeoManagers.Manager.RemoteUpsertDb | src/engine/source/geo/src/manager.cpp:348-508 | on each exit the state and the error, the maps inverse: up to date without a change when the stored hash is the remote one; registered without an error, the document renewed, when an attempt is the first to bring the remote hash and is written and opened; the early errors change nothing |
| GeoManagers.Manager.Ask | src/engine/source/geo/src/manager.cpp:348-403 | its part before the download: which error ends it, and that it is up to date exactly when the document of a registered database has the remote hash |
| GeoManagers.Manager.Install | src/engine/source/geo/src/manager.cpp:452-507 | no error exactly when the download is written and opens and the name or else the type allows it, and then the name is registered; a registered database that does not open is forgotten |
| GeoManagers.Manager.GetLocator | src/engine/source/geo/src/manager.cpp:510-529 | an entry of the type asked for exactly when one is registered; the lookup by name never fails |
| GeoRegistry.RunKeeps | src/engine/source/geo/src/manager.cpp:173-508 | in every run, on every exit, names by type and types by name are inverse maps |
| GeoRegistry.RunSyncs | src/engine/source/geo/src/manager.cpp:116-508 | when store, files and hashing do not fail, the documents are exactly the registered names with their types |
| GeoRegistry.Restart | src/engine/source/geo/src/manager.cpp:19-114 | after every such run, of a first manager or of one that was itself restarted, and whatever the order of the listing, a new manager registers exactly the databases that open with their types, deletes exactly the documents of the others that the store deletes, and is in step with the documents exactly when that is all of them |
| GeoRegistry.RestartAll | src/engine/source/geo/src/manager.cpp:19-114 | where all open, the same names and types and no document deleted; the same registry, paths included, exactly when documents and registry agreed on them |
| GeoRegistry.PathsAgreeExactly | src/engine/source/geo/src/manager.cpp:173-508 | a call makes them disagree exactly when it renews a registered database at another path |
| GeoRegistry.FetchOutcome | src/engine/source/geo/src/manager.cpp:405-450 | what is installed matches the hash, or every attempt brought something else and the last is taken |
| GeoRegistry.MismatchChosen | src/engine/source/geo/src/manager.cpp:405-450 | the retry loop chooses an unmatched download exactly when every attempt brought a different database |
| GeoRegistry.MismatchInstalled | src/engine/source/geo/src/manager.cpp:348-508 | a call installs an unmatched download exactly when it gets to download, every attempt brings a different database and the last can be written and opened |
| GeoRegistry.FilenameLaw | src/engine/source/geo/src/manager.cpp:173-181 | the name of a database is what stands behind the last / of its path |
| GeoLaws.FetchLaw | src/engine/source/geo/src/manager.cpp:405-450 | what the retry loop comes to, by the first attempt that decides, over all sequences of attempts |
| GeoLaws.RemoteUpsertLaw | src/engine/source/geo/src/manager.cpp:348-508 | a call whose first deciding attempt brings the remote hash, written and opened, ends without an error, with the database in both maps and its document holding the hash of the file |
| GeoLaws.UpToDateLaw | src/engine/source/geo/src/manager.cpp:388-403 | a call ends as up to date exactly when the stored hash is the remote one, and changes nothing |
| GeoLaws.RecoverThrows | src/engine/source/geo/src/manager.cpp:49-113 | whatever the documents, and whatever the world answers, the constructor throws exactly when a listed one has no path, no type or an unknown type |
| GeoRegistry.TypeFromName | src/engine/source/geo/interface/geo/imanager.hpp:32-61 | reads exactly the names of the types |
| GeoStore.EncodeReads | src/engine/source/geo/src/manager.cpp:150-154 | the three texts of the document are read back exactly when none contains NUL |
| GeoStore.UpsertRepresents | src/engine/source/geo/src/manager.cpp:147-156 | the document store never refuses what the registry writes, and then holds exactly the registry's documents |
| GeoStore.DeleteRepresents | src/engine/source/geo/src/manager.cpp:159-171 | the document store refuses a removal exactly when it has no such document |
| GeoStore.RunRepresents | src/engine/source/geo/src/manager.cpp:116-508 | along every run of the manager, its writes are a run of the document store that keeps holding exactly the registry's documents |
| GeoStore.RestartFromStore | src/engine/source/geo/src/manager.cpp:19-114 | a new manager that lists the "geo" collection after a run of one in step with the store registers exactly the databases that open, its removals take the store along, and it is in step with the store again where they all succeed |
| MmdbDump.DumpMap | src/engine/source/geo/src/locator.cpp:98-123 | writes what the list function says into the document, fault or not |
| MmdbDump.DumpArray | src/engine/source/geo/src/locator.cpp:138-156 | the same for arrays |
| MmdbDump.DumpEntryDataList | src/engine/source/geo/src/locator.cpp:171-223 | the same for every node, with the rest of the list as the measure of the mutual recursion; a scalar of each of the ten kinds stands at the path as itself or as the digits that stand for it, and a node that cannot be dumped, a bad path or a missing node is its fault and changes nothing |
| MmdbRoundTrip.DumpFlattened | src/engine/source/geo/src/locator.cpp:98-223 | dumping a flattened value consumes exactly its nodes and sets the path, and only it, to the value's JSON |
| MmdbReadBack.DumpReadsBack | src/engine/source/geo/src/locator.cpp:98-223 | what is read at the path after the dump of a value stands for it: scalars as themselves or as their digits, items in order, one member for each key with its last value |
| MmdbReadBack.LeafReadsBack | src/engine/source/geo/src/locator.cpp:171-223 | for one node of each of the ten kinds, what is read at the path holds its scalar |
| MmdbReadBack.MapLists | src/engine/source/geo/src/locator.cpp:98-123 | a map that the list ends early is dumped as far as it goes; a node that is no text where a key belongs is invalid data, and the entries before it stay |
| MmdbReadBack.ArrayLists | src/engine/source/geo/src/locator.cpp:138-156 | the same for arrays and a node of an unknown kind |
| MmdbValues.DistinctMembers | src/engine/source/geo/src/locator.cpp:108-120 | without repeated keys the members are the entries, in their order |
| MmdbExact.DumpExactly | src/engine/source/geo/src/locator.cpp:98-223 | a value without repeated keys is dumped right, at whatever place, if and only if its keys need no escape |
| MmdbPlaces.DumpBelow | src/engine/source/geo/src/locator.cpp:98-223 | for every list, fault or not, the dump below a place is the dump into the subtree, put there |
| MmdbExact.RestKept | src/engine/source/geo/src/locator.cpp:98-223 | without a fault exactly the nodes of the value are consumed, whatever its keys |
| MmdbExact.MapKeys | src/engine/source/geo/src/locator.cpp:108-120 | the members a map's dump leaves are the first tokens of its keys |
| HexText.Uint128Read | src/engine/source/geo/src/locator.cpp:47-61 | thirty-two digits after "0x" that read back as the number |
| HexText.BytesToHexString | src/engine/source/geo/src/locator.cpp:70-79 | the loop gives two digits for each byte |
| HexText.HexOfByte | src/engine/source/geo/src/locator.cpp:70-79 | which read back as that byte, at its place |
| HexText.HexDigitsOfByte | src/engine/source/geo/src/locator.cpp:70-79 | the digits of the high and the low half of the byte, in this order |
| JsonPointer.GetSet | src/engine/source/base/src/json.cpp:100-143 | what was set at a path is what is read there |
| JsonPointer.SetApart | src/engine/source/base/src/json.cpp:100-143 | setting one place leaves a place apart from it as it was exactly when it does not disturb it |
| PathCodec.DotPath.Parse | src/engine/source/base/include/base/dotPath.hpp:21-44 | the parts of the dotted path, or an exception exactly for an empty part |
| PathCodec.DotPathRefused | src/engine/source/base/include/base/dotPath.hpp:21-44 | a path is refused exactly when, a leading dot and the path of one dot behind it apart, an unescaped dot begins it, ends it or follows another; a dot is escaped by an odd number of backslashes right before it |
| PathCodec.DotPathReadsBack | src/engine/source/base/include/base/dotPath.hpp:21-44 | escaped parts, none of them empty, are read back, with a dot in front or without |
| PathCodec.RewriteChar | src/engine/source/base/src/json.cpp:699-713 | the rewriting in place replaces every occurrence of the character once |
| PathCodec.RewriteDots | src/engine/source/base/src/json.cpp:715-735 | the loop gives what the character-wise function says |
| PathCodec.FormatJsonPath | src/engine/source/base/src/json.cpp:689-745 | the three passes together, with the two special cases |
| PathCodec.FormatOneToken | src/engine/source/base/src/json.cpp:689-745 | with the dots kept, the pointer is read as the whole text in one token; the single dot gives the empty pointer and the empty text has none |
| PathCodec.FormatDotsConcat | src/engine/source/base/src/json.cpp:715-735 | the third pass depends on what came before only by whether a backslash came last |
| PathCodec.PointerReadsBack | src/engine/source/base/src/json.cpp:699-713 | a pointer made of any escaped tokens is read back as those tokens |
| PathAgreement.FormatAgrees | src/engine/source/base/src/json.cpp:689-745 | the formatted path is the pointer of the parts if and only if the path is not empty and its backslashes are regular |
| PathAgreement.SingleEscapesRegular | src/engine/source/base/src/json.cpp:722-733 | a backslash only ever before a dot is regular |
| StringUtils.SplitEscaped | src/engine/source/base/src/utils/stringUtils.cpp:60-96 | the loop gives the recursive split |
| StringUtils.Join | src/engine/source/base/src/utils/stringUtils.cpp:34-46 | the loop gives the joined text, with the separator in front when asked |
| StringUtils.UnescapeString | src/engine/source/base/src/utils/stringUtils.cpp:98-125 | the loop gives the recursive unescape |
| StringUtils.UnescapeIsSplitJoin | src/engine/source/base/src/utils/stringUtils.cpp:34-125 | unescaping a separator is splitting at it and joining with it |
| StringUtils.UnescapeInverts | src/engine/source/base/src/utils/stringUtils.cpp:98-125 | unescaping takes back an escape put before every escape and every escapable character, for any set of them |
| StringUtils.UnescapeKeeps | src/engine/source/base/src/utils/stringUtils.cpp:98-125 | a text in which no escape stands before such a character stays as it is |
| StringUtils.JoinConcat | src/engine/source/base/src/utils/stringUtils.cpp:34-46 | joining in pieces, with the separator between them |
| StringUtils.SplitInvertsJoin | src/engine/source/base/src/utils/stringUtils.cpp:34-96 | splitting gives back any parts joined with both special characters escaped |
| StringUtils.ReplaceAll | src/engine/source/base/src/utils/stringUtils.cpp:203-224 | terminates on every input, also where the text grows; changes something exactly under its guard; leaves no occurrence unless a replacement can complete one |
| StringUtils.ReplacesAllExactly | src/engine/source/base/src/utils/stringUtils.cpp:203-224 | no text keeps an occurrence if and only if no replacement can complete one |
| StringUtils.FirstReplaced | src/engine/source/base/src/utils/stringUtils.cpp:203-224 | for every pair of texts, the first occurrence gives way to the replacement, what is before it stays, and the same is done from the replacement on |
| StringUtils.NothingReplaced | src/engine/source/base/src/utils/stringUtils.cpp:203-224 | a text without an occurrence stays as it is |
| StringUtils.LessBehind | src/engine/source/base/src/utils/stringUtils.cpp:217-221 | each replacement leaves less text behind the next match |
| StringUtils.ReplacedChar | src/engine/source/base/src/utils/stringUtils.cpp:203-224 | for a single character every occurrence is replaced |
| StringUtils.OccurrenceLeft | src/engine/source/base/src/utils/stringUtils.cpp:217-221 | a text that keeps one, for every pair of texts where a replacement can |
| StringUtils.OccurrenceLeftInAab | src/engine/source/base/src/utils/stringUtils.cpp:217-221 | the least such text |

## Left out

- HTTP handlers, the catalog and resource layers, schemas, configuration, logging, expressions: plumbing around what is modelled.
- RocksDB, libmaxminddb, OpenSSL, RapidJSON and the downloader: ordered listings, parameters and a JSON tree stand for them.
- File system failures, permissions, links, torn writes and other processes: the tree is ideal.
- The locks of `Store` and `Manager`: their methods run one at a time. `updateDoc` takes only the shared lock and the internal-document calls take none, so concurrent writes of one file are not covered.
- `getKVDBHandler` concurrent with `deleteDB`: the manager takes no lock there; the runs of `KvdbManagers` are sequential, and only the collection is proved under interleaving.
- `listNamespaces`, `getDocumentKeys`, `existsPrefixName`, `listDBs`, `listDbs`, `readRoot`, `readInternalCol`, `virtualToRealCol`, `realToVirtualCol`: direct reads or element-wise maps.
- `initialize` and `finalize` of the manager: a run starts with whatever column families were found, and ends before they are released.
- Floating-point values of an MMDB entry are reals: they are copied, never computed with.
- `KVDBHandler::contains`, which answers from `KeyMayExist`: what that may miss is up to the library.
- `Locator`: lookup, its cached result and its behaviour during a reopen of the database.
- `DotPath` from a range of parts and `DotPath::fromJsonPath`, which decodes `~0` before `~1`, the opposite of section 4 of RFC 6901.
- Pointers in the URI fragment form (`#`) that RapidJSON also reads.
- The order of an `unordered_multimap` and of a directory listing is arbitrary in the model: what is proved holds for every order.
- The texts of error messages: errors are told apart by their cause.
- MmdbRoundTrip.DumpFlattened: the sizes of arrays are 32-bit numbers, as the library stores them.
- MmdbExact.DumpExactly: no map repeats a key, because a later entry of the same key can overwrite a wrong one; with repeated keys MmdbRoundTrip.DumpFlattened gives the sufficient half.
