# The agendafs note store

This project models the in-memory note store of agendafs and proves properties of it. agendafs mounts a
directory of calendar files (the vdir) as a file system: every VJOURNAL file is a note or a directory, its summary
and a file extension stored in an X- property give the filename, and a RELATED-TO entry of type PARENT places it in
the tree. In memory the program keeps a tree of nodes and a hash index from vdir names to nodes. Its handlers change
tree, index and files together, and the headline claim is that the memory is what a fresh load of the files would
build.

The project has two layers.

* Values. `Forests`, `PathMaps`, `FreeNames`, `Ical`, `Content`, `Model`, `Loads` describe the tree, the paths, the
  name search, the components, the handlers and the load as functions on immutable values. `Handlers`, `Runs`,
  `PathNames`, `Reloads`, `Agreement`, `ForeignFiles`, `FileContents`, `Transfers` and `Sizes` prove what they
  promise: the invariant of every run, the effect on every path, which nodes a path reaches, when a reload agrees,
  what each step leaves in every file, texts written and read back, and the size of directories.
* Objects. `HashMaps`, `TreeNodes`, `NodeMaps`, `Stores`, `IcalComponents` and `AgendaFs` are the program's own
  form: linked buckets relinked in place, nodes with parent pointers and growable child arrays, an index over
  them, components edited in place, and handlers that work on all of these step by step. Every handler is proved to
  take the abstract state exactly where the function of `Model` takes it, so that the theorems about values hold of
  the objects (`AgendaFs.FileSystem.TakeSteps`).

Every handler holds the reader/writer lock around its whole work, so a handler is one step and a run is any
sequence of steps.

What the code relies on without checking is stated as a precondition: the kernel's checks before a rename
(`Model.RenameAllowed`, `Agreement.IntoDirectory`), a parent named by a changed vdir file is indexed and not below
the changed node (`Model.UpdateAllowed`), new uids are fresh (`Model.FreshUid`), only childless nodes are deleted, a
path has at most 255 segments (`Stores.MAX_SEGMENTS`), the root is never written or removed, and the index holds
fewer than 2^24 entries, the range in which the comparison with the load factor in single precision is exact. A file
of uid `u` is called `u.ics`.

Names, paths and texts are C strings: no character is NUL. The load factor `0.70f` is the fraction
11744051 / 2^24. Reading and writing a calendar file is the identity on component records, except that an empty
SUMMARY or DESCRIPTION reads back as absent (ical_extra.c:440-442 says so of X- values; fuse_node.c:110-116 removes an
empty description before writing).

Six promises do not hold for all inputs. For each there is an exact condition on the state before, and a concrete
input or a lemma about all failing inputs.

* A filename is stored and read back exactly when it has a non-empty base and no trailing dot
  (`Ical.NewEntryRoundTrip`, `Counterexamples.TrailingDotIsLost`, `Counterexamples.HiddenFileIsLost`).
* A renamed file keeps its old extension when the new name has no dot (`Ical.RenamedRoundTrip`,
  `Counterexamples.OldExtensionStays`).
* After a move from a directory to the root the file still names the old parent, because that branch writes nothing
  (`Agreement.RenameAgrees`, `Counterexamples.ReloadCanDisagree`).
* A creation whose directory is missing or is a file leaves its node in the index, attached to nothing
  (`Agreement.CreateAgrees`, `Agreement.FailedCreateLeavesNode`, `Counterexamples.NodeIsLeftBehind`).
* A load, or a notification about a file of another program, marks the file of a parent as a directory; the note
  "a.txt" is then called "a" by the next load (`ForeignFiles.LoadReloads`, `ForeignFiles.ForeignEditReloads`,
  `Counterexamples.MountRenamesParent`).
* A foreign file whose summary has a slash gives a node that no path leads to (`PathNames.ReachedIffSpelled`,
  `PathNames.StepKeepsTidy`, `PathNames.UntidyIsLost`).

So the headline claim is proved in this form. From an empty vdir, after every run of creations, removals, renames,
writes and notifications about the program's own writes in which no step is one of the first four exceptions, every
load of the files, in whatever order they are listed, rebuilds the names and parents in memory
(`Agreement.RunReloads`). A single such step from an agreeing state keeps the agreement if it is none of them, and
otherwise no load rebuilds memory, in any order (`Agreement.StepReloads`). For a load itself, and for any change that
another program makes to a file within the assumptions above, the condition is exact as well
(`ForeignFiles.LoadReloads`, `ForeignFiles.ForeignEditReloads`).

Where code and comments disagree the model follows the code: the stored mark of a missing extension is a single dot
(ical_extra.c:440-450, the comment says two), and a write to a missing node reports ENONET (main.c:239).

## Model

| member | source | states |
|---|---|---|
| Fnv.Fnv1aHash | hashmap.c:51-58 | the byte loop computes the hash defined by recursion on the key |
| Fnv.PrimeInvertible | hashmap.h:36-37 | multiplying by the prime modulo 2^32 is undone by its inverse 0x359C449B, for every 32-bit word |
| Fnv.StepInjectiveInState | hashmap.c:44-49 | for a fixed byte, two states lead to the same state exactly when they are equal |
| Fnv.StepInjectiveInByte | hashmap.c:44-49 | from a fixed state, two bytes lead to the same state exactly when they are equal |
| Fnv.CommonSuffixCollision | hashmap.c:51-58 | keys with a common ending collide exactly when what comes before it collides |
| Fnv.OneByteApartNeverCollides | hashmap.c:51-58 | keys that differ in one byte at most collide only when they are equal |
| Fnv.XorBit | hashmap.c:48-48 | every bit of the byte-wise mixing is the exclusive or of the bits mixed |
| Fnv.PublishedValues | hashmap.c:44-58 | the hash of the empty string is 0x811c9dc5 and the hash of "a" is 0xe40c292c, as published for FNV-1a |
| HashMaps.SlotOfDoubled | hashmap.c:166-166 | the slot after doubling the capacity determines the slot before it |
| HashMaps.AppendBucket | hashmap.c:176-181 | appending at the tail extends exactly one chain; every other slot keeps its head |
| HashMaps.RelinkChain | hashmap.c:160-182 | rewriting the next links of one old chain hands each of its buckets to the new chain its hash selects, in order, and disturbs no other chain |
| HashMaps.RelinkTable | hashmap.c:156-191 | after the whole loop every chain of the new table is old chain (j mod c) filtered to hash mod 2c = j, in the old order |
| HashMaps.Rehash | hashmap.c:143-198 | the doubled table holds the same keys and values and is properly linked, placed and free of duplicates |
| HashMaps.PlacedResize | hashmap.c:166-181 | the doubled chains again hold every bucket where its stored hash says, with no key twice |
| HashMaps.ResizeKeeps | hashmap.c:156-191 | no bucket is lost by a resize |
| HashMaps.ResizeTakes | hashmap.c:156-191 | a resize puts no bucket into a chain it was not in line for |
| HashMaps.BucketsOfResize | hashmap.c:156-191 | the set of buckets is the same before and after |
| HashMaps.Seek | hashmap.c:276-283 | the search loop finds the bucket of the key, or null exactly when the chain has none |
| HashMaps.Overwrite | hashmap.c:231-240 | reassigning a found bucket changes the value of its key and nothing else |
| HashMaps.AddBucket | hashmap.c:218-252 | a new bucket at the end of its chain adds exactly one key |
| HashMaps.UnhookAt | hashmap.c:320-327 | unlinking a bucket leaves the chain without it, order kept, other chains untouched |
| HashMaps.Unhook | hashmap.c:315-335 | the trailing-pointer loop unlinks the bucket of the key, or reports that the chain has none |
| HashMaps.DropBucket | hashmap.c:338-348 | removal takes out exactly the bucket of the key |
| HashMaps.CollectKeys | hashmap.c:410-421 | the double loop writes every stored key once and never beyond n_buckets slots |
| HashMaps.ListedKeysDistinct | hashmap.c:414-421 | no key is listed twice |
| HashMaps.ListedKeysComplete | hashmap.c:414-421 | exactly the stored keys are listed |
| HashMaps.HashMap.constructor | hashmap.c:89-109 | a new map is empty with 16 slots |
| HashMaps.LoadLimit | hashmap.h:15-15 | the load limit is the single-precision number nearest to 0.7, so sixteen slots double with the twelfth entry |
| HashMaps.HashMap.Resize | hashmap.c:143-198 | the capacity doubles; contents and counter stay |
| HashMaps.HashMap.Insert | hashmap.c:200-255 | the map becomes the old one with the key set; the counter grows by one even on an overwrite; the table doubles exactly when the load factor would be exceeded, and once is always enough |
| HashMaps.HashMap.Get | hashmap.c:257-301 | returns the value the map holds for the key, none if there is none |
| HashMaps.HashMap.Remove | hashmap.c:338-371 | the map loses exactly the key; the error flag says whether it was missing; the counter drops by one on success only |
| HashMaps.HashMap.GetKeys | hashmap.c:404-425 | lists each stored key exactly once in an array of n_buckets slots |
| HashMaps.LastOperationDecides | hashmap.c:200-371 | what a history of insertions, removals and lookups leaves for a key is the value inserted last and not removed since, or nothing if every insertion was followed by a removal |
| HashMaps.Perform | hashmap.c:200-371 | the table after any history of calls holds what the history leaves, and every lookup in it returned the value inserted last and not removed since |
| Paths.GetFilename | path.c:52-59 | the filename is the end of the path, has no slash, and is the whole path or follows a slash |
| Paths.GetParentPath | path.c:61-78 | there is a parent path exactly when there is a slash; it is never empty, and the path is the parent path, a slash and the filename, or a slash and the filename below "/" |
| Paths.ExtensionParts | path.c:10-33 | for a name base.ext without slash, where ext has no dot, the extension is ext and the name without it is base |
| Paths.NoExtension | path.c:10-33 | a name without dot has no extension and is not cut, and a dot in a directory before it does not count |
| Paths.SplitPath | path.c:80-95 | the token loop yields the segments between slashes |
| Paths.SplitSegmentsAreValid | path.c:80-95 | every segment is non-empty and has no slash |
| Paths.SplitAtSlash | path.c:80-95 | splitting a/b is splitting a, then splitting b |
| Paths.SplitParentAndFilename | path.c:52-95 | the segments of a path are those of its parent path followed by its filename |
| Paths.SplitJoin | path.c:80-95 | joining valid names and splitting gives the names back |
| Paths.DecimalInjective | path.c:126-129 | different numbers are printed differently |
| Paths.DecimalIsNumeral | path.c:126-129 | the printed number has digits only, no leading zero, and the positional value of the number |
| Paths.NumeralUnique | path.c:126-129 | no other string has these three properties |
| Paths.NumberedParts | path.c:113-135 | number n makes base.n.ext of base.ext when ext has no dot, and name.n of a name without dot, n being the decimal numeral |
| Paths.NumberedKeepsExtension | path.c:113-135 | a numbered filename has the extension it had |
| Paths.FilenameNumberedInjective | path.c:113-135 | numbered variants differ for different numbers and are never the unnumbered name |
| FreeNames.CandidatesDiffer | path.c:110-135 | the names tried in the search are pairwise different |
| FreeNames.SomeCandidateFree | fuse_node_store.c:142-159 | by pigeonhole one of the first child_count + 1 names tried is free |
| FreeNames.FreeName | fuse_node_store.c:131-163 | the name found is taken by no sibling, and every earlier one in the order f, f.1, f.2, ... is taken |
| FreeNames.FreeNameIsFirst | fuse_node_store.c:142-159 | the first free candidate is the one chosen |
| FreeNames.FreeNameSpelled | fuse_node_store.c:142-159 | for base.ext the name found is base.ext, or base.d.ext for the numeral d of the least number that makes it free |
| FreeNames.FreePlainSpelled | fuse_node_store.c:142-159 | for a name without dot it is the name, or name.d for the numeral d of the least number that makes it free |
| FreeNames.FreeNameKeepsExtension | fuse_node_store.c:142-159 | the name found has the extension of the name asked for |
| FreeNames.AddFuseChildLinked | fuse_node_store.c:131-163 | whatever name the child had, sibling names are distinct afterwards, links agree, and no other node is renamed |
| FreeNames.FreeNameKept | fuse_node_store.c:142-159 | a name no sibling has is kept |
| Forests.DetachLinked | tree.c:101-126 | detaching keeps parent pointers and child lists in agreement and clears exactly one parent |
| Forests.AppendLinked | tree.c:40-54 | appending a detached node keeps them in agreement |
| Forests.AppendSiblings | tree.c:40-54 | plain appending keeps sibling names distinct exactly when the name is free under the new parent |
| Forests.MoveOrder | tree.c:101-133 | a moved node becomes the last child of its parent, and all other children keep their order |
| Forests.DropLinked | fuse_node_store.c:91-98 | dropping a detached childless node leaves no reference to it |
| Forests.ReparentAcyclic | tree.c:128-133 | hanging a node anywhere outside its own subtree creates no cycle |
| PathMaps.ReachableIsNamed | fuse_node.c:42-76 | the ancestor names of every node below the root name it |
| PathMaps.LookupIffNamed | fuse_node.c:42-76 | a lookup returns a node exactly when the segments are the names of its ancestors and its own, from the root down |
| PathMaps.PathUnique | fuse_node.c:42-76 | a node has at most one path |
| PathMaps.LookupAppend | fuse_node.c:54-74 | walking along a followed by b is walking along b from where a leads |
| PathMaps.MoveRefinesPaths | fuse_node.c:751-799 | after a move, new path + s finds what old path + s found, old path + s finds nothing, all other paths are unchanged |
| PathMaps.LeafRefinesPaths | fuse_node.c:640-672 | a new leaf adds exactly its own path |
| Ical.GetXAfterSet | ical_extra.c:405-419 | a set X- property reads back exactly when no second property of that name holds another value; other names are unaffected |
| Ical.SetXUnique | ical_extra.c:405-419 | with distinct names, setting always takes effect and keeps the names distinct |
| Ical.RemoveXUnique | ical_extra.c:354-373 | removing leaves no property of the name when names were distinct |
| Ical.GetXIsFirst | ical_extra.c:14-35 | a property reads as the value of the first entry of its name, and as none exactly when no entry has the name |
| Ical.RemoveXIsFirst | ical_extra.c:354-373 | removing takes out the first entry of the name, keeps the order of the rest, and leaves a list without the name alone |
| Ical.SetXReplaces | ical_extra.c:405-419 | setting takes out the first entry of the name and appends the new one |
| Ical.FirstParentIsFirst | ical_extra.c:263-280 | the parent is the uid of the first relation whose type is PARENT; a relation without RELTYPE is none |
| Ical.IsDirectoryMeans | ical_extra.c:108-128 | a component is a directory exactly when some relation is of type CHILD or the first X-CALDAVFS-ISDIRECTORY is YES |
| Ical.DecodeMeans | fuse_node.c:198-219 | a directory is called by its summary, a file by its summary and its stored extension, or the default extension where none is stored, or by the summary alone where the extension is empty or a dot |
| Ical.MarkMeans | ical_extra.c:470-474 | the directory mark is appended in place of the first one; uid, summary, text, relations and the values of all other X- properties stay |
| Ical.WrittenMeans | fuse_node.c:110-116 | writing takes out an empty description and nothing else |
| Ical.NewDirectoryMeans | ical_extra.c:187-218 | the component of a new directory: uid, summary and the directory mark |
| Ical.NewEntryMeans | ical_extra.c:220-261 | the component of a new file: the name cut at the last dot into summary and extension property, a dot standing for no extension |
| Ical.RenamedMeans | fuse_node.c:151-176 | renaming to base.ext sets the summary (of a directory to the whole name), replaces the first extension property, and leaves uid, text, relations and the values of all other X- properties alone |
| Ical.RenamedWithoutDot | fuse_node.c:151-176 | renaming to a name without dot sets the summary and leaves every X- property alone |
| Ical.NewEntryRoundTrip | ical_extra.c:220-261 | a new file decodes to its name exactly when the name has a non-empty base and no trailing dot |
| Ical.NewDirectoryRoundTrip | ical_extra.c:187-218 | a new directory decodes to its name exactly when the name is not empty |
| Ical.RenamedRoundTrip | fuse_node.c:151-176 | a renamed component decodes to the new name exactly when the name is storable and, if it has no dot, no extension was stored |
| Ical.RenamedKeeps | fuse_node.c:151-176 | renaming changes neither the uid, the relations nor whether the component is a directory |
| Ical.RelinkParent | ical_extra.c:282-327 | replacing the parent link removes every link to the old parent, appends one to the new, keeps all else in order; the new parent is read back exactly when no stray link comes first |
| Ical.SingleParentLink | ical_extra.c:263-327 | one parent link becomes one parent link to the new parent |
| Ical.FirstParentLink | ical_extra.c:311-327 | a component without parent link gets exactly one |
| Ical.RelationsWithoutParent | ical_extra.c:282-309 | removal drops the links to that parent only |
| Ical.RelinkedDecodes | fuse_node.c:139-148 | relinking and writing change neither the decoded name nor whether it is a directory |
| IcalComponents.IcalComponent.GetUniqXValue | ical_extra.c:14-35 | the loop finds the first property of the name |
| IcalComponents.IcalComponent.RemoveXProp | ical_extra.c:354-373 | the loop takes out the first property of the name and stops; every other field is unchanged |
| IcalComponents.IcalComponent.SetUniqueXValue | ical_extra.c:405-419 | the property list becomes the old one without the first of that name, then the new property |
| IcalComponents.IcalComponent.SetExtension | ical_extra.c:443-457 | an empty extension is stored as a dot |
| IcalComponents.IcalComponent.GetExtension | ical_extra.c:459-468 | a stored dot reads as the empty extension, a missing property as none |
| IcalComponents.IcalComponent.IsDirectoryComponent | ical_extra.c:108-128 | true exactly when some relation is of type CHILD or the first X-CALDAVFS-ISDIRECTORY property says YES |
| IcalComponents.IcalComponent.Mark | ical_extra.c:470-474 | the first directory mark is replaced by YES at the end of the list; every other field is unchanged |
| IcalComponents.IcalComponent.ParentUid | ical_extra.c:263-280 | the uid of the first PARENT relation |
| IcalComponents.IcalComponent.RemoveParentRelation | ical_extra.c:282-309 | removing while iterating drops every PARENT relation to that uid and keeps the rest in order |
| IcalComponents.IcalComponent.AddParentRelation | ical_extra.c:311-327 | one relation is appended, nothing else changes |
| IcalComponents.IcalComponent.InsertDescription | ical_extra.c:329-340 | once written, the component is the old one with the text cut at the offset and the buffer appended |
| Content.Rstrins | arena.c:75-97 | the stream holds the old text up to the offset, then the buffer |
| Content.OneWrite | main.c:246-252 | a write leaves old[..min(offset, length)] followed by the buffer |
| Content.ChunkedWrite | main.c:224-255 | writing a text in any consecutive chunks from offset 0 leaves exactly that text |
| Content.ChunkedRead | main.c:198-217 | consecutive reads of any sizes give back the text up to their end |
| Content.WriteThenRead | main.c:179-255 | what was written in chunks is read back in chunks |
| TreeNodes.TreeNode.PushChild | tree.c:40-54 | the child list grows by one at the end; a full array is replaced by one of twice the size, or of size four |
| TreeNodes.TreeNode.RemoveChild | tree.c:108-122 | the child list loses the first occurrence of the child, order kept |
| TreeNodes.TreeNode.CloseGap | tree.c:118-122 | shifting left removes exactly the element at the index |
| NodeMaps.AttachNode | tree.c:40-54 | the fields of all nodes spell out the forest with the child appended; every other node is untouched |
| NodeMaps.DetachFrom | tree.c:101-126 | the fields of all nodes spell out the forest with the child detached |
| NodeMaps.NewNode | tree.c:8-22 | a fresh node joins the others without parent and children |
| NodeMaps.NothingPointsTo | tree.c:71-84 | no parent field and no child array refers to a detached childless node, so freeing it leaves no dangling reference |
| NodeMaps.NodeFreed | tree.c:71-84 | the remaining nodes spell out the forest without the freed one |
| Stores.Store.constructor | fuse_node.c:255-256 | an empty index and a lone root |
| Stores.Store.AddChild | tree.c:40-54 | the tree of the store becomes the old one with the child appended; the index still maps each vdir name to its node |
| Stores.Store.DetachTreeNode | tree.c:101-126 | the tree becomes the old one with the node detached; the result says whether it had a parent |
| Stores.Store.MoveNode | tree.c:128-133 | detach, then append, on the same tree |
| Stores.Store.SetNodeFilename | fuse_node_store.c:47-54 | one node is renamed |
| Stores.Store.CreateFuseNode | fuse_node_store.c:100-112 | the new node is indexed under its vdir name and hangs nowhere |
| Stores.Store.FreshId | fuse_node_store.c:56-60 | the index holds a vdir name exactly when a live node has it, and then that node |
| Stores.Store.GetFuseNodeFromVdirName | fuse_node_store.c:56-60 | null exactly when no live node has the vdir name, else that node |
| Stores.Store.UpsertFuseNode | fuse_node_store.c:114-127 | renames the indexed node or creates it; never inserts a key twice |
| Stores.Store.DeleteFuseNode | fuse_node_store.c:91-98 | index and tree lose exactly the childless node, and everything left is consistent without it |
| Stores.Store.FreeTree | tree.c:71-84 | a detached childless node leaves the store and nothing else changes |
| Stores.Store.GetNodeByPath | fuse_node.c:42-76 | the nested loops compute the lookup of the split path |
| Stores.Store.AddFuseChild | fuse_node_store.c:131-163 | the child is appended under the first free name |
| Stores.Store.MoveFuseNode | fuse_node_store.c:165-170 | detach, then append under the first free name |
| Stores.FindChild | fuse_node.c:59-68 | the inner loop finds the first child of the name, or null when there is none |
| Stores.IsUnique | fuse_node_store.c:143-152 | the inner loop decides whether a sibling has the name |
| Stores.UniqueFilename | fuse_node_store.c:134-159 | the endless loop ends, at the first free name |
| Model.GetNode | fuse_node.c:42-76 | a node found by a path hangs in the tree and, unless it is the root, has its file |
| Model.DeleteInv | fuse_node.c:801-817 | deleting a leaf keeps the invariant |
| Model.DeletePaths | fuse_node.c:801-817 | deleting a leaf removes its path and no other |
| Handlers.CreateEffect | main.c:339-364 | creating keeps the invariant; on success exactly one path is added, on an error no path and no file changes |
| Handlers.MissingPathIsFree | main.c:351-355 | the handler's lookup is what makes the name free under the parent |
| Handlers.NodeIsDirectoryMeans | fuse_node.c:78-91 | a node is a directory exactly when it is the root, has children, or its component has a CHILD relation or the first mark YES |
| Handlers.DeleteEffect | fuse_node.c:801-817 | a deletion is the inverse of adding one path |
| Handlers.UnlinkEffect | main.c:257-281 | unlink answers ENOENT exactly for a missing path, and succeeds exactly on a node that is not the root, has no children, and whose component has neither a CHILD relation nor YES as its first mark; then exactly one path and one file go, and otherwise nothing changes |
| Handlers.RmdirEffect | main.c:283-311 | rmdir answers ENOENT exactly for a missing path, ENOTEMPTY exactly for a node with children, and succeeds exactly on a node without children whose component has a CHILD relation or YES as its first mark; then exactly one path and one file go, and otherwise nothing changes |
| Handlers.RenameEffect | main.c:313-337 | rename keeps the invariant; on success the subtree at the source is at the target, nothing is left at the source, all other paths are unchanged; an error changes nothing |
| Handlers.RenameFiles | main.c:313-337 | a rename writes the moved node's file, removes an overwritten one, and touches no other |
| Handlers.RenameKeepsSingleLink | fuse_node.c:774-794 | after a rename into a directory the file has one PARENT relation, to that directory, and its other relations in order |
| Handlers.UpsertMoveLinked | fuse_node_store.c:114-170 | from the state in which only the name was changed, the move restores distinct sibling names |
| Handlers.VdirUpdateEffect | fuse_node.c:710-749 | only the changed node moves or is renamed: it ends under the parent its file names, with the decoded name or the first free variant |
| Handlers.VdirUpdateStutters | fuse_node.c:710-749 | when the file says what memory says, no name, no parent and no path changes; the node becomes the last child |
| Runs.StepKeepsInv | main.c:155-364 | every step keeps the invariant: links agree both ways, no cycle, sibling names distinct, attached nodes have files |
| Runs.Run | main.c:155-364 | the invariant holds after every run |
| Runs.RunPathsAreExact | fuse_node.c:42-76 | after every run a list of names or a path leads to a node exactly when it lists the names of its ancestors and its own |
| PathNames.JoinedPathLeadsBack | fuse_node.c:42-76 | looking up the path built from the ancestor names of a node gives the node |
| PathNames.FoundIsSpelled | fuse_node.c:42-76 | a node found by a path has the segments of the path as its ancestor names |
| PathNames.ReachedIffSpelled | fuse_node.c:42-76 | some path leads to a node exactly when it is below the root and none of the names on the way is empty or has a slash |
| PathNames.TidyIsReachable | fuse_node.c:42-76 | when all attached names can stand in a path, a path leads to a node exactly when it is below the root |
| PathNames.UntidyIsLost | fuse_node.c:42-76 | no path leads to a node whose own name cannot stand in one |
| PathNames.StepKeepsTidy | main.c:155-364 | a step keeps all attached names fit for paths exactly when it is no notification about a file that decodes to an unfit name |
| PathNames.RunReachesAll | main.c:155-364 | after every run of such steps a path leads to every node below the root and to no other |
| PathNames.LoadIsTidy | fuse_node.c:252-333 | a load gives attached nodes fit names exactly when the files that ask for a parent decode to fit names |
| Loads.SpawnedStep | fuse_node.c:264-284 | reading one more file adds its node exactly when the file can be loaded |
| Loads.HasIcsMeans | fuse_node.c:271-271 | a file counts when .ics comes anywhere in its name |
| Loads.OrdersArePermutations | fuse_node.c:288-290 | the orders in which the keys may be listed are the permutations of any one of them |
| Loads.LoadIsOrderIndependent | fuse_node.c:290-326 | for every order of the keys each node ends under the parent its file names: the root if none, nothing if the named file is missing |
| Loads.LoadReachability | fuse_node.c:290-326 | a node is reachable from the root exactly when its chain of parent uids ends at a file without parent |
| Loads.ChainsStopIffAcyclic | fuse_node.c:302-311 | parent pointers have no cycle exactly when no chain of parent uids runs in a circle |
| Loads.LoadInv | fuse_node.c:252-333 | a load establishes the invariant exactly when no chain of parent uids runs in a circle |
| Loads.PlaceAllKeepsNames | fuse_node_store.c:131-163 | when files under one parent decode to different names the load renames nothing |
| Reloads.ReloadIffDiskAgrees | fuse_node.c:252-333 | every load in every order rebuilds memory exactly when the files decode to the names and parents in memory |
| Reloads.PlacedName | fuse_node_store.c:131-163 | a load gives each file its decoded name or a numbered variant of it |
| Reloads.AstrayIsNeverRebuilt | fuse_node.c:252-333 | a file that names another parent than memory has, or decodes to nothing the name in memory can come from, makes every load in every order differ from memory |
| Reloads.UnreadableIsNeverRebuilt | fuse_node.c:252-333 | so does a node without a readable file |
| Reloads.DiskAgreesIffEachFile | fuse_node.c:178-226 | that holds exactly when it holds of each file by itself |
| Agreement.CreateStatus | main.c:339-364 | which creations are refused and with which error, which fail for want of a directory and with which error, and which succeed |
| Agreement.CreateWrites | fuse_node.c:640-708 | a successful creation adds one leaf and writes its file with the link to its directory |
| Agreement.FailedCreateLeavesNode | fuse_node.c:648-660 | a creation without directory leaves a detached node, and no load, in any order, rebuilds memory |
| Agreement.CreateAgrees | fuse_node.c:640-708 | a creation keeps memory and files in agreement exactly when it is refused at once, or has its directory and a storable name; otherwise no load rebuilds memory |
| Agreement.DeleteAgrees | fuse_node.c:801-817 | a deletion always keeps the agreement |
| Agreement.RenameStatus | main.c:313-337 | a rename answers EINVAL exactly when the target directory is missing, ENOTEMPTY exactly when a node with children is in the way, and succeeds otherwise |
| Agreement.RenameAgrees | fuse_node.c:751-799 | a rename keeps the agreement exactly when it is refused, or the name survives being stored and the node does not move from a directory to the root; otherwise no load rebuilds memory |
| Agreement.WriteAgrees | main.c:224-255 | a write keeps the agreement |
| Agreement.NotificationAllowed | fuse_node.c:729-733 | a notification about a file the program wrote meets the unchecked assumptions |
| Agreement.NotificationAgrees | fuse_node.c:710-749 | and keeps the agreement |
| Agreement.StepReloads | main.c:155-364 | from an agreeing state, after a faithful step every load in every order rebuilds memory, and after any other step none does |
| Agreement.FaithfulRunAgrees | main.c:155-364 | agreement is kept through every run of faithful steps |
| Agreement.RunReloads | fuse_node.c:252-326 | from an empty vdir, after every run of faithful steps every load rebuilds the tree in memory |
| ForeignFiles.MarkedDecodes | fuse_node.c:309-314 | marks on a file change its decoded name exactly when they turn a plain file with an extension into a directory, and then cut the extension off |
| ForeignFiles.MarkTakes | ical_extra.c:470-474 | with every property listed once the first mark takes |
| ForeignFiles.LoadMarks | fuse_node.c:302-314 | a load leaves a file as it was, marked once for each readable file that names it as its parent |
| ForeignFiles.LoadReloads | fuse_node.c:252-333 | memory after a load is what the next load builds exactly when no two files under one parent decode to the same name and no parent loses its extension to its mark |
| ForeignFiles.ParentLosesExtension | fuse_node.c:309-314 | a plain file with an extension that another file names as its parent breaks the agreement at the first load |
| ForeignFiles.ForeignEditReloads | fuse_node.c:710-749 | after another program wrote any component to any file, memory is what the next load builds exactly when the file still decodes or had no node, it is not the missing parent of another file, its parent loses no extension, and its name is free |
| FileContents.CreatedDirectory | fuse_node.c:640-708 | mkdir adds the file uid.ics with the name as summary, the directory mark, and a PARENT relation to its directory unless that is the root; no other file changes |
| FileContents.CreatedFile | fuse_node.c:640-708 | creating base.ext adds the file uid.ics with summary base, extension ext, no text, and the PARENT relation; no other file changes |
| FileContents.CreatedPlainFile | fuse_node.c:640-708 | creating a name without dot stores it as the summary and a dot as the extension |
| FileContents.CreatedFileIsEmpty | fuse_node.c:588-708 | a new file has size zero |
| FileContents.CreateOrder | fuse_node.c:640-708 | the new node has the filename of the path and is the last child of its directory |
| FileContents.RenameContents | fuse_node.c:751-799 | after a rename the file has its old uid and text, the old value of every X- property but the extension, the old properties in order with the first extension property replaced (none touched when the name has no dot), the new summary, its other relations in order, and the link to the old directory replaced by one to the new, or all links as before when it moved to the root |
| FileContents.RenameOrder | fuse_node.c:751-799 | the renamed node is the last child of its directory, and all other children keep their order |
| FileContents.WriteOutcome | main.c:224-255 | which writes are refused with which error; a write changes the text of one file to old[..min(offset, length)] followed by the buffer, and no other field, file or node |
| FileContents.LoadContents | fuse_node.c:302-314 | a load changes only readable files that another readable file names in its first PARENT relation and that are no directories yet; those keep uid, summary, text, relations and every X- property but the mark |
| FileContents.NotifiedContents | fuse_node.c:710-749 | a handled notification changes no file but that of the named parent, the changed file included; that one is a directory already and stays as it was, or gets the mark and keeps uid, summary, text, relations and every other X- property |
| FileContents.NotifiedName | fuse_node.c:710-749 | the node of a changed file is called by summary and extension, or by the first numbered variant that no sibling has |
| FileContents.UnreachedKeepsName | fuse_node.c:290-326 | a file that no other file of its parent can be numbered into keeps its decoded name in a load, in whatever order |
| FileContents.LoadableMeans | fuse_node.c:264-284 | a load reads a file exactly when .ics comes in its name and it has a summary |
| FileContents.LoadedNameMeans | fuse_node.c:178-326 | a load calls a file by summary and extension or a numbered variant of that, and by exactly that when no other file of its parent disputes the name |
| FileContents.NumberedMeans | path.c:110-135 | the variants of base.ext are base.ext and base.d.ext for the numerals d from 1 on; those of a name without dot end in the numeral |
| FileContents.DefaultExtensionUsed | fuse_node.c:205-218 | a file without stored extension, no directory, whose name is not disputed is called summary.ext after a load, ext being the default extension, or by the summary alone when that is empty |
| Transfers.ChunksWritten | main.c:224-255 | a run of write calls at consecutive offsets changes one file, and the path still leads to it |
| Transfers.WrittenIsRead | main.c:179-255 | what such a run writes is what consecutive reads of the path return, whatever the file held before; the tree and all other files are unchanged |
| Transfers.WrittenSize | fuse_node.c:588-603 | the size of a file is the length of the text written to it |
| Sizes.ChildBelow | fuse_node.c:597-601 | a child's subtree is strictly smaller, so the recursion ends |
| Sizes.NodeSizeIsTotal | fuse_node.c:588-603 | the size of a node is the sum of the text lengths of the files at or below it |
| Sizes.MoveAccounting | fuse_node.c:588-603 | a move changes the size of the root exactly by the new parent ceasing to be a file and the old one becoming one |
| Sizes.MoveConservesSize | tree.c:128-133 | between directories the size is conserved when every node with children is marked |
| Sizes.DeleteAccounting | fuse_node.c:801-817 | a deletion takes exactly the deleted text out of the size, save for an unmarked parent becoming a file |
| Sizes.RenameConservesSize | main.c:313-337 | a rename that overwrites nothing conserves the size of the root |
| Sizes.RenameSize | main.c:313-337 | in general it loses exactly the text of the overwritten file |
| AgendaFs.FileSystem.constructor | fuse_node.c:252-333 | for every directory listing the objects built are the load of the files in some order |
| AgendaFs.FileSystem.ReadEntries | fuse_node.c:264-285 | the first loop creates one detached node per loadable file |
| AgendaFs.FileSystem.PlaceEntries | fuse_node.c:288-326 | the second loop, over the keys of the index, places every node as the model does |
| AgendaFs.FileSystem.NodeAt | fuse_node.c:42-76 | finds the node the model's lookup finds |
| AgendaFs.FileSystem.IsDirectoryNode | fuse_node.c:78-91 | true exactly for the root, a node with children, and a component with a CHILD relation or YES as its first mark |
| AgendaFs.FileSystem.WriteIcalFile | fuse_node.c:93-123 | the file becomes the component without an empty description, and no other file changes |
| AgendaFs.FileSystem.InsertFuseNodeToPath | fuse_node.c:640-672 | refines the model's insertion, error statuses included |
| AgendaFs.FileSystem.FuseCreate | main.c:339-364 | refines the model's creation; fuse_mkdir (main.c:155-177) is the same with the other entry type |
| AgendaFs.FileSystem.DeleteVdirEntry | fuse_node.c:801-817 | refines the model's deletion of tree, index and file |
| AgendaFs.FileSystem.FuseUnlink | main.c:257-281 | refines the model's unlink, status included |
| AgendaFs.FileSystem.FuseRmdir | main.c:283-311 | refines the model's rmdir, status included |
| AgendaFs.FileSystem.DoAgendaRename | fuse_node.c:751-799 | refines the model's rename of a found node: tree and all writes to the file |
| AgendaFs.FileSystem.FuseRename | main.c:313-337 | refines the model's rename with its overwriting of the target |
| AgendaFs.FileSystem.ParseFilename | fuse_node.c:198-219 | no name without summary; a directory is called by its summary, a file by its summary and its stored extension, the default one where none is stored |
| AgendaFs.FileSystem.UpdateFromVdir | fuse_node.c:710-749 | refines the model's vdir update |
| AgendaFs.FileSystem.HandleVdirEvent | main.c:727-756 | a created or modified file is handled when its name has the extension, and ignored otherwise |
| AgendaFs.FileSystem.FuseWrite | main.c:224-255 | refines the model's write and returns the byte count or the error |
| AgendaFs.FileSystem.FuseRead | main.c:179-222 | copies exactly the slice of the text, or reports the error |
| AgendaFs.FileSystem.ReadAll | main.c:179-222 | a loop of reads returns the slices of the text one after the other |
| AgendaFs.FileSystem.CalculateNodeSize | fuse_node.c:588-603 | the recursion over the nodes ends and returns the model's size |
| AgendaFs.FileSystem.TakeStep | main.c:155-364 | one handler call takes the objects where the model's step takes the value |
| AgendaFs.FileSystem.TakeSteps | main.c:155-364 | so does every allowed run, and the invariant holds afterwards |
| Counterexamples.TrailingDotIsLost | ical_extra.c:220-261 | a file created as "a." is read back as "a" |
| Counterexamples.HiddenFileIsLost | ical_extra.c:220-261 | a file created as ".a" is not read back |
| Counterexamples.OldExtensionStays | fuse_node.c:165-176 | a file "a.txt" renamed to "b" is read back as "b.txt" |
| Counterexamples.SecondPropertyWins | ical_extra.c:354-373 | with a property listed twice a set has no effect |
| Counterexamples.NodeIsLeftBehind | fuse_node.c:648-660 | creating /d/f in an empty tree reports ENOENT and leaves a node; no load, in any order, rebuilds memory |
| Counterexamples.ReloadCanDisagree | fuse_node.c:787-797 | mkdir /d, create /d/f, rename /d/f to /f: no load, in any order, rebuilds memory |
| Counterexamples.MountRenamesParent | fuse_node.c:309-314 | a note a.txt with a note below it: after the first load, not every load rebuilds memory |

## Left out

- Stores.Store.FreeTree: frees one detached childless node; `free_tree` (tree.c:71-84) recurses, but the code only
  calls it on nodes without children.
- NodeMaps.NodeFreed: covers the same single node, for the same reason.
- Agreement.StepReloads: starts from states whose files are as the program writes them; from other agreeing states, such
  as those after a load of foreign files, only notifications are covered (`ForeignFiles.ForeignEditReloads`).
- Sizes.RenameConservesSize: needs every node with children to be marked as a directory, which holds in agreeing
  states; `Sizes.MoveAccounting` states the difference without it.
- Path functions (path.c) are values: cutting a copied buffer at a NUL is a prefix, writing to a memory stream is
  concatenation; nothing observes the buffers in between.
- The fields stored in a node's `data` are fields of the node; `free` is the node leaving the store, and memory is not
  reused.
- Removal through a notification (fuse_node.c:820-832) looks up a full path as a uid and asserts the opposite of its
  comment; there is no meaningful step.
- Failing file operations, allocation failure, time stamps, extended attributes, categories, classes and statuses,
  `stat` fields, directory listing, FUSE and inotify plumbing, options, logging.
- The flags argument of rename, the mode of create, and the check of the target directory inside rename, which the
  kernel makes.
- The lock itself: handlers are atomic steps.
- libical: parsing and serialising are the identity on records; RELTYPE values are compared without regard to case,
  which the record's enumeration absorbs.
- Arena bookkeeping other than `rstrins`, `hashmap_free`, `hashmap_print`, `print_tree`, and the disabled
  HM_DONTTRUSTHASH branches.
- Integer widths other than those of the hash: sizes, counters and offsets are unbounded, the index being bounded by
  2^24 entries.
