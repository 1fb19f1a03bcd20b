# Verified models of the navi-misc programs

navi-misc is a collection of small independent programs. This project models the algorithmic cores of
eleven of its files and proves what they keep over every input and every run. Each core is one or two
Dafny modules; `basics.dfy` holds the few types and facts they share.

- `key_pickler.dfy`, `linked_list.dfy`, `catalog.dfy`, `rack.dfy`: the persistent hierarchical store of
  `python/Rack.py`. A flat dictionary holds user entries and, for every namespace, two doubly linked
  lists made of dictionary entries: its keys, and its occupied child namespaces. The database is a map
  from slots (path, internal space, key); `Racks.SlotsDoNotCollide` shows that the pickled strings the
  program really uses as keys tell slots apart. The abstract state is a `Catalog`, the contents of all
  lists; `Catalogs.IsCatalog` ties it to the dictionary, entry by entry.
- `ring_buffer.dfy`: the ring buffer of the same file.
- `brainsmooch.dfy`: the token interpreter of `obfuscated/brainsmooch.py`, against structured programs.
- `chip.dfy`, `chip_parser.dfy`: the chip format and recursive parser of
  `python/robot_odyssey_chip_disasm.py`, with pins as objects in one map that all nesting levels share.
- `scheduler.dfy`: the two-queue scheduler of `python/scheduler.py`, with real priorities.
- `fmin.dfy`: the Nelder-Mead minimiser of `rfaccel/optimize.py`, over the reals, for any objective.
- `loopy.dfy`: the OpenGL capability switcher of `loopy/loopy.c`.
- `rle.dfy`, `audio.dfy`, `audio_threads.dfy`: the image compression of `sbt86/sbt86.py` and
  `sbt86/emulator.c`, and the emulator's speaker ring, once with whole callbacks and their samples, once
  with the two threads interleaved one memory access at a time.
- `grumpydisk.dfy`: the packetised read of `grumpydisk/usb-storage.c` under the recursive recovery of
  `grumpydisk/main.c`.
- `memprof.dfy`, `ted.dfy`: the graph marking of `python/memprof.py`, the framing of `python/ted.py`.

Objects whose fields change are classes; their methods follow the source's branches and loops and are
proved against functions and predicates on values, and the lemmas are about those. `hide` statements
keep the definitions a proof does not need out of the verifier's sight.

Five properties turned out to hold only under a condition, and are stated with it, both ways:

- `LinkedList.remove` tests its neighbours for truth, where it means to test whether they exist. Taking
  an item out is right if and only if neither neighbour is a false value such as 0, `''`, `()` or
  `None`; otherwise what is left is no list at all (`RemoveExactly`). The class documentation's own
  example stores 0. `LinkedList.clear` empties the list if and only if no item is false. Deleting a
  rack key keeps the catalog exactly under the matching condition on the one list that has neighbours
  to relink (`Rack.DelItem`); `ZeroKeyBreaksRemoval` is a concrete case. `Rack.clear` keeps it exactly if
  all keys are true and the namespace can be unlisted cleanly (`Rack.Clear`).
- Removing what is not in the list destroys it, or silently loses its only item (`RemoveAbsent`). This is
  what `Rack.clear` does to the parent's child list when it is called on a namespace that is not listed.
- Overlays are isolated from each other in a capability if and only if all clients track and restore
  capabilities and the context starts with that capability off (`IsolatedIff`). OpenGL starts with a few
  capabilities on.
- The image compressor fails on exactly the images with a run of more than 65537 zeroes before a
  nonzero byte (`CompressFailsIff`). This takes `struct.pack` to raise an error when a number does not
  fit. With such runs split in pieces, the decompressor restores every byte string (`EncodeThenLoad`).
- A parse of chip data succeeds exactly on assembled images whose addresses all name pin states
  (`ParsesExactlyImages`).

To verify everything, run `dafny verify dfyconfig.toml`.

## Model

| member | source | states |
|---|---|---|
| `KeyPickler.LoadSerialized` | python/Rack.py:489-544 | Reading a key's pickle pushes exactly that key, whatever is already on the unpickler's stack and whatever bytes follow, at every nesting depth. |
| `KeyPickler.LoadSerializedAll` | python/Rack.py:504-509 | The same for the elements of a tuple, one after the other. |
| `KeyPickler.RoundTrip` | python/Rack.py:480-487 | The encoding is self-delimiting: from a pickle followed by any tail the key is recovered, and exactly the tail is left. |
| `KeyPickler.PrefixFree` | python/Rack.py:430-476 | No pickle is a prefix of another key's pickle, so distinct keys never collide. |
| `KeyPickler.ReadIntAtomOf` | python/Rack.py:527-541 | All three integer forms, negative numbers included, read back as the number. |
| `KeyPickler.ReadStringAtomOf` | python/Rack.py:518-525 | Short and long strings read back in full, up to 4 GB. |
| `KeyPickler.DecimalRoundTrip` | python/Rack.py:537 | Decimal text reads back as the number and contains no newline. |
| `KeyPickler.IntBytes` | python/Rack.py:533-537 | The very bytes of an integer: one or two bytes after K or M, or a line of decimal digits after I, with a minus sign if negative. |
| `KeyPickler.StringBytes` | python/Rack.py:518-525 | The very bytes of a string: its length in one byte after U, or in four, little end first, after T; and None is N. |
| `KeyPickler.TupleBytes` | python/Rack.py:487-509 | The elements of a tuple, in order, between ( and t; a whole pickle ends in a stop. |
| `KeyPickler.DumpsFailsOn` | python/Rack.py:518-525 | A key cannot be pickled exactly if it is, or holds at any depth, a string of 4 GB or more. |
| `Keys.FalseKeys` | python/Rack.py:710-734 | None, 0, the empty string and the empty tuple are the only values that count as false. |
| `Racks.FlatKeyIs` | python/Rack.py:86-88 | The tuple that is pickled: the path, None or 1 or 2 for the space, and the key. |
| `Racks.SlotsDoNotCollide` | python/Rack.py:86-88 | Equal flat keys come from the same namespace, internal space and key. |
| `FlatDb.InternalRack.Get` | python/Rack.py:106-110 | Reads the entry of one space of one namespace, or reports a missing key. |
| `FlatDb.InternalRack.Put` | python/Rack.py:100-104 | Changes one entry of its own dictionary and no entry of any other namespace or space. |
| `FlatDb.InternalRack.Del` | python/Rack.py:131-136 | Removes one entry of its own dictionary, or reports a missing key, and touches nothing else. |
| `LinkedLists.RemoveExactly` | python/Rack.py:698-743 | Unlinking gives the list without the item iff neither neighbour is a false value; if one is, no sequence at all describes the result; the count drops by one either way. |
| `LinkedLists.RemoveWorksIff` | python/Rack.py:698-743 | Removing the item at j gives the list without it iff neither neighbour is None, 0, the empty string or the empty tuple. |
| `LinkedLists.RawEntries` | python/Rack.py:593-602 | The very entries of a list: head under 1, tail under 2, count under 3, and the links of each item under (1, item) and (2, item). |
| `LinkedLists.UnlinkBroken` | python/Rack.py:710-737 | With a false neighbour the branch taken leaves a dictionary that represents no list. |
| `LinkedLists.RemoveAbsent` | python/Rack.py:698-743 | Unlinking a non-member fails exactly on the empty list, which stays empty; it empties a list of one item and destroys a longer one. |
| `LinkedLists.UnlinkMiddleCorrect` | python/Rack.py:710-716 | Joining the two neighbours leaves exactly the entries of the list without the item. |
| `LinkedLists.UnlinkFirstCorrect` | python/Rack.py:718-724 | Moving the head leaves exactly the entries of the list without its first item. |
| `LinkedLists.UnlinkLastCorrect` | python/Rack.py:726-732 | Moving the tail leaves exactly the entries of the list without its last item. |
| `LinkedLists.UnlinkOnlyCorrect` | python/Rack.py:734-743 | Removing the only item leaves no entry at all. |
| `LinkedLists.AppendCorrect` | python/Rack.py:666-680 | Appending a new item, true or false, gives exactly the entries of the list with the item last. |
| `LinkedLists.PrependCorrect` | python/Rack.py:682-696 | Prepending a new item gives exactly the entries of the list with the item first. |
| `LinkedLists.RepresentsUnique` | python/Rack.py:593-602 | A dictionary represents at most one list, its count is the length, and it is empty exactly when the list is. |
| `LinkedLists.MembersUnlink` | python/Rack.py:698-743 | Removing a member never fails on a missing entry, whichever branch is taken. |
| `LinkedLists.LinkedList.Len` | python/Rack.py:643-647 | Reports the stored count, or 0. |
| `LinkedLists.LinkedList.Forward` | python/Rack.py:623-631 | Forward iteration yields exactly the contents in order and ends. |
| `LinkedLists.LinkedList.Reversed` | python/Rack.py:633-641 | Backward iteration yields exactly the contents in reverse and ends. |
| `LinkedLists.LinkedList.Append` | python/Rack.py:666-680 | Changes the dictionary as the append function says and nothing outside its space. |
| `LinkedLists.LinkedList.Prepend` | python/Rack.py:682-696 | Changes the dictionary as the prepend function says and nothing outside its space. |
| `LinkedLists.LinkedList.Remove` | python/Rack.py:698-743 | From any dictionary: fails exactly if an entry it has to delete is missing, leaving what was written so far; otherwise changes the dictionary as the unlink function says; nothing outside its space changes. |
| `LinkedLists.LinkedList.Clear` | python/Rack.py:649-664 | Leaves the empty list iff all items are true; with a false first item it does nothing, with a later one it leaves no list but a positive count. |
| `LinkedLists.LinkedList.Do` | python/Rack.py:649-743 | An operation that fits the contents (new items are new, no item to be relinked is false) gives the contents it is meant to give. |
| `LinkedLists.LinkedList.Perform` | python/Rack.py:604-743 | After any run of appends, prepends, removals and clears that fit, the dictionary is exactly that of the list the run describes. |
| `LinkedLists.WellCalledFits` | python/Rack.py:604-743 | Among true items an operation fits and leaves only true items iff what it adds is new and true, and what it removes is there or the list is empty. |
| `LinkedLists.WellCalledRunFits` | python/Rack.py:604-743 | On distinct and true items every operation of a run fits, and all items stay true. |
| `Catalogs.AnnounceRegisters` | python/Rack.py:270-278 | Announcing a namespace lists it and every unoccupied ancestor, and keeps all other listings exact. |
| `Catalogs.AnnounceChanges` | python/Rack.py:270-278 | Announcing changes no key list, and adds at most the next name on the path at the end of an ancestor's child list. |
| `Catalogs.ListChild` | python/Rack.py:304-307 | Listing an empty namespace in its parent keeps the catalog exact but for that one namespace under way. |
| `Catalogs.UnlistChild` | python/Rack.py:309-316 | Unlisting an empty namespace makes the parent the one namespace still to be looked at. |
| `Catalogs.RetireRegisters` | python/Rack.py:280-288 | Unlisting as far up as namespaces become empty makes the whole catalog exact again. |
| `Catalogs.RetireChanges` | python/Rack.py:280-288 | Unlisting changes no key list, and only takes the next name on the path out of ancestors' child lists. |
| `Catalogs.AddKeyRegisters` | python/Rack.py:290-293 | A new key in any namespace keeps every namespace listed iff it has a key or a listed child. |
| `Catalogs.RemoveKeyRegisters` | python/Rack.py:295-302 | So does the removal of any key. |
| `Catalogs.AddKeyChanges` | python/Rack.py:290-293 | A new key comes last in its own namespace; other key lists stay, child lists gain at most one name at the end. |
| `Catalogs.RemoveKeyChanges` | python/Rack.py:295-302 | The other keys keep their order; other key lists stay; child lists lose only names on the path. |
| `Catalogs.ListedIffKeyBelow` | python/Rack.py:262-316 | A name is in a child list iff some namespace at or below that child has a key. |
| `Catalogs.ListedIffEntryBelow` | python/Rack.py:262-316 | The same in terms of the user entries of the flat database alone: the catalog is exactly what they imply. |
| `Catalogs.RunsStayRegistered` | python/Rack.py:100-136 | After any run of sets and deletes on true keys and path components the catalog is exact, and every live key can be removed cleanly; `Racks.Perform` carries it to the database. |
| `Catalogs.ApplyKeeps` | python/Rack.py:100-136 | Each single set or delete keeps that invariant. |
| `Catalogs.KeysInCreationOrder` | python/Rack.py:290-302 | After any run each key list holds the live keys in creation order, as computed from the operations on that namespace alone; `Racks.Perform` carries it to the database. |
| `Catalogs.EmptyIsCatalog` | python/Rack.py:262-316 | An empty database has the empty catalog. |
| `Catalogs.TruthyOpsCanRun` | python/Rack.py:131-136 | On true keys and path components every deletion of any run can be done cleanly when its turn comes. |
| `Catalogs.PlainOpsCanRun` | python/Rack.py:131-136 | The same, said by the values: no key or path component is None, 0, the empty string or the empty tuple. |
| `Catalogs.CanRemoveIff` | python/Rack.py:710-737 | In a namespace that stays occupied, a key can be removed cleanly iff neither neighbour is one of those four values. |
| `Catalogs.TruthyCanRetire` | python/Rack.py:280-316 | With true items only, unlisting never meets a false neighbour. |
| `Catalogs.ZeroKeyBreaksRemoval` | python/Rack.py:710 | With keys 'a' and 0 in the root, 'a' cannot be removed cleanly. |
| `Racks.Rack.TestKeySubNsAdd` | python/Rack.py:270-278 | Lists an empty namespace in its ancestors before its first entry, leaving user entries alone. |
| `Racks.Rack.NewChild` | python/Rack.py:304-307 | Announces itself, then appends the child's name to its own list. |
| `Racks.Rack.TestKeySubNsDel` | python/Rack.py:280-288 | Unlists an empty namespace as far up as needed, cleanly iff no relinked neighbour is false; no catalog describes the result otherwise. |
| `Racks.Rack.DelChild` | python/Rack.py:309-316 | Takes an empty child out of its list and goes on upwards, cleanly under the same exact condition. |
| `Racks.Rack.NewKey` | python/Rack.py:290-293 | Adds the key to the lists of the database as the catalog operation says. |
| `Racks.Rack.DelKey` | python/Rack.py:295-302 | Removes the key from the lists as the catalog operation says, iff that can be done cleanly. |
| `Racks.Rack.SetItem` | python/Rack.py:100-104 | Stores the value, keeps the catalog of the whole tree for any key, and changes no other user entry. |
| `Racks.Rack.GetItem` | python/Rack.py:106-110 | Returns the stored value, or reports a missing key. |
| `Racks.Rack.DelItem` | python/Rack.py:131-136 | Fails iff the key is absent, and then changes nothing; otherwise removes that user entry only, and keeps the catalog iff the removal can be done cleanly. |
| `Racks.Rack.Clear` | python/Rack.py:318-329 | Deletes exactly the user entries of an occupied namespace. The catalog survives iff all keys are true and the namespace can be unlisted cleanly; otherwise no catalog at all describes what is left. |
| `Racks.Rack.ClearKeyList` | python/Rack.py:649-664 | Empties the key list iff all keys are true; with a false first key it stays as it is, with a later one it is no list any more. |
| `Racks.StaleKeys` | python/Rack.py:318-331 | A key list that names keys without entries belongs to no catalog. |
| `Racks.Rack.Scan` | python/Rack.py:393-415 | Collects the live keys, the names of children with entries and the slots of the two lists, each once, in any scan order. |
| `Racks.Rack.Reindex` | python/Rack.py:386-428 | Whatever the two lists held: the key list has exactly the live keys, the child list exactly the children with entries, and no other entry changed. |
| `Racks.ReindexRestores` | python/Rack.py:386-428 | Reindexing a namespace whose lists are damaged in any way makes the catalog of the whole tree hold again. |
| `Racks.OccupiedIffEntry` | python/Rack.py:411-415 | A namespace has a key or a listed child iff some database entry lies in it. |
| `Racks.Do` | python/Rack.py:100-136 | A set, or a delete that can be done cleanly, of any key in any namespace changes the catalog as the model says and one user entry. |
| `Racks.Perform` | python/Rack.py:100-136 | After any run of sets and deletes in any namespaces of an empty database, each deletion cleanly possible in its turn: the catalog is exact, every user entry holds what was last stored, and each key list holds its live keys in creation order. |
| `Racks.PerformPlain` | python/Rack.py:100-136 | On keys and path components other than those four values any run works: entries hold what was last stored, key lists the live keys in creation order, child lists exactly the children with entries at or below them. |
| `Racks.ListingsFollowEntries` | python/Rack.py:262-316 | In an exact catalog every child list is there, and names exactly those children. |
| `RingBuffers.PushCorrect` | python/Rack.py:843-864 | Storing at the head gives exactly the entries of the buffer with the item newest and, if it was full, the oldest gone. |
| `RingBuffers.PopCorrect` | python/Rack.py:876-886 | Deleting the computed position removes exactly the oldest item, at every wrap position. |
| `RingBuffers.PositionIs` | python/Rack.py:970 | The key computed with the modulus is the position of the i-th oldest item, or of a place without an item, for every wrap position. |
| `RingBuffers.ItemAt` | python/Rack.py:910-919 | Under the key of any index, however far out of range, lies the item at the index modulo the size, or nothing. |
| `RingBuffers.PositionWraps` | python/Rack.py:975 | Positions repeat with the size of the ring, negative indices included. |
| `RingBuffers.PositionStep` | python/Rack.py:914 | Stepping on the key, with any increment, is stepping on the index. |
| `RingBuffers.PickedSlice` | python/Rack.py:899-916 | Picking forwards within range gives the slice. |
| `RingBuffers.PickedReverse` | python/Rack.py:899-916 | Picking backwards within range gives the slice in reverse. |
| `RingBuffers.PickedFull` | python/Rack.py:904-919 | In a full ring, picking with any step from any index gives the items at those indices modulo the size. |
| `RingBuffers.WholeSlices` | python/Rack.py:789-791 | The slice [::-1] is the contents in reverse; in a full ring [::2] is every second item, twice round. |
| `RingBuffers.StridedIff` | python/Rack.py:945-966 | A slice with a step is the slice of the list, as the documentation promises, iff no step past the end of the range lands on an item. |
| `RingBuffers.FullStridedIff` | python/Rack.py:782-791 | In a full ring that is so iff the step is 1 or -1 or the range has at most one item. |
| `RingBuffers.LatestSlice` | python/Rack.py:972-979 | The slice from the limit counted back from the end is the most recent items. |
| `RingBuffers.RingBuffer.Load` | python/Rack.py:825-841 | Loads the special keys, or creates a fresh ring if asked to; fails iff there is none and none may be made. |
| `RingBuffers.RingBuffer.Push` | python/Rack.py:843-864 | The contents gain the item at the end and lose the oldest one iff the buffer was full. |
| `RingBuffers.RingBuffer.Pop` | python/Rack.py:866-886 | The contents lose their n oldest items, or all. |
| `RingBuffers.RingBuffer.Clear` | python/Rack.py:888-902 | The dictionary is left empty. |
| `RingBuffers.RingBuffer.Iter` | python/Rack.py:904-919 | From any key, with any increment: the items at the indices it comes by, places without an item skipped, across every wrap position. |
| `RingBuffers.RingBuffer.Iterate` | python/Rack.py:921-930 | Yields the contents, oldest first. |
| `RingBuffers.RingBuffer.Len` | python/Rack.py:932-937 | Reports the number of items. |
| `RingBuffers.RingBuffer.GetItem` | python/Rack.py:967-970 | Any index, from either end, gives the item there modulo the size, or the KeyError of a place without one; in range, the matching item. |
| `RingBuffers.RingBuffer.GetSlice` | python/Rack.py:945-966 | Any bounds and any step give the items picked around the ring, as many as the bounds are apart, backwards from the upper bound for a negative step; a KeyError before the first push. |
| `RingBuffers.RingBuffer.GetLatest` | python/Rack.py:972-979 | The last items up to the limit; a negative limit leaves out that many of the oldest, and is a KeyError before the first push. |
| `Brainsmooch.MachineRefinesStructure` | obfuscated/brainsmooch.py:86-144 | For every balanced program, start state and number of turns, the flat machine and the structured program show the same memory, pointer, input and output and agree on halting, failing or going on. |
| `Brainsmooch.HaltsIffReaches` | obfuscated/brainsmooch.py:86-144 | The machine halts in a state iff natural while-loop semantics ends there, so it diverges or fails exactly when that reaches no state. |
| `Brainsmooch.ScansFindPartner` | obfuscated/brainsmooch.py:115-144 | Both scans stop at the true partner of the bracket they start from. |
| `Brainsmooch.ForwardOver` | obfuscated/brainsmooch.py:120-130 | The forward scan passes over any structured code without stopping inside it. |
| `Brainsmooch.BackwardOver` | obfuscated/brainsmooch.py:134-144 | So does the backward scan. |
| `Brainsmooch.BalancedIff` | obfuscated/brainsmooch.py:115-144 | The balanced programs are those in which no bracket closes before one opens, and as many open as close. |
| `Brainsmooch.ParseProgram` | obfuscated/brainsmooch.py:86-144 | Every balanced token list is the flattening of a structured program. |
| `Brainsmooch.Simulate` | obfuscated/brainsmooch.py:86-144 | Anywhere inside a larger program, running the code of a structured program takes as many turns as its semantics counts and continues right after it. |
| `Brainsmooch.DoneReaches` | obfuscated/brainsmooch.py:86-144 | Finishing within some number of turns implies natural semantics. |
| `Brainsmooch.ReachesCosts` | obfuscated/brainsmooch.py:86-144 | Natural semantics implies finishing in some exact number of turns, with any further turns left over. |
| `Brainsmooch.Interpreter.ScanForward` | obfuscated/brainsmooch.py:119-130 | The scan loop jumps where the forward scan function says. |
| `Brainsmooch.Interpreter.ScanBackward` | obfuscated/brainsmooch.py:132-144 | The scan loop jumps where the backward scan function says. |
| `Brainsmooch.Interpreter.Turn` | obfuscated/brainsmooch.py:88-117 | One token does what it should: the cell goes up or down by one modulo 256, a byte is put out or read in, the pointer moves, a bracket goes on or jumps to its partner; negative pointers index from the end, and all exceptions are as in the source. |
| `Brainsmooch.StepHasEffect` | obfuscated/brainsmooch.py:90-144 | So does one step of the machine. |
| `Brainsmooch.ForwardIsPartner` | obfuscated/brainsmooch.py:119-130 | In any program, balanced or not, the forward scan jumps right after the bracket that closes this one, and fails iff there is none. |
| `Brainsmooch.BackwardIsPartner` | obfuscated/brainsmooch.py:132-144 | The backward scan jumps to the bracket that opens this one, iff there is one. |
| `Brainsmooch.IncrementsThenOutput` | obfuscated/brainsmooch.py:99-109 | k increments and an output put out the value of the cell plus k, modulo 256. |
| `Brainsmooch.CountDownLoop` | obfuscated/brainsmooch.py:103-144 | The loop that decrements a cell halts after 3v + 1 turns with the cell zero and everything else as it was. |
| `Brainsmooch.Interpreter.RunFor` | obfuscated/brainsmooch.py:86-89 | The run loop, cut off after n turns, is n steps of the machine. |
| `ChipFormat.ParsesExactlyImages` | python/robot_odyssey_chip_disasm.py:339-457 | Parsing at any position returns a chip and an end iff that chip's image lies there, ends there, and all its addresses name pin states; at every nesting depth, whatever follows. |
| `ChipFormat.ChipAsBytes` | python/robot_odyssey_chip_disasm.py:339-457 | The format in bytes alone: a chip is read iff there lie eight pins, gates, nested chips after a byte 6, a byte 7, lists, and an empty list. |
| `ChipFormat.GateAsBytes` | python/robot_odyssey_chip_disasm.py:397-437 | A gate is read iff its bytes lie there: two pins and a list after 1, 2 or 3, one pin and a list after 4, four pins and two lists after 5. |
| `ChipFormat.ListAsBytes` | python/robot_odyssey_chip_disasm.py:381-395 | A list is read iff there lie addresses, high byte first, of bytes that are 0 or 1, and then a byte 255. |
| `ChipFormat.NodesAsBytes` | python/robot_odyssey_chip_disasm.py:445-457 | The closing lists are read up to and with the first empty one. |
| `ChipFormat.ChipSound` | python/robot_odyssey_chip_disasm.py:339-372 | What was parsed assembles to the very bytes consumed. |
| `ChipFormat.ChipComplete` | python/robot_odyssey_chip_disasm.py:339-372 | An assembled chip parses back to itself and its exact length. |
| `ChipFormat.CodeComplete` | python/robot_odyssey_chip_disasm.py:361-369 | A bytecode stream parses back to its parts and nodes; a parent goes on precisely after each child. |
| `ChipFormat.GateComplete` | python/robot_odyssey_chip_disasm.py:397-437 | Each gate with its pins and lists parses back to itself. |
| `ChipFormat.NodesComplete` | python/robot_odyssey_chip_disasm.py:445-457 | The closing lists parse back up to the empty one. |
| `ChipFormat.AddrsSound` | python/robot_odyssey_chip_disasm.py:381-395 | A parsed address list is the one assembled there, and every address names a pin state. |
| `ChipParser.AddressSpace.LookupPin` | python/robot_odyssey_chip_disasm.py:195-213 | Gives the one pin of the absolute address iff that byte exists and is 0 or 1; existing pins stay as they are, states equal the root bytes, and no two addresses share a pin. |
| `ChipParser.AddressSpace.Offset` | python/robot_odyssey_chip_disasm.py:188-193 | A nested space shares the map and adds up the offsets. |
| `ChipParser.ParsedChip.BytecodePins` | python/robot_odyssey_chip_disasm.py:374-379 | Reads consecutive pins, each the one of its absolute address. |
| `ChipParser.ParsedChip.BytecodeAddrList` | python/robot_odyssey_chip_disasm.py:381-395 | Reads a list as the format says and gives the one pin of each absolute address. |
| `ChipParser.ParsedChip.BytecodeGate` | python/robot_odyssey_chip_disasm.py:397-437 | Appends the gate the format describes, wired to the pins of its absolute addresses. |
| `ChipParser.ParsedChip.Bytecode06` | python/robot_odyssey_chip_disasm.py:439-443 | Appends the nested chip, wired in the same map, and resumes right after it. |
| `ChipParser.ParsedChip.Bytecode07` | python/robot_odyssey_chip_disasm.py:445-457 | Appends a node for each list up to the empty one. |
| `ChipParser.ParsedChip.ParseBytecode` | python/robot_odyssey_chip_disasm.py:357-372 | The bytecode loop succeeds iff the format does, with its parts, nodes and length, all wired. |
| `ChipParser.ParsedChip.ParseCHP` | python/robot_odyssey_chip_disasm.py:339-372 | Parsing succeeds iff the format does; every pin anywhere in the result, at any depth, is the one pin of its absolute address. |
| `ChipParser.WiringGrows` | python/robot_odyssey_chip_disasm.py:179-213 | A wired chip stays correctly wired while the shared map grows. |
| `Scheduling.Task.Run` | python/scheduler.py:16-18 | Running keeps the account between time given, time used and rounds. |
| `Scheduling.Scheduler.Swap` | python/scheduler.py:32-34 | Swapping begins the next epoch with all tasks active, each still settled. |
| `Scheduling.Scheduler.Turn` | python/scheduler.py:45-51 | The last active task runs or expires, the others stay as they are, and the epoch gets one call shorter. |
| `Scheduling.Scheduler.Schedule` | python/scheduler.py:30-51 | Gives exactly the last active task its turn, conserves the multiset of tasks, shortens the epoch by one call, and keeps the law that a task expired k times has run exactly k priorities rounded up (never, for priorities below zero). |
| `Scheduling.Scheduler.FinishEpoch` | python/scheduler.py:64-65 | An epoch ends after exactly the computed number of calls, with every task expired once. |
| `Scheduling.WithinOneRun` | python/scheduler.py:46-51 | A settled task is ahead of its exact share by less than one run. |
| `Scheduling.OneMore` | python/scheduler.py:50 | A further round adds one priority and never lowers the number of runs owed. |
| `NelderMead.MovedKeepsBest` | rfaccel/optimize.py:114-163 | After reflect, expand, contract or shrink no evaluated point and no old vertex beats the best vertex. |
| `NelderMead.Geometry` | rfaccel/optimize.py:114-162 | From the coordinate sums of the vertices alone: where the reflected, expanded and contracted points lie, and that shrinking halves the way to the best vertex. |
| `NelderMead.TheMove` | rfaccel/optimize.py:114-163 | A whole move from the vertices alone: which of those points are tried, in order, and what becomes of the simplex. |
| `NelderMead.Reflection` | rfaccel/optimize.py:114-136 | A reflected point better than the second worst vertex replaces the worst, or its expansion does; otherwise more is tried. |
| `NelderMead.Contraction` | rfaccel/optimize.py:137-163 | Contraction is towards the better of the reflected and the worst vertex; if it does not help, the simplex shrinks. |
| `NelderMead.StartVertex` | rfaccel/optimize.py:88-98 | Each further start vertex has one coordinate 5% larger, or 0.00025 if it is zero. |
| `NelderMead.MoveKeepsBestSoFar` | rfaccel/optimize.py:109-168 | A turn of the loop keeps the first vertex the best of all points ever evaluated. |
| `NelderMead.ArgSort` | rfaccel/optimize.py:102-104 | Gives a permutation that sorts the values. |
| `NelderMead.ShrinkSimplex` | rfaccel/optimize.py:159-163 | Moves and evaluates every vertex but the best, in order. |
| `NelderMead.Contract` | rfaccel/optimize.py:137-163 | Contraction, outside or inside, or else shrinking, is the move chosen, with cached values that stand for the objective. |
| `NelderMead.MoveSimplex` | rfaccel/optimize.py:114-163 | The branches with cached values and flags make exactly the one move chosen from the objective, and call the function on exactly the points that move tries, in order. |
| `NelderMead.Iterate` | rfaccel/optimize.py:114-168 | A turn is one move followed by a sort; the function is called on exactly the points the move tries. |
| `NelderMead.StartSimplex` | rfaccel/optimize.py:85-107 | The start and its N displaced copies, each evaluated once, then sorted. |
| `NelderMead.RunKeepsBest` | rfaccel/optimize.py:109-168 | At every turn of every run the simplex is sorted and its first value is the minimum over every point ever evaluated. |
| `NelderMead.OneMoreMove` | rfaccel/optimize.py:114-168 | A further move makes a run again, with the points of that move evaluated after all others. |
| `NelderMead.ConvergedIsWithin` | rfaccel/optimize.py:110-112 | The test on the cached values holds iff every coordinate and the value of every other vertex is between minus and plus the tolerance of the best. |
| `NelderMead.MakeMoves` | rfaccel/optimize.py:109-168 | The loop makes moves that are due until one of the limits is reached or the tolerances are met, and logs exactly the evaluations of its run. |
| `NelderMead.Fmin` | rfaccel/optimize.py:67-192 | Makes a run of moves from the start, each due when it is made (no limit reached, tolerances not met), and none is due at the end. The calls of the function are exactly the evaluations of that run; funcalls is their number and ends below maxfun + N + 2; the result is the best of them all; without a warning the last simplex is within both tolerances. |
| `Loopy.IsolatedIff` | loopy/loopy.c:762-805 | For any number of clients, no run of enables, disables and switches ever shows a client another one's use of a capability iff all tracking and restore flags are set and the capability starts off. |
| `Loopy.RunTracked` | loopy/loopy.c:1025-1119 | Over every run each dictionary says what its client would have alone, and the context agrees with the current one. |
| `Loopy.StepKeepsTracked` | loopy/loopy.c:1025-1036 | Each event keeps that invariant. |
| `Loopy.UntrackedLeaks` | loopy/loopy.c:1822-1834 | A client that is not tracked can change what another one sees. |
| `Loopy.UnrestoredLeaks` | loopy/loopy.c:1033-1035 | A client that is not restored can see what another one set. |
| `Loopy.InitiallyOnLeaks` | loopy/loopy.c:773-805 | A capability that is on at the start can be lost to a client that never touched it. |
| `Loopy.Switcher.SetCapability` | loopy/loopy.c:1822-1834 | Changes the context, and the dictionary of a tracking client. |
| `Loopy.Switcher.DisableMissing` | loopy/loopy.c:780-791 | The first pass disables exactly what is on in the old dictionary and not in the new. |
| `Loopy.Switcher.EnableMissing` | loopy/loopy.c:793-804 | The second pass enables exactly what is on in the new dictionary and not in the old. |
| `Loopy.Switcher.Switch` | loopy/loopy.c:1025-1112 | Switches as the model's event says; to the current client it does nothing. |
| `Loopy.Switcher.Perform` | loopy/loopy.c:1822-1834 | Capability calls are those events, one after the other, in the current client, and leave every other client's own set alone. |
| `Loopy.Switcher.Render` | loopy/loopy.c:1328-1344 | An overlay's turn is a switch to its own client and then its calls. |
| `Loopy.Switcher.RenderAll` | loopy/loopy.c:1287-1320 | Every enabled and initialized overlay has its turn, in order, up to the first that fails. |
| `Loopy.RenderingOne` | loopy/loopy.c:1328-1344 | The events of one turn: none if the overlay is not ready, otherwise the switch to its client and its calls in order. |
| `Loopy.RenderingSplits` | loopy/loopy.c:1287-1320 | Turns come one after the other, and none after one that failed. |
| `Loopy.Switcher.SwapBuffers` | loopy/loopy.c:1287-1353 | The swap is exactly the events of the turns, up to the first that fails, and a switch back: however the overlays render, the target is current afterwards with exactly the capabilities it had. |
| `RunLength.CompressDecodes` | sbt86/sbt86.py:1498-1524 | The compressed form stands for the input, but for zeroes at the very end. |
| `RunLength.CompressFailsIff` | sbt86/sbt86.py:1522 | Compression fails exactly on a run of more than 65537 zeroes before a nonzero byte, where packing the 16-bit count raises an error. |
| `RunLength.CompressRLE` | sbt86/sbt86.py:1498-1524 | The loop computes the compressed form, or fails when the count does not fit. |
| `RunLength.DecompressRLE` | sbt86/emulator.c:94-124 | Into a zeroed buffer that is large enough it writes exactly what the source stands for, nowhere else, and reads exactly the source. |
| `RunLength.CompressThenLoad` | sbt86/sbt86.py:1568-1569 | Every image that compresses is restored in full into zeroed memory of its length. |
| `RunLength.EncodeDecodes` | sbt86/emulator.c:97-102 | With runs split over the 16-bit count, the encoding of every byte string decodes to the string without its trailing zeroes. |
| `RunLength.EncodeThenLoad` | sbt86/emulator.c:94-124 | Every byte string whatever comes back in full when its encoding is decompressed into zeroed memory of its length. |
| `RunLength.CompressEncodes` | sbt86/sbt86.py:1498-1524 | What the compressor puts out, if it does not fail, is that encoding. |
| `RunLength.CompressOneRun` | sbt86/sbt86.py:1498-1524 | The very bytes of a run of zeroes before a nonzero byte: up to one zero as it is, otherwise two zeroes and the rest of the count, low byte first. |
| `Audio.SamplesTraceToggles` | sbt86/emulator.c:542-573 | For ordered timestamps each sample is on iff an odd number of toggles happened before its moment. |
| `Audio.PlaysWhileQueued` | sbt86/emulator.c:547-553 | A first sample is played iff there is a toggle, and a later one iff some toggle was not over one sample before. |
| `Audio.GateFollowsToggles` | sbt86/emulator.c:324-337 | At any time the gate, as last written, is on iff the toggles before that time and the initial gate make it so. |
| `Audio.AudioState.PlayWrites` | sbt86/emulator.c:324-350 | Any writes after silence and the callback after them: sample k is on iff the gate was on 433 * (k + 1) cycles after the first toggle, and samples are played until all toggles are over. |
| `Audio.AudioState.SilentAgreement` | sbt86/emulator.c:547-553 | Whenever the ring is empty the playback state agrees with the speaker bit of the port, even after overflows. |
| `Audio.AudioState.OutSpeaker` | sbt86/emulator.c:324-350 | Records a timestamp iff bit 1 changes; the queue gains it at the end, or is lost as a whole iff 65535 were queued; playback is on then, and its clock is set iff it was off. |
| `Audio.AudioState.Push` | sbt86/emulator.c:330-337 | Storing at the head appends to the queue, or empties it iff it was full, at every wrap position. |
| `Audio.AudioState.Slurp` | sbt86/emulator.c:565-569 | Consumes exactly the leading toggles that have elapsed. |
| `Audio.AudioState.NextSample` | sbt86/emulator.c:555-571 | Moves the clock on, consumes what has elapsed, and gives the state after it. |
| `Audio.AudioState.AudioCallback` | sbt86/emulator.c:542-573 | Fills the samples that the queue determines, stops early, and playback with it, only when the ring is empty; the clock has gone on 433 cycles a sample, what was consumed comes from the front of the queue and lies before the clock, and the next toggle does not. |
| `AudioThreads.AnyInterleaving` | sbt86/emulator.c:324-350 | However the accesses of a port write and of the callback interleave, unless the ring overflows: the toggles recorded are those consumed followed by those queued, in order, and the speaker and the port have seen just these. |
| `AudioThreads.SilenceAgrees` | sbt86/emulator.c:547-571 | At any moment between operations with an empty ring the playback state agrees with bit 1 of the port. |
| `AudioThreads.NextKeeps` | sbt86/emulator.c:565-569 | Each single step of either thread keeps that invariant. |
| `AudioThreads.WriteLands` | sbt86/emulator.c:324-350 | A write that toggles the gate stores its timestamp at the head, moves the head, and sets the port, whatever the callback does meanwhile. |
| `AudioThreads.FrontIsPlayed` | sbt86/emulator.c:565-569 | A look and a comparison: the front toggle is consumed and the speaker inverted iff it lies before the clock, and else nothing changes. |
| `AudioThreads.OnlyElapsed` | sbt86/emulator.c:565-569 | In every interleaving each toggle consumed was found to lie before the clock. |
| `Grumpydisk.CommandAsks` | grumpydisk/usb-storage.c:263-279 | The command block, byte by byte, asks for the sector, and for the count modulo 65536. |
| `Grumpydisk.Reader.StorageRead` | grumpydisk/usb-storage.c:172-247 | Succeeds iff 31 bytes of wrapper were taken, all packets but the last have 512 bytes and the last has the rest, and the status has 13 bytes with USBS, the tag, low byte first, and status zero; then the buffer slice is the packets' data, and bytes outside the slice never change. |
| `Grumpydisk.SucceedsIff` | grumpydisk/usb-storage.c:182-247 | The same condition for any exchange, in terms of its bytes: any other signature, tag, status or length is refused. |
| `Grumpydisk.Reader.ReadPackets` | grumpydisk/usb-storage.c:192-214 | The retry loop takes packets until the length is filled exactly, or fails. |
| `Grumpydisk.Reader.ReadOrDieTrying` | grumpydisk/main.c:92-112 | On any device and under any pattern of failures it ends, gives the commands of the recovery function (a failed range of more than 64 sectors is halved, lower half first), its leaves tile the range, abandoned ones have at most 64 sectors, each leaf is good or abandoned as a read of just its sectors during this call succeeded or failed, and nothing outside the slice changes; on an honest device each good leaf holds its content in its own place. |
| `Grumpydisk.RecoveryTiles` | grumpydisk/main.c:92-112 | The leaves of a recovery tile its range, and each was tried by a command of its own. |
| `Grumpydisk.RecoveryCost` | grumpydisk/main.c:101-106 | However the disk fails, a range of 32 sectors or more takes fewer commands than a sixteenth of its sectors, and one of at most 64 a single command. |
| `Grumpydisk.EverySector` | grumpydisk/main.c:92-112 | On an honest device every sector outside an abandoned leaf holds its disk content. |
| `Grumpydisk.AnswerIsContent` | grumpydisk/usb-storage.c:263-279 | A read that succeeds on an honest device got the sectors asked for, also for counts the command cannot express. |
| `Grumpydisk.LossIsLocal` | grumpydisk/main.c:92-112 | If reads fail only where they touch bad sectors, every sector 64 or more away from all bad ones is recovered. |
| `Grumpydisk.BadLeafIsNear` | grumpydisk/main.c:101-109 | A sector in an abandoned leaf is less than 64 sectors from a bad one. |
| `Grumpydisk.FlawedIsHonest` | grumpydisk/usb-storage.c:192-214 | The assumptions can be met: for any content of 512-byte sectors and any set of bad ones there is an honest device that delivers every read of 1 to 65535 sectors that touches no bad one, packet by packet. |
| `MemProf.MemProfiler.Collect` | python/memprof.py:28-40 | The recorded graph is closed: each object has exactly its references to known objects, in order. |
| `MemProf.MemProfiler.Referents` | python/memprof.py:76-80 | Reading the referents of an object is what expands it, and is logged. |
| `MemProf.MemProfiler.MarkReachable` | python/memprof.py:73-80 | On any closed graph it ends, keeps earlier marks, marks the object, and marks only reachable objects together with all their referents. |
| `MemProf.MarkedMore` | python/memprof.py:76-80 | Marking one more referent keeps what is marked so far reachable and its referents marked. |
| `MemProf.MemProfiler.GetReachable` | python/memprof.py:82-87 | Marks exactly the reachable objects and reads the referents of each once. |
| `MemProf.ClosedSetHasReachable` | python/memprof.py:73-80 | A set closed under references contains all that its members reach. |
| `Ted.ReceivesPayloads` | python/ted.py:86-129 | A stream of stuffed packets and noise yields exactly its payloads in order, from any state without a pending escape, iff all have 278 bytes, and fails otherwise. |
| `Ted.ReceivesAmongNoise` | python/ted.py:86-129 | The same for packets among raw noise that contains no escape byte. |
| `Ted.Chunks` | python/ted.py:86-92 | Cutting a stream anywhere, with the state carried over, gives the same packets as one call. |
| `Ted.DecodeStuffed` | python/ted.py:109-127 | Stuffed data extends the packet being received by the original bytes, or is dropped. |
| `Ted.DecodeFrame` | python/ted.py:115-120 | A whole frame yields its payload, whatever was being received; another length is an error. |
| `Ted.OneByte` | python/ted.py:109-127 | Every byte in every state: 10 10 is a 10, 10 04 begins a packet, 10 03 ends one, which has 278 bytes or is an error. |
| `Ted.StrayEnd` | python/ted.py:117-120 | An end mark with no packet under way is ignored, in any state. |
| `Ted.JoinedMidPacket` | python/ted.py:109-127 | On a line joined in mid-packet the rest of that packet is dropped, and what follows is received as from the start. |
| `Ted.UnknownEscape` | python/ted.py:121-122 | Any other byte after an escape is an error, whatever follows and whatever was being received. |
| `Ted.TED.Decode` | python/ted.py:86-129 | The byte loop changes the object's state and yields packets as the receiver function says. |

## Left out

- Pickling and unpickling of values, and database files: values are opaque, and the database is a map.
- Racks.Rack.SetItem: the error for keys with strings of 4 GB or more is modelled in `KeyPickler.Dumps` only, because a slot stands for its pickle.
- Racks.Rack.Clear: namespaces without keys and children, where the source goes on to remove an unlisted name from the parent's list, are covered by `LinkedLists.RemoveAbsent` only.
- Rack iteration cuts off after 1000 items and repairs lists on the fly; `get`, `setdefault`, `update` and `items` only wrap the operations modelled.
- KeyPickler: lists are coerced to tuples, and unsupported types raise an error; the unpickler is modelled from the opcodes named in the class documentation, with string lengths read as the packer writes them. cPickle is not part of this model.
- RingBuffers: dictionaries damaged from outside are not covered.
- Brainsmooch.MachineRefinesStructure: unbalanced programs are not covered; there the backward scan would go on from the end of the token list.
- Brainsmooch.Interpreter.ScanBackward: fails on an unmatched end_loop, where the source goes on from the end of the token list; balanced programs have none.
- Brainsmooch.StepHasEffect: takes an unmatched end_loop for a failure, as `Brainsmooch.Interpreter.ScanBackward` does; `Brainsmooch.BackwardIsPartner` likewise.
- Brainsmooch.Interpreter.RunFor: the run loop is cut off after n turns, for every n, because it need not end.
- Reading and writing brainsmooch and brainfuck text: token lists are the starting point.
- Chips: CSV files, help text, pin names, part counters and printed output. A nested chip, once parsed, is a value with references to pins.
- Scheduling.Scheduler.Schedule: priorities are reals, without rounding; what the callbacks do is not modelled.
- NelderMead.Fmin: values are reals, without rounding or NaN; the objective has one value at each point; extra arguments are part of the objective; BFGS, Newton-CG and the line searches are not modelled.
- Loopy: textures, matrices, colours, viewports, blend, depth and clear state, reference counts, symbol hooks and the resize notification of overlays.
- RunLength.DecompressRLE: a source that ends inside a count, where the C code reads on past it, is excluded.
- Audio.AudioState.OutSpeaker: timestamps are not limited to 32 bits; the playback clock wraps around as in the source. Other ports and sound device calls are not modelled.
- Audio.AudioState.PlayWrites: all its writes come before the callback, there are fewer than 65536, and the clock does not wrap around.
- Audio.SamplesTraceToggles: holds while the playback clock does not wrap around; after that the source compares it with timestamps from before.
- Audio.AudioState.AudioCallback: a whole callback is one step here. The source runs it on another thread, and the port write releases a lock that it never takes. The single steps interleave in `AudioThreads`, which takes every access to be seen at once by both threads, lets the clock show anything, and does not cover overflow or whether the device is paused or started in time.
- Grumpydisk.Reader.ReadOrDieTrying: resets, pauses and messages are not modelled, nor the outer loop that writes the file. What a good leaf holds is stated for devices that acknowledge only the data they were asked for; byte counts stay below 4 GB.
- Ted: the serial port, and the scaled fields inside a packet.
- MemProf.MemProfiler.MarkReachable: ends on every closed graph; the recursion limit of the Python interpreter, past which the source raises an error on deep graphs, is not modelled.
- MemProf: size estimates, the collector's view of the heap, and graph output.
- All other programs of the repository: interfaces, network clients, graphics demos, hardware glue and build scripts.
