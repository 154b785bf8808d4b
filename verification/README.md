# Radmin VPN driver emulation: a verified model

The repository emulates the driver and the registry that Radmin VPN expects, inside the process, and bridges its
network traffic to a TAP device on the host. This project models the four parts of it that hold state and proves
what they keep. `dafny verify dfyconfig.toml` checks all of it.

**The fake registry** (`register.c`). `KeyArena` holds the key tree as a value and `Values` the value list of a key;
`RegFile` is the file format, writer and reader; `Redirect` the WOW64 path redirector; `Handles` the handle table, the
path-to-handle cache and the hooks as functions, and `HookLaws` what a caller sees of them: where handles lead, what
queries tell. `ValueList` and `RegHeap` are the same in memory: key and value objects in linked lists, created, spliced,
walked, saved and loaded by the source's loops, every method proved against those functions; `RegistryRuns` runs any
series of hooks over the objects. `ArenaTree` ties the tree in memory to the tree in the file, `Enumerate` the
enumeration hooks to the sizes QueryInfo reports, `CrashSafe` runs saves with short writes and a crash allowed between
any two steps, and `Sessions` puts hooks, saves and restarts into one run.

**The overlapped reads** (`inject.c`). `PendingQueue` is the linked queue of a handle, `Receive` the receive loop, and
`Device` the three file hooks over those objects. `ReadEngine` takes the same hooks apart into the steps between which
other threads can run, and proves for every interleaving that no read is lost, duplicated or completed twice;
`ReadStatus` proves what the fields of an OVERLAPPED say meanwhile, and `Device.DeviceHandle.PollAsSteps` that
GetOverlappedResult on the objects does what the engine's steps of one undisturbed poll do. `DeviceRuns` does the same
for any series of calls by one thread, datagrams in between.

**The bridge protocol** (`inject.c`, `tap_client_udp.c`, `linux_tap.c`). `Wire` has the block header and the datagrams,
`Bridge` the client table and the broadcast, and `Pipe` puts application, network and bridge into one transition system
whose network may lose, repeat and reorder datagrams. `Schedules` says which frames each poll of one read looks at, and
`Delivery` that the runs of that system in which the network delivers to that read at once and in order, whatever else
goes on, complete it just so.

**Netsh and COM** (`emulate_driver_running.c`). `Netmask` relates the prefix count to the bridge's mask builder,
`Netsh` follows a command line to the interface, and `ComRefs` counts references (an enumerator gives the connection out
once for each reset, `ComRefs.NextOncePerReset`), `ComLaws` tells the counts from the list of the client's calls alone,
and `ComRuns` runs a client over the objects.

A character is a non-zero 16-bit unit, and `_wcsicmp` is equality after folding ASCII letters. What a call leaves to
Windows or Linux (a socket's address, whether an allocation or a rename succeeds, what `inet_pton` makes of a string)
is a parameter of the model. Forwarding a foreign handle to the real API is an outcome of its own.

## Where the code does not do what it says

`Counterexamples` has runs from a fresh start that end in the failing state.

- Deleting a key leaves the handle table and the cache as they are, so a key deleted and created again is reached
  through a stale handle (`Handles.RecreatedKeyIsStale`, and from a fresh start `Counterexamples.StaleHandleReached`);
  `Handles.RunCoherentIff` gives the exact condition.
- The loader skips the root's value count but not its values: the round trip holds exactly without any
  (`RegFile.LoadSavedIff`), and can run past the end of the file otherwise (`RegFile.RootValueDerailsLoader`).
- Paths are cut at 512 units (`Handles.OpenKeyTransparent`, `Counterexamples.LongPathReached` with
  `Counterexamples.LongPathExists`), and a leading separator defeats the redirector (`Redirect.DesignMetIff`).
- The save never looks at the outcome of its writes, so a short one is renamed into place and reported as a success
  (`CrashSafe.SaveExact`, `CrashSafe.SaveRun`, `CrashSafe.CrashConsistent`).
- The comment at `register.c:1612-1613` calls RegDeleteTreeW a recursive deletion that is ignored; it unlinks one direct
  subkey, as `RegHeap.Registry.DeleteKeyHook` does. RegCopyTreeW does nothing.
- A query on the fake service key fails before its own branch, and the branch that would create a key from a handle's
  path is never reached (`RegHeap.Registry.QueryValueHook`).
- ReadFile stores STATUS_PENDING after it has released the lock, so a poll in between reports a read as done that is not
  (`ReadStatus.PollTellsTruthIff`, `Counterexamples.EarlyPollReached`); GetOverlappedResult stores Internal before
  InternalHigh (`ReadStatus.CountLags`).
- The comment "type byte + Ethernet header" at `inject.c:624` is off by one: the test counts the type byte and so admits
  13-byte frames (`Receive.LengthTest`).
- TapClientSendFrame accepts 2048 bytes, of which the bridge's buffer holds 2047 after the type byte (`Wire.FrameToTap`).
- The length guard of WriteFile adds in 32 bits (`Wire.OverrunIff`).
- Every sender is admitted to the client table, so WriteFile's temporary sockets push read sockets out
  (`Bridge.DeliveryIff`, `Delivery.DeliveredIff`). The control handlers ignore the length received (`Wire.OwnBytesIff`).
- The adapter's prefix length is counted on a byte-swapped mask (`Netmask.SwappedCountDisagrees`), a mask that is not
  contiguous loses its later ones on the way to the interface (`Netmask.MaskPrefixMask`), and quoted netsh values are
  cut at a space (`Netsh.QuotedField`).

## Model

| member | source | states |
|---|---|---|
| `WideStrings.TokensJoin` | register.c:355-375 | The components of `a\b` are those of `a` followed by those of `b`, wherever either has doubled, leading or trailing separators |
| `WideStrings.TokensFold` | register.c:361-375 | Changing the case of a path changes the case of its components and not their number or order |
| `WideStrings.TruncateExact` | register.c:355-356 | Cutting a path to the 512-unit buffer leaves its components alone exactly when it fits, trailing separators not counted |
| `WideStrings.SameFoldSameLength` | register.c:294-299 | Lists of components that compare equal without regard to case have as many components, each of the same length |
| `WideStrings.EqNoCaseIs` | register.c:294-299 | Two names compare equal exactly if they are as long and agree unit by unit but for the case of the letters A to Z |
| `Redirect.RedirectMeetsDesign` | register.c:92-142 | On a path of any length without a leading separator (nor a doubled one with 256 units or more after the first component) the string surgery inserts WOW6432Node after SOFTWARE once and changes nothing else |
| `Redirect.DesignMetIff` | register.c:101-127 | For a SOFTWARE path the buffers hold, that holds exactly when the path does not begin with a separator |
| `Redirect.RedirectIdempotent` | register.c:110-121 | Redirecting twice is redirecting once, on every string |
| `Redirect.TwoHopsOneHop` | register.c:92-142 | For such paths of any length: redirecting `a` and descending by `b` names the same components as redirecting `a\b`, exactly when it is not the case that `a` is SOFTWARE alone and `b` starts with WOW6432Node |
| `KeyArena.WalkNoCase` | register.c:361-376 | Navigation finds the same key whatever the case of the path |
| `KeyArena.UniquePath` | register.c:361-376 | Two paths lead from one key to the same key only if they are equal without regard to case |
| `KeyArena.AddKeyExact` | register.c:335-345 | Creating a key makes exactly one more path resolve, to the new key; every other path keeps its meaning |
| `KeyArena.GrowOld` | register.c:362-375 | Auto-creation adds as many keys as components were missing, prepends one of them to the deepest key that existed, and touches no other old key |
| `KeyArena.GrowNew` | register.c:369-372 | The keys added bear the missing names in order, each the only subkey of the one before, without values |
| `KeyArena.GrowExact` | register.c:350-377 | Navigation with creation refines insertion into a set of paths: what resolved still resolves to the same key, and what did not now does exactly if it names an initial part of the path |
| `KeyArena.RemoveKidWf` | register.c:1369-1376 | Unlinking a subkey keeps the tree a finite forest with distinct sibling names |
| `KeyArena.RemoveKidExact` | register.c:1354-1376 | After a deletion exactly the paths through the deleted key stop resolving |
| `Values.SetValRefines` | register.c:379-397 | Setting a value updates the case-insensitive map of names to contents at that name only |
| `Values.DropValRefines` | register.c:679-703 | Deleting a value removes that name from the map and nothing else |
| `Values.ListsAfter` | register.c:379-397 | A value set again keeps its place in the list and the spelling of its name, a new one goes in front; a deletion closes the gap and keeps the order |
| `Values.HistoryRefinesMap` | register.c:379-397 | Over any history of sets and deletes the list is a map with one entry for each name |
| `Values.QueryReturnsLastSet` | register.c:399-419 | After any history, a size query gives the size last set, a query with that room exactly the bytes and type, a smaller one the size and nothing written |
| `Values.QueryAfterDelete` | register.c:1079-1083 | A name deleted and not set since is not found, whatever came before |
| `RegFile.KeyRound` | register.c:483-513 | Reading what was written for a key, with anything after it, consumes exactly those bytes and yields the mirror image |
| `RegFile.LoadSavedIff` | register.c:569-577 | Loading the saved file yields the mirrored tree exactly when the root has no values |
| `RegFile.MirrorTwice` | register.c:335-345 | Mirroring is its own inverse |
| `RegFile.TwoCyclesRestore` | register.c:586-609 | Two save and load cycles restore the very tree, list orders included |
| `RegFile.MirrorFits` | register.c:586-609 | A tree the format can hold has a mirror the format can hold |
| `RegFile.FindMirror` | register.c:350-377 | Every path leads, in the mirror, to the mirror of what it leads to |
| `RegFile.LookupsSurviveReload` | register.c:515-583 | Every path and value lookup answers after a save and a load as before |
| `RegFile.RootValueDerailsLoader` | register.c:569-577 | A concrete root with one value whose saved file runs the loader past its end |
| `RegFile.StringBytes` | register.c:465-470 | A number takes four bytes, least significant first; a string its length with the terminator, its units, low byte first, and two zero bytes |
| `RegFile.ValueBytes` | register.c:596-599 | A value is its name, its type, its size and its data, in this order |
| `RegFile.ExampleBytes` | register.c:586-609 | The file of a small tree with two keys, a value and a subkey, spelled out in bytes |
| `RegFile.MirrorIs` | register.c:335-345 | In the mirror every list of values and subkeys runs the other way |
| `RegFile.OtherFiles` | register.c:529-577 | A file without the magic number or without a root name leaves the registry empty; a root with a name becomes the only key under it, with all its values and subkeys |
| `ArenaTree.WalkIsFind` | register.c:311-333 | Following child and sibling links finds the subtree the path names |
| `ArenaTree.TreeNamed` | register.c:335-377 | What the hooks keep of the tree is the uniqueness the file round trip needs |
| `ArenaTree.SavedArenaLoads` | register.c:515-609 | Any tree the hooks built, with no values on the root, saves to a file that loads into an empty tree as its mirror |
| `Handles.OpenKeyTransparent` | register.c:890-934 | An open keeps table and cache coherent exactly when the redirected path fits 512 units, and then hands out a handle to the key uncached navigation reaches; what the redirected path means is in HookLaws |
| `Handles.CreateKeyTransparent` | register.c:841-886 | The same of a create; what it does to the tree is in HookLaws |
| `Handles.DeleteKeyCoherentIff` | register.c:1337-1381 | A deletion keeps coherence exactly when no handle's path passes through the deleted key |
| `Handles.RecreatedKeyIsStale` | register.c:1369-1376 | Deleting a cached key and creating it again hands out the old handle, which leads to the freed key, as long as its memory is not given to another |
| `Handles.TwoHopsSameKey` | register.c:890-934 | Opening `a` and then `b` under the result reaches the same key with the same status as opening `a\b` |
| `Handles.FirstHopMisses` | register.c:890-934 | When the first of the two opens finds nothing, the one call finds nothing either, and nothing changes |
| `Handles.StepCoherentIff` | register.c:292-309 | One hook keeps coherence exactly when its path fits or, for a deletion, no handle's path passes through the key |
| `Handles.RunCoherentIff` | register.c:421-451 | A run of any hooks is coherent throughout exactly when each of them is so guarded |
| `Handles.StepKeepsForest` | register.c:335-377 | Every hook, guarded or not, keeps the forest and the uniqueness of sibling and value names |
| `Handles.RunKeepsForest` | register.c:335-377 | So does every run of them, deletions and over-long paths included |
| `HookLaws.OpenAnswers` | register.c:92-142 | An open by any handle on any path the buffers hold: a path that mentions RVPNNETMP gets the fake service key; otherwise a WOW64 process under HKEY_LOCAL_MACHINE gets a handle to the key of the components with WOW6432Node after SOFTWARE, unless it is there already, and everybody else to that of the components as given, from the base key on; status 2 without such a key, 6 or the real API without a base key; the tree stays |
| `HookLaws.CreateAnswers` | register.c:841-886 | A create makes the path so meant whole: every path means what it meant, just its initial parts are new, no value is touched; the handle leads to its last key, and the disposition says whether the whole path was there before |
| `HookLaws.OpenedAgain` | register.c:292-309 | While the cache has room, opening the path again, in any case, hands out the same handle |
| `HookLaws.DeleteKeyAnswers` | register.c:1337-1381 | A deletion takes the direct subkey of that whole name, in any case, and with it exactly the paths through it; values, handles, cache and every other path stay; status 2 if there is none |
| `HookLaws.QueryAnswers` | register.c:1005-1094 | A query answers about the value of that name, in any case, of the key the handle leads to: type, size and bytes with room for them, 234 without, 2 if there is none, 6 for a handle not ours |
| `HookLaws.SetValueAnswers` | register.c:936-1002 | After a set, a query of that name, in any case, through any handle to the key tells just the type, size and bytes given, and every other query, of whatever key, handle and name, what it told before; other keys, tables and cache are unchanged |
| `HookLaws.DeleteValueAnswers` | register.c:661-708 | After a deletion such a query finds nothing, and every other tells what it told before; status 2 if the value was not there |
| `HookLaws.LastSetIsFound` | register.c:998 | After a set and then any run of hooks in which none sets or deletes that value, a query through any handle to the key tells the type and bytes set |
| `HookLaws.LastDeletedIsGone` | register.c:679-703 | After a deletion and any such run it finds nothing |
| `Counterexamples.StaleHandleReached` | register.c:1337-1381 | From any fresh start and for any plain name not under the root: open the root, create, delete, create; the last call hands out the handle of the freed key, and the tables were coherent before |
| `Counterexamples.LongPathReached` | register.c:355-356 | From any fresh start: after creating its first 511 units, a path of 512 units or more opens, and breaks coherence |
| `Counterexamples.LongPathExists` | register.c:355-356 | One such path: 600 times the letter A |
| `ValueList.RegKey.FindValue` | register.c:381-385 | The search loop ends at the first value of that name, with its predecessor |
| `ValueList.RegKey.SetValue` | register.c:379-397 | The linked list afterwards holds the specified list: overwritten in place or prepended |
| `ValueList.RegKey.DeleteValue` | register.c:679-703 | The splice removes that value and keeps the order of the rest |
| `ValueList.RegKey.GetValue` | register.c:399-419 | Type, size and bytes are those of the value found; a buffer too small is left alone and the needed size reported |
| `Enumerate.KeysExactlyOnce` | register.c:1390-1482 | With a buffer of the reported size, indices below the count yield every subkey name whole and once, all others end the enumeration |
| `Enumerate.ValuesExactlyOnce` | register.c:1484-1543 | The same of values: name, type and data |
| `Enumerate.ReportedSizesAreLeast` | register.c:1572-1596 | One unit of a key or value name, or one byte of data, less than reported, and some index answers MORE_DATA |
| `Enumerate.SubkeyNamesDiffer` | register.c:335-345 | On every key of the forest the hooks keep, the subkeys listed have names that are not empty and differ without regard to case |
| `Enumerate.EnumerationExact` | register.c:1390-1596 | On every such key both enumerations yield each item once and whole and then end, exactly when the buffers are as large as QueryInfo reports |
| `Enumerate.RetryKey` | register.c:1390-1445 | A key name comes whole exactly if there is room for it and its terminator, or it is empty; otherwise nothing comes but 234 and the size with which the same call succeeds |
| `Enumerate.PlainKeyIs` | register.c:1447-1482 | The plain variant cuts a name to what fits with its terminator and reports success |
| `Enumerate.RetryValue` | register.c:1484-1543 | The same of a value: name size first, then data size, and with both the whole value |
| `RegHeap.NextToken` | register.c:355-376 | The tokenizer's next token and position are the head and the rest of the components |
| `RegHeap.Registry.constructor` | register.c:1691-1697 | A fresh registry is valid: an empty root and empty tables |
| `RegHeap.Registry.FindChild` | register.c:363-367 | The sibling loop finds the subkey of that name and the link that leads to it, or null |
| `RegHeap.Registry.CreateChild` | register.c:335-345 | The new object, linked in front of its siblings, is the specified tree with one more key |
| `RegHeap.Registry.NavigatePath` | register.c:350-377 | The loop over tokens returns the key the path names, with creation in the tree grown as specified |
| `RegHeap.Registry.KeyExists` | register.c:817-839 | True exactly when every component resolves |
| `RegHeap.Registry.HandleKey` | register.c:421-427 | The object a handle leads to, or null for handles that are not ours |
| `RegHeap.Registry.FindCached` | register.c:294-299 | The first cache slot whose path is equal without regard to case |
| `RegHeap.Registry.Record` | register.c:429-443 | The handle allocated and the handle returned, cached or new, are as specified |
| `RegHeap.Registry.BuildPath` | register.c:759-784 | The full path recorded for a handle |
| `RegHeap.Registry.OpenKeyHook` | register.c:890-934 | The objects afterwards, and the outcome, are those of the specified open, of which `HookLaws.OpenAnswers` says where it leads; keys are only added |
| `RegHeap.Registry.CreateKeyHook` | register.c:841-886 | The same of create; the disposition says whether the whole path existed before, as `HookLaws.CreateAnswers` tells |
| `RegHeap.Registry.SetValueHook` | register.c:936-1002 | The objects afterwards, and the outcome, are those of the specified setting of a value, of which `HookLaws.SetValueAnswers` says what queries then find |
| `RegHeap.Registry.DeleteValueHook` | register.c:661-708 | The same of deleting a value |
| `RegHeap.Registry.DeleteKeyHook` | register.c:1337-1381 | The same of deleting a key: the sibling list spliced, nothing else moved |
| `RegHeap.Registry.QueryValueHook` | register.c:1005-1094 | The answer and the bytes left in the buffer are those of the specified query; the fake service key is refused before its own branch |
| `RegHeap.Registry.EnumKeyHook` | register.c:1390-1445 | The item at an index of the live sibling list |
| `RegHeap.Registry.EnumValueHook` | register.c:1484-1543 | The item at an index of the live value list, a null name length or data pointer included; the data buffer holds the bytes of the item and is otherwise left alone |
| `RegHeap.Registry.SkipValues` | register.c:1504-1509 | The loop stops at the value of that index, or at null exactly past the last |
| `RegHeap.Registry.QueryInfoHook` | register.c:1572-1596 | The two counting loops compute the counts and maxima of the live lists; the fake service key has none of either |
| `RegHeap.Registry.SaveKeyToFile` | register.c:586-609 | The recursive writer appends exactly the image of the subtree, whatever its names |
| `RegHeap.Registry.SaveTree` | register.c:630-634 | The file written is the image of the tree in memory |
| `RegHeap.Registry.LoadKeyFromFile` | register.c:483-513 | The recursive reader consumes one key's bytes and attaches the tree they describe in front of its siblings, empty and repeated names included |
| `RegHeap.Registry.LoadTree` | register.c:515-583 | From an empty tree the objects afterwards are exactly the tree the file decodes to; they are a tree the hooks can work on if no name is empty or repeated among siblings |
| `RegistryRuns.RunHooks` | register.c:841-1381 | Any run of hooks over the objects leaves the registry the run of the specified hooks leaves, every outcome included |
| `RegistryRuns.Session` | register.c:1691-1697 | From the start of a process: the objects are a forest with distinct names after any run, and coherent throughout exactly if each hook was guarded |
| `CrashSafe.HookTreesStorable` | register.c:569-577 | The trees the hooks build are ones the file can hold, and load back as their mirror exactly when the root has no values |
| `CrashSafe.StepInv` | register.c:611-650 | Every step of a save, short writes and failures included, and every crash keeps register.reg the image of the last tree saved exactly if that save's writes were complete, and only a rename changes it |
| `CrashSafe.RunInv` | register.c:611-657 | The same over every run |
| `CrashSafe.CrashRestores` | register.c:611-650 | With register.reg complete and its root without values a crash at any point brings back the mirror of the last tree saved, and a second crash the same |
| `CrashSafe.CrashConsistent` | register.c:653-657 | After any run whatever, register.reg is absent or was renamed by the save of a tree some hook left in memory; it is that tree's image exactly if no write of that one save was short, and then decodes to its mirror exactly if the root had no values |
| `CrashSafe.SaveExact` | register.c:453-457 | The save, which ignores the outcome of WriteFile, puts the tree's image in place exactly when every piece was written in full |
| `CrashSafe.SaveRun` | register.c:629-649 | A whole save always reports success; the file is the image exactly when no write was short, and then decodes to the mirror of the current tree exactly if its root has no values |
| `Sessions.StepInv` | register.c:611-657 | Hooks, steps of their saves and restarts keep the tree in memory well formed and the one the saves are about |
| `Sessions.FileFollowsHooks` | register.c:653-657 | Over any number of processes, any calls of the hooks, and saves that fail, are cut short or are interrupted: register.reg is absent or from the save of a tree the hooks had built; if that save was complete it loads to its mirror exactly if the root had no values |
| `Sessions.HookThenSave` | register.c:629-649 | After a hook that changes the tree and its complete save, register.reg is the image of the tree in memory and loads to its mirror exactly if the root has no values |
| `Wire.WriteHeader` | inject.c:45-51 | The eight bytes written, whatever the buffer held, and nothing after them |
| `Wire.HeaderRound` | inject.c:45-58 | Reading a written header gives back every 32-bit length |
| `Wire.HeaderUnround` | inject.c:54-58 | Writing what was read gives back the header exactly when its first four bytes are zero |
| `Wire.BlockIs` | inject.c:631-637 | A completed read gets the first bytes, as many as it has room for, of four zeros, the length with its least significant byte first, and the frame |
| `Wire.ExtractIs` | inject.c:393-402 | A block written is ignored if shorter than eight bytes or than its length says; otherwise the frame is as many bytes after the eighth as the length says |
| `Wire.OverrunIff` | inject.c:393-402 | The 32-bit guard lets a length through that runs past the buffer exactly when it is within 8 of 2^32 |
| `Wire.ReadThenWrite` | inject.c:393-412 | Writing back a block that a read completed with sends the same frame, exactly when the read's buffer held all of it; otherwise nothing |
| `Wire.BuildControl` | tap_client_udp.c:143-152 | The control packet: type, command, data |
| `Wire.SettersRoundTrip` | tap_client_udp.c:157-184 | The bridge recovers the command and every field of each of the six setters, whatever its buffer held |
| `Wire.PacketsAre` | tap_client_udp.c:143-184 | The data packet, the registration and the six control packets, byte by byte |
| `Wire.ActIs` | linux_tap.c:319-356 | What the bridge makes of every datagram of up to 2048 bytes by its first two bytes, those of no known type or command included |
| `Wire.FrameToTap` | linux_tap.c:347-354 | A submitted frame reaches TAP as its first 2047 bytes, so whole exactly when it is shorter than the buffer |
| `Wire.OwnBytesIff` | linux_tap.c:324-346 | What a control datagram does depends on it alone exactly when it is as long as its handler reads; otherwise bytes of earlier datagrams are used |
| `Netmask.CountLeadingOnes` | emulate_driver_running.c:3645-3648 | The loop counts the leading ones of the mask |
| `Netmask.MaskToPrefix` | emulate_driver_running.c:3636-3649 | -1 for a text that does not give four numbers; otherwise the number of leading ones of the four numbers, shifted into place and joined by bitwise or, whatever their size |
| `Netmask.TypedOctets` | emulate_driver_running.c:3636-3649 | For four octets, the joined word is the mask they spell |
| `Netmask.TypedBits` | emulate_driver_running.c:3636-3649 | Bit k of the joined word is set exactly if one of the four numbers has the bit set that its shift by 24, 16, 8 or 0 brings there |
| `Netmask.OnLinkPrefixLength` | emulate_driver_running.c:5302-5307 | The second count runs on the byte-swapped mask, and gives 32 for a text that is no address |
| `Netmask.LeadingOnesOfContiguous` | emulate_driver_running.c:3645-3648 | p ones and then zeros count as p |
| `Netmask.LeadingPart` | emulate_driver_running.c:3645-3648 | A mask lies between the contiguous mask of its count and the next one |
| `Netmask.BridgeMaskIsContiguous` | linux_tap.c:99 | The bridge's shift expression is p ones and then zeros, for every p up to 32 |
| `Netmask.BridgeMaskOctets` | linux_tap.c:99 | The bridge's mask for p, octet by octet; none for p over 32 |
| `Netmask.ContiguousIff` | emulate_driver_running.c:3645-3648 | Four octets are ones and then zeros exactly if they are one of these 33 |
| `Netmask.PrefixMaskPrefix` | linux_tap.c:99 | Counting the bridge's mask for p gives p |
| `Netmask.MaskPrefixMask` | emulate_driver_running.c:3636-3649 | Rebuilding from the count gives the leading ones of the mask, and the mask itself exactly when it is contiguous |
| `Netmask.SwappedCountDisagrees` | emulate_driver_running.c:5302-5307 | The swapped count for prefix length p is 32 for 32, 0 up to 24 and p - 24 between: right for 0 and 32 only |
| `Netmask.NetshMaskReachesInterface` | linux_tap.c:79-103 | Through count, datagram, decoding and mask builder the interface gets the mask asked for exactly when it is contiguous |
| `Netsh.CopyField` | emulate_driver_running.c:3740-3744 | The copying loop stops at a quote, a space or the limit, terminates the field and leaves the rest of it alone |
| `Netsh.FindFirst` | emulate_driver_running.c:3734-3738 | The search finds a word exactly if the text contains it, and then its first place |
| `Netsh.FieldIs` | emulate_driver_running.c:3739-3744 | A field is the text after the first place of its key, without one opening quote, up to the first quote or space, the end, or the limit, and nothing else |
| `Netsh.UnquotedField` | emulate_driver_running.c:3739-3744 | A value without quotes, followed by a space or nothing, is recovered whole exactly when it is within the limit |
| `Netsh.QuotedField` | emulate_driver_running.c:3832-3843 | A quoted value is recovered exactly when it has no space and fits; `interface="Radmin VPN"` is cut at the space |
| `Netsh.BridgedEncoded` | tap_client_udp.c:143-184 | A series of setters applied through the bridge, its stale buffer included, has the effect of the commands in order |
| `Netsh.NetshReachesInterface` | emulate_driver_running.c:3872-3936 | What a netsh command line does to the interface behind the bridge: address, leading part of the mask, IPv6 address, link state with disable winning, gateway and MAC never |
| `Netsh.AddressAndMaskArrive` | emulate_driver_running.c:3734-3770 | From the text: `addr=` (or `address=`) v and `mask=` m, quoted or not, in any order: the interface gets the address read from v, and the mask read from m exactly if its octets are ones and then zeros; only the words `interface set interface` with ENABLE or DISABLE turn the link |
| `Netsh.Address6Arrives` | emulate_driver_running.c:3895-3908 | An address with a colon sets the IPv6 address alone and brings the link up unless the text says DISABLE |
| `Netsh.WordsAlone` | emulate_driver_running.c:3712-3723 | Without an address, or with an IPv4 address and no mask, only the words count |
| `Netsh.DatagramArrives` | linux_tap.c:319-346 | What each of the six datagrams, byte by byte, does to the interface |
| `PendingQueue.HandleContext.Append` | inject.c:360-370 | The queue afterwards ends in the new read; head and tail stay well formed |
| `PendingQueue.HandleContext.Search` | inject.c:594-599 | The search stops at the first read on the OVERLAPPED, with its predecessor |
| `PendingQueue.HandleContext.Unlink` | inject.c:593-606 | The first read on the OVERLAPPED leaves the queue, in order; head and tail stay null together and tail last |
| `PendingQueue.HandleContext.Poll` | inject.c:593-679 | A poll without data moves the read to the back |
| `PendingQueue.PolledKeeps` | inject.c:662-679 | Moving to the back loses and duplicates nothing |
| `PendingQueue.PollingRoundRestores` | inject.c:662-679 | Polling every queued read once, in order and without data, restores the queue |
| `Receive.ReceiveMatching` | inject.c:618-660 | The loop terminates, takes a prefix of the datagrams, and returns the block of the first frame that passes, leaving the rest of the caller's buffer alone |
| `Receive.CopyBlock` | inject.c:631-637 | The caller's buffer gets header and frame, cut to its size |
| `Receive.FirstMatch` | inject.c:618-660 | The loop returns the first datagram of 14 to 2048 bytes whose frame goes to a group address or to the address the handle was given, reached over datagrams of such a length only, and has taken just those before it |
| `Receive.CompletesIff` | inject.c:621-659 | It returns a frame exactly when there is such a datagram with none of another length ahead of it |
| `Receive.WhatIsDropped` | inject.c:640-659 | Without a frame the loop has emptied the socket or taken one datagram of another length; no frame it dropped was to a group or to the handle's address |
| `Receive.OneFrame` | inject.c:219-235 | One readable frame: with an odd first octet it completes the poll of every handle that was given an address, with an even one of just those given its destination |
| `Receive.NoFilterNoFrame` | inject.c:219-223 | With no MAC set nothing is ever returned |
| `ReadEngine.StepConserves` | inject.c:360-372 | Every step between which threads may switch keeps each read in one place |
| `ReadEngine.RunConserves` | inject.c:593-699 | Over every interleaving of any number of threads each submitted read is once in the queue, held by one thread or completed once, and nothing else is |
| `ReadEngine.StartConserves` | inject.c:127-142 | A handle just opened satisfies this |
| `ReadEngine.OnePlaceAlways` | inject.c:360-699 | The same place by place, on every interleaving from the opening on: the reads submitted are those in the queue, those some thread has taken out, and those completed, no read in two of these and none twice |
| `ReadEngine.DrainIsReceive` | inject.c:618-660 | The receive steps of an undisturbed thread are the receive loop |
| `ReadEngine.PollAlone` | inject.c:575-699 | The steps of one undisturbed poll: a read not found or without a frame leaves the queue as it was or with it at the back; one with a frame completes with the first that passes; every other read keeps its mail |
| `ReadEngine.PollIsRun` | inject.c:575-699 | Those steps are a run of the engine |
| `ReadEngine.StatusAfter` | inject.c:662-684 | An undisturbed poll leaves alone every status but its own, and that one too unless it completes its read |
| `ReadStatus.StepInv` | inject.c:662-684 | Every step keeps: one read in flight for each OVERLAPPED, pending exactly while its read is in flight and ReadFile is past its store |
| `ReadStatus.PollTellsTruthIff` | inject.c:585-590 | A poll's answer on completion is true exactly when no ReadFile on its OVERLAPPED is still under way |
| `ReadStatus.StepCount` | inject.c:683 | Every step keeps the stored count that of the last completed read, unless its store is under way |
| `ReadStatus.CountLags` | inject.c:682-683 | Between the two stores another poll is told the read is done with the count stored before |
| `Counterexamples.EarlyPollReached` | inject.c:360-374 | On a handle just opened, a poll that comes between the queueing of a read and the store of STATUS_PENDING reports completion, with a count of 0, of a read still queued |
| `ReadStatus.RunTruth` | inject.c:304-374 | All of this over every interleaved run in which an OVERLAPPED is reused only when its read is over |
| `ReadStatus.RunFromStart` | inject.c:127-142 | The same from the opening of the handle on, together with the conservation of reads |
| `ReadStatus.FieldsTell` | inject.c:575-699 | At every moment: Internal says pending exactly while some read submitted on the OVERLAPPED has not completed, unless a ReadFile is still to store so; InternalHigh is eight more than the length of the last frame given to a read on it, or the buffer's length if less, unless a poll is still to store it |
| `Device.DeviceHandle.SetMacFilter` | inject.c:514-523 | Only an input of six bytes sets the filter |
| `Device.DeviceHandle.ReadFile` | inject.c:294-374 | Error cases; otherwise the read, a new object, goes to the back of the queue, its socket is new and empty and has sent the registration, every other socket stays, and the OVERLAPPED is pending |
| `Device.DeviceHandle.WriteFile` | inject.c:380-450 | What is sent for a block and when, while all bytes are reported written in any case; and when exactly the copy runs past the caller's buffer |
| `Device.DeviceHandle.Finish` | inject.c:614-699 | From the unlinked read on: completed with the block of the frame found, or queued again with buffer and OVERLAPPED untouched |
| `Device.DeviceHandle.GetOverlappedResult` | inject.c:575-699 | The whole poll, in all its cases, on queue, socket, OVERLAPPED and the caller's buffer |
| `Device.DeviceHandle.PollAnswers` | inject.c:618-684 | A poll of a queued read ends exactly if a datagram on its socket has a frame to a group or to the handle's address with none too short or too long ahead of it, and then reports eight bytes more than the first such frame has, or the buffer's length if less; otherwise it reports that there is nothing yet |
| `Device.DeviceHandle.BufferAfter` | inject.c:631-637 | The caller's buffer after a poll, byte by byte: header and frame as far as asked for, the rest as it was, and all of it without a frame |
| `Device.DeviceHandle.PollAsSteps` | inject.c:575-699 | The poll takes objects, all OVERLAPPEDs of the application included, that agree with an engine state to objects that agree with the state the engine's steps lead to, and answers what those steps say |
| `Device.DeviceHandle.ReadAsSteps` | inject.c:294-374 | The same of ReadFile and its two steps |
| `DeviceRuns.RunCalls` | inject.c:294-699 | Any series of reads, polls, filter changes and datagrams over the objects leaves those of the engine state the steps lead to, and every poll is told what the steps say |
| `DeviceRuns.CallsAreRun` | inject.c:294-699 | Such a series is a run of the engine |
| `DeviceRuns.Session` | inject.c:127-142 | From the opening of a handle the objects are at the end of a run of the engine, so no read is lost or completed twice |
| `Bridge.TableIsLastAdmissions` | linux_tap.c:301-317 | The client table is always the last 32 entries of the log of admissions |
| `Bridge.TableShape` | linux_tap.c:301-317 | No client is in the table twice and the table never shrinks |
| `Bridge.EvictedByThe32nd` | linux_tap.c:309-316 | The client at the end of the table stays through 31 later admissions and is put out by the 32nd |
| `Bridge.StaysUntilThe32nd` | linux_tap.c:301-317 | The same of any read socket whose registration has just been received |
| `Bridge.BroadcastOnce` | linux_tap.c:283-290 | A TAP frame is sent once to every client and to nobody else |
| `Bridge.SentUntilEvicted` | linux_tap.c:268-290 | A registered socket is sent every TAP frame, once and in order, until the 32nd later admission and none after |
| `Bridge.DeliveryIff` | inject.c:618-640 | Over a network that keeps order and loses nothing, one poll after any history, frames too short included, completes exactly when a frame to a group or to the handle's address was read from TAP before the 32nd later admission with none under 13 bytes ahead of it |
| `Bridge.BridgeState.IsKnown` | linux_tap.c:302-308 | The search over the array finds exactly the clients |
| `Bridge.BridgeState.DropOldest` | linux_tap.c:313-314 | The in-place shift drops the first entry and keeps the others in order |
| `Bridge.BridgeState.Learn` | linux_tap.c:301-317 | The array afterwards is the specified table |
| `Bridge.BridgeState.TapToUdp` | linux_tap.c:268-290 | The packets sent for a TAP frame, one for each client, and the shared buffer afterwards: type byte, frame, old rest |
| `Bridge.BridgeState.UdpToTap` | linux_tap.c:295-365 | Table, buffer and action after a datagram, one too short or of unknown type included |
| `Pipe.HookGenuine` | inject.c:293-699 | No step of the hooks makes up a frame |
| `Pipe.ReceiveGenuine` | linux_tap.c:295-365 | Whatever datagram ever sent to it the bridge takes, it writes to TAP or applies only what the application sent |
| `Pipe.StepInv` | linux_tap.c:257-367 | Every step of application, network and bridge keeps both directions genuine |
| `Pipe.PipeSafe` | docs/How driver works.md:21 | Whatever the network loses, repeats or reorders and however threads interleave: reads complete only with frames read from TAP, cut to 2047 bytes, to a group or to the address the handle had; TAP gets only frames the application wrote, so cut; commands are those sent, no read is lost or completed twice |
| `Pipe.WrittenReachesTap` | inject.c:393-412 | A block as long as its length field says, written, and then anything at all: whenever the bridge receives the datagram, it writes just that frame, cut to 2047 bytes, to TAP, applies nothing and knows the sender |
| `Pipe.RawFrameReachesTap` | tap_client_udp.c:86-119 | The same of a frame of 1 to 2048 bytes sent by the client |
| `Pipe.CommandReachesBridge` | tap_client_udp.c:143-184 | A command sent, and then anything at all: whenever the bridge receives the datagram it applies just that command |
| `Schedules.CompletesIffLooked` | inject.c:593-679 | Over any schedule of frames of any length, senders, filter changes, polls and other events: the read completes exactly if some poll looks at a frame to a group or to the address last set; which frames a poll looks at depends on lengths, the table and the polls alone |
| `Schedules.CompletesWith` | inject.c:618-640 | It completes with the first such frame the polls look at, its first 2047 bytes |
| `Schedules.LookedSince` | inject.c:618-660 | With no frame too short, a poll looks at just the frames sent since the poll before it |
| `Schedules.InTableInTime` | linux_tap.c:301-317 | The frames sent to a read are those read from TAP before the 32nd admission after its registration |
| `Delivery.DeliveredIff` | linux_tap.c:268-317 | For runs of the whole system from the registration on in which the network delivers to the read at once, with any steps of other reads, other calls and other threads in between: the read has completed exactly if some poll looked at a frame, read from TAP before the 32nd later admission, to a group or to the address last set; and with the first of these, cut to 2047 bytes |
| `Delivery.DeliveredNextIff` | linux_tap.c:268-317 | With no frame under 13 bytes: exactly if some frame read in time is to a group or to the address set by the first poll after it |
| `Delivery.DoAllTracks` | inject.c:360-699 | Steps of other calls, by whichever thread, touch neither queue place, mail nor status of the read |
| `Delivery.RegisteredTracks` | inject.c:304-374 | ReadFile, with the bridge's receipt of its registration, leads to a state in which such a schedule can start, whatever other calls are under way |
| `Delivery.ScheduleIsRun` | linux_tap.c:257-367 | Every such schedule is a run of the system of `Pipe` |
| `ComRefs.StepInv` | emulate_driver_running.c:258-299 | Every call with a reference the client holds keeps the counts |
| `ComRefs.CountConserved` | emulate_driver_running.c:209-215 | Over any run the connection's count is one more than live collections, live enumerators and client references together, so it is never freed |
| `ComRefs.FreedInRun` | emulate_driver_running.c:149-158 | Over any run of a proper client a collection or enumerator is freed in the end exactly if some call of the run released its last reference, and then the client holds none |
| `ComLaws.ObjectCounts` | emulate_driver_running.c:146-158 | Counting the calls of any proper client from the start: as many collections and enumerators as were asked for, and each is referred to once, plus once for each AddRef on it, less each Release on it, which is what the client holds; freed exactly when that is none |
| `ComLaws.ConnectionCount` | emulate_driver_running.c:209-215 | The client's references to the connection are the Invokes, the Nexts that ask an enumerator for the first time or first since its Reset, and the AddRefs on it, less its Releases; its count is one more than these, the collections and the enumerators the client still refers to, and it is never freed |
| `ComRefs.OverReleaseFrees` | emulate_driver_running.c:3328-3333 | Two releases of references never given free the connection under a live collection |
| `ComRefs.FakeConnection.AddRef` | emulate_driver_running.c:3325-3327 | One count more |
| `ComRefs.FakeConnection.Release` | emulate_driver_running.c:3328-3333 | One count less, and the memory with the last |
| `ComRefs.Holder.constructor` | emulate_driver_running.c:290-299 | A new collection or enumerator with one reference, and one more on the connection |
| `ComRefs.Holder.Release` | emulate_driver_running.c:328-337 | The last release also gives back the reference to the connection |
| `ComRefs.Holder.Next` | emulate_driver_running.c:258-273 | The connection once, with a reference, then nothing; a request for none changes nothing |
| `ComRefs.World.GetEnumEveryConnection` | emulate_driver_running.c:481-486 | The singleton is made on first use, new; the collection returned is the one added; the objects afterwards are the specified state |
| `ComRefs.World.GetNewEnum` | emulate_driver_running.c:363-368 | The enumerator returned is the one added; the objects afterwards are the specified state |
| `ComRefs.World.CallNext` | emulate_driver_running.c:258-273 | The same of Next |
| `ComRefs.World.CallRelease` | emulate_driver_running.c:149-158 | The same of Release on either kind of object |
| `ComRefs.World.CallAddRef` | emulate_driver_running.c:146-148 | The same of AddRef, which `ComLaws.ObjectCounts` counts |
| `ComRefs.World.CallValue` | emulate_driver_running.c:343-361 | The same of Invoke for the default value |
| `ComRefs.World.CallReset` | emulate_driver_running.c:274 | The same of Reset |
| `ComRefs.World.CallConnRelease` | emulate_driver_running.c:3328-3333 | The same of the client's Release of the connection |
| `ComRefs.World.CallConnAddRef` | emulate_driver_running.c:3325-3327 | The same of its AddRef |
| `ComRuns.RunCalls` | emulate_driver_running.c:209-215 | Any run of a proper client over the objects leaves those of the counted state, and the connection not freed |
| `ComRuns.Session` | emulate_driver_running.c:481-486 | The same from the start |

## Left out

- RegHeap.Registry.Record: the table is a sequence that grows by one; its doubling by HeapReAlloc is not modelled.
- RegHeap.Registry.LoadTree: only for files whose reads all succeed; what a read past the end of the file leaves in its target is undefined in the source, and the value-level reader answers None there.
- RegHeap.Registry.OpenKeyHook: as for every hook, a handle that leads to freed memory may not be used; freed keys stay as objects the tree no longer reaches.
- HookLaws.OpenAnswers: for coherent tables and paths the buffers hold, without doubled or leading separators where they are redirected, so too in HookLaws.CreateAnswers; what happens otherwise is in Handles.RunCoherentIff, Handles.OpenKeyTransparent and Redirect.DesignMetIff. A table of 0x50000000 handles or more, which would run into the predefined ones, is not considered.
- CrashSafe.CrashConsistent: what the loader makes of a file cut short, or with values on the root, is an arbitrary tree. The rename is atomic, and saves do not overlap, which the source's lock ensures.
- Sessions.FileFollowsHooks: a hook runs only between saves, and only if its handle does not lead to freed memory and the sizes and counts of the tree it leaves fit 32 bits.
- Handles.RecreatedKeyIsStale: a key's place in the arena is never used again, as if the allocator did not hand freed memory out again; so too in Counterexamples.StaleHandleReached. If it gives the new key the old one's address the stale handle leads there.
- Wire.OwnBytesIff: the effect of a command on the interface is the command itself; the mask and the ioctls are in Netmask and Netsh.
- Netmask.MaskToPrefix: what swscanf reads of the text is a parameter; so is what inet_addr reads in Netmask.OnLinkPrefixLength.
- Netsh.NetshReachesInterface: the functions that read addresses are parameters; the globals that other hooks answer from, the metrics and the rename are not modelled.
- Device.DeviceHandle.WriteFile: says when the copy runs past the caller's buffer; what is sent then is undefined in the source.
- ReadStatus.RunTruth: for applications that reuse an OVERLAPPED only when its read is over and no call on it is under way; an OVERLAPPED starts out zero. CloseHandle with reads in flight is not modelled.
- ReadEngine.RunConserves: a store to the MAC filter is one step.
- Pipe.PipeSafe: nobody but the application and the bridge sends datagrams, and none is altered on the way.
- Bridge.DeliveryIff: the read socket's address is not in use by another sender meanwhile; so too in Delivery.DeliveredIff.
- Delivery.DeliveredIff: frames for the read reach its socket at once, and no other call is made on its OVERLAPPED until it is over; Pipe.PipeSafe and ReadStatus.RunTruth are for polls of it that interleave.
- DeviceRuns.RunCalls: one thread makes the calls, and a new socket's address is none a queued read has; sockets of completed reads stay open. ReadStatus.RunTruth and ReadEngine.RunConserves are for any number of threads.
- ComLaws.ObjectCounts: for clients that use only references they hold; ComRefs.OverReleaseFrees shows why.
- ComRefs.CountConserved: counts are unbounded integers, and allocations succeed; the enumerator's IDispatch wrapper is never made by the source and is left out.
- Registry changes are not locked against each other or against a save in the source; the hooks are modelled one at a time.
- RegGetValueW, RegNotifyChangeKeyValue, RegCloseKey, security, WMI and network list objects: each is settled by reading one branch.
- The list of fake device handles: prepending, finding and unlinking by handle, easier than the queues modelled.
- Proxies, injection, logging, configuration parsing, adapter list layouts: effects or stubs without a property of their own.
