# SwiftHook vtable walk and patch, modelled in Dafny

SwiftHook replaces a Swift method at run time by overwriting its entry in the
class's vtable. It reads the class's metadata record in place. From the
`ivarDestroyer` field up to the end that `classSize` and `classAddressOffset`
give, it treats every word as a slot holding a code address. It turns each
address into a readable method name with the dynamic linker's symbol lookup
(`fast_dladdr`) and the Swift demangler. The slot whose name equals the
requested signature gets the replacement address.

The model keeps that structure:

- `Metadata`: the `SwiftClassMetada` layout. A lemma computes from the field
  sizes and their natural alignment that `ivarDestroyer` sits at word 9. This
  module also holds the class-name filter, the slot-count arithmetic and a
  class's record; the runtime owns that record and the hook writes its slots
  in place (`class ClassMetadata`, slots in an `array`).
- `Symbols`: the two runtime services, each an opaque function supplied by the
  caller. `dladdr` maps an address to an optional `DlInfo` whose symbol name is
  optional. `demangle` maps a symbol to an optional readable name. `Resolve`
  chains them the way the loop does, after the null check.
- `Traversal`: `iterateMethods`. Its callback is a function from the state the
  Swift closure captures, the name and the slot's address to a `Step`. A `Step`
  holds the new state, the address the slot holds afterwards and the `stop`
  flag. The pure function `Walk` specifies the loop. The method
  `IterateMethods` runs it on the live array and is proved equal to `Walk`.
- `Hooks`: `methodNames` and `aspect(aClass:methodName:replacement:)`, each as
  a callback, a reference definition (`ResolvedNames`, `FirstMatch`) and the
  method.
- `Registry`: `forAllClasses` and `aspect(methodName:replacement:)` over the
  class list. The callback passed to `forAllClasses` writes memory, so it is a
  datatype (`ClassCallback`) whose one case is the closure that
  `aspect(methodName:)` passes.
- `Scenario`: the repository's test, plus a hook whose name matches no slot, on a synthetic runtime and synthetic class images (not the real `TestClass` metadata).

Units of the walk's bounds: line 76 offsets the class handle, typed as a
pointer to pointer-sized words, by `- classAddressOffset + classSize`. So both
fields count as words there, and a class is walked over `classSize -
classAddressOffset - 9` slots (`Metadata.SlotCount`). The runtime's
documentation gives both fields in bytes. The model keeps the source's
arithmetic. Its slot array stands for the words the walk reads, whether or not
they lie inside the record.

After a successful hook, `methodNames` reports whatever name the replacement
address resolves to, so the name listed for the patched slot changes unless the
replacement resolves to the same name. The model makes no claim that it stays
the same.

## Model

| member | source | states |
|---|---|---|
| `Metadata.IvarDestroyerIsWordNine` | SwiftHook/SwiftHook.swift:11-27 | laid out with natural alignment, the fields of `SwiftClassMetada` put `ivarDestroyer` (field 13) at byte 72, i.e. word `VtableStartWord` = 9 |
| `Metadata.Eligible` | SwiftHook/SwiftHook.swift:69 | the class-name filter: the name starts with `_Tt` or contains `.`, and does not start with `Swift.`; its properties are stated by `StandardLibraryIneligible`, `MangledEligible` and `EligibleNames` |
| `Metadata.VtableEndWord` | SwiftHook/SwiftHook.swift:76 | the end of the walk as a word index from the class handle: `classSize - classAddressOffset`, both fields counted in words as line 76 does |
| `Metadata.SlotCount` | SwiftHook/SwiftHook.swift:73-81 | the number of slots walked: `classSize - classAddressOffset - 9`, the distance from `ivarDestroyer` (word 9, `IvarDestroyerIsWordNine`) to the end word; negative when line 81 would trap |
| `Metadata.StandardLibraryIneligible` | SwiftHook/SwiftHook.swift:69-71 | no class whose name starts with `Swift.` is walked, whatever else its name holds |
| `Metadata.MangledEligible` | SwiftHook/SwiftHook.swift:69-71 | every class whose name starts with `_Tt` is walked |
| `Metadata.ClassMetadata.constructor` | SwiftHook/SwiftHook.swift:11-27 | a class record holds the given name, size fields and slots, in a fresh slot array |
| `Metadata.EligibleNames` | SwiftHook/SwiftHook.swift:69 | the filter admits a dotted Swift name and a `_Tt` name, and rejects an Objective-C name without a dot and a `Swift.` standard-library name |
| `Symbols.ResolveFound` | SwiftHook/SwiftHook.swift:82-86 | conversely, a non-null slot whose address `dladdr` finds, with a named symbol, yields exactly the demangler's output for that symbol, which the loop hands to the callback when it is a name |
| `Symbols.Resolve` | SwiftHook/SwiftHook.swift:82-85 | a slot yields a name only if it is non-null, `dladdr` finds a symbol, the symbol has a name, and that name demangles; the name is the demangler's output |
| `Traversal.ResolvableSpec` | SwiftHook/SwiftHook.swift:81-86 | the slots handed to the callback are exactly the resolvable slots of the range, each once, in strictly ascending order |
| `Traversal.Resolvable` | SwiftHook/SwiftHook.swift:81-85 | the indices in `[i, n)` whose slot passes the null, `dladdr`, `dli_sname` and demangle checks; its properties are stated by `ResolvableSpec` |
| `Traversal.Visit` | SwiftHook/SwiftHook.swift:82-90 | one turn of the loop on slot `k`: skip a slot that does not resolve; otherwise call the callback with the name and the slot's address, store the slot value it returns, and report its `stop` |
| `Traversal.Walk` | SwiftHook/SwiftHook.swift:81-92 | the walk keeps the number of slots |
| `Traversal.Iterate` | SwiftHook/SwiftHook.swift:63-97 | `iterateMethods` on a snapshot: `false` with nothing visited for a class the filter rejects, otherwise `Walk` over `SlotCount` slots from `ivarDestroyer`; the method `IterateMethods` is proved equal to it |
| `Traversal.IterateIneligible` | SwiftHook/SwiftHook.swift:69-71 | for a class the filter rejects, the walk returns `false`, calls no callback and leaves every slot as it was |
| `Traversal.WalkVisitsResolvable` | SwiftHook/SwiftHook.swift:81-92 | if no callback sets `stop`, the callback runs on every resolvable slot of `0 ..< count`, in ascending order, and on no other |
| `Traversal.WalkVisitsUntilStop` | SwiftHook/SwiftHook.swift:86-89 | if a callback sets `stop`, the callback ran on the resolvable slots in ascending order up to and including the one that set it, and on none after it |
| `Traversal.WalkStopsAtLast` | SwiftHook/SwiftHook.swift:86-89 | when the walk stops, the last slot visited is the one whose callback set `stop`, reached without an earlier stop |
| `Traversal.WalkFrame` | SwiftHook/SwiftHook.swift:81-92 | a slot not handed to the callback (skipped, past the stop, or outside the range) keeps its contents |
| `Traversal.WalkSplit` | SwiftHook/SwiftHook.swift:86-89 | walking `[i, n)` is walking `[i, k)` and then, only if that did not stop, `[k, n)` from the state it reached; once a callback stops the walk nothing later runs |
| `Traversal.StopsAt` | SwiftHook/SwiftHook.swift:86-89 | the callback on slot `k` is reached by a walk from `i` that had not stopped before it, and sets `stop` |
| `Traversal.WalkStoppedIff` | SwiftHook/SwiftHook.swift:86-96 | the walk returns `true` exactly when some callback, reached without an earlier stop, set `stop` |
| `Traversal.IterateMethods` | SwiftHook/SwiftHook.swift:63-97 | the loop over the live slot array returns the `stop` flag, the callback's final state, the new slot contents and the visited slots that `Iterate` (filter, then `Walk` over `classSize - classAddressOffset - 9` slots) gives for the old contents |
| `Hooks.CollectName` | SwiftHook/SwiftHook.swift:33-36 | the closure of `methodNames`: append the name, leave the slot's address as it was, never set `stop` |
| `Hooks.ResolvedNames` | SwiftHook/SwiftHook.swift:31-38 | the reference list of names: the resolved name of every resolvable slot in `[i, n)`, in slot order; its properties are stated by `ResolvedNamesAt` |
| `Hooks.ListedNames` | SwiftHook/SwiftHook.swift:31-38 | what `methodNames` returns: no names for a class the filter rejects, otherwise `ResolvedNames` over `SlotCount` slots |
| `Hooks.ResolvedNamesAt` | SwiftHook/SwiftHook.swift:31-38 | there is one collected name per resolvable slot, and the `j`-th name is the name of the `j`-th resolvable slot |
| `Hooks.CollectWalk` | SwiftHook/SwiftHook.swift:33-36 | the collecting callback never stops the walk and changes no slot; the walk appends exactly the resolved names in slot order |
| `Hooks.MethodNamesIterate` | SwiftHook/SwiftHook.swift:31-38 | `iterateMethods` with the collecting callback yields `ListedNames` (empty for an ineligible class) and leaves the slots unchanged |
| `Hooks.MethodNames` | SwiftHook/SwiftHook.swift:31-38 | `methodNames` returns `ListedNames` of the class and leaves every slot as it was |
| `Hooks.ReplaceNamed` | SwiftHook/SwiftHook.swift:50-56 | the closure of `aspect(aClass:)`: on an exact name match store the replacement and set `stop`, otherwise leave the slot's address and go on |
| `Hooks.FirstMatch` | SwiftHook/SwiftHook.swift:52 | the index found is a slot whose demangled name is exactly the target, and no earlier slot in the range has that name; with no index, no slot in the range has it |
| `Hooks.MatchIndex` | SwiftHook/SwiftHook.swift:49-57 | the slot `aspect(aClass:)` patches: none for a class the filter rejects, otherwise `FirstMatch` over `SlotCount` slots |
| `Hooks.Hooked` | SwiftHook/SwiftHook.swift:52-54 | after hooking, the matched slot holds the replacement; every other slot, the name and the size fields are unchanged |
| `Hooks.ReplaceWalk` | SwiftHook/SwiftHook.swift:50-56 | the replacing walk stops exactly at the first exact match, writes the replacement there only, and otherwise runs to the end with no slot changed |
| `Hooks.FirstMatchIffResolved` | SwiftHook/SwiftHook.swift:31-57 | a slot named `target` exists in a range exactly when `target` is among the names collected over that range |
| `Hooks.AspectIterate` | SwiftHook/SwiftHook.swift:49-57 | `iterateMethods` with the aspect callback returns `true` iff a match exists, and leaves the slots as `Hooked` says |
| `Hooks.AspectIffListed` | SwiftHook/SwiftHook.swift:31-57 | `aspect(aClass:)` finds a slot iff `methodNames` of the class lists that exact name |
| `Hooks.Aspect` | SwiftHook/SwiftHook.swift:49-57 | `aspect(aClass:)` returns whether a slot matched and leaves the class exactly as `Hooked` describes |
| `Registry.OnClass` | SwiftHook/SwiftHook.swift:43-44 | the per-class callback changes no class name, size field or slot count, so every class stays well formed |
| `Registry.VisitClass` | SwiftHook/SwiftHook.swift:106-107 | one turn of the class loop: the callback runs on class `j` alone, which keeps the number of classes and their well-formedness |
| `Registry.Sweep` | SwiftHook/SwiftHook.swift:105-110 | the sweep keeps the number of classes, and every class stays well formed |
| `Registry.SweepInOrder` | SwiftHook/SwiftHook.swift:105-110 | classes are handed to the callback in list order with none skipped: if `stopped` is false, every class was visited and no callback set `stop`; otherwise the visited classes are a prefix whose last class's callback set `stop` and no earlier one did |
| `Registry.FirstHookable` | SwiftHook/SwiftHook.swift:41-46 | the class found is one `aspect(aClass:)` would hook, and no earlier class in the list would |
| `Registry.AspectSweep` | SwiftHook/SwiftHook.swift:100-115 | the class sweep with the aspect callback stops at the first hookable class and changes that class alone, or visits every class and changes none |
| `Registry.AspectAllChangesOneSlot` | SwiftHook/SwiftHook.swift:41-46 | across all classes, at most one slot of one class changes: the first match of the first hookable class |
| `Registry.AspectAllKeepsShape` | SwiftHook/SwiftHook.swift:41-46 | whatever is hooked, every class keeps its name, size fields and slot count |
| `Registry.ForAllClasses` | SwiftHook/SwiftHook.swift:100-115 | a null class list gives `false`; otherwise the loop over the live classes returns `stopped` and leaves the classes as `Sweep` gives for their old contents |
| `Registry.AspectAll` | SwiftHook/SwiftHook.swift:41-46 | `aspect(methodName:)` returns `true` iff some listed class has an exact match, and leaves the classes as `HookedAll` (first such class hooked, the rest untouched) |
| `Scenario.TestClassNames` | SwiftHookTests/SwiftHookTests.swift:31 | on a synthetic `TestClass` image (three walked slots: a null one, `print`, and an address with no symbol name), `methodNames` lists `SwiftHookTests.TestClass.print(str: Swift.String) -> ()` alone, skipping a null slot and a nameless symbol |
| `Scenario.HookPrint` | SwiftHookTests/SwiftHookTests.swift:33-38 | on the synthetic `TestClass` image, hooking by the full signature patches the `print` slot with the replacement and nothing else |
| `Scenario.HookMissingMethod` | SwiftHook/SwiftHook.swift:49-57 | the no-match path of `aspect(aClass:)` on the synthetic `TestClass` image: a name no slot has (`TestClass.doesNotExist()`) finds nothing and leaves the class unchanged |
| `Scenario.HookPrintAcrossClasses` | SwiftHook/SwiftHook.swift:41-46 | across a list holding an Objective-C class and `TestClass`, the filter passes over the first and the second is hooked |

## Left out

- The bodies of `demangle` and `swift_demangle` (lines 117-126, 133-141): foreign runtime calls and C-string memory handling (`strlen`, `free`). The demangler is an opaque `Symbol -> Option<string>`.
- `fast_dladdr` and `Dl_info` (lines 80, 84): a symbol-table lookup defined outside the repository. It is an opaque `Addr -> Option<DlInfo>`; only the `dli_sname` field is kept.
- `objc_copyClassList`, its count out-parameter and the final `free` (lines 102-111): the class list is a given `Option<seq<ClassMetadata>>`. Allocating and freeing the buffer is not modelled.
- `NSStringFromClass` (line 66): the name is a constant field of each class. Swift `String` comparison (Unicode canonical equivalence in `hasPrefix`, `contains`, `==`) is modelled as equality of character sequences.
- Address 0: a non-null slot may hold `Some(0)` in the model, although an `UnsafeMutableRawPointer` is never 0. No lemma depends on it either way.
- Raw memory reinterpretation (`autoBitCast`, `unsafeBitCast`, `withMemoryRebound`, `withUnsafeMutablePointer`; lines 65, 73-77, 129-131): replaced by index arithmetic over each class's slot array. Real addresses, strides and pointer validity are not modelled. Slot memory of distinct classes is assumed disjoint (`Registry.ValidRegistry`), so a walk that runs past its record into another class's memory is not modelled.
- The metadata fields other than `classSize` and `classAddressOffset` are never read; they appear only in the layout lemma.
- The trap of `0 ..< n` when `classSize - classAddressOffset < 9`: `ClassMetadata.Valid` excludes it for eligible classes, together with the requirement that the slot array covers every slot the walk reads. The model has no trap outcome.
- `Registry.ForAllClasses`: requires every listed class to satisfy `Valid`, although the source reads only the classes up to the first success.
- `Registry.ForAllClasses`, `Registry.SweepInOrder`: `forAllClasses` takes any closure, but the model has one callback, the one `aspect(methodName:)` passes (`ClassCallback.AspectEach`). So the in-order, stop-at-first behaviour is proved for that callback alone.
- `Registry.AspectAll`: requires every listed class to satisfy `Valid` for the same reason. So it says nothing about a list in which an eligible class with `classSize - classAddressOffset < 9` comes after the first hookable class, although the source returns `true` there without reaching that class.
- `Registry.Sweep`, `Registry.FirstHookable`, `Registry.HookedAll`: require every class to be well formed (`AllWellFormed`), the value-level form of the same restriction, even for classes after the one where the sweep stops.
- The callback writes through `&vtableStart[i]!`, a pointer to the slot. In the model the callback returns the value the slot holds afterwards, and the walk stores it, so each slot the callback visits is rewritten even when its value does not change.
- Dispatch through the patched slot and calling-convention compatibility (`@convention(thin)` in the test): only the stored replacement address is modelled. The test's check that calling `print` runs the replacement is therefore not modelled.
- The XCTest harness itself, and concurrency: the source has no synchronisation and none is modelled.
