# GNUstep non-fragile ivar pass, modelled in Dafny

This project models `GNUNonfragileIvarPass` from the GNUstep Objective-C runtime's LLVM optimisation passes. The pass is a function pass. For each function it finds the double load `load(load(@__objc_ivar_offset_C.i))`, which reads an ivar's offset indirectly through its offset slot. When the class `C` and its superclasses are visible in the module, the pass computes the offset at compile time: the outer load becomes that constant and both loads are deleted. Failing that, when the module holds the direct offset global `__objc_ivar_offset_value_C.i`, that global replaces the inner load.

The project has these modules:

- `Wrappers`: `Option`.
- `Metadata`: the parts of an LLVM module the pass reads. These are the pointer-size report and the globals, with linkage and with class structures already decoded. The unchecked `cast<>`s of the code become the precondition `WellFormed`.
- `ClassLayout`: `sizeOfClass` and `hardCodedOffset` as functions, with their case analysis and the ancestry lemmas.
- `OffsetSlots`: the slot-name prefixes, `split('.')` and the decoding round trip.
- `Ir`: a small instruction language and `Function`, a class whose `blocks` field is edited in place by `ReplaceAllUsesWith` and `RemoveFromParent`.
- `IvarPass`: the scan and apply specification functions and their lemmas. It also holds the class `NonfragileIvarPass`, with the fields `unit` (`M`) and `pointerSize` (`PointerSize`) and the imperative methods `DoInitialization`, `HardCodedOffset` and `RunOnFunction`.
- `LayoutExamples`: concrete class layouts.

`sizeOfClass` recurses along the superclass names and would not stop on a cyclic chain. The model therefore requires of `RunOnFunction` that every chain stops (`Acyclic`). `Acyclic` is defined as: every chain stops within as many lookups as the module has globals. `SizeOfClass` is computed with that much fuel. `SizeWithinFuel` shows that the result does not depend on the fuel.

The code behaves as follows in the cases where the obvious reading of the pass would differ. The model takes names without the trailing NUL that `getAsString` keeps; the items that depend on a superclass lookup hold for such names, and the `getAsString` line under "## Left out" says what the code as written gives instead.

- In the fallback case, the code records only `(innerLoad, valueGlobal)`. The value global takes over the uses of the inner load, and the inner load is removed. The outer load stays and now loads the offset from the value global (`IvarPass.FallbackOuterLoadsValueGlobal`).
- A class whose structure is missing counts as size 0 in `sizeOfClass`; it is not "unresolved". The ivars of a class directly below a missing class do not resolve, because the superclass size is 0 and `hardCodedOffset` then returns 0. One level further down, an offset does resolve, and it ignores the missing class's storage (`LayoutExamples.MissingAncestorOffsets`).
- Ivar names are matched by prefix (`compare(0, ivarName.size(), …)`). The first ivar whose name starts with the requested name wins (`LayoutExamples.PrefixMatchShadows`). A slot suffix without a `.` gives an empty ivar name, which matches the first ivar.
- The results are plain numbers with 0 as the failure value, so a genuine offset of 0 cannot be told apart from failure.
- In a three-level hierarchy `Base : nil` (size field -8), `Mid : Base` (-16) and `Leaf : Mid`, the ivar `flag` of `Leaf` at local offset 16 resolves to `sizeOfClass(Mid) + 16 = 24 + 16 = 40` (`LayoutExamples.ThreeLevels`), for names without the terminator.
- `hardCodedOffset` looks the class up with local linkage allowed. `sizeOfClass` and the value-global lookup use the default lookup, which skips globals with local linkage (`LayoutExamples.LocalClassHiddenFromSizeOfClass`).
- The ivars of `NSObject` and `Object`, and of any other class with a null superclass, never resolve, because the superclass size is 0.

Instructions are named by numbers. The lemmas that follow a rewrite to the instructions using it assume that these numbers are unique (`Ir.UniqueIds`), as every LLVM instruction is a distinct value. A global operand is either a global variable (`GlobalAddr`) or some other global-based constant (`OtherConstant`: a function, an alias or a constant expression such as a bitcast of a global). `dyn_cast<GlobalVariable>` rejects the second kind, so a load of a load of such an operand is neither a candidate nor a reason to stop scanning the block.

## Model

| member | source | states |
|---|---|---|
| IvarPass.NonfragileIvarPass.DoInitialization | opts/IvarPass.cpp:27-33 | stores the module; the pointer size is 4 exactly when the module reports 32-bit pointers and 8 otherwise; returns false |
| Metadata.SuperName | opts/IvarPass.cpp:35-40 | the empty string for a null superclass reference, otherwise the superclass's name |
| Metadata.SuperNameEmptyIffNull | opts/IvarPass.cpp:35-40 | for a class structure the lookup finds, `getSuperName` returns the empty string exactly when the superclass reference is null, since a named superclass's string is never empty |
| Metadata.GetGlobalVariable | opts/IvarPass.cpp:50 | a global is found exactly when it exists and either local linkage is allowed or its linkage is not local; the global found is the one under that name |
| Metadata.ClassOf | opts/IvarPass.cpp:50-52 | a class structure is found exactly when the `_OBJC_CLASS_<name>` global is visible; it is that global's initializer, its ivar count fits its ivar array, and a named superclass's name is not empty |
| ClassLayout.SizeWithin | opts/IvarPass.cpp:42-56 | computes `sizeOfClass` along the superclass chain with a step bound; its contract is `SizeOfClassCases`, `SizeWithinFuel` and `SizeAlongAncestry` |
| ClassLayout.SizeOfClass | opts/IvarPass.cpp:42-56 | `sizeOfClass`, computed by `SizeWithin` with `|globals|` steps; its contract is `SizeOfClassCases`, `SizeFromBuiltinRoot` and `MissingAncestorContributesZero` |
| ClassLayout.SizeOfClassCases | opts/IvarPass.cpp:42-56 | `SizeOfClass` (`sizeOfClass`, computed by `SizeWithin`) is 0 for the empty name; it is the pointer size for any name starting with `NSObject` or `Object`, without reading metadata; it is 0 for a class with no visible structure; otherwise it is the superclass's size minus the stored size field |
| ClassLayout.EndsWithinMonotone | opts/IvarPass.cpp:50-55 | a superclass walk that stops within some number of steps also stops within any larger number |
| ClassLayout.SizeWithinFuel | opts/IvarPass.cpp:42-56 | the computed size does not depend on the step bound, once the walk fits in it |
| ClassLayout.SizeAlongAncestry | opts/IvarPass.cpp:50-55 | along a superclass walk, the first class's size is the last class's size minus the size fields of the classes before it |
| ClassLayout.SizeFromBuiltinRoot | opts/IvarPass.cpp:44-55 | when every ancestor up to `NSObject`/`Object` is visible, the size is the pointer size minus the sum of the size fields along the chain |
| ClassLayout.MissingAncestorContributesZero | opts/IvarPass.cpp:44-55 | a chain that ends at a missing class or at the null superclass gives minus the visible size fields: a missing ancestor is treated as size 0 |
| ClassLayout.SizeFieldSumNonPositive | opts/IvarPass.cpp:53-55 | negative-encoded size fields sum to a non-positive total |
| ClassLayout.FirstMatchFrom | opts/IvarPass.cpp:69-79 | finds the first index below the ivar count whose name starts with the requested name, or reports that none does |
| ClassLayout.HardCodedOffset | opts/IvarPass.cpp:58-81 | 0 when the class is not visible (local linkage allowed), when the superclass size is 0, or when the superclass is null; otherwise the superclass size plus the offset of the first prefix-matching ivar, or 0 when no ivar matches |
| ClassLayout.ResolvesDeclaredIvar | opts/IvarPass.cpp:58-81 | with a visible ancestry up to a recognised root, non-positive size fields and a positive pointer size, an ivar with exactly the requested name and no earlier prefix match resolves to the pointer size minus the ancestors' size fields plus its own offset |
| IvarPass.NonfragileIvarPass.HardCodedOffset | opts/IvarPass.cpp:58-81 | the early returns and the loop over the first `ivarCount` ivars compute `ClassLayout.HardCodedOffset` |
| OffsetSlots.SlotSuffix | opts/IvarPass.cpp:100-103 | the slot name is the prefix followed by the suffix |
| OffsetSlots.SplitAtDot | opts/IvarPass.cpp:105-107 | the first part has no dot; with a dot, the text is first part, dot, second part; without one, the parts are the whole text and the empty string |
| OffsetSlots.DecodeSlot | opts/IvarPass.cpp:96-107 | a slot name decodes exactly when it starts with the offset prefix, and the class name decoded contains no dot |
| OffsetSlots.DecodeSlotName | opts/IvarPass.cpp:96-107 | decoding the slot name of a class (without a dot in its name) and an ivar gives back that class and ivar |
| OffsetSlots.SlotNameOfDecode | opts/IvarPass.cpp:96-107 | a decoded slot name is the slot name of the pair it decodes to, except for a suffix without a dot, which decodes to the whole suffix and an empty ivar name |
| OffsetSlots.SplitUnique | opts/IvarPass.cpp:105-107 | a split at a first dot is unique |
| OffsetSlots.DotAt | opts/IvarPass.cpp:105-107 | the dot follows the first part |
| IvarPass.ShapeOf | opts/IvarPass.cpp:92-98 | an instruction is a site (candidate or unprefixed) exactly when it loads from a load of a global; a candidate's inner load reads a global named with the offset prefix; an unprefixed site's global lacks it |
| IvarPass.SiteOffset | opts/IvarPass.cpp:100-111 | the hard-coded offset of a site, from the class and ivar names decoded from its slot; its contract is `SiteOffsetOfSlotName` |
| IvarPass.SiteOffsetOfSlotName | opts/IvarPass.cpp:96-111 | `SiteOffset` of the slot emitted for an ivar of a class (without a dot in its name) is `hardCodedOffset` of that class and ivar |
| IvarPass.SiteDecision | opts/IvarPass.cpp:111-124 | every entry a site records is for its inner or its outer load, and no recorded value is an instruction |
| IvarPass.SiteRecordsNothingIff | opts/IvarPass.cpp:111-124 | a site records nothing exactly when its hard-coded offset is 0 and no value global is visible |
| IvarPass.StepAt | opts/IvarPass.cpp:92-124 | only a candidate site records entries; they are for that instruction or its inner load, and no recorded value is an instruction |
| IvarPass.NonfragileIvarPass.RecordSite | opts/IvarPass.cpp:92-124 | the entries pushed for one instruction are those of the per-site decision: `(inner, none)` then `(outer, constant)` for a nonzero hard-coded offset, else `(inner, value global)` when the value global is visible, else nothing |
| IvarPass.NonfragileIvarPass.ScanBasicBlock | opts/IvarPass.cpp:90-128 | the inner loop, with its `break` at an unprefixed double load, computes the block's share of the buffer |
| IvarPass.NonfragileIvarPass.CollectReplacements | opts/IvarPass.cpp:84-129 | the nested scan loops produce the buffer `Scan` specifies; `modified` is set exactly when the buffer is non-empty |
| IvarPass.ScanBlock | opts/IvarPass.cpp:90-128 | the entries of one block, up to its first unprefixed double load, carry no instruction as a value |
| IvarPass.ScanFrom | opts/IvarPass.cpp:88-129 | the entries of the blocks from one on carry no instruction as a value |
| IvarPass.Scan | opts/IvarPass.cpp:84-129 | recorded replacement values are constants or globals, never instructions |
| IvarPass.ScanBlockSound | opts/IvarPass.cpp:90-128 | every entry from a block comes from an instruction before any unprefixed double load |
| IvarPass.ScanFromFlat | opts/IvarPass.cpp:88-129 | the entries from the blocks from one on are the scans of those blocks, concatenated in block order |
| IvarPass.FlatMember | opts/IvarPass.cpp:88-129 | an entry is in the concatenated block scans exactly when it is in the scan of one block |
| IvarPass.ScanSound | opts/IvarPass.cpp:88-129 | every recorded entry comes from a reached candidate site |
| IvarPass.ScanBlockComplete | opts/IvarPass.cpp:90-128 | every entry of an instruction before any unprefixed double load of its block is recorded from that block |
| IvarPass.ScanComplete | opts/IvarPass.cpp:88-129 | every entry of every reached site is recorded |
| IvarPass.RecordsIffSiteResolves | opts/IvarPass.cpp:84-129 | the buffer is non-empty exactly when some reached site has a nonzero hard-coded offset or a visible value global |
| Ir.IdsOf | opts/IvarPass.cpp:130-135 | the instruction numbers of a block, position by position |
| Ir.Without | opts/IvarPass.cpp:134 | a number remains exactly when it was there and is not dropped |
| Ir.WithoutTwice | opts/IvarPass.cpp:130-135 | dropping two sets one after the other is dropping their union |
| Ir.FindIn | opts/IvarPass.cpp:93 | finds the instruction with a number in a block, or shows no instruction there has it |
| Ir.Def | opts/IvarPass.cpp:93 | finds the instruction defining a number in some block, or shows none does |
| Ir.DefOfUnique | opts/IvarPass.cpp:93 | with unique numbers, looking up an instruction's number finds that instruction |
| Ir.SubstituteAll | opts/IvarPass.cpp:133 | each operand that is the instruction becomes the new value in the same position, and every other operand stays; so nothing changes without a use, and no use is left when the new value is another value |
| Ir.ReplaceIn | opts/IvarPass.cpp:133 | the instruction keeps its number and its kind, and its operands are its old ones with each use substituted; it is unchanged without a use and keeps no use after replacement by another value |
| Ir.ReplaceInBlock | opts/IvarPass.cpp:133 | each instruction of the block, in its place, has its uses substituted; the numbers stay the same |
| Ir.ReplaceUses | opts/IvarPass.cpp:133 | every block keeps its instruction numbers, and after replacement by another value no instruction anywhere uses the replaced one |
| Ir.RemoveFromBlock | opts/IvarPass.cpp:134 | the block loses exactly the instructions with that number, and the others keep their order |
| Ir.RemoveInstr | opts/IvarPass.cpp:134 | every block loses exactly the instructions with that number, and nothing else |
| Ir.Function.constructor | opts/IvarPass.cpp:83 | a function with the given blocks |
| Ir.Function.ReplaceAllUsesWith | opts/IvarPass.cpp:133 | every use of the instruction, in any block, now refers to the new value |
| Ir.Function.RemoveFromParent | opts/IvarPass.cpp:134 | the instruction is removed from its block |
| IvarPass.ApplyOne | opts/IvarPass.cpp:132-134 | one entry removes its instruction, and every block keeps its other instruction numbers in order |
| IvarPass.ApplyAll | opts/IvarPass.cpp:130-135 | applying the buffer keeps the number of blocks |
| IvarPass.WithoutNothing | opts/IvarPass.cpp:130-135 | dropping nothing keeps every number |
| IvarPass.RecordedSplit | opts/IvarPass.cpp:130-135 | the instructions recorded, and those with a value, of a buffer are those of its prefix plus those of its last entry |
| IvarPass.ApplyAllIds | opts/IvarPass.cpp:130-135 | after the apply loop every block holds its original instructions, in order, minus exactly the recorded ones |
| IvarPass.ApplyAllKeeps | opts/IvarPass.cpp:130-135 | an instruction neither recorded nor using a replaced instruction comes through unchanged |
| IvarPass.ApplyAllClearsUses | opts/IvarPass.cpp:132-133 | when no value is an instruction, nothing left uses an instruction whose uses were replaced |
| IvarPass.ApplyOneClearsUses | opts/IvarPass.cpp:132-134 | one entry keeps away the uses already cleared, and clears those of its own instruction when it carries a value that is not an instruction |
| IvarPass.ApplyOneMaps | opts/IvarPass.cpp:132-134 | one entry keeps every other instruction in its block, with the uses of its own instruction substituted when it carries a value |
| IvarPass.ApplyAllRewrites | opts/IvarPass.cpp:130-135 | an unrecorded instruction whose only replaced use is of one instruction comes out with that use turned into the value its entries carry |
| IvarPass.NonfragileIvarPass.ApplyReplacements | opts/IvarPass.cpp:130-135 | the second loop leaves the function as `ApplyAll` of the buffer |
| IvarPass.NonfragileIvarPass.RunOnFunction | opts/IvarPass.cpp:83-138 | the function ends as the scanned buffer applied to it; the result is true exactly when something was recorded |
| IvarPass.HardCodedSiteRewritten | opts/IvarPass.cpp:111-115 | at a reached site with a nonzero offset, the outer load is recorded with that constant; afterwards neither load remains and nothing uses the outer load |
| IvarPass.FallbackSiteRewritten | opts/IvarPass.cpp:116-124 | at a reached site without an offset but with a visible value global, the inner load is recorded with that global; afterwards it is gone and nothing uses it |
| IvarPass.EntryForOuter | opts/IvarPass.cpp:111-124 | with unique numbers, every entry recorded for a site's outer load is one that this site records |
| IvarPass.EntryForInner | opts/IvarPass.cpp:111-124 | with unique numbers, every entry recorded for a site's inner load is a decision for that inner load and its slot, made at a reached candidate site whose outer load is a different instruction with that inner load and slot |
| IvarPass.OuterEntriesCarryConstant | opts/IvarPass.cpp:111-115 | at a site with a nonzero offset, the outer load's uses are replaced, and only by that constant |
| IvarPass.HardCodedUsersSeeConstant | opts/IvarPass.cpp:111-135 | at a site with a nonzero offset, every unrecorded instruction that used the outer load, and no other replaced instruction, now has the constant in each place where it used the outer load |
| IvarPass.HardCodedDecisionLeavesInner | opts/IvarPass.cpp:111-115 | with a nonzero offset, the only entry a site records for its inner load is `(inner, none)` |
| IvarPass.HardCodedInnerNotReplaced | opts/IvarPass.cpp:111-115 | at a reached site with a nonzero offset, the inner load is recorded, and only with no value: its uses are never replaced |
| IvarPass.InnerEntriesCarryValueGlobal | opts/IvarPass.cpp:116-124 | at a fallback site, the inner load's uses are replaced, and only by the value global, and the outer load is not recorded |
| IvarPass.FallbackUsersSeeValueGlobal | opts/IvarPass.cpp:116-135 | at a fallback site, every unrecorded instruction that used the inner load, and no other replaced instruction, now has the value global in each place where it used the inner load |
| IvarPass.FallbackOuterLoadsValueGlobal | opts/IvarPass.cpp:116-135 | at a fallback site, the outer load stays in its block and now loads from the value global |
| IvarPass.UnresolvedLeavesFunction | opts/IvarPass.cpp:88-135 | when no reached site resolves, nothing is recorded and the function is unchanged |
| LayoutExamples.ThreeLevels | opts/IvarPass.cpp:42-81 | Base : nil with size field -8, Mid : Base with -16, Leaf : Mid: sizes 8 and 24, `Mid.count` at 8, `Leaf.flag` (local offset 16) at 40 |
| LayoutExamples.MissingAncestorOffsets | opts/IvarPass.cpp:50-64 | `Orphan : MissingAncestor` leaves `x` unresolved, while `Grandchild : Orphan` resolves `y` to 8 |
| LayoutExamples.PrefixMatchShadows | opts/IvarPass.cpp:69-78 | asking for `count` in a class declaring `counter` at 0 before `count` at 8 gives 8, the offset of `counter` |
| LayoutExamples.LocalClassHiddenFromSizeOfClass | opts/IvarPass.cpp:50-64 | a class with local linkage resolves its own ivars, but its subclass's ivars do not resolve, because `sizeOfClass` cannot see it |

## Left out

- `verifyFunction(F)` (opts/IvarPass.cpp:136): its return value is ignored, but the call comes from the verifier API of `llvm/Analysis/Verifier.h`, whose default failure action prints an error and aborts the process on a broken function. The model does not represent the verifier or that abort: `RunOnFunction` ends with the blocks `ApplyAll` gives even when they are broken.
- Pass registration and the factory function (opts/IvarPass.cpp:141-156): LLVM framework plumbing.
- The LLVM IR classes and the `cast<>` decoding of constant structures: class structures are given already decoded, and a malformed shape, which would abort the cast, is excluded by the precondition `WellFormed`.
- `getAsString` and its trailing NUL: names are modelled as plain strings without a terminator. `ConstantArray::getAsString` (opts/IvarPass.cpp:39, 75) returns every element of the array, the NUL included, so `getSuperName` yields `Base\0` for a superclass `Base`. The `NSObject`/`Object` prefix tests still pass for such a name, but the lookup of `_OBJC_CLASS_Base\0` misses every other named superclass: `sizeOfClass` gives 0 for it, and `hardCodedOffset` then resolves only the ivars of classes whose direct superclass name starts with `NSObject` or `Object`. The ivar-name match is unaffected, because a stored name with its terminator still starts with the requested name. The deeper offsets the model computes (`Mid.count` = 8 and `Leaf.flag` = 40 in `LayoutExamples.ThreeLevels`, `Grandchild.y` = 8 in `LayoutExamples.MissingAncestorOffsets`) hold for names without the terminator; the code as written gives 0 for each.
- ClassLayout.HardCodedOffset: computes with unbounded integers; the `size_t` wrap-around of negative intermediate sizes and the truncation of the constant to the load's integer type are not modelled.
- Ir.Function.RemoveFromParent: removing an instruction that is no longer in the function leaves it unchanged, whereas LLVM would fail when two sites share an inner load and it is removed twice.
- IvarPass.HardCodedSiteRewritten: states nothing about other users of the inner load. `IvarPass.HardCodedInnerNotReplaced` shows that the inner load is removed and its uses are never replaced, so the model leaves open only what those other users then refer to: in the code they are left dangling. `verifyFunction` then finds the broken function and aborts the compiler (see the `verifyFunction` line above), so this case never yields the body `ApplyAll` describes.
- Idempotence of the pass is not stated, because it does not hold for every function. The value global's name `__objc_ivar_offset_value_…` itself starts with the slot prefix. After a fallback rewrite, a load of the outer load's result is therefore a new candidate site on the next run.
- `runOnFunction` is modelled as four methods (site, block, scan, apply) rather than one body, so that each loop's proof stays small; together they perform the same steps in the same order.
- Rewritten instructions that still use another replaced instruction are covered only by `IvarPass.ApplyAllIds` and `IvarPass.ApplyAllClearsUses`: their exact operands after several substitutions are not stated.
- Instruction types and instructions other than loads are reduced to a list of operands; the order of use lists is not modelled.
