/**
 * Concrete class layouts on a 64-bit target, worked through `sizeOfClass`
 * and `hardCodedOffset` for names without the trailing NUL that
 * `getAsString` keeps. With that terminator, a superclass other than
 * `NSObject` or `Object` is not found, and the offsets below `Base` and
 * `Orphan` are 0 instead.
 */
module LayoutExamples {
  import opened Wrappers
  import opened Metadata
  import opened ClassLayout

  function ClassGlobal(localLinkage: bool, super: SuperRef, size: int, ivars: seq<Ivar>): Global {
    Global(localLinkage, ClassStruct(ClassInfo(super, size, |ivars|, ivars)))
  }

  /** A root class `Base` of 8 bytes, `Mid : Base` adding 16 bytes with `count`
      first, and `Leaf : Mid` with `flag` 16 bytes into its own storage. */
  const THREE_LEVELS: Module := Module(Pointer64, map[
    CLASS_SYMBOL_PREFIX + "Base" := ClassGlobal(false, NullSuper, -8, []),
    CLASS_SYMBOL_PREFIX + "Mid" := ClassGlobal(false, SuperNamed("Base"), -16, [Ivar("count", 0)]),
    CLASS_SYMBOL_PREFIX + "Leaf" := ClassGlobal(false, SuperNamed("Mid"), -8, [Ivar("flag", 16)])
  ])

  lemma ThreeLevelsWellFormed()
    ensures WellFormed(THREE_LEVELS)
  {
    var base, mid, leaf := CLASS_SYMBOL_PREFIX + "Base", CLASS_SYMBOL_PREFIX + "Mid", CLASS_SYMBOL_PREFIX + "Leaf";
    assert base[12] == 'B' && mid[12] == 'M' && leaf[12] == 'L';
  }

  lemma ThreeLevels()
    ensures WellFormed(THREE_LEVELS)
    ensures Terminates(THREE_LEVELS, "Base") && Terminates(THREE_LEVELS, "Mid")
    ensures SizeOfClass(THREE_LEVELS, 8, "Base") == 8
    ensures SizeOfClass(THREE_LEVELS, 8, "Mid") == 24
    ensures HardCodedOffset(THREE_LEVELS, 8, "Mid", "count") == 8
    ensures HardCodedOffset(THREE_LEVELS, 8, "Leaf", "flag") == 40
  {
    ThreeLevelsWellFormed();
    var m := THREE_LEVELS;
    var base, mid, leaf := CLASS_SYMBOL_PREFIX + "Base", CLASS_SYMBOL_PREFIX + "Mid", CLASS_SYMBOL_PREFIX + "Leaf";
    assert base[12] == 'B' && mid[12] == 'M' && leaf[12] == 'L';
    assert |m.globals| == 3;
    assert ClassOf(m, "Base", false) == Some(m.globals[base].init.cls);
    assert ClassOf(m, "Mid", false) == Some(m.globals[mid].init.cls);
    assert ClassOf(m, "Mid", true) == Some(m.globals[mid].init.cls);
    assert ClassOf(m, "Leaf", true) == Some(m.globals[leaf].init.cls);
    assert EndsWithin(m, "", 1);
    assert EndsWithin(m, "Base", 2);
    assert EndsWithin(m, "Mid", 3);
    SizeOfClassCases(m, 8, "Base");
    SizeOfClassCases(m, 8, "Mid");
    SizeOfClassCases(m, 8, "");
  }

  /** `Orphan` derives from `MissingAncestor`, whose structure is not in the
      module, and `Grandchild` derives from `Orphan`. */
  const ORPHANS: Module := Module(Pointer64, map[
    CLASS_SYMBOL_PREFIX + "Orphan" := ClassGlobal(false, SuperNamed("MissingAncestor"), -8, [Ivar("x", 0)]),
    CLASS_SYMBOL_PREFIX + "Grandchild" := ClassGlobal(false, SuperNamed("Orphan"), -4, [Ivar("y", 0)])
  ])

  /** The ivars of a class whose superclass is missing do not resolve, but
      one level further down the missing class counts as size 0 and the
      offset resolves to a number that ignores the missing class's storage. */
  lemma MissingAncestorOffsets()
    ensures WellFormed(ORPHANS)
    ensures Terminates(ORPHANS, "MissingAncestor") && Terminates(ORPHANS, "Orphan")
    ensures HardCodedOffset(ORPHANS, 8, "Orphan", "x") == 0
    ensures HardCodedOffset(ORPHANS, 8, "Grandchild", "y") == 8
  {
    var m := ORPHANS;
    var orphan, grandchild := CLASS_SYMBOL_PREFIX + "Orphan", CLASS_SYMBOL_PREFIX + "Grandchild";
    var missing := CLASS_SYMBOL_PREFIX + "MissingAncestor";
    assert orphan[12] == 'O' && grandchild[12] == 'G' && |missing| == 27;
    assert "MissingAncestor"[0] == 'M';
    assert !IsBuiltinRoot("MissingAncestor");
    assert |m.globals| == 2;
    assert ClassOf(m, "MissingAncestor", false) == None;
    assert ClassOf(m, "Orphan", false) == Some(m.globals[orphan].init.cls);
    assert ClassOf(m, "Orphan", true) == Some(m.globals[orphan].init.cls);
    assert ClassOf(m, "Grandchild", true) == Some(m.globals[grandchild].init.cls);
    assert EndsWithin(m, "MissingAncestor", 1);
    assert EndsWithin(m, "Orphan", 2);
    SizeOfClassCases(m, 8, "MissingAncestor");
    SizeOfClassCases(m, 8, "Orphan");
  }

  /** `Counter : NSObject` declares `counter` before `count`. */
  const SHADOWED: Module := Module(Pointer64, map[
    CLASS_SYMBOL_PREFIX + "Counter" :=
      ClassGlobal(false, SuperNamed("NSObject"), -16, [Ivar("counter", 0), Ivar("count", 8)])
  ])

  /** Ivar names match by prefix: asking for `count` finds `counter`, so the
      offset is 8 and not the 16 at which `count` lies. */
  lemma PrefixMatchShadows()
    ensures WellFormed(SHADOWED) && Terminates(SHADOWED, "NSObject")
    ensures HardCodedOffset(SHADOWED, 8, "Counter", "count") == 8
  {
    var m := SHADOWED;
    assert ClassOf(m, "Counter", true) == Some(m.globals[CLASS_SYMBOL_PREFIX + "Counter"].init.cls);
    assert IsBuiltinRoot("NSObject");
    SizeOfClassCases(m, 8, "NSObject");
    var c := ClassOf(m, "Counter", true).value;
    assert StartsWith(c.ivars[0].name, "count") by { assert "counter"[..5] == "count"; }
    assert IsFirstMatch(c, "count", 0);
  }

  /** On a 32-bit target, `Hidden : NSObject` has local linkage and
      `Sub : Hidden` does not. */
  const LOCAL_SUPER: Module := Module(Pointer32, map[
    CLASS_SYMBOL_PREFIX + "Hidden" := ClassGlobal(true, SuperNamed("NSObject"), -4, [Ivar("h", 0)]),
    CLASS_SYMBOL_PREFIX + "Subclass" := ClassGlobal(false, SuperNamed("Hidden"), -4, [Ivar("s", 0)])
  ])

  /** `hardCodedOffset` looks a class up with local linkage allowed, but
      `sizeOfClass` does not: the ivars of the local class resolve, those of
      its subclass do not. */
  lemma LocalClassHiddenFromSizeOfClass()
    ensures WellFormed(LOCAL_SUPER) && Terminates(LOCAL_SUPER, "NSObject") && Terminates(LOCAL_SUPER, "Hidden")
    ensures HardCodedOffset(LOCAL_SUPER, 4, "Hidden", "h") == 4
    ensures HardCodedOffset(LOCAL_SUPER, 4, "Subclass", "s") == 0
  {
    var m := LOCAL_SUPER;
    var hidden, sub := CLASS_SYMBOL_PREFIX + "Hidden", CLASS_SYMBOL_PREFIX + "Subclass";
    assert hidden[12] == 'H' && sub[12] == 'S';
    assert ClassOf(m, "Hidden", false) == None;
    assert ClassOf(m, "Hidden", true) == Some(m.globals[hidden].init.cls);
    assert ClassOf(m, "Subclass", true) == Some(m.globals[sub].init.cls);
    assert IsBuiltinRoot("NSObject");
    assert "Hidden"[0] == 'H';
    SizeOfClassCases(m, 4, "NSObject");
    SizeOfClassCases(m, 4, "Hidden");
    var c := ClassOf(m, "Hidden", true).value;
    assert IsFirstMatch(c, "h", 0);
  }
}
