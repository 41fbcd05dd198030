/**
 * The parts of an LLVM module that the non-fragile ivar pass reads: the
 * target's pointer-size report and the global variables, among them the
 * Objective-C class structures emitted by the GNUstep runtime's compiler
 * (a global named `_OBJC_CLASS_<name>` per class).
 *
 * A class structure is reduced to the four operands the pass decodes:
 * operand 1 (the superclass reference), operand 5 (the instance size, stored
 * negated) and operand 6 (the ivar list: a count and an array of records,
 * each with a name and an offset).
 */
module Metadata {
  import opened Wrappers

  /** What `Module::getPointerSize()` reports. */
  datatype PointerSizeKind = AnyPointerSize | Pointer32 | Pointer64

  /** Operand 1 of a class structure: a null pointer for a root class, or a
      reference to the global string holding the superclass's name. */
  datatype SuperRef = NullSuper | SuperNamed(name: string)

  /** One record of the ivar list: operand 0 (the name string) and operand 2 (the offset). */
  datatype Ivar = Ivar(name: string, offset: int)

  /** A decoded class structure. `ivarCount` is the count stored in the ivar
      list, kept apart from the array as the source reads them separately. */
  datatype ClassInfo = ClassInfo(super: SuperRef, size: int, ivarCount: int, ivars: seq<Ivar>)

  datatype Initializer = ClassStruct(cls: ClassInfo) | OtherData

  /** A global variable: whether its linkage is local (internal or private) and its initializer. */
  datatype Global = Global(localLinkage: bool, init: Initializer)

  datatype Module = Module(pointerKind: PointerSizeKind, globals: map<string, Global>)

  const CLASS_SYMBOL_PREFIX: string := "_OBJC_CLASS_"

  /** `StringRef::startswith`, and `std::string::compare(0, |prefix|, prefix) == 0`. */
  predicate StartsWith(s: string, prefix: string) {
    prefix <= s
  }

  /**
   * The shapes the pass casts to without checking: every class symbol holds a
   * class structure whose ivar count does not exceed its ivar array. A
   * superclass reference that is not null names a string global, whose
   * contents are never empty (they hold at least the C string's terminator).
   */
  ghost predicate WellFormed(m: Module) {
    forall name :: name in m.globals && StartsWith(name, CLASS_SYMBOL_PREFIX) ==>
      m.globals[name].init.ClassStruct? &&
      m.globals[name].init.cls.ivarCount <= |m.globals[name].init.cls.ivars| &&
      (m.globals[name].init.cls.super.SuperNamed? ==> m.globals[name].init.cls.super.name != "")
  }

  /** `Module::getGlobalVariable(name, allowLocal)`: a global of local linkage
      is found only when `allowLocal` is set. */
  function GetGlobalVariable(m: Module, name: string, allowLocal: bool): (r: Option<Global>)
    ensures r.Some? <==> name in m.globals && (allowLocal || !m.globals[name].localLinkage)
    ensures r.Some? ==> r.value == m.globals[name]
  {
    if name in m.globals && (allowLocal || !m.globals[name].localLinkage) then Some(m.globals[name])
    else None
  }

  /** The class structure found under `_OBJC_CLASS_<className>`, if that global is visible. */
  function ClassOf(m: Module, className: string, allowLocal: bool): (r: Option<ClassInfo>)
    requires WellFormed(m)
    ensures r.Some? <==> GetGlobalVariable(m, CLASS_SYMBOL_PREFIX + className, allowLocal).Some?
    ensures r.Some? ==> r.value == m.globals[CLASS_SYMBOL_PREFIX + className].init.cls
    ensures r.Some? ==> r.value.ivarCount <= |r.value.ivars|
    ensures r.Some? && r.value.super.SuperNamed? ==> r.value.super.name != ""
  {
    var symbol := CLASS_SYMBOL_PREFIX + className;
    match GetGlobalVariable(m, symbol, allowLocal)
    case None => None
    case Some(g) =>
      assert StartsWith(symbol, CLASS_SYMBOL_PREFIX) by { assert symbol[..|CLASS_SYMBOL_PREFIX|] == CLASS_SYMBOL_PREFIX; }
      Some(g.init.cls)
  }

  /** `getSuperName`: the empty string for a null superclass reference,
      otherwise the superclass's name. */
  function SuperName(super: SuperRef): (r: string)
    ensures super.NullSuper? ==> r == ""
    ensures super.SuperNamed? ==> r == super.name
  {
    match super
    case NullSuper => ""
    case SuperNamed(name) => name
  }

  /** For a class structure found by the lookup, `getSuperName` returns the
      empty string exactly when the superclass reference is null. */
  lemma SuperNameEmptyIffNull(m: Module, className: string, allowLocal: bool)
    requires WellFormed(m) && ClassOf(m, className, allowLocal).Some?
    ensures var c := ClassOf(m, className, allowLocal).value;
            SuperName(c.super) == "" <==> c.super.NullSuper?
  {
  }
}
