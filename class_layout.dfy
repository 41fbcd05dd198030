/**
 * Class-layout arithmetic of the non-fragile ivar pass: the instance size of a
 * class (`sizeOfClass`) and the hard-coded offset of an ivar
 * (`hardCodedOffset`). Both use 0 as their failure value, and both follow the
 * code, including the cases where that value is ambiguous, up to three
 * differences: integers are unbounded rather than `size_t`, names carry no
 * trailing NUL, and a superclass chain must be known to stop.
 */
module ClassLayout {
  import opened Wrappers
  import opened Metadata

  /** Names that `sizeOfClass` treats as a root with the single `isa` ivar. */
  predicate IsBuiltinRoot(className: string) {
    StartsWith(className, "NSObject") || StartsWith(className, "Object")
  }

  /** The superclass chain from `className`, as `sizeOfClass` walks it, stops
      within `fuel` steps. */
  ghost predicate EndsWithin(m: Module, className: string, fuel: nat)
    requires WellFormed(m)
    decreases fuel
  {
    className == "" || IsBuiltinRoot(className) ||
    match ClassOf(m, className, false)
    case None => true
    case Some(c) => fuel > 0 && EndsWithin(m, SuperName(c.super), fuel - 1)
  }

  /** `sizeOfClass(className)` terminates, taken by definition as: the
      superclass chain from `className` stops within as many lookups as the
      module has globals (the bound an acyclic chain through distinct class
      globals would meet; that bound is not proved here). */
  ghost predicate Terminates(m: Module, className: string)
    requires WellFormed(m)
  {
    EndsWithin(m, className, |m.globals|)
  }

  /** No superclass chain in the module is cyclic: every chain stops within
      `|m.globals|` lookups. */
  ghost predicate Acyclic(m: Module)
    requires WellFormed(m)
  {
    forall className :: Terminates(m, className)
  }

  function SizeWithin(m: Module, pointerSize: nat, className: string, fuel: nat): int
    requires WellFormed(m) && EndsWithin(m, className, fuel)
    decreases fuel
  {
    if className == "" then 0
    else if IsBuiltinRoot(className) then pointerSize
    else match ClassOf(m, className, false)
      case None => 0
      case Some(c) => SizeWithin(m, pointerSize, SuperName(c.super), fuel - 1) - c.size
  }

  /** `sizeOfClass`: the instance size of a class, 0 when it cannot be computed. */
  function SizeOfClass(m: Module, pointerSize: nat, className: string): int
    requires WellFormed(m) && Terminates(m, className)
  {
    SizeWithin(m, pointerSize, className, |m.globals|)
  }

  lemma {:induction false} EndsWithinMonotone(m: Module, className: string, fuel: nat, more: nat)
    requires WellFormed(m) && EndsWithin(m, className, fuel) && fuel <= more
    ensures EndsWithin(m, className, more)
    decreases fuel
  {
    if className != "" && !IsBuiltinRoot(className) && ClassOf(m, className, false).Some? {
      EndsWithinMonotone(m, SuperName(ClassOf(m, className, false).value.super), fuel - 1, more - 1);
    }
  }

  /** The size does not depend on how much fuel beyond the chain's length is given. */
  lemma {:induction false} SizeWithinFuel(m: Module, pointerSize: nat, className: string, fuel: nat, more: nat)
    requires WellFormed(m) && EndsWithin(m, className, fuel) && fuel <= more
    ensures EndsWithin(m, className, more)
    ensures SizeWithin(m, pointerSize, className, more) == SizeWithin(m, pointerSize, className, fuel)
    decreases fuel
  {
    EndsWithinMonotone(m, className, fuel, more);
    if className != "" && !IsBuiltinRoot(className) && ClassOf(m, className, false).Some? {
      SizeWithinFuel(m, pointerSize, SuperName(ClassOf(m, className, false).value.super), fuel - 1, more - 1);
    }
  }

  /**
   * The four cases of `sizeOfClass`: 0 for the empty name, the pointer size
   * for a name beginning with `NSObject` or `Object` (without consulting any
   * metadata), 0 for a class whose structure is not visible, and otherwise the
   * superclass's size minus the stored (negative) size field.
   */
  lemma SizeOfClassCases(m: Module, pointerSize: nat, className: string)
    requires WellFormed(m) && Terminates(m, className)
    ensures className == "" ==> SizeOfClass(m, pointerSize, className) == 0
    ensures className != "" && IsBuiltinRoot(className) ==> SizeOfClass(m, pointerSize, className) == pointerSize
    ensures className != "" && !IsBuiltinRoot(className) && ClassOf(m, className, false).None? ==>
              SizeOfClass(m, pointerSize, className) == 0
    ensures className != "" && !IsBuiltinRoot(className) && ClassOf(m, className, false).Some? ==>
              var c := ClassOf(m, className, false).value;
              Terminates(m, SuperName(c.super)) &&
              SizeOfClass(m, pointerSize, className) == SizeOfClass(m, pointerSize, SuperName(c.super)) - c.size
  {
    if className != "" && !IsBuiltinRoot(className) && ClassOf(m, className, false).Some? {
      var c := ClassOf(m, className, false).value;
      SizeWithinFuel(m, pointerSize, SuperName(c.super), |m.globals| - 1, |m.globals|);
    }
  }

  /** `chain` is a walk up the superclass links: every element but the last is
      a visible class, not a recognised root, whose superclass is the next element. */
  ghost predicate IsAncestry(m: Module, chain: seq<string>)
    requires WellFormed(m)
  {
    |chain| >= 1 &&
    forall k :: 0 <= k < |chain| - 1 ==>
      chain[k] != "" && !IsBuiltinRoot(chain[k]) && ClassOf(m, chain[k], false).Some? &&
      SuperName(ClassOf(m, chain[k], false).value.super) == chain[k + 1]
  }

  /** The sum of the size fields of the visible classes among `names`. */
  function SizeFieldSum(m: Module, names: seq<string>): int
    requires WellFormed(m)
  {
    if names == [] then 0
    else (match ClassOf(m, names[0], false) case None => 0 case Some(c) => c.size) + SizeFieldSum(m, names[1..])
  }

  /** Along a superclass walk, the size of the first class is the size of the
      last one minus the size fields of all the others. */
  lemma {:induction false} SizeAlongAncestry(m: Module, pointerSize: nat, chain: seq<string>)
    requires WellFormed(m) && IsAncestry(m, chain) && Terminates(m, chain[0])
    ensures Terminates(m, chain[|chain| - 1])
    ensures SizeOfClass(m, pointerSize, chain[0]) ==
              SizeOfClass(m, pointerSize, chain[|chain| - 1]) - SizeFieldSum(m, chain[..|chain| - 1])
  {
    if |chain| > 1 {
      SizeOfClassCases(m, pointerSize, chain[0]);
      assert IsAncestry(m, chain[1..]) by {
        forall k | 0 <= k < |chain[1..]| - 1
          ensures chain[1..][k] != "" && !IsBuiltinRoot(chain[1..][k]) && ClassOf(m, chain[1..][k], false).Some? &&
                  SuperName(ClassOf(m, chain[1..][k], false).value.super) == chain[1..][k + 1]
        {
          assert chain[1..][k] == chain[k + 1] && chain[1..][k + 1] == chain[k + 2];
        }
      }
      SizeAlongAncestry(m, pointerSize, chain[1..]);
      assert chain[..|chain| - 1][1..] == chain[1..][..|chain[1..]| - 1];
    }
  }

  /** When every ancestor up to a recognised root is visible, the size is the
      pointer size minus the sum of the size fields along the chain. */
  lemma SizeFromBuiltinRoot(m: Module, pointerSize: nat, chain: seq<string>)
    requires WellFormed(m) && IsAncestry(m, chain) && Terminates(m, chain[0])
    requires chain[|chain| - 1] != "" && IsBuiltinRoot(chain[|chain| - 1])
    ensures SizeOfClass(m, pointerSize, chain[0]) == pointerSize - SizeFieldSum(m, chain[..|chain| - 1])
  {
    SizeAlongAncestry(m, pointerSize, chain);
    SizeOfClassCases(m, pointerSize, chain[|chain| - 1]);
  }

  /** A chain that ends at a class whose structure is not visible does not
      fail: the missing class contributes 0 and the size is minus the sum of
      the size fields of the classes that were visible. The same holds for a
      chain ending at a null superclass. */
  lemma MissingAncestorContributesZero(m: Module, pointerSize: nat, chain: seq<string>)
    requires WellFormed(m) && IsAncestry(m, chain) && Terminates(m, chain[0])
    requires var last := chain[|chain| - 1];
             last == "" || (!IsBuiltinRoot(last) && ClassOf(m, last, false).None?)
    ensures SizeOfClass(m, pointerSize, chain[0]) == -SizeFieldSum(m, chain[..|chain| - 1])
  {
    SizeAlongAncestry(m, pointerSize, chain);
    SizeOfClassCases(m, pointerSize, chain[|chain| - 1]);
  }

  /** Index `k` holds the first ivar, among the first `ivarCount`, whose name
      begins with `ivarName`. */
  predicate IsFirstMatch(c: ClassInfo, ivarName: string, k: int)
    requires c.ivarCount <= |c.ivars|
  {
    0 <= k < c.ivarCount && StartsWith(c.ivars[k].name, ivarName) &&
    forall j :: 0 <= j < k ==> !StartsWith(c.ivars[j].name, ivarName)
  }

  function FirstMatchFrom(c: ClassInfo, ivarName: string, from: nat): (r: Option<nat>)
    requires c.ivarCount <= |c.ivars|
    requires forall j :: 0 <= j < from && j < c.ivarCount ==> !StartsWith(c.ivars[j].name, ivarName)
    ensures r.Some? ==> IsFirstMatch(c, ivarName, r.value)
    ensures r.None? ==> forall j :: 0 <= j < c.ivarCount ==> !StartsWith(c.ivars[j].name, ivarName)
    decreases c.ivarCount - from
  {
    if c.ivarCount <= from then None
    else if StartsWith(c.ivars[from].name, ivarName) then Some(from)
    else FirstMatchFrom(c, ivarName, from + 1)
  }

  /**
   * `hardCodedOffset`: 0 when the class structure is not visible (local
   * linkage allowed here) or its superclass's size is 0; otherwise the
   * superclass's size plus the offset of the first ivar whose name begins with
   * `ivarName`, or 0 when no ivar does.
   */
  function HardCodedOffset(m: Module, pointerSize: nat, className: string, ivarName: string): (r: int)
    requires WellFormed(m)
    requires ClassOf(m, className, true).Some? ==> Terminates(m, SuperName(ClassOf(m, className, true).value.super))
    ensures ClassOf(m, className, true).None? ==> r == 0
    ensures ClassOf(m, className, true).Some? ==>
              var c := ClassOf(m, className, true).value;
              var superSize := SizeOfClass(m, pointerSize, SuperName(c.super));
              (superSize == 0 ==> r == 0) &&
              (superSize != 0 ==>
                 (exists k :: IsFirstMatch(c, ivarName, k) && r == superSize + c.ivars[k].offset) ||
                 ((forall j :: 0 <= j < c.ivarCount ==> !StartsWith(c.ivars[j].name, ivarName)) && r == 0))
    ensures ClassOf(m, className, true).Some? && ClassOf(m, className, true).value.super.NullSuper? ==> r == 0
  {
    match ClassOf(m, className, true)
    case None => 0
    case Some(c) =>
      var superSize := SizeOfClass(m, pointerSize, SuperName(c.super));
      if superSize == 0 then 0
      else match FirstMatchFrom(c, ivarName, 0)
        case None => 0
        case Some(k) => superSize + c.ivars[k].offset
  }

  /**
   * Under conditions the code does not check for itself, the hard-coded offset
   * is the one the layout intends: every ancestor up to a recognised root is
   * visible and stores a non-positive size, the pointer size is positive, and
   * the class declares an ivar named exactly `ivarName` with no earlier ivar
   * whose name begins with it. Then the offset is the pointer size minus the
   * ancestors' size fields plus that ivar's offset.
   */
  lemma ResolvesDeclaredIvar(m: Module, pointerSize: nat, className: string, ivarName: string,
                             chain: seq<string>, k: nat)
    requires WellFormed(m) && pointerSize > 0
    requires ClassOf(m, className, true).Some?
    requires var c := ClassOf(m, className, true).value;
             k < c.ivarCount && c.ivars[k].name == ivarName &&
             forall j :: 0 <= j < k ==> !StartsWith(c.ivars[j].name, ivarName)
    requires IsAncestry(m, chain) && chain[0] == SuperName(ClassOf(m, className, true).value.super)
    requires Terminates(m, chain[0])
    requires chain[|chain| - 1] != "" && IsBuiltinRoot(chain[|chain| - 1])
    requires forall a :: a in chain && ClassOf(m, a, false).Some? ==> ClassOf(m, a, false).value.size <= 0
    ensures HardCodedOffset(m, pointerSize, className, ivarName) ==
              pointerSize - SizeFieldSum(m, chain[..|chain| - 1]) + ClassOf(m, className, true).value.ivars[k].offset
  {
    var c := ClassOf(m, className, true).value;
    SizeFromBuiltinRoot(m, pointerSize, chain);
    SizeFieldSumNonPositive(m, chain[..|chain| - 1]);
    assert StartsWith(c.ivars[k].name, ivarName);
    assert IsFirstMatch(c, ivarName, k);
  }

  lemma {:induction false} SizeFieldSumNonPositive(m: Module, names: seq<string>)
    requires WellFormed(m)
    requires forall a :: a in names && ClassOf(m, a, false).Some? ==> ClassOf(m, a, false).value.size <= 0
    ensures SizeFieldSum(m, names) <= 0
  {
    if names != [] {
      assert forall a :: a in names[1..] ==> a in names;
      SizeFieldSumNonPositive(m, names[1..]);
    }
  }
}
