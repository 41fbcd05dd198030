/**
 * Names of the ivar-offset globals. The indirect offset slot of ivar `i` of
 * class `C` is `__objc_ivar_offset_C.i`; a module compiled for the newer ABI
 * also has the direct offset value `__objc_ivar_offset_value_C.i`.
 */
module OffsetSlots {
  import opened Wrappers
  import opened Metadata

  const OFFSET_PREFIX: string := "__objc_ivar_offset_"
  const VALUE_PREFIX: string := "__objc_ivar_offset_value_"

  /** `StringRef::split('.')`: the text before the first `.` and the text
      after it, or the whole text and the empty string when there is no `.`. */
  function SplitAtDot(s: string): (r: (string, string))
    ensures '.' !in r.0
    ensures '.' in s ==> s == r.0 + "." + r.1
    ensures '.' !in s ==> r == (s, "")
  {
    if s == [] then ([], [])
    else if s[0] == '.' then ([], s[1..])
    else
      var rest := SplitAtDot(s[1..]);
      assert s == [s[0]] + s[1..];
      ([s[0]] + rest.0, rest.1)
  }

  /** The part of a slot name after the prefix. */
  function SlotSuffix(slot: string): (r: string)
    requires StartsWith(slot, OFFSET_PREFIX)
    ensures slot == OFFSET_PREFIX + r
  {
    slot[|OFFSET_PREFIX|..]
  }

  /** The (class name, ivar name) pair the pass reads out of a slot name, or
      nothing when the name lacks the prefix. */
  function DecodeSlot(slot: string): (r: Option<(string, string)>)
    ensures r.Some? <==> StartsWith(slot, OFFSET_PREFIX)
    ensures r.Some? ==> '.' !in r.value.0
  {
    if StartsWith(slot, OFFSET_PREFIX) then Some(SplitAtDot(SlotSuffix(slot))) else None
  }

  /** The slot name the compiler emits for ivar `ivarName` of `className`. */
  function SlotName(className: string, ivarName: string): string {
    OFFSET_PREFIX + className + "." + ivarName
  }

  /** The direct offset value global that shares a slot's suffix. */
  function ValueSlotName(suffix: string): string {
    VALUE_PREFIX + suffix
  }

  /** Decoding recovers the class and ivar names of any slot whose class name has no `.`. */
  lemma DecodeSlotName(className: string, ivarName: string)
    requires '.' !in className
    ensures DecodeSlot(SlotName(className, ivarName)) == Some((className, ivarName))
  {
    var slot := SlotName(className, ivarName);
    assert slot == OFFSET_PREFIX + (className + "." + ivarName);
    assert StartsWith(slot, OFFSET_PREFIX) by { assert slot[..|OFFSET_PREFIX|] == OFFSET_PREFIX; }
    var suffix := SlotSuffix(slot);
    assert suffix == className + "." + ivarName;
    assert '.' in suffix by { assert suffix[|className|] == '.'; }
    var (c, i) := SplitAtDot(suffix);
    SplitUnique(className, ivarName, c, i);
  }

  lemma {:induction false} SplitUnique(a: string, b: string, c: string, d: string)
    requires '.' !in a && '.' !in c && a + "." + b == c + "." + d
    ensures a == c && b == d
  {
    var s := a + "." + b;
    if |a| == |c| {
      assert a == s[..|a|] == c;
      assert b == s[|a| + 1..] == d;
    } else {
      DotAt(a, b);
      DotAt(c, d);
      assert false;
    }
  }

  /** In `a + "." + b`, the first `|a|` characters are `a`'s and the next is the dot. */
  lemma DotAt(a: string, b: string)
    ensures |a| < |a + "." + b| && (a + "." + b)[|a|] == '.'
    ensures forall k :: 0 <= k < |a| ==> (a + "." + b)[k] == a[k]
  {
  }

  /** Every decoded slot name is a slot name for the pair it decodes to; when
      the suffix has no `.` the ivar name is empty and the whole suffix is the
      class name. */
  lemma SlotNameOfDecode(slot: string, className: string, ivarName: string)
    requires DecodeSlot(slot) == Some((className, ivarName))
    ensures '.' !in className
    ensures slot == SlotName(className, ivarName) ||
            (ivarName == "" && '.' !in SlotSuffix(slot) && slot == OFFSET_PREFIX + className)
  {
    var suffix := SlotSuffix(slot);
    if '.' in suffix {
      assert slot == OFFSET_PREFIX + (className + "." + ivarName);
    }
  }
}
