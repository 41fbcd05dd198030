/**
 * The GNUstep non-fragile ivar pass. For each function it looks for the
 * double load `load(load(@__objc_ivar_offset_C.i))` that fetches an ivar
 * offset through its slot, records replacements while it scans, and applies
 * them all afterwards: a hard-coded offset turns the outer load into a
 * constant and removes both loads; failing that, a direct offset value global
 * takes the place of the inner load, which is removed.
 */
module IvarPass {
  import opened Wrappers
  import opened Metadata
  import opened ClassLayout
  import opened OffsetSlots
  import opened Ir

  /** An entry of the replacement buffer: the instruction to remove and, when
      present, the value that takes over its uses first. */
  datatype Replacement = Replacement(inst: nat, value: Option<Value>)

  /** What the scan needs of the module to run at all: the shapes it casts to
      are there, and no superclass chain is cyclic. */
  ghost predicate ValidModule(m: Module) {
    WellFormed(m) && Acyclic(m)
  }

  /** `x` loads from the result of a load whose address is a global. */
  predicate IsDoubleLoad(body: seq<Block>, x: Instr) {
    x.op.Load? && x.op.address.InstrRef? &&
    var d := Def(body, x.op.address.id);
    d.Some? && d.value.op.Load? && d.value.op.address.GlobalAddr?
  }

  /** How the scan sees one instruction: not a double load from a global, a
      double load from a global without the slot prefix (which ends the scan
      of the block), or a candidate site with its inner load and slot name. */
  datatype Shape = NotCandidate | Unprefixed | Candidate(inner: nat, slot: string)

  function ShapeOf(body: seq<Block>, x: Instr): (r: Shape)
    ensures !r.NotCandidate? <==> IsDoubleLoad(body, x)
    ensures r.Candidate? ==>
              x.op == Load(InstrRef(r.inner)) && Def(body, r.inner) == Some(Instr(r.inner, Load(GlobalAddr(r.slot)))) &&
              StartsWith(r.slot, OFFSET_PREFIX)
    ensures r.Unprefixed? ==> !StartsWith(Def(body, x.op.address.id).value.op.address.name, OFFSET_PREFIX)
  {
    match x.op
    case Load(InstrRef(id)) =>
      (match Def(body, id)
       case Some(Instr(_, Load(GlobalAddr(g)))) =>
         if StartsWith(g, OFFSET_PREFIX) then Candidate(id, g) else Unprefixed
       case _ => NotCandidate)
    case _ => NotCandidate
  }

  /** The hard-coded offset for the class and ivar named by a slot. */
  function SiteOffset(m: Module, pointerSize: nat, slot: string): int
    requires ValidModule(m) && StartsWith(slot, OFFSET_PREFIX)
  {
    var names := DecodeSlot(slot).value;
    HardCodedOffset(m, pointerSize, names.0, names.1)
  }

  /** The site of the slot the compiler emits for ivar `ivarName` of
      `className` resolves to that ivar's hard-coded offset. */
  lemma SiteOffsetOfSlotName(m: Module, pointerSize: nat, className: string, ivarName: string)
    requires ValidModule(m) && '.' !in className
    ensures StartsWith(SlotName(className, ivarName), OFFSET_PREFIX)
    ensures SiteOffset(m, pointerSize, SlotName(className, ivarName)) ==
              HardCodedOffset(m, pointerSize, className, ivarName)
  {
    DecodeSlotName(className, ivarName);
  }

  /** The entries recorded for a candidate site whose outer load is `outer`. */
  function SiteDecision(m: Module, pointerSize: nat, outer: nat, inner: nat, slot: string): (r: seq<Replacement>)
    requires ValidModule(m) && StartsWith(slot, OFFSET_PREFIX)
    ensures forall e :: e in r ==> e.inst == inner || e.inst == outer
    ensures forall e :: e in r && e.value.Some? ==> !e.value.value.InstrRef?
  {
    var suffix := SlotSuffix(slot);
    var offset := SiteOffset(m, pointerSize, slot);
    if offset != 0 then [Replacement(inner, None), Replacement(outer, Some(ConstInt(offset)))]
    else if GetGlobalVariable(m, ValueSlotName(suffix), false).Some? then
      [Replacement(inner, Some(GlobalAddr(ValueSlotName(suffix))))]
    else []
  }

  /** A site records nothing exactly when it has neither a nonzero
      hard-coded offset nor a visible direct offset value global. */
  lemma SiteRecordsNothingIff(m: Module, pointerSize: nat, outer: nat, inner: nat, slot: string)
    requires ValidModule(m) && StartsWith(slot, OFFSET_PREFIX)
    ensures SiteDecision(m, pointerSize, outer, inner, slot) == [] <==>
              SiteOffset(m, pointerSize, slot) == 0 && GetGlobalVariable(m, ValueSlotName(SlotSuffix(slot)), false).None?
  {
  }

  function StepAt(m: Module, pointerSize: nat, body: seq<Block>, x: Instr): (r: seq<Replacement>)
    requires ValidModule(m)
    ensures r != [] ==> ShapeOf(body, x).Candidate?
    ensures forall e :: e in r ==> e.inst == x.id || e.inst == ShapeOf(body, x).inner
    ensures forall e :: e in r && e.value.Some? ==> !e.value.value.InstrRef?
  {
    match ShapeOf(body, x)
    case Candidate(inner, slot) => SiteDecision(m, pointerSize, x.id, inner, slot)
    case _ => []
  }

  /** The entries recorded from instruction `j` of block `b` onwards, up to
      the end of the block or the first unprefixed double load. */
  function ScanBlock(m: Module, pointerSize: nat, body: seq<Block>, b: nat, j: nat): (r: seq<Replacement>)
    requires ValidModule(m) && b < |body| && j <= |body[b]|
    ensures forall e :: e in r && e.value.Some? ==> !e.value.value.InstrRef?
    decreases |body[b]| - j
  {
    if j == |body[b]| then []
    else if ShapeOf(body, body[b][j]).Unprefixed? then []
    else StepAt(m, pointerSize, body, body[b][j]) + ScanBlock(m, pointerSize, body, b, j + 1)
  }

  function ScanFrom(m: Module, pointerSize: nat, body: seq<Block>, b: nat): (r: seq<Replacement>)
    requires ValidModule(m) && b <= |body|
    ensures forall e :: e in r && e.value.Some? ==> !e.value.value.InstrRef?
    decreases |body| - b
  {
    if b == |body| then [] else ScanBlock(m, pointerSize, body, b, 0) + ScanFrom(m, pointerSize, body, b + 1)
  }

  /** The replacement buffer the first loop of `runOnFunction` fills. Its
      values are constants and globals, never instructions. */
  function Scan(m: Module, pointerSize: nat, body: seq<Block>): (r: seq<Replacement>)
    requires ValidModule(m)
    ensures forall e :: e in r && e.value.Some? ==> !e.value.value.InstrRef?
  {
    ScanFrom(m, pointerSize, body, 0)
  }

  /** Instruction `k` of block `b` is visited by the scan: no unprefixed
      double load comes before it in its block. */
  predicate Reachable(body: seq<Block>, b: int, k: int) {
    0 <= b < |body| && 0 <= k < |body[b]| &&
    forall t :: 0 <= t < k ==> !ShapeOf(body, body[b][t]).Unprefixed?
  }

  /** One entry of the apply loop: the instruction is removed, and the rest
      of every block keeps its numbers in order. */
  function ApplyOne(body: seq<Block>, e: Replacement): (r: seq<Block>)
    ensures |r| == |body|
    ensures forall b :: 0 <= b < |body| ==> IdsOf(r[b]) == Without(IdsOf(body[b]), {e.inst})
  {
    var replaced := if e.value.Some? then ReplaceUses(body, e.inst, e.value.value) else body;
    RemoveInstr(replaced, e.inst)
  }

  /** The second loop of `runOnFunction`: each entry in turn replaces the uses
      of its instruction when it carries a value, then removes it. */
  function ApplyAll(body: seq<Block>, rs: seq<Replacement>): (r: seq<Block>)
    ensures |r| == |body|
    decreases |rs|
  {
    if rs == [] then body else ApplyOne(ApplyAll(body, rs[..|rs| - 1]), rs[|rs| - 1])
  }

  function Recorded(rs: seq<Replacement>): set<nat> {
    set r | r in rs :: r.inst
  }

  function Replaced(rs: seq<Replacement>): set<nat> {
    set r | r in rs && r.value.Some? :: r.inst
  }

  // ---------------------------------------------------------------------
  // The apply loop

  lemma {:induction false} WithoutNothing(s: seq<nat>)
    ensures Without(s, {}) == s
  {
    if s != [] {
      WithoutNothing(s[1..]);
      assert s == [s[0]] + s[1..];
    }
  }

  lemma RecordedSplit(rs: seq<Replacement>)
    requires rs != []
    ensures Recorded(rs) == Recorded(rs[..|rs| - 1]) + {rs[|rs| - 1].inst}
    ensures Replaced(rs) == Replaced(rs[..|rs| - 1]) + (if rs[|rs| - 1].value.Some? then {rs[|rs| - 1].inst} else {})
  {
    assert rs == rs[..|rs| - 1] + [rs[|rs| - 1]];
  }

  /** Applying the buffer removes exactly the recorded instructions: in every
      block, the numbers left are the original ones, in order, without those
      recorded. */
  lemma {:induction false} ApplyAllIds(body: seq<Block>, rs: seq<Replacement>)
    ensures forall b :: 0 <= b < |body| ==>
              IdsOf(ApplyAll(body, rs)[b]) == Without(IdsOf(body[b]), Recorded(rs))
    decreases |rs|
  {
    if rs == [] {
      assert Recorded(rs) == {};
      forall b | 0 <= b < |body| ensures IdsOf(body[b]) == Without(IdsOf(body[b]), Recorded(rs)) {
        WithoutNothing(IdsOf(body[b]));
      }
    } else {
      var prefix, last := rs[..|rs| - 1], rs[|rs| - 1];
      ApplyAllIds(body, prefix);
      RecordedSplit(rs);
      var before := ApplyAll(body, prefix);
      forall b | 0 <= b < |body|
        ensures IdsOf(ApplyAll(body, rs)[b]) == Without(IdsOf(body[b]), Recorded(rs))
      {
        var replaced := if last.value.Some? then ReplaceUses(before, last.inst, last.value.value) else before;
        assert IdsOf(replaced[b]) == IdsOf(before[b]);
        assert ApplyAll(body, rs)[b] == RemoveFromBlock(replaced[b], last.inst);
        WithoutTwice(IdsOf(body[b]), Recorded(prefix), {last.inst});
      }
    }
  }

  /** An instruction that is not recorded and uses none of the instructions
      whose uses are replaced comes through the apply loop unchanged. */
  lemma {:induction false} ApplyAllKeeps(body: seq<Block>, rs: seq<Replacement>, b: nat, x: Instr)
    requires b < |body| && x in body[b] && x.id !in Recorded(rs)
    requires forall id :: id in Replaced(rs) ==> !Uses(x, id)
    ensures x in ApplyAll(body, rs)[b]
    decreases |rs|
  {
    if rs != [] {
      var prefix, last := rs[..|rs| - 1], rs[|rs| - 1];
      RecordedSplit(rs);
      ApplyAllKeeps(body, prefix, b, x);
      var before := ApplyAll(body, prefix);
      var replaced := if last.value.Some? then ReplaceUses(before, last.inst, last.value.value) else before;
      assert x in replaced[b] by {
        if last.value.Some? {
          var k :| 0 <= k < |before[b]| && before[b][k] == x;
          assert replaced[b][k] == ReplaceIn(x, last.inst, last.value.value) == x;
        }
      }
    }
  }

  /** When no entry's value is itself an instruction, no instruction left
      after the apply loop uses an instruction whose uses were replaced. */
  lemma {:induction false} ApplyAllClearsUses(body: seq<Block>, rs: seq<Replacement>)
    requires forall r :: r in rs && r.value.Some? ==> !r.value.value.InstrRef?
    ensures forall b, x, id :: 0 <= b < |body| && x in ApplyAll(body, rs)[b] && id in Replaced(rs) ==> !Uses(x, id)
    decreases |rs|
  {
    if rs != [] {
      var prefix, last := rs[..|rs| - 1], rs[|rs| - 1];
      RecordedSplit(rs);
      ApplyAllClearsUses(body, prefix);
      ApplyOneClearsUses(ApplyAll(body, prefix), last, Replaced(prefix));
    }
  }

  /** One entry of the apply loop leaves no use of the instructions whose uses
      were already gone, and none of its own instruction when it replaces it
      by a value that is not an instruction. */
  lemma ApplyOneClearsUses(before: seq<Block>, e: Replacement, done: set<nat>)
    requires e.value.Some? ==> !e.value.value.InstrRef?
    requires forall b, x, id :: 0 <= b < |before| && x in before[b] && id in done ==> !Uses(x, id)
    ensures forall b, x, id ::
              (0 <= b < |before| && x in ApplyOne(before, e)[b] &&
               id in done + (if e.value.Some? then {e.inst} else {})) ==> !Uses(x, id)
  {
    var replaced := if e.value.Some? then ReplaceUses(before, e.inst, e.value.value) else before;
    forall b, x, id | 0 <= b < |before| && x in ApplyOne(before, e)[b] &&
                      id in done + (if e.value.Some? then {e.inst} else {})
      ensures !Uses(x, id)
    {
      assert x in replaced[b];
      if e.value.Some? {
        var k :| 0 <= k < |replaced[b]| && replaced[b][k] == x;
        var y := before[b][k];
        assert x == ReplaceIn(y, e.inst, e.value.value);
        if id in done {
          assert y in before[b];
          assert !Uses(y, id);
        }
      }
    }
  }

  /**
   * An instruction that is not recorded, and whose only use among the
   * replaced instructions is of `t`, comes out of the apply loop with that use
   * turned into `w`, the value every entry for `t` carries.
   */
  lemma {:induction false} ApplyAllRewrites(body: seq<Block>, rs: seq<Replacement>, b: nat, x: Instr, t: nat, w: Value)
    requires b < |body| && x in body[b] && x.id !in Recorded(rs)
    requires forall e :: e in rs && e.value.Some? ==> !e.value.value.InstrRef?
    requires t in Replaced(rs)
    requires forall e :: e in rs && e.inst == t && e.value.Some? ==> e.value.value == w
    requires forall id :: id in Replaced(rs) && id != t ==> !Uses(x, id)
    ensures ReplaceIn(x, t, w) in ApplyAll(body, rs)[b]
    decreases |rs|
  {
    var prefix, last := rs[..|rs| - 1], rs[|rs| - 1];
    RecordedSplit(rs);
    assert rs == prefix + [last];
    var before := ApplyAll(body, prefix);
    assert ApplyAll(body, rs) == ApplyOne(before, last);
    var y := ReplaceIn(x, t, w);
    if t in Replaced(prefix) {
      var e :| e in prefix && e.value.Some? && e.inst == t;
      assert e in rs;
      assert !w.InstrRef?;
      assert Replaced(prefix) <= Replaced(rs) && Recorded(prefix) <= Recorded(rs);
      ApplyAllRewrites(body, prefix, b, x, t, w);
      ApplyOneMaps(before, last, b, y);
      if last.value.Some? {
        if last.inst != t {
          assert !Uses(x, last.inst);
        }
        assert !Uses(y, last.inst);
      }
    } else {
      assert last.inst == t && last.value == Some(w);
      ApplyAllKeeps(body, prefix, b, x);
      ApplyOneMaps(before, last, b, x);
    }
  }

  /** One entry of the apply loop keeps every instruction but its own, with
      the uses of its instruction substituted when it carries a value. */
  lemma ApplyOneMaps(before: seq<Block>, e: Replacement, b: nat, x: Instr)
    requires b < |before| && x in before[b] && x.id != e.inst
    ensures (if e.value.Some? then ReplaceIn(x, e.inst, e.value.value) else x) in ApplyOne(before, e)[b]
  {
    if e.value.Some? {
      var replaced := ReplaceUses(before, e.inst, e.value.value);
      var k :| 0 <= k < |before[b]| && before[b][k] == x;
      assert replaced[b][k] == ReplaceIn(x, e.inst, e.value.value);
    }
  }

  // ---------------------------------------------------------------------
  // The scan

  lemma {:induction false} ScanBlockSound(m: Module, pointerSize: nat, body: seq<Block>, b: nat, j: nat, r: Replacement)
    requires ValidModule(m) && b < |body| && j <= |body[b]|
    requires r in ScanBlock(m, pointerSize, body, b, j)
    ensures exists k :: j <= k < |body[b]| && (forall t :: j <= t < k ==> !ShapeOf(body, body[b][t]).Unprefixed?) &&
                        r in StepAt(m, pointerSize, body, body[b][k])
    decreases |body[b]| - j
  {
    if r !in StepAt(m, pointerSize, body, body[b][j]) {
      ScanBlockSound(m, pointerSize, body, b, j + 1, r);
      var k :| j + 1 <= k < |body[b]| && (forall t :: j + 1 <= t < k ==> !ShapeOf(body, body[b][t]).Unprefixed?) &&
               r in StepAt(m, pointerSize, body, body[b][k]);
      assert forall t :: j <= t < k ==> !ShapeOf(body, body[b][t]).Unprefixed?;
    }
  }

  /** The per-block scans, in block order. */
  ghost function BlockScans(m: Module, pointerSize: nat, body: seq<Block>): (r: seq<seq<Replacement>>)
    requires ValidModule(m)
    ensures |r| == |body| && forall b :: 0 <= b < |body| ==> r[b] == ScanBlock(m, pointerSize, body, b, 0)
  {
    seq(|body|, b requires 0 <= b < |body| => ScanBlock(m, pointerSize, body, b, 0))
  }

  /** The scan from block `b` is the concatenation of the block scans from
      `b` onwards. */
  lemma {:induction false} ScanFromFlat(m: Module, pointerSize: nat, body: seq<Block>, b: nat)
    requires ValidModule(m) && b <= |body|
    ensures ScanFrom(m, pointerSize, body, b) == Flat(BlockScans(m, pointerSize, body)[b..])
    decreases |body| - b
  {
    var parts := BlockScans(m, pointerSize, body);
    if b < |body| {
      ScanFromFlat(m, pointerSize, body, b + 1);
      assert parts[b..] == [parts[b]] + parts[b + 1..];
      FlatCons(parts[b], parts[b + 1..]);
    }
  }

  /** Every recorded entry comes from a candidate site the scan reached. */
  lemma ScanSound(m: Module, pointerSize: nat, body: seq<Block>, r: Replacement)
    requires ValidModule(m) && r in Scan(m, pointerSize, body)
    ensures exists b, k :: Reachable(body, b, k) && ShapeOf(body, body[b][k]).Candidate? &&
                           r in StepAt(m, pointerSize, body, body[b][k])
  {
    var parts := BlockScans(m, pointerSize, body);
    ScanFromFlat(m, pointerSize, body, 0);
    assert parts[0..] == parts;
    FlatMember(parts, r);
    var b :| 0 <= b < |parts| && r in parts[b];
    ScanBlockSound(m, pointerSize, body, b, 0, r);
    var k :| 0 <= k < |body[b]| && (forall t :: 0 <= t < k ==> !ShapeOf(body, body[b][t]).Unprefixed?) &&
             r in StepAt(m, pointerSize, body, body[b][k]);
    assert Reachable(body, b, k);
  }

  lemma {:induction false} ScanBlockComplete(m: Module, pointerSize: nat, body: seq<Block>, b: nat, j: nat, k: nat)
    requires ValidModule(m) && b < |body| && j <= k < |body[b]|
    requires forall t :: j <= t < k ==> !ShapeOf(body, body[b][t]).Unprefixed?
    ensures forall r :: r in StepAt(m, pointerSize, body, body[b][k]) ==> r in ScanBlock(m, pointerSize, body, b, j)
    decreases k - j
  {
    if j < k {
      ScanBlockComplete(m, pointerSize, body, b, j + 1, k);
      assert !ShapeOf(body, body[b][j]).Unprefixed?;
      assert ScanBlock(m, pointerSize, body, b, j) ==
             StepAt(m, pointerSize, body, body[b][j]) + ScanBlock(m, pointerSize, body, b, j + 1);
    } else if !ShapeOf(body, body[b][k]).Unprefixed? {
      assert ScanBlock(m, pointerSize, body, b, k) ==
             StepAt(m, pointerSize, body, body[b][k]) + ScanBlock(m, pointerSize, body, b, k + 1);
    }
  }

  /** Every entry of a site the scan reaches is recorded. */
  lemma ScanComplete(m: Module, pointerSize: nat, body: seq<Block>, b: nat, k: nat)
    requires ValidModule(m) && Reachable(body, b, k)
    ensures forall r :: r in StepAt(m, pointerSize, body, body[b][k]) ==> r in Scan(m, pointerSize, body)
  {
    var parts := BlockScans(m, pointerSize, body);
    ScanFromFlat(m, pointerSize, body, 0);
    assert parts[0..] == parts;
    ScanBlockComplete(m, pointerSize, body, b, 0, k);
    forall r | r in StepAt(m, pointerSize, body, body[b][k])
      ensures r in Scan(m, pointerSize, body)
    {
      FlatMember(parts, r);
    }
  }

  /** The buffer is non-empty exactly when some reached site has a nonzero
      hard-coded offset or a direct offset value global. */
  lemma RecordsIffSiteResolves(m: Module, pointerSize: nat, body: seq<Block>)
    requires ValidModule(m)
    ensures Scan(m, pointerSize, body) != [] <==>
              exists b, k :: Reachable(body, b, k) && StepAt(m, pointerSize, body, body[b][k]) != []
  {
    var rs := Scan(m, pointerSize, body);
    if rs != [] {
      ScanSound(m, pointerSize, body, rs[0]);
    }
    if exists b, k :: Reachable(body, b, k) && StepAt(m, pointerSize, body, body[b][k]) != [] {
      var b, k :| Reachable(body, b, k) && StepAt(m, pointerSize, body, body[b][k]) != [];
      ScanComplete(m, pointerSize, body, b, k);
      assert StepAt(m, pointerSize, body, body[b][k])[0] in rs;
    }
  }

  /** At a reached site with a nonzero hard-coded offset, the outer load is
      recorded with that constant, and after the apply loop neither load is
      left and nothing uses the outer load. */
  lemma HardCodedSiteRewritten(m: Module, pointerSize: nat, body: seq<Block>, b: nat, k: nat)
    requires ValidModule(m) && Reachable(body, b, k)
    requires ShapeOf(body, body[b][k]).Candidate?
    requires SiteOffset(m, pointerSize, ShapeOf(body, body[b][k]).slot) != 0
    ensures var shape := ShapeOf(body, body[b][k]);
            var outer := body[b][k].id;
            var out := ApplyAll(body, Scan(m, pointerSize, body));
            Replacement(outer, Some(ConstInt(SiteOffset(m, pointerSize, shape.slot)))) in Scan(m, pointerSize, body) &&
            forall bb :: 0 <= bb < |out| ==>
              outer !in IdsOf(out[bb]) && shape.inner !in IdsOf(out[bb]) &&
              forall x :: x in out[bb] ==> !Uses(x, outer)
  {
    var shape := ShapeOf(body, body[b][k]);
    var outer := body[b][k].id;
    var rs := Scan(m, pointerSize, body);
    var offset := SiteOffset(m, pointerSize, shape.slot);
    ScanComplete(m, pointerSize, body, b, k);
    assert Replacement(shape.inner, None) in StepAt(m, pointerSize, body, body[b][k]);
    assert Replacement(outer, Some(ConstInt(offset))) in StepAt(m, pointerSize, body, body[b][k]);
    assert outer in Replaced(rs) && outer in Recorded(rs) && shape.inner in Recorded(rs);
    ApplyAllIds(body, rs);
    ApplyAllClearsUses(body, rs);
  }

  /** At a reached site without a hard-coded offset whose direct offset value
      global exists, the inner load is recorded with that global, and after
      the apply loop it is gone and nothing uses it. */
  lemma FallbackSiteRewritten(m: Module, pointerSize: nat, body: seq<Block>, b: nat, k: nat)
    requires ValidModule(m) && Reachable(body, b, k)
    requires ShapeOf(body, body[b][k]).Candidate?
    requires SiteOffset(m, pointerSize, ShapeOf(body, body[b][k]).slot) == 0
    requires GetGlobalVariable(m, ValueSlotName(SlotSuffix(ShapeOf(body, body[b][k]).slot)), false).Some?
    ensures var shape := ShapeOf(body, body[b][k]);
            var out := ApplyAll(body, Scan(m, pointerSize, body));
            Replacement(shape.inner, Some(GlobalAddr(ValueSlotName(SlotSuffix(shape.slot))))) in Scan(m, pointerSize, body) &&
            forall bb :: 0 <= bb < |out| ==>
              shape.inner !in IdsOf(out[bb]) && forall x :: x in out[bb] ==> !Uses(x, shape.inner)
  {
    var shape := ShapeOf(body, body[b][k]);
    var rs := Scan(m, pointerSize, body);
    var value := GlobalAddr(ValueSlotName(SlotSuffix(shape.slot)));
    ScanComplete(m, pointerSize, body, b, k);
    assert Replacement(shape.inner, Some(value)) in StepAt(m, pointerSize, body, body[b][k]);
    assert shape.inner in Replaced(rs) && shape.inner in Recorded(rs);
    ApplyAllIds(body, rs);
    ApplyAllClearsUses(body, rs);
  }

  /** When no reached site resolves either way, nothing is recorded and the
      function is left exactly as it was. */
  lemma UnresolvedLeavesFunction(m: Module, pointerSize: nat, body: seq<Block>)
    requires ValidModule(m)
    requires forall b, k :: Reachable(body, b, k) && ShapeOf(body, body[b][k]).Candidate? ==>
               var slot := ShapeOf(body, body[b][k]).slot;
               SiteOffset(m, pointerSize, slot) == 0 &&
               GetGlobalVariable(m, ValueSlotName(SlotSuffix(slot)), false).None?
    ensures Scan(m, pointerSize, body) == []
    ensures ApplyAll(body, Scan(m, pointerSize, body)) == body
  {
    RecordsIffSiteResolves(m, pointerSize, body);
  }

  /** With unique numbers, every recorded entry for the outer load of a
      candidate site is one that site itself records. */
  lemma EntryForOuter(m: Module, pointerSize: nat, body: seq<Block>, b: nat, k: nat, e: Replacement)
    requires ValidModule(m) && UniqueIds(body) && b < |body| && k < |body[b]|
    requires ShapeOf(body, body[b][k]).Candidate?
    requires e in Scan(m, pointerSize, body) && e.inst == body[b][k].id
    ensures e in StepAt(m, pointerSize, body, body[b][k])
  {
    ScanSound(m, pointerSize, body, e);
    var b2, k2 :| Reachable(body, b2, k2) && ShapeOf(body, body[b2][k2]).Candidate? &&
                  e in StepAt(m, pointerSize, body, body[b2][k2]);
    if body[b2][k2].id != body[b][k].id {
      DefOfUnique(body, b, k);
      assert false;
    }
  }

  /** With unique numbers, every recorded entry for the inner load of a
      candidate site is one of the decisions for that inner load and its slot,
      made at a reached outer load of that inner load (this site or another). */
  lemma EntryForInner(m: Module, pointerSize: nat, body: seq<Block>, b: nat, k: nat, e: Replacement)
    requires ValidModule(m) && UniqueIds(body) && b < |body| && k < |body[b]|
    requires ShapeOf(body, body[b][k]).Candidate?
    requires e in Scan(m, pointerSize, body) && e.inst == ShapeOf(body, body[b][k]).inner
    ensures var shape := ShapeOf(body, body[b][k]);
            exists b2, k2 :: Reachable(body, b2, k2) && ShapeOf(body, body[b2][k2]) == Candidate(shape.inner, shape.slot) &&
                             body[b2][k2].id != shape.inner &&
                             e in SiteDecision(m, pointerSize, body[b2][k2].id, shape.inner, shape.slot)
  {
    var shape := ShapeOf(body, body[b][k]);
    ScanSound(m, pointerSize, body, e);
    var b2, k2 :| Reachable(body, b2, k2) && ShapeOf(body, body[b2][k2]).Candidate? &&
                  e in StepAt(m, pointerSize, body, body[b2][k2]);
    var shape2 := ShapeOf(body, body[b2][k2]);
    if e.inst == shape2.inner {
      assert shape2.slot == shape.slot;
      DefOfUnique(body, b2, k2);
      assert body[b2][k2].id != shape.inner;
      assert e in SiteDecision(m, pointerSize, body[b2][k2].id, shape.inner, shape.slot);
    } else {
      DefOfUnique(body, b2, k2);
      assert false;
    }
  }

  /** At a reached site with a nonzero hard-coded offset, the outer load's
      uses are replaced, and every entry that replaces them carries the offset. */
  lemma OuterEntriesCarryConstant(m: Module, pointerSize: nat, body: seq<Block>, b: nat, k: nat)
    requires ValidModule(m) && UniqueIds(body) && Reachable(body, b, k)
    requires ShapeOf(body, body[b][k]).Candidate?
    requires SiteOffset(m, pointerSize, ShapeOf(body, body[b][k]).slot) != 0
    ensures var rs := Scan(m, pointerSize, body);
            body[b][k].id in Replaced(rs) &&
            forall e :: e in rs && e.inst == body[b][k].id && e.value.Some? ==>
              e.value.value == ConstInt(SiteOffset(m, pointerSize, ShapeOf(body, body[b][k]).slot))
  {
    var outer := body[b][k].id;
    var c := ConstInt(SiteOffset(m, pointerSize, ShapeOf(body, body[b][k]).slot));
    var rs := Scan(m, pointerSize, body);
    ScanComplete(m, pointerSize, body, b, k);
    assert Replacement(outer, Some(c)) in StepAt(m, pointerSize, body, body[b][k]);
    forall e | e in rs && e.inst == outer && e.value.Some? ensures e.value.value == c {
      EntryForOuter(m, pointerSize, body, b, k, e);
    }
  }

  /** At a reached site with a nonzero hard-coded offset, the inner load is
      recorded, but only with no value: its uses are never replaced. */
  lemma HardCodedInnerNotReplaced(m: Module, pointerSize: nat, body: seq<Block>, b: nat, k: nat)
    requires ValidModule(m) && UniqueIds(body) && Reachable(body, b, k)
    requires ShapeOf(body, body[b][k]).Candidate?
    requires SiteOffset(m, pointerSize, ShapeOf(body, body[b][k]).slot) != 0
    ensures var shape := ShapeOf(body, body[b][k]);
            var rs := Scan(m, pointerSize, body);
            shape.inner in Recorded(rs) && shape.inner !in Replaced(rs)
  {
    var shape := ShapeOf(body, body[b][k]);
    var rs := Scan(m, pointerSize, body);
    ScanComplete(m, pointerSize, body, b, k);
    assert Replacement(shape.inner, None) in StepAt(m, pointerSize, body, body[b][k]);
    forall e | e in rs && e.inst == shape.inner ensures e.value.None? {
      EntryForInner(m, pointerSize, body, b, k, e);
      var b2, k2 :| Reachable(body, b2, k2) && ShapeOf(body, body[b2][k2]) == Candidate(shape.inner, shape.slot) &&
                    body[b2][k2].id != shape.inner &&
                    e in SiteDecision(m, pointerSize, body[b2][k2].id, shape.inner, shape.slot);
      HardCodedDecisionLeavesInner(m, pointerSize, body[b2][k2].id, shape.inner, shape.slot, e);
    }
  }

  /** A site with a nonzero hard-coded offset records its inner load with no value. */
  lemma HardCodedDecisionLeavesInner(m: Module, pointerSize: nat, outer: nat, inner: nat, slot: string, e: Replacement)
    requires ValidModule(m) && StartsWith(slot, OFFSET_PREFIX) && SiteOffset(m, pointerSize, slot) != 0
    requires outer != inner && e in SiteDecision(m, pointerSize, outer, inner, slot) && e.inst == inner
    ensures e == Replacement(inner, None)
  {
  }

  /** At a reached fallback site, the inner load's uses are replaced, every
      entry that replaces them carries the value global, and the outer load
      itself is not recorded. */
  lemma InnerEntriesCarryValueGlobal(m: Module, pointerSize: nat, body: seq<Block>, b: nat, k: nat)
    requires ValidModule(m) && UniqueIds(body) && Reachable(body, b, k)
    requires ShapeOf(body, body[b][k]).Candidate?
    requires SiteOffset(m, pointerSize, ShapeOf(body, body[b][k]).slot) == 0
    requires GetGlobalVariable(m, ValueSlotName(SlotSuffix(ShapeOf(body, body[b][k]).slot)), false).Some?
    ensures var shape := ShapeOf(body, body[b][k]);
            var rs := Scan(m, pointerSize, body);
            shape.inner in Replaced(rs) && body[b][k].id !in Recorded(rs) &&
            forall e :: e in rs && e.inst == shape.inner && e.value.Some? ==>
              e.value.value == GlobalAddr(ValueSlotName(SlotSuffix(shape.slot)))
  {
    var shape := ShapeOf(body, body[b][k]);
    var x0 := body[b][k];
    var g := GlobalAddr(ValueSlotName(SlotSuffix(shape.slot)));
    var rs := Scan(m, pointerSize, body);
    ScanComplete(m, pointerSize, body, b, k);
    assert Replacement(shape.inner, Some(g)) in StepAt(m, pointerSize, body, x0);
    forall e | e in rs && e.inst == shape.inner && e.value.Some? ensures e.value.value == g {
      EntryForInner(m, pointerSize, body, b, k, e);
    }
    DefOfUnique(body, b, k);
    assert shape.inner != x0.id;
    forall e | e in rs && e.inst == x0.id ensures false {
      EntryForOuter(m, pointerSize, body, b, k, e);
    }
  }

  /** At a reached site with a nonzero hard-coded offset, every other
      instruction that used the outer load, and no other replaced
      instruction, now uses that constant in its place. */
  lemma HardCodedUsersSeeConstant(m: Module, pointerSize: nat, body: seq<Block>, b: nat, k: nat)
    requires ValidModule(m) && UniqueIds(body) && Reachable(body, b, k)
    requires ShapeOf(body, body[b][k]).Candidate?
    requires SiteOffset(m, pointerSize, ShapeOf(body, body[b][k]).slot) != 0
    ensures var outer := body[b][k].id;
            var c := ConstInt(SiteOffset(m, pointerSize, ShapeOf(body, body[b][k]).slot));
            var rs := Scan(m, pointerSize, body);
            forall bb, x :: 0 <= bb < |body| && x in body[bb] && x.id !in Recorded(rs) &&
                            (forall id :: id in Replaced(rs) && id != outer ==> !Uses(x, id)) ==>
              ReplaceIn(x, outer, c) in ApplyAll(body, rs)[bb]
  {
    var outer := body[b][k].id;
    var c := ConstInt(SiteOffset(m, pointerSize, ShapeOf(body, body[b][k]).slot));
    var rs := Scan(m, pointerSize, body);
    OuterEntriesCarryConstant(m, pointerSize, body, b, k);
    forall bb, x | 0 <= bb < |body| && x in body[bb] && x.id !in Recorded(rs) &&
                   (forall id :: id in Replaced(rs) && id != outer ==> !Uses(x, id))
      ensures ReplaceIn(x, outer, c) in ApplyAll(body, rs)[bb]
    {
      ApplyAllRewrites(body, rs, bb, x, outer, c);
    }
  }

  /** At a reached site without a hard-coded offset whose direct offset value
      global is visible, every instruction that used the inner load, and no
      other replaced instruction, now uses that global. */
  lemma FallbackUsersSeeValueGlobal(m: Module, pointerSize: nat, body: seq<Block>, b: nat, k: nat)
    requires ValidModule(m) && UniqueIds(body) && Reachable(body, b, k)
    requires ShapeOf(body, body[b][k]).Candidate?
    requires SiteOffset(m, pointerSize, ShapeOf(body, body[b][k]).slot) == 0
    requires GetGlobalVariable(m, ValueSlotName(SlotSuffix(ShapeOf(body, body[b][k]).slot)), false).Some?
    ensures var shape := ShapeOf(body, body[b][k]);
            var g := GlobalAddr(ValueSlotName(SlotSuffix(shape.slot)));
            var rs := Scan(m, pointerSize, body);
            forall bb, x :: 0 <= bb < |body| && x in body[bb] && x.id !in Recorded(rs) &&
                            (forall id :: id in Replaced(rs) && id != shape.inner ==> !Uses(x, id)) ==>
              ReplaceIn(x, shape.inner, g) in ApplyAll(body, rs)[bb]
  {
    var shape := ShapeOf(body, body[b][k]);
    var g := GlobalAddr(ValueSlotName(SlotSuffix(shape.slot)));
    var rs := Scan(m, pointerSize, body);
    InnerEntriesCarryValueGlobal(m, pointerSize, body, b, k);
    forall bb, x | 0 <= bb < |body| && x in body[bb] && x.id !in Recorded(rs) &&
                   (forall id :: id in Replaced(rs) && id != shape.inner ==> !Uses(x, id))
      ensures ReplaceIn(x, shape.inner, g) in ApplyAll(body, rs)[bb]
    {
      ApplyAllRewrites(body, rs, bb, x, shape.inner, g);
    }
  }

  /** In particular, the outer load of such a site stays in its block and now
      loads from the value global. */
  lemma FallbackOuterLoadsValueGlobal(m: Module, pointerSize: nat, body: seq<Block>, b: nat, k: nat)
    requires ValidModule(m) && UniqueIds(body) && Reachable(body, b, k)
    requires ShapeOf(body, body[b][k]).Candidate?
    requires SiteOffset(m, pointerSize, ShapeOf(body, body[b][k]).slot) == 0
    requires GetGlobalVariable(m, ValueSlotName(SlotSuffix(ShapeOf(body, body[b][k]).slot)), false).Some?
    ensures var g := GlobalAddr(ValueSlotName(SlotSuffix(ShapeOf(body, body[b][k]).slot)));
            Instr(body[b][k].id, Load(g)) in ApplyAll(body, Scan(m, pointerSize, body))[b]
  {
    var shape := ShapeOf(body, body[b][k]);
    var x0 := body[b][k];
    var g := GlobalAddr(ValueSlotName(SlotSuffix(shape.slot)));
    var rs := Scan(m, pointerSize, body);
    InnerEntriesCarryValueGlobal(m, pointerSize, body, b, k);
    assert x0 in body[b];
    assert forall id :: Uses(x0, id) ==> id == shape.inner;
    ApplyAllRewrites(body, rs, b, x0, shape.inner, g);
    assert ReplaceIn(x0, shape.inner, g) == Instr(x0.id, Load(g));
  }

  /** The concatenation of a sequence of sequences. */
  function Flat<T>(parts: seq<seq<T>>): seq<T> {
    if parts == [] then [] else parts[0] + Flat(parts[1..])
  }

  lemma FlatCons<T>(head: seq<T>, tail: seq<seq<T>>)
    ensures Flat([head] + tail) == head + Flat(tail)
  {
    assert ([head] + tail)[1..] == tail;
  }

  /** An element is in a concatenation exactly when it is in one of its
      parts. */
  lemma {:induction false} FlatMember<T>(parts: seq<seq<T>>, x: T)
    ensures x in Flat(parts) <==> exists i :: 0 <= i < |parts| && x in parts[i]
  {
    if parts != [] {
      FlatMember(parts[1..], x);
      if x in Flat(parts[1..]) {
        var i :| 0 <= i < |parts[1..]| && x in parts[1..][i];
        assert x in parts[i + 1];
      }
      if exists i :: 0 <= i < |parts| && x in parts[i] {
        var i :| 0 <= i < |parts| && x in parts[i];
        if i > 0 {
          assert x in parts[1..][i - 1];
        }
      }
    }
  }

  lemma AppendAssoc<T>(a: seq<T>, b: seq<T>, c: seq<T>)
    ensures (a + b) + c == a + (b + c)
  {
  }

  // ---------------------------------------------------------------------
  // The pass object

  class NonfragileIvarPass {
    /** `M`: the module being compiled. */
    var unit: Module
    /** `PointerSize`: the target's pointer width in bytes. */
    var pointerSize: nat

    /** `doInitialization`: remembers the module and takes the pointer size
        to be 4 bytes for a 32-bit target and 8 bytes otherwise. */
    method DoInitialization(m: Module) returns (changed: bool)
      modifies this
      ensures unit == m
      ensures pointerSize == 4 <==> m.pointerKind == Pointer32
      ensures pointerSize == 4 || pointerSize == 8
      ensures !changed
    {
      unit := m;
      pointerSize := 8;
      if m.pointerKind == Pointer32 {
        pointerSize := 4;
      }
      changed := false;
    }

    /** `hardCodedOffset`: the linear scan of the class's own ivars. */
    method HardCodedOffset(className: string, ivarName: string) returns (offset: int)
      requires WellFormed(unit)
      requires ClassOf(unit, className, true).Some? ==>
                 Terminates(unit, SuperName(ClassOf(unit, className, true).value.super))
      ensures offset == ClassLayout.HardCodedOffset(unit, pointerSize, className, ivarName)
    {
      var cls := ClassOf(unit, className, true);
      if cls.None? {
        return 0;
      }
      var c := cls.value;
      var superSize := SizeOfClass(unit, pointerSize, SuperName(c.super));
      if superSize == 0 {
        return 0;
      }
      var i := 0;
      while i < c.ivarCount
        invariant 0 <= i <= |c.ivars|
        invariant i == 0 || i <= c.ivarCount
        invariant forall j :: 0 <= j < i ==> !StartsWith(c.ivars[j].name, ivarName)
      {
        if StartsWith(c.ivars[i].name, ivarName) {
          assert IsFirstMatch(c, ivarName, i);
          return superSize + c.ivars[i].offset;
        }
        i := i + 1;
      }
      return 0;
    }

    /**
     * The decision for one instruction of the scan (a candidate site or not):
     * a nonzero hard-coded offset records the inner load for removal and the
     * outer load for replacement by that constant; failing that, an existing
     * direct offset value global records the inner load for replacement by
     * that global; otherwise nothing is recorded.
     */
    method RecordSite(body: seq<Block>, indirectLoad: Instr) returns (entries: seq<Replacement>)
      requires ValidModule(unit)
      ensures entries == StepAt(unit, pointerSize, body, indirectLoad)
    {
      entries := [];
      var shape := ShapeOf(body, indirectLoad);
      if shape.Candidate? {
        var suffix := SlotSuffix(shape.slot);
        var names := DecodeSlot(shape.slot).value;
        var offset := HardCodedOffset(names.0, names.1);
        if offset != 0 {
          entries := [Replacement(shape.inner, None), Replacement(indirectLoad.id, Some(ConstInt(offset)))];
        } else if GetGlobalVariable(unit, ValueSlotName(suffix), false).Some? {
          entries := [Replacement(shape.inner, Some(GlobalAddr(ValueSlotName(suffix))))];
        }
      }
    }

    /**
     * The inner loop of the scan in `runOnFunction`: the instructions of
     * block `b` in order, abandoning the rest of the block at a double load
     * whose global lacks the slot prefix.
     */
    method ScanBasicBlock(body: seq<Block>, b: nat) returns (entries: seq<Replacement>)
      requires ValidModule(unit) && b < |body|
      ensures entries == ScanBlock(unit, pointerSize, body, b, 0)
    {
      entries := [];
      var j := 0;
      while j < |body[b]|
        invariant 0 <= j <= |body[b]|
        invariant entries + ScanBlock(unit, pointerSize, body, b, j) == ScanBlock(unit, pointerSize, body, b, 0)
      {
        var indirectLoad := body[b][j];
        if ShapeOf(body, indirectLoad).Unprefixed? {
          break;
        }
        var site := RecordSite(body, indirectLoad);
        AppendAssoc(entries, site, ScanBlock(unit, pointerSize, body, b, j + 1));
        entries := entries + site;
        j := j + 1;
      }
    }

    /**
     * The first loop of `runOnFunction`: every block in order. `modified` is
     * set whenever an entry is recorded.
     */
    method CollectReplacements(body: seq<Block>) returns (replacements: seq<Replacement>, modified: bool)
      requires ValidModule(unit)
      ensures replacements == Scan(unit, pointerSize, body)
      ensures modified <==> replacements != []
    {
      modified := false;
      replacements := [];
      var i := 0;
      while i < |body|
        invariant 0 <= i <= |body|
        invariant replacements + ScanFrom(unit, pointerSize, body, i) == Scan(unit, pointerSize, body)
        invariant modified <==> replacements != []
      {
        var entries := ScanBasicBlock(body, i);
        AppendAssoc(replacements, entries, ScanFrom(unit, pointerSize, body, i + 1));
        replacements := replacements + entries;
        if entries != [] {
          modified := true;
        }
        i := i + 1;
      }
    }

    /** The second loop of `runOnFunction`: for each entry in order, replace
        the uses of its instruction when it carries a value, then remove it. */
    method ApplyReplacements(f: Function, replacements: seq<Replacement>)
      modifies f
      ensures f.blocks == ApplyAll(old(f.blocks), replacements)
    {
      ghost var body := f.blocks;
      var k := 0;
      while k < |replacements|
        invariant 0 <= k <= |replacements|
        invariant f.blocks == ApplyAll(body, replacements[..k])
      {
        var r := replacements[k];
        if r.value.Some? {
          f.ReplaceAllUsesWith(r.inst, r.value.value);
        }
        f.RemoveFromParent(r.inst);
        assert replacements[..k + 1][..k] == replacements[..k];
        assert ApplyAll(body, replacements[..k + 1]) == ApplyOne(ApplyAll(body, replacements[..k]), r);
        k := k + 1;
      }
      assert replacements[..|replacements|] == replacements;
    }

    /** `runOnFunction`: the function ends as the buffer applied to it, and
        the result says whether anything was recorded. */
    method RunOnFunction(f: Function) returns (modified: bool)
      requires ValidModule(unit)
      modifies f
      ensures modified <==> Scan(unit, pointerSize, old(f.blocks)) != []
      ensures f.blocks == ApplyAll(old(f.blocks), Scan(unit, pointerSize, old(f.blocks)))
    {
      var replacements;
      replacements, modified := CollectReplacements(f.blocks);
      ApplyReplacements(f, replacements);
    }
  }
}
