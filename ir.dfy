/**
 * The fragment of LLVM IR the pass looks at and rewrites. A function body is
 * a sequence of basic blocks, each a sequence of instructions; an instruction
 * is named by a unique number, and its operands refer to other instructions
 * by that number, to globals by name, to integer constants, or to the
 * function's arguments. Only loads are told apart from other instructions.
 * A global operand is either a global variable or another global-based
 * constant (a function, an alias, or a constant expression such as a
 * bitcast of a global), which `dyn_cast<GlobalVariable>` rejects.
 */
module Ir {
  import opened Wrappers

  datatype Value =
    | InstrRef(id: nat)
    | GlobalAddr(name: string)          // a global variable
    | OtherConstant(name: string)       // a function, an alias or a constant expression
    | ConstInt(value: int)
    | Argument(index: nat)

  datatype Op = Load(address: Value) | Other(operands: seq<Value>)

  datatype Instr = Instr(id: nat, op: Op)

  type Block = seq<Instr>

  function Operands(x: Instr): seq<Value> {
    match x.op
    case Load(a) => [a]
    case Other(vs) => vs
  }

  /** `x` has the instruction numbered `id` as an operand. */
  predicate Uses(x: Instr, id: nat) {
    InstrRef(id) in Operands(x)
  }

  /** Every instruction of the function has a number of its own, as every
      LLVM instruction is a distinct value. */
  ghost predicate UniqueIds(body: seq<Block>) {
    forall b1, k1, b2, k2 ::
      (0 <= b1 < |body| && 0 <= k1 < |body[b1]| && 0 <= b2 < |body| && 0 <= k2 < |body[b2]| &&
       body[b1][k1].id == body[b2][k2].id) ==> b1 == b2 && k1 == k2
  }

  function IdsOf(blk: Block): (r: seq<nat>)
    ensures |r| == |blk| && forall k :: 0 <= k < |blk| ==> r[k] == blk[k].id
  {
    seq(|blk|, k requires 0 <= k < |blk| => blk[k].id)
  }

  /** The numbers of `s`, in order, without those in `drop`. */
  function Without(s: seq<nat>, drop: set<nat>): (r: seq<nat>)
    ensures forall v :: v in r <==> v in s && v !in drop
  {
    if s == [] then []
    else if s[0] in drop then Without(s[1..], drop)
    else [s[0]] + Without(s[1..], drop)
  }

  lemma {:induction false} WithoutTwice(s: seq<nat>, drop: set<nat>, more: set<nat>)
    ensures Without(Without(s, drop), more) == Without(s, drop + more)
  {
    if s != [] {
      WithoutTwice(s[1..], drop, more);
      if s[0] !in drop {
        assert ([s[0]] + Without(s[1..], drop))[1..] == Without(s[1..], drop);
      }
    }
  }

  /** The instruction numbered `id`, looked up anywhere in the function. */
  function Def(body: seq<Block>, id: nat): (r: Option<Instr>)
    ensures r.Some? ==> r.value.id == id && exists b :: 0 <= b < |body| && r.value in body[b]
    ensures r.None? ==> forall b, x :: 0 <= b < |body| && x in body[b] ==> x.id != id
  {
    if body == [] then None
    else match FindIn(body[0], id)
      case Some(x) => Some(x)
      case None =>
        var r := Def(body[1..], id);
        assert forall b :: 1 <= b < |body| ==> body[b] == body[1..][b - 1];
        r
  }

  /** With unique numbers, the number of an instruction leads back to it. */
  lemma DefOfUnique(body: seq<Block>, b: nat, k: nat)
    requires UniqueIds(body) && b < |body| && k < |body[b]|
    ensures Def(body, body[b][k].id) == Some(body[b][k])
  {
    var x := body[b][k];
    assert x in body[b];
    var d := Def(body, x.id);
    var bb :| 0 <= bb < |body| && d.value in body[bb];
    var kk :| 0 <= kk < |body[bb]| && body[bb][kk] == d.value;
  }

  function FindIn(blk: Block, id: nat): (r: Option<Instr>)
    ensures r.Some? ==> r.value.id == id && r.value in blk
    ensures r.None? ==> forall x :: x in blk ==> x.id != id
  {
    if blk == [] then None
    else if blk[0].id == id then Some(blk[0])
    else FindIn(blk[1..], id)
  }

  function Substitute(v: Value, id: nat, w: Value): Value {
    if v == InstrRef(id) then w else v
  }

  function SubstituteAll(vs: seq<Value>, id: nat, w: Value): (r: seq<Value>)
    ensures |r| == |vs|
    ensures InstrRef(id) !in vs ==> r == vs
    ensures w != InstrRef(id) ==> InstrRef(id) !in r
    ensures forall v :: v in r ==> v in vs || v == w
    ensures forall k :: 0 <= k < |vs| ==> r[k] == Substitute(vs[k], id, w)
  {
    if vs == [] then [] else [Substitute(vs[0], id, w)] + SubstituteAll(vs[1..], id, w)
  }

  /** `x` with every use of instruction `id` replaced by `w`. */
  function ReplaceIn(x: Instr, id: nat, w: Value): (y: Instr)
    ensures y.id == x.id
    ensures y.op.Load? <==> x.op.Load?
    ensures Operands(y) == SubstituteAll(Operands(x), id, w)
    ensures !Uses(x, id) ==> y == x
    ensures w != InstrRef(id) ==> !Uses(y, id)
    ensures forall other :: Uses(y, other) ==> Uses(x, other) || w == InstrRef(other)
  {
    match x.op
    case Load(a) => Instr(x.id, Load(Substitute(a, id, w)))
    case Other(vs) => Instr(x.id, Other(SubstituteAll(vs, id, w)))
  }

  function ReplaceInBlock(blk: Block, id: nat, w: Value): (r: Block)
    ensures |r| == |blk| && forall k :: 0 <= k < |blk| ==> r[k] == ReplaceIn(blk[k], id, w)
    ensures IdsOf(r) == IdsOf(blk)
  {
    seq(|blk|, k requires 0 <= k < |blk| => ReplaceIn(blk[k], id, w))
  }

  /** The effect of `replaceAllUsesWith` on instruction `id`: every operand
      that refers to it, in any block, now refers to `w`. */
  function ReplaceUses(body: seq<Block>, id: nat, w: Value): (r: seq<Block>)
    ensures |r| == |body|
    ensures forall b :: 0 <= b < |body| ==> IdsOf(r[b]) == IdsOf(body[b])
    ensures w != InstrRef(id) ==> forall b, x :: 0 <= b < |body| && x in r[b] ==> !Uses(x, id)
  {
    seq(|body|, b requires 0 <= b < |body| => ReplaceInBlock(body[b], id, w))
  }

  /** The block without the instruction numbered `id`; the others keep their order. */
  function RemoveFromBlock(blk: Block, id: nat): (r: Block)
    ensures IdsOf(r) == Without(IdsOf(blk), {id})
    ensures forall x :: x in r <==> x in blk && x.id != id
  {
    if blk == [] then []
    else if blk[0].id == id then
      assert IdsOf(blk)[1..] == IdsOf(blk[1..]);
      RemoveFromBlock(blk[1..], id)
    else
      var rest := RemoveFromBlock(blk[1..], id);
      assert IdsOf(blk)[1..] == IdsOf(blk[1..]);
      assert IdsOf([blk[0]] + rest) == [blk[0].id] + IdsOf(rest);
      [blk[0]] + rest
  }

  /** The effect of `removeFromParent` on instruction `id`. */
  function RemoveInstr(body: seq<Block>, id: nat): (r: seq<Block>)
    ensures |r| == |body|
    ensures forall b, x :: 0 <= b < |body| ==> (x in r[b] <==> x in body[b] && x.id != id)
  {
    seq(|body|, b requires 0 <= b < |body| => RemoveFromBlock(body[b], id))
  }

  /** An LLVM function whose instruction lists the pass edits in place. */
  class Function {
    var blocks: seq<Block>

    constructor (blocks: seq<Block>)
      ensures this.blocks == blocks
    {
      this.blocks := blocks;
    }

    /** `Instruction::replaceAllUsesWith`. */
    method ReplaceAllUsesWith(id: nat, w: Value)
      modifies this
      ensures blocks == ReplaceUses(old(blocks), id, w)
    {
      blocks := ReplaceUses(blocks, id, w);
    }

    /** `Instruction::removeFromParent`. */
    method RemoveFromParent(id: nat)
      modifies this
      ensures blocks == RemoveInstr(old(blocks), id)
    {
      blocks := RemoveInstr(blocks, id);
    }
  }
}
