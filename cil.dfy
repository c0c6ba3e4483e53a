/** The CIL instructions the weaver looks at and writes, with the stack transition of each
    opcode as section 1.3 of Partition III of ECMA-335 gives it and as Mono.Cecil counts it
    when it computes a method's stack size. */
module Cil {
  import opened Wrappers

  type InstrId = nat
  type MethodId = nat
  type TypeId = nat
  type FieldId = nat

  datatype OpCode =
    | Nop | Ldarg0 | Ldarg1 | Ldnull | Ldloc | Stloc | Dup | Pop
    | Ldfld | Stfld | Ldftn | Newobj | Call | Callvirt | Ret
    | Other(pop: nat, push: nat)   // any other opcode, with the fixed number of values it pops and pushes

  /** A reference to a type: its full name, and the definition it resolves to if any. */
  datatype TypeRef = TypeRef(fullName: string, id: TypeId)

  /** A reference to a method: its name, the definition it resolves to (None when it does
      not resolve), and the signature facts that fix its stack transition. */
  datatype MethodRef = MethodRef(
    name: string,
    resolved: Option<MethodId>,
    declaringType: TypeRef,
    hasThis: bool,
    paramCount: nat,
    returnsVoid: bool)

  /** The members of the weak adapter that woven code calls. */
  datatype AdapterMember = Subscribe | Unsubscribe | Release

  datatype Operand =
    | NoOperand
    | MethodOp(ref: MethodRef)
    | FieldOp(field: FieldId)
    | AdapterOp(member: AdapterMember)
    | Token(value: nat)   // any other operand (a local index, a string, ...)

  /** An instruction; `id` is the identity of the instruction object. */
  datatype Instr = Instr(id: InstrId, op: OpCode, operand: Operand)

  /** Instruction.ComputeStackDelta: pushes minus pops of one instruction. */
  function StackDelta(i: Instr): Option<int>
  {
    match i.op
    case Nop => Some(0)
    case Ldarg0 => Some(1)
    case Ldarg1 => Some(1)
    case Ldnull => Some(1)
    case Ldloc => Some(1)
    case Dup => Some(1)
    case Ldftn => Some(1)
    case Stloc => Some(-1)
    case Pop => Some(-1)
    case Ldfld => Some(0)        // object -> value
    case Stfld => Some(-2)       // object, value ->
    case Newobj =>               // arguments -> new object
      if i.operand.MethodOp? then Some(1 - i.operand.ref.paramCount) else None
    case Call => CallDelta(i.operand)
    case Callvirt => CallDelta(i.operand)
    case Ret => Some(0)          // varpop: Cecil counts no pop outside a call
    case Other(pop, push) => Some(push - pop)
  }

  /** The table of StackDelta, stated by opcode group for reference; it documents the
      table and proves no further property. Only a call-like instruction whose operand is
      not a method has no delta (the cast to a method signature throws). */
  lemma StackDeltaTable(i: Instr)
    ensures i.op in {Ldarg0, Ldarg1, Ldnull, Ldloc, Dup, Ldftn} ==> StackDelta(i) == Some(1)
    ensures i.op in {Nop, Ldfld, Ret} ==> StackDelta(i) == Some(0)
    ensures i.op in {Stloc, Pop} ==> StackDelta(i) == Some(-1)
    ensures i.op == Stfld ==> StackDelta(i) == Some(-2)
    ensures i.op.Other? ==> StackDelta(i) == Some(i.op.push - i.op.pop)
    ensures i.op == Newobj && i.operand.MethodOp? ==> StackDelta(i) == Some(1 - i.operand.ref.paramCount)
    ensures StackDelta(i).None? <==>
      || (i.op == Newobj && !i.operand.MethodOp?)
      || ((i.op == Call || i.op == Callvirt) && !i.operand.MethodOp? && !i.operand.AdapterOp?)
  {
  }

  /** call / callvirt: pops the arguments (and `this`), pushes the result unless void. */
  function CallDelta(operand: Operand): Option<int>
  {
    match operand
    case MethodOp(m) =>
      Some((if m.returnsVoid then 0 else 1) - m.paramCount - (if m.hasThis then 1 else 0))
    case AdapterOp(member) =>
      Some(if member == Release then -1 else -2)
    case _ => None
  }

  /** IList<Instruction>.IndexOf: the position of the instruction object, -1 if absent. */
  function IndexOf(body: seq<Instr>, id: InstrId): (i: int)
    ensures -1 <= i < |body|
    ensures i == -1 <==> forall k :: 0 <= k < |body| ==> body[k].id != id
    ensures i >= 0 ==> body[i].id == id && forall k :: 0 <= k < i ==> body[k].id != id
  {
    if body == [] then -1
    else if body[0].id == id then 0
    else
      var j := IndexOf(body[1..], id);
      if j == -1 then -1 else j + 1
  }
}
