/**
 * The opcode table. The opcodes are declared once, as an ordered list of
 * (identifier, operand width, stack effect); that one list yields the named
 * opcodes, numbered consecutively from 0 in declaration order, and the two
 * lookup tables indexed by an opcode's number.
 */
module Opcodes {
  import opened Prelude

  /** `struct OpCode(u8)`. */
  datatype OpCode = OpCode(code: byte)

  /** The identifiers of the declaration list without their `_LONG` suffix. */
  datatype Stem =
    | Constant | Nil | True | False | Pop | GetLocal
    | SetLocal | GetGlobal | SetGlobal | DefineGlobal | GetUpvalue | SetUpvalue
    | Equal | NotEqual | Greater | GreaterEqual | Less | LessEqual
    | Add | Substract | Multiply | Divide | Not | Negate
    | Jump | JumpIfFalse | Loop | Call | Closure | EndScope
    | Return

  /** A declared identifier: `stem`, followed by `_LONG` when `long` holds
      (the 3-byte-operand twin of `stem`). */
  datatype Mnemonic = Mnemonic(stem: Stem, long: bool)

  /** The identifiers of the declaration list, in declaration order. */
  const OPCODE_NAMES: seq<Mnemonic> := [
    Mnemonic(Constant, false),
    Mnemonic(Constant, true),
    Mnemonic(Nil, false),
    Mnemonic(True, false),
    Mnemonic(False, false),
    Mnemonic(Pop, false),
    Mnemonic(GetLocal, false),
    Mnemonic(GetLocal, true),
    Mnemonic(SetLocal, false),
    Mnemonic(SetLocal, true),
    Mnemonic(GetGlobal, false),
    Mnemonic(GetGlobal, true),
    Mnemonic(SetGlobal, false),
    Mnemonic(SetGlobal, true),
    Mnemonic(DefineGlobal, false),
    Mnemonic(DefineGlobal, true),
    Mnemonic(GetUpvalue, false),
    Mnemonic(GetUpvalue, true),
    Mnemonic(SetUpvalue, false),
    Mnemonic(SetUpvalue, true),
    Mnemonic(Equal, false),
    Mnemonic(NotEqual, false),
    Mnemonic(Greater, false),
    Mnemonic(GreaterEqual, false),
    Mnemonic(Less, false),
    Mnemonic(LessEqual, false),
    Mnemonic(Add, false),
    Mnemonic(Substract, false),
    Mnemonic(Multiply, false),
    Mnemonic(Divide, false),
    Mnemonic(Not, false),
    Mnemonic(Negate, false),
    Mnemonic(Jump, false),
    Mnemonic(JumpIfFalse, false),
    Mnemonic(Loop, false),
    Mnemonic(Call, false),
    Mnemonic(Closure, false),
    Mnemonic(Closure, true),
    Mnemonic(EndScope, false),
    Mnemonic(EndScope, true),
    Mnemonic(Return, false)
  ]

  /** `OPCODE_NUM_OPERANDS`: the operand widths, in declaration order. */
  const OPCODE_NUM_OPERANDS: seq<nat> := [
    1, 3, 0, 0, 0, 0, 1, 3, 1, 3, 1, 3, 1, 3,
    1, 3, 1, 3, 1, 3, 0, 0, 0, 0, 0, 0, 0, 0,
    0, 0, 0, 0, 2, 2, 2, 1, 1, 3, 1, 3, 0
  ]

  /** `OPCODE_STACK_EFFECT`: the stack effects, in declaration order. */
  const OPCODE_STACK_EFFECT: seq<int> := [
    1, 1, 1, 1, 1, -1, 1, 1, 0, 0, 1, 1, 0, 0,
    -1, -1, 1, 1, 0, 0, -1, -1, -1, -1, -1, -1, -1, -1,
    -1, -1, 0, 0, 0, 0, 0, 0, 1, 1, 0, 0, 0
  ]

  // The named opcodes, numbered from 0 in declaration order.
  const CONSTANT: OpCode := OpCode(0)
  const CONSTANT_LONG: OpCode := OpCode(1)
  const NIL: OpCode := OpCode(2)
  const TRUE: OpCode := OpCode(3)
  const FALSE: OpCode := OpCode(4)
  const POP: OpCode := OpCode(5)
  const GET_LOCAL: OpCode := OpCode(6)
  const GET_LOCAL_LONG: OpCode := OpCode(7)
  const SET_LOCAL: OpCode := OpCode(8)
  const SET_LOCAL_LONG: OpCode := OpCode(9)
  const GET_GLOBAL: OpCode := OpCode(10)
  const GET_GLOBAL_LONG: OpCode := OpCode(11)
  const SET_GLOBAL: OpCode := OpCode(12)
  const SET_GLOBAL_LONG: OpCode := OpCode(13)
  const DEFINE_GLOBAL: OpCode := OpCode(14)
  const DEFINE_GLOBAL_LONG: OpCode := OpCode(15)
  const GET_UPVALUE: OpCode := OpCode(16)
  const GET_UPVALUE_LONG: OpCode := OpCode(17)
  const SET_UPVALUE: OpCode := OpCode(18)
  const SET_UPVALUE_LONG: OpCode := OpCode(19)
  const EQUAL: OpCode := OpCode(20)
  const NOT_EQUAL: OpCode := OpCode(21)
  const GREATER: OpCode := OpCode(22)
  const GREATER_EQUAL: OpCode := OpCode(23)
  const LESS: OpCode := OpCode(24)
  const LESS_EQUAL: OpCode := OpCode(25)
  const ADD: OpCode := OpCode(26)
  const SUBSTRACT: OpCode := OpCode(27)
  const MULTIPLY: OpCode := OpCode(28)
  const DIVIDE: OpCode := OpCode(29)
  const NOT: OpCode := OpCode(30)
  const NEGATE: OpCode := OpCode(31)
  const JUMP: OpCode := OpCode(32)
  const JUMP_IF_FALSE: OpCode := OpCode(33)
  const LOOP: OpCode := OpCode(34)
  const CALL: OpCode := OpCode(35)
  const CLOSURE: OpCode := OpCode(36)
  const CLOSURE_LONG: OpCode := OpCode(37)
  const END_SCOPE: OpCode := OpCode(38)
  const END_SCOPE_LONG: OpCode := OpCode(39)
  const RETURN: OpCode := OpCode(40)

  /** `get_num_operands`: a lookup in the width table; a number past the end
      of the table is an out-of-bounds index (a panic), modelled as `None`. */
  function GetNumOperands(opc: OpCode): (r: Option<nat>)
    ensures r.Some? <==> opc.code < |OPCODE_NAMES|
    ensures r.Some? ==> r.value in {0, 1, 2, 3}
  {
    if opc.code < |OPCODE_NUM_OPERANDS| then Some(OPCODE_NUM_OPERANDS[opc.code]) else None
  }

  /** `get_stack_effect`: a lookup in the stack-effect table, `None` past its end. */
  function GetStackEffect(opc: OpCode): (r: Option<int>)
    ensures r.Some? <==> opc.code < |OPCODE_NAMES|
    ensures r.Some? ==> -1 <= r.value <= 1
  {
    if opc.code < |OPCODE_STACK_EFFECT| then Some(OPCODE_STACK_EFFECT[opc.code]) else None
  }

  /** `From<OpCode> for u8`: the opcode's number, unchanged. */
  function ToByte(opc: OpCode): (b: byte)
    ensures OpCode(b) == opc
  {
    opc.code
  }

  /** The opcode numbered `opc.code` is the one declared as `stem` (with
      `_LONG` appended when `long`). */
  predicate Declares(opc: OpCode, stem: Stem, long: bool) {
    opc.code < |OPCODE_NAMES| && OPCODE_NAMES[opc.code] == Mnemonic(stem, long)
  }

  /** Quarters of the numbering lemma below, to keep each proof small. */
  lemma DeclarationOrderPart0()
    ensures |OPCODE_NAMES| == 41
    ensures
      Declares(CONSTANT, Constant, false) &&
      Declares(CONSTANT_LONG, Constant, true) &&
      Declares(NIL, Nil, false) &&
      Declares(TRUE, True, false) &&
      Declares(FALSE, False, false) &&
      Declares(POP, Pop, false) &&
      Declares(GET_LOCAL, GetLocal, false) &&
      Declares(GET_LOCAL_LONG, GetLocal, true) &&
      Declares(SET_LOCAL, SetLocal, false) &&
      Declares(SET_LOCAL_LONG, SetLocal, true)
  {
  }

  lemma DeclarationOrderPart1()
    ensures |OPCODE_NAMES| == 41
    ensures
      Declares(GET_GLOBAL, GetGlobal, false) &&
      Declares(GET_GLOBAL_LONG, GetGlobal, true) &&
      Declares(SET_GLOBAL, SetGlobal, false) &&
      Declares(SET_GLOBAL_LONG, SetGlobal, true) &&
      Declares(DEFINE_GLOBAL, DefineGlobal, false) &&
      Declares(DEFINE_GLOBAL_LONG, DefineGlobal, true) &&
      Declares(GET_UPVALUE, GetUpvalue, false) &&
      Declares(GET_UPVALUE_LONG, GetUpvalue, true) &&
      Declares(SET_UPVALUE, SetUpvalue, false) &&
      Declares(SET_UPVALUE_LONG, SetUpvalue, true)
  {
  }

  lemma DeclarationOrderPart2()
    ensures |OPCODE_NAMES| == 41
    ensures
      Declares(EQUAL, Equal, false) &&
      Declares(NOT_EQUAL, NotEqual, false) &&
      Declares(GREATER, Greater, false) &&
      Declares(GREATER_EQUAL, GreaterEqual, false) &&
      Declares(LESS, Less, false) &&
      Declares(LESS_EQUAL, LessEqual, false) &&
      Declares(ADD, Add, false) &&
      Declares(SUBSTRACT, Substract, false) &&
      Declares(MULTIPLY, Multiply, false) &&
      Declares(DIVIDE, Divide, false)
  {
  }

  lemma DeclarationOrderPart3()
    ensures |OPCODE_NAMES| == 41
    ensures
      Declares(NOT, Not, false) &&
      Declares(NEGATE, Negate, false) &&
      Declares(JUMP, Jump, false) &&
      Declares(JUMP_IF_FALSE, JumpIfFalse, false) &&
      Declares(LOOP, Loop, false) &&
      Declares(CALL, Call, false) &&
      Declares(CLOSURE, Closure, false) &&
      Declares(CLOSURE_LONG, Closure, true) &&
      Declares(END_SCOPE, EndScope, false) &&
      Declares(END_SCOPE_LONG, EndScope, true) &&
      Declares(RETURN, Return, false)
  {
  }

  /** The numbering: 41 opcodes, CONSTANT = 0 through RETURN = 40, each named
      constant being the position of its own identifier in the declaration
      list; both tables have exactly one entry per declared opcode. */
  lemma NumberingFollowsDeclarationOrder()
    ensures |OPCODE_NAMES| == |OPCODE_NUM_OPERANDS| == |OPCODE_STACK_EFFECT| == 41
    ensures CONSTANT == OpCode(0) && RETURN == OpCode(40)
    ensures
      Declares(CONSTANT, Constant, false) &&
      Declares(CONSTANT_LONG, Constant, true) &&
      Declares(NIL, Nil, false) &&
      Declares(TRUE, True, false) &&
      Declares(FALSE, False, false) &&
      Declares(POP, Pop, false) &&
      Declares(GET_LOCAL, GetLocal, false) &&
      Declares(GET_LOCAL_LONG, GetLocal, true) &&
      Declares(SET_LOCAL, SetLocal, false) &&
      Declares(SET_LOCAL_LONG, SetLocal, true) &&
      Declares(GET_GLOBAL, GetGlobal, false) &&
      Declares(GET_GLOBAL_LONG, GetGlobal, true) &&
      Declares(SET_GLOBAL, SetGlobal, false) &&
      Declares(SET_GLOBAL_LONG, SetGlobal, true) &&
      Declares(DEFINE_GLOBAL, DefineGlobal, false) &&
      Declares(DEFINE_GLOBAL_LONG, DefineGlobal, true) &&
      Declares(GET_UPVALUE, GetUpvalue, false) &&
      Declares(GET_UPVALUE_LONG, GetUpvalue, true) &&
      Declares(SET_UPVALUE, SetUpvalue, false) &&
      Declares(SET_UPVALUE_LONG, SetUpvalue, true) &&
      Declares(EQUAL, Equal, false) &&
      Declares(NOT_EQUAL, NotEqual, false) &&
      Declares(GREATER, Greater, false) &&
      Declares(GREATER_EQUAL, GreaterEqual, false) &&
      Declares(LESS, Less, false) &&
      Declares(LESS_EQUAL, LessEqual, false) &&
      Declares(ADD, Add, false) &&
      Declares(SUBSTRACT, Substract, false) &&
      Declares(MULTIPLY, Multiply, false) &&
      Declares(DIVIDE, Divide, false) &&
      Declares(NOT, Not, false) &&
      Declares(NEGATE, Negate, false) &&
      Declares(JUMP, Jump, false) &&
      Declares(JUMP_IF_FALSE, JumpIfFalse, false) &&
      Declares(LOOP, Loop, false) &&
      Declares(CALL, Call, false) &&
      Declares(CLOSURE, Closure, false) &&
      Declares(CLOSURE_LONG, Closure, true) &&
      Declares(END_SCOPE, EndScope, false) &&
      Declares(END_SCOPE_LONG, EndScope, true) &&
      Declares(RETURN, Return, false)
  {
    DeclarationOrderPart0(); DeclarationOrderPart1();
    DeclarationOrderPart2(); DeclarationOrderPart3();
  }

  /** The entry right after entry `i` is its `_LONG` twin. */
  predicate HasLongForm(i: nat) {
    i + 1 < |OPCODE_NAMES| && OPCODE_NAMES[i + 1].long
  }

  /** At entry `i`: an `X_LONG` entry directly follows the entry `X`; `X`
      takes a 1-byte operand and `X_LONG` a 3-byte one, and both have the
      same stack effect. */
  predicate LongFormRuleAt(i: nat)
    requires i < |OPCODE_NAMES| == |OPCODE_NUM_OPERANDS| == |OPCODE_STACK_EFFECT|
  {
    OPCODE_NAMES[i].long ==>
      0 < i && OPCODE_NAMES[i - 1] == Mnemonic(OPCODE_NAMES[i].stem, false) &&
      OPCODE_NUM_OPERANDS[i - 1] == 1 && OPCODE_NUM_OPERANDS[i] == 3 &&
      OPCODE_STACK_EFFECT[i - 1] == OPCODE_STACK_EFFECT[i]
  }

  /** At entry `i`: the width is 3 for a `_LONG` form, 2 for the jumps, 1 for
      a short indexed form (one with a `_LONG` twin) and for CALL, 0 otherwise. */
  predicate WidthRuleAt(i: nat)
    requires i < |OPCODE_NAMES| == |OPCODE_NUM_OPERANDS|
  {
    OPCODE_NUM_OPERANDS[i] ==
      if OPCODE_NAMES[i].long then 3
      else if OPCODE_NAMES[i].stem in {Jump, JumpIfFalse, Loop} then 2
      else if HasLongForm(i) || OPCODE_NAMES[i].stem == Call then 1
      else 0
  }

  /** Parts of the long-form lemma below, one range of entries each. */
  lemma LongFormRulePart0()
    ensures |OPCODE_NAMES| == |OPCODE_NUM_OPERANDS| == |OPCODE_STACK_EFFECT| == 41
    ensures forall i :: 0 <= i < 14 ==> LongFormRuleAt(i)
  {
  }

  lemma LongFormRulePart1()
    ensures |OPCODE_NAMES| == |OPCODE_NUM_OPERANDS| == |OPCODE_STACK_EFFECT| == 41
    ensures forall i :: 14 <= i < 28 ==> LongFormRuleAt(i)
  {
  }

  lemma LongFormRulePart2()
    ensures |OPCODE_NAMES| == |OPCODE_NUM_OPERANDS| == |OPCODE_STACK_EFFECT| == 41
    ensures forall i :: 28 <= i < 41 ==> LongFormRuleAt(i)
  {
  }

  /** Every `X_LONG` opcode directly follows `X`, with widths 1 and 3 and
      the same stack effect. */
  lemma LongFormFollowsShortForm()
    ensures |OPCODE_NAMES| == |OPCODE_NUM_OPERANDS| == |OPCODE_STACK_EFFECT|
    ensures forall i :: 0 <= i < |OPCODE_NAMES| ==> LongFormRuleAt(i)
  {
    LongFormRulePart0(); LongFormRulePart1(); LongFormRulePart2();
  }

  /** Parts of the width lemma below, one range of entries each. */
  lemma OperandWidthsPart0()
    ensures |OPCODE_NAMES| == |OPCODE_NUM_OPERANDS| == 41
    ensures forall i :: 0 <= i < 14 ==> WidthRuleAt(i)
  {
  }

  lemma OperandWidthsPart1()
    ensures |OPCODE_NAMES| == |OPCODE_NUM_OPERANDS| == 41
    ensures forall i :: 14 <= i < 28 ==> WidthRuleAt(i)
  {
  }

  lemma OperandWidthsPart2()
    ensures |OPCODE_NAMES| == |OPCODE_NUM_OPERANDS| == 41
    ensures forall i :: 28 <= i < 41 ==> WidthRuleAt(i)
  {
  }

  /** The operand width of every declared opcode follows its kind. */
  lemma OperandWidths()
    ensures |OPCODE_NAMES| == |OPCODE_NUM_OPERANDS| == |OPCODE_STACK_EFFECT|
    ensures forall i :: 0 <= i < |OPCODE_NAMES| ==> WidthRuleAt(i)
  {
    OperandWidthsPart0(); OperandWidthsPart1(); OperandWidthsPart2();
  }

  /** Widths and effects of the opcodes the table's own checks name. */
  lemma TableChecks()
    ensures GetNumOperands(CONSTANT) == Some(1) && GetStackEffect(CONSTANT) == Some(1)
    ensures GetNumOperands(CONSTANT_LONG) == Some(3) && GetStackEffect(CONSTANT_LONG) == Some(1)
    ensures GetNumOperands(POP) == Some(0) && GetStackEffect(POP) == Some(-1)
    ensures ToByte(CONSTANT) == 0 && ToByte(RETURN) == 40
  {
  }
}
