// Instruction numbers, in the order of the interpreter's opcode list, and how many
// words the disassembler steps over.
module Opcodes {
  const OP_CONSTANT: nat := 0
  const OP_ADD: nat := 1
  const OP_SUBTRACT: nat := 2
  const OP_MULTIPLY: nat := 3
  const OP_DIVIDE: nat := 4
  const OP_MODULO: nat := 5
  const OP_BITOR: nat := 6
  const OP_BITAND: nat := 7
  const OP_BITXOR: nat := 8
  const OP_SHOVEL_L: nat := 9
  const OP_SHOVEL_R: nat := 10
  const OP_NEGATE: nat := 11
  const OP_NOT: nat := 12
  const OP_GET_LOCAL: nat := 13
  const OP_SET_LOCAL: nat := 14
  const OP_UNPACK_SET_LOCAL: nat := 15
  const OP_GET_GLOBAL: nat := 16
  const OP_SET_GLOBAL: nat := 17
  const OP_DEFINE_GLOBAL: nat := 18
  const OP_UNPACK_DEFINE_GLOBAL: nat := 19
  const OP_GET_CONST: nat := 20
  const OP_SET_CONST: nat := 21
  const OP_GET_CONST_UNDER: nat := 22
  const OP_CLOSURE: nat := 23
  const OP_GET_UPVALUE: nat := 24
  const OP_SET_UPVALUE: nat := 25
  const OP_CLOSE_UPVALUE: nat := 26
  const OP_PROP_GET: nat := 27
  const OP_PROP_SET: nat := 28
  const OP_METHOD: nat := 29
  const OP_CLASS_METHOD: nat := 30
  const OP_GETTER: nat := 31
  const OP_SETTER: nat := 32
  const OP_CALL: nat := 33
  const OP_INVOKE: nat := 34
  const OP_SPLAT_ARRAY: nat := 35
  const OP_GET_THIS: nat := 36
  const OP_GET_SUPER: nat := 37
  const OP_RETURN: nat := 38
  const OP_PRINT: nat := 39
  const OP_STRING: nat := 40
  const OP_ARRAY: nat := 41
  const OP_DUPARRAY: nat := 42
  const OP_DUPMAP: nat := 43
  const OP_MAP: nat := 44
  const OP_REGEX: nat := 45
  const OP_ITER: nat := 46
  const OP_ITER_NEXT: nat := 47
  const OP_BLOCK_BREAK: nat := 48
  const OP_BLOCK_CONTINUE: nat := 49
  const OP_BLOCK_RETURN: nat := 50
  const OP_TO_BLOCK: nat := 51
  const OP_TRUE: nat := 52
  const OP_FALSE: nat := 53
  const OP_NIL: nat := 54
  const OP_AND: nat := 55
  const OP_OR: nat := 56
  const OP_POP: nat := 57
  const OP_POP_CREF: nat := 58
  const OP_POP_N: nat := 59
  const OP_POP_DEBUG: nat := 60
  const OP_EQUAL: nat := 61
  const OP_NOT_EQUAL: nat := 62
  const OP_GREATER: nat := 63
  const OP_LESS: nat := 64
  const OP_GREATER_EQUAL: nat := 65
  const OP_LESS_EQUAL: nat := 66
  const OP_JUMP: nat := 67
  const OP_JUMP_IF_FALSE: nat := 68
  const OP_JUMP_IF_TRUE: nat := 69
  const OP_JUMP_IF_FALSE_PEEK: nat := 70
  const OP_JUMP_IF_TRUE_PEEK: nat := 71
  const OP_LOOP: nat := 72
  const OP_BREAK: nat := 73
  const OP_CLASS: nat := 74
  const OP_SUBCLASS: nat := 75
  const OP_MODULE: nat := 76
  const OP_IN: nat := 77
  const OP_THROW: nat := 78
  const OP_GET_THROWN: nat := 79
  const OP_RETHROW_IF_ERR: nat := 80
  const OP_INDEX_GET: nat := 81
  const OP_INDEX_SET: nat := 82
  const OP_CHECK_KEYWORD: nat := 83
  const OP_LEAVE: nat := 84

  // The operands the compiler writes behind an opcode, as each place that emits one gives
  // them; the optimizer writes one behind OP_POP_N.  The words of captured variables behind
  // a closure are emitted apart.
  function Written(op: nat): (n: nat)
    ensures n <= 3
  {
    if op in {OP_CONSTANT, OP_REGEX} then 1
    else if op == OP_STRING then 2
    else if op in {OP_DUPARRAY, OP_DUPMAP, OP_ARRAY, OP_MAP} then 1
    else if op in {OP_JUMP, OP_JUMP_IF_FALSE, OP_JUMP_IF_TRUE, OP_JUMP_IF_FALSE_PEEK, OP_JUMP_IF_TRUE_PEEK, OP_LOOP}
    then 1
    else if op == OP_BREAK then 2
    else if op in {OP_GET_LOCAL, OP_SET_LOCAL, OP_GET_UPVALUE, OP_SET_UPVALUE} then 2
    else if op in {OP_GET_GLOBAL, OP_SET_GLOBAL, OP_DEFINE_GLOBAL} then 1
    else if op == OP_UNPACK_DEFINE_GLOBAL then 2
    else if op == OP_UNPACK_SET_LOCAL then 3
    else if op in {OP_GET_CONST, OP_GET_CONST_UNDER, OP_SET_CONST} then 1
    else if op in {OP_CLASS, OP_SUBCLASS, OP_MODULE} then 1
    else if op in {OP_METHOD, OP_CLASS_METHOD, OP_GETTER, OP_SETTER, OP_CLOSURE} then 1
    else if op in {OP_PROP_GET, OP_PROP_SET, OP_GET_SUPER} then 1
    else if op in {OP_CALL, OP_CHECK_KEYWORD} then 2
    else if op == OP_INVOKE then 3
    else if op in {OP_GET_THROWN, OP_RETHROW_IF_ERR} then 1
    else if op in {OP_POP_N, OP_POP_DEBUG} then 1
    else 0
  }

  // The words the machine reads behind an opcode, as each of its cases does.
  function WordsRead(op: nat): (n: nat)
    ensures n <= 3
  {
    if op in {OP_JUMP_IF_FALSE, OP_JUMP_IF_TRUE, OP_JUMP_IF_FALSE_PEEK, OP_JUMP_IF_TRUE_PEEK, OP_JUMP, OP_LOOP,
      OP_ARRAY, OP_MAP, OP_POP_N}
    then 1 // a number
    else if op in {
      OP_CONSTANT, OP_DEFINE_GLOBAL, OP_GET_GLOBAL, OP_SET_GLOBAL, OP_POP_DEBUG, OP_GET_CONST, OP_GET_CONST_UNDER,
      OP_SET_CONST, OP_CLOSURE, OP_GET_SUPER, OP_CLASS, OP_MODULE, OP_SUBCLASS, OP_METHOD, OP_CLASS_METHOD,
      OP_GETTER, OP_SETTER, OP_PROP_GET, OP_PROP_SET, OP_GET_THROWN, OP_RETHROW_IF_ERR, OP_DUPARRAY, OP_DUPMAP,
      OP_REGEX}
    then 1 // the index of a constant
    else if op in {
      OP_UNPACK_DEFINE_GLOBAL, OP_SET_LOCAL, OP_GET_LOCAL, OP_GET_UPVALUE, OP_SET_UPVALUE, OP_BREAK, OP_CALL,
      OP_CHECK_KEYWORD, OP_STRING}
    then 2
    else if op in {OP_UNPACK_SET_LOCAL, OP_INVOKE} then 3
    else 0
  }

  // The words printDisassembledInstruction steps over.  A closure instruction is also
  // followed by two words for each captured variable, which are not counted here.
  function PrintStep(op: nat): (n: nat)
    ensures 1 <= n <= 4
  {
    if op in {OP_UNPACK_SET_LOCAL, OP_INVOKE} then 4
    else if op in {
      OP_STRING, OP_GET_LOCAL, OP_SET_LOCAL, OP_SET_UPVALUE, OP_GET_UPVALUE, OP_UNPACK_DEFINE_GLOBAL,
      OP_BREAK, OP_CALL, OP_CHECK_KEYWORD
    } then 3
    else if op in {
      OP_CONSTANT, OP_DEFINE_GLOBAL, OP_GET_GLOBAL, OP_SET_GLOBAL, OP_GET_CONST, OP_SET_CONST,
      OP_GET_CONST_UNDER, OP_CLASS, OP_MODULE, OP_SUBCLASS, OP_METHOD, OP_CLASS_METHOD, OP_GETTER, OP_SETTER,
      OP_PROP_GET, OP_PROP_SET, OP_GET_THROWN, OP_RETHROW_IF_ERR, OP_GET_SUPER, OP_REGEX, OP_ARRAY,
      OP_DUPARRAY, OP_MAP, OP_DUPMAP, OP_JUMP, OP_JUMP_IF_FALSE, OP_JUMP_IF_TRUE, OP_JUMP_IF_FALSE_PEEK,
      OP_JUMP_IF_TRUE_PEEK, OP_LOOP, OP_POP_N, OP_POP_DEBUG
    } then 2
    else if op == OP_CLOSURE then 2
    else 1
  }

  // The compiler, the machine and the disassembler agree on the size of every instruction.
  lemma CountsAgree(op: nat)
    ensures WordsRead(op) == Written(op) && PrintStep(op) == 1 + Written(op)
  {
  }
}
