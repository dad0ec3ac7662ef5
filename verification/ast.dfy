/** The part of 8cc's typed syntax tree that the MiniVM generators read.
    Each constructor keeps only the fields the generators consult. */
module Ast {

  import opened Wrappers

  datatype Kind =
    | KVoid | KBool | KChar | KShort | KInt | KLong | KLLong | KEnum
    | KPtr | KArray | KStruct | KFloat | KDouble | KLDouble | KFunc

  /** A type: its kind, its size in VM words, the size of what it points
      to (pointers and arrays) and whether a function type is variadic. */
  datatype Ty = Ty(kind: Kind, size: nat, ptrSize: nat, hasva: bool)

  /** The kinds the generator treats as integers when lowering `/`. */
  predicate IsIntKind(k: Kind) {
    k in {KPtr, KArray, KBool, KChar, KShort, KInt, KLong, KLLong, KEnum}
  }

  datatype BinOp =
    | Comma | Plus | Minus | Times | Divide | Modulo
    | BitOr | BitAnd | BitXor | Sal | Sar | Shl | Shr
    | Eq | Ne | Lt | Gt | Le | Ge
    | LogAnd | LogOr | IpAdd

  predicate IsRelational(op: BinOp) {
    op.Eq? || op.Ne? || op.Lt? || op.Gt? || op.Le? || op.Ge?
  }

  /** A function parameter: its name and size in words. */
  datatype Param = Param(name: string, size: nat)

  datatype Node =
    | Literal(ty: Ty, ival: int, sval: seq<int>)
    | LVar(ty: Ty, varname: string, hasInit: bool, lvarinit: seq<Node>)
    | GVar(ty: Ty, varname: string)
    | Binary(ty: Ty, op: BinOp, left: Node, right: Node)
    | Assign(ty: Ty, left: Node, right: Node)
    | Deref(ty: Ty, operand: Node)
    | AddrOf(ty: Ty, operand: Node)
    | StructRef(ty: Ty, struc: Node, fieldOffset: int)
    | Conv(ty: Ty, operand: Node)
    | Cast(ty: Ty, operand: Node)
    | If(ty: Ty, cond: Node, thenArm: Option<Node>, elseArm: Option<Node>)
    | Ternary(ty: Ty, cond: Node, thenArm: Option<Node>, elseArm: Option<Node>)
    | Decl(ty: Ty, declname: string, declty: Ty, hasInit: bool, declinit: seq<Node>)
      /** One element of an initializer list: a word offset and its value.
          `hasInit` tells an absent list from an empty one. */
    | Init(ty: Ty, initoff: int, initval: Node)
    | Return(ty: Ty, retval: Option<Node>)
    | Compound(ty: Ty, stmts: seq<Node>)
    | Not(ty: Ty, operand: Node)
    | BitNot(ty: Ty, operand: Node)
    | FunCall(ty: Ty, fname: string, args: seq<Node>, retVoid: bool, retSize: nat)
    | FuncPtrCall(ty: Ty, fptr: Node, args: seq<Node>, retVoid: bool, retSize: nat)
    | Goto(ty: Ty, newlabel: string)
    | LabelStmt(ty: Ty, optlabel: Option<string>)
    | ComputedGoto(ty: Ty, operand: Node)
    | LabelAddr(ty: Ty, newlabel: string)
    | FuncDesg(ty: Ty, fname: string)
    | FuncDef(ty: Ty, fname: string, params: seq<Param>, body: Node)

  /** Total size in words of a parameter list. */
  function ParamWords(ps: seq<Param>): nat {
    if |ps| == 0 then 0 else ps[0].size + ParamWords(ps[1..])
  }
}
