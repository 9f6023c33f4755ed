/** Tokens and the expression AST of the Cypher front end (crates/acetone-cypher/src/lex.rs, ast.rs).

    A character stands for one byte of the UTF-8 text, so a string's length is its byte length. */
module Syntax {
  /** The keyword an unquoted identifier spells, whatever its case: `Infix` for OR, XOR, AND, IN and
      CONTAINS. `Reserved` stands for every other reserved word; unreserved and backquoted names are `Plain`. */
  datatype Word =
    | Plain | Infix(op: BinaryOp) | NotW | StartsW | EndsW | WithW
    | IsW | NullW | TrueW | FalseW | CaseW | Reserved

  /** `Symbol` is a punctuation operator: `= <> < <= > >= =~ + - * / % ^`. */
  datatype Token =
    | Ident(name: string, word: Word)
    | Symbol(op: BinaryOp)
    | Integer(n: nat)
    | IntegerTooLarge(magnitude: nat)
    | FloatToken(bits: nat)
    | Str(s: string)
    | Parameter(name: string)
    | LParen | RParen | LBracket | RBracket | LBrace | RBrace
    | Comma | Dot | DotDot | Colon | Semicolon | Pipe
    | Arrow | LArrow | Eof

  const MINUS := Symbol(Sub)
  const PLUS := Symbol(Add)
  const EQUALS := Symbol(EqOp)

  /** Precedence, loosest first. */
  function LevelOf(op: BinaryOp): (l: nat)
    ensures l <= 8 && l != 3
  {
    match op
    case Or => 0
    case Xor => 1
    case And => 2
    case EqOp => 4 case NeOp => 4 case LtOp => 4 case LeOp => 4 case GtOp => 4 case GeOp => 4
    case RegexMatch => 5 case In => 5 case StartsWith => 5 case EndsWith => 5 case Contains => 5
    case Add => 6 case Sub => 6
    case Mul => 7 case Div => 7 case Mod => 7
    case Pow => 8
  }

  datatype Literal = LNull | LBool(b: bool) | LInt(n: int) | LFloat(bits: nat) | LString(s: string)

  datatype UnaryOp = Not | Neg | Pos

  datatype BinaryOp =
    | Or | Xor | And
    | EqOp | NeOp | LtOp | LeOp | GtOp | GeOp
    | RegexMatch | In | StartsWith | EndsWith | Contains
    | Add | Sub | Mul | Div | Mod | Pow

  datatype Expr =
    | Lit(value: Literal)
    | Param(name: string)
    | Var(name: string)
    | Prop(base: Expr, key: string)
    | Unary(uop: UnaryOp, operand: Expr)
    | Binary(op: BinaryOp, lhs: Expr, rhs: Expr)
    | IsNull(operand: Expr, negated: bool)
    | ListLit(items: seq<Expr>)
    | Index(base: Expr, index: Expr)

  const MIN_MAGNITUDE: nat := 0x8000_0000_0000_0000
  const MIN_INT: int := -0x8000_0000_0000_0000

  /** `Expr::children`. */
  function Children(e: Expr): (r: seq<Expr>)
    ensures forall x :: x in r ==> x < e
  {
    match e
    case Prop(b, _) => [b]
    case Unary(_, x) => [x]
    case Binary(_, l, r) => [l, r]
    case IsNull(x, _) => [x]
    case ListLit(items) => items
    case Index(b, i) => [b, i]
    case _ => []
  }

  /** What a node weighs by itself: one, plus the bytes of the text it carries. */
  function OwnSize(e: Expr): nat {
    1 + match e
        case Lit(LString(s)) => |s|
        case Param(name) => |name|
        case Var(name) => |name|
        case Prop(_, key) => |key|
        case _ => 0
  }

  /** The obvious recursion `allocated_size` computes with a worklist. */
  function Size(e: Expr): nat
    decreases e
  {
    OwnSize(e) + match e
      case Prop(b, _) => Size(b)
      case Unary(_, x) => Size(x)
      case Binary(_, l, r) => Size(l) + Size(r)
      case IsNull(x, _) => Size(x)
      case ListLit(items) => Sizes(items)
      case Index(b, i) => Size(b) + Size(i)
      case _ => 0
  }

  function Sizes(es: seq<Expr>): nat
    decreases es
  {
    if es == [] then 0 else Sizes(es[..|es| - 1]) + Size(es[|es| - 1])
  }

  lemma SizesSnoc(es: seq<Expr>, e: Expr)
    ensures Sizes(es + [e]) == Sizes(es) + Size(e)
  {
    assert (es + [e])[..|es|] == es;
  }

  lemma SizesOne(x: Expr)
    ensures Sizes([x]) == Size(x)
  {
    SizesSnoc([], x);
    assert [] + [x] == [x];
  }

  function Max(a: nat, b: nat): nat { if a >= b then a else b }
}
