/**
 Wasm function bodies, as bytes laid out in memory and as the nested structure they encode.

 An address holds the first byte of an instruction or an immediate byte. The opcode and
 immediate encodings themselves are not modelled: an instruction carries its length.
 */
module WasmCode {
  import opened Basics

  datatype Instr =
    | Plain(op: nat)
    | BlockStart(arity: nat)
    | LoopStart(arity: nat)
    | IfStart(arity: nat)
    | Else
    | End
    | Br(depth: nat)
    | BrIf(depth: nat)
    | BrTable(depths: seq<nat>, last: nat)
    | Return
    | Unreachable

  /** `imms` immediate bytes follow the opcode. */
  datatype Cell = Op(instr: Instr, imms: nat) | Imm

  datatype Stmt =
    | Leaf(instr: Instr, imms: nat)
    | Block(arity: nat, body: seq<Stmt>)
    | Loop(arity: nat, body: seq<Stmt>)
    | If(arity: nat, thn: seq<Stmt>)
    | IfElse(arity: nat, thn: seq<Stmt>, els: seq<Stmt>)

  predicate IsOpener(i: Instr) {
    i.BlockStart? || i.LoopStart? || i.IfStart?
  }

  predicate IsLeaf(i: Instr) {
    i.Plain? || i.Br? || i.BrIf? || i.BrTable? || i.Return? || i.Unreachable?
  }

  function Imms(n: nat): (s: seq<Cell>)
    ensures |s| == n
  {
    seq(n, _ => Imm)
  }

  /** A block header: the opcode and the byte of its type. */
  function Header(i: Instr): (s: seq<Cell>) {
    [Op(i, 1), Imm]
  }

  const END := [Op(End, 0)]
  const ELSE := [Op(Else, 0)]

  /** The bytes of one statement, given those of its parts. */
  function EmitFirst(body: seq<Stmt>): (s: seq<Cell>)
    requires body != []
    ensures |s| > 0
    decreases body, 0
  {
    match body[0]
    case Leaf(i, n) => [Op(i, n)] + Imms(n)
    case Block(a, b) => Header(BlockStart(a)) + Emit(b) + END
    case Loop(a, b) => Header(LoopStart(a)) + Emit(b) + END
    case If(a, t) => Header(IfStart(a)) + Emit(t) + END
    case IfElse(a, t, e) => Header(IfStart(a)) + Emit(t) + ELSE + Emit(e) + END
  }

  function Emit(body: seq<Stmt>): (s: seq<Cell>)
    decreases body, 1
  {
    if body == [] then [] else EmitFirst(body) + Emit(body[1..])
  }

  predicate WellFormed(body: seq<Stmt>)
    decreases body
  {
    body == [] ||
    (&& (match body[0]
         case Leaf(i, _) => IsLeaf(i)
         case Block(_, b) => WellFormed(b)
         case Loop(_, b) => WellFormed(b)
         case If(_, t) => WellFormed(t)
         case IfElse(_, t, e) => WellFormed(t) && WellFormed(e))
     && WellFormed(body[1..]))
  }

  lemma WellFormedParts(body: seq<Stmt>)
    requires WellFormed(body) && body != []
    ensures match body[0]
            case Leaf(i, _) => IsLeaf(i)
            case Block(_, b) => WellFormed(b)
            case Loop(_, b) => WellFormed(b)
            case If(_, t) => WellFormed(t)
            case IfElse(_, t, e) => WellFormed(t) && WellFormed(e)
    ensures WellFormed(body[1..])
  {
  }

  datatype Match = Match(els: Option<nat>, end: nat)

  /** The instruction at `p`, if one starts there and its immediates are inside the code. */
  predicate InstrAt(code: seq<Cell>, p: nat) {
    p < |code| && code[p].Op? && p + 1 + code[p].imms <= |code|
  }

  function NextAddr(code: seq<Cell>, p: nat): (q: nat)
    requires InstrAt(code, p)
    ensures p < q <= |code|
  {
    p + 1 + code[p].imms
  }

  /** Scan forward with `d` blocks open, the innermost last; `e` is the ELSE seen in the outermost. */
  function ScanAt(code: seq<Cell>, p: nat, d: nat, e: Option<nat>): (m: Option<Match>)
    decreases if p < |code| then |code| - p else 0
  {
    if d == 0 || !InstrAt(code, p) then None
    else
      var q := NextAddr(code, p);
      match code[p].instr
      case BlockStart(_) => ScanAt(code, q, d + 1, e)
      case LoopStart(_) => ScanAt(code, q, d + 1, e)
      case IfStart(_) => ScanAt(code, q, d + 1, e)
      case Else => ScanAt(code, q, d, if d == 1 then Some(p) else e)
      case End => if d == 1 then Some(Match(e, p)) else ScanAt(code, q, d - 1, e)
      case _ => ScanAt(code, q, d, e)
  }

  /** What a fresh scan from the start of a block's body finds. */
  function Matching(code: seq<Cell>, start: nat): (m: Option<Match>) {
    ScanAt(code, start, 1, None)
  }

  /** `part` is in the code at address `p`. */
  predicate Holds(code: seq<Cell>, p: nat, part: seq<Cell>) {
    p + |part| <= |code| && code[p..p + |part|] == part
  }

  lemma HoldsSplit(code: seq<Cell>, p: nat, a: seq<Cell>, b: seq<Cell>)
    ensures Holds(code, p, a + b) <==> Holds(code, p, a) && Holds(code, p + |a|, b)
  {
    if Holds(code, p, a + b) {
      assert code[p..p + |a|] == (a + b)[..|a|];
      assert code[p + |a|..p + |a| + |b|] == (a + b)[|a|..];
    }
    if Holds(code, p, a) && Holds(code, p + |a|, b) {
      assert code[p..p + |a| + |b|] == code[p..p + |a|] + code[p + |a|..p + |a| + |b|];
    }
  }

  lemma HoldsOne(code: seq<Cell>, p: nat, c: Cell)
    requires Holds(code, p, [c])
    ensures p < |code| && code[p] == c
  {
    assert code[p..p + 1][0] == c;
  }

  lemma HoldsHeader(code: seq<Cell>, p: nat, i: Instr)
    requires Holds(code, p, Header(i))
    ensures InstrAt(code, p) && code[p].instr == i && NextAddr(code, p) == p + 2
  {
    assert code[p..p + 2][0] == Op(i, 1);
  }

  lemma HoldsLeaf(code: seq<Cell>, p: nat, i: Instr, n: nat)
    requires Holds(code, p, [Op(i, n)] + Imms(n))
    ensures InstrAt(code, p) && code[p].instr == i && NextAddr(code, p) == p + 1 + n
  {
    assert code[p..p + 1 + n][0] == Op(i, n);
  }

  /** Where the parts of the first statement are. */
  lemma FirstParts(code: seq<Cell>, p: nat, body: seq<Stmt>)
    requires body != [] && Holds(code, p, EmitFirst(body))
    ensures match body[0]
            case Leaf(i, n) => InstrAt(code, p) && code[p].instr == i && NextAddr(code, p) == p + 1 + n == p + |EmitFirst(body)|
            case Block(a, b) => Parts(code, p, BlockStart(a), b) && p + 2 + |Emit(b)| + 1 == p + |EmitFirst(body)|
            case Loop(a, b) => Parts(code, p, LoopStart(a), b) && p + 2 + |Emit(b)| + 1 == p + |EmitFirst(body)|
            case If(a, t) => Parts(code, p, IfStart(a), t) && p + 2 + |Emit(t)| + 1 == p + |EmitFirst(body)|
            case IfElse(a, t, e) => ElseParts(code, p, IfStart(a), t, e) && p + 2 + |Emit(t)| + 1 + |Emit(e)| + 1 == p + |EmitFirst(body)|
  {
    hide Holds, Emit;
    match body[0]
    case Leaf(i, n) => HoldsLeaf(code, p, i, n);
    case Block(a, b) => PartsOf(code, p, BlockStart(a), b);
    case Loop(a, b) => PartsOf(code, p, LoopStart(a), b);
    case If(a, t) => PartsOf(code, p, IfStart(a), t);
    case IfElse(a, t, e) => ElsePartsOf(code, p, IfStart(a), t, e);
  }

  lemma LeafPart(code: seq<Cell>, p: nat, body: seq<Stmt>)
    requires body != [] && body[0].Leaf? && Holds(code, p, EmitFirst(body))
    ensures InstrAt(code, p) && code[p].instr == body[0].instr && NextAddr(code, p) == p + |EmitFirst(body)|
  {
    hide Holds;
    HoldsLeaf(code, p, body[0].instr, body[0].imms);
  }

  /** A header at `p`, the body after it and an END after that. */
  predicate Parts(code: seq<Cell>, p: nat, i: Instr, b: seq<Stmt>) {
    && InstrAt(code, p) && code[p].instr == i && NextAddr(code, p) == p + 2
    && Holds(code, p + 2, Emit(b)) && IsEnd(code, p + 2 + |Emit(b)|)
  }

  predicate ElseParts(code: seq<Cell>, p: nat, i: Instr, t: seq<Stmt>, e: seq<Stmt>) {
    && InstrAt(code, p) && code[p].instr == i && NextAddr(code, p) == p + 2
    && Holds(code, p + 2, Emit(t)) && IsElse(code, p + 2 + |Emit(t)|)
    && Holds(code, p + 3 + |Emit(t)|, Emit(e)) && IsEnd(code, p + 3 + |Emit(t)| + |Emit(e)|)
  }

  predicate IsEnd(code: seq<Cell>, p: nat) {
    p < |code| && code[p] == Op(End, 0)
  }

  predicate IsElse(code: seq<Cell>, p: nat) {
    p < |code| && code[p] == Op(Else, 0)
  }

  lemma PartsOf(code: seq<Cell>, p: nat, i: Instr, b: seq<Stmt>)
    requires Holds(code, p, Header(i) + Emit(b) + END)
    ensures Parts(code, p, i, b)
  {
    hide Holds, Emit;
    HoldsSplit(code, p, Header(i) + Emit(b), END);
    HoldsSplit(code, p, Header(i), Emit(b));
    HoldsHeader(code, p, i);
    HoldsOne(code, p + 2 + |Emit(b)|, Op(End, 0));
  }

  lemma ElsePartsOf(code: seq<Cell>, p: nat, i: Instr, t: seq<Stmt>, e: seq<Stmt>)
    requires Holds(code, p, Header(i) + Emit(t) + ELSE + Emit(e) + END)
    ensures ElseParts(code, p, i, t, e)
  {
    hide Holds, Emit;
    HoldsSplit(code, p, Header(i) + Emit(t) + ELSE + Emit(e), END);
    HoldsSplit(code, p, Header(i) + Emit(t) + ELSE, Emit(e));
    HoldsSplit(code, p, Header(i) + Emit(t), ELSE);
    HoldsSplit(code, p, Header(i), Emit(t));
    HoldsHeader(code, p, i);
    HoldsOne(code, p + 2 + |Emit(t)|, Op(Else, 0));
    HoldsOne(code, p + 3 + |Emit(t)| + |Emit(e)|, Op(End, 0));
  }

  /** One instruction of a scan inside a block. */
  lemma ScanStep(code: seq<Cell>, p: nat, d: nat, e: Option<nat>)
    requires InstrAt(code, p) && d > 0
    ensures var q, i := NextAddr(code, p), code[p].instr;
            && (IsOpener(i) ==> ScanAt(code, p, d, e) == ScanAt(code, q, d + 1, e))
            && (i.End? && d > 1 ==> ScanAt(code, p, d, e) == ScanAt(code, q, d - 1, e))
            && (i.End? && d == 1 ==> ScanAt(code, p, d, e) == Some(Match(e, p)))
            && (i.Else? ==> ScanAt(code, p, d, e) == ScanAt(code, q, d, if d == 1 then Some(p) else e))
            && (IsLeaf(i) ==> ScanAt(code, p, d, e) == ScanAt(code, q, d, e))
  {
  }

  lemma EmitCons(code: seq<Cell>, p: nat, body: seq<Stmt>)
    requires body != []
    ensures Emit(body) == EmitFirst(body) + Emit(body[1..]) && |Emit(body)| == |EmitFirst(body)| + |Emit(body[1..])|
    ensures Holds(code, p, Emit(body)) <==> Holds(code, p, EmitFirst(body)) && Holds(code, p + |EmitFirst(body)|, Emit(body[1..]))
  {
    hide Holds, EmitFirst;
    HoldsSplit(code, p, EmitFirst(body), Emit(body[1..]));
  }

  /** A scan passes over a whole body: its blocks are balanced and its ELSEs are not at the scan's level. */
  lemma {:induction false} ScanOver(code: seq<Cell>, p: nat, body: seq<Stmt>, d: nat, e: Option<nat>)
    requires d > 0 && WellFormed(body) && Holds(code, p, Emit(body))
    ensures ScanAt(code, p, d, e) == ScanAt(code, p + |Emit(body)|, d, e)
    decreases body, 1
  {
    if body != [] {
      hide Holds, Emit, EmitFirst, ScanAt;
      EmitCons(code, p, body);
      ScanOverFirst(code, p, body, d, e);
      ScanOver(code, p + |EmitFirst(body)|, body[1..], d, e);
    }
  }

  lemma {:induction false} ScanOverFirst(code: seq<Cell>, p: nat, body: seq<Stmt>, d: nat, e: Option<nat>)
    requires d > 0 && body != [] && WellFormed(body) && Holds(code, p, EmitFirst(body))
    ensures ScanAt(code, p, d, e) == ScanAt(code, p + |EmitFirst(body)|, d, e)
    decreases body, 0
  {
    hide Holds, Emit, EmitFirst, ScanAt;
    FirstParts(code, p, body);
    ScanStep(code, p, d, e);
    match body[0] {
      case Leaf(_, _) =>
      case Block(_, b) => ScanBody(code, p + 2, b, d, e);
      case Loop(_, b) => ScanBody(code, p + 2, b, d, e);
      case If(_, t) => ScanBody(code, p + 2, t, d, e);
      case IfElse(_, t, els) =>
        ScanOver(code, p + 2, t, d + 1, e);
        ScanStep(code, p + 2 + |Emit(t)|, d + 1, e);
        ScanBody(code, p + 3 + |Emit(t)|, els, d, e);
    }
  }

  /** A nested body and its END. */
  lemma {:induction false} ScanBody(code: seq<Cell>, p: nat, b: seq<Stmt>, d: nat, e: Option<nat>)
    requires d > 0 && WellFormed(b) && Holds(code, p, Emit(b)) && IsEnd(code, p + |Emit(b)|)
    ensures ScanAt(code, p, d + 1, e) == ScanAt(code, p + |Emit(b)| + 1, d, e)
    decreases b, 2
  {
    hide Holds, Emit, ScanAt;
    ScanOver(code, p, b, d + 1, e);
    ScanStep(code, p + |Emit(b)|, d + 1, e);
  }

  /** The match of a block, loop or one-armed if. */
  lemma MatchingOf(code: seq<Cell>, p: nat, i: Instr, b: seq<Stmt>)
    requires WellFormed(b) && Parts(code, p, i, b)
    ensures Matching(code, p + 2) == Some(Match(None, p + 2 + |Emit(b)|))
  {
    hide Holds, Emit, ScanAt;
    ScanOver(code, p + 2, b, 1, None);
    ScanStep(code, p + 2 + |Emit(b)|, 1, None);
  }

  /** The match of an if with both arms. */
  lemma MatchingOfElse(code: seq<Cell>, p: nat, i: Instr, t: seq<Stmt>, e: seq<Stmt>)
    requires WellFormed(t) && WellFormed(e) && ElseParts(code, p, i, t, e)
    ensures Matching(code, p + 2) == Some(Match(Some(p + 2 + |Emit(t)|), p + 3 + |Emit(t)| + |Emit(e)|))
  {
    hide Holds, Emit, ScanAt;
    var elseAt: nat := p + 2 + |Emit(t)|;
    ScanOver(code, p + 2, t, 1, None);
    ScanStep(code, elseAt, 1, None);
    ScanOver(code, elseAt + 1, e, 1, Some(elseAt));
    ScanStep(code, elseAt + 1 + |Emit(e)|, 1, Some(elseAt));
  }
}
