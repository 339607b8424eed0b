/**
 Control flow of Wasm function bodies, twice: structured, by nested statements and labels,
 and flat, by addresses and a control stack as the interpreter runs it. The flat machine
 refines the structured one step by step.
 */
module WasmControl {
  import opened Basics
  import opened WasmCode

  type cell = c: int | 0 <= c < 0x1_0000_0000

  datatype LabelType = LabelFunction | LabelBlock | LabelLoop | LabelIf

  datatype Exec<W> = Trap | Ok(results: seq<cell>, world: W)

  /** The other instructions: how many cells they pop and push, and what they do. */
  datatype Env<!W> = Env(pops: nat -> nat, pushes: nat -> nat, exec: (nat, seq<cell>, W) -> Exec<W>)

  ghost predicate ValidEnv<W(!new)>(env: Env<W>) {
    forall op, args, w ::
      var r := env.exec(op, args, w);
      |args| == env.pops(op) && r.Ok? ==> |r.results| == env.pushes(op)
  }

  datatype Outcome<S, W> = Running(state: S) | Returned(values: seq<cell>, world: W) | Trapped | Stuck

  /** The last `n` cells moved down to `height`. */
  function Unwound(stack: seq<cell>, height: nat, n: nat): (r: seq<cell>)
    requires height + n <= |stack|
    ensures |r| == height + n
  {
    stack[..height] + stack[|stack| - n..]
  }

  function Last<T>(s: seq<T>): (x: T)
    requires s != []
  {
    s[|s| - 1]
  }

  function Init<T>(s: seq<T>): (r: seq<T>)
    requires s != []
  {
    s[..|s| - 1]
  }

  /** The label a branch names: entry `index` of the table, or the last one. */
  function TableDepth(depths: seq<nat>, last: nat, index: nat): (d: nat) {
    if index < |depths| then depths[index] else last
  }

  // The structured machine

  /** An enclosing block: what its branch target needs and the statements after it. */
  datatype Label = Label(kind: LabelType, arity: nat, height: nat, body: seq<Stmt>, rest: seq<Stmt>)

  datatype Struct<W> = Struct(cur: seq<Stmt>, stack: seq<cell>, labels: seq<Label>, world: W)

  function ReturnFrom<S, W>(stack: seq<cell>, arity: nat, world: W): (r: Outcome<S, W>) {
    if |stack| < arity then Stuck else Returned(stack[|stack| - arity..], world)
  }

  function ExecPlain<W>(env: Env<W>, op: nat, stack: seq<cell>, world: W): (r: Option<Exec<W>>) {
    var n := env.pops(op);
    if |stack| < n then None else Some(env.exec(op, stack[|stack| - n..], world))
  }

  function Enter<W>(s: Struct<W>, stack: seq<cell>, kind: LabelType, arity: nat, body: seq<Stmt>): (r: Struct<W>)
    requires s.cur != []
  {
    Struct(body, stack, s.labels + [Label(kind, arity, |stack|, body, s.cur[1..])], s.world)
  }

  /** A branch to a loop starts its body again; to another block, goes to its end with its results. */
  function StructBranch<W>(s: Struct<W>, stack: seq<cell>, d: nat): (r: Outcome<Struct<W>, W>) {
    if d >= |s.labels| then Stuck
    else
      var labels := s.labels[..|s.labels| - d];
      var l := Last(labels);
      if l.kind == LabelLoop then
        if l.height > |stack| then Stuck else Running(Struct(l.body, stack[..l.height], labels, s.world))
      else if l.height + l.arity > |stack| then Stuck
      else Running(Struct([], Unwound(stack, l.height, l.arity), labels, s.world))
  }

  function StructLeaf<W>(env: Env<W>, s: Struct<W>, i: Instr): (r: Outcome<Struct<W>, W>)
    requires s.cur != [] && s.labels != []
  {
    var next := s.(cur := s.cur[1..]);
    match i
    case Plain(op) =>
      (match ExecPlain(env, op, s.stack, s.world)
       case None => Stuck
       case Some(Trap) => Trapped
       case Some(Ok(results, w)) => Running(next.(stack := s.stack[..|s.stack| - env.pops(op)] + results, world := w)))
    case Br(d) => StructBranch(s, s.stack, d)
    case BrIf(d) =>
      if s.stack == [] then Stuck
      else if Last(s.stack) != 0 then StructBranch(s, Init(s.stack), d)
      else Running(next.(stack := Init(s.stack)))
    case BrTable(ds, last) =>
      if s.stack == [] then Stuck else StructBranch(s, Init(s.stack), TableDepth(ds, last, Last(s.stack)))
    case Return => ReturnFrom(s.stack, s.labels[0].arity, s.world)
    case Unreachable => Trapped
    case _ => Stuck
  }

  function StructStep<W>(env: Env<W>, s: Struct<W>): (r: Outcome<Struct<W>, W>)
    requires s.labels != []
    ensures r.Running? ==> r.state.labels != []
  {
    if s.cur == [] then
      var l := Last(s.labels);
      if |s.labels| == 1 then ReturnFrom(s.stack, l.arity, s.world)
      else if l.height + l.arity > |s.stack| then Stuck
      else Running(Struct(l.rest, Unwound(s.stack, l.height, l.arity), Init(s.labels), s.world))
    else
      match s.cur[0]
      case Leaf(i, _) => StructLeaf(env, s, i)
      case Block(a, b) => Running(Enter(s, s.stack, LabelBlock, a, b))
      case Loop(a, b) => Running(Enter(s, s.stack, LabelLoop, a, b))
      case If(a, t) =>
        if s.stack == [] then Stuck
        else if Last(s.stack) != 0 then Running(Enter(s, Init(s.stack), LabelIf, a, t))
        else Running(s.(cur := s.cur[1..], stack := Init(s.stack)))
      case IfElse(a, t, e) =>
        if s.stack == [] then Stuck
        else Running(Enter(s, Init(s.stack), LabelIf, a, if Last(s.stack) != 0 then t else e))
  }

  // What a step does to the operands, cell by cell

  /** `t` is the cells of `stack` below `height`, then its top `n` cells in their order. */
  ghost predicate KeepsTop(stack: seq<cell>, height: nat, n: nat, t: seq<cell>) {
    && height + n <= |stack| && |t| == height + n
    && (forall i: nat :: i < height ==> t[i] == stack[i])
    && forall i: nat :: height <= i < |t| ==> t[i] == stack[i + |stack| - |t|]
  }

  /**
   A branch keeps the cells below its label and, unless the label is a loop's, the label's
   results from the top of the stack. It leaves the blocks inside the label.
   */
  lemma BranchKeepsTop<W>(s: Struct<W>, stack: seq<cell>, d: nat)
    ensures var r := StructBranch(s, stack, d);
            if d >= |s.labels| then r.Stuck?
            else
              var l := s.labels[|s.labels| - 1 - d];
              var n := if l.kind == LabelLoop then 0 else l.arity;
              if l.height + n > |stack| then r.Stuck?
              else
                && r.Running? && KeepsTop(stack, l.height, n, r.state.stack) && r.state.world == s.world
                && r.state.labels == s.labels[..|s.labels| - d]
                && r.state.cur == if l.kind == LabelLoop then l.body else []
  {
  }

  /** Falling off the end of a block keeps its results from the top, and goes on behind it. */
  lemma EndKeepsTop<W>(env: Env<W>, s: Struct<W>)
    requires s.cur == [] && |s.labels| > 1 && StructStep(env, s).Running?
    ensures var l, t := s.labels[|s.labels| - 1], StructStep(env, s).state;
            && KeepsTop(s.stack, l.height, l.arity, t.stack) && t.world == s.world
            && t.cur == l.rest && t.labels == s.labels[..|s.labels| - 1]
  {
  }

  /** A function returns its results from the top of the stack, by RETURN and by its last END alike. */
  lemma ReturnKeepsTop<W>(env: Env<W>, s: Struct<W>)
    requires s.labels != [] && StructStep(env, s).Returned?
    ensures KeepsTop(s.stack, 0, s.labels[0].arity, StructStep(env, s).values) && StructStep(env, s).world == s.world
  {
    hide ExecPlain, KeepsTop;
    KeepsSuffix(s.stack, s.labels[0].arity);
  }

  lemma KeepsSuffix(stack: seq<cell>, n: nat)
    ensures n <= |stack| ==> KeepsTop(stack, 0, n, stack[|stack| - n..])
  {
  }

  /** Any other instruction replaces its operands, which are the top of the stack in their order, by its results. */
  lemma PlainReplacesTop<W>(env: Env<W>, s: Struct<W>, op: nat, imms: nat, t: Struct<W>)
    requires s.labels != [] && s.cur != [] && s.cur[0] == Leaf(Plain(op), imms) && StructStep(env, s) == Running(t)
    ensures exists args, results ::
              && KeepsTop(s.stack, 0, env.pops(op), args) && env.exec(op, args, s.world) == Ok(results, t.world)
              && t.stack == s.stack[..|s.stack| - env.pops(op)] + results
              && t.cur == s.cur[1..] && t.labels == s.labels
  {
    var n := env.pops(op);
    var args := s.stack[|s.stack| - n..];
    assert KeepsTop(s.stack, 0, n, args);
  }

  /** A conditional or indexed branch is, its operand popped, a branch or no instruction. */
  lemma ConditionalBranches<W>(env: Env<W>, s: Struct<W>, c: cell, i: Instr)
    requires s.labels != [] && s.cur != [] && (i.BrIf? || i.BrTable?)
    ensures var popping := s.(stack := s.stack + [c]);
            StructLeaf(env, popping, i) ==
            if i.BrIf? then
              if c == 0 then Running(s.(cur := s.cur[1..])) else StructLeaf(env, s, Br(i.depth))
            else StructLeaf(env, s, Br(if c < |i.depths| then i.depths[c] else i.last))
  {
    var stack := s.stack + [c];
    assert Init(stack) == s.stack && Last(stack) == c;
  }

  /** An if is, its condition popped, a block with the chosen arm. */
  lemma IfIsBlock<W>(env: Env<W>, s: Struct<W>, c: cell, a: nat, thn: seq<Stmt>, els: seq<Stmt>)
    requires s.labels != [] && s.cur != [] && s.cur[0] == IfElse(a, thn, els)
    ensures var r := StructStep(env, s.(stack := s.stack + [c]));
            var b := StructStep(env, s.(cur := [Block(a, if c != 0 then thn else els)] + s.cur[1..]));
            && r.Running? && b.Running? && |r.state.labels| == |s.labels| + 1
            && r.state.labels[|s.labels|].kind == LabelIf
            && b.state == r.state.(labels := s.labels + [r.state.labels[|s.labels|].(kind := LabelBlock)])
            && r.state.labels[..|s.labels|] == s.labels
  {
    var stack := s.stack + [c];
    assert Init(stack) == s.stack && Last(stack) == c;
    assert ([Block(a, if c != 0 then thn else els)] + s.cur[1..])[1..] == s.cur[1..];
  }

  // The flat machine

  datatype BlockInfo = BlockInfo(target: nat, height: nat, cells: nat, kind: LabelType)

  datatype Flat<W> = Flat(ip: nat, stack: seq<cell>, ctrl: seq<BlockInfo>, world: W)

  /** `blockPop` with a depth: drop the inner blocks, go to the label's address, keep its results. */
  function BlockPopTo<W>(f: Flat<W>, stack: seq<cell>, d: nat): (r: Outcome<Flat<W>, W>) {
    if d >= |f.ctrl| then Stuck
    else
      var ctrl := f.ctrl[..|f.ctrl| - d];
      var b := Last(ctrl);
      if b.kind == LabelLoop then
        if b.height > |stack| then Stuck else Running(Flat(b.target, stack[..b.height], ctrl, f.world))
      else if b.height + b.cells > |stack| then Stuck
      else Running(Flat(b.target, Unwound(stack, b.height, b.cells), ctrl, f.world))
  }

  function FlatLeaf<W>(env: Env<W>, code: seq<Cell>, f: Flat<W>): (r: Outcome<Flat<W>, W>)
    requires InstrAt(code, f.ip) && f.ctrl != []
  {
    var next := f.(ip := NextAddr(code, f.ip));
    match code[f.ip].instr
    case Plain(op) =>
      (match ExecPlain(env, op, f.stack, f.world)
       case None => Stuck
       case Some(Trap) => Trapped
       case Some(Ok(results, w)) => Running(next.(stack := f.stack[..|f.stack| - env.pops(op)] + results, world := w)))
    case Br(d) => BlockPopTo(f, f.stack, d)
    case BrIf(d) =>
      if f.stack == [] then Stuck
      else if Last(f.stack) != 0 then BlockPopTo(f, Init(f.stack), d)
      else Running(next.(stack := Init(f.stack)))
    case BrTable(ds, last) =>
      if f.stack == [] then Stuck else BlockPopTo(f, Init(f.stack), TableDepth(ds, last, Last(f.stack)))
    case Return => ReturnFrom(f.stack, f.ctrl[0].cells, f.world)
    case Unreachable => Trapped
    case _ => Stuck
  }

  function FlatStep<W>(env: Env<W>, code: seq<Cell>, f: Flat<W>): (r: Outcome<Flat<W>, W>)
    requires f.ctrl != []
    ensures r.Running? ==> r.state.ctrl != []
  {
    if !InstrAt(code, f.ip) then Stuck
    else
      var next := NextAddr(code, f.ip);
      match code[f.ip].instr
      case BlockStart(a) =>
        var m := Matching(code, next);
        if m.None? then Stuck
        else Running(f.(ip := next, ctrl := f.ctrl + [BlockInfo(m.value.end, |f.stack|, a, LabelBlock)]))
      case LoopStart(a) => Running(f.(ip := next, ctrl := f.ctrl + [BlockInfo(next, |f.stack|, a, LabelLoop)]))
      case IfStart(a) =>
        var m := Matching(code, next);
        if f.stack == [] || m.None? then Stuck
        else
          var stack := Init(f.stack);
          var entered := f.(stack := stack, ctrl := f.ctrl + [BlockInfo(m.value.end, |stack|, a, LabelIf)]);
          if Last(f.stack) != 0 then Running(entered.(ip := next))
          else if m.value.els.None? then Running(f.(ip := m.value.end + 1, stack := stack))
          else Running(entered.(ip := m.value.els.value + 1))
      case Else => Running(f.(ip := Last(f.ctrl).target))
      case End =>
        if |f.ctrl| > 1 then Running(f.(ip := next, ctrl := Init(f.ctrl)))
        else ReturnFrom(f.stack, f.ctrl[0].cells, f.world)
      case _ => FlatLeaf(env, code, f)
  }

  // How the two correspond

  predicate Agrees(l: Label, b: BlockInfo) {
    b.height == l.height && b.cells == l.arity && b.kind == l.kind
  }

  /** The innermost block's control entry is right, its END is at `e`, and what follows it is its continuation. */
  predicate AtEnd(code: seq<Cell>, e: nat, labels: seq<Label>, ctrl: seq<BlockInfo>)
    requires |labels| == |ctrl| > 0
    decreases |labels|, 0
  {
    var l, b := Last(labels), Last(ctrl);
    && IsEnd(code, e) && Agrees(l, b)
    && (if l.kind == LabelLoop then b.target + |Emit(l.body)| == e && Holds(code, b.target, Emit(l.body)) && WellFormed(l.body)
        else b.target == e)
    && (if |labels| == 1 then l.kind == LabelFunction && e + 1 == |code|
        else
          && Holds(code, e + 1, Emit(l.rest)) && WellFormed(l.rest)
          && Closes(code, e + 1 + |Emit(l.rest)|, Init(labels), Init(ctrl)))
  }

  /** The statements of the innermost block end at `t`: at its END, or at the ELSE after a then-arm. */
  predicate Closes(code: seq<Cell>, t: nat, labels: seq<Label>, ctrl: seq<BlockInfo>)
    requires |labels| == |ctrl| > 0
    decreases |labels|, 1
  {
    || AtEnd(code, t, labels, ctrl)
    || (Last(labels).kind == LabelIf && IsElse(code, t) && AtEnd(code, Last(ctrl).target, labels, ctrl))
  }

  predicate At(code: seq<Cell>, ip: nat, cur: seq<Stmt>, labels: seq<Label>, ctrl: seq<BlockInfo>) {
    && |labels| == |ctrl| > 0 && WellFormed(cur)
    && Holds(code, ip, Emit(cur)) && Closes(code, ip + |Emit(cur)|, labels, ctrl)
  }

  /** Same operand stack and world, and the address is that of the current statement. */
  predicate Related<W(==)>(code: seq<Cell>, f: Flat<W>, s: Struct<W>) {
    f.stack == s.stack && f.world == s.world && At(code, f.ip, s.cur, s.labels, f.ctrl)
  }

  predicate RelatedOutcomes<W(==)>(code: seq<Cell>, a: Outcome<Flat<W>, W>, b: Outcome<Struct<W>, W>) {
    match a
    case Running(f) => b.Running? && Related(code, f, b.state)
    case Returned(v, w) => b == Returned(v, w)
    case Trapped => b.Trapped?
    case Stuck => b.Stuck?
  }

  lemma SeqLast<T>(s: seq<T>, x: T)
    ensures s + [x] != [] && Last(s + [x]) == x && Init(s + [x]) == s
  {
  }

  /** Entering a block: the pushed control entry and label agree. */
  lemma EnterAt(
    code: seq<Cell>, p: nat, inner: seq<Stmt>, e: nat, l: Label, b: BlockInfo, labels: seq<Label>, ctrl: seq<BlockInfo>)
    requires |labels| == |ctrl| > 0 && WellFormed(inner) && WellFormed(l.rest) && Holds(code, p, Emit(inner)) && IsEnd(code, e)
    requires p + |Emit(inner)| == e || (l.kind == LabelIf && IsElse(code, p + |Emit(inner)|))
    requires Agrees(l, b) && l.kind != LabelFunction
    requires if l.kind == LabelLoop then b.target == p && l.body == inner else b.target == e
    requires Holds(code, e + 1, Emit(l.rest)) && Closes(code, e + 1 + |Emit(l.rest)|, labels, ctrl)
    ensures At(code, p, inner, labels + [l], ctrl + [b])
  {
    hide Holds, Emit, WellFormed, AtEnd, Closes;
    var ls, cs := labels + [l], ctrl + [b];
    SeqLast(labels, l);
    SeqLast(ctrl, b);
    InnerEnd(code, e, ls, cs);
    ClosesAt(code, p + |Emit(inner)|, e, ls, cs);
  }

  lemma ClosesAt(code: seq<Cell>, t: nat, e: nat, labels: seq<Label>, ctrl: seq<BlockInfo>)
    requires |labels| == |ctrl| > 0 && AtEnd(code, e, labels, ctrl)
    requires t == e || (Last(labels).kind == LabelIf && IsElse(code, t) && Last(ctrl).target == e)
    ensures Closes(code, t, labels, ctrl)
  {
  }

  /** The END of a nested block, from its parts. */
  lemma InnerEnd(code: seq<Cell>, e: nat, labels: seq<Label>, ctrl: seq<BlockInfo>)
    requires |labels| == |ctrl| > 1 && IsEnd(code, e)
    requires var l, b := Last(labels), Last(ctrl);
             && Agrees(l, b) && l.kind != LabelFunction && WellFormed(l.rest) && Holds(code, e + 1, Emit(l.rest))
             && (if l.kind == LabelLoop then b.target + |Emit(l.body)| == e && Holds(code, b.target, Emit(l.body)) && WellFormed(l.body)
                 else b.target == e)
             && Closes(code, e + 1 + |Emit(l.rest)|, Init(labels), Init(ctrl))
    ensures AtEnd(code, e, labels, ctrl)
  {
    hide Holds, Emit, WellFormed;
  }

  /** The control stack knows where every enclosing block ends, or begins again. */
  lemma {:induction false} AtOuter(code: seq<Cell>, t: nat, labels: seq<Label>, ctrl: seq<BlockInfo>, d: nat)
    requires |labels| == |ctrl| && d < |labels| && Closes(code, t, labels, ctrl)
    ensures var ls, cs := labels[..|labels| - d], ctrl[..|labels| - d];
            && Agrees(Last(ls), Last(cs))
            && At(code, Last(cs).target, if Last(ls).kind == LabelLoop then Last(ls).body else [], ls, cs)
    decreases d
  {
    hide Holds, Emit;
    var e := if AtEnd(code, t, labels, ctrl) then t else Last(ctrl).target;
    assert AtEnd(code, e, labels, ctrl);
    if d == 0 {
      assert labels[..|labels|] == labels && ctrl[..|ctrl|] == ctrl;
      EmitNothing(code, Last(ctrl).target);
    } else {
      var l := Last(labels);
      assert labels[..|labels| - d] == Init(labels)[..|labels| - 1 - (d - 1)];
      assert ctrl[..|labels| - d] == Init(ctrl)[..|labels| - 1 - (d - 1)];
      AtOuter(code, e + 1 + |Emit(l.rest)|, Init(labels), Init(ctrl), d - 1);
    }
  }

  lemma EmitNothing(code: seq<Cell>, p: nat)
    ensures Emit([]) == [] && WellFormed([]) && (p <= |code| ==> Holds(code, p, Emit([])))
  {
  }

  // Typing

  /** How many cells a branch to the label carries. */
  function LabelArity(l: Label): (n: nat) {
    if l.kind == LabelLoop then 0 else l.arity
  }

  function Arities(labels: seq<Label>): (a: seq<nat>)
    ensures |a| == |labels| && forall i: nat :: i < |a| ==> a[i] == LabelArity(labels[i])
  {
    seq(|labels|, i requires 0 <= i < |labels| => LabelArity(labels[i]))
  }

  /** A branch of depth `d` finds its cells among `h`. */
  predicate CanBranch(arities: seq<nat>, d: nat, h: nat) {
    d < |arities| && arities[|arities| - 1 - d] <= h
  }

  /**
   The statements take a block with `h` cells above its base to one with `r`, given the
   arities of the enclosing labels, the innermost last. Nothing is asked of statements after
   an unconditional branch or a trap.
   */
  predicate Typed<W>(env: Env<W>, body: seq<Stmt>, arities: seq<nat>, h: nat, r: nat)
    decreases body
  {
    if body == [] then h == r
    else
      match body[0]
      case Leaf(i, _) =>
        (match i
         case Plain(op) => env.pops(op) <= h && Typed(env, body[1..], arities, h - env.pops(op) + env.pushes(op), r)
         case Br(d) => CanBranch(arities, d, h)
         case BrIf(d) => h >= 1 && CanBranch(arities, d, h - 1) && Typed(env, body[1..], arities, h - 1, r)
         case BrTable(ds, last) =>
           h >= 1 && CanBranch(arities, last, h - 1) && forall k: nat :: k < |ds| ==> CanBranch(arities, ds[k], h - 1)
         case Return => |arities| > 0 && arities[0] <= h
         case Unreachable => true
         case _ => false)
      case Block(a, b) => Typed(env, b, arities + [a], 0, a) && Typed(env, body[1..], arities, h + a, r)
      case Loop(a, b) => Typed(env, b, arities + [0], 0, a) && Typed(env, body[1..], arities, h + a, r)
      case If(a, t) => h >= 1 && a == 0 && Typed(env, t, arities + [a], 0, a) && Typed(env, body[1..], arities, h - 1, r)
      case IfElse(a, t, e) =>
        && h >= 1 && Typed(env, t, arities + [a], 0, a) && Typed(env, e, arities + [a], 0, a)
        && Typed(env, body[1..], arities, h - 1 + a, r)
  }

  /** The current statements are typed for the cells on the stack, and so is every continuation. */
  predicate TypedFrom<W>(env: Env<W>, cur: seq<Stmt>, labels: seq<Label>, h: nat)
    requires labels != []
    decreases |labels|
  {
    var l := Last(labels);
    && l.height <= h && Typed(env, cur, Arities(labels), h - l.height, l.arity)
    && TypedLabels(env, labels)
  }

  predicate TypedLabels<W>(env: Env<W>, labels: seq<Label>)
    requires labels != []
    decreases |labels|, 0
  {
    var l := Last(labels);
    && (l.kind == LabelLoop ==> Typed(env, l.body, Arities(labels), 0, l.arity))
    && (if |labels| == 1 then l.kind == LabelFunction && l.height == 0
        else l.kind != LabelFunction && Last(Init(labels)).height <= l.height
             && Typed(env, l.rest, Arities(Init(labels)), l.height + l.arity - Last(Init(labels)).height, Last(Init(labels)).arity)
             && TypedLabels(env, Init(labels)))
  }

  lemma AritiesPush(labels: seq<Label>, l: Label)
    ensures Arities(labels + [l]) == Arities(labels) + [LabelArity(l)]
  {
  }

  lemma TypedInit<W>(env: Env<W>, labels: seq<Label>)
    requires |labels| > 1 && TypedLabels(env, labels)
    ensures TypedLabels(env, Init(labels)) && Last(Init(labels)).height <= Last(labels).height
  {
    hide Typed;
  }

  /** Outer labels are typed too, and their blocks begin lower on the stack. */
  lemma {:induction false} TypedOuter<W>(env: Env<W>, labels: seq<Label>, d: nat)
    requires d < |labels| && TypedLabels(env, labels)
    ensures var ls := labels[..|labels| - d]; TypedLabels(env, ls) && Last(ls).height <= Last(labels).height
    decreases d
  {
    if d == 0 {
      assert labels[..|labels|] == labels;
    } else {
      assert labels[..|labels| - d] == Init(labels)[..|labels| - 1 - (d - 1)];
      TypedInit(env, labels);
      hide TypedLabels;
      TypedOuter(env, Init(labels), d - 1);
    }
  }

  /** Typed statements never get stuck and stay typed. */
  predicate StaysTyped<W>(env: Env<W>, r: Outcome<Struct<W>, W>) {
    !r.Stuck? && (r.Running? ==> r.state.labels != [] && TypedFrom(env, r.state.cur, r.state.labels, |r.state.stack|))
  }

  lemma TypedBranch<W>(env: Env<W>, s: Struct<W>, stack: seq<cell>, d: nat)
    requires s.labels != [] && TypedLabels(env, s.labels) && Last(s.labels).height <= |stack|
    requires CanBranch(Arities(s.labels), d, |stack| - Last(s.labels).height)
    ensures StaysTyped(env, StructBranch(s, stack, d))
  {
    hide TypedLabels;
    TypedOuter(env, s.labels, d);
    var labels := s.labels[..|s.labels| - d];
    var l := Last(labels);
    assert Arities(s.labels)[|s.labels| - 1 - d] == LabelArity(l);
    if l.kind == LabelLoop {
      LoopTyped(env, labels);
    }
  }

  lemma LoopTyped<W>(env: Env<W>, labels: seq<Label>)
    requires labels != [] && TypedLabels(env, labels) && Last(labels).kind == LabelLoop
    ensures Typed(env, Last(labels).body, Arities(labels), 0, Last(labels).arity)
  {
  }

  /** Entering a block: its body is typed from an empty base, its continuation with its results. */
  lemma TypedEnter<W>(env: Env<W>, s: Struct<W>, stack: seq<cell>, kind: LabelType, a: nat, body: seq<Stmt>)
    requires s.cur != [] && s.labels != [] && TypedLabels(env, s.labels) && kind != LabelFunction
    requires var top := Last(s.labels);
             && top.height <= |stack|
             && Typed(env, s.cur[1..], Arities(s.labels), |stack| - top.height + a, top.arity)
             && Typed(env, body, Arities(s.labels) + [if kind == LabelLoop then 0 else a], 0, a)
    ensures StaysTyped(env, Running(Enter(s, stack, kind, a, body)))
  {
    hide Typed, TypedLabels;
    var l := Label(kind, a, |stack|, body, s.cur[1..]);
    var ls := s.labels + [l];
    SeqLast(s.labels, l);
    AritiesPush(s.labels, l);
    InnerLabel(env, ls);
    assert TypedFrom(env, body, ls, |stack|);
  }

  /** A nested label, from its parts. */
  lemma InnerLabel<W>(env: Env<W>, labels: seq<Label>)
    requires |labels| > 1
    requires var l, top := Last(labels), Last(Init(labels));
             && (l.kind == LabelLoop ==> Typed(env, l.body, Arities(labels), 0, l.arity))
             && l.kind != LabelFunction && top.height <= l.height && TypedLabels(env, Init(labels))
             && Typed(env, l.rest, Arities(Init(labels)), l.height + l.arity - top.height, top.arity)
    ensures TypedLabels(env, labels)
  {
    hide Typed;
  }

  lemma TypedEnd<W>(env: Env<W>, s: Struct<W>)
    requires s.labels != [] && s.cur == [] && TypedFrom(env, s.cur, s.labels, |s.stack|)
    ensures |s.stack| == Last(s.labels).height + Last(s.labels).arity
    ensures StaysTyped(env, StructStep(env, s))
  {
    assert |s.stack| == Last(s.labels).height + Last(s.labels).arity;
    hide Typed;
  }

  lemma BottomLabel<W>(env: Env<W>, labels: seq<Label>)
    requires labels != [] && TypedLabels(env, labels)
    ensures labels[0].kind == LabelFunction && Arities(labels)[0] == labels[0].arity
  {
    hide Typed;
    TypedOuter(env, labels, |labels| - 1);
    assert Last(labels[..1]) == labels[0];
  }

  lemma TypedLeaf<W(!new)>(env: Env<W>, s: Struct<W>)
    requires ValidEnv(env) && s.labels != [] && TypedFrom(env, s.cur, s.labels, |s.stack|) && s.cur != [] && s.cur[0].Leaf?
    ensures StaysTyped(env, StructLeaf(env, s, s.cur[0].instr))
  {
    hide TypedLabels, StructBranch;
    BottomLabel(env, s.labels);
    match s.cur[0].instr
    case Br(d) => TypedBranch(env, s, s.stack, d);
    case BrIf(d) => TypedBranch(env, s, Init(s.stack), d);
    case BrTable(ds, last) => TypedBranch(env, s, Init(s.stack), TableDepth(ds, last, Last(s.stack)));
    case _ =>
  }

  /** Type soundness of the structured machine. */
  lemma TypedStep<W(!new)>(env: Env<W>, s: Struct<W>)
    requires ValidEnv(env) && s.labels != [] && TypedFrom(env, s.cur, s.labels, |s.stack|)
    ensures StaysTyped(env, StructStep(env, s))
  {
    if s.cur == [] {
      TypedEnd(env, s);
    } else {
      hide TypedLabels, StaysTyped, StructLeaf;
      match s.cur[0]
      case Leaf(_, _) => TypedLeaf(env, s);
      case Block(a, b) => TypedEnter(env, s, s.stack, LabelBlock, a, b);
      case Loop(a, b) => TypedEnter(env, s, s.stack, LabelLoop, a, b);
      case If(a, t) => TypedIf(env, s);
      case IfElse(a, t, e) => TypedEnter(env, s, Init(s.stack), LabelIf, a, if Last(s.stack) != 0 then t else e);
    }
  }

  lemma TypedIf<W>(env: Env<W>, s: Struct<W>)
    requires s.labels != [] && s.cur != [] && s.cur[0].If? && TypedFrom(env, s.cur, s.labels, |s.stack|)
    ensures StaysTyped(env, StructStep(env, s))
  {
    hide TypedLabels;
    if Last(s.stack) != 0 {
      TypedEnter(env, s, Init(s.stack), LabelIf, s.cur[0].arity, s.cur[0].thn);
    }
  }

  // One step

  /** A step at the end of a block: END pops it, ELSE goes to its END first. */
  lemma EndStep<W>(env: Env<W>, code: seq<Cell>, f: Flat<W>, s: Struct<W>)
    requires Related(code, f, s) && s.cur == []
    requires |s.stack| == Last(s.labels).height + Last(s.labels).arity
    ensures InstrAt(code, f.ip)
    ensures if code[f.ip].instr == Else then
              FlatStep(env, code, f).Running? && Related(code, FlatStep(env, code, f).state, s)
              && IsEnd(code, FlatStep(env, code, f).state.ip)
            else RelatedOutcomes(code, FlatStep(env, code, f), StructStep(env, s))
  {
    hide Holds, WellFormed;
    var l := Last(s.labels);
    assert Emit(s.cur) == [];
    assert Closes(code, f.ip, s.labels, f.ctrl);
    if IsElse(code, f.ip) {
      EmitNothing(code, Last(f.ctrl).target);
      assert AtEnd(code, Last(f.ctrl).target, s.labels, f.ctrl);
    } else {
      assert AtEnd(code, f.ip, s.labels, f.ctrl);
      OuterLabel(code, f.ip, s.labels, f.ctrl);
      if |s.labels| > 1 {
        assert Unwound(s.stack, l.height, l.arity) == s.stack;
      }
    }
  }

  /** The function's own label is at the bottom of both stacks. */
  lemma {:induction false} OuterLabel(code: seq<Cell>, e: nat, labels: seq<Label>, ctrl: seq<BlockInfo>)
    requires |labels| == |ctrl| > 0 && AtEnd(code, e, labels, ctrl)
    ensures labels[0].kind == LabelFunction && Agrees(labels[0], ctrl[0]) && ctrl[0].target + 1 == |code|
    decreases |labels|
  {
    if |labels| > 1 {
      hide Holds, Emit, WellFormed;
      var t, ls, cs := e + 1 + |Emit(Last(labels).rest)|, Init(labels), Init(ctrl);
      OuterLabel(code, if AtEnd(code, t, ls, cs) then t else Last(cs).target, ls, cs);
    }
  }

  /** A branch: both machines leave the same blocks and find the same label. */
  lemma BranchStep<W>(code: seq<Cell>, f: Flat<W>, s: Struct<W>, stack: seq<cell>, t: nat, d: nat)
    requires |s.labels| == |f.ctrl| > 0 && f.world == s.world && Closes(code, t, s.labels, f.ctrl)
    ensures RelatedOutcomes(code, BlockPopTo(f, stack, d), StructBranch(s, stack, d))
  {
    hide At;
    if d < |s.labels| {
      AtOuter(code, t, s.labels, f.ctrl, d);
    }
  }

  /** The rest of the statements follows the first. */
  lemma NextAt(code: seq<Cell>, ip: nat, cur: seq<Stmt>, labels: seq<Label>, ctrl: seq<BlockInfo>)
    requires At(code, ip, cur, labels, ctrl) && cur != []
    ensures Holds(code, ip, EmitFirst(cur)) && At(code, ip + |EmitFirst(cur)|, cur[1..], labels, ctrl)
  {
    hide Holds, Emit, EmitFirst, Closes;
    EmitCons(code, ip, cur);
  }

  lemma OuterArity(code: seq<Cell>, ip: nat, cur: seq<Stmt>, labels: seq<Label>, ctrl: seq<BlockInfo>)
    requires At(code, ip, cur, labels, ctrl)
    ensures ctrl[0].cells == labels[0].arity
  {
    hide Holds, Emit, WellFormed;
    var t := ip + |Emit(cur)|;
    OuterLabel(code, if AtEnd(code, t, labels, ctrl) then t else Last(ctrl).target, labels, ctrl);
  }

  lemma LeafStep<W>(env: Env<W>, code: seq<Cell>, f: Flat<W>, s: Struct<W>)
    requires Related(code, f, s) && s.cur != [] && s.cur[0].Leaf?
    ensures RelatedOutcomes(code, FlatStep(env, code, f), StructStep(env, s))
  {
    hide At, Holds, Emit, EmitFirst, WellFormed, Closes, BlockPopTo, StructBranch, ScanAt, Matching;
    LeafLayout(code, f.ip, s.cur, s.labels, f.ctrl);
    var t := f.ip + |Emit(s.cur)|;
    assert FlatStep(env, code, f) == FlatLeaf(env, code, f) && StructStep(env, s) == StructLeaf(env, s, s.cur[0].instr);
    match s.cur[0].instr
    case Br(d) => BranchStep(code, f, s, s.stack, t, d);
    case BrIf(d) =>
      if s.stack != [] {
        BranchStep(code, f, s, Init(s.stack), t, d);
      }
    case BrTable(ds, last) =>
      if s.stack != [] {
        BranchStep(code, f, s, Init(s.stack), t, TableDepth(ds, last, Last(s.stack)));
      }
    case _ =>
  }

  lemma LeafLayout(code: seq<Cell>, ip: nat, cur: seq<Stmt>, labels: seq<Label>, ctrl: seq<BlockInfo>)
    requires At(code, ip, cur, labels, ctrl) && cur != [] && cur[0].Leaf?
    ensures |labels| == |ctrl| > 0 && ctrl[0].cells == labels[0].arity && Closes(code, ip + |Emit(cur)|, labels, ctrl)
    ensures InstrAt(code, ip) && IsLeaf(code[ip].instr) && code[ip].instr == cur[0].instr
    ensures At(code, NextAddr(code, ip), cur[1..], labels, ctrl)
  {
    hide At, Holds, Emit, EmitFirst, Closes, WellFormed;
    AtParts(code, ip, cur, labels, ctrl);
    NextAt(code, ip, cur, labels, ctrl);
    LeafPart(code, ip, cur);
    assert At(code, NextAddr(code, ip), cur[1..], labels, ctrl);
    WellFormedParts(cur);
    OuterArity(code, ip, cur, labels, ctrl);
  }

  lemma AtParts(code: seq<Cell>, ip: nat, cur: seq<Stmt>, labels: seq<Label>, ctrl: seq<BlockInfo>)
    requires At(code, ip, cur, labels, ctrl)
    ensures |labels| == |ctrl| > 0 && WellFormed(cur) && Closes(code, ip + |Emit(cur)|, labels, ctrl)
  {
    hide WellFormed, Closes, Emit, Holds;
  }

  lemma BlockLayout(code: seq<Cell>, ip: nat, cur: seq<Stmt>, labels: seq<Label>, ctrl: seq<BlockInfo>, h: nat)
    requires At(code, ip, cur, labels, ctrl) && cur != [] && cur[0].Block?
    ensures InstrAt(code, ip) && code[ip].instr == BlockStart(cur[0].arity) && Matching(code, NextAddr(code, ip)).Some?
    ensures var q, b := NextAddr(code, ip), cur[0].body;
            At(code, q, b, labels + [Label(LabelBlock, cur[0].arity, h, b, cur[1..])],
               ctrl + [BlockInfo(Matching(code, q).value.end, h, cur[0].arity, LabelBlock)])
  {
    hide Holds, Emit, EmitFirst, Closes, Matching, WellFormed, ScanAt;
    NextAt(code, ip, cur, labels, ctrl);
    FirstParts(code, ip, cur);
    WellFormedParts(cur);
    var a, b := cur[0].arity, cur[0].body;
    MatchingOf(code, ip, BlockStart(a), b);
    var e := ip + 2 + |Emit(b)|;
    EnterAt(code, ip + 2, b, e, Label(LabelBlock, a, h, b, cur[1..]), BlockInfo(e, h, a, LabelBlock), labels, ctrl);
  }

  lemma LoopLayout(code: seq<Cell>, ip: nat, cur: seq<Stmt>, labels: seq<Label>, ctrl: seq<BlockInfo>, h: nat)
    requires At(code, ip, cur, labels, ctrl) && cur != [] && cur[0].Loop?
    ensures InstrAt(code, ip) && code[ip].instr == LoopStart(cur[0].arity)
    ensures var q, b := NextAddr(code, ip), cur[0].body;
            At(code, q, b, labels + [Label(LabelLoop, cur[0].arity, h, b, cur[1..])],
               ctrl + [BlockInfo(q, h, cur[0].arity, LabelLoop)])
  {
    hide Holds, Emit, EmitFirst, Closes, WellFormed;
    NextAt(code, ip, cur, labels, ctrl);
    FirstParts(code, ip, cur);
    WellFormedParts(cur);
    var a, b := cur[0].arity, cur[0].body;
    var e := ip + 2 + |Emit(b)|;
    EnterAt(code, ip + 2, b, e, Label(LabelLoop, a, h, b, cur[1..]), BlockInfo(ip + 2, h, a, LabelLoop), labels, ctrl);
  }

  lemma IfLayout(code: seq<Cell>, ip: nat, cur: seq<Stmt>, labels: seq<Label>, ctrl: seq<BlockInfo>, h: nat)
    requires At(code, ip, cur, labels, ctrl) && cur != [] && cur[0].If?
    ensures InstrAt(code, ip) && code[ip].instr == IfStart(cur[0].arity)
    ensures var q, t, m := NextAddr(code, ip), cur[0].thn, Matching(code, NextAddr(code, ip));
            && m.Some? && m.value.els.None? && At(code, m.value.end + 1, cur[1..], labels, ctrl)
            && At(code, q, t, labels + [Label(LabelIf, cur[0].arity, h, t, cur[1..])],
                  ctrl + [BlockInfo(m.value.end, h, cur[0].arity, LabelIf)])
  {
    hide Holds, Emit, EmitFirst, Closes, Matching, WellFormed, ScanAt;
    NextAt(code, ip, cur, labels, ctrl);
    FirstParts(code, ip, cur);
    WellFormedParts(cur);
    var a, t := cur[0].arity, cur[0].thn;
    MatchingOf(code, ip, IfStart(a), t);
    var e := ip + 2 + |Emit(t)|;
    EnterAt(code, ip + 2, t, e, Label(LabelIf, a, h, t, cur[1..]), BlockInfo(e, h, a, LabelIf), labels, ctrl);
  }

  lemma IfElseLayout(code: seq<Cell>, ip: nat, cur: seq<Stmt>, labels: seq<Label>, ctrl: seq<BlockInfo>, h: nat)
    requires At(code, ip, cur, labels, ctrl) && cur != [] && cur[0].IfElse?
    ensures InstrAt(code, ip) && code[ip].instr == IfStart(cur[0].arity)
    ensures var q, t, els, m := NextAddr(code, ip), cur[0].thn, cur[0].els, Matching(code, NextAddr(code, ip));
            && m.Some? && m.value.els.Some?
            && var ctrl' := ctrl + [BlockInfo(m.value.end, h, cur[0].arity, LabelIf)];
               && At(code, q, t, labels + [Label(LabelIf, cur[0].arity, h, t, cur[1..])], ctrl')
               && At(code, m.value.els.value + 1, els, labels + [Label(LabelIf, cur[0].arity, h, els, cur[1..])], ctrl')
  {
    hide Holds, Emit, EmitFirst, Closes, Matching, WellFormed, ScanAt;
    NextAt(code, ip, cur, labels, ctrl);
    FirstParts(code, ip, cur);
    WellFormedParts(cur);
    var a, t, els := cur[0].arity, cur[0].thn, cur[0].els;
    MatchingOfElse(code, ip, IfStart(a), t, els);
    var elseAt := ip + 2 + |Emit(t)|;
    var e := elseAt + 1 + |Emit(els)|;
    var b := BlockInfo(e, h, a, LabelIf);
    EnterAt(code, ip + 2, t, e, Label(LabelIf, a, h, t, cur[1..]), b, labels, ctrl);
    EnterAt(code, elseAt + 1, els, e, Label(LabelIf, a, h, els, cur[1..]), b, labels, ctrl);
  }

  lemma BlockStep<W>(env: Env<W>, code: seq<Cell>, f: Flat<W>, s: Struct<W>)
    requires Related(code, f, s) && s.cur != [] && (s.cur[0].Block? || s.cur[0].Loop?)
    ensures RelatedOutcomes(code, FlatStep(env, code, f), StructStep(env, s))
  {
    AtParts(code, f.ip, s.cur, s.labels, f.ctrl);
    hide At, ScanAt, Matching, FlatLeaf, StructLeaf, WellFormed, Closes, Emit;
    var a, h := s.cur[0].arity, |s.stack|;
    if s.cur[0].Block? {
      BlockLayout(code, f.ip, s.cur, s.labels, f.ctrl, h);
      var q := NextAddr(code, f.ip);
      var g := f.(ip := q, ctrl := f.ctrl + [BlockInfo(Matching(code, q).value.end, h, a, LabelBlock)]);
      assert FlatStep(env, code, f) == Running(g);
      assert Related(code, g, Enter(s, s.stack, LabelBlock, a, s.cur[0].body));
    } else {
      LoopLayout(code, f.ip, s.cur, s.labels, f.ctrl, h);
      var q := NextAddr(code, f.ip);
      var g := f.(ip := q, ctrl := f.ctrl + [BlockInfo(q, h, a, LabelLoop)]);
      assert FlatStep(env, code, f) == Running(g);
      assert Related(code, g, Enter(s, s.stack, LabelLoop, a, s.cur[0].body));
    }
  }

  lemma IfStep<W>(env: Env<W>, code: seq<Cell>, f: Flat<W>, s: Struct<W>)
    requires Related(code, f, s) && s.cur != [] && (s.cur[0].If? || s.cur[0].IfElse?)
    ensures RelatedOutcomes(code, FlatStep(env, code, f), StructStep(env, s))
  {
    hide At, ScanAt, Matching, FlatLeaf, StructLeaf, WellFormed, Closes, Emit;
    AtParts(code, f.ip, s.cur, s.labels, f.ctrl);
    var a, t, h := s.cur[0].arity, s.cur[0].thn, if |s.stack| > 0 then |s.stack| - 1 else 0;
    if s.cur[0].If? {
      IfLayout(code, f.ip, s.cur, s.labels, f.ctrl, h);
    } else {
      IfElseLayout(code, f.ip, s.cur, s.labels, f.ctrl, h);
    }
    if s.stack != [] {
      var q, stack := NextAddr(code, f.ip), Init(s.stack);
      var m := Matching(code, q).value;
      var entered := f.(stack := stack, ctrl := f.ctrl + [BlockInfo(m.end, h, a, LabelIf)]);
      if Last(s.stack) != 0 {
        assert FlatStep(env, code, f) == Running(entered.(ip := q));
        assert Related(code, entered.(ip := q), Enter(s, stack, LabelIf, a, t));
      } else if s.cur[0].If? {
        assert FlatStep(env, code, f) == Running(f.(ip := m.end + 1, stack := stack));
      } else {
        assert FlatStep(env, code, f) == Running(entered.(ip := m.els.value + 1));
        assert Related(code, entered.(ip := m.els.value + 1), Enter(s, stack, LabelIf, a, s.cur[0].els));
      }
    }
  }

  /** A step inside a block: both machines do the same. */
  lemma StmtStep<W>(env: Env<W>, code: seq<Cell>, f: Flat<W>, s: Struct<W>)
    requires Related(code, f, s) && s.cur != []
    ensures RelatedOutcomes(code, FlatStep(env, code, f), StructStep(env, s))
  {
    hide Related, FlatStep, StructStep;
    if s.cur[0].Leaf? {
      LeafStep(env, code, f, s);
    } else if s.cur[0].Block? || s.cur[0].Loop? {
      BlockStep(env, code, f, s);
    } else {
      IfStep(env, code, f, s);
    }
  }

  // Whole runs

  /** An instruction met with the operand stack of the moment. */
  datatype Visit = Visit(instr: Instr, stack: seq<cell>)

  datatype Run<S, W> = Run(visits: seq<Visit>, outcome: Outcome<S, W>)

  /** What the structured machine meets: a statement's first instruction, or the end of a block. */
  function Met<W>(s: Struct<W>): (v: Visit) {
    Visit(if s.cur == [] then End
          else
            match s.cur[0]
            case Leaf(i, _) => i
            case Block(a, _) => BlockStart(a)
            case Loop(a, _) => LoopStart(a)
            case If(a, _) => IfStart(a)
            case IfElse(a, _, _) => IfStart(a), s.stack)
  }

  /** At most `n` steps. */
  function StructRun<W>(env: Env<W>, s: Struct<W>, n: nat): (r: Run<Struct<W>, W>)
    requires s.labels != []
    decreases n
  {
    if n == 0 then Run([], Running(s))
    else
      match StructStep(env, s)
      case Running(t) =>
        var rest := StructRun(env, t, n - 1);
        Run([Met(s)] + rest.visits, rest.outcome)
      case halted => Run([Met(s)], halted)
  }

  /** At most `n` steps; the jump from an ELSE to the END of its block is not a visit. */
  function FlatRun<W>(env: Env<W>, code: seq<Cell>, f: Flat<W>, n: nat): (r: Run<Flat<W>, W>)
    requires f.ctrl != []
    decreases n
  {
    if n == 0 then Run([], Running(f))
    else
      var here := if !InstrAt(code, f.ip) || code[f.ip].instr == Else then [] else [Visit(code[f.ip].instr, f.stack)];
      match FlatStep(env, code, f)
      case Running(g) =>
        var rest := FlatRun(env, code, g, n - 1);
        Run(here + rest.visits, rest.outcome)
      case Returned(v, w) => Run(here, Returned(v, w))
      case Trapped => Run(here, Trapped)
      case Stuck => Run(here, Stuck)
  }

  /** Both machines are at the same instruction, unless the flat one is at an ELSE. */
  lemma SameVisit<W>(code: seq<Cell>, f: Flat<W>, s: Struct<W>)
    requires Related(code, f, s)
    ensures s.labels != [] && f.ctrl != [] && InstrAt(code, f.ip)
    ensures s.cur != [] ==> code[f.ip].instr != Else
    ensures code[f.ip].instr != Else ==> Visit(code[f.ip].instr, f.stack) == Met(s)
  {
    hide Holds, Emit, WellFormed, EmitFirst, ScanAt;
    AtParts(code, f.ip, s.cur, s.labels, f.ctrl);
    if s.cur == [] {
      assert Emit([]) == [] by { EmitNothing(code, 0); }
      assert Closes(code, f.ip, s.labels, f.ctrl);
    } else {
      hide Closes;
      NextAt(code, f.ip, s.cur, s.labels, f.ctrl);
      FirstParts(code, f.ip, s.cur);
      WellFormedParts(s.cur);
    }
  }

  /**
   The flat machine refines the structured one: in any number of steps it meets the same
   instructions with the same operand stacks, ends the same way, never gets stuck, and its
   control stack always describes exactly the enclosing labels.
   */
  lemma {:induction false} FlatRefinesStructured<W(!new)>(env: Env<W>, code: seq<Cell>, f: Flat<W>, s: Struct<W>, n: nat)
    requires ValidEnv(env) && Related(code, f, s) && TypedFrom(env, s.cur, s.labels, |s.stack|)
    ensures f.ctrl != [] && s.labels != []
    ensures var r := FlatRun(env, code, f, n);
            var m := |r.visits|;
            && m <= n && r.visits == StructRun(env, s, m).visits
            && RelatedOutcomes(code, r.outcome, StructRun(env, s, m).outcome) && !r.outcome.Stuck?
            && (r.outcome.Running? && !(InstrAt(code, f.ip) && code[f.ip].instr == Else) ==> n <= 2 * m)
            && (r.outcome.Running? ==> n <= 2 * m + 1)
    decreases n
  {
    hide TypedFrom, Related, FlatStep, StructStep, ValidEnv, Met, NextAddr;
    SameVisit(code, f, s);
    if n > 0 {
      if s.cur == [] {
        TypedEnd(env, s);
        EndStep(env, code, f, s);
      } else {
        StmtStep(env, code, f, s);
      }
      TypedStep(env, s);
      var a, b := FlatStep(env, code, f), StructStep(env, s);
      if code[f.ip].instr == Else {
        FlatRefinesStructured(env, code, a.state, s, n - 1);
        assert FlatRun(env, code, f, n).visits == FlatRun(env, code, a.state, n - 1).visits;
      } else if a.Running? {
        FlatRefinesStructured(env, code, a.state, b.state, n - 1);
        ConsVisits(Met(s), FlatRun(env, code, a.state, n - 1).visits);
      }
    }
  }

  lemma ConsVisits(v: Visit, rest: seq<Visit>)
    ensures |[v] + rest| == |rest| + 1
  {
  }

  lemma {:induction false} HaltedStays<W>(env: Env<W>, s: Struct<W>, k: nat, m: nat)
    requires s.labels != [] && k <= m && !StructRun(env, s, k).outcome.Running?
    ensures StructRun(env, s, m) == StructRun(env, s, k)
    decreases k
  {
    hide StructStep;
    if k > 0 {
      match StructStep(env, s)
      case Running(t) => HaltedStays(env, t, k - 1, m - 1);
      case _ =>
    }
  }

  /** A function body: its bytes end with the END of the function. */
  function FunctionCode(body: seq<Stmt>): (code: seq<Cell>) {
    Emit(body) + END
  }

  /** How `interpret` starts a function: one control entry, for the function itself. */
  function FlatStart<W>(body: seq<Stmt>, results: nat, world: W): (f: Flat<W>) {
    Flat(0, [], [BlockInfo(|Emit(body)|, 0, results, LabelFunction)], world)
  }

  function StructStart<W>(body: seq<Stmt>, results: nat, world: W): (s: Struct<W>) {
    Struct(body, [], [Label(LabelFunction, results, 0, [], [])], world)
  }

  lemma StartsRelated<W>(env: Env<W>, body: seq<Stmt>, results: nat, world: W)
    requires WellFormed(body) && Typed(env, body, [results], 0, results)
    ensures Related(FunctionCode(body), FlatStart(body, results, world), StructStart(body, results, world))
    ensures TypedFrom(env, body, StructStart(body, results, world).labels, 0)
  {
    hide Emit, WellFormed;
    var code, f, s := FunctionCode(body), FlatStart(body, results, world), StructStart(body, results, world);
    assert code[0..|Emit(body)|] == Emit(body);
    assert Holds(code, 0, Emit(body)) && IsEnd(code, |Emit(body)|);
    assert AtEnd(code, |Emit(body)|, s.labels, f.ctrl);
    assert Arities(s.labels) == [results];
  }

  /** Every run of a well-typed function is a run of its structure, and one halts exactly when the other does. */
  lemma FunctionRefines<W(!new)>(env: Env<W>, body: seq<Stmt>, results: nat, world: W, n: nat)
    requires ValidEnv(env) && WellFormed(body) && Typed(env, body, [results], 0, results)
    ensures var r, s := FlatRun(env, FunctionCode(body), FlatStart(body, results, world), n), StructStart(body, results, world);
            && !r.outcome.Stuck? && r.visits == StructRun(env, s, |r.visits|).visits
            && RelatedOutcomes(FunctionCode(body), r.outcome, StructRun(env, s, |r.visits|).outcome)
    ensures var s := StructRun(env, StructStart(body, results, world), n);
            !s.outcome.Running? ==>
              RelatedOutcomes(FunctionCode(body), FlatRun(env, FunctionCode(body), FlatStart(body, results, world), 2 * n + 1).outcome, s.outcome)
  {
    hide FlatRun, StructRun, Related, TypedFrom, Typed, FunctionCode;
    var code, f, s := FunctionCode(body), FlatStart(body, results, world), StructStart(body, results, world);
    StartsRelated(env, body, results, world);
    FlatRefinesStructured(env, code, f, s, n);
    if !StructRun(env, s, n).outcome.Running? {
      FlatRefinesStructured(env, code, f, s, 2 * n + 1);
      var m := |FlatRun(env, code, f, 2 * n + 1).visits|;
      if m >= n {
        HaltedStays(env, s, n, m);
      } else {
        HaltedStays(env, s, m, n);
      }
    }
  }
}
