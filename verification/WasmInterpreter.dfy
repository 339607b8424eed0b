/**
 The Wasm interpreter's control state: the block-address cache filled while scanning, the
 control stack and the operand stack. Each step is the flat machine's step, and a cached
 address is always the one a fresh scan would find.
 */
module WasmInterpreter {
  import opened Basics
  import opened WasmCode
  import opened WasmControl

  datatype CacheValue = CacheValue(els: Option<nat>, end: Option<nat>)

  type Cache = map<nat, CacheValue>

  /** A complete entry: what an uncached scan from `start` finds. */
  predicate EntryOk(code: seq<Cell>, start: nat, v: CacheValue) {
    v.end.Some? && Matching(code, start) == Some(Match(v.els, v.end.value))
  }

  predicate CacheOk(code: seq<Cell>, cache: Cache) {
    forall k :: k in cache ==> EntryOk(code, k, cache[k])
  }

  /** The entry of a block still open: it has the ELSE seen so far, or is complete from an earlier scan. */
  predicate OpenEntryOk(code: seq<Cell>, cache: Cache, start: nat, els: Option<nat>) {
    if start !in cache then els.None?
    else if els.Some? then cache[start].els == els
    else EntryOk(code, start, cache[start])
  }

  /** Level `l` of the scan: what is left of the scan from its start is the scan from here. */
  predicate LevelOk(code: seq<Cell>, cache: Cache, ptr: nat, starts: seq<nat>, elses: seq<Option<nat>>, l: nat)
    requires |starts| == |elses| && l < |starts|
  {
    && Matching(code, starts[l]) == ScanAt(code, ptr, |starts| - l, elses[l])
    && OpenEntryOk(code, cache, starts[l], elses[l])
    && starts[l] <= ptr
  }

  predicate Increasing(starts: seq<nat>) {
    forall i, j :: 0 <= i < j < |starts| ==> starts[i] < starts[j]
  }

  /** The state of a scan: the blocks open, innermost last, and a cache complete for all others. */
  predicate Scanning(code: seq<Cell>, cache: Cache, ptr: nat, starts: seq<nat>, elses: seq<Option<nat>>) {
    && |starts| == |elses| && Increasing(starts)
    && (forall l: nat :: l < |starts| ==> LevelOk(code, cache, ptr, starts, elses, l))
    && forall k :: k in cache && k !in starts ==> EntryOk(code, k, cache[k])
  }

  lemma PassLeaf(code: seq<Cell>, cache: Cache, ptr: nat, starts: seq<nat>, elses: seq<Option<nat>>)
    requires Scanning(code, cache, ptr, starts, elses) && InstrAt(code, ptr) && IsLeaf(code[ptr].instr)
    ensures Scanning(code, cache, NextAddr(code, ptr), starts, elses)
  {
    hide ScanAt, OpenEntryOk, EntryOk;
    var q := NextAddr(code, ptr);
    forall l: nat | l < |starts|
      ensures LevelOk(code, cache, q, starts, elses, l)
    {
      assert LevelOk(code, cache, ptr, starts, elses, l);
      ScanStep(code, ptr, |starts| - l, elses[l]);
    }
  }

  lemma OpenBlock(code: seq<Cell>, cache: Cache, ptr: nat, starts: seq<nat>, elses: seq<Option<nat>>)
    requires Scanning(code, cache, ptr, starts, elses) && InstrAt(code, ptr) && IsOpener(code[ptr].instr)
    ensures var q := NextAddr(code, ptr); Scanning(code, cache, q, starts + [q], elses + [None])
  {
    hide ScanAt, EntryOk;
    var q := NextAddr(code, ptr);
    var starts', elses' := starts + [q], elses + [None];
    forall l: nat | l < |starts|
      ensures LevelOk(code, cache, q, starts', elses', l) && starts[l] < q
    {
      assert LevelOk(code, cache, ptr, starts, elses, l);
      ScanStep(code, ptr, |starts| - l, elses[l]);
    }
    assert q !in starts;
    assert LevelOk(code, cache, q, starts', elses', |starts|);
    assert forall k :: k in starts ==> k in starts';
  }

  lemma SeeElse(code: seq<Cell>, cache: Cache, ptr: nat, starts: seq<nat>, elses: seq<Option<nat>>, v: CacheValue)
    requires Scanning(code, cache, ptr, starts, elses) && |starts| > 0
    requires InstrAt(code, ptr) && code[ptr].instr == Else && v.els == Some(ptr)
    ensures Scanning(code, cache[Last(starts) := v], NextAddr(code, ptr), starts, Init(elses) + [Some(ptr)])
  {
    hide ScanAt, EntryOk;
    var q, top := NextAddr(code, ptr), |starts| - 1;
    var elses', cache' := Init(elses) + [Some(ptr)], cache[Last(starts) := v];
    forall l: nat | l < |starts|
      ensures LevelOk(code, cache', q, starts, elses', l)
    {
      assert LevelOk(code, cache, ptr, starts, elses, l);
      ScanStep(code, ptr, |starts| - l, elses[l]);
      assert l < top ==> starts[l] != starts[top];
    }
    assert Last(starts) in starts;
  }

  /** END: the innermost block's entry becomes complete. */
  lemma CloseBlock(code: seq<Cell>, cache: Cache, ptr: nat, starts: seq<nat>, elses: seq<Option<nat>>, v: CacheValue)
    requires Scanning(code, cache, ptr, starts, elses) && |starts| > 0
    requires InstrAt(code, ptr) && code[ptr].instr == End
    requires v.end == Some(ptr) && v.els == if Last(starts) in cache then cache[Last(starts)].els else None
    ensures EntryOk(code, Last(starts), v)
    ensures Scanning(code, cache[Last(starts) := v], NextAddr(code, ptr), Init(starts), Init(elses))
  {
    hide ScanAt;
    var q, top := NextAddr(code, ptr), |starts| - 1;
    var s := starts[top];
    assert LevelOk(code, cache, ptr, starts, elses, top);
    ScanStep(code, ptr, 1, elses[top]);
    assert EntryOk(code, s, v);
    var starts', elses', cache' := Init(starts), Init(elses), cache[s := v];
    forall l: nat | l < top
      ensures LevelOk(code, cache', q, starts', elses', l)
    {
      assert LevelOk(code, cache, ptr, starts, elses, l) && starts[l] != s;
      ScanStep(code, ptr, |starts| - l, elses[l]);
    }
    forall k | k in cache' && k !in starts'
      ensures EntryOk(code, k, cache'[k])
    {
      if k != s {
        assert k !in starts by { assert starts == starts' + [s]; }
      }
    }
  }

  class BaseInterpreter<W> {
    const code: seq<Cell>
    var blockAddrCache: Cache
    var ip: nat
    var stack: seq<cell>
    var ctrl: seq<BlockInfo>
    var world: W

    /** The machine state the fields represent. */
    function State(): (f: Flat<W>)
      reads this
    {
      Flat(ip, stack, ctrl, world)
    }

    /** A function about to run: one control entry, whose target is the function's last byte. */
    constructor (code: seq<Cell>, results: nat, world: W)
      requires code != []
      ensures this.code == code && CacheOk(code, blockAddrCache)
      ensures State() == Flat(0, [], [BlockInfo(|code| - 1, 0, results, LabelFunction)], world)
    {
      this.code := code;
      blockAddrCache := map[];
      ip, stack, ctrl := 0, [], [BlockInfo(|code| - 1, 0, results, LabelFunction)];
      this.world := world;
    }

    /**
     The ELSE and END of the block whose body starts at `start`, from the cache or by a scan
     that also fills in the nested blocks. The code must be well nested from `start` on.
     */
    method FindBlockAddr(start: nat) returns (els: Option<nat>, end: nat)
      requires CacheOk(code, blockAddrCache) && Matching(code, start).Some?
      modifies `blockAddrCache
      ensures CacheOk(code, blockAddrCache) && Matching(code, start) == Some(Match(els, end))
      ensures start in blockAddrCache
      ensures forall k :: k in old(blockAddrCache) ==> k in blockAddrCache && blockAddrCache[k] == old(blockAddrCache)[k]
    {
      if start in blockAddrCache {
        assert EntryOk(code, start, blockAddrCache[start]);
        return blockAddrCache[start].els, blockAddrCache[start].end.value;
      }
      hide ScanAt;
      var ptr := start;
      var starts := [start];
      ghost var elses: seq<Option<nat>> := [None];
      assert LevelOk(code, blockAddrCache, ptr, starts, elses, 0);
      while true
        invariant |starts| > 0 && starts[0] == start && Scanning(code, blockAddrCache, ptr, starts, elses)
        invariant old(blockAddrCache).Keys <= blockAddrCache.Keys
        decreases |code| - ptr
      {
        assert LevelOk(code, blockAddrCache, ptr, starts, elses, 0);
        ScanHasInstr(code, ptr, |starts|, elses[0]);
        var instr, next := code[ptr].instr, NextAddr(code, ptr);
        var top := Last(starts);
        if IsOpener(instr) {
          OpenBlock(code, blockAddrCache, ptr, starts, elses);
          starts, elses := starts + [next], elses + [None];
        } else if instr == Else {
          var v := CacheValue(Some(ptr), if top in blockAddrCache then blockAddrCache[top].end else None);
          SeeElse(code, blockAddrCache, ptr, starts, elses, v);
          blockAddrCache := blockAddrCache[top := v];
          elses := Init(elses) + [Some(ptr)];
        } else if instr == End {
          var v := CacheValue(if top in blockAddrCache then blockAddrCache[top].els else None, Some(ptr));
          CloseBlock(code, blockAddrCache, ptr, starts, elses, v);
          blockAddrCache := blockAddrCache[top := v];
          starts, elses := Init(starts), Init(elses);
          if |starts| == 0 {
            SameEntries(code, old(blockAddrCache), blockAddrCache);
            return v.els, ptr;
          }
        } else {
          PassLeaf(code, blockAddrCache, ptr, starts, elses);
        }
        ptr := next;
      }
    }

    /** Enter a block whose values start at `height`. */
    method BlockPush(target: nat, height: nat, cells: nat, kind: LabelType)
      modifies `ctrl
      ensures ctrl == old(ctrl) + [BlockInfo(target, height, cells, kind)]
    {
      ctrl := ctrl + [BlockInfo(target, height, cells, kind)];
    }

    /** Leave the innermost block by falling through its END. */
    method BlockPopInner()
      requires |ctrl| > 1
      modifies `ctrl
      ensures ctrl == Init(old(ctrl))
    {
      ctrl := ctrl[..|ctrl| - 1];
    }

    /** Branch out of `depth` blocks: the label's entry stays, its results move down to its base. */
    method BlockPop(depth: nat)
      requires BlockPopTo(State(), stack, depth).Running?
      modifies `ctrl, `stack, `ip
      ensures State() == BlockPopTo(old(State()), old(stack), depth).state
      ensures depth < |old(ctrl)| && ctrl == old(ctrl)[..|old(ctrl)| - depth] && ip == ctrl[|ctrl| - 1].target
      ensures var b := ctrl[|ctrl| - 1]; KeepsTop(old(stack), b.height, if b.kind == LabelLoop then 0 else b.cells, stack)
    {
      var valuesEnd := |stack|;
      ctrl := ctrl[..|ctrl| - depth];
      var cur := ctrl[|ctrl| - 1];
      ip := cur.target;
      if cur.kind != LabelLoop {
        stack := stack[..cur.height] + stack[valuesEnd - cur.cells..];
      } else {
        stack := stack[..cur.height];
      }
    }

    method ValuePop() returns (v: cell)
      requires stack != []
      modifies `stack
      ensures v == Last(old(stack)) && stack == Init(old(stack))
    {
      v := stack[|stack| - 1];
      stack := stack[..|stack| - 1];
    }

    /** What a step's status and the new fields say is what the flat machine does. */
    ghost predicate Did(status: Status<W>, r: Outcome<Flat<W>, W>)
      reads this
    {
      match r
      case Running(g) => status == Going && State() == g
      case Returned(v, w) => status == Done(v, w)
      case Trapped => status == Trapping
      case Stuck => false
    }

    method StepLeaf(env: Env<W>) returns (status: Status<W>)
      requires InstrAt(code, ip) && ctrl != [] && IsLeaf(code[ip].instr) && !FlatLeaf(env, code, State()).Stuck?
      modifies `ctrl, `stack, `ip, `world
      ensures Did(status, FlatLeaf(env, code, old(State())))
    {
      hide KeepsTop;
      var instr := code[ip].instr;
      var next := NextAddr(code, ip);
      status := Going;
      match instr {
        case Plain(op) =>
          var n := env.pops(op);
          var r := env.exec(op, stack[|stack| - n..], world);
          if r.Trap? {
            return Trapping;
          }
          ip, stack, world := next, stack[..|stack| - n] + r.results, r.world;
        case Br(d) =>
          BlockPop(d);
        case BrIf(d) =>
          var cond := ValuePop();
          if cond != 0 {
            BlockPop(d);
          } else {
            ip := next;
          }
        case BrTable(ds, last) =>
          var index := ValuePop();
          BlockPop(if index < |ds| then ds[index] else last);
        case Return =>
          return Done(stack[|stack| - ctrl[0].cells..], world);
        case Unreachable =>
          return Trapping;
      }
    }

    /** One instruction; code the loader has accepted is never stuck. */
    method Step(env: Env<W>) returns (status: Status<W>)
      requires CacheOk(code, blockAddrCache) && ctrl != [] && !FlatStep(env, code, State()).Stuck?
      modifies this
      ensures CacheOk(code, blockAddrCache) && Did(status, FlatStep(env, code, old(State())))
    {
      hide Matching, ScanAt, FlatLeaf, CacheOk;
      var instr := code[ip].instr;
      var next := NextAddr(code, ip);
      status := Going;
      match instr {
        case BlockStart(a) =>
          var els, end := FindBlockAddr(next);
          BlockPush(end, |stack|, a, LabelBlock);
          ip := next;
        case LoopStart(a) =>
          BlockPush(next, |stack|, a, LabelLoop);
          ip := next;
        case IfStart(a) =>
          var cond := ValuePop();
          var els, end := FindBlockAddr(next);
          if cond != 0 {
            BlockPush(end, |stack|, a, LabelIf);
            ip := next;
          } else if els.None? {
            ip := end + 1;
          } else {
            BlockPush(end, |stack|, a, LabelIf);
            ip := els.value + 1;
          }
        case Else =>
          ip := ctrl[|ctrl| - 1].target;
        case End =>
          if |ctrl| > 1 {
            BlockPopInner();
            ip := next;
          } else {
            return Done(stack[|stack| - ctrl[0].cells..], world);
          }
        case _ =>
          status := StepLeaf(env);
      }
    }
  }

  datatype Status<W> = Going | Done(values: seq<cell>, world: W) | Trapping

  lemma ScanHasInstr(code: seq<Cell>, p: nat, d: nat, e: Option<nat>)
    requires ScanAt(code, p, d, e).Some?
    ensures InstrAt(code, p) && d > 0
  {
  }

  /** Two caches that agree with fresh scans agree with each other. */
  lemma SameEntries(code: seq<Cell>, a: Cache, b: Cache)
    requires CacheOk(code, a) && CacheOk(code, b)
    ensures forall k :: k in a && k in b ==> a[k] == b[k]
  {
    forall k | k in a && k in b
      ensures a[k] == b[k]
    {
      assert EntryOk(code, k, a[k]) && EntryOk(code, k, b[k]);
    }
  }

  /** The status of a run, as an outcome of the structured machine. */
  predicate Reports<S, W(==)>(status: Status<W>, r: Outcome<S, W>) {
    match r
    case Running(_) => status == Going
    case Returned(v, w) => status == Done(v, w)
    case Trapped => status == Trapping
    case Stuck => false
  }

  /**
   Run a well-typed function for at most `limit` instructions. The interpreter never gets
   stuck, and after `steps` instructions, the jumps from ELSE to END not counted, it has
   returned, trapped or is still going as the function's structure prescribes.
   */
  method Interpret<W(!new)>(env: Env<W>, body: seq<Stmt>, results: nat, world: W, limit: nat)
    returns (status: Status<W>, steps: nat)
    requires ValidEnv(env) && WellFormed(body) && Typed(env, body, [results], 0, results)
    ensures steps <= limit && Reports(status, StructRun(env, StructStart(body, results, world), steps).outcome)
    ensures status == Going ==> limit <= 2 * steps + 1
  {
    hide FlatRun, FlatStep, StructRun, FunctionCode, Related, TypedFrom, CacheOk, WellFormed, Typed;
    ghost var f0, s0 := FlatStart(body, results, world), StructStart(body, results, world);
    StartsRelated(env, body, results, world);
    FunctionEnd(body);
    var interp := new BaseInterpreter(FunctionCode(body), results, world);
    status, steps := Going, 0;
    var n := 0;
    FlatRunNone(env, interp.code, f0);
    while n < limit
      invariant n <= limit && status == Going && interp.ctrl != [] && CacheOk(interp.code, interp.blockAddrCache)
      invariant interp.code == FunctionCode(body) && FlatRun(env, interp.code, f0, n).outcome == Running(interp.State())
      invariant steps == |FlatRun(env, interp.code, f0, n).visits|
    {
      FlatRefinesStructured(env, interp.code, f0, s0, n);
      FlatRefinesStructured(env, interp.code, f0, s0, n + 1);
      FlatRunMore(env, interp.code, f0, n, interp.State());
      if InstrAt(interp.code, interp.ip) && interp.code[interp.ip].instr != Else {
        steps := steps + 1;
      }
      status := interp.Step(env);
      n := n + 1;
      if !status.Going? {
        break;
      }
    }
    FlatRefinesStructured(env, interp.code, f0, s0, n);
  }

  lemma FunctionEnd(body: seq<Stmt>)
    ensures |FunctionCode(body)| - 1 == |Emit(body)| && FunctionCode(body) != []
  {
    hide Emit;
  }

  lemma FlatRunNone<W>(env: Env<W>, code: seq<Cell>, f: Flat<W>)
    requires f.ctrl != []
    ensures FlatRun(env, code, f, 0) == Run([], Running(f))
  {
  }

  /** The last step of a longer run. */
  lemma {:induction false} FlatRunMore<W>(env: Env<W>, code: seq<Cell>, f: Flat<W>, n: nat, g: Flat<W>)
    requires f.ctrl != [] && g.ctrl != [] && FlatRun(env, code, f, n).outcome == Running(g)
    ensures FlatRun(env, code, f, n + 1).outcome == FlatStep(env, code, g)
    ensures |FlatRun(env, code, f, n + 1).visits| == |FlatRun(env, code, f, n).visits| +
              if InstrAt(code, g.ip) && code[g.ip].instr != Else then 1 else 0
    decreases n
  {
    hide FlatStep;
    if n > 0 {
      FlatRunMore(env, code, FlatStep(env, code, f).state, n - 1, g);
    }
  }
}
