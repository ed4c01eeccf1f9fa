/** The walks over the target's interpreter structures
    (src/python_frame.cpp): a thread's frame chain through `f_back`, and the
    interpreter's thread-state list through `next`.

    Neither walk in the source has a bound or a cycle guard. Each
    specification function takes a step budget and `Diverge`s when the
    budget runs out; the methods carry the budget as a ghost and are asked
    only for walks that end within it. */
module Walker {
  import opened Wrappers
  import opened Remote
  import opened Layout
  import opened LineTable
  import opened Frames
  import opened Addresses

  // ---------------------------------------------------------------------------
  // Strings

  /** `StringData`: the bytes of the string object at `obj`, up to its
      first NUL. */
  method StringData(mem: Memory, obj: Word, ghost fuel: nat) returns (r: Result<seq<byte>>)
    requires !CStringFrom(mem, ByteData(obj), 0, fuel).Diverge?
    ensures Lift(r) == CStringFrom(mem, ByteData(obj), 0, fuel)
  {
    r := PeekString(mem, ByteData(obj), fuel);
  }

  // ---------------------------------------------------------------------------
  // One frame

  /** A frame as reported, and the frame it was called from. */
  datatype Entry = Entry(frame: PyFrame, back: Word)

  /** One iteration of `trace_py_frames`: the code object, its file name,
      its function name, the line, then `f_back`. */
  function FrameAt(mem: Memory, frame: Word, fuel: nat): (r: Run<Entry>)
    ensures r.Done? ==> r.value.frame.addr == frame
    ensures r.Done? ==> Add(frame, F_BACK) in mem && r.value.back == mem[Add(frame, F_BACK)]
    ensures r.Fail? ==> r.error == Ptrace
  {
    var code :- Lift(Read(mem, Add(frame, F_CODE)));
    var fileObj :- Lift(Read(mem, Add(code, CO_FILENAME)));
    var file :- CStringFrom(mem, ByteData(fileObj), 0, fuel);
    var nameObj :- Lift(Read(mem, Add(code, CO_NAME)));
    var name :- CStringFrom(mem, ByteData(nameObj), 0, fuel);
    var line :- Lift(LineSpec(mem, frame, code));
    var back :- Lift(Read(mem, Add(frame, F_BACK)));
    Done(Entry(PyFrame(frame, file, name, line), back))
  }

  /** The body of the `do`-loop of `trace_py_frames`. */
  method FrameEntry(mem: Memory, frame: Word, ghost fuel: nat) returns (r: Result<Entry>)
    requires !FrameAt(mem, frame, fuel).Diverge?
    ensures Lift(r) == FrameAt(mem, frame, fuel)
  {
    var code := PeekPtr(mem, Add(frame, F_CODE));
    if code.Err? {
      return Err(code.error);
    }
    var fileObj := PeekPtr(mem, Add(code.value, CO_FILENAME));
    if fileObj.Err? {
      return Err(fileObj.error);
    }
    var file := StringData(mem, fileObj.value, fuel);
    if file.Err? {
      return Err(file.error);
    }
    var nameObj := PeekPtr(mem, Add(code.value, CO_NAME));
    if nameObj.Err? {
      return Err(nameObj.error);
    }
    var name := StringData(mem, nameObj.value, fuel);
    if name.Err? {
      return Err(name.error);
    }
    var line := GetLine(mem, frame, code.value);
    if line.Err? {
      return Err(line.error);
    }
    var back := PeekPtr(mem, Add(frame, F_BACK));
    if back.Err? {
      return Err(back.error);
    }
    return Ok(Entry(PyFrame(frame, file.value, name.value, line.value), back.value));
  }

  // ---------------------------------------------------------------------------
  // The frame chain

  /** `trace_py_frames` from `frame`: one entry per frame object, following
      `f_back` until it is null. Any failed read fails the whole walk. */
  function FramesFrom(mem: Memory, frame: Word, fuel: nat): Run<seq<PyFrame>>
    decreases fuel
  {
    if fuel == 0 then Diverge
    else
      var e :- FrameAt(mem, frame, fuel);
      if e.back == 0 then Done([e.frame])
      else PrependRun([e.frame], FramesFrom(mem, e.back, fuel - 1))
  }

  /** `fs` follows the `f_back` chain: each next entry is the frame the
      previous one's `f_back` names, and the last one's `f_back` is null. */
  predicate Chained(mem: Memory, fs: seq<PyFrame>)
  {
    && (forall i :: 0 <= i < |fs| - 1 ==> Linked(mem, fs[i], fs[i + 1].addr))
    && (|fs| > 0 ==> Linked(mem, fs[|fs| - 1], 0))
  }

  /** The `f_back` word of frame `f` reads as `back`. */
  predicate Linked(mem: Memory, f: PyFrame, back: Word)
  {
    Read(mem, Add(f.addr, F_BACK)) == Ok(back)
  }

  /** A walk that finishes lists the frames along the `f_back` chain: it is
      non-empty, starts at the given frame, follows `f_back`, and only its
      last `f_back` is null. */
  lemma {:induction false} FramesChain(mem: Memory, frame: Word, fuel: nat)
    requires FramesFrom(mem, frame, fuel).Done?
    decreases fuel
    ensures var fs := FramesFrom(mem, frame, fuel).value;
      && |fs| > 0
      && fs[0].addr == frame
      && Chained(mem, fs)
      && (forall i :: 0 < i < |fs| ==> fs[i].addr != 0)
  {
    var e := FrameAt(mem, frame, fuel).value;
    FramesStep(mem, frame, fuel, e);
    if e.back != 0 {
      FramesChain(mem, e.back, fuel - 1);
      var rest := FramesFrom(mem, e.back, fuel - 1).value;
      ChainedCons(mem, e.frame, rest);
    }
  }

  lemma ChainedCons(mem: Memory, f: PyFrame, rest: seq<PyFrame>)
    requires |rest| > 0 && Chained(mem, rest) && Linked(mem, f, rest[0].addr)
    requires forall i :: 0 < i < |rest| ==> rest[i].addr != 0
    requires rest[0].addr != 0
    ensures Chained(mem, [f] + rest)
    ensures forall i :: 0 < i < |[f] + rest| ==> ([f] + rest)[i].addr != 0
  {
    var fs := [f] + rest;
    forall i | 0 <= i < |fs| - 1
      ensures Linked(mem, fs[i], fs[i + 1].addr)
    {
      if i > 0 {
        assert fs[i] == rest[i - 1] && fs[i + 1] == rest[i];
      }
    }
    assert fs[|fs| - 1] == rest[|rest| - 1];
  }

  /** A walk fails only with PtraceException: no partial list is ever
      returned. */
  lemma {:induction false} FramesFailOnlyOnPeek(mem: Memory, frame: Word, fuel: nat)
    requires FramesFrom(mem, frame, fuel).Fail?
    decreases fuel
    ensures FramesFrom(mem, frame, fuel).error == Ptrace
  {
    var e := FrameAt(mem, frame, fuel);
    if e.Done? && e.value.back != 0 {
      FramesFailOnlyOnPeek(mem, e.value.back, fuel - 1);
    }
  }

  lemma FramesStep(mem: Memory, frame: Word, fuel: nat, e: Entry)
    requires fuel > 0 && FrameAt(mem, frame, fuel) == Done(e)
    ensures FramesFrom(mem, frame, fuel) ==
      if e.back == 0 then Done([e.frame]) else PrependRun([e.frame], FramesFrom(mem, e.back, fuel - 1))
  {
  }

  /** The whole walk, given the frames listed so far, `result`, and the
      frame to go on from. */
  ghost function Pending(mem: Memory, frame: Word, f: nat, result: seq<PyFrame>): Run<seq<PyFrame>>
  {
    PrependRun(result, FramesFrom(mem, frame, f))
  }

  /** How one pass of the `do`-loop of `trace_py_frames` keeps the loop's
      account `spec` of the result: when that account does not run out of
      budget, there is budget left, and the walk either fails with this
      frame, ends with it, or goes on from its `f_back` with the budget
      `g`, one less. */
  lemma FramesWalkStep(mem: Memory, frame: Word, f: nat, g: int, result: seq<PyFrame>, spec: Run<seq<PyFrame>>)
    requires g == f - 1
    ensures Pending(mem, frame, f, result) == spec && !spec.Diverge? ==>
      && g >= 0 && !FrameAt(mem, frame, f).Diverge?
      && var e := FrameAt(mem, frame, f);
      && (e.Fail? ==> spec == Fail(e.error))
      && (e.Done? && e.value.back == 0 ==> spec == Done(result + [e.value.frame]))
      && (e.Done? && e.value.back != 0 ==> Pending(mem, e.value.back, g, result + [e.value.frame]) == spec)
  {
    var e := FrameAt(mem, frame, f);
    if f > 0 && e.Done? {
      FramesStep(mem, frame, f, e.value);
      if e.value.back != 0 {
        PrependRunAssoc(result, [e.value.frame], FramesFrom(mem, e.value.back, f - 1));
      }
    }
  }

  /** One pass of the `do`-loop of `trace_py_frames`, with what it means
      for the loop's account `spec` of the whole walk; `g` is the budget
      left for the rest of the walk. */
  method NextFrame(mem: Memory, frame: Word, ghost f: nat, ghost result: seq<PyFrame>, ghost spec: Run<seq<PyFrame>>)
    returns (e: Result<Entry>, ghost g: nat)
    requires Pending(mem, frame, f, result) == spec && !spec.Diverge?
    ensures Lift(e) == FrameAt(mem, frame, f) && g < f
    ensures e.Err? ==> spec == Fail(e.error)
    ensures e.Ok? && e.value.back == 0 ==> spec == Done(result + [e.value.frame])
    ensures e.Ok? && e.value.back != 0 ==> Pending(mem, e.value.back, g, result + [e.value.frame]) == spec
  {
    ghost var left: int := f - 1;
    FramesWalkStep(mem, frame, f, left, result, spec);
    g := left;
    e := FrameEntry(mem, frame, f);
  }

  /** `trace_py_frames`: the `do { ... } while (frame_addr)` loop. The step
      budget `fuel` is ghost: it also bounds each string read. */
  method TracePyFrames(mem: Memory, start: Word, ghost fuel: nat) returns (r: Result<seq<PyFrame>>)
    requires !FramesFrom(mem, start, fuel).Diverge?
    ensures Lift(r) == FramesFrom(mem, start, fuel)
  {
    var result: seq<PyFrame> := [];
    var frame := start;
    ghost var f: nat := fuel;
    ghost var spec := FramesFrom(mem, start, fuel);
    PrependRunNil(spec);
    while true
      invariant !spec.Diverge? && Pending(mem, frame, f, result) == spec
      decreases f
    {
      var e, g := NextFrame(mem, frame, f, result, spec);
      if e.Err? {
        return Err(e.error);
      }
      result := result + [e.value.frame];
      frame := e.value.back;
      if frame == 0 {
        return Ok(result);
      }
      f := g;
    }
  }

  // ---------------------------------------------------------------------------
  // Choosing where the thread list starts

  /** The thread state that held the interpreter lock when the dump began
      (`current_tstate`), and the thread state the list walk starts from. */
  datatype Start = Start(current: Word, walk: Word)

  /** The interpreter state: through the current thread state's `interp`
      if there is one, else through `interp_head_addr` if known, else the
      hint itself. */
  function InterpState(mem: Memory, addrs: PyAddresses, tstate: Word): Result<Word>
  {
    if tstate != 0 then Read(mem, Add(tstate, TS_INTERP))
    else if addrs.interpHeadAddr != 0 then Read(mem, addrs.interpHeadAddr)
    else Ok(addrs.interpHeadHint)
  }

  /** The first part of `trace_py_threads`. */
  function StartSpec(mem: Memory, addrs: PyAddresses, enable: bool): (r: Result<Start>)
    ensures r.Err? ==> r.error == Ptrace
  {
    var tstate :- Read(mem, addrs.tstateAddr);
    if !enable then Ok(Start(tstate, tstate))
    else
      var istate :- InterpState(mem, addrs, tstate);
      if istate == 0 then Ok(Start(tstate, tstate))
      else
        var head :- Read(mem, Add(istate, IS_TSTATE_HEAD));
        Ok(Start(tstate, head))
  }

  /** The current thread state is always the word at `tstate_addr`; with
      threads disabled the walk starts there too. */
  lemma StartCurrent(mem: Memory, addrs: PyAddresses, enable: bool)
    ensures StartSpec(mem, addrs, enable).Ok? ==>
      addrs.tstateAddr in mem && StartSpec(mem, addrs, enable).value.current == mem[addrs.tstateAddr]
    ensures !enable ==>
      StartSpec(mem, addrs, enable) ==
        if addrs.tstateAddr in mem then Ok(Start(mem[addrs.tstateAddr], mem[addrs.tstateAddr])) else Err(Ptrace)
  {
  }

  /** The order in which the interpreter state is found: a non-null current
      thread state makes `interp_head_addr` and the hint irrelevant; failing
      that, a known `interp_head_addr` makes the hint irrelevant; failing
      that, the hint is used as the interpreter state without being
      dereferenced. A non-null interpreter state replaces the start by its
      `tstate_head`; a null one keeps the current thread state. */
  lemma StartChoice(mem: Memory, addrs: PyAddresses, head: Word, hint: Word)
    requires addrs.tstateAddr in mem
    ensures var t := mem[addrs.tstateAddr];
      t != 0 ==> (StartSpec(mem, addrs, true) ==
        StartSpec(mem, addrs.(interpHeadAddr := head, interpHeadHint := hint), true))
    ensures var t := mem[addrs.tstateAddr];
      t == 0 && addrs.interpHeadAddr != 0 ==> (StartSpec(mem, addrs, true) ==
        StartSpec(mem, addrs.(interpHeadHint := hint), true))
    ensures var t := mem[addrs.tstateAddr];
      var h := addrs.interpHeadHint;
      t == 0 && addrs.interpHeadAddr == 0 && h != 0 ==> (StartSpec(mem, addrs, true) ==
        if Add(h, IS_TSTATE_HEAD) in mem then Ok(Start(0, mem[Add(h, IS_TSTATE_HEAD)])) else Err(Ptrace))
    ensures var t := mem[addrs.tstateAddr];
      InterpState(mem, addrs, t) == Ok(0) ==> StartSpec(mem, addrs, true) == Ok(Start(t, t))
    ensures var t := mem[addrs.tstateAddr];
      var i := InterpState(mem, addrs, t);
      i.Ok? && i.value != 0 ==> (StartSpec(mem, addrs, true) ==
        if Add(i.value, IS_TSTATE_HEAD) in mem then Ok(Start(t, mem[Add(i.value, IS_TSTATE_HEAD)])) else Err(Ptrace))
  {
  }

  // ---------------------------------------------------------------------------
  // The thread list

  /** One node of the list: an entry when its frame pointer is non-null,
      nothing otherwise. */
  function ThreadAt(mem: Memory, tstate: Word, current: Word, fuel: nat): (r: Run<seq<PyThread>>)
    ensures r.Done? ==> |r.value| <= 1
    ensures r.Done? ==> Add(tstate, TS_FRAME) in mem && Add(tstate, TS_THREAD_ID) in mem
    ensures r.Done? ==> (r.value == [] <==> mem[Add(tstate, TS_FRAME)] == 0)
    ensures r.Done? && r.value != [] ==>
      && r.value[0].isCurrent == (tstate == current)
      && r.value[0].id == mem[Add(tstate, TS_THREAD_ID)]
      && FramesFrom(mem, mem[Add(tstate, TS_FRAME)], fuel) == Done(r.value[0].frames)
  {
    var id :- Lift(Read(mem, Add(tstate, TS_THREAD_ID)));
    var frame :- Lift(Read(mem, Add(tstate, TS_FRAME)));
    if frame == 0 then Done([])
    else
      var fs :- FramesFrom(mem, frame, fuel);
      Done([PyThread(id, tstate == current, fs)])
  }

  /** What one pass of the loop body yields: the node's entry (if any) and
      the node the walk moves to, null when threads are disabled. */
  datatype Visit = Visit(here: seq<PyThread>, next: Word)

  /** One pass of the loop body of `trace_py_threads` at node `tstate`. */
  function VisitAt(mem: Memory, tstate: Word, current: Word, enable: bool, fuel: nat): (r: Run<Visit>)
    ensures r.Done? <==> ThreadAt(mem, tstate, current, fuel).Done? && (enable ==> Add(tstate, TS_NEXT) in mem)
    ensures r.Diverge? <==> ThreadAt(mem, tstate, current, fuel).Diverge?
    ensures r.Done? ==> ThreadAt(mem, tstate, current, fuel) == Done(r.value.here)
    ensures r.Done? ==> r.value.next == if enable then mem[Add(tstate, TS_NEXT)] else 0
  {
    var here :- ThreadAt(mem, tstate, current, fuel);
    if !enable then Done(Visit(here, 0))
    else
      var next :- Lift(Read(mem, Add(tstate, TS_NEXT)));
      Done(Visit(here, next))
  }

  /** The list walk of `trace_py_threads` from `tstate`, with at most
      `count` nodes; every frame walk gets the budget `fuel`. */
  function ThreadsFrom(mem: Memory, tstate: Word, current: Word, enable: bool, count: nat, fuel: nat): Run<seq<PyThread>>
    decreases count
  {
    if tstate == 0 then Done([])
    else if count == 0 then Diverge
    else
      var v :- VisitAt(mem, tstate, current, enable, fuel);
      PrependRun(v.here, ThreadsFrom(mem, v.next, current, enable, count - 1, fuel))
  }

  /** `trace_py_threads`. */
  function ThreadsSpec(mem: Memory, addrs: PyAddresses, enable: bool, count: nat, fuel: nat): Run<seq<PyThread>>
  {
    var s :- Lift(StartSpec(mem, addrs, enable));
    ThreadsFrom(mem, s.walk, s.current, enable, count, fuel)
  }

  /** With threads disabled at most one thread is reported, and it is the
      current one. */
  lemma SingleThreadMode(mem: Memory, addrs: PyAddresses, count: nat, fuel: nat)
    requires ThreadsSpec(mem, addrs, false, count, fuel).Done?
    ensures var ts := ThreadsSpec(mem, addrs, false, count, fuel).value;
      |ts| <= 1 && forall t :: t in ts ==> t.isCurrent
  {
    StartCurrent(mem, addrs, false);
    var s := StartSpec(mem, addrs, false).value;
    if s.walk != 0 {
      var v := VisitAt(mem, s.walk, s.current, false, fuel).value;
      assert ThreadsFrom(mem, s.walk, s.current, false, count, fuel) ==
        PrependRun(v.here, ThreadsFrom(mem, 0, s.current, false, count - 1, fuel));
      assert v.here + [] == v.here;
    }
  }

  /** `nodes` is the `next` chain from `t` up to its null end. */
  predicate NextChain(mem: Memory, t: Word, nodes: seq<Word>)
    decreases |nodes|
  {
    if nodes == [] then t == 0
    else
      && t == nodes[0] && t != 0
      && Add(t, TS_NEXT) in mem
      && NextChain(mem, mem[Add(t, TS_NEXT)], nodes[1..])
  }

  /** The threads along a list of nodes, in list order. */
  function ThreadsAlong(mem: Memory, nodes: seq<Word>, current: Word, fuel: nat): Run<seq<PyThread>>
    decreases |nodes|
  {
    if nodes == [] then Done([])
    else
      var here :- ThreadAt(mem, nodes[0], current, fuel);
      PrependRun(here, ThreadsAlong(mem, nodes[1..], current, fuel))
  }

  /** With threads enabled the walk visits the `next` chain in order,
      one entry per node whose frame pointer is non-null. */
  lemma {:induction false} ThreadsFollowNext(mem: Memory, t: Word, nodes: seq<Word>, current: Word, count: nat, fuel: nat)
    requires NextChain(mem, t, nodes) && |nodes| <= count
    decreases |nodes|
    ensures ThreadsFrom(mem, t, current, true, count, fuel) == ThreadsAlong(mem, nodes, current, fuel)
  {
    if nodes != [] {
      ThreadsFollowNext(mem, mem[Add(t, TS_NEXT)], nodes[1..], current, count - 1, fuel);
    }
  }

  /** One pass of the loop body of `trace_py_threads`: the node's entry,
      appended when its frame pointer is non-null, then the step to `next`
      (or to null when threads are disabled). */
  method VisitThread(mem: Memory, tstate: Word, current: Word, enable: bool, ghost fuel: nat)
    returns (r: Result<Visit>)
    requires !ThreadAt(mem, tstate, current, fuel).Diverge?
    ensures Lift(r) == VisitAt(mem, tstate, current, enable, fuel)
  {
    var id := PeekPtr(mem, Add(tstate, TS_THREAD_ID));
    if id.Err? {
      return Err(id.error);
    }
    var isCurrent := tstate == current;
    var frame := PeekPtr(mem, Add(tstate, TS_FRAME));
    if frame.Err? {
      return Err(frame.error);
    }
    var here: seq<PyThread> := [];
    if frame.value != 0 {
      var fs := TracePyFrames(mem, frame.value, fuel);
      if fs.Err? {
        return Err(fs.error);
      }
      here := [PyThread(id.value, isCurrent, fs.value)];
    }
    var next: Word := 0;
    if enable {
      var n := PeekPtr(mem, Add(tstate, TS_NEXT));
      if n.Err? {
        return Err(n.error);
      }
      next := n.value;
    }
    return Ok(Visit(here, next));
  }

  /** The start of `trace_py_threads`, up to the list walk. */
  method FindStart(mem: Memory, addrs: PyAddresses, enable: bool) returns (r: Result<Start>)
    ensures r == StartSpec(mem, addrs, enable)
  {
    var first := PeekPtr(mem, addrs.tstateAddr);
    if first.Err? {
      return Err(first.error);
    }
    var tstate := first.value;
    var current := tstate;
    if enable {
      var istate: Word := 0;
      if tstate != 0 {
        var i := PeekPtr(mem, Add(tstate, TS_INTERP));
        if i.Err? {
          return Err(i.error);
        }
        istate := i.value;
      } else if addrs.interpHeadAddr != 0 {
        var i := PeekPtr(mem, addrs.interpHeadAddr);
        if i.Err? {
          return Err(i.error);
        }
        istate := i.value;
      } else if addrs.interpHeadHint != 0 {
        istate := addrs.interpHeadHint;
      }
      if istate != 0 {
        var head := PeekPtr(mem, Add(istate, IS_TSTATE_HEAD));
        if head.Err? {
          return Err(head.error);
        }
        tstate := head.value;
      }
    }
    return Ok(Start(current, tstate));
  }

  /** `trace_py_threads`: find the start, then walk the list. The node
      budget `count` and the frame budget `fuel` are ghost. */
  method TracePyThreads(mem: Memory, addrs: PyAddresses, enable: bool, ghost count: nat, ghost fuel: nat)
    returns (r: Result<seq<PyThread>>)
    requires !ThreadsSpec(mem, addrs, enable, count, fuel).Diverge?
    ensures Lift(r) == ThreadsSpec(mem, addrs, enable, count, fuel)
  {
    var start := FindStart(mem, addrs, enable);
    if start.Err? {
      return Err(start.error);
    }
    r := WalkThreads(mem, start.value.walk, start.value.current, enable, count, fuel);
  }

  /** How one pass of the loop body keeps the loop's account `spec` of the
      result, with `left`, one less than `c`, nodes of budget after it. */
  lemma WalkStep(mem: Memory, tstate: Word, current: Word, enable: bool, c: nat, left: int, fuel: nat,
                 threads: seq<PyThread>, v: Run<Visit>, spec: Run<seq<PyThread>>)
    requires tstate != 0 && c > 0 && left == c - 1 && v == VisitAt(mem, tstate, current, enable, fuel)
    requires PrependRun(threads, ThreadsFrom(mem, tstate, current, enable, c, fuel)) == spec
    ensures left >= 0
    ensures v.Fail? ==> spec == Fail(v.error)
    ensures v.Diverge? ==> spec == Diverge
    ensures v.Done? ==>
      PrependRun(threads + v.value.here, ThreadsFrom(mem, v.value.next, current, enable, left, fuel)) == spec
  {
    if v.Done? {
      PrependRunAssoc(threads, v.value.here, ThreadsFrom(mem, v.value.next, current, enable, c - 1, fuel));
    }
  }

  /** A walk that does not run out of budget has budget left at every
      non-null node. */
  lemma WalkNeedsBudget(mem: Memory, tstate: Word, current: Word, enable: bool, c: nat, fuel: nat,
                        threads: seq<PyThread>, spec: Run<seq<PyThread>>)
    requires tstate != 0 && !spec.Diverge?
    requires PrependRun(threads, ThreadsFrom(mem, tstate, current, enable, c, fuel)) == spec
    ensures c > 0
  {
  }

  /** The `while (tstate != nullptr)` loop of `trace_py_threads`. */
  method WalkThreads(mem: Memory, first: Word, current: Word, enable: bool, ghost count: nat, ghost fuel: nat)
    returns (r: Result<seq<PyThread>>)
    requires !ThreadsFrom(mem, first, current, enable, count, fuel).Diverge?
    ensures Lift(r) == ThreadsFrom(mem, first, current, enable, count, fuel)
  {
    var tstate := first;
    var threads: seq<PyThread> := [];
    ghost var c: nat := count;
    ghost var spec := ThreadsFrom(mem, first, current, enable, count, fuel);
    PrependRunNil(spec);
    while tstate != 0
      invariant !spec.Diverge?
      invariant PrependRun(threads, ThreadsFrom(mem, tstate, current, enable, c, fuel)) == spec
      decreases c
    {
      WalkNeedsBudget(mem, tstate, current, enable, c, fuel, threads, spec);
      ghost var v := VisitAt(mem, tstate, current, enable, fuel);
      ghost var left: int := c - 1;
      WalkStep(mem, tstate, current, enable, c, left, fuel, threads, v, spec);
      var visit := VisitThread(mem, tstate, current, enable, fuel);
      if visit.Err? {
        return Err(visit.error);
      }
      threads := threads + visit.value.here;
      tstate := visit.value.next;
      c := left;
    }
    assert ThreadsFrom(mem, tstate, current, enable, c, fuel) == Done([]);
    assert threads + [] == threads;
    return Ok(threads);
  }
}
