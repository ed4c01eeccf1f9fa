/** Process control over the kernel trace facility (src/ptrace_wrapper.cpp).

    The kernel is seen through three things: the statuses successive
    `waitpid(pid, ...)` calls deliver, the set of trace requests it refuses,
    and the log of the requests the tracer issued. `waitpid` on one pid
    returns that pid or -1, so a delivery is either a failure or a status
    of the target itself. */
module Control {
  import opened Wrappers

  /** Signal numbers on Linux. */
  const SIGTRAP: int := 5
  const SIGCHLD: int := 17

  datatype Request = Cont | Interrupt | SingleStep | Attach | Seize

  /** What the `WIFSTOPPED`/`WIFEXITED` macros make of a status. */
  datatype Status = Stopped(sig: int) | Exited(code: int) | OtherStatus(raw: int)

  datatype WaitResult = WaitFailed | Reaped(status: Status)

  datatype Kernel = Kernel(waits: seq<WaitResult>, issued: seq<Request>, refused: set<Request>)

  /** The outcome of one wrapper call and the kernel after it. */
  datatype Step = Step(result: Result<()>, after: Kernel)

  /** `ptrace(req, pid, 0, 0)`: the request is issued; it succeeds unless
      the kernel refuses it. */
  function Issue(k: Kernel, req: Request): (s: Step)
    ensures s.after == k.(issued := k.issued + [req])
    ensures s.result.Ok? <==> req !in k.refused
    ensures s.result.Err? ==> s.result.error == Ptrace
  {
    Step(if req in k.refused then Err(Ptrace) else Ok(()), k.(issued := k.issued + [req]))
  }

  /** `waitpid`: takes the next delivery; with none left it fails. */
  function NextWait(k: Kernel): (WaitResult, Kernel)
  {
    if k.waits == [] then (WaitFailed, k) else (k.waits[0], k.(waits := k.waits[1..]))
  }

  /** `ptrace_condition`: PTRACE_CONT, raising on refusal. */
  function ContSpec(k: Kernel): Step
  {
    Issue(k, Cont)
  }

  /** `ptrace_wait`: a SIGTRAP stop returns, a SIGCHLD stop is continued and
      waited for again, any other stop, an unexpected status or a failed
      `waitpid` raises PtraceException, and an exit raises
      TerminateException. */
  function WaitSpec(k: Kernel): Step
    decreases |k.waits|
  {
    if k.waits == [] then Step(Err(Ptrace), k)
    else
      var k1 := k.(waits := k.waits[1..]);
      match k.waits[0]
      case WaitFailed => Step(Err(Ptrace), k1)
      case Reaped(Stopped(sig)) =>
        if sig == SIGTRAP then Step(Ok(()), k1)
        else if sig == SIGCHLD then
          var c := ContSpec(k1);
          if c.result.Err? then c else WaitSpec(c.after)
        else Step(Err(Ptrace), k1)
      case Reaped(Exited(_)) => Step(Err(Terminate), k1)
      case Reaped(OtherStatus(_)) => Step(Err(Ptrace), k1)
  }

  /** `ptrace_interrupt` and `ptrace_single_step`: issue the request, then
      wait for the stop it causes. */
  function RequestThenWait(k: Kernel, req: Request): Step
  {
    var s := Issue(k, req);
    if s.result.Err? then s else WaitSpec(s.after)
  }

  /** `ptrace_attach`: PTRACE_ATTACH, then one `waitpid` that must report a
      stop of the target. */
  function AttachSpec(k: Kernel): Step
  {
    var s := Issue(k, Attach);
    if s.result.Err? then s
    else
      var (w, k1) := NextWait(s.after);
      if w.Reaped? && w.status.Stopped? then Step(Ok(()), k1) else Step(Err(Ptrace), k1)
  }

  // ---------------------------------------------------------------------------
  // What the wait loop consumes and issues

  function Repeat(n: nat, r: Request): (s: seq<Request>)
    ensures |s| == n && forall i :: 0 <= i < n ==> s[i] == r
  {
    if n == 0 then [] else Repeat(n - 1, r) + [r]
  }

  /** How many SIGCHLD stops lead the queue. */
  function LeadingChld(ws: seq<WaitResult>): (n: nat)
    ensures n <= |ws|
    ensures forall i :: 0 <= i < n ==> ws[i] == Reaped(Stopped(SIGCHLD))
    ensures n < |ws| ==> ws[n] != Reaped(Stopped(SIGCHLD))
  {
    if ws == [] || ws[0] != Reaped(Stopped(SIGCHLD)) then 0 else 1 + LeadingChld(ws[1..])
  }

  /** The verdict `ptrace_wait` gives on the first delivery that is not a
      SIGCHLD stop (or on finding none). */
  function Verdict(ws: seq<WaitResult>, n: nat): Result<()>
  {
    if n >= |ws| then Err(Ptrace)
    else match ws[n]
      case Reaped(Stopped(sig)) => if sig == SIGTRAP then Ok(()) else Err(Ptrace)
      case Reaped(Exited(_)) => Err(Terminate)
      case _ => Err(Ptrace)
  }

  /** While continuing is allowed, `ptrace_wait` consumes the leading SIGCHLD
      stops, issues exactly one PTRACE_CONT for each, consumes one more
      delivery and stops there: it returns normally exactly when that
      delivery is a SIGTRAP stop, and raises TerminateException exactly when
      it is an exit. */
  lemma {:induction false} WaitConsumes(k: Kernel)
    requires Cont !in k.refused
    decreases |k.waits|
    ensures var n := LeadingChld(k.waits);
      var s := WaitSpec(k);
      && s.after.issued == k.issued + Repeat(n, Cont)
      && s.after.refused == k.refused
      && s.after.waits == (if n < |k.waits| then k.waits[n + 1..] else [])
      && s.result == Verdict(k.waits, n)
  {
    var n := LeadingChld(k.waits);
    if k.waits != [] && k.waits[0] == Reaped(Stopped(SIGCHLD)) {
      var k1 := k.(waits := k.waits[1..], issued := k.issued + [Cont]);
      assert WaitSpec(k) == WaitSpec(k1);
      WaitConsumes(k1);
      assert LeadingChld(k1.waits) == n - 1;
      assert Repeat(n, Cont) == [Cont] + Repeat(n - 1, Cont);
      assert k.issued + Repeat(n, Cont) == k1.issued + Repeat(n - 1, Cont);
      if n < |k.waits| {
        assert k1.waits[n - 1 + 1..] == k.waits[n + 1..];
      }
      assert Verdict(k1.waits, n - 1) == Verdict(k.waits, n);
    }
  }

  /** The wait loop adds nothing but PTRACE_CONT requests to the log, even
      when continuing is refused. */
  lemma {:induction false} WaitIssuesOnlyCont(k: Kernel)
    decreases |k.waits|
    ensures var s := WaitSpec(k);
      && |k.issued| <= |s.after.issued|
      && s.after.issued[..|k.issued|] == k.issued
      && (forall i :: |k.issued| <= i < |s.after.issued| ==> s.after.issued[i] == Cont)
      && s.after.refused == k.refused
  {
    if k.waits != [] && k.waits[0] == Reaped(Stopped(SIGCHLD)) {
      var k1 := k.(waits := k.waits[1..], issued := k.issued + [Cont]);
      if Cont !in k.refused {
        WaitIssuesOnlyCont(k1);
        var s := WaitSpec(k1);
        assert s.after.issued[..|k.issued|] == s.after.issued[..|k1.issued|][..|k.issued|];
      }
    }
  }

  /** A refused request raises before anything is waited for. */
  lemma RefusedRequestSkipsWait(k: Kernel, req: Request)
    requires req in k.refused
    ensures RequestThenWait(k, req) == Step(Err(Ptrace), k.(issued := k.issued + [req]))
  {
  }

  // ---------------------------------------------------------------------------
  // The traced process as the tracer sees it

  class Tracee {
    var waits: seq<WaitResult>
    var issued: seq<Request>
    const refused: set<Request>

    function State(): Kernel
      reads this
    {
      Kernel(waits, issued, refused)
    }

    constructor (pending: seq<WaitResult>, refuses: set<Request>)
      ensures State() == Kernel(pending, [], refuses)
    {
      waits := pending;
      issued := [];
      refused := refuses;
    }

    /** `ptrace(req, pid, 0, 0) == 0`. */
    method Ptrace(req: Request) returns (ok: bool)
      modifies this
      ensures var s := Issue(old(State()), req);
        State() == s.after && ok == s.result.Ok?
    {
      issued := issued + [req];
      ok := req !in refused;
    }

    /** `waitpid(pid, &status, options)`. */
    method WaitPid() returns (w: WaitResult)
      modifies this
      ensures (w, State()) == NextWait(old(State()))
    {
      if waits == [] {
        w := WaitFailed;
      } else {
        w := waits[0];
        waits := waits[1..];
      }
    }
  }

  /** `ptrace_condition`. */
  method PtraceCont(t: Tracee) returns (r: Result<()>)
    modifies t
    ensures Step(r, t.State()) == ContSpec(old(t.State()))
  {
    var ok := t.Ptrace(Cont);
    if !ok {
      return Err(Ptrace);
    }
    return Ok(());
  }

  /** `ptrace_wait`: the `for(;;)` loop over kernel notifications. */
  method PtraceWait(t: Tracee) returns (r: Result<()>)
    modifies t
    ensures Step(r, t.State()) == WaitSpec(old(t.State()))
  {
    while true
      invariant WaitSpec(t.State()) == WaitSpec(old(t.State()))
      decreases |t.waits|
    {
      var w := t.WaitPid();
      if w.WaitFailed? {
        return Err(Ptrace);
      }
      match w.status
      case Stopped(sig) =>
        if sig == SIGTRAP {
          return Ok(());
        } else if sig == SIGCHLD {
          var c := PtraceCont(t);
          if c.Err? {
            return c;
          }
        } else {
          return Err(Ptrace);
        }
      case Exited(_) =>
        return Err(Terminate);
      case OtherStatus(_) =>
        return Err(Ptrace);
    }
  }

  /** `ptrace_interrupt`. */
  method PtraceInterrupt(t: Tracee) returns (r: Result<()>)
    modifies t
    ensures Step(r, t.State()) == RequestThenWait(old(t.State()), Interrupt)
  {
    var ok := t.Ptrace(Interrupt);
    if !ok {
      return Err(Ptrace);
    }
    r := PtraceWait(t);
  }

  /** `ptrace_single_step`. */
  method PtraceSingleStep(t: Tracee) returns (r: Result<()>)
    modifies t
    ensures Step(r, t.State()) == RequestThenWait(old(t.State()), SingleStep)
  {
    var ok := t.Ptrace(SingleStep);
    if !ok {
      return Err(Ptrace);
    }
    r := PtraceWait(t);
  }

  /** `ptrace_attach`. */
  method PtraceAttach(t: Tracee) returns (r: Result<()>)
    modifies t
    ensures Step(r, t.State()) == AttachSpec(old(t.State()))
  {
    var ok := t.Ptrace(Attach);
    if !ok {
      return Err(Ptrace);
    }
    var w := t.WaitPid();
    if !(w.Reaped? && w.status.Stopped?) {
      return Err(Ptrace);
    }
    return Ok(());
  }

  /** Attaching succeeds exactly when the kernel accepts the request and the
      next delivery is a stop of the target, whatever its signal. */
  lemma AttachMeaning(k: Kernel)
    ensures AttachSpec(k).result.Ok? <==>
      Attach !in k.refused && k.waits != [] && k.waits[0].Reaped? && k.waits[0].status.Stopped?
  {
  }
}
