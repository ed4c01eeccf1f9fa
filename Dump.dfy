/** `dump_py_threads` (src/python_frame.cpp): seize the target, stop it,
    retry ABI detection up to fifty times (letting the target run a little
    between attempts), then walk its threads.

    The target changes between attempts, so attempt `i` sees the process
    as `views[i]`; the threads are read from the view of the attempt that
    succeeded, since the target stays stopped from then on. */
module Dump {
  import opened Wrappers
  import opened Remote
  import opened Control
  import opened Addresses
  import opened Frames
  import opened Resolver
  import opened Walker

  /** `max_retry`. */
  const MAX_RETRY: nat := 50

  /** What `detect_python_abi` returns on each attempt. The caller's record
      stays empty until an attempt returns 0 (one that returns 1 leaves it
      as it was), so every attempt starts from the empty record. */
  function Attempts(views: seq<ProcView>, abi: PyABI): (d: seq<Result<Detection>>)
    requires |views| == MAX_RETRY
    ensures |d| == MAX_RETRY
    ensures forall i :: 0 <= i < MAX_RETRY ==> d[i] == DetectAbi(views[i], abi, NoAddresses())
  {
    seq(MAX_RETRY, i requires 0 <= i < MAX_RETRY => DetectAbi(views[i], abi, NoAddresses()))
  }

  /** The attempt whose detection succeeded and the addresses it left. */
  datatype Detected = Detected(attempt: nat, addrs: PyAddresses)

  /** The outcome of the retry loop and the kernel after it. */
  datatype Retry = Retry(result: Result<Detected>, after: Kernel)

  /** The retry loop from attempt `i`: a detection that returns 1 is
      followed, unless it was the last attempt, by PTRACE_CONT and
      `ptrace_interrupt`; the last attempt returning 1 raises
      PtraceException. */
  function RetryFrom(k: Kernel, attempts: seq<Result<Detection>>, i: nat): (r: Retry)
    requires |attempts| == MAX_RETRY && i < MAX_RETRY
    ensures r.result.Ok? ==> i <= r.result.value.attempt < MAX_RETRY
    decreases MAX_RETRY - i
  {
    match attempts[i]
    case Err(e) => Retry(Err(e), k)
    case Ok(d) =>
      if d.rc == 0 then Retry(Ok(Detected(i, d.addrs)), k)
      else if i == MAX_RETRY - 1 then Retry(Err(Ptrace), k)
      else
        var c := ContSpec(k);
        if c.result.Err? then Retry(Err(c.result.error), c.after)
        else
          var w := RequestThenWait(c.after, Interrupt);
          if w.result.Err? then Retry(Err(w.result.error), w.after)
          else RetryFrom(w.after, attempts, i + 1)
  }

  /** The outcome of `dump_py_threads` and the kernel after it. */
  datatype Dumped = Dumped(result: Run<seq<PyThread>>, after: Kernel)

  /** The part of `dump_py_threads` before the thread walk: PTRACE_SEIZE
      and PTRACE_INTERRUPT (no wait), then the retry loop over the given
      detection outcomes. */
  function DetectPhase(k: Kernel, attempts: seq<Result<Detection>>): Retry
    requires |attempts| == MAX_RETRY
  {
    var s := Issue(k, Seize);
    if s.result.Err? then Retry(Err(Ptrace), s.after)
    else
      var n := Issue(s.after, Interrupt);
      if n.result.Err? then Retry(Err(Ptrace), n.after)
      else RetryFrom(n.after, attempts, 0)
  }

  /** `dump_py_threads` with `abi` holding whatever its declaration left in
      it: the detection phase, then the thread walk over the view of the
      successful attempt. */
  function DumpSpec(k: Kernel, views: seq<ProcView>, abi: PyABI, enable: bool, count: nat, fuel: nat): Dumped
    requires |views| == MAX_RETRY
  {
    var r := DetectPhase(k, Attempts(views, abi));
    match r.result
    case Err(e) => Dumped(Fail(e), r.after)
    case Ok(d) => Dumped(ThreadsSpec(views[d.attempt].mem, d.addrs, enable, count, fuel), r.after)
  }

  // ---------------------------------------------------------------------------
  // What the retry loop does

  /** Attempts `lo` to `hi` (exclusive) all returned a non-zero code,
      which `detect_python_abi` only does by returning 1. */
  predicate Refused(attempts: seq<Result<Detection>>, lo: nat, hi: nat)
    requires hi <= |attempts|
  {
    forall j :: lo <= j < hi ==> attempts[j].Ok? && attempts[j].value.rc != 0
  }

  /** The wait loop never adds a PTRACE_INTERRUPT to the log. */
  lemma WaitKeepsInterrupts(k: Kernel)
    ensures multiset(WaitSpec(k).after.issued)[Interrupt] == multiset(k.issued)[Interrupt]
    ensures WaitSpec(k).after.refused == k.refused
  {
    WaitIssuesOnlyCont(k);
    var after := WaitSpec(k).after.issued;
    var extra := after[|k.issued|..];
    assert after == k.issued + extra;
    assert Interrupt !in extra;
  }

  /** A failed attempt that the loop survives: the target is continued and
      interrupted, adding one PTRACE_INTERRUPT, and the next attempt
      follows. */
  lemma RetryStep(k: Kernel, attempts: seq<Result<Detection>>, i: nat)
    requires |attempts| == MAX_RETRY && i < MAX_RETRY
    requires attempts[i].Ok? && attempts[i].value.rc != 0
    requires RetryFrom(k, attempts, i).result.Ok?
    ensures var w := RequestThenWait(ContSpec(k).after, Interrupt);
      && i < MAX_RETRY - 1
      && w.result.Ok?
      && RetryFrom(k, attempts, i) == RetryFrom(w.after, attempts, i + 1)
      && multiset(w.after.issued)[Interrupt] == multiset(k.issued)[Interrupt] + 1
      && w.after.refused == k.refused
  {
    var n := Issue(ContSpec(k).after, Interrupt);
    WaitKeepsInterrupts(n.after);
    assert n.after.issued == k.issued + [Cont, Interrupt];
  }

  /** A successful loop: every earlier attempt returned 1, the successful
      one returned 0 with the addresses the loop hands on, and one
      PTRACE_INTERRUPT was issued per failed attempt. */
  lemma {:induction false} RetrySucceeds(k: Kernel, attempts: seq<Result<Detection>>, i: nat)
    requires |attempts| == MAX_RETRY && i < MAX_RETRY
    requires RetryFrom(k, attempts, i).result.Ok?
    ensures var r := RetryFrom(k, attempts, i);
      var d := r.result.value;
      && Refused(attempts, i, d.attempt)
      && attempts[d.attempt] == Ok(Detection(0, d.addrs))
      && multiset(r.after.issued)[Interrupt] == multiset(k.issued)[Interrupt] + (d.attempt - i)
      && r.after.refused == k.refused
    decreases MAX_RETRY - i
  {
    if attempts[i].value.rc != 0 {
      RetryStep(k, attempts, i);
      RetrySucceeds(RequestThenWait(ContSpec(k).after, Interrupt).after, attempts, i + 1);
    }
  }

  /** `n` rounds of PTRACE_CONT then PTRACE_INTERRUPT. */
  function Rounds(n: nat): (s: seq<Request>)
    ensures |s| == 2 * n
  {
    if n == 0 then [] else [Cont, Interrupt] + Rounds(n - 1)
  }

  /** The kernel after `n` refused attempts each answered by a SIGTRAP
      stop: `n` deliveries consumed, `n` rounds logged. */
  function Exhausted(k: Kernel, n: nat): Kernel
    requires n <= |k.waits|
  {
    k.(waits := k.waits[n..], issued := k.issued + Rounds(n))
  }

  lemma ExhaustedShift(k: Kernel, n: nat)
    requires 0 < n <= |k.waits|
    ensures Exhausted(k.(waits := k.waits[1..], issued := k.issued + [Cont, Interrupt]), n - 1) == Exhausted(k, n)
  {
    assert k.waits[1..][n - 1..] == k.waits[n..];
    assert k.issued + [Cont, Interrupt] + Rounds(n - 1) == k.issued + Rounds(n);
  }

  /** When detection keeps returning 1 and each interrupt is answered by a
      SIGTRAP stop, the loop gives up with PtraceException after the
      attempts left, having continued and interrupted the target once
      between each two of them. */
  lemma {:induction false} RetryExhausts(k: Kernel, attempts: seq<Result<Detection>>, i: nat)
    requires |attempts| == MAX_RETRY && i < MAX_RETRY
    requires Refused(attempts, i, MAX_RETRY)
    requires Cont !in k.refused && Interrupt !in k.refused
    requires |k.waits| >= MAX_RETRY - 1 - i
    requires forall j :: 0 <= j < MAX_RETRY - 1 - i ==> k.waits[j] == Reaped(Stopped(SIGTRAP))
    ensures RetryFrom(k, attempts, i) == Retry(Err(Ptrace), Exhausted(k, MAX_RETRY - 1 - i))
    decreases MAX_RETRY - i
  {
    assert attempts[i].Ok? && attempts[i].value.rc != 0;
    if i == MAX_RETRY - 1 {
      assert k.waits[0..] == k.waits && k.issued + Rounds(0) == k.issued;
    } else {
      var k2 := k.(waits := k.waits[1..], issued := k.issued + [Cont, Interrupt]);
      assert RequestThenWait(ContSpec(k).after, Interrupt) == Step(Ok(()), k2);
      RetryExhausts(k2, attempts, i + 1);
      ExhaustedShift(k, MAX_RETRY - 1 - i);
    }
  }

  // ---------------------------------------------------------------------------
  // What a dump does

  /** A dump that produces threads seized and interrupted the target first,
      found a filled-in record on some attempt after all earlier ones
      returned 1, and walked the threads from the view of that attempt; it
      issued one PTRACE_INTERRUPT more than the number of failed attempts. */
  lemma DumpSucceeds(k: Kernel, views: seq<ProcView>, abi: PyABI, enable: bool, count: nat, fuel: nat)
    requires |views| == MAX_RETRY
    requires DumpSpec(k, views, abi, enable, count, fuel).result.Done?
    ensures Seize !in k.refused && Interrupt !in k.refused
    ensures RetryFrom(k.(issued := k.issued + [Seize, Interrupt]), Attempts(views, abi), 0).result.Ok?
    ensures var r := RetryFrom(k.(issued := k.issued + [Seize, Interrupt]), Attempts(views, abi), 0);
      var d := r.result.value;
      && Refused(Attempts(views, abi), 0, d.attempt)
      && DetectAbi(views[d.attempt], abi, NoAddresses()) == Ok(Detection(0, d.addrs))
      && d.addrs.IsSet()
      && DumpSpec(k, views, abi, enable, count, fuel).result == ThreadsSpec(views[d.attempt].mem, d.addrs, enable, count, fuel)
      && multiset(DumpSpec(k, views, abi, enable, count, fuel).after.issued)[Interrupt] ==
           multiset(k.issued)[Interrupt] + 1 + d.attempt
  {
    var k2 := k.(issued := k.issued + [Seize, Interrupt]);
    assert k2 == Issue(Issue(k, Seize).after, Interrupt).after;
    RetrySucceeds(k2, Attempts(views, abi), 0);
    assert multiset(k2.issued)[Interrupt] == multiset(k.issued)[Interrupt] + 1;
  }

  /** A target on which detection returns 1 on all fifty attempts, with
      every interrupt answered by a SIGTRAP stop, makes the dump raise
      PtraceException after seizing, interrupting, and 49 rounds of
      continuing and interrupting. */
  lemma DumpExhausts(k: Kernel, views: seq<ProcView>, abi: PyABI, enable: bool, count: nat, fuel: nat)
    requires |views| == MAX_RETRY
    requires forall j :: 0 <= j < MAX_RETRY ==>
      DetectAbi(views[j], abi, NoAddresses()).Ok? && DetectAbi(views[j], abi, NoAddresses()).value.rc == 1
    requires Seize !in k.refused && Interrupt !in k.refused && Cont !in k.refused
    requires |k.waits| >= MAX_RETRY - 1
    requires forall j :: 0 <= j < MAX_RETRY - 1 ==> k.waits[j] == Reaped(Stopped(SIGTRAP))
    ensures DumpSpec(k, views, abi, enable, count, fuel) ==
      Dumped(Fail(Ptrace), k.(waits := k.waits[MAX_RETRY - 1..], issued := k.issued + [Seize, Interrupt] + Rounds(MAX_RETRY - 1)))
  {
    var attempts := Attempts(views, abi);
    assert Refused(attempts, 0, MAX_RETRY);
    PhaseExhausts(k, attempts);
  }

  /** The detection phase over attempts that all returned 1. */
  lemma PhaseExhausts(k: Kernel, attempts: seq<Result<Detection>>)
    requires |attempts| == MAX_RETRY && Refused(attempts, 0, MAX_RETRY)
    requires Seize !in k.refused && Interrupt !in k.refused && Cont !in k.refused
    requires |k.waits| >= MAX_RETRY - 1
    requires forall j :: 0 <= j < MAX_RETRY - 1 ==> k.waits[j] == Reaped(Stopped(SIGTRAP))
    ensures DetectPhase(k, attempts) ==
      Retry(Err(Ptrace), k.(waits := k.waits[MAX_RETRY - 1..], issued := k.issued + [Seize, Interrupt] + Rounds(MAX_RETRY - 1)))
  {
    var k2 := k.(issued := k.issued + [Seize, Interrupt]);
    PhaseStart(k, attempts);
    RetryExhausts(k2, attempts, 0);
  }

  /** A target that accepts PTRACE_SEIZE and PTRACE_INTERRUPT goes on to
      the retry loop with both logged. */
  lemma PhaseStart(k: Kernel, attempts: seq<Result<Detection>>)
    requires |attempts| == MAX_RETRY
    requires Seize !in k.refused && Interrupt !in k.refused
    ensures DetectPhase(k, attempts) == RetryFrom(k.(issued := k.issued + [Seize, Interrupt]), attempts, 0)
  {
    assert Issue(Issue(k, Seize).after, Interrupt).after == k.(issued := k.issued + [Seize, Interrupt]);
  }

  /** Detection reads the addresses independently of the ABI slot. */
  lemma AddrsIgnoresSlot(view: ProcView, a: Option<PyABI>, b: Option<PyABI>)
    ensures AddrsSpec(view, a).Ok? <==> AddrsSpec(view, b).Ok?
    ensures AddrsSpec(view, a).Err? ==> AddrsSpec(view, a).error == AddrsSpec(view, b).error
    ensures AddrsSpec(view, a).Ok? ==> AddrsSpec(view, a).value.addrs == AddrsSpec(view, b).value.addrs
  {
  }

  /** `abi` is declared without an initialiser. With the intended
      `PyABI::Unknown` a target whose first detection succeeds is dumped,
      while the same target fails with FatalException when `abi` happens to
      hold a 3.x value. */
  lemma UninitialisedAbi(k: Kernel, views: seq<ProcView>, abi: PyABI, enable: bool, count: nat, fuel: nat)
    requires |views| == MAX_RETRY
    requires abi == Py34 || abi == Py36
    requires Seize !in k.refused && Interrupt !in k.refused
    requires DetectAbi(views[0], Unknown, NoAddresses()).Ok? && DetectAbi(views[0], Unknown, NoAddresses()).value.rc == 0
    ensures DumpSpec(k, views, abi, enable, count, fuel).result == Fail(Fatal)
    ensures DumpSpec(k, views, Unknown, enable, count, fuel).result ==
      ThreadsSpec(views[0].mem, DetectAbi(views[0], Unknown, NoAddresses()).value.addrs, enable, count, fuel)
  {
    AddrsIgnoresSlot(views[0], Some(Unknown), None);
    assert Attempts(views, abi)[0] == Err(Fatal);
  }

  /** With a 3.x value in the uninitialised `abi` no dump ever succeeds. */
  lemma UninitialisedAbiNeverDumps(k: Kernel, views: seq<ProcView>, abi: PyABI, enable: bool, count: nat, fuel: nat)
    requires |views| == MAX_RETRY
    requires abi == Py34 || abi == Py36
    ensures !DumpSpec(k, views, abi, enable, count, fuel).result.Done?
  {
    if DumpSpec(k, views, abi, enable, count, fuel).result.Done? {
      DumpSucceeds(k, views, abi, enable, count, fuel);
      var r := RetryFrom(k.(issued := k.issued + [Seize, Interrupt]), Attempts(views, abi), 0);
      DetectAbiMeaning(views[r.result.value.attempt], abi, NoAddresses());
    }
  }

  // ---------------------------------------------------------------------------
  // The driver

  /** The `for` loop of `dump_py_threads` over detection attempts. */
  method RetryDetect(t: Tracee, views: seq<ProcView>, abi: PyABI) returns (d: Result<Detected>)
    requires |views| == MAX_RETRY
    modifies t
    ensures Retry(d, t.State()) == RetryFrom(old(t.State()), Attempts(views, abi), 0)
  {
    ghost var attempts := Attempts(views, abi);
    var addrs := NoAddresses();
    var i := 0;
    while true
      invariant i < MAX_RETRY && addrs == NoAddresses()
      invariant RetryFrom(t.State(), attempts, i) == RetryFrom(old(t.State()), attempts, 0)
      decreases MAX_RETRY - i
    {
      var detection := DetectAbi(views[i], abi, addrs);
      assert detection == attempts[i];
      if detection.Err? {
        return Err(detection.error);
      }
      addrs := detection.value.addrs;
      if detection.value.rc == 0 {
        return Ok(Detected(i, addrs));
      }
      if i == MAX_RETRY - 1 {
        return Err(Ptrace);
      }
      var c := PtraceCont(t);
      if c.Err? {
        return Err(c.error);
      }
      var w := PtraceInterrupt(t);
      if w.Err? {
        return Err(w.error);
      }
      i := i + 1;
    }
  }

  /** `dump_py_threads`, with `abi` starting as `PyABI::Unknown`. */
  method DumpPyThreads(t: Tracee, views: seq<ProcView>, enable: bool, ghost count: nat, ghost fuel: nat)
    returns (r: Result<seq<PyThread>>)
    requires |views| == MAX_RETRY
    requires !DumpSpec(t.State(), views, Unknown, enable, count, fuel).result.Diverge?
    modifies t
    ensures Dumped(Lift(r), t.State()) == DumpSpec(old(t.State()), views, Unknown, enable, count, fuel)
  {
    var ok := t.Ptrace(Seize);
    if !ok {
      return Err(Ptrace);
    }
    ok := t.Ptrace(Interrupt);
    if !ok {
      return Err(Ptrace);
    }
    var abi := Unknown;
    var d := RetryDetect(t, views, abi);
    if d.Err? {
      return Err(d.error);
    }
    r := TracePyThreads(views[d.value.attempt].mem, d.value.addrs, enable, count, fuel);
  }
}
