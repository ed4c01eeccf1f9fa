/** `GetLine` (src/python_frame.cpp): the line a frame is executing, either
    the frame's own `f_lineno` while a trace function is set, or decoded from
    the code object's `co_lnotab`, CPython 2.7's table of
    (bytecode-offset delta, line delta) byte pairs. */
module LineTable {
  import opened Wrappers
  import opened Remote
  import opened Layout

  /** Sum of the bytecode-offset deltas of the first `k` pairs. */
  function AddrSum(tbl: seq<byte>, k: nat): nat
    requires 2 * k <= |tbl|
  {
    if k == 0 then 0 else AddrSum(tbl, k - 1) + tbl[2 * (k - 1)]
  }

  /** Sum of the line deltas of the first `k` pairs. */
  function LineSum(tbl: seq<byte>, k: nat): nat
    requires 2 * k <= |tbl|
  {
    if k == 0 then 0 else LineSum(tbl, k - 1) + tbl[2 * (k - 1) + 1]
  }

  lemma {:induction false} AddrSumMonotone(tbl: seq<byte>, i: nat, j: nat)
    requires i <= j && 2 * j <= |tbl|
    ensures AddrSum(tbl, i) <= AddrSum(tbl, j)
    decreases j
  {
    if i < j {
      AddrSumMonotone(tbl, i, j - 1);
    }
  }

  /** The decoding loop from pair `k` on, with the running offset `addr`
      and line `line`: add the pair's offset delta, stop if that passes
      `lasti`, otherwise add its line delta and go on. */
  function DecodeFrom(tbl: seq<byte>, k: nat, pairs: nat, addr: int, line: int, lasti: int): (r: int)
    requires k <= pairs && 2 * pairs <= |tbl|
    ensures r >= line
    decreases pairs - k
  {
    if k == pairs then line
    else
      var a := addr + tbl[2 * k];
      if a > lasti then line
      else DecodeFrom(tbl, k + 1, pairs, a, line + tbl[2 * k + 1], lasti)
  }

  /** The line `GetLine` decodes from the first `pairs` pairs of `tbl`. */
  function Decode(tbl: seq<byte>, pairs: nat, first: int, lasti: int): int
    requires 2 * pairs <= |tbl|
  {
    DecodeFrom(tbl, 0, pairs, 0, first, lasti)
  }

  lemma {:induction false} DecodeFromMeaning(tbl: seq<byte>, k: nat, pairs: nat, first: int, lasti: int, n: nat)
    requires 2 * pairs <= |tbl| && k <= n <= pairs
    requires AddrSum(tbl, n) <= lasti
    requires n == pairs || AddrSum(tbl, n + 1) > lasti
    ensures DecodeFrom(tbl, k, pairs, AddrSum(tbl, k), first + LineSum(tbl, k), lasti) == first + LineSum(tbl, n)
    decreases pairs - k
  {
    if k < n {
      AddrSumMonotone(tbl, k + 1, n);
      DecodeFromMeaning(tbl, k + 1, pairs, first, lasti, n);
    }
  }

  /** The decoded line is the first line plus the line deltas of the `n`
      leading pairs whose cumulative offset stays within `lasti`; the pair
      whose offset passes `lasti` contributes nothing. */
  lemma DecodeMeaning(tbl: seq<byte>, pairs: nat, first: int, lasti: int, n: nat)
    requires 2 * pairs <= |tbl| && n <= pairs
    requires AddrSum(tbl, n) <= lasti
    requires n == pairs || AddrSum(tbl, n + 1) > lasti
    ensures Decode(tbl, pairs, first, lasti) == first + LineSum(tbl, n)
  {
    DecodeFromMeaning(tbl, 0, pairs, first, lasti, n);
  }

  /** Only the first `pairs` whole pairs are read: an odd trailing byte, and
      the padding `ptrace_peek_bytes` adds, make no difference. */
  lemma {:induction false} DecodeFromReadsOnlyPairs(tbl: seq<byte>, other: seq<byte>, k: nat, pairs: nat, addr: int, line: int, lasti: int)
    requires k <= pairs && 2 * pairs <= |tbl| && 2 * pairs <= |other|
    requires tbl[..2 * pairs] == other[..2 * pairs]
    ensures DecodeFrom(tbl, k, pairs, addr, line, lasti) == DecodeFrom(other, k, pairs, addr, line, lasti)
    decreases pairs - k
  {
    if k < pairs {
      assert tbl[2 * k] == tbl[..2 * pairs][2 * k] == other[2 * k];
      assert tbl[2 * k + 1] == tbl[..2 * pairs][2 * k + 1] == other[2 * k + 1];
      DecodeFromReadsOnlyPairs(tbl, other, k + 1, pairs, addr + tbl[2 * k], line + tbl[2 * k + 1], lasti);
    }
  }

  lemma DecodeReadsOnlyPairs(tbl: seq<byte>, pairs: nat, first: int, lasti: int)
    requires 2 * pairs <= |tbl|
    ensures Decode(tbl, pairs, first, lasti) == Decode(tbl[..2 * pairs], pairs, first, lasti)
  {
    DecodeFromReadsOnlyPairs(tbl, tbl[..2 * pairs], 0, pairs, 0, first, lasti);
  }

  /** Pairs (2,0), (2,1), (4,2) with first line 10 and `f_lasti` 7: the
      offsets run 2, 4, 8, so the third pair is past 7 and the line is
      10 + 0 + 1. */
  lemma DecodeExample()
    ensures Decode([2, 0, 2, 1, 4, 2], 3, 10, 7) == 11
  {
    DecodeMeaning([2, 0, 2, 1, 4, 2], 3, 10, 7, 2);
  }

  /** `GetLine` on the frame object at `frame` whose code object is at
      `code`. */
  function LineSpec(mem: Memory, frame: Word, code: Word): (r: Result<nat>)
    ensures r.Err? ==> r.error == Ptrace
  {
    var trace :- Read(mem, Add(frame, F_TRACE));
    if trace != 0 then
      var lineno :- Read(mem, Add(frame, F_LINENO));
      Ok(Low31(lineno))
    else
      var lastiWord :- Read(mem, Add(frame, F_LASTI));
      var lnotab :- Read(mem, Add(code, CO_LNOTAB));
      var sizeWord :- Read(mem, StringSize(lnotab));
      var firstWord :- Read(mem, Add(code, CO_FIRSTLINENO));
      var size := Low31(sizeWord);
      var tbl :- ReadBytes(mem, ByteData(lnotab), RoundUp(size) / WORD_SIZE);
      Ok(Decode(tbl, size / 2, Low31(firstWord), Low31(lastiWord)))
  }

  /** Two memories that agree on the words at `addrs`. */
  predicate AgreeOn(mem: Memory, other: Memory, addrs: set<Word>)
  {
    forall a :: a in addrs ==> (a in mem <==> a in other) && (a in mem ==> mem[a] == other[a])
  }

  /** While a trace function is set the line is `f_lineno` masked to 31
      bits, and nothing but the frame's `f_trace` and `f_lineno` words is
      read: the code object and its table are never looked at. */
  lemma TracedFrameLine(mem: Memory, other: Memory, frame: Word, code: Word, code': Word)
    requires Read(mem, Add(frame, F_TRACE)).Ok? && mem[Add(frame, F_TRACE)] != 0
    requires AgreeOn(mem, other, {Add(frame, F_TRACE), Add(frame, F_LINENO)})
    ensures LineSpec(mem, frame, code) == LineSpec(other, frame, code')
    ensures LineSpec(mem, frame, code) ==
      if Add(frame, F_LINENO) in mem then Ok(Low31(mem[Add(frame, F_LINENO)])) else Err(Ptrace)
  {
  }

  /** Without a trace function the line is never below the code object's
      first line. */
  lemma UntracedLineAtLeastFirst(mem: Memory, frame: Word, code: Word)
    requires LineSpec(mem, frame, code).Ok?
    requires mem[Add(frame, F_TRACE)] == 0
    ensures Add(code, CO_FIRSTLINENO) in mem
    ensures LineSpec(mem, frame, code).value >= Low31(mem[Add(code, CO_FIRSTLINENO)])
  {
  }

  /** `GetLine`: the peeks in the source's order, then the pre-decrement
      loop over the table that `ptrace_peek_bytes` fetched. */
  method GetLine(mem: Memory, frame: Word, code: Word) returns (r: Result<nat>)
    ensures r == LineSpec(mem, frame, code)
  {
    var trace := Peek(mem, Add(frame, F_TRACE));
    if trace.Err? {
      return Err(Ptrace);
    }
    if trace.value != 0 {
      var lineno := Peek(mem, Add(frame, F_LINENO));
      if lineno.Err? {
        return Err(Ptrace);
      }
      return Ok(Low31(lineno.value));
    }
    var lastiWord := Peek(mem, Add(frame, F_LASTI));
    if lastiWord.Err? {
      return Err(Ptrace);
    }
    var lasti := Low31(lastiWord.value);
    var lnotab := Peek(mem, Add(code, CO_LNOTAB));
    if lnotab.Err? {
      return Err(Ptrace);
    }
    var sizeWord := Peek(mem, StringSize(lnotab.value));
    if sizeWord.Err? {
      return Err(Ptrace);
    }
    var size: int := Low31(sizeWord.value);
    var firstWord := Peek(mem, Add(code, CO_FIRSTLINENO));
    if firstWord.Err? {
      return Err(Ptrace);
    }
    var line: int := Low31(firstWord.value);
    var fetched := PeekBytes(mem, ByteData(lnotab.value), size);
    if fetched.Err? {
      return Err(Ptrace);
    }
    line := DecodeTable(fetched.value, size, line, lasti);
    return Ok(line);
  }

  /** The loop of `GetLine`: `size / 2` pairs, counted down with
      `--size >= 0`, through the cursor `p`. */
  method DecodeTable(tbl: seq<byte>, size: nat, first: int, lasti: int) returns (line: int)
    requires size <= |tbl|
    ensures line == Decode(tbl, size / 2, first, lasti)
  {
    ghost var pairs := size / 2;
    var count: int := size / 2;
    var p := 0;
    var addr := 0;
    line := first;
    ghost var k := 0;
    while true
      invariant 0 <= k <= pairs && count == pairs - k && p == 2 * k
      invariant DecodeFrom(tbl, k, pairs, addr, line, lasti) == Decode(tbl, pairs, first, lasti)
      decreases count
    {
      count := count - 1;
      if count < 0 {
        break;
      }
      addr := addr + tbl[p];
      p := p + 1;
      if addr > lasti {
        break;
      }
      line := line + tbl[p];
      p := p + 1;
      k := k + 1;
    }
  }
}
