/** Word-granular reads of a stopped target's memory (src/ptrace_wrapper.cpp).

    The target's memory is a partial map from 64-bit addresses to the 8-byte
    word that PTRACE_PEEKDATA returns there; a missing key is an address the
    kernel refuses to read. Pointer arithmetic on `void*` wraps modulo 2^64. */
module Remote {
  import opened Wrappers

  const ADDRESS_SPACE: nat := 0x1_0000_0000_0000_0000
  /** The bit pattern of the `long` value -1. */
  const ALL_ONES: nat := 0xFFFF_FFFF_FFFF_FFFF
  /** errno value the kernel reports for an unreadable address. */
  const EIO: int := 5
  const WORD_SIZE: nat := 8

  type Word = w: int | 0 <= w < 0x1_0000_0000_0000_0000
  type byte = b: int | 0 <= b < 256
  type Memory = map<Word, Word>

  /** `p + d` on a 64-bit pointer. */
  function Add(p: Word, d: int): Word
  {
    (p + d) % ADDRESS_SPACE
  }

  lemma AddAssoc(p: Word, d: int, e: int)
    ensures Add(Add(p, d), e) == Add(p, d + e)
  {
    var q := (p + d) / ADDRESS_SPACE;
    assert Add(p, d) == p + d - q * ADDRESS_SPACE;
    assert Add(p, d) + e == (p + d + e) - q * ADDRESS_SPACE;
  }

  /** Adding an offset that itself wrapped is the same as adding it whole. */
  lemma AddWrappedOffset(p: Word, o: Word, d: int)
    ensures Add(p, Add(o, d)) == Add(p, o + d)
  {
    var q := (o + d) / ADDRESS_SPACE;
    assert Add(o, d) == o + d - q * ADDRESS_SPACE;
    assert p + Add(o, d) == (p + o + d) - q * ADDRESS_SPACE;
  }

  /** Quotient and remainder by the word size, for an index known to lie in
      block `q`. */
  lemma InBlock(k: int, q: int)
    requires WORD_SIZE * q <= k < WORD_SIZE * q + WORD_SIZE
    ensures k / WORD_SIZE == q && k % WORD_SIZE == k - WORD_SIZE * q
  {
  }

  lemma ShiftBlock(k: nat)
    ensures (k + WORD_SIZE) / WORD_SIZE == 1 + k / WORD_SIZE
    ensures (k + WORD_SIZE) % WORD_SIZE == k % WORD_SIZE
  {
  }

  // ---------------------------------------------------------------------------
  // One word

  /** What the kernel does on PTRACE_PEEKDATA: the word when `addr` is
      readable, leaving errno as it was; otherwise -1 with errno set. */
  datatype PeekReply = PeekReply(data: Word, errno: int)

  function KernelPeek(mem: Memory, addr: Word, errno: int): PeekReply
  {
    if addr in mem then PeekReply(mem[addr], errno) else PeekReply(ALL_ONES, EIO)
  }

  /** The outcome every successful or failed peek stands for. */
  function Read(mem: Memory, addr: Word): Result<Word>
  {
    if addr in mem then Ok(mem[addr]) else Err(Ptrace)
  }

  /** `ptrace_peek`: clears errno, asks the kernel, and reports a failure only
      when the word is -1 AND errno is set, so a readable word whose value is
      -1 comes back as data. */
  method Peek(mem: Memory, addr: Word) returns (r: Result<Word>)
    ensures r == PeekWithErrno(mem, addr, 0)
    ensures r.Err? <==> addr !in mem
    ensures r.Ok? ==> r.value == mem[addr]
    ensures r.Err? ==> r.error == Ptrace
  {
    var errno := 0;
    var reply := KernelPeek(mem, addr, errno);
    errno := reply.errno;
    if reply.data == ALL_ONES && errno != 0 {
      r := Err(Ptrace);
    } else {
      r := Ok(reply.data);
    }
  }

  /** `ptrace_peek_ptr`: the same request, its word read as a pointer. */
  method PeekPtr(mem: Memory, addr: Word) returns (r: Result<Word>)
    ensures r == PeekWithErrno(mem, addr, 0)
    ensures r == Read(mem, addr)
  {
    var errno := 0;
    var reply := KernelPeek(mem, addr, errno);
    errno := reply.errno;
    if reply.data == ALL_ONES && errno != 0 {
      r := Err(Ptrace);
    } else {
      r := Ok(reply.data);
    }
  }

  /** The failure test of `ptrace_peek` when errno already holds `errno`
      as the request is made: the same steps without the reset. */
  function PeekWithErrno(mem: Memory, addr: Word, errno: int): (r: Result<Word>)
    ensures errno == 0 ==> r == Read(mem, addr)
    ensures addr !in mem ==> r == Err(Ptrace)
  {
    var reply := KernelPeek(mem, addr, errno);
    if reply.data == ALL_ONES && reply.errno != 0 then Err(Ptrace) else Ok(reply.data)
  }

  /** Without the `errno = 0` that precedes the request, a stale error
      number would turn a readable all-ones word into a reported failure,
      where the peek with the reset reads it. */
  lemma StaleErrnoWouldMisreport(mem: Memory, addr: Word, stale: int)
    requires addr in mem && mem[addr] == ALL_ONES && stale != 0
    ensures PeekWithErrno(mem, addr, stale) == Err(Ptrace)
    ensures PeekWithErrno(mem, addr, 0) == Ok(ALL_ONES)
  {
  }

  // ---------------------------------------------------------------------------
  // Bytes of a word (x86-64 is little-endian)

  /** The `n` low-order bytes of `w`, least significant first. */
  function LowBytes(w: nat, n: nat): (bs: seq<byte>)
    ensures |bs| == n
  {
    if n == 0 then [] else [w % 256] + LowBytes(w / 256, n - 1)
  }

  /** The bytes of word `w` in memory order, as `memmove` copies them out of
      the `long`. */
  function WordBytes(w: Word): (bs: seq<byte>)
    ensures |bs| == WORD_SIZE
  {
    LowBytes(w, WORD_SIZE)
  }

  /** Byte `i` of word `w` in memory order. */
  function ByteOf(w: Word, i: nat): byte
    requires i < WORD_SIZE
  {
    WordBytes(w)[i]
  }

  // ---------------------------------------------------------------------------
  // ptrace_peek_bytes

  /** The length `ptrace_peek_bytes` actually reads: `n` rounded up to a
      whole number of words. */
  function RoundUp(n: nat): (r: nat)
    ensures r % WORD_SIZE == 0
    ensures n <= r < n + WORD_SIZE
  {
    if n % WORD_SIZE != 0 then (n / WORD_SIZE + 1) * WORD_SIZE else n
  }

  /** Target byte `k` counted from `addr`, as the word read at the start of
      its word-sized block hands it over. */
  function ByteAt(mem: Memory, addr: Word, k: nat): byte
    requires Add(addr, WORD_SIZE * (k / WORD_SIZE)) in mem
  {
    ByteOf(mem[Add(addr, WORD_SIZE * (k / WORD_SIZE))], k % WORD_SIZE)
  }

  /** The `words` whole words at `addr`, `addr+8`, ...; any unreadable one
      makes the whole read fail. */
  function ReadBytes(mem: Memory, addr: Word, words: nat): (r: Result<seq<byte>>)
    ensures r.Ok? <==> forall j :: 0 <= j < words ==> Add(addr, WORD_SIZE * j) in mem
    ensures r.Err? ==> r.error == Ptrace
    ensures r.Ok? ==> |r.value| == WORD_SIZE * words
  {
    if words == 0 then Ok([])
    else
      var init :- ReadBytes(mem, addr, words - 1);
      var w :- Read(mem, Add(addr, WORD_SIZE * (words - 1)));
      Ok(init + WordBytes(w))
  }

  /** Byte `k` of a successful read is the target's byte `k` from `addr`. */
  lemma {:induction false} ReadBytesMeaning(mem: Memory, addr: Word, words: nat)
    requires ReadBytes(mem, addr, words).Ok?
    ensures forall k :: 0 <= k < WORD_SIZE * words ==>
      ReadBytes(mem, addr, words).value[k] == ByteAt(mem, addr, k)
    decreases words
  {
    if words > 0 {
      ReadBytesMeaning(mem, addr, words - 1);
      var init := ReadBytes(mem, addr, words - 1).value;
      var all := ReadBytes(mem, addr, words).value;
      assert all == init + WordBytes(mem[Add(addr, WORD_SIZE * (words - 1))]);
      forall k | 0 <= k < WORD_SIZE * words
        ensures all[k] == ByteAt(mem, addr, k)
      {
        if k < WORD_SIZE * (words - 1) {
          assert all[k] == init[k];
        } else {
          InBlock(k, words - 1);
        }
      }
    }
  }

  /** `ptrace_peek_bytes`: rounds `n` up to whole words, then fills a fresh
      buffer one peeked word at a time, at `addr`, `addr+8`, ... */
  method PeekBytes(mem: Memory, addr: Word, n: nat) returns (r: Result<seq<byte>>)
    ensures r == ReadBytes(mem, addr, RoundUp(n) / WORD_SIZE)
  {
    var size := n;
    if size % WORD_SIZE != 0 {
      size := (size / WORD_SIZE + 1) * WORD_SIZE;
    }
    assert size == RoundUp(n) && size == WORD_SIZE * (size / WORD_SIZE);
    var bytes := new byte[size];
    var off := 0;
    ghost var j := 0;
    while off < size
      invariant off == WORD_SIZE * j && off <= size
      invariant ReadBytes(mem, addr, j) == Ok(bytes[..off])
    {
      var val := Peek(mem, Add(addr, off));
      if val.Err? {
        assert j < size / WORD_SIZE && Add(addr, WORD_SIZE * j) !in mem;
        return Err(Ptrace);
      }
      ghost var prev := bytes[..off];
      forall k | off <= k < off + WORD_SIZE {
        bytes[k] := ByteOf(val.value, k - off);
      }
      assert bytes[..off] == prev;
      assert bytes[..off + WORD_SIZE] == prev + WordBytes(val.value) by {
        forall k | 0 <= k < off + WORD_SIZE
          ensures bytes[..off + WORD_SIZE][k] == (prev + WordBytes(val.value))[k]
        {
          if k < off {
            assert bytes[k] == prev[k];
          }
        }
      }
      ghost var next := j + 1;
      assert ReadBytes(mem, addr, next) == Ok(prev + WordBytes(val.value));
      off := off + WORD_SIZE;
      j := next;
    }
    assert j == RoundUp(n) / WORD_SIZE;
    assert bytes[..] == bytes[..off];
    r := Ok(bytes[..]);
  }

  // ---------------------------------------------------------------------------
  // ptrace_peek_string

  /** `chunk.find_first_of('\0')`: the index of the first NUL, with
      `|chunk|` standing for `npos`. */
  function FirstNul(chunk: seq<byte>): (i: nat)
    ensures i <= |chunk|
  {
    if chunk == [] || chunk[0] == 0 then 0 else 1 + FirstNul(chunk[1..])
  }

  /** What `chunk.c_str()` contributes: the bytes before the first NUL. */
  function BeforeNul(chunk: seq<byte>): seq<byte>
  {
    chunk[..FirstNul(chunk)]
  }

  /** The bytes before the index are not NUL, the byte at it is, and it
      is `npos` exactly when the chunk holds no NUL. */
  lemma {:induction false} FirstNulMeaning(chunk: seq<byte>)
    ensures forall i :: 0 <= i < FirstNul(chunk) ==> chunk[i] != 0
    ensures FirstNul(chunk) < |chunk| ==> chunk[FirstNul(chunk)] == 0
    ensures 0 in chunk <==> FirstNul(chunk) < |chunk|
  {
    if chunk != [] && chunk[0] != 0 {
      FirstNulMeaning(chunk[1..]);
      forall i | 1 <= i < FirstNul(chunk)
        ensures chunk[i] != 0
      {
        assert chunk[i] == chunk[1..][i - 1];
      }
      if 0 in chunk {
        var i :| 0 <= i < |chunk| && chunk[i] == 0;
        assert chunk[1..][i - 1] == 0;
      }
    }
  }

  /** Prefixes finished output with what was read before. */
  function PrependRun<T>(done: seq<T>, r: Run<seq<T>>): Run<seq<T>>
  {
    match r
    case Done(s) => Done(done + s)
    case Fail(e) => Fail(e)
    case Diverge => Diverge
  }

  /** The C string read word by word from word `j` on: each word adds its
      bytes up to a NUL, and the first word holding a NUL ends the read. It
      `Diverge`s when `fuel` words pass without either. */
  function CStringFrom(mem: Memory, addr: Word, j: nat, fuel: nat): (r: Run<seq<byte>>)
    ensures r.Fail? ==> r.error == Ptrace
    decreases fuel
  {
    if fuel == 0 then Diverge
    else
      var w :- Lift(Read(mem, Add(addr, WORD_SIZE * j)));
      var chunk := WordBytes(w);
      if FirstNul(chunk) < |chunk| then Done(BeforeNul(chunk))
      else PrependRun(chunk, CStringFrom(mem, addr, j + 1, fuel - 1))
  }

  /** Byte `k` of the target byte stream that starts at word `j` from
      `addr`, when the word holding it is readable. */
  predicate StreamByteIs(mem: Memory, addr: Word, j: nat, k: nat, b: int)
  {
    var a := Add(addr, WORD_SIZE * (j + k / WORD_SIZE));
    a in mem && ByteOf(mem[a], k % WORD_SIZE) == b
  }

  /** `s` spells the target bytes from word `j` on. */
  predicate StreamHas(mem: Memory, addr: Word, j: nat, s: seq<byte>)
  {
    forall k :: 0 <= k < |s| ==> StreamByteIs(mem, addr, j, k, s[k])
  }

  lemma StreamCons(mem: Memory, addr: Word, j: nat, rest: seq<byte>)
    requires Add(addr, WORD_SIZE * j) in mem
    requires StreamHas(mem, addr, j + 1, rest)
    ensures StreamHas(mem, addr, j, WordBytes(mem[Add(addr, WORD_SIZE * j)]) + rest)
  {
    var chunk := WordBytes(mem[Add(addr, WORD_SIZE * j)]);
    var s := chunk + rest;
    forall k | 0 <= k < |s|
      ensures StreamByteIs(mem, addr, j, k, s[k])
    {
      if k >= WORD_SIZE {
        var k' := k - WORD_SIZE;
        ShiftBlock(k');
        assert StreamByteIs(mem, addr, j + 1, k', rest[k']);
        assert j + k / WORD_SIZE == (j + 1) + k' / WORD_SIZE;
      } else {
        InBlock(k, 0);
      }
    }
  }

  lemma StreamEndShift(mem: Memory, addr: Word, j: nat, n: nat)
    requires StreamByteIs(mem, addr, j + 1, n, 0)
    ensures StreamByteIs(mem, addr, j, n + WORD_SIZE, 0)
  {
    ShiftBlock(n);
    assert j + (n + WORD_SIZE) / WORD_SIZE == (j + 1) + n / WORD_SIZE;
  }

  /** The first `WORD_SIZE` bytes of the stream from word `j` are the
      bytes of word `j`. */
  lemma StreamFirstWord(mem: Memory, addr: Word, j: nat, k: nat)
    requires Add(addr, WORD_SIZE * j) in mem && k < WORD_SIZE
    ensures StreamByteIs(mem, addr, j, k, ByteOf(mem[Add(addr, WORD_SIZE * j)], k))
  {
    InBlock(k, 0);
    assert j + k / WORD_SIZE == j;
  }

  lemma StreamPrefix(mem: Memory, addr: Word, j: nat, chunk: seq<byte>)
    requires Add(addr, WORD_SIZE * j) in mem && chunk == WordBytes(mem[Add(addr, WORD_SIZE * j)])
    ensures StreamHas(mem, addr, j, BeforeNul(chunk))
    ensures FirstNul(chunk) < |chunk| ==> StreamByteIs(mem, addr, j, FirstNul(chunk), 0)
  {
    var p := BeforeNul(chunk);
    FirstNulMeaning(chunk);
    forall k | 0 <= k < |p|
      ensures StreamByteIs(mem, addr, j, k, p[k])
    {
      StreamFirstWord(mem, addr, j, k);
      assert p[k] == chunk[k];
    }
    if FirstNul(chunk) < |chunk| {
      StreamFirstWord(mem, addr, j, FirstNul(chunk));
    }
  }

  /** A read that finishes yields exactly the target bytes from `addr` up to,
      not including, the first zero byte: none of them is NUL, and the byte
      right after them is a readable zero. */
  lemma {:induction false} CStringMeaning(mem: Memory, addr: Word, j: nat, fuel: nat)
    requires CStringFrom(mem, addr, j, fuel).Done?
    decreases fuel
    ensures var s := CStringFrom(mem, addr, j, fuel).value;
      && 0 !in s
      && StreamHas(mem, addr, j, s)
      && StreamByteIs(mem, addr, j, |s|, 0)
  {
    var chunk := WordBytes(mem[Add(addr, WORD_SIZE * j)]);
    StreamPrefix(mem, addr, j, chunk);
    FirstNulMeaning(chunk);
    if FirstNul(chunk) == |chunk| {
      CStringMeaning(mem, addr, j + 1, fuel - 1);
      var rest := CStringFrom(mem, addr, j + 1, fuel - 1).value;
      StreamCons(mem, addr, j, rest);
      StreamEndShift(mem, addr, j, |rest|);
      assert chunk[..FirstNul(chunk)] == chunk;
    } else {
      var p := BeforeNul(chunk);
      assert forall i :: 0 <= i < |p| ==> p[i] == chunk[i];
    }
  }

  /** The read looks at no word after the one holding the terminating zero:
      any memory that agrees on the words it consumed gives the same string. */
  lemma {:induction false} CStringReadsOnlyThroughNul(mem: Memory, other: Memory, addr: Word, j: nat, fuel: nat)
    decreases fuel
    requires CStringFrom(mem, addr, j, fuel).Done?
    requires forall i :: j <= i <= j + |CStringFrom(mem, addr, j, fuel).value| / WORD_SIZE ==>
               Add(addr, WORD_SIZE * i) in mem &&
               Add(addr, WORD_SIZE * i) in other &&
               other[Add(addr, WORD_SIZE * i)] == mem[Add(addr, WORD_SIZE * i)]
    ensures CStringFrom(other, addr, j, fuel) == CStringFrom(mem, addr, j, fuel)
  {
    var s := CStringFrom(mem, addr, j, fuel).value;
    assert j <= j <= j + |s| / WORD_SIZE;
    var w := mem[Add(addr, WORD_SIZE * j)];
    if FirstNul(WordBytes(w)) == WORD_SIZE {
      var rest := CStringFrom(mem, addr, j + 1, fuel - 1).value;
      assert |s| == WORD_SIZE + |rest|;
      assert |s| / WORD_SIZE == 1 + |rest| / WORD_SIZE;
      forall i | j + 1 <= i <= j + 1 + |rest| / WORD_SIZE
        ensures Add(addr, WORD_SIZE * i) in mem && Add(addr, WORD_SIZE * i) in other &&
          other[Add(addr, WORD_SIZE * i)] == mem[Add(addr, WORD_SIZE * i)]
      {
        assert j <= i <= j + |s| / WORD_SIZE;
      }
      CStringReadsOnlyThroughNul(mem, other, addr, j + 1, fuel - 1);
    }
  }

  lemma PrependRunNil<T>(r: Run<seq<T>>)
    ensures PrependRun([], r) == r
  {
    if r.Done? {
      assert [] + r.value == r.value;
    }
  }

  lemma PrependRunAssoc<T>(a: seq<T>, b: seq<T>, r: Run<seq<T>>)
    ensures PrependRun(a, PrependRun(b, r)) == PrependRun(a + b, r)
  {
    match r
    case Done(s) => assert a + (b + s) == (a + b) + s;
    case Fail(_) =>
    case Diverge =>
  }

  /** One pass of the loop of `ptrace_peek_string` against the loop's
      account `spec` of the whole read, `dump` being the bytes kept so far:
      when that account does not run out of budget, the word at `j` either
      cannot be read and the read fails, or holds a NUL and the read ends
      with its bytes before it, or goes on at word `next` with `left` words
      of budget. */
  lemma CStringStep(mem: Memory, addr: Word, j: nat, f: nat, next: int, left: int,
                    dump: seq<byte>, spec: Run<seq<byte>>)
    requires next == j + 1 && left == f - 1
    ensures PrependRun(dump, CStringFrom(mem, addr, j, f)) == spec && !spec.Diverge? ==>
      && next >= 0 && left >= 0
      && (Add(addr, WORD_SIZE * j) !in mem ==> spec == Fail(Ptrace))
      && (Add(addr, WORD_SIZE * j) in mem ==>
            var chunk := WordBytes(mem[Add(addr, WORD_SIZE * j)]);
            && (FirstNul(chunk) < |chunk| ==> spec == Done(dump + BeforeNul(chunk)))
            && (FirstNul(chunk) == |chunk| ==> PrependRun(dump + chunk, CStringFrom(mem, addr, next, left)) == spec))
  {
    if f > 0 && Add(addr, WORD_SIZE * j) in mem {
      var chunk := WordBytes(mem[Add(addr, WORD_SIZE * j)]);
      PrependRunAssoc(dump, chunk, CStringFrom(mem, addr, j + 1, f - 1));
    }
  }

  /** `ptrace_peek_string`: peeks word after word from `addr`, appends each
      word's bytes up to a NUL, and stops after the first word that holds
      one. The source has no other bound: the ghost `fuel` only names a
      number of words within which the read ends. */
  method PeekString(mem: Memory, addr: Word, ghost fuel: nat) returns (r: Result<seq<byte>>)
    requires !CStringFrom(mem, addr, 0, fuel).Diverge?
    ensures Lift(r) == CStringFrom(mem, addr, 0, fuel)
  {
    var dump: seq<byte> := [];
    var off: Word := 0;
    ghost var j: nat := 0;
    ghost var f: nat := fuel;
    ghost var spec := CStringFrom(mem, addr, 0, fuel);
    PrependRunNil(spec);
    while true
      invariant !spec.Diverge?
      invariant Add(addr, off) == Add(addr, WORD_SIZE * j)
      invariant PrependRun(dump, CStringFrom(mem, addr, j, f)) == spec
      decreases f
    {
      ghost var next: int := j + 1;
      ghost var left: int := f - 1;
      CStringStep(mem, addr, j, f, next, left, dump, spec);
      var val := Peek(mem, Add(addr, off));
      if val.Err? {
        return Err(Ptrace);
      }
      var chunk := WordBytes(val.value);
      var nul := FirstNul(chunk);
      dump := dump + chunk[..nul];
      if nul < |chunk| {
        return Ok(dump);
      }
      assert chunk[..nul] == chunk;
      AddWrappedOffset(addr, off, WORD_SIZE);
      AddAssoc(addr, off, WORD_SIZE);
      AddAssoc(addr, WORD_SIZE * j, WORD_SIZE);
      off := Add(off, WORD_SIZE);
      j := next;
      f := left;
    }
  }
}
