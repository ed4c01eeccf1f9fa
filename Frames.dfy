/** Frames and threads as the dumper reports them, and frame identity
    (include/python_frame.h). */
module Frames {
  import opened Remote

  /** `pyframe`: where the frame object lives, the code object's file and
      function names (raw bytes, no NUL), and the line being executed. */
  datatype PyFrame = PyFrame(addr: Word, file: seq<byte>, name: seq<byte>, line: nat)

  /** `py_thread`: the thread id word, whether it is the thread that held
      the interpreter lock, and its frames innermost first. */
  datatype PyThread = PyThread(id: Word, isCurrent: bool, frames: seq<PyFrame>)

  /** `pyframe::operator==`: two frames are the same when they are at the
      same line of the same file; the frame address and function name play
      no part. */
  predicate SameFrame(a: PyFrame, b: PyFrame)
  {
    a.file == b.file && a.line == b.line
  }

  lemma SameFrameIgnoresAddrAndName(a: PyFrame, addr: Word, name: seq<byte>)
    ensures SameFrame(a, a.(addr := addr, name := name))
  {
  }

  lemma SameFrameIsEquivalence(a: PyFrame, b: PyFrame, c: PyFrame)
    ensures SameFrame(a, a)
    ensures SameFrame(a, b) ==> SameFrame(b, a)
    ensures SameFrame(a, b) && SameFrame(b, c) ==> SameFrame(a, c)
  {
  }

  /** `std::hash<size_t>` of libstdc++ is the identity on the 64-bit value. */
  function SizeHash(i: nat): bv64
  {
    (i % 0x1_0000_0000_0000_0000) as bv64
  }

  /** `pyframe_hash` of the frame vector `fs`, for a given string hash:
      position `i` contributes the hash of `i` and of the frame's file, all
      XOR-ed into an accumulator that starts at 0. */
  function HashOf(fs: seq<PyFrame>, strHash: seq<byte> -> bv64): bv64
  {
    if fs == [] then 0
    else Mix(HashOf(fs[..|fs| - 1], strHash), |fs| - 1, fs[|fs| - 1].file, strHash)
  }

  /** One iteration of the loop: fold position `i` and its file in. */
  function Mix(h: bv64, i: nat, file: seq<byte>, strHash: seq<byte> -> bv64): bv64
  {
    h ^ SizeHash(i) ^ strHash(file)
  }

  /** `pyframe_hash::operator()`: the loop over positions, each iteration
      the two XORs that `Mix` names. */
  method FramesHash(fs: seq<PyFrame>, strHash: seq<byte> -> bv64) returns (h: bv64)
    ensures h == HashOf(fs, strHash)
  {
    h := 0;
    var i := 0;
    while i < |fs|
      invariant i <= |fs|
      invariant h == HashOf(fs[..i], strHash)
    {
      HashOfPrefix(fs, i + 1, strHash);
      h := Mix(h, i, fs[i].file, strHash);
      i := i + 1;
    }
    assert fs[..i] == fs;
  }

  /** The hash of a prefix folds its last frame into the hash of the
      shorter prefix. */
  lemma HashOfPrefix(fs: seq<PyFrame>, n: nat, strHash: seq<byte> -> bv64)
    requires 0 < n <= |fs|
    ensures HashOf(fs[..n], strHash) == Mix(HashOf(fs[..n - 1], strHash), n - 1, fs[n - 1].file, strHash)
  {
    assert fs[..n][..n - 1] == fs[..n - 1];
  }

  lemma EmptyHashIsZero(strHash: seq<byte> -> bv64)
    ensures HashOf([], strHash) == 0
  {
  }

  /** The hash sees only the number of frames and each one's file. */
  lemma {:induction false} HashDependsOnFilesOnly(a: seq<PyFrame>, b: seq<PyFrame>, strHash: seq<byte> -> bv64)
    requires |a| == |b|
    requires forall i :: 0 <= i < |a| ==> a[i].file == b[i].file
    ensures HashOf(a, strHash) == HashOf(b, strHash)
  {
    if a != [] {
      var n := |a| - 1;
      assert forall i :: 0 <= i < n ==> a[..n][i] == a[i] && b[..n][i] == b[i];
      HashDependsOnFilesOnly(a[..n], b[..n], strHash);
      assert a[n].file == b[n].file;
    }
  }

  /** The hash agrees with frame identity: vectors of the same length that
      are equal position by position under `==` hash alike. */
  lemma HashRespectsSameFrame(a: seq<PyFrame>, b: seq<PyFrame>, strHash: seq<byte> -> bv64)
    requires |a| == |b|
    requires forall i :: 0 <= i < |a| ==> SameFrame(a[i], b[i])
    ensures HashOf(a, strHash) == HashOf(b, strHash)
  {
    HashDependsOnFilesOnly(a, b, strHash);
  }
}
