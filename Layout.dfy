/** Field offsets of the CPython 2.7 objects the dumper reads, as laid out
    on x86-64, and the string-object accessors of src/python_frame.cpp. */
module Layout {
  import opened Remote

  /** `PyStringObject`: `ob_size` and the first byte of `ob_sval`. */
  const OB_SIZE: nat := 16
  const OB_SVAL: nat := 36

  /** `PyCodeObject`. */
  const CO_FILENAME: nat := 80
  const CO_NAME: nat := 88
  const CO_FIRSTLINENO: nat := 96
  const CO_LNOTAB: nat := 104

  /** `PyFrameObject`. */
  const F_BACK: nat := 24
  const F_CODE: nat := 32
  const F_TRACE: nat := 80
  const F_LASTI: nat := 120
  const F_LINENO: nat := 124

  /** `PyThreadState`. */
  const TS_NEXT: nat := 0
  const TS_INTERP: nat := 8
  const TS_FRAME: nat := 16
  const TS_THREAD_ID: nat := 144

  /** `PyInterpreterState`. */
  const IS_TSTATE_HEAD: nat := 8

  /** `std::numeric_limits<int>::max()`. */
  const INT_MAX: nat := 0x7FFF_FFFF

  /** `w & INT_MAX`: the low 31 bits of a peeked word. */
  function Low31(w: Word): (r: nat)
    ensures r <= INT_MAX
    ensures w <= INT_MAX ==> r == w
  {
    w % (INT_MAX + 1)
  }

  /** `StringSize`: where a string object keeps its length. */
  function StringSize(obj: Word): (r: Word)
    ensures Add(r, OB_SVAL - OB_SIZE) == Add(obj, OB_SVAL)
  {
    AddAssoc(obj, OB_SIZE, OB_SVAL - OB_SIZE);
    Add(obj, OB_SIZE)
  }

  /** `ByteData`: where a string object's bytes start, 20 bytes past its
      length field. */
  function ByteData(obj: Word): (r: Word)
    ensures r == Add(StringSize(obj), OB_SVAL - OB_SIZE)
  {
    AddAssoc(obj, OB_SIZE, OB_SVAL - OB_SIZE);
    Add(obj, OB_SVAL)
  }
}
