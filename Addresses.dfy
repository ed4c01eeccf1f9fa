/** The record of interpreter symbol addresses and the interpreter ABI
    (include/elf_utils.h).

    The three address fields are relocated by the load base of the image
    they were found in; a zero field means "not found" and is never moved. */
module Addresses {
  import opened Remote

  /** Some ABIs span several interpreter releases and are named after the
      first one. */
  datatype PyABI = Unknown | Py26 | Py34 | Py36

  datatype PyAddresses = PyAddresses(
    tstateAddr: Word,
    interpHeadAddr: Word,
    interpHeadFnAddr: Word,
    interpHeadHint: Word,
    pie: bool)
  {
    /** `empty()`: the record has not been filled in. */
    predicate Empty()
    {
      tstateAddr == 0
    }

    /** `operator bool`: true for a filled-in record. */
    predicate IsSet()
      ensures IsSet() <==> tstateAddr != 0
    {
      !Empty()
    }

    /** `operator+`: relocate the three address fields by `base`. */
    function Shift(base: Word): (r: PyAddresses)
      ensures r.interpHeadHint == interpHeadHint && r.pie == pie
      ensures tstateAddr != 0 ==> r.tstateAddr == Add(tstateAddr, base)
      ensures interpHeadAddr != 0 ==> r.interpHeadAddr == Add(interpHeadAddr, base)
      ensures interpHeadFnAddr != 0 ==> r.interpHeadFnAddr == Add(interpHeadFnAddr, base)
      ensures Empty() ==> r.Empty()
      ensures interpHeadAddr == 0 ==> r.interpHeadAddr == 0
      ensures interpHeadFnAddr == 0 ==> r.interpHeadFnAddr == 0
    {
      this.(tstateAddr := ShiftField(tstateAddr, base),
            interpHeadAddr := ShiftField(interpHeadAddr, base),
            interpHeadFnAddr := ShiftField(interpHeadFnAddr, base))
    }

    /** `operator-`: undo a relocation by `base`. */
    function Unshift(base: Word): (r: PyAddresses)
      ensures r.interpHeadHint == interpHeadHint && r.pie == pie
      ensures tstateAddr != 0 ==> r.tstateAddr == Add(tstateAddr, -(base as int))
      ensures interpHeadAddr != 0 ==> r.interpHeadAddr == Add(interpHeadAddr, -(base as int))
      ensures interpHeadFnAddr != 0 ==> r.interpHeadFnAddr == Add(interpHeadFnAddr, -(base as int))
      ensures Empty() ==> r.Empty()
      ensures interpHeadAddr == 0 ==> r.interpHeadAddr == 0
      ensures interpHeadFnAddr == 0 ==> r.interpHeadFnAddr == 0
    {
      this.(tstateAddr := UnshiftField(tstateAddr, base),
            interpHeadAddr := UnshiftField(interpHeadAddr, base),
            interpHeadFnAddr := UnshiftField(interpHeadFnAddr, base))
    }

    /** No non-zero address field lands on 0 when moved by `base`. */
    predicate ShiftKeepsNonZero(base: Word)
    {
      && (tstateAddr == 0 || Add(tstateAddr, base) != 0)
      && (interpHeadAddr == 0 || Add(interpHeadAddr, base) != 0)
      && (interpHeadFnAddr == 0 || Add(interpHeadFnAddr, base) != 0)
    }

    predicate UnshiftKeepsNonZero(base: Word)
    {
      && (tstateAddr == 0 || Add(tstateAddr, -(base as int)) != 0)
      && (interpHeadAddr == 0 || Add(interpHeadAddr, -(base as int)) != 0)
      && (interpHeadFnAddr == 0 || Add(interpHeadFnAddr, -(base as int)) != 0)
    }
  }

  /** One field of `operator+`: zero stays zero, anything else moves. */
  function ShiftField(f: Word, base: Word): Word
  {
    if f == 0 then 0 else Add(f, base)
  }

  /** One field of `operator-`. */
  function UnshiftField(f: Word, base: Word): Word
  {
    if f == 0 then 0 else Add(f, -(base as int))
  }

  /** The default constructor: every field zero, not PIE. */
  function NoAddresses(): (r: PyAddresses)
    ensures r.Empty() && !r.IsSet()
    ensures r.interpHeadAddr == 0 && r.interpHeadFnAddr == 0 && r.interpHeadHint == 0 && !r.pie
  {
    PyAddresses(0, 0, 0, 0, false)
  }

  lemma FieldRoundTrip(f: Word, base: Word)
    ensures UnshiftField(ShiftField(f, base), base) == f <==> (f == 0 || Add(f, base) != 0)
    ensures ShiftField(UnshiftField(f, base), base) == f <==> (f == 0 || Add(f, -(base as int)) != 0)
  {
    AddAssoc(f, base, -(base as int));
    AddAssoc(f, -(base as int), base);
  }

  /** `(a + b) - b == a` exactly when no non-zero address field wraps to 0
      under `+ b`; the hint and the PIE flag always come back as they were. */
  lemma ShiftRoundTrip(a: PyAddresses, base: Word)
    ensures a.Shift(base).Unshift(base) == a <==> a.ShiftKeepsNonZero(base)
  {
    FieldRoundTrip(a.tstateAddr, base);
    FieldRoundTrip(a.interpHeadAddr, base);
    FieldRoundTrip(a.interpHeadFnAddr, base);
  }

  /** `(a - b) + b == a` under the same rule for `- b`. */
  lemma UnshiftRoundTrip(a: PyAddresses, base: Word)
    ensures a.Unshift(base).Shift(base) == a <==> a.UnshiftKeepsNonZero(base)
  {
    FieldRoundTrip(a.tstateAddr, base);
    FieldRoundTrip(a.interpHeadAddr, base);
    FieldRoundTrip(a.interpHeadFnAddr, base);
  }

  /** A filled-in record stays filled in after relocation exactly when its
      thread-state address does not wrap to 0. */
  lemma ShiftEmptiness(a: PyAddresses, base: Word)
    ensures a.Shift(base).Empty() <==> a.Empty() || Add(a.tstateAddr, base) == 0
  {
  }

  /** A concrete wrap: a thread-state address 16 bytes below the top of the
      address space, moved by 16, becomes 0 and the record reads as empty,
      so the round trip loses it. */
  lemma WrapBreaksRoundTrip()
    ensures var a := PyAddresses(ADDRESS_SPACE - 16, 0, 0, 0, false);
      a.IsSet() && a.Shift(16).Empty() && a.Shift(16).Unshift(16) != a
  {
    var a := PyAddresses(ADDRESS_SPACE - 16, 0, 0, 0, false);
    assert Add(a.tstateAddr, 16) == 0;
  }
}
