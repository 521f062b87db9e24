/** Two places where intel_x86_encode_gen (lib/pfmlib_intel_x86.c) does not
    do what its comments and callers expect, each shown on a concrete entry,
    next to the corrected behaviour the rest of the model uses. */
module IntelX86Findings {
  import opened Wrappers
  import opened Words
  import opened PfmErrors
  import opened IntelX86Table
  import opened IntelX86Defaults
  import opened IntelX86Run
  import opened IntelX86Encode

  /** The unused tail of a slot array holding `n` used slots. */
  function Padding(n: nat): seq<UnitMask>
    requires n <= NumUmasks
  {
    seq(NumUmasks - n, _ => EmptySlot)
  }

  function Slot(name: string, code: Word, flags: set<Flag>): UnitMask {
    UnitMask(Some(name), Some(name), None, code, flags, 0, {}, {})
  }

  /** An event with one group whose only unit mask, "ANY" with code 0x01, is
      its default; the event code has an empty unit-mask byte. */
  function DefaultOnly(): Entry {
    Entry(Some("EV"), Some("EV"), None, {0, 1}, {0}, {}, 1, 1, {}, [Slot("ANY", {0}, {Dfl})] + Padding(1))
  }

  // ---------------------------------------------------------------------
  // The defaults found by intel_x86_add_defaults never reach the register
  // ---------------------------------------------------------------------

  /** As written: without any unit-mask attribute, encoding succeeds (the
      group has a default) yet the register's unit-mask byte is the code's
      own, for every entry and every attribute list. */
  lemma DefaultsNeverEncoded(e: Entry, attrs: seq<Attr>, dflPlm: Word)
    requires Encodable(e) && AttrsFit(e, attrs)
    requires forall i :: 0 <= i < |attrs| ==> attrs[i].ModAttr?
    requires EncodeReg(e, attrs, dflPlm).Success?
    ensures forall b :: 8 <= b < 16 ==> (b in EncodeReg(e, attrs, dflPlm).value <==> b in e.code)
  {
    EncodeRegLowBits(e, attrs, dflPlm);
  }

  /** The concrete case: selecting nothing on `DefaultOnly` succeeds, the
      default's code bit 0 is pending for the uncovered group 0, but bit 8
      of the register stays clear. */
  lemma DefaultDroppedExample()
    ensures EncodeReg(DefaultOnly(), [], {}).Success?
    ensures Uncovered(DefaultOnly(), []) == {0}
    ensures DefaultHasBit(DefaultOnly(), {0}, 0)
    ensures 8 !in EncodeReg(DefaultOnly(), [], {}).value
  {
    var e := DefaultOnly();
    assert e.umasks[0] == Slot("ANY", {0}, {Dfl});
    assert HasDefault(e, 0) && DefaultHasBit(e, {0}, 0);
    assert Run(e, [], 0) == Success(InitState(e));
    assert Xor({}, Span(0, 1)) == {0};
    DefaultsNeverEncoded(e, [], {});
  }

  /** Corrected: the same request now sets bit 8, the default's code. */
  lemma DefaultKeptExample()
    ensures EncodeRegFixed(DefaultOnly(), [], {}).Success?
    ensures 8 in EncodeRegFixed(DefaultOnly(), [], {}).value
  {
    DefaultOnlyEncodable();
    DefaultDroppedExample();
    PendingDefaultKept(DefaultOnly(), [], {}, 0);
  }

  /** The example entry is one the encoder can process. */
  lemma DefaultOnlyEncodable()
    ensures Encodable(DefaultOnly()) && AttrsFit(DefaultOnly(), [])
  {
    var e := DefaultOnly();
    assert forall j :: 1 <= j < NumUmasks ==> e.umasks[j] == EmptySlot;
  }

  /** Corrected, in general: a code bit of the default of an uncovered group
      is set in the register's unit-mask byte. */
  lemma PendingDefaultKept(e: Entry, attrs: seq<Attr>, dflPlm: Word, b: nat)
    requires Encodable(e) && AttrsFit(e, attrs)
    requires EncodeReg(e, attrs, dflPlm).Success? && b < 8
    requires Run(e, attrs, |attrs|).Success? && DefaultHasBit(e, Uncovered(e, attrs), b)
    ensures EncodeRegFixed(e, attrs, dflPlm).Success?
    ensures b + 8 in EncodeRegFixed(e, attrs, dflPlm).value
  {
    EncodeRegFixedUnitMaskByte(e, attrs, dflPlm);
    assert (b + 8) - 8 == b;
  }

  // ---------------------------------------------------------------------
  // The string names a unit mask whose code is not in the register
  // ---------------------------------------------------------------------

  /** One group without a group mask and two combinable unit masks, "B" with
      code 0x02 listed before "A" with code 0x01. */
  function TwoMasks(): Entry {
    Entry(Some("EV"), Some("EV"), None, {}, {0}, {}, 1, 2, {},
          [Slot("B", {1}, {}), Slot("A", {0}, {})] + Padding(2))
  }

  /** As written: from the unit-mask byte 0x01 the loop prints "B" then "A",
      although B's code bit is not in the byte. */
  lemma PrintsUnmatchedUnitMask()
    ensures DecodeFrom(TwoMasks(), 0, {0}, AsWritten) == [0, 1]
    ensures LowCode(TwoMasks().umasks[0]) * {0} == {}
  {
    var e := TwoMasks();
    assert e.umasks[0] == Slot("B", {1}, {}) && e.umasks[1] == Slot("A", {0}, {});
    assert LowCode(e.umasks[0]) == {1} && LowCode(e.umasks[1]) == {0};
    assert GroupBits(e.umasks[0]) == Span(0, 8) && 0 in Span(0, 8);
    assert {0} - {1} == {0};
  }

  /** Corrected: only "A" is printed. */
  lemma PrintsMatchedUnitMask()
    ensures DecodeFrom(TwoMasks(), 0, {0}, Corrected) == [1]
  {
    var e := TwoMasks();
    assert e.umasks[0] == Slot("B", {1}, {}) && e.umasks[1] == Slot("A", {0}, {});
    assert LowCode(e.umasks[0]) == {1} && LowCode(e.umasks[1]) == {0};
    assert {0} * {1} == {};
    assert {0} * {0} == {0};
  }
}
