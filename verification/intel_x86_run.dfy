/** The attribute loop of intel_x86_encode_gen (lib/pfmlib_intel_x86.c):
    the register layout, the state the loop carries from one attribute to the
    next, one step per attribute, and what the loop has accumulated after any
    prefix of the attributes.

    The register is the IA32_PERFEVTSELx layout of section 18.2.1.1 of the
    Intel 64 and IA-32 Architectures Software Developer's Manual, Volume 3B,
    held as one 64-bit word: a write to a bit-field of the C union is a write
    of those bits of the word, and bits that reach a field through the event
    code or through `umask << 8` are seen by later reads of that field. */
module IntelX86Run {
  import opened Wrappers
  import opened Words
  import opened PfmErrors
  import opened IntelX86Table

  // ---------------------------------------------------------------------
  // Register layout (IA32_PERFEVTSELx)
  // ---------------------------------------------------------------------

  const UsrBit: nat := 16    // USR: count at privilege level 3
  const OsBit: nat := 17     // OS: count at privilege level 0
  const EdgeBit: nat := 18   // E: edge detect
  const IntBit: nat := 20    // INT: APIC interrupt on overflow
  const AnyBit: nat := 21    // ANY: any thread
  const EnBit: nat := 22     // EN: enable
  const InvBit: nat := 23    // INV: invert the counter-mask test
  const CntLo: nat := 24     // CMASK: bits 24..31

  /** The register bits a modifier writes. */
  function RegField(m: Modifier): Word {
    match m
    case ModU => {UsrBit}
    case ModK => {OsBit}
    case ModI => {InvBit}
    case ModE => {EdgeBit}
    case ModC => Span(CntLo, CntLo + 8)
    case ModT => {AnyBit}
  }

  /** The one register bit of a one-bit modifier. */
  function FlagBit(m: Modifier): nat
    requires m != ModC
  {
    match m
    case ModU => UsrBit
    case ModK => OsBit
    case ModI => InvBit
    case ModE => EdgeBit
    case ModT => AnyBit
  }

  /** Modifiers only write bits 16 and above. */
  lemma RegFieldHigh(m: Modifier)
    ensures forall b :: b in RegField(m) ==> b >= 16
  {
  }

  /** `reg->sel_x = on` for the one-bit field at bit `b`. */
  function SetBit(v: Word, b: nat, on: bool): (r: Word)
    ensures b in r <==> on
    ensures forall c :: c != b ==> (c in r <==> c in v)
  {
    if on then v + {b} else v - {b}
  }

  /** `reg->sel_cnt_mask = x` for a value that fits the 8-bit field: the field
      reads back `x` and no other bit changes. */
  function SetCntMask(v: Word, x: nat): (r: Word)
    requires x < 256
    ensures Value(r, CntLo, 8) == x
    ensures forall b :: !(CntLo <= b < CntLo + 8) ==> (b in r <==> b in v)
  {
    var r := (v - Span(CntLo, CntLo + 8)) + OfNat(x, CntLo, 8);
    OfNatInField(x, CntLo, 8);
    assert Pow2(8) == 256;
    ValueOfNat(x, CntLo, 8, r);
    r
  }

  // ---------------------------------------------------------------------
  // What the encoder needs of the table
  // ---------------------------------------------------------------------

  /** An entry the encoder can process without indexing past the per-group
      counters or printing a NULL string. A table of the C declaration's
      shape that passes pfm_intel_x86_validate_table provides it
      (IntelX86Validate.AcceptedTableEncodable). */
  predicate Encodable(e: Entry) {
    && Shaped(e)
    && e.ngrp < NumGrp
    && (e.from.Some? || e.name.Some?)
    && SlotsOk(e.umasks, e.numasks)
  }

  /** Every unit-mask attribute names a used slot (the parser's guarantee). */
  predicate AttrsFit(e: Entry, attrs: seq<Attr>) {
    forall k :: 0 <= k < |attrs| && attrs[k].UmaskAttr? ==> attrs[k].id < e.numasks
  }

  // ---------------------------------------------------------------------
  // The attribute loop
  // ---------------------------------------------------------------------

  /** The locals of intel_x86_encode_gen that survive from one attribute to
      the next: the register, the accumulated unit mask, the hardwired
      modifiers (`modhw`), the explicitly given privilege modifiers
      (`plmmsk`), the last unit-mask group, the per-group counters
      (`grpcounts`, and `ncombo` as the set of groups marked), and the
      covered groups (`ugrpmsk`). */
  datatype EncState = EncState(
    val: Word,
    umask: Word,
    modhw: Word,
    plmmsk: Word,
    lastGrp: Option<nat>,
    grpCounts: map<nat, nat>,
    ncombo: set<nat>,
    ugrpmsk: Word)

  /** State before the first attribute: the register (zeroed by the caller)
      holds the event code, and the unit mask starts from the code's
      hardcoded unit-mask byte. */
  function InitState(e: Entry): EncState {
    EncState(e.code, Field(e.code, 8, 8), {}, {}, None, map[], {}, {})
  }

  function Count(m: map<nat, nat>, g: nat): nat {
    if g in m then m[g] else 0
  }

  /** A unit-mask attribute naming slot `id`. */
  function UmaskStep(e: Entry, st: EncState, id: nat): Result<EncState, PfmErr>
    requires Encodable(e) && id < e.numasks
  {
    var u := e.umasks[id];
    var g := u.grpid;
    if st.lastGrp.Some? && g != st.lastGrp.value && GrpExcl in e.flags then
      Failure(ErrFeatComb)
    else
      var counts := st.grpCounts[g := Count(st.grpCounts, g) + 1];
      var ncombo := if NCombo in u.uflags then st.ncombo + {g} else st.ncombo;
      if counts[g] > 1 && g in ncombo then
        Failure(ErrFeatComb)
      else
        var um := st.umask + u.ucode;
        Success(EncState(
          st.val + Shl(um, 8, 32),   // `umask << 8` is computed in 32 bits
          um,
          st.modhw + u.modhw,
          st.plmmsk,
          Some(g),
          counts,
          ncombo,
          st.ugrpmsk + {g}))
  }

  /** A modifier attribute with value `ival`: `c` rejects values above 255,
      `t` refuses to run once any-thread is set, and the others always pass;
      only the register and the privilege mask change. */
  function ModStep(st: EncState, m: Modifier, ival: nat): (r: Result<EncState, PfmErr>)
    ensures m == ModC ==> (r.Failure? <==> ival > 255)
    ensures m == ModT ==> (r.Failure? <==> AnyBit in st.val)
    ensures m != ModC && m != ModT ==> r.Success?
    ensures r.Failure? ==> r.error == (if m == ModC then ErrAttrVal else ErrAttrSet)
    ensures r.Success? ==> r.value.(val := st.val, plmmsk := st.plmmsk) == st
  {
    match m
    case ModI => Success(st.(val := SetBit(st.val, InvBit, ival != 0)))
    case ModE => Success(st.(val := SetBit(st.val, EdgeBit, ival != 0)))
    case ModC =>
      if ival > 255 then Failure(ErrAttrVal)
      else Success(st.(val := SetCntMask(st.val, ival)))
    case ModU => Success(st.(val := SetBit(st.val, UsrBit, ival != 0), plmmsk := st.plmmsk + {ModBit(ModU)}))
    case ModK => Success(st.(val := SetBit(st.val, OsBit, ival != 0), plmmsk := st.plmmsk + {ModBit(ModK)}))
    case ModT =>
      if AnyBit in st.val then Failure(ErrAttrSet)
      else Success(st.(val := SetBit(st.val, AnyBit, ival != 0)))
  }

  /** What an accepted modifier writes: its own register field, to 1 exactly
      when its value is nonzero, or to the counter-mask value itself for `c`;
      no other register bit changes, and `u` and `k` are recorded in the
      privilege mask. */
  lemma ModStepRegister(st: EncState, m: Modifier, ival: nat)
    requires ModStep(st, m, ival).Success?
    ensures forall b :: b !in RegField(m) ==> (b in ModStep(st, m, ival).value.val <==> b in st.val)
    ensures m != ModC ==> (FlagBit(m) in ModStep(st, m, ival).value.val <==> ival != 0)
    ensures m == ModC ==> Value(ModStep(st, m, ival).value.val, CntLo, 8) == ival
    ensures forall b :: b in ModStep(st, m, ival).value.plmmsk <==>
      b in st.plmmsk || (b == ModBit(m) && (m == ModU || m == ModK))
  {
  }

  function Step(e: Entry, st: EncState, a: Attr): Result<EncState, PfmErr>
    requires Encodable(e) && (a.UmaskAttr? ==> a.id < e.numasks)
  {
    match a
    case UmaskAttr(id) => UmaskStep(e, st, id)
    case ModAttr(m, ival) => ModStep(st, m, ival)
  }

  /** The state after the first `k` attributes, or the first error. */
  function Run(e: Entry, attrs: seq<Attr>, k: nat): Result<EncState, PfmErr>
    requires Encodable(e) && AttrsFit(e, attrs) && k <= |attrs|
  {
    if k == 0 then Success(InitState(e))
    else
      match Run(e, attrs, k - 1)
      case Failure(err) => Failure(err)
      case Success(st) => Step(e, st, attrs[k - 1])
  }

  // ---------------------------------------------------------------------
  // What the first k attributes ask for, independently of the loop
  // ---------------------------------------------------------------------

  /** Some unit-mask attribute among the first `k` belongs to group `g`. */
  predicate UsesGroup(e: Entry, attrs: seq<Attr>, k: nat, g: nat)
    requires Shaped(e) && AttrsFit(e, attrs) && k <= |attrs|
  {
    exists i :: 0 <= i < k && attrs[i].UmaskAttr? && e.umasks[attrs[i].id].grpid == g
  }

  /** Some NCOMBO unit-mask attribute among the first `k` belongs to group `g`. */
  predicate NComboUsed(e: Entry, attrs: seq<Attr>, k: nat, g: nat)
    requires Shaped(e) && AttrsFit(e, attrs) && k <= |attrs|
  {
    exists i :: 0 <= i < k && attrs[i].UmaskAttr? && e.umasks[attrs[i].id].grpid == g
      && NCombo in e.umasks[attrs[i].id].uflags
  }

  /** Bit `b` is in the code of a unit mask selected among the first `k`. */
  predicate CodeBit(e: Entry, attrs: seq<Attr>, k: nat, b: nat)
    requires Shaped(e) && AttrsFit(e, attrs) && k <= |attrs|
  {
    exists i :: 0 <= i < k && attrs[i].UmaskAttr? && b in e.umasks[attrs[i].id].ucode
  }

  /** Modifier bit `b` is hardwired by a unit mask selected among the first `k`. */
  predicate HardwiredBit(e: Entry, attrs: seq<Attr>, k: nat, b: nat)
    requires Shaped(e) && AttrsFit(e, attrs) && k <= |attrs|
  {
    exists i :: 0 <= i < k && attrs[i].UmaskAttr? && b in e.umasks[attrs[i].id].modhw
  }

  /** Privilege modifier bit `b` (`u` or `k`) is given among the first `k`. */
  predicate PrivGiven(attrs: seq<Attr>, k: nat, b: nat)
    requires k <= |attrs|
  {
    exists i :: 0 <= i < k && attrs[i].ModAttr? && (attrs[i].m == ModU || attrs[i].m == ModK)
      && ModBit(attrs[i].m) == b
  }

  /** The combination rules on the unit masks among the first `k`: with
      GRP_EXCL all of them are in one group, and two in the same group are
      allowed only when neither is NCOMBO. */
  predicate GroupRulesOk(e: Entry, attrs: seq<Attr>, k: nat)
    requires Shaped(e) && AttrsFit(e, attrs) && k <= |attrs|
  {
    && (GrpExcl in e.flags ==>
          forall i, j :: 0 <= i < k && 0 <= j < k && attrs[i].UmaskAttr? && attrs[j].UmaskAttr? ==>
            e.umasks[attrs[i].id].grpid == e.umasks[attrs[j].id].grpid)
    && (forall i, j ::
          (0 <= i < j < k && attrs[i].UmaskAttr? && attrs[j].UmaskAttr?
           && e.umasks[attrs[i].id].grpid == e.umasks[attrs[j].id].grpid) ==>
            NCombo !in e.umasks[attrs[i].id].uflags && NCombo !in e.umasks[attrs[j].id].uflags)
  }

  // ---------------------------------------------------------------------
  // What the loop accumulates
  // ---------------------------------------------------------------------

  /** How one accepted attribute changes the accumulators. */
  lemma StepState(e: Entry, attrs: seq<Attr>, k: nat)
    requires Encodable(e) && AttrsFit(e, attrs) && k < |attrs|
    requires Run(e, attrs, k + 1).Success?
    ensures Run(e, attrs, k).Success?
    ensures attrs[k].UmaskAttr? ==>
      && Run(e, attrs, k + 1).value.umask == Run(e, attrs, k).value.umask + e.umasks[attrs[k].id].ucode
      && Run(e, attrs, k + 1).value.modhw == Run(e, attrs, k).value.modhw + e.umasks[attrs[k].id].modhw
      && Run(e, attrs, k + 1).value.plmmsk == Run(e, attrs, k).value.plmmsk
    ensures attrs[k].ModAttr? ==>
      && Run(e, attrs, k + 1).value.umask == Run(e, attrs, k).value.umask
      && Run(e, attrs, k + 1).value.modhw == Run(e, attrs, k).value.modhw
      && Run(e, attrs, k + 1).value.lastGrp == Run(e, attrs, k).value.lastGrp
      && Run(e, attrs, k + 1).value.grpCounts == Run(e, attrs, k).value.grpCounts
      && Run(e, attrs, k + 1).value.ncombo == Run(e, attrs, k).value.ncombo
      && Run(e, attrs, k + 1).value.ugrpmsk == Run(e, attrs, k).value.ugrpmsk
      && (forall b :: b in Run(e, attrs, k + 1).value.plmmsk <==>
            (b in Run(e, attrs, k).value.plmmsk || (b == ModBit(attrs[k].m) && (attrs[k].m == ModU || attrs[k].m == ModK))))
  {
    if attrs[k].ModAttr? {
      ModStepRegister(Run(e, attrs, k).value, attrs[k].m, attrs[k].ival);
    }
  }

  /** Code bits after one more attribute. */
  lemma CodeBitStep(e: Entry, attrs: seq<Attr>, k: nat)
    requires Encodable(e) && AttrsFit(e, attrs) && k < |attrs|
    ensures forall b :: CodeBit(e, attrs, k + 1, b) <==>
      CodeBit(e, attrs, k, b) || (attrs[k].UmaskAttr? && b in e.umasks[attrs[k].id].ucode)
  {
    forall b | CodeBit(e, attrs, k + 1, b) && !(attrs[k].UmaskAttr? && b in e.umasks[attrs[k].id].ucode)
      ensures CodeBit(e, attrs, k, b)
    {
      var i :| 0 <= i < k + 1 && attrs[i].UmaskAttr? && b in e.umasks[attrs[i].id].ucode;
      assert i < k;
    }
  }

  /** Hardwired modifiers after one more attribute. */
  lemma HardwiredBitStep(e: Entry, attrs: seq<Attr>, k: nat)
    requires Encodable(e) && AttrsFit(e, attrs) && k < |attrs|
    ensures forall b :: HardwiredBit(e, attrs, k + 1, b) <==>
      HardwiredBit(e, attrs, k, b) || (attrs[k].UmaskAttr? && b in e.umasks[attrs[k].id].modhw)
  {
    forall b | HardwiredBit(e, attrs, k + 1, b) && !(attrs[k].UmaskAttr? && b in e.umasks[attrs[k].id].modhw)
      ensures HardwiredBit(e, attrs, k, b)
    {
      var i :| 0 <= i < k + 1 && attrs[i].UmaskAttr? && b in e.umasks[attrs[i].id].modhw;
      assert i < k;
    }
  }

  /** Privilege modifiers given after one more attribute. */
  lemma PrivGivenStep(attrs: seq<Attr>, k: nat)
    requires k < |attrs|
    ensures forall b :: PrivGiven(attrs, k + 1, b) <==>
      PrivGiven(attrs, k, b) || (attrs[k].ModAttr? && (attrs[k].m == ModU || attrs[k].m == ModK) && ModBit(attrs[k].m) == b)
  {
    forall b | PrivGiven(attrs, k + 1, b) && !(attrs[k].ModAttr? && (attrs[k].m == ModU || attrs[k].m == ModK) && ModBit(attrs[k].m) == b)
      ensures PrivGiven(attrs, k, b)
    {
      var i :| 0 <= i < k + 1 && attrs[i].ModAttr? && (attrs[i].m == ModU || attrs[i].m == ModK) && ModBit(attrs[i].m) == b;
      assert i < k;
    }
  }

  /** NCOMBO groups after one more attribute. */
  lemma NComboUsedStep(e: Entry, attrs: seq<Attr>, k: nat)
    requires Encodable(e) && AttrsFit(e, attrs) && k < |attrs|
    ensures forall h :: NComboUsed(e, attrs, k + 1, h) <==>
      NComboUsed(e, attrs, k, h)
      || (attrs[k].UmaskAttr? && e.umasks[attrs[k].id].grpid == h && NCombo in e.umasks[attrs[k].id].uflags)
  {
    forall h | NComboUsed(e, attrs, k + 1, h)
        && !(attrs[k].UmaskAttr? && e.umasks[attrs[k].id].grpid == h && NCombo in e.umasks[attrs[k].id].uflags)
      ensures NComboUsed(e, attrs, k, h)
    {
      var i :| 0 <= i < k + 1 && attrs[i].UmaskAttr? && e.umasks[attrs[i].id].grpid == h
        && NCombo in e.umasks[attrs[i].id].uflags;
      assert i < k;
    }
  }

  /** After the first `k` attributes, the unit mask holds the code's unit-mask
      byte and every code bit of the selected unit masks, and nothing else. */
  lemma {:induction false} RunUmask(e: Entry, attrs: seq<Attr>, k: nat)
    requires Encodable(e) && AttrsFit(e, attrs) && k <= |attrs|
    requires Run(e, attrs, k).Success?
    ensures forall b :: b in Run(e, attrs, k).value.umask <==> b in Field(e.code, 8, 8) || CodeBit(e, attrs, k, b)
  {
    if k > 0 {
      StepState(e, attrs, k - 1);
      RunUmask(e, attrs, k - 1);
      CodeBitStep(e, attrs, k - 1);
    }
  }

  /** After the first `k` attributes, the low 16 bits of the register are the
      code's event select and the accumulated unit mask: no modifier reaches
      them. */
  lemma {:induction false} RunLowBits(e: Entry, attrs: seq<Attr>, k: nat)
    requires Encodable(e) && AttrsFit(e, attrs) && k <= |attrs|
    requires Run(e, attrs, k).Success?
    ensures forall b :: b < 8 ==> (b in Run(e, attrs, k).value.val <==> b in e.code)
    ensures forall b :: 8 <= b < 16 ==> (b in Run(e, attrs, k).value.val <==> b - 8 in Run(e, attrs, k).value.umask)
  {
    if k > 0 {
      RunLowBits(e, attrs, k - 1);
      var st := Run(e, attrs, k - 1).value;
      var st' := Run(e, attrs, k).value;
      if attrs[k - 1].UmaskAttr? {
        forall b | 8 <= b < 16
          ensures b in st'.val <==> b - 8 in st'.umask
        {
          if b - 8 in st.umask {
            assert b - 8 in st'.umask;
          }
        }
      } else {
        ModStepRegister(st, attrs[k - 1].m, attrs[k - 1].ival);
        RegFieldHigh(attrs[k - 1].m);
      }
    }
  }

  /** After the first `k` attributes, the register's unit-mask byte holds the
      code's unit-mask byte and the low code bits of the selected unit masks. */
  lemma RunUnitMaskByte(e: Entry, attrs: seq<Attr>, k: nat)
    requires Encodable(e) && AttrsFit(e, attrs) && k <= |attrs|
    requires Run(e, attrs, k).Success?
    ensures forall b :: 8 <= b < 16 ==>
      (b in Run(e, attrs, k).value.val <==> b in e.code || CodeBit(e, attrs, k, b - 8))
  {
    RunLowBits(e, attrs, k);
    RunUmask(e, attrs, k);
    var st := Run(e, attrs, k).value;
    forall b | 8 <= b < 16
      ensures b in st.val <==> b in e.code || CodeBit(e, attrs, k, b - 8)
    {
      assert b in st.val <==> b - 8 in st.umask;
      assert (b - 8) + 8 == b;
    }
  }

  /** After the first `k` attributes, `modhw` holds exactly the modifiers
      hardwired by the selected unit masks. */
  lemma {:induction false} RunModhw(e: Entry, attrs: seq<Attr>, k: nat)
    requires Encodable(e) && AttrsFit(e, attrs) && k <= |attrs|
    requires Run(e, attrs, k).Success?
    ensures forall b :: b in Run(e, attrs, k).value.modhw <==> HardwiredBit(e, attrs, k, b)
  {
    if k > 0 {
      StepState(e, attrs, k - 1);
      RunModhw(e, attrs, k - 1);
      HardwiredBitStep(e, attrs, k - 1);
    }
  }

  /** After the first `k` attributes, `plmmsk` records exactly the privilege
      modifiers given. */
  lemma {:induction false} RunPlmmsk(e: Entry, attrs: seq<Attr>, k: nat)
    requires Encodable(e) && AttrsFit(e, attrs) && k <= |attrs|
    requires Run(e, attrs, k).Success?
    ensures forall b :: b in Run(e, attrs, k).value.plmmsk <==> PrivGiven(attrs, k, b)
  {
    if k > 0 {
      StepState(e, attrs, k - 1);
      RunPlmmsk(e, attrs, k - 1);
      PrivGivenStep(attrs, k - 1);
    }
  }

  /** The bookkeeping of the group checks after the first `k` attributes:
      the last group, which groups were used (counter above zero, bit in
      `ugrpmsk`) and which hold an NCOMBO unit mask. */
  ghost predicate Tracks(e: Entry, attrs: seq<Attr>, k: nat, st: EncState)
    requires Shaped(e) && AttrsFit(e, attrs) && k <= |attrs|
  {
    && (st.lastGrp.None? ==> forall i :: 0 <= i < k ==> attrs[i].ModAttr?)
    && (st.lastGrp.Some? ==> UsesGroup(e, attrs, k, st.lastGrp.value))
    && (forall g :: Count(st.grpCounts, g) > 0 <==> UsesGroup(e, attrs, k, g))
    && (forall g :: g in st.ugrpmsk <==> UsesGroup(e, attrs, k, g))
    && (forall g :: g in st.ncombo <==> NComboUsed(e, attrs, k, g))
  }

  /** A successful run keeps the group rules and its bookkeeping is accurate. */
  lemma {:induction false} RunTracks(e: Entry, attrs: seq<Attr>, k: nat)
    requires Encodable(e) && AttrsFit(e, attrs) && k <= |attrs|
    requires Run(e, attrs, k).Success?
    ensures Tracks(e, attrs, k, Run(e, attrs, k).value)
    ensures GroupRulesOk(e, attrs, k)
  {
    if k > 0 {
      RunTracks(e, attrs, k - 1);
      var st := Run(e, attrs, k - 1).value;
      assert Run(e, attrs, k) == Step(e, st, attrs[k - 1]);
      if attrs[k - 1].UmaskAttr? {
        UmaskStepRules(e, attrs, k - 1, st);
        UmaskStepTracks(e, attrs, k - 1, st);
      } else {
        ModStepTracks(e, attrs, k - 1, st);
      }
    }
  }

  lemma ModStepTracks(e: Entry, attrs: seq<Attr>, k: nat, st: EncState)
    requires Encodable(e) && AttrsFit(e, attrs) && k < |attrs| && attrs[k].ModAttr?
    requires Tracks(e, attrs, k, st) && GroupRulesOk(e, attrs, k)
    requires ModStep(st, attrs[k].m, attrs[k].ival).Success?
    ensures Tracks(e, attrs, k + 1, ModStep(st, attrs[k].m, attrs[k].ival).value)
    ensures GroupRulesOk(e, attrs, k + 1)
  {
    var st' := ModStep(st, attrs[k].m, attrs[k].ival).value;
    assert st'.lastGrp == st.lastGrp && st'.grpCounts == st.grpCounts
      && st'.ncombo == st.ncombo && st'.ugrpmsk == st.ugrpmsk;
    UsesGroupStep(e, attrs, k);
    NComboUsedStep(e, attrs, k);
  }

  /** A unit mask the loop accepts keeps the combination rules. */
  lemma UmaskStepRules(e: Entry, attrs: seq<Attr>, k: nat, st: EncState)
    requires Encodable(e) && AttrsFit(e, attrs) && k < |attrs| && attrs[k].UmaskAttr?
    requires Tracks(e, attrs, k, st) && GroupRulesOk(e, attrs, k)
    requires UmaskStep(e, st, attrs[k].id).Success?
    ensures GroupRulesOk(e, attrs, k + 1)
  {
    var u := e.umasks[attrs[k].id];
    var g := u.grpid;
    assert !(st.lastGrp.Some? && g != st.lastGrp.value && GrpExcl in e.flags);
    assert !(Count(st.grpCounts, g) > 0 && (g in st.ncombo || NCombo in u.uflags));
    // GRP_EXCL: every earlier unit mask is in the group of the last one, which is g.
    if GrpExcl in e.flags {
      forall i | 0 <= i < k && attrs[i].UmaskAttr?
        ensures e.umasks[attrs[i].id].grpid == g
      {
        var h := st.lastGrp.value;
        var i' :| 0 <= i' < k && attrs[i'].UmaskAttr? && e.umasks[attrs[i'].id].grpid == h;
      }
    }
    // NCOMBO: a second unit mask in g is only accepted when none in g is NCOMBO.
    forall i | 0 <= i < k && attrs[i].UmaskAttr? && e.umasks[attrs[i].id].grpid == g
      ensures NCombo !in e.umasks[attrs[i].id].uflags && NCombo !in u.uflags
    {
      assert UsesGroup(e, attrs, k, g);
      assert !NComboUsed(e, attrs, k, g);
    }
  }

  /** The bookkeeping stays accurate across an accepted unit mask. */
  lemma UmaskStepTracks(e: Entry, attrs: seq<Attr>, k: nat, st: EncState)
    requires Encodable(e) && AttrsFit(e, attrs) && k < |attrs| && attrs[k].UmaskAttr?
    requires Tracks(e, attrs, k, st)
    requires UmaskStep(e, st, attrs[k].id).Success?
    ensures Tracks(e, attrs, k + 1, UmaskStep(e, st, attrs[k].id).value)
  {
    var u := e.umasks[attrs[k].id];
    var g := u.grpid;
    var st' := UmaskStep(e, st, attrs[k].id).value;
    assert st'.lastGrp == Some(g);
    assert st'.ugrpmsk == st.ugrpmsk + {g};
    assert st'.grpCounts == st.grpCounts[g := Count(st.grpCounts, g) + 1];
    assert st'.ncombo == if NCombo in u.uflags then st.ncombo + {g} else st.ncombo;
    UsesGroupStep(e, attrs, k);
    NComboUsedStep(e, attrs, k);
    forall h
      ensures Count(st'.grpCounts, h) > 0 <==> UsesGroup(e, attrs, k + 1, h)
    {
      if h != g {
        assert Count(st'.grpCounts, h) == Count(st.grpCounts, h);
      }
    }
  }

  /** Group use after one more attribute. */
  lemma UsesGroupStep(e: Entry, attrs: seq<Attr>, k: nat)
    requires Encodable(e) && AttrsFit(e, attrs) && k < |attrs|
    ensures forall h :: UsesGroup(e, attrs, k + 1, h) <==>
      UsesGroup(e, attrs, k, h) || (attrs[k].UmaskAttr? && e.umasks[attrs[k].id].grpid == h)
  {
    forall h | UsesGroup(e, attrs, k + 1, h) && !(attrs[k].UmaskAttr? && e.umasks[attrs[k].id].grpid == h)
      ensures UsesGroup(e, attrs, k, h)
    {
      var i :| 0 <= i < k + 1 && attrs[i].UmaskAttr? && e.umasks[attrs[i].id].grpid == h;
      assert i < k;
    }
  }

  /** A broken rule stays broken as attributes are added. */
  lemma GroupRulesPrefix(e: Entry, attrs: seq<Attr>, k: nat)
    requires Encodable(e) && AttrsFit(e, attrs) && k < |attrs|
    requires !GroupRulesOk(e, attrs, k)
    ensures !GroupRulesOk(e, attrs, k + 1)
  {
  }

  /** A combination error means a rule is broken: the loop never rejects a
      combination the rules allow. */
  lemma {:induction false} RunFeatCombBreaksRules(e: Entry, attrs: seq<Attr>, k: nat)
    requires Encodable(e) && AttrsFit(e, attrs) && k <= |attrs|
    requires Run(e, attrs, k) == Failure(ErrFeatComb)
    ensures !GroupRulesOk(e, attrs, k)
  {
    var prev := Run(e, attrs, k - 1);
    if prev.Failure? {
      RunFeatCombBreaksRules(e, attrs, k - 1);
      GroupRulesPrefix(e, attrs, k - 1);
    } else {
      RunTracks(e, attrs, k - 1);
      var st := prev.value;
      var id := attrs[k - 1].id;
      var g := e.umasks[id].grpid;
      if st.lastGrp.Some? && g != st.lastGrp.value && GrpExcl in e.flags {
        var i :| 0 <= i < k - 1 && attrs[i].UmaskAttr? && e.umasks[attrs[i].id].grpid == st.lastGrp.value;
        assert e.umasks[attrs[i].id].grpid != e.umasks[attrs[k - 1].id].grpid;
      } else {
        assert Count(st.grpCounts, g) > 0;
        assert UsesGroup(e, attrs, k - 1, g);
        var i :| 0 <= i < k - 1 && attrs[i].UmaskAttr? && e.umasks[attrs[i].id].grpid == g;
        if NCombo !in e.umasks[id].uflags {
          var i' :| 0 <= i' < k - 1 && attrs[i'].UmaskAttr? && e.umasks[attrs[i'].id].grpid == g
            && NCombo in e.umasks[attrs[i'].id].uflags;
          assert e.umasks[attrs[i'].id].grpid == e.umasks[attrs[k - 1].id].grpid;
        } else {
          assert e.umasks[attrs[i].id].grpid == e.umasks[attrs[k - 1].id].grpid;
        }
      }
    }
  }

  /** Only the modifiers raise the other errors; with unit masks alone the
      loop can only fail on the combination rules. */
  lemma {:induction false} RunErrors(e: Entry, attrs: seq<Attr>, k: nat)
    requires Encodable(e) && AttrsFit(e, attrs) && k <= |attrs|
    ensures Run(e, attrs, k).Failure? ==> Run(e, attrs, k).error in {ErrFeatComb, ErrAttrVal, ErrAttrSet}
    ensures (forall i :: 0 <= i < k ==> attrs[i].UmaskAttr?) && Run(e, attrs, k).Failure? ==>
      Run(e, attrs, k).error == ErrFeatComb
  {
    if k > 0 {
      RunErrors(e, attrs, k - 1);
    }
  }

  /** For unit-mask attributes alone, in any order, the loop succeeds exactly
      when the combination rules hold, and otherwise fails with
      PFM_ERR_FEATCOMB. */
  lemma UmasksOnlyRun(e: Entry, attrs: seq<Attr>)
    requires Encodable(e) && AttrsFit(e, attrs)
    requires forall i :: 0 <= i < |attrs| ==> attrs[i].UmaskAttr?
    ensures Run(e, attrs, |attrs|).Success? <==> GroupRulesOk(e, attrs, |attrs|)
    ensures Run(e, attrs, |attrs|).Failure? ==> Run(e, attrs, |attrs|).error == ErrFeatComb
  {
    RunErrors(e, attrs, |attrs|);
    if Run(e, attrs, |attrs|).Success? {
      RunTracks(e, attrs, |attrs|);
    } else {
      RunFeatCombBreaksRules(e, attrs, |attrs|);
    }
  }
}
