/** intel_x86_encode_gen after its attribute loop, the canonical event string,
    and pfm_intel_x86_get_encoding (lib/pfmlib_intel_x86.c). */
module IntelX86Encode {
  import opened Wrappers
  import opened Words
  import opened PfmErrors
  import opened IntelX86Table
  import opened IntelX86Defaults
  import opened IntelX86Run

  /** Privilege levels in a `PFM_PLMx` mask: PFM_PLM0 is bit 0, PFM_PLM3 bit 3. */
  const Plm0Bit: nat := 0
  const Plm3Bit: nat := 3

  /** The event index and attributes are ones the encoder can process. */
  predicate EncodableDesc(t: Table, d: EventDesc) {
    d.event < |t| && Encodable(t[d.event]) && AttrsFit(t[d.event], d.attrs)
  }

  /** `a ^ b`. */
  function Xor(a: Word, b: Word): (r: Word)
    ensures forall g :: g in r <==> (g in a <==> g !in b)
  {
    (a - b) + (b - a)
  }

  // ---------------------------------------------------------------------
  // intel_x86_encode_gen after the attribute loop
  // ---------------------------------------------------------------------

  /** A modifier hardwired by a selected unit mask is also set in the
      register (the `PFM_ERR_ATTR_HW` checks). */
  predicate HwConflict(modhw: Word, v: Word) {
    || (ModBit(ModI) in modhw && InvBit in v)
    || (ModBit(ModE) in modhw && EdgeBit in v)
    || (ModBit(ModC) in modhw && v * Span(CntLo, CntLo + 8) != {})
    || (ModBit(ModT) in modhw && AnyBit in v)
    || (ModBit(ModU) in modhw && UsrBit in v)
    || (ModBit(ModK) in modhw && OsBit in v)
  }

  /** The default privilege mask, applied only when neither `u` nor `k` was
      given: PFM_PLM0 sets OS and PFM_PLM3 sets USR. */
  function PrivDefaulted(v: Word, plmmsk: Word, dflPlm: Word): Word {
    if ModBit(ModK) in plmmsk || ModBit(ModU) in plmmsk then v
    else
      var v1 := if Plm0Bit in dflPlm then v + {OsBit} else v;
      if Plm3Bit in dflPlm then v1 + {UsrBit} else v1
  }

  /** What encode_gen produces: the register and the canonical event string. */
  datatype Encoding = Encoding(val: Word, fstr: string)

  /** The steps of intel_x86_encode_gen after the attribute loop, on the
      state `st` the loop left: the hardwired-modifier checks, the default
      privilege mask, the defaults of the uncovered groups, and EN and INT.
      The defaults only decide success: they are ORed into the local
      `umask`, which the string decoding then overwrites, so they never reach
      the register. */
  function Finish(e: Entry, st: EncState, dflPlm: Word): (r: Result<Word, PfmErr>)
    requires Encodable(e) && Fits(st.ugrpmsk, NumGrp)
    ensures r.Success? ==> EnBit in r.value && IntBit in r.value
    ensures r.Success? ==> forall b :: b < 16 ==> (b in r.value <==> b in st.val)
    ensures r.Failure? ==> r.error == ErrAttrHw || r.error == ErrUmask
  {
    if HwConflict(st.modhw, st.val) then Failure(ErrAttrHw)
    else
      var v1 := PrivDefaulted(st.val, st.plmmsk, dflPlm);
      var dfl := UncoveredDefaults(e, st.ugrpmsk, st.umask);
      if dfl.Failure? then Failure(dfl.error)
      else Success(v1 + {EnBit, IntBit})
  }

  /** The check that every unit-mask group is covered: when the covered
      groups differ from `(1 << ngrp) - 1`, the groups in either but not both
      are handed to intel_x86_add_defaults, which fails when one of them has
      no default. */
  function UncoveredDefaults(e: Entry, ugrpmsk: Word, umask: Word): (r: Result<Defaults, PfmErr>)
    requires Encodable(e) && Fits(ugrpmsk, NumGrp)
    ensures r.Failure? <==> exists g :: g in Xor(ugrpmsk, Span(0, e.ngrp)) && !HasDefault(e, g)
    ensures r.Failure? ==> r.error == ErrUmask
    ensures r.Success? ==> forall b :: b in r.value.umask <==>
      b in umask || DefaultHasBit(e, Xor(ugrpmsk, Span(0, e.ngrp)), b)
  {
    var grpmsk := Span(0, e.ngrp);
    XorFits(ugrpmsk, e.ngrp);
    if ugrpmsk != grpmsk then AddDefaults(e, Xor(ugrpmsk, grpmsk), umask)
    else
      assert Xor(ugrpmsk, grpmsk) == {};
      Success(Defaults(umask, ""))
  }

  /** The register intel_x86_encode_gen computes: the attribute loop and
      the steps after it. */
  function EncodeReg(e: Entry, attrs: seq<Attr>, dflPlm: Word): (r: Result<Word, PfmErr>)
    requires Encodable(e) && AttrsFit(e, attrs)
    ensures r.Success? ==> EnBit in r.value && IntBit in r.value
    ensures r.Failure? ==> r.error in {ErrFeatComb, ErrAttrVal, ErrAttrSet, ErrAttrHw, ErrUmask}
  {
    RunErrors(e, attrs, |attrs|);
    match Run(e, attrs, |attrs|)
    case Failure(err) => Failure(err)
    case Success(st) =>
      RunGroupsFit(e, attrs);
      Finish(e, st, dflPlm)
  }

  /** The groups handed to intel_x86_add_defaults after a successful
      attribute loop. */
  function Uncovered(e: Entry, attrs: seq<Attr>): Word
    requires Encodable(e) && AttrsFit(e, attrs)
    requires Run(e, attrs, |attrs|).Success?
  {
    Xor(Run(e, attrs, |attrs|).value.ugrpmsk, Span(0, e.ngrp))
  }

  /** The local `umask` once intel_x86_add_defaults has completed it: the
      code's unit-mask byte, the codes of the selected unit masks and those
      of the defaults of the uncovered groups. */
  function CompletedUmask(e: Entry, attrs: seq<Attr>, dflPlm: Word): (r: Word)
    requires Encodable(e) && AttrsFit(e, attrs)
    requires EncodeReg(e, attrs, dflPlm).Success?
    ensures Run(e, attrs, |attrs|).Success?
    ensures forall b :: b in r <==>
      b in Field(e.code, 8, 8) || CodeBit(e, attrs, |attrs|, b) || DefaultHasBit(e, Uncovered(e, attrs), b)
  {
    RunErrors(e, attrs, |attrs|);
    RunGroupsFit(e, attrs);
    RunUmask(e, attrs, |attrs|);
    var st := Run(e, attrs, |attrs|).value;
    UncoveredDefaults(e, st.ugrpmsk, st.umask).value.umask
  }

  /** intel_x86_encode_gen with the completed unit mask written back into
      the register after intel_x86_add_defaults (`reg->val |= umask << 8`),
      so that an omitted group gets its default unit mask. Success and errors
      are those of the code as written. */
  function EncodeRegFixed(e: Entry, attrs: seq<Attr>, dflPlm: Word): (r: Result<Word, PfmErr>)
    requires Encodable(e) && AttrsFit(e, attrs)
    ensures r.Success? <==> EncodeReg(e, attrs, dflPlm).Success?
    ensures r.Failure? ==> r.error == EncodeReg(e, attrs, dflPlm).error
    ensures r.Success? ==> forall b :: b < 8 || b >= 32 ==> (b in r.value <==> b in EncodeReg(e, attrs, dflPlm).value)
  {
    match EncodeReg(e, attrs, dflPlm)
    case Failure(err) => Failure(err)
    case Success(v) => Success(v + Shl(CompletedUmask(e, attrs, dflPlm), 8, 32))
  }

  /** With the fix, the register's unit-mask byte holds the code's unit-mask
      byte, the low code bits of the selected unit masks and those of the
      default unit masks of every uncovered group. */
  lemma EncodeRegFixedUnitMaskByte(e: Entry, attrs: seq<Attr>, dflPlm: Word)
    requires Encodable(e) && AttrsFit(e, attrs)
    requires EncodeRegFixed(e, attrs, dflPlm).Success?
    ensures Run(e, attrs, |attrs|).Success?
    ensures forall b :: 8 <= b < 16 ==>
      (b in EncodeRegFixed(e, attrs, dflPlm).value <==>
        b in e.code || CodeBit(e, attrs, |attrs|, b - 8) || DefaultHasBit(e, Uncovered(e, attrs), b - 8))
  {
    EncodeRegLowBits(e, attrs, dflPlm);
    var u := CompletedUmask(e, attrs, dflPlm);
    forall b | 8 <= b < 16
      ensures b in EncodeRegFixed(e, attrs, dflPlm).value <==>
        b in e.code || CodeBit(e, attrs, |attrs|, b - 8) || DefaultHasBit(e, Uncovered(e, attrs), b - 8)
    {
      assert b in Shl(u, 8, 32) <==> b - 8 in u;
      assert b - 8 in Field(e.code, 8, 8) <==> b in e.code by {
        assert (b - 8) + 8 == b;
      }
    }
  }

  /** intel_x86_encode_gen as written: the register of `EncodeReg`, without
      the defaults of the uncovered groups, and the canonical string decoded
      from it with the as-written matching rule. */
  function EncodeGen(t: Table, d: EventDesc, arch: int): (r: Result<Encoding, PfmErr>)
    requires EncodableDesc(t, d)
    ensures r.Success? <==> EncodeReg(t[d.event], d.attrs, d.dflPlm).Success?
    ensures r.Failure? ==> r.error == EncodeReg(t[d.event], d.attrs, d.dflPlm).error
    ensures r.Success? ==>
      && r.value.val == EncodeReg(t[d.event], d.attrs, d.dflPlm).value
      && EnBit in r.value.val && IntBit in r.value.val
      && EventLabel(t[d.event]) <= r.value.fstr
  {
    match EncodeReg(t[d.event], d.attrs, d.dflPlm)
    case Failure(err) => Failure(err)
    case Success(v) => Success(Encoding(v, CanonicalString(t[d.event], v, arch, AsWritten)))
  }

  /** intel_x86_encode_gen corrected: the unit-mask defaults are written back
      into the register and the string names only unit masks whose code is
      in it. */
  function EncodeGenFixed(t: Table, d: EventDesc, arch: int): (r: Result<Encoding, PfmErr>)
    requires EncodableDesc(t, d)
    ensures r.Success? <==> EncodeGen(t, d, arch).Success?
    ensures r.Failure? ==> r.error == EncodeGen(t, d, arch).error
    ensures r.Success? ==>
      && r.value.val == EncodeRegFixed(t[d.event], d.attrs, d.dflPlm).value
      && EventLabel(t[d.event]) <= r.value.fstr
  {
    match EncodeRegFixed(t[d.event], d.attrs, d.dflPlm)
    case Failure(err) => Failure(err)
    case Success(v) => Success(Encoding(v, CanonicalString(t[d.event], v, arch, Corrected)))
  }

  /** The uncovered groups fit the `unsigned int` handed to
      intel_x86_add_defaults. */
  lemma XorFits(ugrpmsk: Word, ngrp: nat)
    requires Fits(ugrpmsk, NumGrp) && ngrp < NumGrp
    ensures Fits(Xor(ugrpmsk, Span(0, ngrp)), 32)
  {
  }

  /** The covered groups are below INTEL_X86_NUM_GRP. */
  lemma RunGroupsFit(e: Entry, attrs: seq<Attr>)
    requires Encodable(e) && AttrsFit(e, attrs)
    requires Run(e, attrs, |attrs|).Success?
    ensures Fits(Run(e, attrs, |attrs|).value.ugrpmsk, NumGrp)
  {
    RunTracks(e, attrs, |attrs|);
    var st := Run(e, attrs, |attrs|).value;
    forall g | g in st.ugrpmsk
      ensures g < NumGrp
    {
      var i :| 0 <= i < |attrs| && attrs[i].UmaskAttr? && e.umasks[attrs[i].id].grpid == g;
    }
  }

  /** On success the low 16 bits of the register are the event select of the
      code and the unit-mask byte of the code together with the code bits of
      the selected unit masks: nothing else, in particular no default unit
      mask, reaches them. */
  lemma EncodeRegLowBits(e: Entry, attrs: seq<Attr>, dflPlm: Word)
    requires Encodable(e) && AttrsFit(e, attrs)
    requires EncodeReg(e, attrs, dflPlm).Success?
    ensures forall b :: b < 8 ==> (b in EncodeReg(e, attrs, dflPlm).value <==> b in e.code)
    ensures forall b :: 8 <= b < 16 ==>
      (b in EncodeReg(e, attrs, dflPlm).value <==> b in e.code || CodeBit(e, attrs, |attrs|, b - 8))
  {
    RunLowBits(e, attrs, |attrs|);
    RunUnitMaskByte(e, attrs, |attrs|);
  }

  // ---------------------------------------------------------------------
  // The canonical string
  // ---------------------------------------------------------------------

  /** The event's printed name: its `from` name if it has one. */
  function EventLabel(e: Entry): string
    requires e.from.Some? || e.name.Some?
  {
    if e.from.Some? then e.from.value else e.name.value
  }

  /** The low byte of a unit mask's code, without the hardwired modifiers. */
  function LowCode(u: UnitMask): Word {
    u.ucode * Span(0, 8)
  }

  /** The bits a unit mask's group owns, 0xff when none are given. */
  function GroupBits(u: UnitMask): Word {
    if u.grpmsk == {} then Span(0, 8) else u.grpmsk
  }

  /** How a unit mask that is not NCOMBO is matched against what is left of
      the unit-mask byte: as written, the byte need only meet the group's bits;
      corrected, it must meet the unit mask's own code. */
  datatype Rule = AsWritten | Corrected

  /** Whether the decoding loop prints slot `u` for the remaining byte `umask`. */
  predicate Printed(u: UnitMask, umask: Word, rule: Rule) {
    if NCombo in u.uflags then umask * GroupBits(u) == LowCode(u)
    else if rule == AsWritten then umask * GroupBits(u) != {}
    else umask * LowCode(u) != {}
  }

  /** The bits a printed slot removes from the byte: the whole group for an
      NCOMBO unit mask, its own code otherwise. */
  function Consumed(u: UnitMask): Word {
    if NCombo in u.uflags then GroupBits(u) else LowCode(u)
  }

  /** The decoding loop from slot `k` on, with `umask` what is left of the
      register's unit-mask byte: the slots whose names are printed. Aliases
      are skipped. */
  function DecodeFrom(e: Entry, k: nat, umask: Word, rule: Rule): seq<nat>
    requires Shaped(e)
    decreases e.numasks - k
  {
    if k >= e.numasks then []
    else
      var u := e.umasks[k];
      if u.ufrom.None? && Printed(u, umask, rule) then [k] + DecodeFrom(e, k + 1, umask - Consumed(u), rule)
      else DecodeFrom(e, k + 1, umask, rule)
  }

  /** The unit masks named in the string of a register value. */
  function DecodeUmasks(e: Entry, v: Word, rule: Rule): seq<nat>
    requires Shaped(e)
  {
    DecodeFrom(e, 0, Field(v, 8, 8), rule)
  }

  /** ":name" for each slot of `ks`, in order. */
  function UmaskNames(e: Entry, ks: seq<nat>): string
    requires Encodable(e)
    requires forall i :: 0 <= i < |ks| ==> ks[i] < e.numasks
  {
    if |ks| == 0 then ""
    else ":" + e.umasks[ks[0]].uname.value + UmaskNames(e, ks[1..])
  }

  function Digit(n: nat): (c: char)
    requires n < 10
    ensures IsDigit(c) && DigitValue(c) == n
  {
    ('0' as int + n) as char
  }

  predicate IsDigit(c: char) {
    '0' <= c <= '9'
  }

  function DigitValue(c: char): nat
    requires IsDigit(c)
  {
    c as int - '0' as int
  }

  /** `%PRIu64` of a value. */
  function DecimalString(n: nat): string
    decreases n
  {
    if n < 10 then [Digit(n)] else DecimalString(n / 10) + [Digit(n % 10)]
  }

  /** The value of a one-bit field. */
  function FlagValue(v: Word, b: nat): nat {
    if b in v then 1 else 0
  }

  /** `"%s=%" PRIu64` of a modifier's name and value. */
  function ModifierItem(m: Modifier, n: nat): string {
    ModName(m) + "=" + DecimalString(n)
  }

  /** The item with its leading field separator, as one `evt_strcat` adds it. */
  function ModifierText(m: Modifier, n: nat): string {
    ":" + ModifierItem(m, n)
  }

  /** The modifier items in the order they are printed. */
  function ModifierItems(v: Word, arch: int): seq<string> {
    [ ModifierItem(ModK, FlagValue(v, OsBit)),
      ModifierItem(ModU, FlagValue(v, UsrBit)),
      ModifierItem(ModE, FlagValue(v, EdgeBit)),
      ModifierItem(ModI, FlagValue(v, InvBit)),
      ModifierItem(ModC, Value(v, CntLo, 8)) ]
    + (if arch > 2 then [ModifierItem(ModT, FlagValue(v, AnyBit))] else [])
  }

  /** The modifier part: k, u, e, i and c, then t from architecture version 3 on. */
  function ModifierSuffix(v: Word, arch: int): string {
    ModifierText(ModK, FlagValue(v, OsBit))
    + ModifierText(ModU, FlagValue(v, UsrBit))
    + ModifierText(ModE, FlagValue(v, EdgeBit))
    + ModifierText(ModI, FlagValue(v, InvBit))
    + ModifierText(ModC, Value(v, CntLo, 8))
    + (if arch > 2 then ModifierText(ModT, FlagValue(v, AnyBit)) else "")
  }

  /** `e->fstr` as encode_gen leaves it for the final register value `v`,
      with the matching rule `rule`. */
  function CanonicalString(e: Entry, v: Word, arch: int, rule: Rule): string
    requires Encodable(e)
  {
    DecodeInRange(e, 0, Field(v, 8, 8), rule);
    EventLabel(e) + UmaskNames(e, DecodeUmasks(e, v, rule)) + ModifierSuffix(v, arch)
  }

  // ---------------------------------------------------------------------
  // Reading the canonical string back
  // ---------------------------------------------------------------------

  /** The ':'-separated fields of a string: one more than it has colons. */
  function Fields(s: string): (r: seq<string>)
    ensures |r| >= 1
    decreases |s|
  {
    if |s| == 0 then [""]
    else
      var f := Fields(s[1..]);
      if s[0] == ':' then [""] + f else [[s[0]] + f[0]] + f[1..]
  }

  /** The value of a string of decimal digits. */
  function ParseDecimal(s: string): nat
    requires forall i :: 0 <= i < |s| ==> IsDigit(s[i])
  {
    if |s| == 0 then 0
    else 10 * ParseDecimal(s[..|s| - 1]) + DigitValue(s[|s| - 1])
  }

  /** A `name=value` field with a one-letter name and a decimal value. */
  function ModifierField(f: string): Option<(string, nat)> {
    if |f| >= 3 && f[1] == '=' && forall i :: 2 <= i < |f| ==> IsDigit(f[i])
    then Some(([f[0]], ParseDecimal(f[2..])))
    else None
  }

  /** Neither the event's printed name nor any unit-mask name holds a ':'. */
  predicate ColonFreeNames(e: Entry)
    requires Encodable(e)
  {
    && ':' !in EventLabel(e)
    && forall j :: 0 <= j < e.numasks ==> ':' !in e.umasks[j].uname.value
  }

  /** Decimal rendering is read back by `ParseDecimal`, and holds only digits. */
  lemma {:induction false} DecimalRoundTrip(n: nat)
    ensures |DecimalString(n)| >= 1
    ensures forall i :: 0 <= i < |DecimalString(n)| ==> IsDigit(DecimalString(n)[i])
    ensures ParseDecimal(DecimalString(n)) == n
    decreases n
  {
    if n >= 10 {
      DecimalRoundTrip(n / 10);
      var s := DecimalString(n);
      assert s[..|s| - 1] == DecimalString(n / 10);
    }
  }

  /** A colon separates the fields of its two sides. */
  lemma {:induction false} FieldsJoin(x: string, z: string)
    ensures Fields(x + ":" + z) == Fields(x) + Fields(z)
    decreases |x|
  {
    if |x| == 0 {
      assert x + ":" + z == ":" + z;
      assert (":" + z)[1..] == z;
    } else {
      assert (x + ":" + z)[0] == x[0];
      assert (x + ":" + z)[1..] == x[1..] + ":" + z;
      FieldsJoin(x[1..], z);
    }
  }

  /** A string without a colon is a single field. */
  lemma {:induction false} FieldsColonFree(x: string)
    requires ':' !in x
    ensures Fields(x) == [x]
    decreases |x|
  {
    if |x| > 0 {
      assert x[0] in x;
      assert forall c :: c in x[1..] ==> c in x;
      FieldsColonFree(x[1..]);
      assert [x[0]] + x[1..] == x;
    }
  }

  /** Appending a string that starts with a field separator adds its fields. */
  lemma FieldsAppend(p: string, y: string)
    requires |y| >= 1 && y[0] == ':'
    ensures Fields(p + y) == Fields(p) + Fields(y[1..])
  {
    assert p + y == p + ":" + y[1..];
    FieldsJoin(p, y[1..]);
  }

  /** A modifier's text adds one field, its item. */
  lemma ModifierTextField(p: string, m: Modifier, n: nat)
    ensures Fields(p + ModifierText(m, n)) == Fields(p) + [ModifierItem(m, n)]
  {
    var f := ModifierItem(m, n);
    DecimalRoundTrip(n);
    FieldsAppend(p, ModifierText(m, n));
    assert ModifierText(m, n)[1..] == f;
    assert ':' !in f by {
      assert forall i :: 2 <= i < |f| ==> f[i] == DecimalString(n)[i - 2];
    }
    FieldsColonFree(f);
  }

  /** `ModifierField` reads an item back as the modifier's name and value. */
  lemma ModifierItemParse(m: Modifier, n: nat)
    ensures ModifierField(ModifierItem(m, n)) == Some((ModName(m), n))
  {
    var f := ModifierItem(m, n);
    DecimalRoundTrip(n);
    assert f[2..] == DecimalString(n);
    assert forall i :: 2 <= i < |f| ==> f[i] == DecimalString(n)[i - 2];
  }

  /** The modifier items give back the OS, USR, E and INV bits, the counter
      mask and, from architecture version 3 on, the ANY bit of the register. */
  lemma ModifierItemsParse(v: Word, arch: int)
    ensures var f := ModifierItems(v, arch);
      && |f| == (if arch > 2 then 6 else 5)
      && ModifierField(f[0]) == Some(("k", FlagValue(v, OsBit)))
      && ModifierField(f[1]) == Some(("u", FlagValue(v, UsrBit)))
      && ModifierField(f[2]) == Some(("e", FlagValue(v, EdgeBit)))
      && ModifierField(f[3]) == Some(("i", FlagValue(v, InvBit)))
      && ModifierField(f[4]) == Some(("c", Value(v, CntLo, 8)))
      && (arch > 2 ==> ModifierField(f[5]) == Some(("t", FlagValue(v, AnyBit))))
  {
    var f := ModifierItems(v, arch);
    assert f[0] == ModifierItem(ModK, FlagValue(v, OsBit));
    assert f[1] == ModifierItem(ModU, FlagValue(v, UsrBit));
    assert f[2] == ModifierItem(ModE, FlagValue(v, EdgeBit));
    assert f[3] == ModifierItem(ModI, FlagValue(v, InvBit));
    assert f[4] == ModifierItem(ModC, Value(v, CntLo, 8));
    ModifierItemParse(ModK, FlagValue(v, OsBit));
    ModifierItemParse(ModU, FlagValue(v, UsrBit));
    ModifierItemParse(ModE, FlagValue(v, EdgeBit));
    ModifierItemParse(ModI, FlagValue(v, InvBit));
    ModifierItemParse(ModC, Value(v, CntLo, 8));
    if arch > 2 {
      assert f[5] == ModifierItem(ModT, FlagValue(v, AnyBit));
      ModifierItemParse(ModT, FlagValue(v, AnyBit));
    }
  }

  /** The modifier part adds exactly the modifier items as fields. */
  lemma ModifierSuffixFields(p: string, v: Word, arch: int)
    ensures Fields(p + ModifierSuffix(v, arch)) == Fields(p) + ModifierItems(v, arch)
  {
    var t1 := ModifierText(ModK, FlagValue(v, OsBit));
    var t2 := ModifierText(ModU, FlagValue(v, UsrBit));
    var t3 := ModifierText(ModE, FlagValue(v, EdgeBit));
    var t4 := ModifierText(ModI, FlagValue(v, InvBit));
    var t5 := ModifierText(ModC, Value(v, CntLo, 8));
    var items := ModifierItems(v, arch);
    assert "" + t1 == t1;
    ModifierTextField("", ModK, FlagValue(v, OsBit));
    ModifierTextField(t1, ModU, FlagValue(v, UsrBit));
    ModifierTextField(t1 + t2, ModE, FlagValue(v, EdgeBit));
    ModifierTextField(t1 + t2 + t3, ModI, FlagValue(v, InvBit));
    ModifierTextField(t1 + t2 + t3 + t4, ModC, Value(v, CntLo, 8));
    var s5 := t1 + t2 + t3 + t4 + t5;
    assert Fields(s5) == [""] + items[..5];
    var s := ModifierSuffix(v, arch);
    if arch > 2 {
      ModifierTextField(s5, ModT, FlagValue(v, AnyBit));
      assert s == s5 + ModifierText(ModT, FlagValue(v, AnyBit));
    } else {
      assert s == s5;
    }
    assert Fields(s) == [""] + items;
    assert s[0] == ':';
    FieldsAppend(p, s);
    FieldsAppend("", s);
    assert "" + s == s;
    assert Fields(s[1..]) == (Fields("") + Fields(s[1..]))[1..];
  }

  /** The unit-mask names add one field each, in order. */
  lemma {:induction false} UmaskNamesFields(e: Entry, p: string, ks: seq<nat>)
    requires Encodable(e) && ColonFreeNames(e)
    requires forall i :: 0 <= i < |ks| ==> ks[i] < e.numasks
    ensures Fields(p + UmaskNames(e, ks)) == Fields(p) + seq(|ks|, i requires 0 <= i < |ks| => e.umasks[ks[i]].uname.value)
    decreases |ks|
  {
    if |ks| == 0 {
      assert p + UmaskNames(e, ks) == p;
    } else {
      var n := e.umasks[ks[0]].uname.value;
      assert p + UmaskNames(e, ks) == (p + ":" + n) + UmaskNames(e, ks[1..]);
      UmaskNamesFields(e, p + ":" + n, ks[1..]);
      FieldsJoin(p, n);
      FieldsColonFree(n);
    }
  }

  /** The canonical string read back: the printed event name, one field per
      decoded unit mask with its name, and the modifier items. */
  lemma CanonicalStringFields(e: Entry, v: Word, arch: int, rule: Rule)
    requires Encodable(e) && ColonFreeNames(e)
    ensures var f := Fields(CanonicalString(e, v, arch, rule));
            var ks := DecodeUmasks(e, v, rule);
      && |f| == 1 + |ks| + |ModifierItems(v, arch)|
      && f[0] == EventLabel(e)
      && (forall i :: 0 <= i < |ks| ==> ks[i] < e.numasks && e.umasks[ks[i]].uname == Some(f[1 + i]))
      && f[1 + |ks|..] == ModifierItems(v, arch)
  {
    var ks := DecodeUmasks(e, v, rule);
    DecodeInRange(e, 0, Field(v, 8, 8), rule);
    var l := EventLabel(e);
    var p0 := l + UmaskNames(e, ks);
    FieldsColonFree(l);
    UmaskNamesFields(e, l, ks);
    var names := seq(|ks|, i requires 0 <= i < |ks| => e.umasks[ks[i]].uname.value);
    ModifierSuffixFields(p0, v, arch);
    var f := Fields(CanonicalString(e, v, arch, rule));
    assert f == [l] + names + ModifierItems(v, arch);
    forall i | 0 <= i < |ks|
      ensures e.umasks[ks[i]].uname == Some(f[1 + i])
    {
      assert f[1 + i] == names[i];
    }
  }

  // ---------------------------------------------------------------------
  // pfm_intel_x86_get_encoding
  // ---------------------------------------------------------------------

  /** What get_encoding hands back: the register values (`*codes`, `*count`
      of them), the event string, and the caller's privilege mask when it
      passed one. */
  datatype EncodingOut = EncodingOut(codes: seq<Word>, fstr: string, plm: Option<Word>)

  /** The steps of get_encoding after a successful encode_gen: one code, and
      the register's OS and USR bits added to the caller's privilege mask as
      PFM_PLM0 and PFM_PLM3. */
  function Deliver(enc: Encoding, plm: Option<Word>): (r: EncodingOut)
    ensures r.codes == [enc.val] && r.fstr == enc.fstr
    ensures plm.None? <==> r.plm.None?
    ensures plm.Some? ==>
      && r.plm.value - {Plm0Bit, Plm3Bit} == plm.value - {Plm0Bit, Plm3Bit}
      && (Plm0Bit in r.plm.value <==> Plm0Bit in plm.value || OsBit in enc.val)
      && (Plm3Bit in r.plm.value <==> Plm3Bit in plm.value || UsrBit in enc.val)
  {
    var p := if plm.None? then None
             else
               var p0 := if OsBit in enc.val then plm.value + {Plm0Bit} else plm.value;
               Some(if UsrBit in enc.val then p0 + {Plm3Bit} else p0);
    EncodingOut([enc.val], enc.fstr, p)
  }

  /** pfm_intel_x86_get_encoding without its verbose printing. An event with
      its own encoder returns what that encoder returns, `custom`; any other
      event is encoded from a zeroed register by encode_gen as written, so the
      single code carries the code's unit-mask byte and the selected unit
      masks' codes but no default unit mask. */
  function GetEncoding(t: Table, d: EventDesc, arch: int, plm: Option<Word>,
                       custom: Result<EncodingOut, PfmErr>): (r: Result<EncodingOut, PfmErr>)
    requires EncodableDesc(t, d)
    ensures Encoder in t[d.event].flags ==> r == custom
    ensures Encoder !in t[d.event].flags ==>
      && (r.Success? <==> EncodeReg(t[d.event], d.attrs, d.dflPlm).Success?)
      && (r.Failure? ==> r.error == EncodeReg(t[d.event], d.attrs, d.dflPlm).error)
    ensures Encoder !in t[d.event].flags && r.Success? ==>
      && r.value.codes == [EncodeReg(t[d.event], d.attrs, d.dflPlm).value]
      && (forall b :: 8 <= b < 16 ==>
            (b in r.value.codes[0] <==> b in t[d.event].code || CodeBit(t[d.event], d.attrs, |d.attrs|, b - 8)))
      && (plm.None? <==> r.value.plm.None?)
      && (plm.Some? ==>
            && r.value.plm.value - {Plm0Bit, Plm3Bit} == plm.value - {Plm0Bit, Plm3Bit}
            && (Plm0Bit in r.value.plm.value <==> Plm0Bit in plm.value || OsBit in r.value.codes[0])
            && (Plm3Bit in r.value.plm.value <==> Plm3Bit in plm.value || UsrBit in r.value.codes[0]))
  {
    if Encoder in t[d.event].flags then custom
    else
      match EncodeGen(t, d, arch)
      case Failure(err) => Failure(err)
      case Success(enc) =>
        EncodeRegLowBits(t[d.event], d.attrs, d.dflPlm);
        Success(Deliver(enc, plm))
  }

  /** pfm_intel_x86_get_encoding on the corrected encoder: the same verdict,
      and the single code also carries the default unit masks of the groups
      the attributes left uncovered. */
  function GetEncodingFixed(t: Table, d: EventDesc, arch: int, plm: Option<Word>,
                            custom: Result<EncodingOut, PfmErr>): (r: Result<EncodingOut, PfmErr>)
    requires EncodableDesc(t, d)
    ensures Encoder in t[d.event].flags ==> r == custom
    ensures Encoder !in t[d.event].flags ==>
      && (r.Success? <==> GetEncoding(t, d, arch, plm, custom).Success?)
      && (r.Failure? ==> r.error == GetEncoding(t, d, arch, plm, custom).error)
    ensures Encoder !in t[d.event].flags && r.Success? ==>
      && Run(t[d.event], d.attrs, |d.attrs|).Success?
      && r.value.codes == [EncodeRegFixed(t[d.event], d.attrs, d.dflPlm).value]
      && (forall b :: 8 <= b < 16 ==>
            (b in r.value.codes[0] <==>
              b in t[d.event].code || CodeBit(t[d.event], d.attrs, |d.attrs|, b - 8)
              || DefaultHasBit(t[d.event], Uncovered(t[d.event], d.attrs), b - 8)))
  {
    if Encoder in t[d.event].flags then custom
    else
      match EncodeGenFixed(t, d, arch)
      case Failure(err) => Failure(err)
      case Success(enc) =>
        EncodeRegFixedUnitMaskByte(t[d.event], d.attrs, d.dflPlm);
        Success(Deliver(enc, plm))
  }

  /** The string of encode_gen as written, read back: the event name, then
      the unit masks it names, each an unaliased slot found in the register's
      unit-mask byte by the as-written rule, in table order, then the
      register's modifier fields. */
  lemma EncodeGenString(t: Table, d: EventDesc, arch: int)
    requires EncodableDesc(t, d) && ColonFreeNames(t[d.event])
    requires EncodeGen(t, d, arch).Success?
    ensures var e := t[d.event];
            var v := EncodeGen(t, d, arch).value.val;
            var f := Fields(EncodeGen(t, d, arch).value.fstr);
            var ks := DecodeUmasks(e, v, AsWritten);
      && |f| == 1 + |ks| + |ModifierItems(v, arch)|
      && f[0] == EventLabel(e)
      && (forall i :: 0 <= i < |ks| ==>
            && ks[i] < e.numasks && e.umasks[ks[i]].uname == Some(f[1 + i])
            && e.umasks[ks[i]].ufrom.None?
            && (NCombo in e.umasks[ks[i]].uflags ==> LowCode(e.umasks[ks[i]]) <= Field(v, 8, 8))
            && (NCombo !in e.umasks[ks[i]].uflags ==> Field(v, 8, 8) * GroupBits(e.umasks[ks[i]]) != {}))
      && (forall i, j :: 0 <= i < j < |ks| ==> ks[i] < ks[j])
      && f[1 + |ks|..] == ModifierItems(v, arch)
  {
    var e := t[d.event];
    var v := EncodeGen(t, d, arch).value.val;
    assert EncodeGen(t, d, arch).value.fstr == CanonicalString(e, v, arch, AsWritten);
    CanonicalStringFields(e, v, arch, AsWritten);
    DecodeInRange(e, 0, Field(v, 8, 8), AsWritten);
    DecodeFound(e, 0, Field(v, 8, 8), Field(v, 8, 8), AsWritten);
    var ks := DecodeUmasks(e, v, AsWritten);
    forall i | 0 <= i < |ks|
      ensures ks[i] in ks
    {
    }
  }

  // ---------------------------------------------------------------------
  // Properties
  // ---------------------------------------------------------------------

  /** The decoded slots are used, non-alias slots, in strictly increasing
      (table) order, starting at `k`. */
  lemma {:induction false} DecodeInRange(e: Entry, k: nat, umask: Word, rule: Rule)
    requires Shaped(e)
    ensures forall i :: 0 <= i < |DecodeFrom(e, k, umask, rule)| ==>
      k <= DecodeFrom(e, k, umask, rule)[i] < e.numasks && e.umasks[DecodeFrom(e, k, umask, rule)[i]].ufrom.None?
    ensures forall i, j :: 0 <= i < j < |DecodeFrom(e, k, umask, rule)| ==>
      DecodeFrom(e, k, umask, rule)[i] < DecodeFrom(e, k, umask, rule)[j]
    decreases e.numasks - k
  {
    if k < e.numasks {
      var u := e.umasks[k];
      DecodeInRange(e, k + 1, umask, rule);
      DecodeInRange(e, k + 1, umask - Consumed(u), rule);
    }
  }

  /** Every printed unit mask was found in the register byte `byte`: an
      NCOMBO one has all its code bits there; any other one has, as written,
      only some bit of its group there and, corrected, one of its own code
      bits. */
  lemma {:induction false} DecodeFound(e: Entry, k: nat, umask: Word, byte: Word, rule: Rule)
    requires Shaped(e) && umask <= byte
    ensures forall j :: j in DecodeFrom(e, k, umask, rule) ==>
      && 0 <= j < e.numasks
      && (NCombo in e.umasks[j].uflags ==> LowCode(e.umasks[j]) <= byte)
      && (NCombo !in e.umasks[j].uflags ==> byte * GroupBits(e.umasks[j]) != {} || rule == Corrected)
      && (NCombo !in e.umasks[j].uflags && rule == Corrected ==> byte * LowCode(e.umasks[j]) != {})
    decreases e.numasks - k
  {
    if k < e.numasks {
      var u := e.umasks[k];
      DecodeFound(e, k + 1, umask, byte, rule);
      DecodeFound(e, k + 1, umask - Consumed(u), byte, rule);
    }
  }

  /** From an empty unit-mask byte exactly the non-alias NCOMBO unit masks
      whose code byte is zero are printed. */
  lemma {:induction false} DecodeEmptyByte(e: Entry, k: nat, rule: Rule)
    requires Shaped(e)
    ensures forall j :: j in DecodeFrom(e, k, {}, rule) <==>
      k <= j < e.numasks && e.umasks[j].ufrom.None? && NCombo in e.umasks[j].uflags
      && LowCode(e.umasks[j]) == {}
    decreases e.numasks - k
  {
    if k < e.numasks {
      var u := e.umasks[k];
      assert {} * GroupBits(u) == {} && {} * LowCode(u) == {} && {} - Consumed(u) == {};
      DecodeEmptyByte(e, k + 1, rule);
    }
  }

  /** An error of the attribute loop is the error of encode_gen. */
  lemma EncodeRegLoopError(e: Entry, attrs: seq<Attr>, dflPlm: Word)
    requires Encodable(e) && AttrsFit(e, attrs)
    requires Run(e, attrs, |attrs|).Failure?
    ensures EncodeReg(e, attrs, dflPlm) == Failure(Run(e, attrs, |attrs|).error)
  {
  }

  /** PFM_ERR_ATTR_HW: after all attributes, in whatever order, some modifier
      hardwired by a selected unit mask has a bit set in the register. */
  lemma EncodeRegHwError(e: Entry, attrs: seq<Attr>, dflPlm: Word)
    requires Encodable(e) && AttrsFit(e, attrs)
    ensures EncodeReg(e, attrs, dflPlm) == Failure(ErrAttrHw) <==>
      && Run(e, attrs, |attrs|).Success?
      && exists m :: HardwiredBit(e, attrs, |attrs|, ModBit(m)) && RegField(m) * Run(e, attrs, |attrs|).value.val != {}
  {
    RunErrors(e, attrs, |attrs|);
    if Run(e, attrs, |attrs|).Success? {
      var st := Run(e, attrs, |attrs|).value;
      RunModhw(e, attrs, |attrs|);
      HwConflictByModifier(st.modhw, st.val);
    }
  }

  /** PFM_ERR_UMASK: the loop and the hardwired-modifier checks pass, and a
      group in `((1 << ngrp) - 1) ^ covered` has no default unit mask: a
      declared group no selected unit mask covers, or a covered group beyond
      `ngrp`. */
  lemma EncodeRegMissingDefault(e: Entry, attrs: seq<Attr>, dflPlm: Word)
    requires Encodable(e) && AttrsFit(e, attrs)
    ensures EncodeReg(e, attrs, dflPlm) == Failure(ErrUmask) <==>
      && Run(e, attrs, |attrs|).Success?
      && !HwConflict(Run(e, attrs, |attrs|).value.modhw, Run(e, attrs, |attrs|).value.val)
      && exists g: nat :: (g < e.ngrp <==> !UsesGroup(e, attrs, |attrs|, g)) && !HasDefault(e, g)
  {
    RunErrors(e, attrs, |attrs|);
    if Run(e, attrs, |attrs|).Success? {
      UncoveredGroups(e, attrs);
    }
  }

  /** The groups handed to intel_x86_add_defaults, in terms of the
      attributes. */
  lemma UncoveredGroups(e: Entry, attrs: seq<Attr>)
    requires Encodable(e) && AttrsFit(e, attrs)
    requires Run(e, attrs, |attrs|).Success?
    ensures forall g: nat :: g in Xor(Run(e, attrs, |attrs|).value.ugrpmsk, Span(0, e.ngrp)) <==>
      (g < e.ngrp <==> !UsesGroup(e, attrs, |attrs|, g))
  {
    RunTracks(e, attrs, |attrs|);
  }

  /** The six PFM_ERR_ATTR_HW checks, one per modifier. */
  lemma HwConflictByModifier(modhw: Word, v: Word)
    ensures HwConflict(modhw, v) <==> exists m :: ModBit(m) in modhw && RegField(m) * v != {}
  {
    if HwConflict(modhw, v) {
      if ModBit(ModI) in modhw && InvBit in v {
        assert InvBit in RegField(ModI) * v;
      } else if ModBit(ModE) in modhw && EdgeBit in v {
        assert EdgeBit in RegField(ModE) * v;
      } else if ModBit(ModC) in modhw && v * Span(CntLo, CntLo + 8) != {} {
        assert RegField(ModC) * v != {};
      } else if ModBit(ModT) in modhw && AnyBit in v {
        assert AnyBit in RegField(ModT) * v;
      } else if ModBit(ModU) in modhw && UsrBit in v {
        assert UsrBit in RegField(ModU) * v;
      } else {
        assert OsBit in RegField(ModK) * v;
      }
    }
  }

  /** Privilege levels: OS is set exactly when the attributes left it set,
      or neither `u` nor `k` was given and the default privilege mask holds
      PFM_PLM0; likewise USR with PFM_PLM3. */
  lemma EncodeRegPrivilege(e: Entry, attrs: seq<Attr>, dflPlm: Word)
    requires Encodable(e) && AttrsFit(e, attrs)
    requires EncodeReg(e, attrs, dflPlm).Success?
    ensures Run(e, attrs, |attrs|).Success?
    ensures OsBit in EncodeReg(e, attrs, dflPlm).value <==>
      || OsBit in Run(e, attrs, |attrs|).value.val
      || (!PrivGiven(attrs, |attrs|, ModBit(ModU)) && !PrivGiven(attrs, |attrs|, ModBit(ModK)) && Plm0Bit in dflPlm)
    ensures UsrBit in EncodeReg(e, attrs, dflPlm).value <==>
      || UsrBit in Run(e, attrs, |attrs|).value.val
      || (!PrivGiven(attrs, |attrs|, ModBit(ModU)) && !PrivGiven(attrs, |attrs|, ModBit(ModK)) && Plm3Bit in dflPlm)
  {
    RunPlmmsk(e, attrs, |attrs|);
  }
}
