/** The data model of an Intel x86 event table and of a parsed event
    descriptor (lib/pfmlib_intel_x86.c). The tables themselves are data in
    headers that are not part of this model; here a table is any immutable
    sequence of entries. */
module IntelX86Table {
  import opened Wrappers
  import opened Words

  /** Number of unit-mask group slots (INTEL_X86_NUM_GRP); sizes the per-group
      counters of the encoder and bounds `ngrp` in the validator. */
  const NumGrp: nat := 8

  /** Number of unit-mask slots declared in every entry (INTEL_X86_NUM_UMASKS). */
  const NumUmasks: nat := 32

  /** Event- and unit-mask-level flags. */
  datatype Flag =
    | NCombo   // unit masks of this group cannot be combined
    | Dfl      // the unit mask is the default of its group
    | Pebs     // supports precise event-based sampling
    | GrpExcl  // unit masks of only one group may be selected
    | Encoder  // the event is encoded by its own custom encoder

  /** One unit-mask slot. A NULL string is `None`; an unused slot is all zero. */
  datatype UnitMask = UnitMask(
    uname: Option<string>,   // unit mask name
    udesc: Option<string>,   // description
    ufrom: Option<string>,   // name of the unit mask this one is an alias of
    ucode: Word,             // unit mask code (low byte) and extra bits
    uflags: set<Flag>,
    grpid: nat,              // owning group
    modhw: Word,             // modifiers hardwired by this unit mask (ModBit positions)
    grpmsk: Word)            // bits of the unit-mask byte owned by the group

  /** A zero-initialised slot, as C leaves the unused tail of `umasks`. */
  const EmptySlot := UnitMask(None, None, None, {}, {}, 0, {}, {})

  /** One event of the table. */
  datatype Entry = Entry(
    name: Option<string>,
    desc: Option<string>,
    from: Option<string>,    // canonical name this event is an alias of
    code: Word,              // event select (low byte) and hardcoded unit mask
    cntmsk: Word,            // counters the event may use
    modmsk: Word,            // modifiers that apply to the event (ModBit positions)
    ngrp: nat,               // number of unit-mask groups
    numasks: nat,            // number of used unit-mask slots
    flags: set<Flag>,
    umasks: seq<UnitMask>)   // all NumUmasks slots, used ones first

  type Table = seq<Entry>

  /** The shape the C declaration imposes: a fixed array of slots, of which
      the first `numasks` are in use (a larger count would read past the
      array), and 32-bit event and unit-mask codes. */
  predicate Shaped(e: Entry) {
    && |e.umasks| == NumUmasks
    && e.numasks <= NumUmasks
    && Fits(e.code, 32)
    && forall j :: 0 <= j < NumUmasks ==> Fits(e.umasks[j].ucode, 32)
  }

  /** The used slots `0..n-1` of a slot array have a group id that fits the
      per-group counters and a name. */
  predicate SlotsOk(us: seq<UnitMask>, n: nat) {
    n <= |us| && forall j :: 0 <= j < n ==> us[j].grpid < NumGrp && us[j].uname.Some?
  }

  predicate TableShaped(t: Table) {
    forall i :: 0 <= i < |t| ==> Shaped(t[i])
  }

  /** True when the unit mask is the default of its group. */
  predicate IsDefault(u: UnitMask) {
    Dfl in u.uflags
  }

  /** Modifier attributes, in the order of the modifier table
      (INTEL_X86_ATTR_U .. INTEL_X86_ATTR_T). */
  datatype Modifier = ModU | ModK | ModI | ModE | ModC | ModT

  /** The position of the modifier's bit in `modhw`, `modmsk` and the
      explicit privilege mask (`_INTEL_X86_ATTR_x == 1 << INTEL_X86_ATTR_x`). */
  function ModBit(m: Modifier): nat {
    match m
    case ModU => 0
    case ModK => 1
    case ModI => 2
    case ModE => 3
    case ModC => 4
    case ModT => 5
  }

  /** The name under which the modifier is printed. */
  function ModName(m: Modifier): string {
    match m
    case ModU => "u"
    case ModK => "k"
    case ModI => "i"
    case ModE => "e"
    case ModC => "c"
    case ModT => "t"
  }

  /** One parsed attribute: a unit mask (by slot index) or a modifier with its value. */
  datatype Attr = UmaskAttr(id: nat) | ModAttr(m: Modifier, ival: nat)

  /** A parsed event descriptor: event index, attributes in order, default
      privilege mask (a `PFM_PLMx` bit set). */
  datatype EventDesc = EventDesc(event: nat, attrs: seq<Attr>, dflPlm: Word)

  /** What the parser guarantees about a descriptor: the event exists and every
      unit-mask attribute names a used slot of it. */
  predicate DescFits(t: Table, d: EventDesc) {
    && d.event < |t|
    && Shaped(t[d.event])
    && forall k :: 0 <= k < |d.attrs| && d.attrs[k].UmaskAttr? ==> d.attrs[k].id < t[d.event].numasks
  }
}
