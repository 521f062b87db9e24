/** The consistency check of an event table (pfm_intel_x86_validate_table in
    lib/pfmlib_intel_x86.c). Every message the C code prints becomes one
    `Problem`; the verdict is `ErrInval` as soon as there is one. */
module IntelX86Validate {
  import opened Wrappers
  import opened Words
  import opened PfmErrors
  import opened IntelX86Table
  import IntelX86Run

  /** One reported inconsistency: `ev` is the event index, `slot` the unit-mask
      slot the message is about, `other` the second slot of an overlap. */
  datatype Problem =
    | NoName(ev: nat)
    | NoDesc(ev: nat)
    | NoCounters(ev: nat)
    | TooManyUmasks(ev: nat)
    | ZeroGroups(ev: nat)
    | TooManyGroups(ev: nat)
    | UmaskNoName(ev: nat, slot: nat)
    | ModhwNotSubset(ev: nat, slot: nat)
    | UmaskNoDesc(ev: nat, slot: nat)
    | BadGrpid(ev: nat, slot: nat)
    | BadGrpmsk(ev: nat, slot: nat)
    | ExcessUmask(ev: nat, slot: nat)
    | EventNCombo(ev: nat)
    | Overlap(ev: nat, slot: nat, other: nat)

  /** The C declaration of an entry: a fixed array of slots of which at most
      all are in use. */
  predicate SlotArray(e: Entry) {
    |e.umasks| == NumUmasks && e.numasks <= NumUmasks
  }

  predicate TableSlotArrays(t: Table) {
    forall i :: 0 <= i < |t| ==> SlotArray(t[i])
  }

  /** A used slot that takes part in the overlap check: not an alias and not
      a no-combination unit mask. */
  predicate Combinable(u: UnitMask) {
    u.ufrom.None? && NCombo !in u.uflags
  }

  /** True when the problem `p` is present in table `t`. */
  predicate Holds(t: Table, p: Problem)
    requires TableSlotArrays(t)
  {
    p.ev < |t| &&
    var e := t[p.ev];
    match p
    case NoName(_) => e.name.None?
    case NoDesc(_) => e.desc.None?
    case NoCounters(_) => e.cntmsk == {}
    case TooManyUmasks(_) => e.numasks >= NumUmasks
    case ZeroGroups(_) => e.numasks != 0 && e.ngrp == 0
    case TooManyGroups(_) => e.ngrp >= NumGrp
    case UmaskNoName(_, j) => j < e.numasks && e.umasks[j].uname.None?
    case ModhwNotSubset(_, j) =>
      j < e.numasks && e.umasks[j].modhw != {} && !(e.umasks[j].modhw <= e.modmsk)
    case UmaskNoDesc(_, j) => j < e.numasks && e.umasks[j].udesc.None?
    case BadGrpid(_, j) => j < e.numasks && e.ngrp != 0 && e.umasks[j].grpid >= e.ngrp
    case BadGrpmsk(_, j) =>
      j < e.numasks && e.ngrp > 1 && (e.umasks[j].grpmsk == {} || !Fits(e.umasks[j].grpmsk, 8))
    case ExcessUmask(_, j) =>
      e.numasks <= j < NumUmasks && (e.umasks[j].uname.Some? || e.umasks[j].udesc.Some?)
    case EventNCombo(_) => NCombo in e.flags
    case Overlap(_, j, k) =>
      && j < k < e.numasks
      && Combinable(e.umasks[j]) && Combinable(e.umasks[k])
      && e.umasks[j].grpid == e.umasks[k].grpid
      && e.umasks[j].ucode * e.umasks[k].ucode != {}
  }

  /** The five groups of checks, in the order the C code runs them per event. */
  function Phase(p: Problem): nat {
    match p
    case NoName(_) => 0
    case NoDesc(_) => 0
    case NoCounters(_) => 0
    case TooManyUmasks(_) => 0
    case ZeroGroups(_) => 0
    case TooManyGroups(_) => 0
    case UmaskNoName(_, _) => 1
    case ModhwNotSubset(_, _) => 1
    case UmaskNoDesc(_, _) => 1
    case BadGrpid(_, _) => 1
    case BadGrpmsk(_, _) => 1
    case ExcessUmask(_, _) => 2
    case EventNCombo(_) => 3
    case Overlap(_, _, _) => 4
  }

  /** Reports come event by event and, within an event, check group by check
      group. */
  predicate Ordered(ps: seq<Problem>) {
    forall a, b :: 0 <= a < b < |ps| ==>
      ps[a].ev < ps[b].ev || (ps[a].ev == ps[b].ev && Phase(ps[a]) <= Phase(ps[b]))
  }

  /** An independent statement of a well-formed entry, as a table author reads
      the rules: every field present, counts in range, used slots complete and
      in a valid group, unused slots empty, and the codes of combinable unit
      masks of one group disjoint. */
  predicate EntryOk(e: Entry)
    requires SlotArray(e)
  {
    && e.name.Some? && e.desc.Some? && e.cntmsk != {}
    && e.numasks < NumUmasks
    && (e.numasks == 0 || e.ngrp != 0)
    && e.ngrp < NumGrp
    && NCombo !in e.flags
    && (forall j :: 0 <= j < e.numasks ==> SlotOk(e, e.umasks[j]))
    && (forall j :: e.numasks <= j < NumUmasks ==> e.umasks[j].uname.None? && e.umasks[j].udesc.None?)
    && (forall j, k :: 0 <= j < k < e.numasks ==> Disjoint(e.umasks[j], e.umasks[k]))
  }

  /** A used slot is complete and consistent with its event. */
  predicate SlotOk(e: Entry, u: UnitMask) {
    && u.uname.Some? && u.udesc.Some?
    && u.modhw <= e.modmsk
    && (e.ngrp == 0 || u.grpid < e.ngrp)
    && (e.ngrp <= 1 || (u.grpmsk != {} && Fits(u.grpmsk, 8)))
  }

  /** Two used slots may share code bits only when one of them is an alias or
      a no-combination mask, or they are in different groups. */
  predicate Disjoint(u: UnitMask, v: UnitMask) {
    Combinable(u) && Combinable(v) && u.grpid == v.grpid ==> u.ucode * v.ucode == {}
  }

  /** The checks on the event's own fields. */
  method CheckEventFields(t: Table, i: nat) returns (ps: seq<Problem>)
    requires TableSlotArrays(t) && i < |t|
    ensures forall p :: p in ps <==> Holds(t, p) && p.ev == i && Phase(p) == 0
  {
    var e := t[i];
    ps := [];
    if e.name.None? { ps := ps + [NoName(i)]; }
    if e.desc.None? { ps := ps + [NoDesc(i)]; }
    if e.cntmsk == {} { ps := ps + [NoCounters(i)]; }
    if e.numasks >= NumUmasks { ps := ps + [TooManyUmasks(i)]; }
    if e.numasks != 0 && e.ngrp == 0 { ps := ps + [ZeroGroups(i)]; }
    if e.ngrp >= NumGrp { ps := ps + [TooManyGroups(i)]; }
  }

  /** The checks of used slot `j`. */
  method CheckSlot(t: Table, i: nat, j: nat) returns (ps: seq<Problem>)
    requires TableSlotArrays(t) && i < |t| && j < t[i].numasks
    ensures forall p :: p in ps <==> Holds(t, p) && p.ev == i && Phase(p) == 1 && p.slot == j
  {
    var e := t[i];
    var u := e.umasks[j];
    ps := [];
    if u.uname.None? { ps := ps + [UmaskNoName(i, j)]; }
    if u.modhw != {} && !(u.modhw <= e.modmsk) { ps := ps + [ModhwNotSubset(i, j)]; }
    if u.udesc.None? { ps := ps + [UmaskNoDesc(i, j)]; }
    if e.ngrp != 0 && u.grpid >= e.ngrp { ps := ps + [BadGrpid(i, j)]; }
    if e.ngrp > 1 && (u.grpmsk == {} || !Fits(u.grpmsk, 8)) { ps := ps + [BadGrpmsk(i, j)]; }
  }

  /** The checks of every used slot, slot by slot. */
  method CheckSlots(t: Table, i: nat) returns (ps: seq<Problem>)
    requires TableSlotArrays(t) && i < |t|
    ensures forall p :: p in ps <==> Holds(t, p) && p.ev == i && Phase(p) == 1
  {
    ps := [];
    var j := 0;
    while j < t[i].numasks
      invariant j <= t[i].numasks
      invariant forall p :: p in ps <==> Holds(t, p) && p.ev == i && Phase(p) == 1 && p.slot < j
    {
      var q := CheckSlot(t, i, j);
      ps := ps + q;
      j := j + 1;
    }
  }

  /** The unused slots must be empty. */
  method CheckExcess(t: Table, i: nat) returns (ps: seq<Problem>)
    requires TableSlotArrays(t) && i < |t|
    ensures forall p :: p in ps <==> Holds(t, p) && p.ev == i && Phase(p) == 2
  {
    ps := [];
    var j := t[i].numasks;
    while j < NumUmasks
      invariant t[i].numasks <= j <= NumUmasks
      invariant forall p :: p in ps <==> Holds(t, p) && p.ev == i && Phase(p) == 2 && p.slot < j
    {
      var u := t[i].umasks[j];
      if u.uname.Some? || u.udesc.Some? {
        ps := ps + [ExcessUmask(i, j)];
      }
      j := j + 1;
    }
  }

  /** The overlaps of slot `j` with the later slots. */
  method CheckOverlapsOf(t: Table, i: nat, j: nat) returns (ps: seq<Problem>)
    requires TableSlotArrays(t) && i < |t| && j < t[i].numasks
    ensures forall p :: p in ps <==> Holds(t, p) && p.ev == i && p.Overlap? && p.slot == j
  {
    ps := [];
    var e := t[i];
    if !Combinable(e.umasks[j]) {
      return;
    }
    var k := j + 1;
    while k < e.numasks
      invariant j < k <= e.numasks
      invariant forall p :: p in ps <==> Holds(t, p) && p.ev == i && p.Overlap? && p.slot == j && p.other < k
    {
      var v := e.umasks[k];
      if Combinable(v) && v.grpid == e.umasks[j].grpid && e.umasks[j].ucode * v.ucode != {} {
        ps := ps + [Overlap(i, j, k)];
      }
      k := k + 1;
    }
  }

  /** The pairwise code-overlap check. */
  method CheckOverlaps(t: Table, i: nat) returns (ps: seq<Problem>)
    requires TableSlotArrays(t) && i < |t|
    ensures forall p :: p in ps <==> Holds(t, p) && p.ev == i && Phase(p) == 4
  {
    ps := [];
    var j := 0;
    while j < t[i].numasks
      invariant j <= t[i].numasks
      invariant forall p :: p in ps <==> Holds(t, p) && p.ev == i && p.Overlap? && p.slot < j
    {
      var q := CheckOverlapsOf(t, i, j);
      ps := ps + q;
      j := j + 1;
    }
  }

  /** All problems of event `i`, in check-group order. */
  method CheckEntry(t: Table, i: nat) returns (ps: seq<Problem>)
    requires TableSlotArrays(t) && i < |t|
    ensures forall p :: p in ps <==> Holds(t, p) && p.ev == i
    ensures Ordered(ps)
    ensures forall a :: 0 <= a < |ps| ==> ps[a].ev == i
  {
    var p0 := CheckEventFields(t, i);
    var p1 := CheckSlots(t, i);
    var p2 := CheckExcess(t, i);
    var p3 := if NCombo in t[i].flags then [EventNCombo(i)] else [];
    var p4 := CheckOverlaps(t, i);
    ps := p0 + p1 + p2 + p3 + p4;
    forall a, b | 0 <= a < b < |ps|
      ensures ps[a].ev == i && Phase(ps[a]) <= Phase(ps[b])
    {
      assert ps[a] in ps && ps[b] in ps;
      PhaseOfIndex(p0, p1, p2, p3, p4, a);
      PhaseOfIndex(p0, p1, p2, p3, p4, b);
    }
  }

  /** The position of a report in the concatenation of the five check groups
      bounds its group. */
  lemma PhaseOfIndex(p0: seq<Problem>, p1: seq<Problem>, p2: seq<Problem>, p3: seq<Problem>,
                     p4: seq<Problem>, a: nat)
    requires forall p :: p in p0 ==> Phase(p) == 0
    requires forall p :: p in p1 ==> Phase(p) == 1
    requires forall p :: p in p2 ==> Phase(p) == 2
    requires forall p :: p in p3 ==> Phase(p) == 3
    requires forall p :: p in p4 ==> Phase(p) == 4
    requires a < |p0 + p1 + p2 + p3 + p4|
    ensures var ps := p0 + p1 + p2 + p3 + p4;
      && (a < |p0| ==> Phase(ps[a]) == 0)
      && (|p0| <= a < |p0 + p1| ==> Phase(ps[a]) == 1)
      && (|p0 + p1| <= a < |p0 + p1 + p2| ==> Phase(ps[a]) == 2)
      && (|p0 + p1 + p2| <= a < |p0 + p1 + p2 + p3| ==> Phase(ps[a]) == 3)
      && (|p0 + p1 + p2 + p3| <= a ==> Phase(ps[a]) == 4)
  {
    var ps := p0 + p1 + p2 + p3 + p4;
    if a < |p0| {
      assert ps[a] == p0[a];
    } else if a < |p0 + p1| {
      assert ps[a] == p1[a - |p0|];
    } else if a < |p0 + p1 + p2| {
      assert ps[a] == p2[a - |p0 + p1|];
    } else if a < |p0 + p1 + p2 + p3| {
      assert ps[a] == p3[a - |p0 + p1 + p2|];
    } else {
      assert ps[a] == p4[a - |p0 + p1 + p2 + p3|];
    }
  }

  /** pfm_intel_x86_validate_table: every problem of the table is reported,
      nothing else is, in event and check-group order, and the verdict is
      `ErrInval` exactly when something was reported. */
  method ValidateTable(t: Table) returns (problems: seq<Problem>, r: Result<(), PfmErr>)
    requires TableSlotArrays(t)
    ensures forall p :: p in problems <==> Holds(t, p)
    ensures Ordered(problems)
    ensures r.Success? <==> |problems| == 0
    ensures r.Failure? ==> r.error == ErrInval
  {
    problems := [];
    var i := 0;
    while i < |t|
      invariant i <= |t|
      invariant forall p :: p in problems <==> Holds(t, p) && p.ev < i
      invariant forall a :: 0 <= a < |problems| ==> problems[a].ev < i
      invariant Ordered(problems)
    {
      var ps := CheckEntry(t, i);
      problems := problems + ps;
      i := i + 1;
    }
    r := if |problems| == 0 then Success(()) else Failure(ErrInval);
  }

  /** A used slot that breaks `SlotOk` is reported. */
  lemma SlotWitness(t: Table, i: nat, j: nat)
    requires TableSlotArrays(t) && i < |t| && j < t[i].numasks
    requires !SlotOk(t[i], t[i].umasks[j])
    ensures exists p :: Holds(t, p) && p.ev == i
  {
    var e := t[i];
    var u := e.umasks[j];
    if u.uname.None? { assert Holds(t, UmaskNoName(i, j)); }
    else if u.udesc.None? { assert Holds(t, UmaskNoDesc(i, j)); }
    else if !(u.modhw <= e.modmsk) { assert Holds(t, ModhwNotSubset(i, j)); }
    else if e.ngrp != 0 && u.grpid >= e.ngrp { assert Holds(t, BadGrpid(i, j)); }
    else { assert Holds(t, BadGrpmsk(i, j)); }
  }

  /** An entry that is not well formed has a reported problem. */
  lemma ProblemWitness(t: Table, i: nat)
    requires TableSlotArrays(t) && i < |t| && !EntryOk(t[i])
    ensures exists p :: Holds(t, p) && p.ev == i
  {
    var e := t[i];
    if e.name.None? { assert Holds(t, NoName(i)); }
    else if e.desc.None? { assert Holds(t, NoDesc(i)); }
    else if e.cntmsk == {} { assert Holds(t, NoCounters(i)); }
    else if e.numasks >= NumUmasks { assert Holds(t, TooManyUmasks(i)); }
    else if e.numasks != 0 && e.ngrp == 0 { assert Holds(t, ZeroGroups(i)); }
    else if e.ngrp >= NumGrp { assert Holds(t, TooManyGroups(i)); }
    else if NCombo in e.flags { assert Holds(t, EventNCombo(i)); }
    else if j :| 0 <= j < e.numasks && !SlotOk(e, e.umasks[j]) {
      SlotWitness(t, i, j);
    } else if j :| e.numasks <= j < NumUmasks && (e.umasks[j].uname.Some? || e.umasks[j].udesc.Some?) {
      assert Holds(t, ExcessUmask(i, j));
    } else {
      var j, k :| 0 <= j < k < e.numasks && !Disjoint(e.umasks[j], e.umasks[k]);
      assert Holds(t, Overlap(i, j, k));
    }
  }

  /** A problem of event `i` exists exactly when the entry is not well formed. */
  lemma EntryOkIffNoProblem(t: Table, i: nat)
    requires TableSlotArrays(t) && i < |t|
    ensures EntryOk(t[i]) <==> forall p :: Holds(t, p) ==> p.ev != i
  {
    if !EntryOk(t[i]) {
      ProblemWitness(t, i);
    }
  }

  /** The verdict accepts the table exactly when every entry is well formed. */
  lemma ValidateVerdict(t: Table, problems: seq<Problem>)
    requires TableSlotArrays(t)
    requires forall p :: p in problems <==> Holds(t, p)
    ensures |problems| == 0 <==> forall i :: 0 <= i < |t| ==> EntryOk(t[i])
  {
    if |problems| == 0 {
      forall i | 0 <= i < |t|
        ensures EntryOk(t[i])
      {
        EntryOkIffNoProblem(t, i);
      }
    } else {
      assert Holds(t, problems[0]);
      EntryOkIffNoProblem(t, problems[0].ev);
    }
  }

  /** A well-formed entry with the C declaration's shape is one the encoder
      can process: a printable name, a group count that fits the per-group
      counters, and named used slots in those groups. */
  lemma EntryOkEncodable(e: Entry)
    requires Shaped(e) && EntryOk(e)
    ensures IntelX86Run.Encodable(e)
  {
    forall j | 0 <= j < e.numasks
      ensures e.umasks[j].grpid < NumGrp && e.umasks[j].uname.Some?
    {
      assert SlotOk(e, e.umasks[j]);
    }
  }

  /** Every entry of a table the validator accepts can be encoded. */
  lemma AcceptedTableEncodable(t: Table, problems: seq<Problem>, i: nat)
    requires TableSlotArrays(t) && TableShaped(t)
    requires forall p :: p in problems <==> Holds(t, p)
    requires problems == [] && i < |t|
    ensures IntelX86Run.Encodable(t[i])
  {
    ValidateVerdict(t, problems);
    EntryOkEncodable(t[i]);
  }
}
