/** Event enumeration, unit-mask default introspection and the PEBS capability
    fold of lib/pfmlib_intel_x86.c. */
module IntelX86Events {
  import opened Wrappers
  import opened IntelX86Table
  import opened PfmErrors

  /** First event index of every table (pfm_intel_x86_get_event_first). */
  function GetEventFirst(): int {
    0
  }

  /** Index after `idx`, or -1 once `idx` is the last (or past the last) event. */
  function GetEventNext(t: Table, idx: int): (r: int)
    ensures r == -1 || r == idx + 1
    ensures EventIsValid(t, idx) ==> (r == -1 <==> idx == |t| - 1)
    ensures EventIsValid(t, idx) && r != -1 ==> EventIsValid(t, r)
  {
    if idx >= |t| - 1 then -1 else idx + 1
  }

  /** True when `idx` designates an event of the table. */
  predicate EventIsValid(t: Table, idx: int) {
    0 <= idx < |t|
  }

  /** The indices a caller visits when it starts at `i` and follows
      `GetEventNext` until -1. */
  function WalkFrom(t: Table, i: nat): seq<int>
    decreases |t| - i
  {
    [i] + (if GetEventNext(t, i) == -1 then [] else WalkFrom(t, i + 1))
  }

  /** From a valid index, the walk visits every later index once, in order, and
      only valid ones. */
  lemma {:induction false} WalkFromVisitsSuffix(t: Table, i: nat)
    requires i < |t|
    ensures |WalkFrom(t, i)| == |t| - i
    ensures forall k :: 0 <= k < |WalkFrom(t, i)| ==> WalkFrom(t, i)[k] == i + k
    ensures forall k :: 0 <= k < |WalkFrom(t, i)| ==> EventIsValid(t, WalkFrom(t, i)[k])
    decreases |t| - i
  {
    if GetEventNext(t, i) != -1 {
      WalkFromVisitsSuffix(t, i + 1);
    }
  }

  /** Walking from the first event enumerates exactly the valid indices
      0 .. |t|-1; an empty table still yields index 0, which is not valid. */
  lemma WalkEnumeratesTable(t: Table)
    ensures |t| > 0 ==> WalkFrom(t, GetEventFirst()) == seq(|t|, k => k)
    ensures |t| == 0 ==> WalkFrom(t, GetEventFirst()) == [0] && !EventIsValid(t, 0)
  {
    if |t| > 0 {
      WalkFromVisitsSuffix(t, 0);
    }
  }

  /** Result of pfm_intel_x86_get_event_attr_info: the returned flag, and the
      value written to `info->dfl_val64` (`None` when it is left untouched). */
  datatype AttrInfo = AttrInfo(isDefault: bool, dflVal: Option<nat>)

  /** Whether slot `attrIdx` of event `idx` is a default unit mask. The guard
      only rejects indices above `numasks`, so slot `numasks` itself is read. */
  function GetEventAttrInfo(t: Table, idx: nat, attrIdx: nat): (r: AttrInfo)
    requires idx < |t| && Shaped(t[idx])
    requires attrIdx <= t[idx].numasks ==> attrIdx < NumUmasks
    ensures r.isDefault <==> attrIdx <= t[idx].numasks && IsDefault(t[idx].umasks[attrIdx])
    ensures r.dflVal == (if r.isDefault then Some(0) else None)
  {
    if attrIdx > t[idx].numasks then AttrInfo(false, None)
    else
      var dfl := IsDefault(t[idx].umasks[attrIdx]);
      AttrInfo(dfl, if dfl then Some(0) else None)
  }

  /** For a used slot, the flag is exactly the slot's DFL flag. */
  lemma AttrInfoOfUsedSlot(t: Table, idx: nat, attrIdx: nat)
    requires idx < |t| && Shaped(t[idx]) && attrIdx < t[idx].numasks
    ensures GetEventAttrInfo(t, idx, attrIdx).isDefault == (Dfl in t[idx].umasks[attrIdx].uflags)
  {
  }

  /** True when every unit-mask attribute of `attrs` from position `i` on
      carries the PEBS flag (the `umask_pebs &= ...` fold). */
  predicate UmasksPebsFrom(e: Entry, attrs: seq<Attr>, i: nat)
    requires Shaped(e)
    requires forall k :: 0 <= k < |attrs| && attrs[k].UmaskAttr? ==> attrs[k].id < e.numasks
    decreases |attrs| - i
  {
    if i >= |attrs| then true
    else
      (attrs[i].ModAttr? || Pebs in e.umasks[attrs[i].id].uflags)
      && UmasksPebsFrom(e, attrs, i + 1)
  }

  /** pfm_event_supports_pebs after parsing: `parsed` is what the event-string
      parser returned, `initialized` whether the library was initialised. */
  function SupportsPebs(initialized: bool, t: Table, parsed: Result<EventDesc, PfmErr>): (r: Result<(), PfmErr>)
    requires parsed.Success? ==> DescFits(t, parsed.value)
    ensures !initialized ==> r == Failure(ErrNotSupp)
    ensures initialized && parsed.Failure? ==> r == Failure(parsed.error)
    ensures initialized && parsed.Success? ==>
      (r.Success? <==>
        forall k :: 0 <= k < |parsed.value.attrs| && parsed.value.attrs[k].UmaskAttr? ==>
          Pebs in t[parsed.value.event].umasks[parsed.value.attrs[k].id].uflags)
    ensures r.Failure? ==> r.error == ErrNotSupp || (parsed.Failure? && r.error == parsed.error)
  {
    if !initialized then Failure(ErrNotSupp)
    else if parsed.Failure? then Failure(parsed.error)
    else
      var d := parsed.value;
      var e := t[d.event];
      if Pebs in e.flags && |d.attrs| == 0 then Success(())
      else
        UmasksPebsAll(e, d.attrs, 0);
        if UmasksPebsFrom(e, d.attrs, 0) then Success(()) else Failure(ErrNotSupp)
  }

  /** The fold from `i` on holds iff every later unit-mask attribute has PEBS. */
  lemma {:induction false} UmasksPebsAll(e: Entry, attrs: seq<Attr>, i: nat)
    requires Shaped(e)
    requires forall k :: 0 <= k < |attrs| && attrs[k].UmaskAttr? ==> attrs[k].id < e.numasks
    ensures UmasksPebsFrom(e, attrs, i) <==>
      forall k :: i <= k < |attrs| && attrs[k].UmaskAttr? ==> Pebs in e.umasks[attrs[k].id].uflags
    decreases |attrs| - i
  {
    if i < |attrs| {
      UmasksPebsAll(e, attrs, i + 1);
    }
  }

  /** The event-level PEBS flag never changes the answer: the early return it
      guards is also taken by the fold when there are no attributes. */
  lemma PebsEventFlagIrrelevant(initialized: bool, t: Table, d: EventDesc, i: nat)
    requires DescFits(t, d) && i == d.event
    ensures SupportsPebs(initialized, t, Success(d)) ==
            SupportsPebs(initialized, t[i := t[i].(flags := t[i].flags - {Pebs})], Success(d))
  {
  }
}
