/** intel_x86_add_defaults of lib/pfmlib_intel_x86.c: completing the unit
    mask with the default unit masks of the groups the caller did not cover.

    The loops walk the slot array `us` of an entry together with its count
    `n` of used slots (`e.umasks`, `e.numasks`). */
module IntelX86Defaults {
  import opened Wrappers
  import opened Words
  import opened PfmErrors
  import opened IntelX86Table

  /** Outcome of intel_x86_add_defaults: the updated `*umask` and the text
      appended to `umask_str`. */
  datatype Defaults = Defaults(umask: Word, names: string)

  /** State after the inner loop for one group: the unit mask with the
      group's default codes ORed in, the ":name" text, and `added`. */
  datatype GroupPass = GroupPass(umask: Word, names: string, added: nat)

  /** The inner loop for group `g`, from slot `j` on. */
  function GroupDefaultsFrom(us: seq<UnitMask>, n: nat, g: nat, j: nat, umask: Word): GroupPass
    requires SlotsOk(us, n)
    decreases n - j
  {
    if j >= n then GroupPass(umask, "", 0)
    else if us[j].grpid != g then GroupDefaultsFrom(us, n, g, j + 1, umask)
    else if IsDefault(us[j]) then
      var rest := GroupDefaultsFrom(us, n, g, j + 1, umask + us[j].ucode);
      GroupPass(rest.umask, ":" + us[j].uname.value + rest.names, rest.added + 1)
    else GroupDefaultsFrom(us, n, g, j + 1, umask)
  }

  /** The outer loop after `i` iterations, when the C variable `msk` holds
      `Shr(msk, i)`: it stops once no bit is left, skips a clear low bit, and
      otherwise runs the inner loop for group `i`. */
  function AddDefaultsFrom(us: seq<UnitMask>, n: nat, msk: Word, i: nat, umask: Word): Result<Defaults, PfmErr>
    requires SlotsOk(us, n) && Fits(msk, 32)
    decreases 32 - i
  {
    if Shr(msk, i) == {} then Success(Defaults(umask, ""))
    else
      ShiftedOut(msk, i);
      if 0 !in Shr(msk, i) then AddDefaultsFrom(us, n, msk, i + 1, umask)
      else
        var pass := GroupDefaultsFrom(us, n, i, 0, umask);
        if pass.added == 0 then Failure(ErrUmask)
        else
          match AddDefaultsFrom(us, n, msk, i + 1, pass.umask)
          case Failure(err) => Failure(err)
          case Success(rest) => Success(Defaults(rest.umask, pass.names + rest.names))
  }

  /** A 32-bit mask has nothing left after 32 shifts. */
  lemma ShiftedOut(msk: Word, i: nat)
    requires Fits(msk, 32) && Shr(msk, i) != {}
    ensures i < 32
  {
    var b :| b in Shr(msk, i);
    assert b + i in msk;
  }

  /** intel_x86_add_defaults. */
  function AddDefaults(e: Entry, msk: Word, umask: Word): (r: Result<Defaults, PfmErr>)
    requires Shaped(e) && SlotsOk(e.umasks, e.numasks) && Fits(msk, 32)
    ensures r.Failure? <==> exists g :: g in msk && !HasDefault(e, g)
    ensures r.Failure? ==> r.error == ErrUmask
    ensures r.Success? ==> forall b :: b in r.value.umask <==> b in umask || DefaultHasBit(e, msk, b)
    ensures r.Success? ==> r.value.names == DefaultNames(e.umasks, e.numasks, msk, 0)
  {
    AddDefaultsFromSpec(e.umasks, e.numasks, msk, umask);
    AddDefaultsFrom(e.umasks, e.numasks, msk, 0, umask)
  }

  // ---------------------------------------------------------------------
  // What the defaults are, independently of the loops
  // ---------------------------------------------------------------------

  /** Group `g` has a default unit mask among the used slots `j..`. */
  predicate HasDefaultFrom(us: seq<UnitMask>, n: nat, g: nat, j: nat)
    requires n <= |us|
  {
    exists j' :: j <= j' < n && us[j'].grpid == g && IsDefault(us[j'])
  }

  /** Group `g` of the entry has a default unit mask. */
  predicate HasDefault(e: Entry, g: nat)
    requires Shaped(e)
  {
    HasDefaultFrom(e.umasks, e.numasks, g, 0)
  }

  /** Bit `b` is in the code of a default unit mask, among the used slots,
      whose group is at least `lo` and is selected by `msk`. */
  predicate DefaultHasBitFrom(us: seq<UnitMask>, n: nat, msk: Word, lo: nat, b: nat)
    requires n <= |us|
  {
    exists j :: 0 <= j < n && IsDefault(us[j]) && lo <= us[j].grpid && us[j].grpid in msk && b in us[j].ucode
  }

  predicate DefaultHasBit(e: Entry, msk: Word, b: nat)
    requires Shaped(e)
  {
    DefaultHasBitFrom(e.umasks, e.numasks, msk, 0, b)
  }

  /** ":name" of every default unit mask of group `g` among slots `j..`, in
      table order. */
  function GroupNames(us: seq<UnitMask>, n: nat, g: nat, j: nat): string
    requires SlotsOk(us, n)
    decreases n - j
  {
    if j >= n then ""
    else (if us[j].grpid == g && IsDefault(us[j]) then ":" + us[j].uname.value else "") + GroupNames(us, n, g, j + 1)
  }

  /** The names of the defaults of the groups `g..31` selected by `msk`,
      group by group. */
  function DefaultNames(us: seq<UnitMask>, n: nat, msk: Word, g: nat): string
    requires SlotsOk(us, n)
    decreases 32 - g
  {
    if g >= 32 then ""
    else (if g in msk then GroupNames(us, n, g, 0) else "") + DefaultNames(us, n, msk, g + 1)
  }

  // ---------------------------------------------------------------------
  // Proof of AddDefaults' contract
  // ---------------------------------------------------------------------

  /** The inner loop adds exactly the codes and names of the group's defaults,
      and adds at least one iff the group has a default. */
  lemma {:induction false} GroupPassSpec(us: seq<UnitMask>, n: nat, g: nat, j: nat, umask: Word)
    requires SlotsOk(us, n)
    ensures GroupDefaultsFrom(us, n, g, j, umask).added > 0 <==> HasDefaultFrom(us, n, g, j)
    ensures GroupDefaultsFrom(us, n, g, j, umask).names == GroupNames(us, n, g, j)
    ensures forall b :: b in GroupDefaultsFrom(us, n, g, j, umask).umask <==>
      b in umask || exists j' :: j <= j' < n && us[j'].grpid == g && IsDefault(us[j']) && b in us[j'].ucode
    decreases n - j
  {
    if j < n {
      var hit := us[j].grpid == g && IsDefault(us[j]);
      var next := if hit then umask + us[j].ucode else umask;
      GroupPassSpec(us, n, g, j + 1, next);
      if !hit && HasDefaultFrom(us, n, g, j) {
        var j' :| j <= j' < n && us[j'].grpid == g && IsDefault(us[j']);
        assert j' != j;
      }
      forall b | b in GroupDefaultsFrom(us, n, g, j, umask).umask && b !in umask
        ensures exists j' :: j <= j' < n && us[j'].grpid == g && IsDefault(us[j']) && b in us[j'].ucode
      {
        if !(hit && b in us[j].ucode) {
          var j' :| j + 1 <= j' < n && us[j'].grpid == g && IsDefault(us[j']) && b in us[j'].ucode;
        }
      }
    }
  }

  /** No group at or above `g` contributes a name when none is selected. */
  lemma {:induction false} DefaultNamesNone(us: seq<UnitMask>, n: nat, msk: Word, g: nat)
    requires SlotsOk(us, n)
    requires forall h :: g <= h ==> h !in msk
    ensures DefaultNames(us, n, msk, g) == ""
    decreases 32 - g
  {
    if g < 32 {
      DefaultNamesNone(us, n, msk, g + 1);
    }
  }

  /** No selected group at or above `i` once the shifted mask is empty. */
  lemma NoneLeft(msk: Word, i: nat)
    requires Shr(msk, i) == {}
    ensures forall h :: i <= h ==> h !in msk
  {
    forall h | i <= h
      ensures h !in msk
    {
      assert h - i !in Shr(msk, i);
    }
  }

  /** Bit 0 of the shifted mask is bit `i` of the mask. */
  lemma LowBit(msk: Word, i: nat)
    ensures 0 in Shr(msk, i) <==> i in msk
  {
    assert 0 + i == i;
  }

  /** The outer loop fails, with PFM_ERR_UMASK, exactly when a selected group
      at or above `i` has no default. */
  lemma {:induction false} AddDefaultsFromFails(us: seq<UnitMask>, n: nat, msk: Word, i: nat, umask: Word)
    requires SlotsOk(us, n) && Fits(msk, 32)
    ensures AddDefaultsFrom(us, n, msk, i, umask).Failure? <==>
            exists g :: i <= g && g in msk && !HasDefaultFrom(us, n, g, 0)
    ensures AddDefaultsFrom(us, n, msk, i, umask).Failure? ==> AddDefaultsFrom(us, n, msk, i, umask).error == ErrUmask
    decreases 32 - i
  {
    if Shr(msk, i) == {} {
      NoneLeft(msk, i);
    } else {
      ShiftedOut(msk, i);
      LowBit(msk, i);
      var pass := GroupDefaultsFrom(us, n, i, 0, umask);
      GroupPassSpec(us, n, i, 0, umask);
      AddDefaultsFromFails(us, n, msk, i + 1, if i in msk then pass.umask else umask);
    }
  }

  /** On success the outer loop has ORed in exactly the codes of the defaults
      of the selected groups at or above `i`. */
  lemma {:induction false} AddDefaultsFromBits(us: seq<UnitMask>, n: nat, msk: Word, i: nat, umask: Word)
    requires SlotsOk(us, n) && Fits(msk, 32)
    requires AddDefaultsFrom(us, n, msk, i, umask).Success?
    ensures forall b :: b in AddDefaultsFrom(us, n, msk, i, umask).value.umask <==>
        b in umask || DefaultHasBitFrom(us, n, msk, i, b)
    decreases 32 - i
  {
    if Shr(msk, i) == {} {
      NoneLeft(msk, i);
    } else {
      ShiftedOut(msk, i);
      LowBit(msk, i);
      if i !in msk {
        AddDefaultsFromBits(us, n, msk, i + 1, umask);
        forall b | DefaultHasBitFrom(us, n, msk, i, b)
          ensures DefaultHasBitFrom(us, n, msk, i + 1, b)
        {
          var j :| 0 <= j < n && IsDefault(us[j]) && i <= us[j].grpid && us[j].grpid in msk && b in us[j].ucode;
        }
      } else {
        GroupPassSpec(us, n, i, 0, umask);
        var pass := GroupDefaultsFrom(us, n, i, 0, umask);
        AddDefaultsFromBits(us, n, msk, i + 1, pass.umask);
        forall b | DefaultHasBitFrom(us, n, msk, i, b)
          ensures b in pass.umask || DefaultHasBitFrom(us, n, msk, i + 1, b)
        {
          var j :| 0 <= j < n && IsDefault(us[j]) && i <= us[j].grpid && us[j].grpid in msk && b in us[j].ucode;
        }
        forall b | b in pass.umask && b !in umask
          ensures DefaultHasBitFrom(us, n, msk, i, b)
        {
          var j :| 0 <= j < n && us[j].grpid == i && IsDefault(us[j]) && b in us[j].ucode;
        }
      }
    }
  }

  /** On success the names appended are those of the defaults, group by group. */
  lemma {:induction false} AddDefaultsFromNames(us: seq<UnitMask>, n: nat, msk: Word, i: nat, umask: Word)
    requires SlotsOk(us, n) && Fits(msk, 32)
    requires AddDefaultsFrom(us, n, msk, i, umask).Success?
    ensures AddDefaultsFrom(us, n, msk, i, umask).value.names == DefaultNames(us, n, msk, i)
    decreases 32 - i
  {
    if Shr(msk, i) == {} {
      NoneLeft(msk, i);
      DefaultNamesNone(us, n, msk, i);
    } else {
      ShiftedOut(msk, i);
      LowBit(msk, i);
      var pass := GroupDefaultsFrom(us, n, i, 0, umask);
      GroupPassSpec(us, n, i, 0, umask);
      AddDefaultsFromNames(us, n, msk, i + 1, if i in msk then pass.umask else umask);
    }
  }

  lemma AddDefaultsFromSpec(us: seq<UnitMask>, n: nat, msk: Word, umask: Word)
    requires SlotsOk(us, n) && Fits(msk, 32)
    ensures AddDefaultsFrom(us, n, msk, 0, umask).Failure? <==>
            exists g :: g in msk && !HasDefaultFrom(us, n, g, 0)
    ensures AddDefaultsFrom(us, n, msk, 0, umask).Failure? ==> AddDefaultsFrom(us, n, msk, 0, umask).error == ErrUmask
    ensures AddDefaultsFrom(us, n, msk, 0, umask).Success? ==>
      && (forall b :: b in AddDefaultsFrom(us, n, msk, 0, umask).value.umask <==>
            b in umask || DefaultHasBitFrom(us, n, msk, 0, b))
      && AddDefaultsFrom(us, n, msk, 0, umask).value.names == DefaultNames(us, n, msk, 0)
  {
    AddDefaultsFromFails(us, n, msk, 0, umask);
    if AddDefaultsFrom(us, n, msk, 0, umask).Success? {
      AddDefaultsFromBits(us, n, msk, 0, umask);
      AddDefaultsFromNames(us, n, msk, 0, umask);
    }
  }
}
