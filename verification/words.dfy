/** Unsigned machine words as the set of the positions of their 1 bits.

    Bit `b` of a C `unsigned int` or `uint64_t` value is set exactly when `b`
    is in the set, so `|` is union, `&` is intersection, `& ~m` is set
    difference and a test `x & m` is "the sets meet". A bit-field of a C
    union is a range of positions; its numeric value is `Value`. */
module Words {

  type Word = set<nat>

  /** Every 1 bit is below `width`: the value fits a `width`-bit type. */
  predicate Fits(w: Word, width: nat) {
    forall b :: b in w ==> b < width
  }

  /** The mask with the bits `lo .. hi-1` set. */
  function Span(lo: nat, hi: nat): (r: Word)
    ensures forall b :: b in r <==> lo <= b < hi
    decreases hi - lo
  {
    if lo >= hi then {} else {lo} + Span(lo + 1, hi)
  }

  /** `w << k` computed in a `width`-bit type: bits pushed past the top are lost. */
  function Shl(w: Word, k: nat, width: nat): (r: Word)
    ensures forall b :: b in r <==> k <= b < width && b - k in w
  {
    set b | b in w && b + k < width :: b + k
  }

  /** `w >> k` (logical shift of an unsigned value). */
  function Shr(w: Word, k: nat): (r: Word)
    ensures forall b: nat :: b in r <==> b + k in w
  {
    var r := set b | b in w && b >= k :: b - k;
    assert forall b: nat :: b + k in w ==> b in r by {
      forall b: nat | b + k in w
        ensures b in r
      {
        assert b + k in w && b + k >= k;
      }
    }
    r
  }

  /** The `n`-bit field at bit `lo`, moved down to bit 0: `(w >> lo) & (2^n - 1)`. */
  function Field(w: Word, lo: nat, n: nat): (r: Word)
    ensures forall b: nat :: b in r <==> b < n && b + lo in w
  {
    var r := set b | b in w && lo <= b < lo + n :: b - lo;
    assert forall b: nat :: b < n && b + lo in w ==> b in r by {
      forall b: nat | b < n && b + lo in w
        ensures b in r
      {
        assert b + lo in w && lo <= b + lo < lo + n;
      }
    }
    r
  }

  function Pow2(n: nat): (r: nat)
    ensures r >= 1
  {
    if n == 0 then 1 else 2 * Pow2(n - 1)
  }

  /** The unsigned number held in the `n` bits at `lo`. */
  function Value(w: Word, lo: nat, n: nat): nat
    decreases n
  {
    if n == 0 then 0 else (if lo in w then 1 else 0) + 2 * Value(w, lo + 1, n - 1)
  }

  /** The low `n` bits of the number `x`, placed at bit `lo`. */
  function OfNat(x: nat, lo: nat, n: nat): Word
    decreases n
  {
    if n == 0 then {} else (if x % 2 == 1 then {lo} else {}) + OfNat(x / 2, lo + 1, n - 1)
  }

  /** `OfNat` only sets bits inside its field. */
  lemma {:induction false} OfNatInField(x: nat, lo: nat, n: nat)
    ensures forall b :: b in OfNat(x, lo, n) ==> lo <= b < lo + n
    decreases n
  {
    if n > 0 {
      OfNatInField(x / 2, lo + 1, n - 1);
    }
  }

  /** A number below `2^n` written into an `n`-bit field reads back unchanged,
      whatever the word holds outside the field. */
  lemma {:induction false} ValueOfNat(x: nat, lo: nat, n: nat, w: Word)
    requires x < Pow2(n)
    requires forall b :: lo <= b < lo + n ==> (b in w <==> b in OfNat(x, lo, n))
    ensures Value(w, lo, n) == x
    decreases n
  {
    if n > 0 {
      OfNatInField(x / 2, lo + 1, n - 1);
      assert lo !in OfNat(x / 2, lo + 1, n - 1);
      assert lo in w <==> x % 2 == 1;
      ValueOfNat(x / 2, lo + 1, n - 1, w);
    }
  }

  /** A field reads as zero exactly when none of its bits is set. */
  lemma {:induction false} ValueZero(w: Word, lo: nat, n: nat)
    ensures Value(w, lo, n) == 0 <==> forall b :: lo <= b < lo + n ==> b !in w
    decreases n
  {
    if n > 0 {
      ValueZero(w, lo + 1, n - 1);
    }
  }

  /** A field's value fits its width. */
  lemma {:induction false} ValueBound(w: Word, lo: nat, n: nat)
    ensures Value(w, lo, n) < Pow2(n)
    decreases n
  {
    if n > 0 {
      ValueBound(w, lo + 1, n - 1);
    }
  }

  /** The OR of a list of words: what `w |= c` leaves in `w` after running
      over the list from `w == 0`. */
  function OrAll(cs: seq<Word>): Word {
    if |cs| == 0 then {} else cs[0] + OrAll(cs[1..])
  }

  /** A bit is in the OR of a list iff some word of the list has it. */
  lemma {:induction false} OrAllBits(cs: seq<Word>)
    ensures forall b :: b in OrAll(cs) <==> exists k :: 0 <= k < |cs| && b in cs[k]
  {
    if |cs| > 0 {
      OrAllBits(cs[1..]);
      forall b | b in OrAll(cs)
        ensures exists k :: 0 <= k < |cs| && b in cs[k]
      {
        if b !in cs[0] {
          assert b in OrAll(cs[1..]);
          var k :| 0 <= k < |cs[1..]| && b in cs[1..][k];
          assert b in cs[k + 1];
        }
      }
      forall b, k | 0 <= k < |cs| && b in cs[k]
        ensures b in OrAll(cs)
      {
        if k > 0 {
          assert b in cs[1..][k - 1];
        }
      }
    }
  }
}
