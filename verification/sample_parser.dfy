/** The memory-access classifiers, the data-source strings and the ring-buffer
    read of perf_examples/sample_parser.c. */
module SampleParser {
  import opened Words
  import opened SampleLayout

  // ---------------------------------------------------------------------
  // PERF_MEM_LVL_* and PERF_MEM_OP_*: one bit each, as bit positions in the
  // `mem_lvl` and `mem_op` fields
  // ---------------------------------------------------------------------

  const LvlNA: nat := 0
  const LvlHit: nat := 1
  const LvlMiss: nat := 2
  const LvlL1: nat := 3
  const LvlLfb: nat := 4
  const LvlL2: nat := 5
  const LvlL3: nat := 6
  const LvlLocRam: nat := 7
  const LvlRemRam1: nat := 8
  const LvlRemRam2: nat := 9
  const LvlRemCce1: nat := 10
  const LvlRemCce2: nat := 11
  const LvlIO: nat := 12
  const LvlUnc: nat := 13

  const OpNA: nat := 0
  const OpLoad: nat := 1
  const OpStore: nat := 2
  const OpPfetch: nat := 3
  const OpExec: nat := 4

  // ---------------------------------------------------------------------
  // Classifiers
  // ---------------------------------------------------------------------

  predicate ServedByLocalCache1(f: MemDataSrc) {
    LvlHit in f.lvl && LvlL1 in f.lvl
  }

  predicate ServedByLocalCache2(f: MemDataSrc) {
    LvlHit in f.lvl && LvlL2 in f.lvl
  }

  predicate ServedByLocalCache3(f: MemDataSrc) {
    LvlHit in f.lvl && LvlL3 in f.lvl
  }

  predicate ServedByLocalLfb(f: MemDataSrc) {
    LvlHit in f.lvl && LvlLfb in f.lvl
  }

  /** A hit in L1, the line fill buffer, L2 or L3, checked in that order. */
  predicate ServedByLocalCache(f: MemDataSrc) {
    if LvlHit in f.lvl then
      if LvlL1 in f.lvl then true
      else if LvlLfb in f.lvl then true
      else if LvlL2 in f.lvl then true
      else LvlL3 in f.lvl
    else false
  }

  predicate ServedByLocalMemory(f: MemDataSrc) {
    LvlHit in f.lvl && LvlLocRam in f.lvl
  }

  predicate ServedByRemoteCacheOrLocalMemory(f: MemDataSrc) {
    LvlHit in f.lvl && LvlRemCce1 in f.lvl
  }

  predicate ServedByRemoteMemory(f: MemDataSrc) {
    if LvlHit in f.lvl then
      if LvlRemRam1 in f.lvl then true else LvlRemRam2 in f.lvl
    else false
  }

  /** Not available, or a miss in L3. */
  predicate ServedByLocalNAMiss(f: MemDataSrc) {
    if LvlNA in f.lvl then true else LvlMiss in f.lvl && LvlL3 in f.lvl
  }

  /** The local-cache classifier is the disjunction of the four per-level
      ones. */
  lemma LocalCacheIsAnyLevel(f: MemDataSrc)
    ensures ServedByLocalCache(f) <==>
      ServedByLocalCache1(f) || ServedByLocalLfb(f) || ServedByLocalCache2(f) || ServedByLocalCache3(f)
  {
  }

  /** Without the HIT bit no "served by" classifier holds. */
  lemma NoHitNoService(f: MemDataSrc)
    requires LvlHit !in f.lvl
    ensures !ServedByLocalCache(f) && !ServedByLocalMemory(f)
    ensures !ServedByRemoteCacheOrLocalMemory(f) && !ServedByRemoteMemory(f)
  {
  }

  /** The NA/miss classifier ignores the HIT bit: flipping it never changes
      the answer. */
  lemma NAMissIgnoresHit(f: MemDataSrc)
    ensures ServedByLocalNAMiss(f) == ServedByLocalNAMiss(f.(lvl := f.lvl - {LvlHit}))
    ensures ServedByLocalNAMiss(f) == ServedByLocalNAMiss(f.(lvl := f.lvl + {LvlHit}))
  {
  }

  /** On the union's raw 64-bit value: the L1 classifier tests bits 6 and 8,
      the local-cache one bit 6 and one of bits 8, 9, 10 and 11, the NA/miss
      one bit 5, or bits 7 and 11. */
  lemma ClassifiersOnValue(v: Word)
    ensures ServedByLocalCache1(Unpack(v)) <==> 6 in v && 8 in v
    ensures ServedByLocalCache(Unpack(v)) <==> 6 in v && (8 in v || 9 in v || 10 in v || 11 in v)
    ensures ServedByLocalNAMiss(Unpack(v)) <==> 5 in v || (7 in v && 11 in v)
  {
    assert LvlLo + LvlHit == 6 && LvlLo + LvlL1 == 8 && LvlLo + LvlNA == 5;
  }

  // ---------------------------------------------------------------------
  // get_data_src_opcode
  // ---------------------------------------------------------------------

  /** get_data_src_opcode: the name of every operation bit set, in a fixed
      order, concatenated without separator. */
  function OpcodeString(f: MemDataSrc): string {
    (if OpNA in f.op then "NA" else "")
    + (if OpLoad in f.op then "Load" else "")
    + (if OpStore in f.op then "Store" else "")
    + (if OpPfetch in f.op then "Prefetch" else "")
    + (if OpExec in f.op then "Exec code" else "")
  }

  /** A bit and the name printed for it. */
  datatype Named = Named(bit: nat, name: string)

  /** The operation names in printing order. */
  const OpTable: seq<Named> := [Named(OpNA, "NA"), Named(OpLoad, "Load"), Named(OpStore, "Store"),
                                Named(OpPfetch, "Prefetch"), Named(OpExec, "Exec code")]

  /** The names of the table entries from `k` on whose bit is in `w`, in
      table order. */
  function Render(t: seq<Named>, k: nat, w: Word): string
    decreases |t| - k
  {
    if k >= |t| then "" else (if t[k].bit in w then t[k].name else "") + Render(t, k + 1, w)
  }

  /** The table's bits from entry `k` on that are in `w`. */
  function SetBits(t: seq<Named>, k: nat, w: Word): Word
    decreases |t| - k
  {
    if k >= |t| then {} else (if t[k].bit in w then {t[k].bit} else {}) + SetBits(t, k + 1, w)
  }

  /** Reads names back: each entry from `k` on in turn is taken when the
      text starts with its name. */
  function ParseNames(t: seq<Named>, k: nat, s: string): Word
    decreases |t| - k
  {
    if k >= |t| then {}
    else if t[k].name <= s then {t[k].bit} + ParseNames(t, k + 1, s[|t[k].name|..])
    else ParseNames(t, k + 1, s)
  }

  /** The names are nonempty and start with pairwise different letters, so
      no name can be confused with the text that follows. */
  predicate DistinctHeads(t: seq<Named>) {
    && (forall i :: 0 <= i < |t| ==> |t[i].name| > 0)
    && (forall i, j :: 0 <= i < j < |t| ==> t[i].name[0] != t[j].name[0])
  }

  /** The opcode string is the table rendering of `mem_op`. */
  lemma OpcodeStringByTable(f: MemDataSrc)
    ensures OpcodeString(f) == Render(OpTable, 0, f.op)
  {
    var t := OpTable;
    assert Render(t, 4, f.op) == if OpExec in f.op then "Exec code" else "";
    assert Render(t, 3, f.op) == (if OpPfetch in f.op then "Prefetch" else "") + Render(t, 4, f.op);
    assert Render(t, 2, f.op) == (if OpStore in f.op then "Store" else "") + Render(t, 3, f.op);
    assert Render(t, 1, f.op) == (if OpLoad in f.op then "Load" else "") + Render(t, 2, f.op);
    Regroup(if OpNA in f.op then "NA" else "", if OpLoad in f.op then "Load" else "",
            if OpStore in f.op then "Store" else "", if OpPfetch in f.op then "Prefetch" else "",
            if OpExec in f.op then "Exec code" else "");
  }

  /** Concatenation regrouped from the left to the right. */
  lemma Regroup(a: string, b: string, c: string, d: string, e: string)
    ensures a + b + c + d + e == a + (b + (c + (d + e)))
  {
  }

  /** The opcode string is empty exactly when none of the five operation
      bits is set. */
  lemma OpcodeStringEmpty(f: MemDataSrc)
    ensures OpcodeString(f) == "" <==> f.op * Span(0, OpWidth) == {}
  {
    OpcodeStringByTable(f);
    RenderEmpty(OpTable, 0, f.op);
    if f.op * Span(0, OpWidth) != {} {
      var b :| b in f.op * Span(0, OpWidth);
      assert OpTable[b].bit == b;
    }
  }

  /** The rendering is empty exactly when no entry's bit is set. */
  lemma {:induction false} RenderEmpty(t: seq<Named>, k: nat, w: Word)
    requires forall i :: 0 <= i < |t| ==> |t[i].name| > 0
    ensures Render(t, k, w) == "" <==> forall i :: k <= i < |t| ==> t[i].bit !in w
    decreases |t| - k
  {
    if k < |t| {
      RenderEmpty(t, k + 1, w);
    }
  }

  /** A rendering from `k` on does not start with a letter that begins none
      of the names from `k` on. */
  lemma {:induction false} RenderAvoids(t: seq<Named>, k: nat, w: Word, c: char)
    requires forall i :: 0 <= i < |t| ==> |t[i].name| > 0
    requires forall i :: k <= i < |t| ==> t[i].name[0] != c
    ensures Render(t, k, w) == "" || Render(t, k, w)[0] != c
    decreases |t| - k
  {
    if k < |t| {
      RenderAvoids(t, k + 1, w, c);
    }
  }

  /** Reading a rendering back recovers exactly the table's bits that are
      set. */
  lemma {:induction false} ParseRender(t: seq<Named>, k: nat, w: Word)
    requires DistinctHeads(t)
    ensures ParseNames(t, k, Render(t, k, w)) == SetBits(t, k, w)
    decreases |t| - k
  {
    if k < |t| {
      var rest := Render(t, k + 1, w);
      ParseRender(t, k + 1, w);
      if t[k].bit in w {
        assert Render(t, k, w) == t[k].name + rest;
        assert Render(t, k, w)[|t[k].name|..] == rest;
      } else {
        RenderAvoids(t, k + 1, w, t[k].name[0]);
        assert Render(t, k, w) == rest;
        assert !(t[k].name <= rest);
      }
    }
  }

  /** The opcode string determines the operation bits: reading it back gives
      the five defined bits of `mem_op`. */
  lemma OpcodeStringRoundTrip(f: MemDataSrc)
    ensures ParseNames(OpTable, 0, OpcodeString(f)) == f.op * Span(0, OpWidth)
  {
    var t := OpTable;
    OpcodeStringByTable(f);
    assert DistinctHeads(t);
    ParseRender(t, 0, f.op);
    assert SetBits(t, 4, f.op) == f.op * {4};
    assert SetBits(t, 3, f.op) == f.op * {3, 4};
    assert SetBits(t, 2, f.op) == f.op * {2, 3, 4};
    assert SetBits(t, 1, f.op) == f.op * {1, 2, 3, 4};
    assert SetBits(t, 0, f.op) == f.op * {0, 1, 2, 3, 4};
    assert Span(0, OpWidth) == {0, 1, 2, 3, 4};
  }

  // ---------------------------------------------------------------------
  // get_data_src_level
  // ---------------------------------------------------------------------

  /** The level names, from the highest priority to the lowest. */
  const LevelTable: seq<Named> := [
    Named(LvlL1, "L1"), Named(LvlLfb, "LFB"), Named(LvlL2, "L2"), Named(LvlL3, "L3"),
    Named(LvlLocRam, "Local_RAM"), Named(LvlRemRam1, "Remote_RAM_1_hop"),
    Named(LvlRemRam2, "Remote_RAM_2_hops"), Named(LvlRemCce1, "Remote_Cache_1_hop"),
    Named(LvlRemCce2, "Remote_Cache_2_hops"), Named(LvlIO, "I/O_Memory"), Named(LvlUnc, "Uncached_Memory")]

  /** The name of the highest-priority level set. */
  function LevelName(f: MemDataSrc): string {
    if LvlL1 in f.lvl then "L1"
    else if LvlLfb in f.lvl then "LFB"
    else if LvlL2 in f.lvl then "L2"
    else if LvlL3 in f.lvl then "L3"
    else if LvlLocRam in f.lvl then "Local_RAM"
    else if LvlRemRam1 in f.lvl then "Remote_RAM_1_hop"
    else if LvlRemRam2 in f.lvl then "Remote_RAM_2_hops"
    else if LvlRemCce1 in f.lvl then "Remote_Cache_1_hop"
    else if LvlRemCce2 in f.lvl then "Remote_Cache_2_hops"
    else if LvlIO in f.lvl then "I/O_Memory"
    else if LvlUnc in f.lvl then "Uncached_Memory"
    else ""
  }

  /** get_data_src_level: "NA" if not available, the level name, then "_Hit"
      or, failing that, "_Miss". */
  function LevelString(f: MemDataSrc): string {
    (if LvlNA in f.lvl then "NA" else "")
    + LevelName(f)
    + (if LvlHit in f.lvl then "_Hit" else if LvlMiss in f.lvl then "_Miss" else "")
  }

  /** The name of the first table entry from `k` on whose bit is in `w`, ""
      if none. */
  function FirstName(t: seq<Named>, k: nat, w: Word): string
    decreases |t| - k
  {
    if k >= |t| then "" else if t[k].bit in w then t[k].name else FirstName(t, k + 1, w)
  }

  /** The level name is that of the first entry of the priority table whose
      bit is set. */
  lemma LevelNameByPriority(f: MemDataSrc)
    ensures LevelName(f) == FirstName(LevelTable, 0, f.lvl)
  {
    var t := LevelTable;
    assert FirstName(t, 10, f.lvl) == if LvlUnc in f.lvl then "Uncached_Memory" else "";
    assert FirstName(t, 9, f.lvl) == if LvlIO in f.lvl then "I/O_Memory" else FirstName(t, 10, f.lvl);
    assert FirstName(t, 8, f.lvl) == if LvlRemCce2 in f.lvl then "Remote_Cache_2_hops" else FirstName(t, 9, f.lvl);
    assert FirstName(t, 7, f.lvl) == if LvlRemCce1 in f.lvl then "Remote_Cache_1_hop" else FirstName(t, 8, f.lvl);
    assert FirstName(t, 6, f.lvl) == if LvlRemRam2 in f.lvl then "Remote_RAM_2_hops" else FirstName(t, 7, f.lvl);
    assert FirstName(t, 5, f.lvl) == if LvlRemRam1 in f.lvl then "Remote_RAM_1_hop" else FirstName(t, 6, f.lvl);
    assert FirstName(t, 4, f.lvl) == if LvlLocRam in f.lvl then "Local_RAM" else FirstName(t, 5, f.lvl);
    assert FirstName(t, 3, f.lvl) == if LvlL3 in f.lvl then "L3" else FirstName(t, 4, f.lvl);
    assert FirstName(t, 2, f.lvl) == if LvlL2 in f.lvl then "L2" else FirstName(t, 3, f.lvl);
    assert FirstName(t, 1, f.lvl) == if LvlLfb in f.lvl then "LFB" else FirstName(t, 2, f.lvl);
  }

  /** The first name found is that of an entry whose bit is set and before
      which no entry's bit is set; it is empty only when no bit is set. */
  lemma {:induction false} FirstNameFound(t: seq<Named>, k: nat, w: Word)
    requires forall i :: 0 <= i < |t| ==> |t[i].name| > 0
    ensures FirstName(t, k, w) == "" <==> forall i :: k <= i < |t| ==> t[i].bit !in w
    ensures FirstName(t, k, w) != "" ==>
      exists i :: k <= i < |t| && t[i].bit in w && FirstName(t, k, w) == t[i].name
        && forall j :: k <= j < i ==> t[j].bit !in w
    decreases |t| - k
  {
    if k < |t| {
      FirstNameFound(t, k + 1, w);
      if t[k].bit in w {
        assert FirstName(t, k, w) == t[k].name;
      }
    }
  }

  /** The level string has the three parts in order: "NA" exactly when NA
      is set, the first level by priority, and the hit/miss suffix, where HIT
      wins over MISS. */
  lemma LevelStringParts(f: MemDataSrc)
    ensures LevelString(f) ==
      (if LvlNA in f.lvl then "NA" else "") + FirstName(LevelTable, 0, f.lvl)
      + (if LvlHit in f.lvl then "_Hit" else if LvlMiss in f.lvl then "_Miss" else "")
  {
    LevelNameByPriority(f);
  }

  // ---------------------------------------------------------------------
  // read_sample_data
  // ---------------------------------------------------------------------

  /** What read_sample_data produces: the copied bytes, the size it reports
      and the new `data_tail`. */
  datatype Drained = Drained(bytes: seq<Byte>, size: nat, newTail: nat)

  /** read_sample_data on the ring `data` (its `data_size` bytes) with the
      given `data_head` and `data_tail`, both offsets into the ring: `head`
      after `tail` is the slice between them, otherwise the copy wraps around
      the end, so that `head == tail` copies the whole ring. */
  function ReadSampleData(data: seq<Byte>, head: nat, tail: nat): (r: Drained)
    requires head <= |data| && tail <= |data|
    ensures r.size == |r.bytes|
    ensures r.size == (if head > tail then head - tail else |data| - tail + head)
    ensures r.newTail == head
  {
    if head > tail then Drained(data[tail..head], head - tail, head)
    else Drained(data[tail..] + data[..head], |data| - tail + head, head)
  }

  /** The bytes copied are the ring's bytes from `tail` on, wrapping at the
      end of the ring. */
  lemma ReadSampleDataBytes(data: seq<Byte>, head: nat, tail: nat)
    requires head <= |data| && tail <= |data|
    ensures forall k :: 0 <= k < ReadSampleData(data, head, tail).size ==>
      ReadSampleData(data, head, tail).bytes[k] == data[Wrap(tail + k, |data|)]
  {
  }

  /** The ring position of the running offset `i`, which is below two turns. */
  function Wrap(i: nat, n: nat): (r: nat)
    requires i < 2 * n
    ensures r < n
    ensures r == i % n
  {
    if i < n then i else ModOnce(i, n); i - n
  }

  /** An index past the end by less than one length is reduced by one length. */
  lemma ModOnce(i: nat, n: nat)
    requires n <= i < 2 * n
    ensures i % n == i - n
  {
    var q, m := i / n, i % n;
    assert i == q * n + m && 0 <= m < n;
    assert q == 1;
  }

  /** Reading again before the kernel writes anything (head unchanged)
      copies the whole ring once more. */
  lemma ReadTwice(data: seq<Byte>, head: nat, tail: nat)
    requires head <= |data| && tail <= |data|
    ensures ReadSampleData(data, head, ReadSampleData(data, head, tail).newTail).size == |data|
    ensures ReadSampleData(data, head, ReadSampleData(data, head, tail).newTail).bytes == data[head..] + data[..head]
  {
  }
  /** As written, an empty ring (`head == tail`, nothing produced since the
      last read) is reported as full: on a four-byte ring the whole stale
      contents come back, starting at the tail. */
  lemma EmptyRingReadAsFull()
    ensures ReadSampleData([1, 2, 3, 4], 2, 2) == Drained([3, 4, 1, 2], 4, 2)
  {
    var data: seq<Byte> := [1, 2, 3, 4];
    assert data[2..] + data[..2] == [3, 4, 1, 2];
  }

  /** Corrected read: the pending bytes from `tail` up to `head`, wrapping at
      the end of the ring, and nothing when the two are equal. */
  function ReadPending(data: seq<Byte>, head: nat, tail: nat): (r: Drained)
    requires head <= |data| && tail <= |data|
    ensures r.size == |r.bytes| && r.newTail == head
    ensures r.size == (if head >= tail then head - tail else |data| - tail + head)
    ensures head != tail ==> r == ReadSampleData(data, head, tail)
  {
    if head == tail then Drained([], 0, head) else ReadSampleData(data, head, tail)
  }

  /** With the corrected read, the copied bytes follow the ring from the tail
      and a second read with no new data yields nothing. */
  lemma ReadPendingOnce(data: seq<Byte>, head: nat, tail: nat)
    requires head <= |data| && tail <= |data|
    ensures forall k :: 0 <= k < ReadPending(data, head, tail).size ==>
      ReadPending(data, head, tail).bytes[k] == data[Wrap(tail + k, |data|)]
    ensures ReadPending(data, head, ReadPending(data, head, tail).newTail).bytes == []
  {
    if head != tail {
      ReadSampleDataBytes(data, head, tail);
    }
  }
}
