# perfmon Intel x86 encoder, memory-sample parser and linked list — a Dafny model

This project models three pieces of a small performance-monitoring code base.

- **The Intel x86 event encoder** (`lib/pfmlib_intel_x86.c`). It covers:
  - `intel_x86_encode_gen`, which folds an event and its ordered attribute list (unit masks and the `u`, `k`, `e`, `i`, `c`, `t` modifiers) into an IA32_PERFEVTSELx register value and a canonical event string;
  - `intel_x86_add_defaults`, which completes unit-mask groups the caller did not cover;
  - `pfm_intel_x86_get_encoding`;
  - the table validator `pfm_intel_x86_validate_table`;
  - the event walkers `get_event_first`, `get_event_next` and `event_is_valid`;
  - `pfm_intel_x86_get_event_attr_info`;
  - the PEBS capability fold `pfm_event_supports_pebs`.
- **The memory-sample parser** (`perf_examples/sample_parser.c`, `perf_examples/sample_parser.h`). It covers:
  - the `perf_mem_data_src` bit-fields and the packed 32-byte `sample_t` record;
  - the `is_served_by_*` classifiers;
  - the opcode and level strings;
  - `read_sample_data`, as a pure function of the ring contents, `data_head` and `data_tail`.
- **The singly linked list** (`perf_examples/linked_list.c`): `list_put`, `list_length`, `list_destroy`, `front_back_split`, `sorted_merge` and `list_sort`.
  - A list is the sequence of its node values, from the head on.
  - The comparator is a function parameter. `comp(x, y) >= 0` means that `x` may come first, which is the rule `sorted_merge` applies.

## How the model is built

**Machine words.** A C machine word is a `Words.Word`: the set of positions of its 1 bits.
- `|` is union, `&` is intersection, and `& ~m` is set difference.
- A numeric bit-field is read with `Words.Value` and written with `Words.OfNat`.
- Shifts drop the bits that leave the C type's width.

**The register.** It is one word, written as the C union writes it. The layout is that of section 18.2.1.1 of the Intel 64 and IA-32 Architectures Software Developer's Manual, Volume 3B:

| field | bits |
|---|---|
| event select | 0–7 |
| unit mask | 8–15 |
| USR | 16 |
| OS | 17 |
| E | 18 |
| INT | 20 |
| ANY | 21 |
| EN | 22 |
| INV | 23 |
| CMASK | 24–31 |

- `umask << 8` is computed in 32 bits, so unit-mask code bits above the low byte reach the bits above 15, as they do in C.
- The `PERF_MEM_LVL_*` and `PERF_MEM_OP_*` constants are the single-bit values of Linux's `include/uapi/linux/perf_event.h`, written as bit positions.
- `INTEL_X86_NUM_GRP` is 8 and `INTEL_X86_NUM_UMASKS` is 32.
- `PFM_PLM0` is bit 0 and `PFM_PLM3` is bit 3.

**The attribute loop** of `intel_x86_encode_gen` is `IntelX86Run.Run`: a left fold of one `Step` per attribute.
- Its accumulators are stated against an independent description of what the attributes ask for, in `CodeBit`, `HardwiredBit`, `UsesGroup`, `NComboUsed` and `PrivGiven`.
- `IntelX86Encode.EncodeReg` is the whole register computation as written.

**Two defects in the encoder** (see Findings) are modelled twice.
- `EncodeReg` and the `Rule.AsWritten` decoding rule follow the code.
- `EncodeRegFixed` and `Rule.Corrected` follow the evident intent.
- `EncodeGen` and `GetEncoding` are the code as written, built on `EncodeReg` and `Rule.AsWritten`.
- `EncodeGenFixed` and `GetEncodingFixed` are the same functions built on the corrected pieces.

**Where the code and its documentation disagree, the model follows the code:**
- Omitting a unit-mask group does not give the register of the same event with the group's default selected (Findings, first row).
- `read_sample_data` uses `data_head` directly as an offset into the ring. It never reduces it modulo the ring size.
- `read_sample_data` copies the whole ring when `head == tail`. `ReadSampleData` models that, and `ReadPending` is the corrected read.
- The C function assigns its buffer to a local copy of the `buff` parameter, so the caller never receives it. It also writes the second part of a wrapped copy through an undeclared `buf` (line 300). The model returns the bytes the copy evidently means to produce.

## Model

| member | source | states |
|---|---|---|
| IntelX86Events.GetEventNext | lib/pfmlib_intel_x86.c:438-446 | The next index is -1 or `idx + 1`. For a valid index it is -1 exactly at the last event, and otherwise it is valid again. |
| IntelX86Events.WalkFromVisitsSuffix | lib/pfmlib_intel_x86.c:438-453 | Following `get_event_next` from a valid index `i` visits `i, i+1, …, n-1`, all valid. |
| IntelX86Events.WalkEnumeratesTable | lib/pfmlib_intel_x86.c:432-453 | Starting at `get_event_first`, the walk enumerates every event index once, in order. On an empty table it yields only 0, which `event_is_valid` rejects. |
| IntelX86Events.GetEventAttrInfo | lib/pfmlib_intel_x86.c:639-651 | The result says "default" exactly when `attr_idx <= numasks` and that slot has the DFL flag. Slot `numasks` itself is read. `dfl_val64` is set to 0 exactly in that case. |
| IntelX86Events.AttrInfoOfUsedSlot | lib/pfmlib_intel_x86.c:644-650 | For a used slot, the answer is the slot's DFL flag. |
| IntelX86Events.SupportsPebs | lib/pfmlib_intel_x86.c:460-487 | An uninitialised library gives PFM_ERR_NOTSUPP, and a parse error is passed on. Otherwise the answer is success exactly when every unit-mask attribute has the PEBS flag. |
| IntelX86Events.UmasksPebsAll | lib/pfmlib_intel_x86.c:482-486 | The `umask_pebs &=` fold holds exactly when every unit-mask attribute from position `i` on carries PEBS. |
| IntelX86Events.PebsEventFlagIrrelevant | lib/pfmlib_intel_x86.c:476-486 | Clearing the event-level PEBS flag never changes the answer. |
| IntelX86Defaults.AddDefaults | lib/pfmlib_intel_x86.c:79-111 | Fails with PFM_ERR_UMASK exactly when some group in `msk` has no default. Otherwise the unit mask gains exactly the codes of the defaults of the groups in `msk`, and the names are the defaults' ":name" texts, group by group. |
| IntelX86Defaults.GroupPassSpec | lib/pfmlib_intel_x86.c:90-104 | The inner loop adds at least one default exactly when the group has one. It ORs in exactly the defaults' codes and appends their names in table order. |
| IntelX86Defaults.AddDefaultsFromFails | lib/pfmlib_intel_x86.c:83-109 | From group `i` on, the loop fails exactly when a selected group at or above `i` has no default, and the error is PFM_ERR_UMASK. |
| IntelX86Defaults.AddDefaultsFromBits | lib/pfmlib_intel_x86.c:83-109 | On success, the unit mask is the input plus the default codes of the selected groups at or above `i`. |
| IntelX86Defaults.AddDefaultsFromNames | lib/pfmlib_intel_x86.c:83-109 | On success, the appended text is the default names of the selected groups, in group order. |
| IntelX86Defaults.AddDefaultsFromSpec | lib/pfmlib_intel_x86.c:79-111 | The shifting loop over `msk` meets the group-wise description: failure iff a selected group lacks a default, the default bits, and the names. |
| IntelX86Run.ModStep | lib/pfmlib_intel_x86.c:203-228 | `c` fails with PFM_ERR_ATTR_VAL exactly when its value is above 255. `t` fails with PFM_ERR_ATTR_SET exactly when ANY is already set. `i`, `e`, `u` and `k` always pass. Only the register and the privilege mask change. |
| IntelX86Run.ModStepRegister | lib/pfmlib_intel_x86.c:204-227 | An accepted modifier writes only its own field: a flag becomes `!!ival`, and CMASK becomes `ival`. `u` and `k` are recorded in `plmmsk`. |
| IntelX86Run.StepState | lib/pfmlib_intel_x86.c:146-229 | A unit-mask attribute ORs its code into `umask` and its `modhw` into `modhw`. A modifier leaves the unit-mask bookkeeping alone and records `u` or `k`. |
| IntelX86Run.RunUmask | lib/pfmlib_intel_x86.c:144-196 | After any prefix, `umask` is the code's unit-mask byte plus exactly the code bits of the selected unit masks. |
| IntelX86Run.RunLowBits | lib/pfmlib_intel_x86.c:138-199 | After any prefix, register bits 0–7 are the event code's, and bits 8–15 are the accumulated unit mask. No modifier touches them. |
| IntelX86Run.RunUnitMaskByte | lib/pfmlib_intel_x86.c:141-199 | Register bit `8+b` is set exactly when it is in the event code or `b` is a code bit of a selected unit mask. |
| IntelX86Run.RunModhw | lib/pfmlib_intel_x86.c:195 | `modhw` holds exactly the modifiers hardwired by the selected unit masks. |
| IntelX86Run.RunPlmmsk | lib/pfmlib_intel_x86.c:215-222 | `plmmsk` records exactly which of `u` and `k` were given. |
| IntelX86Run.RunTracks | lib/pfmlib_intel_x86.c:156-197 | A successful loop obeys the combination rules. Under GRP_EXCL all unit masks share a group, and no group holds two unit masks one of which is NCOMBO. Its group counters, `ugrpmsk` and `ncombo` are accurate. |
| IntelX86Run.RunFeatCombBreaksRules | lib/pfmlib_intel_x86.c:156-184 | PFM_ERR_FEATCOMB is raised only when the attributes break a combination rule. |
| IntelX86Run.RunErrors | lib/pfmlib_intel_x86.c:146-230 | The loop's errors are FEATCOMB, ATTR_VAL or ATTR_SET. With unit masks alone, only FEATCOMB. |
| IntelX86Run.UmasksOnlyRun | lib/pfmlib_intel_x86.c:146-200 | With unit-mask attributes only, in any order, the loop succeeds exactly when the combination rules hold. |
| IntelX86Encode.Finish | lib/pfmlib_intel_x86.c:232-267 | After the loop, EN and INT are forced on and the low 16 register bits are left as the loop left them. The only errors are ATTR_HW and UMASK. |
| IntelX86Encode.UncoveredDefaults | lib/pfmlib_intel_x86.c:260-265 | `add_defaults` runs on `ugrpmsk ^ ((1 << ngrp) - 1)`. It fails exactly when one of those groups has no default, and otherwise completes the local unit mask with their defaults. |
| IntelX86Encode.EncodeReg | lib/pfmlib_intel_x86.c:114-267 | The register as written: EN and INT are set on success, and every error is one of the five the function returns. |
| IntelX86Encode.EncodeRegLowBits | lib/pfmlib_intel_x86.c:138-199 | As written, the register's unit-mask byte holds only the code's byte and the selected unit masks' bits. The defaults never reach it. |
| IntelX86Encode.EncodeRegLoopError | lib/pfmlib_intel_x86.c:146-230 | An error of the attribute loop is the function's error. |
| IntelX86Encode.EncodeRegHwError | lib/pfmlib_intel_x86.c:232-243 | PFM_ERR_ATTR_HW exactly when the loop passes and some modifier hardwired by a selected unit mask has a bit set in the register. |
| IntelX86Encode.HwConflictByModifier | lib/pfmlib_intel_x86.c:232-243 | The six hardwired-modifier checks are "some hardwired modifier's register field is non-zero". |
| IntelX86Encode.EncodeRegMissingDefault | lib/pfmlib_intel_x86.c:256-265 | PFM_ERR_UMASK exactly when the earlier checks pass and a group in `((1 << ngrp) - 1) ^ covered` has no default. |
| IntelX86Encode.UncoveredGroups | lib/pfmlib_intel_x86.c:260-261 | The groups handed to `add_defaults` are the declared groups no attribute covers, plus the covered groups at or beyond `ngrp`. |
| IntelX86Encode.EncodeRegPrivilege | lib/pfmlib_intel_x86.c:245-254 | OS is set exactly when the attributes left it set, or when neither `u` nor `k` was given and the default privilege mask holds PFM_PLM0. USR is the same with PFM_PLM3. |
| IntelX86Encode.CompletedUmask | lib/pfmlib_intel_x86.c:260-265 | The local unit mask once `add_defaults` has run: the code's byte, the selected unit masks' bits and the defaults of the uncovered groups. |
| IntelX86Encode.EncodeRegFixed | lib/pfmlib_intel_x86.c:262-277 | Corrected register: it succeeds and fails exactly when the as-written one does, with the same error. It differs only in bits 8–31. |
| IntelX86Encode.EncodeRegFixedUnitMaskByte | lib/pfmlib_intel_x86.c:262-277 | With the correction, the unit-mask byte holds the code's byte, the selected unit masks' bits and the uncovered groups' default codes. |
| IntelX86Encode.EncodeGen | lib/pfmlib_intel_x86.c:114-331 | As written: it succeeds and fails exactly when the register computation does, with the same error. The register is the as-written one, without the defaults, and has EN and INT set. The string starts with the event's printed name. |
| IntelX86Encode.EncodeGenFixed | lib/pfmlib_intel_x86.c:262-331 | Corrected: the same verdict and error as `EncodeGen`. The register is the corrected one, with the defaults, and the string is decoded from it with the corrected rule. |
| IntelX86Encode.DecimalRoundTrip | lib/pfmlib_intel_x86.c:319-326 | A `%PRIu64` rendering is non-empty, holds only digits, and reads back as the value. |
| IntelX86Encode.ModifierSuffixFields | lib/pfmlib_intel_x86.c:319-326 | The modifier part adds exactly the `k`, `u`, `e`, `i` and `c` fields, then `t` from architecture version 3 on. |
| IntelX86Encode.ModifierItemsParse | lib/pfmlib_intel_x86.c:319-326 | Each modifier field reads back as its name and the register's OS, USR, E and INV bits, CMASK value and ANY bit. |
| IntelX86Encode.CanonicalStringFields | lib/pfmlib_intel_x86.c:268-326 | Split at ':', the string is: the event's `from` name, else its name; one field per decoded unit mask, naming it; then the modifier fields. This holds when no name contains a ':'. |
| IntelX86Encode.EncodeGenString | lib/pfmlib_intel_x86.c:268-326 | For `encode_gen` as written, the string names non-alias slots in table order. Each was found in the register's unit-mask byte by the as-written rule. The string's modifier fields are the register's. |
| IntelX86Encode.DecodeInRange | lib/pfmlib_intel_x86.c:278-316 | The decoding loop names only used, non-alias slots, in increasing table order. |
| IntelX86Encode.DecodeFound | lib/pfmlib_intel_x86.c:305-315 | A printed NCOMBO unit mask has all its code bits in the register byte. A printed other one shares a bit with its group mask as written, and with its own code when corrected. |
| IntelX86Encode.DecodeEmptyByte | lib/pfmlib_intel_x86.c:305-315 | From an empty unit-mask byte, exactly the non-alias NCOMBO unit masks with a zero code byte are printed. |
| IntelX86Encode.Deliver | lib/pfmlib_intel_x86.c:398-406 | After a successful `encode_gen`: one code, the register. The caller's privilege mask gains PFM_PLM0 exactly when OS is set and PFM_PLM3 exactly when USR is set. Its other bits are untouched. |
| IntelX86Encode.GetEncoding | lib/pfmlib_intel_x86.c:378-422 | An event with its own encoder returns that encoder's result. Otherwise the function fails exactly as `encode_gen` does, with its error. On success it returns one code, the as-written register, whose unit-mask byte holds only the code's byte and the selected unit masks' bits. The caller's privilege mask gains PFM_PLM0 exactly when OS is set and PFM_PLM3 exactly when USR is set. Its other bits are untouched. |
| IntelX86Encode.GetEncodingFixed | lib/pfmlib_intel_x86.c:378-422 | On the corrected encoder: the same verdict and error. The single code's unit-mask byte also holds the defaults of the uncovered groups. |
| IntelX86Validate.CheckEventFields | lib/pfmlib_intel_x86.c:545-573 | Reports exactly the event-level problems: no name, no description, `cntmsk == 0`, `numasks` too big, zero groups with unit masks, and `ngrp` too big. |
| IntelX86Validate.CheckSlot | lib/pfmlib_intel_x86.c:575-598 | Reports exactly slot `j`'s problems: no name, modhw not in modmsk, no description, bad grpid, and bad grpmsk. |
| IntelX86Validate.CheckSlots | lib/pfmlib_intel_x86.c:575-599 | Reports exactly the problems of all used slots. |
| IntelX86Validate.CheckExcess | lib/pfmlib_intel_x86.c:601-607 | Reports exactly the unused slots that have a name or a description. |
| IntelX86Validate.CheckOverlapsOf | lib/pfmlib_intel_x86.c:622-633 | Reports exactly the later combinable slots of the same group whose code overlaps slot `j`'s. |
| IntelX86Validate.CheckOverlaps | lib/pfmlib_intel_x86.c:614-634 | Reports exactly the overlapping pairs of combinable slots. |
| IntelX86Validate.CheckEntry | lib/pfmlib_intel_x86.c:543-635 | Reports exactly event `i`'s problems, in the order the checks run, including the NCOMBO-on-event check. |
| IntelX86Validate.ValidateTable | lib/pfmlib_intel_x86.c:537-637 | Reports exactly the problems of the table, event by event. The result is PFM_ERR_INVAL exactly when there is one. |
| IntelX86Validate.EntryOkIffNoProblem | lib/pfmlib_intel_x86.c:543-635 | An entry has no reported problem exactly when it meets an independent statement of a well-formed entry. |
| IntelX86Validate.ValidateVerdict | lib/pfmlib_intel_x86.c:636 | The table is accepted exactly when every entry is well formed. |
| IntelX86Validate.EntryOkEncodable | lib/pfmlib_intel_x86.c:543-598 | A well-formed entry of the declared shape is one `encode_gen` can process: it has a printable name and fewer than `INTEL_X86_NUM_GRP` groups, and every used slot is named and in one of those groups. |
| IntelX86Validate.AcceptedTableEncodable | lib/pfmlib_intel_x86.c:537-637 | Every entry of a table the validator accepts can be encoded. |
| IntelX86Findings.DefaultsNeverEncoded | lib/pfmlib_intel_x86.c:262-277 | As written, with modifier attributes only, a successful encoding has the code's own unit-mask byte, for every event. |
| IntelX86Findings.DefaultDroppedExample | lib/pfmlib_intel_x86.c:260-277 | A one-group event whose default is "ANY" with code 0x01 succeeds without attributes, but register bit 8 stays clear. |
| IntelX86Findings.DefaultKeptExample | lib/pfmlib_intel_x86.c:262-277 | With the correction, the same request sets bit 8. |
| IntelX86Findings.PendingDefaultKept | lib/pfmlib_intel_x86.c:262-277 | With the correction, every code bit of an uncovered group's default is set in the register's unit-mask byte. |
| IntelX86Findings.PrintsUnmatchedUnitMask | lib/pfmlib_intel_x86.c:310-315 | As written, byte 0x01 prints "B" (code 0x02) before "A" (code 0x01). |
| IntelX86Findings.PrintsMatchedUnitMask | lib/pfmlib_intel_x86.c:310-315 | With the correction, the same byte prints only "A". |
| SampleLayout.Unpack | perf_examples/sample_parser.h:15-25 | Each of the six `perf_mem_data_src` fields read from a value fits its width: 5, 14, 5, 2, 7 and 31 bits. |
| SampleLayout.Pack | perf_examples/sample_parser.h:15-25 | Writing the six fields gives a value that fits the 64-bit union. |
| SampleLayout.FieldsTile | perf_examples/sample_parser.h:18-23 | The fields start at bits 0, 5, 19, 24, 26 and 33 and tile bits 0–63 exactly. |
| SampleLayout.PackUnpack | perf_examples/sample_parser.h:15-25 | Reading the fields of a 64-bit value and writing them back gives the value. |
| SampleLayout.UnpackPack | perf_examples/sample_parser.h:15-25 | Writing fitting fields and reading them back gives the fields. |
| SampleLayout.LevelFieldOfValue | perf_examples/sample_parser.h:19 | `mem_lvl` is `(val >> 5) & 0x3fff`. |
| SampleLayout.ToFromBytes | perf_examples/sample_parser.h:8-28 | Little-endian bytes to word to bytes is the identity. |
| SampleLayout.FromToBytes | perf_examples/sample_parser.h:8-28 | Word to bytes to word is the identity on the covered bits. |
| SampleLayout.SampleBytes | perf_examples/sample_parser.h:8-28 | The packed record is 32 bytes. |
| SampleLayout.SampleFieldOffsets | perf_examples/sample_parser.h:8-28 | `ip`, `addr`, `weight` and `data_src` occupy bytes 0, 8, 16 and 24, eight bytes each, little-endian. |
| SampleLayout.ParseSampleBytes | perf_examples/sample_parser.h:8-28 | Reading a record back from its 32 bytes gives the record. |
| SampleLayout.SampleBytesParse | perf_examples/sample_parser.h:8-28 | Every 32-byte buffer is the image of the record read from it. |
| SampleParser.LocalCacheIsAnyLevel | perf_examples/sample_parser.c:37-95 | `is_served_by_local_cache` is the disjunction of the L1, LFB, L2 and L3 classifiers. |
| SampleParser.NoHitNoService | perf_examples/sample_parser.c:78-125 | Without HIT, none of the "served by" classifiers holds. |
| SampleParser.NAMissIgnoresHit | perf_examples/sample_parser.c:127-136 | The NA/miss classifier does not depend on HIT. |
| SampleParser.ClassifiersOnValue | perf_examples/sample_parser.c:37-136 | On the raw union value, the L1, local-cache and NA/miss classifiers test bits 6 and 8, bit 6 and one of bits 8–11, and bit 5 or bits 7 and 11, respectively. |
| SampleParser.OpcodeStringByTable | perf_examples/sample_parser.c:138-167 | The opcode string is the table-driven rendering of `mem_op`: NA, Load, Store, Prefetch and "Exec code", in that order. |
| SampleParser.OpcodeStringEmpty | perf_examples/sample_parser.c:138-167 | The opcode string is empty exactly when none of the five operation bits is set. |
| SampleParser.OpcodeStringRoundTrip | perf_examples/sample_parser.c:138-167 | Reading the opcode string back gives exactly the five defined bits of `mem_op`. |
| SampleParser.LevelNameByPriority | perf_examples/sample_parser.c:178-222 | The level name is that of the first level set in the priority order L1, LFB, L2, L3, local RAM, remote RAM 1 and 2 hops, remote cache 1 and 2 hops, I/O, uncached. |
| SampleParser.FirstNameFound | perf_examples/sample_parser.c:178-222 | The first-match name is that of a set level with no earlier level set. It is empty exactly when no level is set. |
| SampleParser.LevelStringParts | perf_examples/sample_parser.c:169-233 | The level string is "NA" when NA is set, then the priority level, then "_Hit" when HIT is set, otherwise "_Miss" when MISS is set. |
| SampleParser.ReadSampleData | perf_examples/sample_parser.c:271-303 | The size is `head - tail` when `head > tail` and `data_size - tail + head` otherwise. That many bytes are returned, and the new tail is `head`. |
| SampleParser.ReadSampleDataBytes | perf_examples/sample_parser.c:296-301 | Byte `k` of the copy is ring byte `(tail + k) mod data_size`. |
| SampleParser.ReadTwice | perf_examples/sample_parser.c:279-302 | As written, a second read with no new data returns the whole ring again, starting at the old head. |
| SampleParser.EmptyRingReadAsFull | perf_examples/sample_parser.c:279-283 | As written, a 4-byte ring with `head == tail == 2` reads back 4 stale bytes. |
| SampleParser.ReadPending | perf_examples/sample_parser.c:279-302 | Corrected read: nothing when `head == tail`, otherwise the as-written result. The size is the ring distance from tail to head. |
| SampleParser.ReadPendingOnce | perf_examples/sample_parser.c:279-302 | The corrected copy follows the ring from the tail, and a second read with no new data yields nothing. |
| LinkedList.ListPut | perf_examples/linked_list.c:39-48 | The new value is the head and the old list follows it, whether or not the list was empty. |
| LinkedList.ListLength | perf_examples/linked_list.c:60-71 | The count of nodes is the list's length. |
| LinkedList.ListDestroy | perf_examples/linked_list.c:50-58 | `clean_up` receives every node exactly once, front to back, and the list ends empty. |
| LinkedList.FrontBackSplit | perf_examples/linked_list.c:151-154 | Front plus back is the list. The front takes the extra node of an odd length. |
| LinkedList.SplitByPointers | perf_examples/linked_list.c:155-177 | The fast/slow walk splits at exactly that point. |
| LinkedList.SortedMerge | perf_examples/linked_list.c:121-148 | The result is a permutation of both inputs together, headed by the head of one of them. |
| LinkedList.MergeInterleaves | perf_examples/linked_list.c:121-148 | The merge interleaves its two lists: it takes every value of each, and keeps each list's values in their own order. |
| LinkedList.MergeEquivalents | perf_examples/linked_list.c:121-148 | For ordered inputs and any key, the values that sort equal to the key come out as those of `a`, then those of `b`, each in order. Ties go to `a`. |
| LinkedList.MergeSorted | perf_examples/linked_list.c:121-148 | Under a total comparator, merging two ordered lists gives an ordered list. |
| LinkedList.MergeInOrder | perf_examples/linked_list.c:136-140 | Under a transitive comparator, merging lists whose concatenation is already ordered gives the concatenation. Ties go to `a`. |
| LinkedList.ListSort | perf_examples/linked_list.c:89-113 | The result is a permutation of the list. Lists of at most one node are returned unchanged. |
| LinkedList.SortIsSorted | perf_examples/linked_list.c:89-113 | Under a total comparator, the result is ordered. |
| LinkedList.SortSorted | perf_examples/linked_list.c:89-113 | Under a transitive comparator, an already ordered list is returned unchanged. |
| LinkedList.SortStable | perf_examples/linked_list.c:89-113 | Under a total, transitive comparator the sort is stable: for every key, the values that sort equal to it leave in the order they came in. |
| LinkedList.SortIdempotent | perf_examples/linked_list.c:89-113 | Sorting twice is sorting once. |

## Left out

- `intel_x86_detect` (lines 49-76) is left out: it reads CPUID.
- `pfm_intel_x86_get_event_code`, `_name`, `_desc`, `_umask_name`, `_umask_desc`, `_umask_code`, `_numasks`, `_perf_type` and `_modifiers` (lines 334-375, 425-429, 523-534) are left out: they read one table field each.
- `intel_x86_display_reg` (lines 490-520) and the verbose print in `get_encoding` (lines 408-419) are left out: they only print.
- The event's own encoder (line 389) is left out: it is model-specific code outside this file. `GetEncoding` takes that encoder's result as the parameter `custom` and returns it unchanged.
- `pfmlib_parse_event` is not part of this model. `SupportsPebs` takes its result and the library's initialisation state as parameters.
- `intel_x86_arch_version` is the parameter `arch`.
- The local `umask_str` of `encode_gen` is left out: it is never read after `add_defaults` returns.
- The truncation of `evt_strcat` at `PFMLIB_EVT_MAX_NAME_LEN` is not modelled.
- The event tables themselves are left out: they are data in headers. A table is any `seq<Entry>`.
- IntelX86Validate.ValidateTable: requires `numasks <= 32` for every entry, because for a larger count the C reads past the 32-slot `umasks` array. The messages printed to `fp` become structured `Problem` values.
- IntelX86Events.GetEventAttrInfo: requires `attr_idx < 32` whenever it is at most `numasks`, because the C reads slot `attr_idx` and the array has 32 slots.
- IntelX86Encode.CanonicalString carries no contract of its own. It is specified by `CanonicalStringFields`, `DecodeInRange`, `DecodeFound` and `DecodeEmptyByte`.
- IntelX86Encode.CanonicalStringFields: it reads the string back only when neither the event name nor any unit-mask name contains a ':'. The C code does not check this, and such a name would make the fields ambiguous.
- The `printf` trace in `sorted_merge` (perf_examples/linked_list.c, lines 123-146) is left out: it only prints.
- The `DPRINT` debug messages of the encoder (lib/pfmlib_intel_x86.c, lines 96, 106, 158 and 182) are left out: they only print.
- SampleParser.ReadSampleData: requires `head` and `tail` to be offsets within the ring. The C code never reduces them, so a larger `data_head` would read outside the ring.
- SampleParser.ReadSampleData: the memory barrier, the concurrent kernel writer, `data_offset` address arithmetic and `malloc` are left out. Bytes are the numbers 0–255.
- `display_sample_data` and `concat` are left out: they only print and allocate.
- `list_create`, `list_node_create` and `list_dump` are left out: they allocate, exit or print. The `sz` byte copy of a value is a value copy.
- `list_length` counts in a 64-bit integer that no list reaches, so it is not modelled as wrapping.
- LinkedList.ListSort: the sortedness of its result is stated in `SortIsSorted` under a total comparator, since the C code sorts with whatever comparator it is given.

## Findings

| source | as written | input that shows it | evidently intended | confidence | as-written member | corrected member |
|---|---|---|---|---|---|---|
| lib/pfmlib_intel_x86.c:262-277 | `add_defaults` ORs the uncovered groups' default codes into the local `umask`. Line 277 then overwrites `umask` with the register's unit-mask byte, so the defaults reach neither the register nor the string. | An event with one group whose only unit mask is the default "ANY" (code 0x01), encoded without attributes: it succeeds with register bit 8 clear. | Register bits 8–15 hold the defaults' codes, as if the defaults had been selected. | not executed; high | IntelX86Findings.DefaultDroppedExample | IntelX86Encode.EncodeRegFixed |
| lib/pfmlib_intel_x86.c:311 | A unit mask that is not NCOMBO is printed when the remaining byte meets its group mask, which defaults to 0xff. | Unit masks "B" (0x02) then "A" (0x01) in one group, register byte 0x01: the string names both. | Print it when the byte meets its own code (`umask & um`). | not executed; medium | IntelX86Findings.PrintsUnmatchedUnitMask | IntelX86Encode.DecodeFound |
| perf_examples/sample_parser.c:279-283 | `head == tail` takes the wrap-around branch and reports `data_size` bytes. | A 4-byte ring with `head == tail == 2`: bytes 3, 4, 1, 2 come back. | An empty ring yields nothing. | not executed; medium | SampleParser.EmptyRingReadAsFull | SampleParser.ReadPending |

Notes on the corrected members:
- **First row.** `EncodeRegFixed` writes the completed unit mask back into the register. `EncodeRegFixedUnitMaskByte` and `PendingDefaultKept` prove the intended unit-mask byte for it. `EncodeGenFixed` and `GetEncodingFixed` use it, while `EncodeGen` and `GetEncoding` keep the code as written.
- **Second row.** The corrected rule is `DecodeFrom` with `Rule.Corrected`, which `EncodeGenFixed` passes to `CanonicalString`. `DecodeFound` proves, for that rule, that every printed unit mask shares a bit with the register byte.
