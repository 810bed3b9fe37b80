# gperf key signatures, modelled in Dafny

This project models the key-signature machinery of GNU gperf, the
perfect-hash-function generator, as it appears in a hand transcription into
Rust. gperf picks a set of *key positions* (character indices, with `$` for
the last character). A keyword's *signature* is the characters found at those
positions, optionally shifted and unified. Keywords with the same signature
are found through an open-addressing hash table. The pieces modelled are:

- **Key-position set** (`positions.dfy`, module `KeyPositions`). `Positions`
  is a class over a 256-slot array and a size. It keeps its entries distinct
  and strictly descending, with `LASTCHAR = -1` below every real position.
  `Add` shifts smaller entries right, `Remove` rotates the entries after the
  removed one left, and `Contains` scans from the smallest end. `Sort`,
  `SetUseall` and the accessors are also modelled. `Print` returns the text
  form (`*`, or ascending 1-based positions with runs collapsed to `a-b` and
  a trailing `$`).
- **Signature hash table** (`hash_table.dfy`, module `HashTables`). The size
  is the power of two at the highest set bit of `10 * n` as a 32-bit word.
  `Insert` uses double hashing with an increment that is always odd, and
  `Equal` compares signatures and, unless lengths are ignored, keyword
  lengths. The hash function `hashpjw` is a parameter of the table.
- **Selected characters** (`keyword.dfy`, module `Keywords`). The extraction
  reads one character per key position into a fresh buffer. `LASTCHAR` reads
  the last byte, an increment table can shift each character, and a unify
  table can remap it. A position at or past the keyword's end aborts. The
  multiset variant insertion-sorts the buffer ascending in place.
- **Keyword lists** (`keyword_list.dfy`, module `KeywordLists`). Lists are
  sequences of payloads. The utilities are `CopyList`, `Merge` under a
  caller-supplied `less`, and `MergesortList`, which splits a list after its
  middle node.
- **Options** (`options.dfy`, modules `PositionStrings` and `CommandOptions`):
  - `PositionStringParser.NextPosition` is the state machine reading `-k`
    texts such as `1,3-5,$`;
  - the `-k`, `-j` and `-L` handlers;
  - `set`, `set_language`, `set_total_switches` and the set-if-default name
    setters;
  - the constructor defaults.
  
  The option word is modelled as the set of options whose bit is set, and
  `Options.Has` is the bit test (`index_mut`). `Bit` and `BitInjective` show
  that no two options share a bit, so the set determines the word.

Each operation is proved against a specification:

- For the position set, `Insert`, `Delete` and `SortDescending` are the
  specification functions, proved to keep order and contents.
- For the parser, `Step` gives one call, `Drain` gives what successive calls
  return, and `Denoted` gives the values a text means, declaratively.
- For printing, `Runs`, `Listed` and `Rendering` describe the text.
- For the hash table, `Probe` is the probe sequence.
- For the extraction, `Selected` is the list of selected characters.
- For the lists, `Merged` and `MergeSorted` give the results.

`wrappers.dfy` holds the `Option` datatype.

Where the transcription is broken, the model follows the evident intent of
the code:

- `MAX_KEY_POS` is 255 (positions.rs:17 gives `-1`, which cannot match the
  256-slot array).
- `Positions::sort` has an empty loop body (positions.rs:75-93). It is given
  the contract its caller needs at options.rs:399-406: sort in reverse order
  and report whether the entries were duplicate-free.
- In `init_selchars_low` the unify-and-store block sits after `abort` inside
  the `else` (keyword.rs:61-71). It is modelled as applying to every accepted
  character.
- `sort_char_set` runs `1..len + 1` (keyword.rs:8), which reads past the
  buffer. It is modelled as `1 <= i < len`.
- `mergesort_list` leaves `middle` and `temp` uninitialised. They start at the
  first and second nodes (keyword_list.rs:140-141).
- `Hash_Table::new` multiplies by an undefined `factor`. The model uses
  `size_factor = 10` (hash_table.rs:12, 18).
- `set_lengthable_name` compares `_lengthtable_name` but assigns
  `lengthtable_name` (options.rs:797-798). It is modelled like the other
  setters.
- `nextPosition` returns the misspelled `_range_curr_values`,
  `_end_work_marker` and `error_value` (options.rs:1052, 1067, 1106). They are
  read as the fields they evidently mean.
- The `-k` handler creates one parser per argument. So its state starts with
  the cursor at 0 and no range pending.
- The process exits become status results: `Status` for `Positions` and
  `KeyStatus` for `-k`. The `-j` handler returns `false`.

## Model

| member | source | states |
|---|---|---|
| KeyPositions.InsertKeepsOrder | positions.rs:132-163 | inserting a position absent from a strictly descending list keeps it strictly descending and adds exactly that position |
| KeyPositions.InsertElements | positions.rs:132-163 | insertion adds exactly one occurrence of the position and keeps every other entry |
| KeyPositions.DeleteElements | positions.rs:165-205 | deletion removes exactly one occurrence of the position and keeps every other entry |
| KeyPositions.DeleteLength | positions.rs:165-205 | deleting a present position shortens the list by one; deleting an absent one changes nothing |
| KeyPositions.DeleteKeepsOrder | positions.rs:165-205 | deletion keeps a strictly descending list strictly descending |
| KeyPositions.DeleteInsert | positions.rs:132-205 | adding an absent position and then removing it restores the list |
| KeyPositions.InsertDelete | positions.rs:132-205 | removing a present position and adding it back restores a descending list |
| KeyPositions.DescendingUnique | positions.rs:75-89 | two strictly descending lists with the same elements are equal, so a descending set has one representation |
| KeyPositions.AllPositionsShape | positions.rs:50-62 | the use-all contents are strictly descending, in range, and hold exactly the positions 0 .. MAX_KEY_POS - 1 |
| KeyPositions.SortDescendingSpec | positions.rs:75-89 | the sorted list is non-increasing and a permutation of the input |
| KeyPositions.SortDescendingStrict | positions.rs:75-89 | the sorted list is strictly descending exactly when the input has no duplicates |
| KeyPositions.DuplicateFreeMultiset | positions.rs:75-89 | a list is duplicate-free exactly when every element occurs at most once in its multiset |
| KeyPositions.DuplicateFreeBound | options.rs:371-380 | distinct positions in LASTCHAR .. MAX_KEY_POS - 1 number at most MAX_SIZE, so more values must contain a duplicate |
| KeyPositions.StrictIffNeighbours | positions.rs:75-89 | a non-increasing list is strictly descending exactly when neighbours differ |
| KeyPositions.NeighboursDistinct | positions.rs:75-89 | the duplicate check returns true exactly when no two neighbours are equal |
| KeyPositions.SortedCopy | positions.rs:75-89 | returns the descending sort of its input |
| KeyPositions.InsertCopy | positions.rs:132-163 | returns the insertion of a position into a list |
| KeyPositions.NatStringValue | positions.rs:224 | the decimal text of a natural number reads back as that number |
| KeyPositions.NatStringDigits | positions.rs:224 | decimal text is all digits, with no leading zero except for 0 |
| KeyPositions.ListedMembers | positions.rs:216-238 | the listed values are exactly the stored values other than LASTCHAR |
| KeyPositions.ListedAscending | positions.rs:214-238 | the print walk lists values in ascending order |
| KeyPositions.RunsFlatten | positions.rs:225-235 | expanding the printed ranges gives exactly the listed values |
| KeyPositions.RunsSeparated | positions.rs:225-235 | printed ranges are ascending and each is maximal: consecutive ranges are not adjacent |
| KeyPositions.SeenLastMember | positions.rs:216-245 | `$` is printed exactly when LASTCHAR is stored |
| KeyPositions.RenderingDescribes | positions.rs:207-248 | the text lists every stored position once, ascending, in maximal runs, with `$` exactly for LASTCHAR |
| KeyPositions.RunStart | positions.rs:225-233 | the run walk stops at the start of the run of consecutive values ending at the current entry |
| KeyPositions.PrintAsWrittenRepeats | positions.rs:216-238 | as transcribed, the set {0, 2} prints as "1,1" rather than "1,3" |
| KeyPositions.FillAsWrittenWrong | positions.rs:54-59 | as transcribed, the use-all fill only increments the first slot and leaves the positions unwritten |
| KeyPositions.FillFromMaxKeyPosWrong | positions.rs:53-58 | advancing the pointer alone, with the transcribed start `i = MAX_KEY_POS`, fills the set with MAX_KEY_POS down to 1: it stores MAX_KEY_POS, which is not a position, and leaves out 0 |
| KeyPositions.Positions.constructor | positions.rs:12-24 | a new set is empty, with use-all off, over a 256-slot array |
| KeyPositions.Positions.IsUseall | positions.rs:35-38 | returns the use-all flag |
| KeyPositions.Positions.GetSize | positions.rs:44-47 | returns the number of stored positions |
| KeyPositions.Positions.Pointer | positions.rs:63-67 | returns the position array itself |
| KeyPositions.Positions.SetSize | positions.rs:68-72 | sets the size and nothing else |
| KeyPositions.Positions.SetUseall | positions.rs:49-62 | sets the flag; when set, the size is MAX_KEY_POS and the contents are every position, descending; when cleared, nothing else changes |
| KeyPositions.Positions.Sort | positions.rs:74-93 | with use-all set: true and nothing changes, with no condition on the entries; otherwise the contents are sorted descending, and the result is true exactly when they were duplicate-free, in which case the set is valid |
| KeyPositions.Positions.Contains | positions.rs:111-130 | true exactly when the position is stored, despite the early exit |
| KeyPositions.Positions.Add | positions.rs:132-163 | clears use-all; reports overflow exactly on a full set and duplicate exactly for a present position; otherwise stores exactly the old entries plus the position, still strictly descending, size one larger |
| KeyPositions.Positions.ShiftUp | positions.rs:142-161 | shifts the entries smaller than the position one slot right and says where it goes, or finds it already present |
| KeyPositions.Positions.Remove | positions.rs:165-205 | clears use-all; reports not-found exactly when the position is absent (including the empty set); otherwise drops exactly that position, keeps the order, size one smaller |
| KeyPositions.Positions.RotateOut | positions.rs:175-198 | rotates the entries after the position left over it, or finds it absent |
| KeyPositions.Positions.ShiftDown | positions.rs:178-197 | the rotating walk: entries passed move one slot left, and it stops at the position or a larger entry |
| KeyPositions.Positions.Print | positions.rs:207-248 | returns `*` under use-all, else the ranges text followed by `$` when LASTCHAR is stored |
| KeyPositions.Positions.PrintRanges | positions.rs:211-239 | the main print loop produces the comma-separated ranges text and whether LASTCHAR was seen |
| KeyPositions.Positions.PrintItem | positions.rs:217-237 | one loop turn emits one item and keeps the accumulated text equal to the ranges so far |
| KeyPositions.Positions.PrintRun | positions.rs:221-235 | emits one value or one `a-b` run |
| KeyPositions.Positions.RunFrom | positions.rs:225-233 | the inner walk stops at the start of the current run |
| HashTables.HighestBit | hash_table.rs:20-46 | the shift is that of the highest set bit: 2^shift <= v < 2^(shift+1), and 0 for v = 0 |
| HashTables.CascadeStep | hash_table.rs:22-45 | one step of the halving cascade keeps `v == v0 >> shift` and halves the bound |
| HashTables.HashTable.constructor | hash_table.rs:16-51 | the table is empty with size 2^logSize, and size <= 10n < 2 size (10n as a 32-bit word), size 1 when that is 0 |
| HashTables.ProbeStep | hash_table.rs:66 | adding the increment modulo the size moves to the next probe of the sequence |
| HashTables.ProbeInjective | hash_table.rs:57-66 | with an odd increment on a power-of-two table, the first `size` probes are distinct |
| HashTables.VisitedSpec | hash_table.rs:57-66 | k probes visit exactly k distinct slots of the table |
| HashTables.ProbeVisitsAll | hash_table.rs:57-66 | every slot is probed within `size` steps, so the search reaches any empty slot |
| HashTables.OddFactor | hash_table.rs:58 | an odd factor is invertible modulo a power of two |
| HashTables.ShiftOneOdd | hash_table.rs:58 | the increment `(x << 1) + 1` as a 32-bit word is odd |
| HashTables.HashTable.IncrementOdd | hash_table.rs:58 | each keyword's increment is odd |
| HashTables.HashTable.WrappedStep | hash_table.rs:66 | adding as a 32-bit word and masking equals adding modulo the size |
| HashTables.HashTable.SamePath | hash_table.rs:56-58 | keywords that compare equal start at the same slot with the same increment |
| HashTables.HashTable.Equal | hash_table.rs:117-135 | true exactly when the signatures are equal and, unless lengths are ignored, the keyword lengths are too |
| HashTables.HashTable.SameEquivalence | hash_table.rs:117-135 | the comparison is reflexive, symmetric and transitive |
| HashTables.HashTable.Insert | hash_table.rs:53-71 | follows the probe path past exactly `collisions` new non-equal occupants; returns an equal occupant with the table unchanged, or writes the item into the empty slot reached, changing nothing else |
| HashTables.HashTable.Search | hash_table.rs:57-67 | given an empty slot or an equal occupant anywhere in the table, the probe loop stops in range at the first empty or equal slot of the path, counting the others as collisions |
| HashTables.HashTable.InsertSameTwice | hash_table.rs:53-71 | a second insertion of an equal keyword returns the first (or the occupant the first found) and occupies no further slot, even when the first call filled the last empty slot |
| Keywords.InsertAscendingSpec | keyword.rs:10-18 | inserting into an ascending list keeps it ascending and adds exactly that value |
| Keywords.SortAscendingSpec | keyword.rs:6-21 | the insertion sort result is ascending and a permutation of the input |
| Keywords.InsertAscendingSplit | keyword.rs:13-18 | the insertion place is after the entries not greater than the value |
| Keywords.SortCharSet | keyword.rs:6-21 | the buffer prefix becomes its ascending sort, a permutation of the old prefix, and the rest is untouched |
| Keywords.InsertLast | keyword.rs:10-18 | one outer turn inserts the next character into the sorted prefix |
| Keywords.SelectedAt | keyword.rs:49-69 | one entry per yielded position, in order: the byte at the position (last byte for LASTCHAR), plus its increment, through the unify table |
| Keywords.SelectedPlain | keyword.rs:53-56 | with no tables an entry is exactly the byte at its position, the last byte for LASTCHAR |
| Keywords.SelectedUnified | keyword.rs:64-66 | with a unify table every emitted value comes from the table |
| Keywords.KeywordExt.constructor | keyword.rs:32-37 | a keyword starts with its text and an empty signature |
| Keywords.KeywordExt.InitSelcharsLow | keyword.rs:42-80 | aborts exactly when a position lies at or past the keyword's end; otherwise a fresh buffer of one entry per position holds the selected characters and becomes the signature |
| Keywords.KeywordExt.Collect | keyword.rs:44-76 | the extraction loop fills a fresh buffer with the selected characters or stops at the first unreadable position |
| Keywords.KeywordExt.InitSelcharsTuple | keyword.rs:83-85 | the signature is the extraction with no increment table |
| Keywords.KeywordExt.InitSelcharsMultiset | keyword.rs:88-93 | the signature is the extraction sorted ascending: same multiset, ascending order |
| KeywordLists.MergedPermutation | keyword_list.rs:99-132 | the merge holds exactly the entries of both lists |
| KeywordLists.MergedAtLeast | keyword_list.rs:115-125 | a lower bound of both lists bounds the merge |
| KeywordLists.SortedCons | keyword_list.rs:115-125 | a head no larger than a sorted tail gives a sorted list |
| KeywordLists.MergedSorted | keyword_list.rs:115-125 | merging two lists sorted under a strict weak order gives a sorted list |
| KeywordLists.Merge | keyword_list.rs:99-132 | returns the merge; an empty list yields the other one |
| KeywordLists.MergeSortedPermutation | keyword_list.rs:135-160 | merge sort returns a permutation of the input |
| KeywordLists.MergeSortedSorted | keyword_list.rs:135-160 | merge sort under a strict weak order returns a sorted list |
| KeywordLists.Middle | keyword_list.rs:140-152 | the slow/fast walk cuts after the first ceil(n/2) nodes, leaving both halves non-empty |
| KeywordLists.MergesortList | keyword_list.rs:135-160 | returns the merge sort of the list; lists of at most one node unchanged |
| KeywordLists.CopyList | keyword_list.rs:64-79 | the copy has the same payloads in the same order |
| PositionStrings.PositionStringParser.constructor | options.rs:1029-1040 | the parser holds its text and bounds with the cursor at the start and no range pending |
| PositionStrings.PositionStringParser.NextPosition | options.rs:1043-1115 | one call is exactly one step of the state machine: the next range value, or skip commas, `$` as end-word, a number or range, error, or end |
| PositionStrings.PositionStringParser.ReadNumber | options.rs:1070-1103 | reads a number and an optional `-upper`, returning the error value when the range or the value is out of bounds |
| PositionStrings.PositionStringParser.ReadDigits | options.rs:1074-1078 | consumes the maximal digit run and returns its decimal value |
| PositionStrings.DigitsEnd | options.rs:1074-1078 | the digit run ends at the first non-digit |
| PositionStrings.StepDecreases | options.rs:1043-1112 | each call that returns a value makes progress: the cursor advances or the pending range shrinks |
| PositionStrings.ScanProgress | options.rs:1055-1112 | scanning the text advances the cursor on every value it returns |
| PositionStrings.DrainStep | options.rs:1043-1112 | the value sequence is the value of one call followed by the values of the calls after it |
| PositionStrings.DrainIdle | options.rs:1055-1112 | from an idle parser, successive calls return exactly the values the rest of the text denotes, and end or error as it does |
| PositionStrings.DrainRange | options.rs:1046-1052 | inside a range, calls return the rest of the range, then the rest of the text |
| PositionStrings.DrainNumberRange | options.rs:1080-1096 | `a-b` with `low <= a < b <= high` yields a, a+1, .., b; otherwise error |
| PositionStrings.DrainNumberSingle | options.rs:1098-1102 | a number in `[low, high]` yields itself; otherwise error |
| PositionStrings.RangeAfter | options.rs:1046-1096 | after the first value of a range the calls yield its remaining values, then the text's |
| PositionStrings.DenotedBounds | options.rs:1092-1101 | every value a text yields is the end-word marker or lies in `[low, high]` |
| PositionStrings.SpanBounds | options.rs:1046-1052 | range values lie between the range's bounds |
| CommandOptions.Bit | options.rs:9-87 | every option occupies one of bits 0 .. 21 |
| CommandOptions.BitIdentifies | options.rs:9-87 | an option's bit identifies the option |
| CommandOptions.BitInjective | options.rs:9-87 | two options share a bit only when they are the same option |
| CommandOptions.LanguageFor | options.rs:636-657 | every `-L` name selects a language option, C for an unknown one |
| CommandOptions.LanguageNamed | options.rs:636-651 | each language is selected by its own name: KR-C, C, ANSI-C, C++ |
| CommandOptions.WithLanguageExactlyOne | options.rs:634-657 | after choosing, exactly the chosen language option is set and every other option is as before |
| CommandOptions.AdjustedJump | options.rs:343-346 | the stored jump is the value or the value plus one; for a non-negative value it is 0 or odd; one is added only to an even nonzero value |
| CommandOptions.AdjustedJumpIdempotent | options.rs:343-346 | an adjusted jump needs no further adjustment |
| CommandOptions.ZeroBased | options.rs:382-386 | each value but LASTCHAR is stored minus one |
| CommandOptions.ZeroBasedSnoc | options.rs:382-387 | storing one more value extends the stored list by that value, 0-based |
| CommandOptions.StoreValue | options.rs:382-387 | writes the next value 0-based behind those stored so far |
| CommandOptions.RequestedInDomain | options.rs:373-376 | stored positions are LASTCHAR or in 0 .. MAX_KEY_POS - 1 |
| CommandOptions.KeyOutcomeMeaning | options.rs:355-406 | more than MAX_SIZE values always contain a duplicate; `-k` succeeds exactly when the text parses to at least one value and the 0-based values are distinct |
| CommandOptions.NextValue | options.rs:362 | a parser call returns end, error, or the first value still to come, leaving the rest |
| CommandOptions.ConcatCons | options.rs:362-388 | the values stored so far plus those to come are all the text's values |
| CommandOptions.ReadPositions | options.rs:359-388 | reports duplicate exactly when the text has more than MAX_SIZE values, bad position exactly for a syntax or range error within them, and otherwise stores all the values 0-based |
| CommandOptions.Options.constructor | options.rs:276-296 | the defaults: option word C, no language, jump 5, one switch, zero associated values and iterations, every name its default, no key positions |
| CommandOptions.Options.Set | options.rs:614-616 | adds the option to the word and changes nothing else |
| CommandOptions.Options.SetLanguage | options.rs:631-659 | while no language is chosen: records the name and replaces the language options by the one named; otherwise nothing changes |
| CommandOptions.Options.OptionLanguage | options.rs:414-418 | `-L` forgets the earlier choice, so exactly the named language option ends up set and every other option is unchanged |
| CommandOptions.Options.SetTotalSwitches | options.rs:686-692 | while SWITCH is unset: sets it and the count; otherwise nothing changes |
| CommandOptions.Options.SetName | options.rs:707-830 | while a name is its default: gives it the text, and reading it back returns that text; otherwise nothing changes |
| CommandOptions.Options.OptionJump | options.rs:337-347 | rejects exactly a negative jump; otherwise stores the adjusted jump, which is 0 or odd; nothing else changes |
| CommandOptions.Options.OptionKeyPositions | options.rs:348-410 | sets POSITIONS; a leading `*` selects every position; otherwise the status is exactly the text's outcome and success leaves the distinct 0-based values, sorted descending |
| CommandOptions.Options.StorePositions | options.rs:357-407 | clears use-all; reports the text's outcome, including no positions for an empty list and duplicate from the sort; success stores the sorted 0-based values |

## Left out

- Output and diagnostics: the `eprintln!` messages, `short_usage`, `long_usage`, the version text, `print_options` and `Hash_Table::dump`. `Positions::print` is modelled as returning its text.
- The `getopt_long` loop, `argc`/`argv` handling, `atoi` and the handlers this model does not cover. The `-k`, `-j` and `-L` handlers are methods over their argument. `-j` receives the value `atoi` produced.
- The option word is modelled as a set of options rather than a 32-bit integer. `Bit` records each option's bit.
- The `-s` size multiple, because it uses `strtod` and floating point.
- `hashpjw` is not defined in any file of this model. It is a function-valued parameter of the table.
- `Drop`, `Box::into_raw`, `delete_list`, `delete_selchars`, `copy_extlist` and `mergesort_extlist`. Lists are sequences, and the Ext versions are the same operations on the same sequences.
- `PositionIterator` and `PositionReverseIterator` have empty bodies. The extraction is given the sequence of yielded positions instead.
- `_duplicate_link`, `Keyword_Factory` and the keyword fields other than the text are not part of this model.
- The getters other than `get_size`, `is_useall`, `pointer` and the name texts (`GetName`).
- `Options.Has` models `index_mut` as set membership and has no separate contract.
- Process exits become status results. After a duplicate in `Positions.Add` or a missing position in `Positions.Remove`, the array is partly shifted in the source. The model then promises only the size and the flag.
- HashTables.HashTable.Insert: requires an empty slot or an occupant the same as the item. On a full table holding no such occupant the source's probe loop never ends; that non-terminating call is not modelled. The same holds for HashTables.HashTable.Search and HashTables.HashTable.InsertSameTwice.
- PositionStrings.PositionStringParser.constructor: the source constructor sets only `_in_range = false` and leaves the range's upper bound and current value unset. The model starts them at 0. No call reads them before a range sets them.
- PositionStrings.PositionStringParser.ReadDigits: values are unbounded integers. The 32-bit overflow of a very long digit run is not modelled.
- CommandOptions.Options.OptionKeyPositions: the array and size are part of `Positions`. The number of values stored before an error is not stated.
- KeyPositions.Positions.Sort: the sort computes the descending order on a copy of the entries and writes it back. The in-place algorithm of the original gperf is not modelled, because the transcription's body is empty.
- Merge stability: `merge` swaps the lists after taking from the second, so ties are not kept in input order. No stability is claimed.
- The `_collisions` counter is assumed to start at 0. The transcription never initialises it. It is an unbounded `nat` here, while the source's `u32` wraps after 2^32 collisions; that wrap-around is not modelled.

## Findings

| source | as written | input that shows it | evidently intended | confidence | as-written member | corrected member |
|---|---|---|---|---|---|---|
| positions.rs:54-59 | the use-all fill loop runs `*ptr += 1` MAX_KEY_POS + 1 times, never moving `ptr`, so only the first slot changes; it also starts at `i = MAX_KEY_POS`, so even with `*ptr = i; ptr += 1` the set would hold MAX_KEY_POS down to 1 | `set_useall(true)` on a zeroed array: slots 1 and 2 both stay 0, so the contents are not descending; with the pointer advanced, slot 0 holds 255 and position 0 is missing (FillFromMaxKeyPosWrong) | the loop stores `*ptr = i; ptr += 1` and starts at `i = MAX_KEY_POS - 1`, so slots 0 .. MAX_KEY_POS - 1 hold MAX_KEY_POS - 1 down to 0 | not executed | KeyPositions.FillAsWrittenWrong | KeyPositions.Positions.SetUseall |
| positions.rs:216-238 | the outer print loop never steps `p` back after a single value, so the same entry is printed again | contents {0, 2}, stored as [2, 0]: prints "1,1" | prints "1,3" | not executed | KeyPositions.PrintAsWrittenRepeats | KeyPositions.Positions.Print |
