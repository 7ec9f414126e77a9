# Patient ranking in the hospital management console

The program keeps patient records in a dictionary keyed by patient ID. The
dictionary remembers insertion order. Each record has an ID, a name, an age,
an illness, a score and a logical expression.

The sort menu ranks the records in two passes:

- A primary sort by one field, using either an in-place exchange (bubble)
  sort or a recursive merge sort.
- A stable secondary pass on `not logic`, which puts the records whose
  expression evaluates to true in front.

What the ranking computes:

- Both primary sorts compare the lower-cased `str()` of the field as text,
  for every key. Ages and scores are therefore ordered as strings: age 100
  comes before age 20.
- The order is ascending.
- The secondary pass outranks the primary order rather than breaking its
  ties: every logic-true record comes before every logic-false one, and each
  group keeps the primary order.
- The ranking is never shown. After sorting, `view_patients` prints
  `self.patients.values()` (main.py:217, called at main.py:238), which is
  the registry in insertion order, not the sorted list.

This project models the following parts of `main.py`:

- **Both primary sorts.** The exchange sort works in place on an array. The
  merge sort is split into the `merge` loop and the `recursive_sort`
  recursion.
- **The secondary pass.** The logic result of each record is a parameter.
- **Key selection.** The menu answer picks the key, and an unknown answer
  falls back to score.
- **The answer checks of the add and edit dialogs.** The ID check, the
  name/illness check and the age check.
- **The keep-if-blank update of the edit dialog.**
- **The registry as a class.** The insertion order is kept as a sequence of
  IDs beside a map. `AddPatient`, `EditPatient` and `SortPatients` are
  methods on it.
- **The connective rewriting in `evaluate_logic`.** Each symbol is replaced
  by a Python operator.

## How the proofs fit together

Stability is stated with key groups. For every key value `kv`,
`KeyGroup(s, key, kv)` is the subsequence of records whose key is `kv`. A
stable sort of `s`:

- is sorted;
- holds the same multiset of records as `s`;
- has the same key group as `s` for every key value.

`StableSortUnique` shows that at most one sequence meets all three.
`Ranked`, a reference insertion sort, meets them (`RankedIsStableSort`). It
follows that `BubbleSort`, `MergeSort` and the secondary pass all equal the
`Ranked` of their input, and that the two primary sorts agree on every input.

The secondary pass `LogicFirst` is the logic-true records followed by the
logic-false records. `LogicFirstIsRanked` shows it is exactly `Ranked` under
the key `not logic`, which is what Python's stable `list.sort` returns.

## Model

| member | source | states |
|---|---|---|
| Text.Lower | main.py:35 | `lower()` keeps the length, turns each upper-case ASCII letter into its lower-case letter, and keeps every other character |
| Text.LowerEqIff | main.py:35 | two fields give the same sort key exactly when they differ only in the case of ASCII letters, so "Bob" and "bob" are one key and one stability group |
| Text.LexLessIffNotLe | main.py:35 | the exchange sort's swap test `a > b` holds exactly when the merge's take-left test `a <= b` fails |
| Text.LexLeTotal | main.py:45 | Python's `<=` on strings is total |
| Text.LexLeTrans | main.py:45 | Python's `<=` on strings is transitive |
| Text.LexLeAntisym | main.py:45 | Python's `<=` on strings is antisymmetric |
| Text.Strip | main.py:73 | `strip()` is empty exactly when every character is whitespace |
| Text.ParseInt | main.py:102 | `int()` (here and in the edit dialog at main.py:168) refuses an answer that holds only the whitespace it skips, and every answer it accepts holds a decimal digit |
| Text.ParseIntRoundTrip | main.py:102 | `int(str(n)) == n` for every integer |
| Text.IntStrip | main.py:102 | what `int()` reads is empty exactly when the answer holds only the whitespace `int()` skips, a set that leaves out U+001C..U+001F |
| Text.ParseIntBound | main.py:98-102 | an answer of at most `m` characters parses to a value below `10^m` |
| Patients.KeyFromChoice | main.py:221-230 | answers "1", "2" and "3" pick id, name and age; every other answer, "4" included, picks score |
| Patients.SortKeyOf | main.py:35 | the sort key `str(getattr(p, key)).lower()`, which the merge also uses at main.py:45, differs from the field's text (`KeyText`) only in the case of ASCII letters, holds no upper-case letter, and for the age is exactly its decimal numeral; `KeyOf` passes it to the sorts |
| Patients.AgeOrderIsTextual | main.py:35 | age 100 sorts strictly before age 20, because ages compare as text |
| Patients.CheckId | main.py:73-81 | an ID is accepted exactly when it is non-blank, has no forbidden character and is not already a key; blankness is reported first |
| Patients.CheckText | main.py:87-92 | a name is accepted exactly when it is non-blank and has no forbidden character or digit |
| Patients.CheckAge | main.py:98-106 | an age is accepted exactly when it has at most 3 characters and `int()` reads a non-negative number from it, and the accepted value is that number; "too long" is reported exactly when the answer has more than 3 characters; an accepted value lies in 0..999, so the upper bound can never refuse |
| Patients.EditAge | main.py:159-174 | an empty answer keeps the current age; any other answer is accepted exactly when it has at most 3 characters and `int()` reads a non-negative number from it, and then the new age is that number, in 0..999 |
| Patients.AgeKeepsSeparator | main.py:98-108 | an age answer of 1 to 3 characters that starts with U+001C is refused as not a number, although `strip()` would treat that character as whitespace; a longer one is refused as too long first |
| Patients.CheckAgeRoundTrip | main.py:98-106 | every age in 0..999, written by `str`, is accepted with its own value |
| Patients.NewRecord | main.py:71-134 | the add dialog files a record exactly when the ID, name, age and illness answers all pass; the record carries those answers, the ID is new and the age lies in 0..999 |
| Patients.EditText | main.py:147-156 | an empty answer keeps the current value; any other answer replaces it exactly when it has no forbidden character or digit |
| Patients.ApplyEdit | main.py:147-209 | the ID never changes; each blank answer keeps its field; an edit with all answers blank returns the record unchanged; the edit fails exactly when the name, age or illness answer is refused |
| Patients.EditAcceptsWhitespaceName | main.py:87-152 | a name of two spaces is refused by the add dialog's blank test (lines 87-89) but accepted by the edit dialog, which only keeps the old name on an empty answer and then checks the characters (lines 149-152) |
| Sorting.StableSortUnique | main.py:30-63 | two sorted sequences with the same records and the same key groups are equal |
| Sorting.RankedIsStableSort | main.py:30-63 | the reference insertion sort is sorted, keeps the records and keeps every key group |
| Sorting.StableSortIsRanked | main.py:30-63 | every stable sort of `s` equals `Ranked(s)` |
| Sorting.RankedOfSorted | main.py:33-36 | sorting an already sorted sequence changes nothing |
| Sorting.SwapKeepsGroups | main.py:35-36 | exchanging two neighbours with different keys keeps every key group |
| Sorting.BubbleStep | main.py:35-36 | one comparison keeps the records and every position other than `j` and `j + 1`, and leaves those two in order |
| Sorting.PassStepsKeep | main.py:34-36 | the comparisons at `0 .. j - 1` keep the records, their key groups and the settled suffix, and bring the largest key of `a[0..j]` to position `j` |
| Sorting.BubbleStepKeeps | main.py:34-36 | one comparison keeps the records, their key groups and the settled suffix, and leaves the largest key of the prefix at `j + 1` |
| Sorting.BubbleSort | main.py:30-37 | the array ends as a stable sort of its old contents, equal to `Ranked` of them |
| Sorting.BubblePass | main.py:34-36 | one inner pass leaves the array equal to the comparisons at `0 .. m - 2` applied in order to its old contents, leaves the records after the prefix in place, keeps the records and key groups, and settles one more place at the end of the prefix |
| Sorting.Merged | main.py:41-53 | the merge of `left` and `right` has `len(left) + len(right)` records |
| Sorting.MergedPermutation | main.py:41-53 | the merge holds exactly the records of both inputs |
| Sorting.MergedSorted | main.py:41-53 | merging two sorted inputs gives a sorted result |
| Sorting.MergedGroups | main.py:45-47 | on equal keys the left input's records come first: each key group is the left group followed by the right group |
| Sorting.Merge | main.py:41-53 | the `merge` loop returns `Merged(left, right)` |
| Sorting.RecursiveSort | main.py:55-61 | `recursive_sort` returns inputs of length 0 or 1 unchanged, and otherwise a stable sort |
| Sorting.MergeSort | main.py:39-63 | merge sort returns a stable sort of its input, equal to `Ranked` of it, which is also what the exchange sort gives |
| Partition.SelectSplit | main.py:236 | the logic-true and logic-false selections together hold exactly the records |
| Partition.SelectKeyGroup | main.py:236 | taking a logic group commutes with taking a key group |
| Partition.SelectSorted | main.py:236 | a selection from a sorted sequence is sorted |
| Partition.LogicFirst | main.py:236 | the secondary pass keeps exactly the records it is given |
| Partition.LogicFirstSorted | main.py:236 | the pass orders the records by the key `not logic` |
| Partition.LogicFirstIsStableSort | main.py:236 | the pass is a stable sort under the key `not logic` |
| Partition.LogicFirstIsRanked | main.py:236 | the pass equals `Ranked` under `not logic`, the unique stable sort that `list.sort` returns |
| Partition.LogicTrueFirst | main.py:236 | no logic-false record comes before a logic-true one |
| Partition.SelectOfLogicFirst | main.py:236 | each logic group comes out in its input order |
| Partition.GroupsKeepPrimaryOrder | main.py:235-236 | after both passes, each logic group is the primary ranking of that group's records |
| Partition.RankingProperties | main.py:235-236 | the final ranking holds every record once, puts logic-true records first, and each group is sorted by the primary key |
| Registry.FileNew | main.py:134 | filing a record under a new ID keeps the index well formed and appends the record to `values()` |
| Registry.RefileExisting | main.py:205-209 | replacing the record under an existing ID keeps the index well formed and the keys unchanged |
| Registry.HospitalSystem.constructor | main.py:66-67 | the registry starts empty |
| Registry.HospitalSystem.AddPatient | main.py:69-135 | the result is `NewRecord` of the answers; a refusal changes nothing; an accepted record is appended to the insertion order and to `values()` |
| Registry.HospitalSystem.Store | main.py:134 | the record is filed and its ID goes to the end of the insertion order |
| Registry.HospitalSystem.EditPatient | main.py:137-210 | an unknown ID changes nothing; a refused answer changes nothing; otherwise only that ID's record is replaced by its edited form; the IDs, their order and the keys never change |
| Registry.HospitalSystem.SortPatients | main.py:220-238 | the ranking is the logic-true-first pass over `Ranked` of the values by the chosen key, whichever algorithm is picked; the registry is left alone, and the listing shown is the registry in insertion order |
| Connectives.ReplaceCharRemoves | main.py:20 | after a replacement, the only characters left are those of the input other than the pattern, and those of the replacement text |
| Connectives.ReplaceCharAppend | main.py:20 | replacement works piece by piece over concatenation |
| Connectives.Translate | main.py:20 | none of the five connective symbols survives the chain of replacements |
| Connectives.TranslatePlain | main.py:20 | an expression without the symbols comes back unchanged |
| Connectives.TranslateConjunction | main.py:20 | between two plain operands, `∧` becomes `and` |

## Left out

- `eval` in `evaluate_logic`, including its fall-back to False on an exception (main.py:21-24). It can execute arbitrary code. The logic result of a record is a parameter `logic: Patient -> bool`.
- The substitution of `age` and `score` into the expression (main.py:19). It only feeds `eval`, and it depends on how `str` formats a float.
- The score is a float. Its parsing and its 0..10 range check (main.py:122-131, 189-201) are not modelled. A record keeps the score as the text `str(score)` that the sorts compare.
- Console I/O: the prompts, the messages and the retry loops. Each dialog is modelled as one round of answers. A refused answer is returned as an error, where the program would ask again.
- The menu loop, CSV loading and saving, `time.time()` and `__str__`. They are I/O, and they only format or persist records.
- Text.Lower: `str.lower()` is modelled for ASCII letters only. Other upper-case characters compare unchanged.
- Text.ParseInt: `int()` is modelled for ASCII digits. Other Unicode decimal digits are refused.
- `list.sort` with a key (main.py:236) is modelled by its result `LogicFirst`. `LogicFirstIsRanked` proves that this result is the one a stable sort must return. The algorithm inside `list.sort` is not modelled.
- Registry.HospitalSystem.EditPatient: the program assigns the fields of the shared `Patient` object (main.py:205-209). The model replaces the record under its ID with an updated value, so aliasing of that object is not modelled.
- The insertion-ordered dictionary is modelled as a sequence of IDs beside a map.
