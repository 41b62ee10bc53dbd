# organe — clinical findings summary, modelled in Dafny

`organe.py` builds a short clinical report from a catalogue of findings. Each
catalogue item has a code (`kuerzel`, for example `h` for the heart), an order
number (`nummer`), a default "normal" text, a flag for bilateral organs, and an
`active` flag. A run has three stages:

1. The user types the codes they want. **Selection** keeps the catalogue items
   with those codes and sorts them by order number.
2. The user types the order numbers of the affected findings, then one reply
   for each affected finding, one per side when the finding is bilateral.
   **Classification** walks the items. Each side whose reply is not blank
   becomes a *pathological* entry carrying the reply. Every other side becomes
   a *normal* entry carrying the item's default text.
3. **Formatting** groups each list's texts by side (LINKS, RECHTS, none) and
   prints two lines, `Pathologisch: …` and `Normal: …`, when no entry text
   holds a line break.

The model has seven modules, one file each:

- `Model` (`model.dfy`): the records `Item` and `Entry`, and `Side`
  (`NoSide` is Python's `None`).
- `Text` (`text.dfy`): the Python string operations the program relies on:
  `strip`, `lower`, `split` on one character, and `join`.
- `InputHelpers` (`input_helpers.dfy`): the pure cores of `ask_tokens`,
  `ask_numbers` and `parse_bool`.
- `Selection` (`selection.dfy`): `select_items_for_kuerzel` on a catalogue
  given as a sequence. Python's stable `sorted` is modelled as an insertion
  sort.
- `Classification` (`classification.dfy`): `replace_pathological`, as a method
  with the source's loop. Its specification is a trace of *placements*. Each
  placement records which list an entry went to and which item it came from.
- `Summary` (`summary.dfy`): `build_summary_text`, as a method with the
  `bucket` loop and the step-by-step part lists. It is proved equal to a
  side-by-side reading of the two lists, `SummaryText`.
- `Report` (`report.dfy`): the last two steps of `main`, the classification
  and the formatting put together (`ReportFor`, and the method `Summarise`
  that runs the two methods one after the other), followed end to end for a
  few families of inputs.

The prompts are modelled as parameters:

- The affected numbers are a `set<int>`.
- The replies come from an answer provider `(nat, Side) -> string`, keyed by
  the position of the item in the run and the side asked about (`NoSide` for
  the single question of an item without sides). Two copies of the same
  catalogue row can therefore be answered differently, as at the prompt. The
  provider gives the raw reply, and the model strips it, as the source strips
  what `input()` returns.

## Model

| member | source | states |
|---|---|---|
| Text.Strip | organe.py:184 | `str.strip()`: the result is no longer than the input and neither starts nor ends with whitespace (Python's full `isspace` set) |
| Text.StripEmpty | organe.py:184-187 | a stripped reply is empty, so it counts as "leer = normal", exactly when the reply is all whitespace |
| Text.Lower | organe.py:90 | the modelled (Basic Latin and Latin-1) `lower` keeps the length, and no character becomes or stops being whitespace |
| Text.StripIdempotent | organe.py:133 | stripping twice is the same as stripping once |
| Text.StripLower | organe.py:133 | stripping and lowering commute |
| Text.LowerIdempotent | organe.py:90 | lowering twice is the same as lowering once |
| Text.StripPadded | organe.py:90 | any whitespace around a value does not change its strip |
| Text.Split | organe.py:74 | `split(",")` gives at least one piece, and no piece contains the separator |
| Text.JoinSplit | organe.py:74 | joining the pieces of `split` with the separator gives back the string |
| Text.SplitJoin | organe.py:74 | `split` undoes `join` when no piece contains the separator |
| Text.SplitConcat | organe.py:74 | splitting `a + sep + b` gives the pieces of `a` followed by the pieces of `b` |
| Text.JoinLength | organe.py:216-231 | `sep.join(xs)` is as long as the pieces together plus one separator between each two neighbours |
| InputHelpers.AskTokens | organe.py:73-74 | every token of a reply is non-empty, has no surrounding whitespace, and has no comma |
| InputHelpers.AskTokensJoin | organe.py:73-74 | tokenising a comma-separated list of such tokens gives the list back |
| InputHelpers.AskTokensConcat | organe.py:73-74 | a comma separates the tokens on its two sides: the tokens of `a,b` are those of `a` followed by those of `b` |
| InputHelpers.AskTokensPiece | organe.py:74 | a piece without a comma gives its strip as its one token, or no token when it is blank; with `AskTokensConcat` this fixes the tokens of every reply |
| InputHelpers.AskNumbers | organe.py:77-84 | a number is in the set exactly when some token parses to it; the ignored tokens are exactly the tokens that do not parse, in token order and once per occurrence, as the warnings are printed |
| InputHelpers.CollectNumbers | organe.py:79-83 | the loop adds the number of every token `int()` accepts and sets every refused token aside, in token order |
| InputHelpers.ParseIntShape | organe.py:81 | `int()` accepts a token only when it ends in a digit once stripped, reads a negative number only behind a minus sign, and refuses every token of more than 4300 digits |
| InputHelpers.ParseIntShow | organe.py:81 | `int()` reads back what `str()` writes, for every integer of at most 4300 digits, which are the integers `str()` can write |
| InputHelpers.ParseIntSigns | organe.py:81 | `int()` accepts a sign, leading zeros and surrounding whitespace; a lone sign is refused |
| InputHelpers.ParseIntUnderscores | organe.py:81 | single underscores between digits are accepted; a doubled underscore is refused |
| InputHelpers.ParseIntRejects | organe.py:81-83 | a token with a character other than a leading sign, a digit, or a single underscore between digits (`3a`), and an empty token, are refused, so they are warned about and ignored |
| InputHelpers.ParseBool | organe.py:87-90 | a missing value gives the default; a present value is true exactly when, stripped, it spells one of the truthy tokens (`TRUTHY` at organe.py:23) with its letters in any case |
| InputHelpers.ParseBoolIgnoresCase | organe.py:87-90 | the case of the value does not change `parse_bool` |
| InputHelpers.ParseBoolIgnoresPadding | organe.py:87-90 | whitespace around the value does not change `parse_bool` |
| InputHelpers.ParseBoolExamples | organe.py:87-90 | truthy tokens (`TRUTHY` at organe.py:23) are true in any case and with padding; other present values, a blank one included, are false whatever the default; a missing value gives the default |
| Selection.Wanted | organe.py:133 | the wanted codes are exactly the stripped, lowered forms of the requested codes that are not blank; each is non-empty and unchanged by stripping and lowering |
| Selection.WantedNormalises | organe.py:133 | a requested code is matched whatever its case and surrounding whitespace: its normal form is wanted, and adding that form changes nothing |
| Selection.Filter | organe.py:134-138 | each catalogue item that passes the code/active filter is kept as often as it occurs in the catalogue, and no other item is kept |
| Selection.FilterConcat | organe.py:134-138 | the comprehension works item by item in catalogue order: the kept items of `a + b` are those of `a` followed by those of `b` |
| Selection.FilterOne | organe.py:137 | a single item is kept exactly when it has a wanted code and, with `use_active`, is active |
| Selection.FilterWithNummer | organe.py:134-138 | keeping the items that pass and picking the items of one number commute |
| Selection.Insert | organe.py:139 | inserting adds exactly the one element |
| Selection.InsertSorted | organe.py:139 | inserting into a sequence sorted by number keeps it sorted |
| Selection.InsertWithNummer | organe.py:139 | the inserted item goes in front of the items with its number, and the items of every other number are untouched |
| Selection.SortByNummer | organe.py:139 | the stable sort: sorted by number, the same elements, and the items of each number in input order |
| Selection.StableOrderUnique | organe.py:139 | being sorted and keeping each number's items in a given order fixes the sequence, so the stable sort's result is unique |
| Selection.SelectItemsForKuerzel | organe.py:127-139 | the selection is sorted by number; it holds each catalogue item that passes the filter as often as in the catalogue and no other item; items with equal numbers stay in the order the filter gives them, which is catalogue order (`SelectionKeepsCatalogueOrder`) |
| Selection.SelectionKeepsCatalogueOrder | organe.py:134-139 | the selected items with number `n` are the catalogue's items with number `n` that pass the filter, in catalogue order |
| Selection.SelectionIsDetermined | organe.py:127-139 | any sequence that is sorted by number and lists each number's selected items in catalogue order is the selection |
| Selection.SelectionMembers | organe.py:133-138 | an item is selected exactly when it is in the catalogue and passes the filter |
| Classification.Ask | organe.py:183-191 | one question: the side is normal with the item's text exactly when the reply is all whitespace, and pathological with the stripped reply otherwise; the entry keeps the side asked about and the item's position |
| Classification.Placements | organe.py:180-199 | the trace has two entries per bilateral item and one per other item |
| Classification.ItemPlacements | organe.py:180-199 | an item gives two entries (LINKS, then RECHTS) when bilateral and one side-less entry otherwise |
| Classification.ReplacePathological | organe.py:174-201 | the loop's two lists are exactly the entries of the run's trace that went to each list, in trace order |
| Classification.PlaceItem | organe.py:180-199 | one loop pass appends to each list exactly the entries the item's rules send there |
| Classification.AppendAnswer | organe.py:187-192 | `(pathological if reply else normal).append(...)`: a non-blank reply goes to the pathological list and the normal list is unchanged; otherwise the default text goes to the normal list and the pathological list is unchanged |
| Classification.ItemLists | organe.py:181-199 | the entries one item sends to each list, for each of the four cases (affected or not, bilateral or not) |
| Classification.ItemRules | organe.py:181-199 | an unaffected item is normal with its own text on every side; for an affected item each side is pathological with its stripped reply when that is non-blank, and normal with the item's text otherwise |
| Classification.ListOfConcat | organe.py:180 | handling items one after another: the lists of a concatenated trace are the concatenations of the lists |
| Classification.PlacementsPerItem | organe.py:180-199 | the entries that come from item `i` are exactly what that item's rules give |
| Classification.Partition | organe.py:186-192 | every entry goes to exactly one of the two lists, so no side is in both |
| Classification.EntryCount | organe.py:180-199 | `len(normal) + len(pathological)` is the sum of these per-item counts |
| Classification.PlacementsOrdered | organe.py:180-201 | the trace follows item order, and within a bilateral item LINKS comes before RECHTS |
| Classification.PlacedInOrdered | organe.py:180-201 | each list keeps the trace's order |
| Classification.ListsFollowNummer | organe.py:180-201 | with the items sorted by number, as the selection delivers them (organe.py:139), each list is in ascending number order, and the LINKS entry of an item precedes its RECHTS entry |
| Classification.UnmatchedNumbersInert | organe.py:181 | affected numbers that no item carries change nothing |
| Classification.NoneAffected | organe.py:194-199 | when no item's number is affected, nothing goes to the pathological list |
| Summary.Bucket | organe.py:205-209 | `bucket`: each side's texts, in entry order; a side is a key only when it has texts |
| Summary.BuildSummaryText | organe.py:204-233 | the method's text is the side-by-side reading `SummaryText` of the two lists |
| Summary.CollectPathoParts | organe.py:213-220 | the three `if`s give the LINKS, RECHTS and side-less parts of the pathological line, each only when its group is non-empty, in this order |
| Summary.CollectNormalParts | organe.py:222-228 | the same for the normal line, with the side groups in brackets |
| Summary.SummaryText | organe.py:230-233 | the report starts with `Pathologisch: `; without pathological entries it starts with `Pathologisch: -` and the line break before `Normal: `; without normal entries it ends with the line break and `Normal: -` |
| Summary.TextsOnConcat | organe.py:207-208 | grouping keeps entry order: the group of a concatenation is the concatenation of the groups |
| Summary.GroupsPartition | organe.py:205-209 | the three groups together hold all the texts of the list, each once |
| Summary.GroupsCount | organe.py:205-209 | the group sizes add up to the length of the list |
| Summary.OneSide | organe.py:205-209 | entries that are all on one side form that side's group, and the other groups are empty |
| Summary.PartsEmpty | organe.py:214-228 | a line has parts exactly when its list has entries |
| Summary.EmptyLines | organe.py:230-231 | without pathological entries the first line's text is `-`; without normal entries the second line's text is `-` |
| Summary.EmptyReport | organe.py:230-233 | with no entries at all the report is `Pathologisch: -` and `Normal: -` on two lines |
| Summary.PairedNormalLine | organe.py:222-231 | the normal entries of bilateral items that all stay normal give `LINKS (ts); RECHTS (ts)` |
| Summary.Paired | organe.py:205-209 | for such entries the LINKS and RECHTS groups are each the item texts, and there is no side-less group |
| Summary.PathoLineKeepsOut | organe.py:214-220 | entry texts without line breaks give a pathological line without one |
| Summary.NormalLineKeepsOut | organe.py:222-228 | entry texts without line breaks give a normal line without one |
| Summary.TwoLines | organe.py:233 | when no entry text holds a line break, the report is `"Pathologisch: " + P` and `"Normal: " + N`; split at line breaks it gives exactly these two lines |
| Report.ReportFor | organe.py:244-245 | the report starts with `Pathologisch: `; when no selected item is affected its first line is `Pathologisch: -`; with no items it is the two placeholders |
| Report.Summarise | organe.py:244-245 | running the classification loop and then the formatting method gives exactly `ReportFor` |
| Report.UnaffectedBilateral | organe.py:194-197 | bilateral items none of which is affected all go to the normal list, LINKS then RECHTS for each item, and the pathological list is empty |
| Report.UnaffectedBilateralReport | organe.py:222-231 | for such items the pathological line is `-` and the normal line is `LINKS (a, b, …); RECHTS (a, b, …)` |
| Report.TwoBilateralLine | organe.py:222-231 | two such items with texts `a` and `b` give `LINKS (a, b); RECHTS (a, b)` |
| Report.BlankReplyReport | organe.py:190-192 | an affected finding without sides, answered with a blank reply, gives `Pathologisch: -` and `Normal: ` followed by its own text |
| Report.LeftAnswerReport | organe.py:183-188 | an affected bilateral finding with a left reply and a blank right reply gives `Pathologisch: LINKS <reply>` and `Normal: RECHTS (<text>)` |
| Report.UnaffectedLoneReport | organe.py:198-233 | an unaffected finding without sides gives `Pathologisch: -` and `Normal: <its text>`, whatever the text holds |
| Report.LineBreakInText | organe.py:100 | an unaffected finding without sides whose default text is `a` line break `b` gives a report that splits into three lines: `Pathologisch: -`, `Normal: a` and `b` |

## Left out

- Command-line parsing (`parse_args`, organe.py:26-50) is not modelled: it is plumbing with no logic of its own.
- Reading the CSV file (`iter_items_from_csv`, `load_organs_menu`, organe.py:95-124) is file I/O. The selection takes the catalogue as a sequence of items instead. Both readers open `DEFAULT_CSV` and ignore their `csv_path` argument (organe.py:96, 118); that belongs to the I/O and is not modelled either. The stripping and lowering of `kuerzel` at read time (organe.py:98) is taken as already done in the items given.
- The organ menu and its sort by Unicode `str.lower()` (organe.py:116-124) are left out: they only feed the printed menu, and full Unicode case mapping is not available.
- `input()`, `print`, `print_organs_menu`, `show_options` and the warning that `ask_numbers` prints (organe.py:83, 145-171, 175, 184-191) are interactive I/O. The reply is a parameter of `AskTokens` and `AskNumbers`, the affected numbers are a `set<int>`, and the replies at the per-item prompts come from an answer provider. `AskNumbers` returns the ignored tokens in place of printing them.
- `pyperclip.copy` and the messages of `main` (organe.py:236-251) are left out: that is a foreign library and console output. `ReportFor` composes the two stages of `main`.
- `USE_ACTIVE` (organe.py:21) is never read and is not modelled; `use_active` is a parameter of the selection.
- Text.Lower: `str.lower()` is modelled for Basic Latin and Latin-1 letters only; other letters are left unchanged.
- InputHelpers.ParseInt: `int()` is modelled for ASCII digits only, with an optional sign, single underscores between digits, and surrounding whitespace. Python also accepts other Unicode decimal digits. The limit on the digits `int()` converts is CPython's default of 4300 (`MaxStrDigits`); changing it with `sys.set_int_max_str_digits` or `PYTHONINTMAXSTRDIGITS` is not modelled. The whitespace stripped around a token is that of `str.strip()` (`Text.Strip`); `int()` itself does not strip U+001C to U+001F. The two agree on every token `ask_tokens` gives, because those are stripped already.
- Classification.PlaceItem: the body of the source's loop is a separate method here, so that each pass can be reasoned about on its own. It does what the loop body does, branch for branch. In the same way the loop of `ask_numbers` is the method `InputHelpers.CollectNumbers`, and the two blocks of three `if`s in `build_summary_text` are `Summary.CollectPathoParts` and `Summary.CollectNormalParts`.
- Python's `sorted` is Timsort; the model sorts by insertion. The two agree on the result, because a stable sort's result is unique (`Selection.StableOrderUnique`).

The model keeps three details of the code that a plain description of the program glosses over:

- An unaffected item without sides whose default text is empty still gives a side-less group `[""]`, which is truthy in Python. The normal line then holds an empty part: it can be empty, or end in `; `, rather than being `-`.
- A pathological text is never empty, because only a non-blank reply becomes one.
- A default text holding a line break, as a quoted CSV field can (organe.py:96, 100), stays in the report as it is, so the report is then longer than two lines (`Report.LineBreakInText`).
