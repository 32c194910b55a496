# unzyp: a Dafny model of the product-archive sorter

`unzyp.py` sorts the archives of a game publisher's PDF products into a folder tree. The
content id of a product is the file name of its archive without the extension. For a
single product, the script finds the product line by looking for a fixed list of slugs in
the content id. `get_filepath` then builds the PDF's new path from the id, using
`insert_spaces` to split the camel-case title, and every other file of the archive would
be renamed after the PDF (as written, the move of the PDF fails first; see "## Findings").
Adventure-path archives take another route. `process_adventure_paths`
parses each archive name into a volume record: adventure-path number, book number, total
books, and a name left after the numbers are deleted. It then groups the volumes into
series. Each spin of its loop takes the first volume left. It collects the names of the
volumes in that volume's numbering window, guesses the series name from the volume's
words, and moves every volume whose name contains the guess into a group sorted by book
number.

The model is split into these modules:

- `Wrappers`: `Option` and `Result`.
- `Text`: the Python string operations the script relies on.
  - `in` on strings, slicing, the leading digit run a `re.match` finds, `int()` and `zfill`.
  - `strip`, `replace(pat, "")`, `split(" ")` and `split(sep)[0]`.
  - The `name` and `stem` of a `pathlib` path.
- `Spacing`: `insert_spaces`, as three scans that insert a space wherever their pattern
  matches.
- `FilePaths`: `get_filepath`, which returns a path or the exception the script would raise.
- `Classifier`: the slug search of `process_pdf`, the PDF's destination and the companion
  names.
- `Volumes`: the parse loop of `process_adventure_paths`. `ParseVolumes` is a method with
  the script's `for` loop.
- `Grouping`: the name search and the outer `while` loop of `process_adventure_paths`.
  - `FindSeriesName` is a method with the script's nested loops.
  - `GroupAdventurePaths` is a method with the outer loop.
  - Each is proved equal to a function (`SeriesName`, `Run`), and the properties of that
    function are proved as lemmas.

The model follows the code, including its quirks:

- The "finderQuestSeries2" branch of `get_filepath` is an `if` of its own, so the
  `if/elif/else` chain after it still raises `ValueError` for that slug. The slug search
  tries "finderQuest" first, and that is a substring of "finderQuestSeries2", so the
  longer slug is never chosen anyway.
- The Flip products fail in either of two ways:
  - Their slugs as searched ("finderFlip-Mat") are not the ones `get_filepath` knows
    ("PathfinderFlip-Mat"), so they get `UnknownSlug`.
  - Called with the known slug, `get_filepath` fails because `pl_dir` is unbound.
- Quest, Bounty and Society paths glue the numbering prefix onto the folder without a
  `/`. Once the PDF could be moved, its companion files would therefore be named after a
  stem that starts with the folder's last word, for example `BountiesB12 - map.png`.
- The Quest folder is "Quests S1" when the id starts with "Path", but such an id never
  starts with the digit run that line 33 needs, so every Quest that gets a path goes to
  "Quests".
- `process_pdf` returns `None` for unknown products and adventure paths, and
  `Path(None)` at line 99 then raises. This is modelled as the error `NoDestination`.
- `mkdirmv` (lines 7-15) converts only its loop variable to a `Path`. `get_filepath`
  returns a `str`, so line 14 reads `.parent` of a `str` and raises `AttributeError`
  before anything is moved. As written, no PDF is ever moved and lines 100-112 never run.
  `ProcessPdfAsWritten` and `PdfDestinationAsWritten` model this, and `NoPdfMoved` states
  it for every content id. `ProcessPdf`, `PdfDestination` and the companion names model
  the evidently intended behaviour, where the PDF lands on `get_filepath`'s path (see
  "## Findings").
- In the name search, the inner `for` stops before word 0. Each pass counts, for each
  word, the candidates that contain it. Only the count for word 1 survives.
  - With fewer than two words the `while matches > 0` never ends.
  - With more than two words it ends after one pass or never.
  - With exactly two words it can also end after a second pass, giving the name
    `"w1 w1"`. The model follows the code.
  - A search that never ends is modelled as the outcome `Hangs`, and the loop that would
    spin forever as `Hung`.
- Line 170 ends in a stray `})`, so the script does not parse as written. The model
  assigns the sorted list to `adv_paths[ap_name]`, which is evidently what was meant. A
  name found twice replaces the earlier group, as the dict assignment does.

Some behaviour one might expect from the script's purpose is not in the code, and the
model follows the code:

- The code recognises only `-` between a season and a scenario number, not en or em
  dashes.
- The head volume is never its own candidate.
- Nothing falls back to a generic tag pattern or to folders already on disk.
- One might expect three books with consecutive adventure-path numbers, books "1of3" to
  "3of3", and names sharing a last word (say "Alpha Saga", "Beta Saga", "Gamma Saga") to
  form one group named after that word. In the code, the head's only candidate is book 2,
  the first pass counts "Saga" in it, and the second pass counts "Saga " and finds
  nothing. The name found is therefore "Saga Saga", which no volume holds. Every spin
  files an empty group under it, and the loop ends on its bound with all three books
  left over. `Grouping.SharedLastWordNotGrouped` proves this for three such books listed in book order
  whose first words do not end in the shared word.

## Model

| member | source | states |
|---|---|---|
| Spacing.InsertSpacesOnlyInsertsSpaces | unzyp.py:19-20 | `insert_spaces` only inserts ' ' characters: deleting the inserted spaces from the result gives back the input |
| Spacing.SpacesInsertedKeepsAbsent | unzyp.py:19-20 | inserting spaces adds no character other than ' ': one absent from the input stays absent |
| Spacing.SplitLeavesUncut | unzyp.py:20 | after one substitution pass its pattern no longer matches anywhere, and a pattern that did not match before still does not |
| Spacing.InsertSpacesIdempotent | unzyp.py:19-20 | applying `insert_spaces` to its own output changes nothing |
| Spacing.InsertSpacesFixedPoints | unzyp.py:19-20 | `insert_spaces` returns its input unchanged if and only if none of the three patterns matches anywhere in it |
| Text.LeadingDigits | unzyp.py:27 | the digit run `re.match(r'([0-9]+)')` finds is a prefix of the id made of digits and followed by a non-digit or the end |
| Text.ZFillDigits | unzyp.py:44 | `zfill(2)` pads with '0' to at least two characters and keeps the digits and the numeric value |
| Text.Strip | unzyp.py:138 | the result is the input with whitespace removed from both ends, and neither end of the result is whitespace |
| Text.RemoveAll | unzyp.py:137 | `replace(elem, "")` never lengthens the string |
| Text.RemoveAllShrinks | unzyp.py:137 | `replace(elem, "")` shortens the string exactly when `elem` is non-empty and occurs in it |
| Text.RemoveAllFirst | unzyp.py:137 | `replace(elem, "")` keeps the text before the first occurrence of `elem`, deletes that occurrence and goes on after it; with no occurrence the string is unchanged |
| Text.WordsOfJoin | unzyp.py:160 | splitting a space-joined list of non-empty words without spaces and dropping empty pieces gives the words back |
| Text.BeforeFirst | unzyp.py:103 | `split(" - ")[0]` is a prefix of the stem that no " - " starts inside, so it ends at the first " - "; it is the whole stem when there is none, and is otherwise followed in it by " - " |
| Text.Name | unzyp.py:102-111 | `Path(p).name` is the part of `p` after its last '/', or all of `p` |
| Text.Stem | unzyp.py:102 | `Path.stem` is a prefix of the name; when shorter, it is non-empty and followed by a '.' and a suffix with no '.'; when it is the whole name, no '.' other than the first or last character is the last '.' |
| Text.StemOfPdf | unzyp.py:102 | the stem of a non-empty base name plus ".pdf" is the base name |
| FilePaths.ContentId | unzyp.py:66 | the content id, `Path(zip).stem`, never contains a '/'; it is the file name without its last suffix, or the whole file name when that has no suffix |
| FilePaths.SeasonScenario | unzyp.py:43 | `re.match(r'([0-9]+)-([0-9]+)')` succeeds exactly when the leading digit run is followed by '-' and a digit; the groups are then the two longest digit runs |
| FilePaths.QuestSeries2AlwaysFails | unzyp.py:24-29 | "finderQuestSeries2" always fails: with the number lookup of line 27 when the id does not start with a digit, otherwise with the ValueError of line 53 |
| FilePaths.FlipProductsFail | unzyp.py:47-49 | the Flip-Mat and Flip-Tiles slugs fail because `pl_dir` is never assigned before line 55 |
| FilePaths.OtherSlugs | unzyp.py:50-53 | the adventure-path slug yields the literal "AP", and any slug outside the chain raises ValueError |
| FilePaths.QuestPath | unzyp.py:30-35 | the Quest folder is "Quests S1" exactly when the id starts with "Path"; the path fails exactly when the id does not start with a digit, and is otherwise "Quests", "Q", the digit run, " - ", the rest of the id with spaces inserted, and ".pdf": an id starting with "Path" never starts with a digit, so the "Quests S1" folder is never reached |
| FilePaths.BountyPath | unzyp.py:36-41 | the Bounty path fails exactly when the id does not start with a digit, and is otherwise "Bounties", "B", the digit run, " - ", the rest of the id with spaces inserted, and ".pdf" |
| FilePaths.SocietyScenarioPath | unzyp.py:42-46 | the Society path fails exactly when the id does not start with `<digits>-<digits>`; otherwise the folder is "S" plus `zfill(2)` of the season (two digits or more, same value), followed by `<season>-<scenario> - `, the rest of the id after the numbers with spaces inserted, and ".pdf" |
| FilePaths.SocietyExample | unzyp.py:42-46 | the id "1-05…" goes to "1-05finder 2e/1-05finder Society/S01" + "1-05 - " + title + ".pdf" |
| Classifier.FirstContained | unzyp.py:67-75 | the search returns None exactly when no slug occurs in the id, and otherwise the first slug in list order that occurs in it |
| Classifier.QuestSeries2NeverClassified | unzyp.py:67-75 | "finderQuestSeries2" is never chosen; an id holding it is classified as a Quest unless it holds the Society slug |
| Classifier.PdfDestinationOk | unzyp.py:65-99 | a PDF gets a destination exactly when it is a Quest or Bounty whose id starts with a digit, or a Society scenario whose id starts with `<digits>-<digits>`; the destination is then `get_filepath`'s path |
| Classifier.SkippedPdfs | unzyp.py:76-99 | an unknown product or an adventure path gets no path, and `Path(None)` fails |
| Classifier.FlipPdfsFail | unzyp.py:67-83 | a Flip product fails in `get_filepath` with an unknown slug, since the slug found is not one `get_filepath` knows |
| Classifier.LetterFirstIdsFail | unzyp.py:65-99 | an id that does not start with a digit never gets a destination |
| Classifier.CompanionNaming | unzyp.py:101-111 | a companion's name is the PDF stem up to its first " - " (all of it when there is none), then " - " and the companion's name; the new path ends in that name, and a moved directory keeps its name |
| Classifier.NoPdfMoved | unzyp.py:7-15 | as written, every PDF fails: where the intended destination exists, `mkdirmv` raises on the `str` it gets; elsewhere the failure is the intended one |
| Classifier.BountyMoveFails | unzyp.py:7-15 | the archive "12finderBounty.zip" has an intended destination, and as written its move raises |
| Classifier.BountyCompanion | unzyp.py:101-106 | the companions of a Bounty PDF are named "BountiesB" + number + " - " + their own name |
| Classifier.QuestCompanion | unzyp.py:101-106 | the companions of a Quest PDF are named "QuestsQ" + number + " - " + their own name |
| Classifier.SocietyCompanion | unzyp.py:101-106 | the companions of a Society PDF are named "S" + padded season + season + "-" + scenario + " - " + their own name |
| Volumes.ApNumberFirstMatch | unzyp.py:131 | `ap_number` is missing exactly when "AdventurePath" followed by a digit occurs nowhere; otherwise it is the digit run after the first such occurrence |
| Volumes.BookInfoFirstMatch | unzyp.py:132-134 | the book info is missing exactly when `<digits>of<digits>` occurs nowhere; otherwise the two numbers are the digit runs on either side of "of" in the first occurrence |
| Volumes.RemoveTokensUnchanged | unzyp.py:133 | the `remainder` substitution changes the id exactly when one of its two patterns matches somewhere |
| Volumes.ParseVolumeOutcome | unzyp.py:127-147 | parsing fails for a missing adventure-path number first, then for missing book info; a parsed volume holds the numbers' values, the id, the system from the id's first four characters, no series name, and a stripped name |
| Volumes.CollectMeaning | unzyp.py:125-148 | collecting succeeds exactly when every archive parses, and then yields the volumes in list order; otherwise it fails with the error of the first archive that does not parse |
| Volumes.ParseVolumes | unzyp.py:125-148 | the `for` loop yields the outcome of collecting the parse of every archive, in order |
| Grouping.CountContaining | unzyp.py:165 | the count is at most the number of candidates, and is zero exactly when no candidate contains the text |
| Grouping.DownClosedForm | unzyp.py:164-166 | one run of the inner `for` leaves only the count for word 1 and adds words 1 onwards to `ap_name`, each followed by a space |
| Grouping.PassesClosedForm | unzyp.py:163-166 | the first pass drops word 0, so `ap_name` becomes words 1 onwards; it counts word 1, followed by a space when there are more than two words; every later pass counts word 1 followed by a space |
| Grouping.SeriesNameMeaning | unzyp.py:160-166 | the search finds a name exactly when the `while` stops after some number of passes, the name is `ap_name` after those passes, and it is never empty |
| Grouping.FindSeriesName | unzyp.py:160-166 | the nested loops compute the search's outcome, a found name or a search that never ends |
| Grouping.Candidates | unzyp.py:156-157 | the candidates are exactly the names of the volumes whose adventure-path number lies in the head's window and differs from the head's |
| Grouping.HeadNotCandidate | unzyp.py:157 | the head volume is never its own candidate |
| Grouping.CandidatesSameWindow | unzyp.py:156-157 | the candidates depend only on the head's path number, book number and total books |
| Grouping.SeriesWindow | unzyp.py:156-157 | with consecutive numbering, a volume of the same series is a candidate exactly when it is another book and not the case of book 1 facing the last book |
| Grouping.NamedUnnamedSplit | unzyp.py:170-171 | the two comprehensions split the list: every volume is in exactly one of them |
| Grouping.SortByBook | unzyp.py:170 | `sorted` by book number returns a permutation of its input in book-number order |
| Grouping.SortByBookStable | unzyp.py:170 | the sort is stable: volumes with the same book number keep their order |
| Grouping.SpinMoves | unzyp.py:167-171 | a spin with a name splits the tagged list exactly into the group and the rest; the group is sorted by book number, stable, and holds exactly the volumes whose name contains the found name |
| Grouping.SpinStays | unzyp.py:157-167 | a spin finds no name exactly when the head has no candidates |
| Grouping.SpinOnce | unzyp.py:155-171 | one spin of the loop body computes the spin's outcome |
| Grouping.TaggedSpin | unzyp.py:169 | setting the head's `ap_name` to the name its spin found does not change what the spin does |
| Grouping.EmptyGroupKeepsAll | unzyp.py:170-171 | a spin whose name no volume holds files an empty group and leaves the whole working list |
| Grouping.RepeatedLastWord | unzyp.py:159-171 | a two-word head whose last word `w` some candidate holds, while no volume holds `w` followed by a space, gets the name "w w" and an empty group |
| Grouping.RunSpins | unzyp.py:150-154 | the outer loop runs at most `bp_len + 1` spins |
| Grouping.StayStalls | unzyp.py:153-167 | when the head has no candidates, the working list never changes and the loop ends on its spin bound |
| Grouping.EmptyGroupRepeats | unzyp.py:153-171 | once a spin files an empty group, every later spin does the same and the loop ends on its spin bound with the working list unchanged |
| Grouping.RunKeepsGroups | unzyp.py:153-171 | whatever the loop ends with, every group is sorted by book number and every member's name contains the group's name, and no remaining volume's name contains a group's name |
| Grouping.GroupAdventurePaths | unzyp.py:150-171 | the `while` loop computes the grouping outcome |
| Grouping.GroupingOutcome | unzyp.py:150-171 | starting from the parsed volumes and no groups, the loop runs at most `bp_len + 1` spins and ends with keyed, sorted groups and no leftover volume belonging to one |
| Grouping.SharedLastWordNotGrouped | unzyp.py:150-171 | three books 1of3 to 3of3 with consecutive path numbers whose names share a last word `w` end ungrouped: one empty group named "w w", all three books left over, after 4 spins |
| Grouping.ProcessAdventurePaths | unzyp.py:124-171 | a parse failure is returned as is; otherwise the volumes are grouped by the outer loop |

Some functions only compute, and their properties are stated by the members above:

- `FilePaths.GetFilepath`: `QuestPath`, `BountyPath`, `SocietyScenarioPath`,
  `QuestSeries2AlwaysFails`, `FlipProductsFail` and `OtherSlugs`.
- `Spacing.InsertSpaces`: the `InsertSpaces…` lemmas and `SpacesInsertedKeepsAbsent`.
- `Classifier.Classify`: `FirstContained` and `QuestSeries2NeverClassified`.
- `Classifier.ProcessPdf` and `Classifier.PdfDestination`: `PdfDestinationOk`,
  `SkippedPdfs`, `FlipPdfsFail`, `LetterFirstIdsFail` and `NoPdfMoved`.
- `Classifier.CompanionName`: `CompanionNaming` and the `…Companion` lemmas.
- `Volumes.ParseVolume`, `Volumes.BookPathName` and `Volumes.RemoveTokens`:
  `ParseVolumeOutcome` and `RemoveTokensUnchanged`.
- `Grouping.SeriesName`: `SeriesNameMeaning`, `PassesClosedForm` and `FindSeriesName`.
- `Grouping.Spin`: `SpinMoves`, `SpinStays`, `SpinOnce`, `TaggedSpin` and
  `RepeatedLastWord`.
- `Grouping.Run`: `RunSpins`, `StayStalls`, `EmptyGroupRepeats`, `RunKeepsGroups`,
  `GroupingOutcome`, `SharedLastWordNotGrouped` and `GroupAdventurePaths`.

## Findings

| source | as written | input that shows it | evidently intended | confidence | as-written member | corrected member |
|---|---|---|---|---|---|---|
| unzyp.py:11-15 | the loop rebinds only its own variable, so the `str` from `get_filepath` reaches `dst.parent` at line 14 and raises `AttributeError`; no PDF is moved | "12finderBounty.zip" | convert `src` and `dst` to `Path`, so the PDF moves to `get_filepath`'s path | high, not executed | Classifier.NoPdfMoved | Classifier.PdfDestinationOk |

## Left out

- The directory creation and moves of `mkdirmv`, `shutil.move`, `shutil.rmtree`, `zipfile`
  extraction, `rglob` scans, temporary folders named by `os.urandom`, and `print` are
  file-system I/O or randomness. The model computes the path strings that the moves would
  use. The failure of `mkdirmv` on a `str` destination is modelled.
- `process_zip` (unzyp.py:57-122) beyond the path and name computations is not modelled:
  the PDF and companion loops and the choice between the three branches at lines 97-118
  depend on what the archive holds.
- The second half of `process_adventure_paths` (unzyp.py:173-202) extracts and renames
  the adventure-path PDFs. It is I/O, and it reads variables left over from the parse
  loop.
- The `__main__` driver (unzyp.py:204-221) only scans folders and dispatches.
- Line 29 computes a title for "finderQuestSeries2" that is never used, because the call
  always raises. Only its number lookup is modelled.
- Regular expressions are modelled as explicit scans for the patterns the script uses, not
  as a general regex engine. `\d` is taken to mean an ASCII digit, although Python also
  matches other Unicode digits.
- Paths are strings. `pathlib` normalisation (repeated or trailing '/', "." components)
  is not modelled, and `Path / name` is modelled as joining with a '/'.
- Grouping.FindSeriesName: it runs at most two passes of the `while` and returns `Hangs`
  where the script loops forever. `SeriesNameMeaning` shows that every later pass repeats
  the second pass's count, so the loop could never end there.
- Grouping.GroupAdventurePaths: volumes are values, so setting `bp["ap_name"]` on the head
  updates the head in the working list. That is the only copy the script reads again.
  Aliasing of the dict is not modelled.
- Volumes.ParseVolumeOutcome: it does not state the book-path name beyond its stripped
  ends. `BookPathName` defines that name by the deletions and the substitution.
