# EduStats grade averages, modelled in Dafny

EduStats reads a semicolon-separated grade sheet. Each row holds a semester,
a teaching unit ("UE"), a module name, a number of credits and a note. It
computes the credit-weighted average of every UE, grouped by semester
(`main.py`). This project models that computation and proves what it
promises:

- `WeightedAverages` models `calculer_moyenne_ponderee`. It divides the sum
  of credit × note over the paired lists by the sum of the credits, and it
  returns 0 when the credits add up to 0. The lemmas prove the zero rule,
  the exact ratio, and that with non-negative credits of positive total the
  average lies between the smallest and the largest note. A UE whose
  credits add up to 0 is kept, with average 0 (main.py:7-8, 39).
- `GradeSheet` models `lire_donnees_csv`, minus the file reading. The input
  is a sequence of rows already split into fields. The integer and real
  parsers are parameters that answer `None` where Python raises
  `ValueError`.
  - `GroupRows` is the first loop. It skips rows with an empty note or an
    unparsable field. It groups the other rows by semester, then by UE, into
    insertion-ordered dictionaries of parallel `credits`/`notes` lists. It
    aborts at the first row that does not have exactly five fields.
  - `AverageGroups` is the second loop, with its inner loop in `AverageUes`.
    It maps every group to its weighted average and keeps the order.
  - `ReadAverages` chains the two loops.
  - The methods are proved against declarative functions: `Accepted` (the
    accepted rows in order), `Semesters` and `UesOf` (first-seen key order)
    and `GroupOf` (the credits and notes of one UE). Lemmas state what these
    functions mean.
- `OrderedMaps` models Python's insertion-ordered `dict`. A new key goes to
  the end of the order; assigning to an existing key keeps its place.
  `FirstSeen` is the order in which keys are first inserted.

## Model

| member | source | states |
|---|---|---|
| `WeightedAverages.WeightedAverage` | main.py:5-9 | When the credits add up to 0 (including no credits) the average is exactly 0. Otherwise the average times the total equals the sum of credit × note over the pairs that `zip` forms. |
| `WeightedAverages.WeightedSumBounds` | main.py:9 | With non-negative credits and every note in [lo, hi], the weighted sum lies between lo × total and hi × total. |
| `WeightedAverages.WeightedAverageBetween` | main.py:6-9 | With one non-negative credit per note and a positive total, the average lies within any bounds of the notes. |
| `WeightedAverages.WeightedAverageWithinNotes` | main.py:6-9 | Under the same conditions, the average lies between the smallest and the largest note. |
| `WeightedAverages.PositiveCreditsTotal` | main.py:6-7 | Positive credits add up to 0 exactly when there are none, and otherwise to a positive total, so the zero guard only catches the empty list. |
| `WeightedAverages.PositiveCreditsWithinNotes` | main.py:6-9 | With one positive credit per note and at least one note, the average lies between the smallest and the largest note. |
| `OrderedMaps.OrderedMap.Put` | main.py:27-30 | Dictionary assignment keeps the dictionary valid. A new key is appended to the order and an existing key keeps its position. The content is updated at that key. |
| `OrderedMaps.FirstSeen` | main.py:27-30 | The listed keys are distinct, and they are exactly the keys that occur. |
| `OrderedMaps.FirstSeenOrder` | main.py:27-30 | A key listed before another first occurs before it. |
| `GradeSheet.GroupRows` | main.py:12-33 | Fails exactly when some row does not have five fields, and then names the first such row. Otherwise returns valid nested dictionaries whose semester order, per-semester UE order and per-UE credits/notes lists are those of the accepted rows. |
| `GradeSheet.AverageGroups` | main.py:35-41 | Keeps every semester and UE key in the same order, and maps each UE to the weighted average of its own credits and notes. |
| `GradeSheet.AverageUes` | main.py:38-39 | For one semester, keeps every UE key in the same order and maps each UE to the weighted average of its own credits and notes. |
| `GradeSheet.ReadAverages` | main.py:11-41 | Aborts exactly when some row does not have five fields, at the first one. Otherwise the result lists the semesters and, per semester, the UEs of the accepted rows in first-seen order. Each UE holds the weighted average of its accepted credits and notes. |
| `GradeSheet.Accept` | main.py:18-25 | A row yields nothing exactly when its note is empty or its credits or its note do not parse. Otherwise it yields its semester, its UE and the parsed credits and note, without the module name. |
| `GradeSheet.AddEntry` | main.py:27-33 | Inserting an accepted row keeps the nested dictionaries valid. Its semester and its UE become keys, each appended to its key order only when new. Its group becomes the old group (or an empty one) with its credits and its note appended to the two lists. Every other semester and every other UE of its semester is unchanged. |
| `GradeSheet.SemestersAppend` | main.py:27-28 | An accepted row adds its semester at the end of the semester order only if the semester is new. |
| `GradeSheet.UesOfAppend` | main.py:29-30 | An accepted row adds its UE at the end of its own semester's UE order only if the UE is new there. Other semesters are unchanged. |
| `GradeSheet.GroupOfAppend` | main.py:32-33 | An accepted row appends its credits and its note to its own group, both lists at once. Every other group is unchanged. |
| `GradeSheet.AddEntryDescribes` | main.py:27-33 | Inserting one accepted row into correctly grouped dictionaries gives the correct grouping of the longer input. |
| `GradeSheet.UesExactly` | main.py:29-30 | A UE is listed under a semester exactly when some accepted entry carries both. |
| `GradeSheet.SemestersInFirstSeenOrder` | main.py:27-28 | When semester a is listed before semester b, some entry of a comes before every entry of b. |
| `GradeSheet.UesInFirstSeenOrder` | main.py:29-30 | When UE a is listed before UE b under a semester, some entry of that semester and a comes before every entry of that semester and b. |
| `GradeSheet.GroupOfAligned` | main.py:30-33 | A group's credits and notes lists have equal length. Position k of both holds the credits and the note of the same entry, the k-th entry of that group in input order. |
| `GradeSheet.AcceptedConcat` | main.py:17-25 | Reading two consecutive parts of the input accepts the rows of the first part, then those of the second. |
| `GradeSheet.RejectedRowIgnored` | main.py:19-25 | A row whose note is empty, or whose credits or note do not parse, changes nothing. The input without it yields the same accepted entries, so no key and no list element. |
| `GradeSheet.AcceptedOccur` | main.py:18-25 | An entry is accepted exactly when some row yields it. |
| `GradeSheet.ModuleNameIgnored` | main.py:18 | Rows that differ only in the module name give the same accepted entries. |
| `GradeSheet.ReportedAverageWithinNotes` | main.py:36-39 | A UE in the result has at least one note. When all its credits are positive, its reported average lies between its smallest and its largest note. |
| `GradeSheet.ZeroTotalReported` | main.py:7-8 | A UE that some accepted entry carries is in the result even when its credits add up to 0, and its average is then 0. |
| `GradeSheet.SemesterReportedExactly` | main.py:27-28 | A semester appears exactly when some accepted row carries it. |
| `GradeSheet.UeReportedExactly` | main.py:29-30 | A (semester, UE) pair appears exactly when some accepted row carries it. |

## Left out

- Opening the file and splitting lines at `;` (main.py:14-15): this is I/O. The input is the sequence of rows already split into fields. Errors raised by the CSV reader itself are not modelled.
- The grammars of Python's `int()` and `float()` (main.py:22-23): each is a parameter that answers `None` for a string Python would reject.
- Floating point: notes and averages are exact reals. Rounding, `inf` and `nan` notes are not modelled.
- WeightedAverage: Python returns the integer `0` on a zero total and a float otherwise. The model returns the real 0 in both readings.
- WeightedAverage: `zip` stops at the shorter list while the total counts every credit. This is modelled, but no property is stated for lists of unequal length, because the reading always passes parallel lists of equal length (`GroupOfAligned`).
- An aborted read: Python raises `ValueError` at the first row without five fields, after processing the rows before it. The model returns `Err(MalformedRow(i))` with that row's index and no partial result.
- `generer_graphique_moyennes` (main.py:43-66): chart rendering. Its colour thresholds (10 and 8) belong to presentation.
- `main` (main.py:68-80): printing with two decimals and orchestration.
