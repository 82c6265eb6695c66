# MCLogInCounter in Dafny

A model of MCLogInCounter, a one-file Python script (`src/run.py`). The script reads the Minecraft server log files
in a `data` directory and counts how often each player logged in. It prints a ranked table
to the console and writes the same table to `output/output.txt`.

The model follows the script's pipeline, one module per stage:

- `Text` (`text.dfy`): the Python string built-ins the script relies on, restated as functions.
  These are `str.split` on one character, the substring test `in`, `str.endswith`,
  `ljust`/`rjust` and `str(int)`. Split is proved against join, and the decimal rendering
  against decimal reading.
- `Parser` (`parser.dfy`): `getName`. The name is field 3 of the line split on single spaces,
  cut at its first `[`. The only failure is a missing field 3 (Python's `IndexError`). It is
  modelled as a `MissingField` result.
- `LoginTally` (`tally.dfy`): `nameDict` and `countName`. A Python dict iterates in insertion
  order, and that order decides how ties are ranked. So the tally is an insertion-ordered
  sequence of `Entry(name, count)`, and `ToMap` gives its plain dictionary view.
- `Scanner` (`scanner.dfy`): the scanning loops of `main`. The directory listing and the
  lines of each file are given as input. Only `.log` entries are read, and only lines that hold
  `logged in with entity id` are counted.
- `Ranking` (`ranking.dfy`): `sorted(..., key=count, reverse=True)`. It is an insertion sort on
  sequences, proved to be ordered by count, to be a permutation, and to be stable.
- `Table` (`table.dfy`): the column width, the header, `justify`, the console lines and the
  file text.
- `LoginCounter` (`counter.dfy`): `main` as a method. It receives what the script would find
  on disk. It returns what the script prints, which directories it creates and which file it
  writes, with a status for how the run ended.

Three details of `src/run.py` that are easy to misread:

- The column width is computed from the names and the decimal counts only (`src/run.py:77`,
  `:104`). The labels `Name` and `No. of logins` are not part of it. For `{Alice: 2, Bob: 1}`
  the width is therefore 5 + 5 = 10, so the 13-character label `No. of logins` runs past the
  column (`Table.TwoPlayerTable`).
- A field 3 without `[` is not an error. `temp.split("[")[0]` returns the whole field.
- A line that holds the login marker always has a field 3, because the marker alone contains
  four spaces. So the scan can never hit the parser's only failure (`Scanner.LoginLineHasName`).

## Model

| member | source | states |
|---|---|---|
| Text.SplitCount | src/run.py:42-44 | `split` on one character returns one more field than the string has separators |
| Text.SplitFieldsFree | src/run.py:42-44 | no field of a split holds the separator |
| Text.SplitFirstField | src/run.py:42-44 | the first field of a split is a prefix of the string that ends right before the first separator. A string without the separator is a single field |
| Text.JoinSplit | src/run.py:42-44 | joining the fields of a split with the separator gives back the original string |
| Text.SplitJoin | src/run.py:42-44 | splitting a join of separator-free fields gives back exactly those fields |
| Text.ContainsOccurs | src/run.py:171 | the substring test is true exactly when the marker occurs at some index of the line |
| Text.LeftJustify | src/run.py:81 | `ljust` gives length max(len, width), keeps the string as a prefix (never truncates) and fills the rest with the fill character |
| Text.RightJustify | src/run.py:81 | `rjust` gives length max(len, width), keeps the string as a suffix and fills the front |
| Text.Decimal | src/run.py:121 | `str(n)` is a non-empty string of digits with no leading zero unless n is 0 |
| Text.DecimalRoundTrip | src/run.py:121 | reading back the decimal rendering of a count gives the count |
| Parser.GetName | src/run.py:29-45 | fails exactly when the line has fewer than 3 spaces, which means no field 3. Otherwise the name is a prefix of field 3 holding no `[` and no space. It ends right before the first `[`, or is the whole field when there is no `[` |
| Parser.ParsesLoginLine | src/run.py:31-44 | a line of the documented shape `F0 F1 F2 NAME[SUFFIX REST` parses to `NAME` |
| LoginTally.CountNameShape | src/run.py:48-61 | the key set gains the name. A new name is appended with count 1. Every existing key keeps its position, and every other entry is unchanged |
| LoginTally.CountNameTotal | src/run.py:56-61 | counting one name makes the sum of all counts grow by exactly 1 |
| LoginTally.CountNameUpdatesMap | src/run.py:56-61 | in dictionary terms, an absent name maps to 1 and a present one to its old count + 1. No other key changes |
| LoginTally.CountNameKeepsValid | src/run.py:56-61 | counting keeps keys unique and every count at least 1 |
| LoginTally.CountAll | src/run.py:152-173 | the tally built by counting a sequence of names from `{}` has unique keys and counts of at least 1 |
| LoginTally.CountAllCounts | src/run.py:169-174 | after counting a sequence of names, the keys are exactly the names seen. Each count is the number of occurrences of its name, and the counts sum to the number of names |
| LoginTally.CountAllFirstSeenOrder | src/run.py:56-58 | of two keys, the one listed first in the dict was seen first |
| Scanner.LoginLineHasName | src/run.py:171-172 | `getName` never fails on a line holding the login marker |
| Scanner.LoginNamesOfLine | src/run.py:171-173 | a line contributes its player's name when it holds the marker, and nothing otherwise |
| Scanner.LoginNamesOfEntry | src/run.py:164-169 | a directory entry contributes its login lines' names when its name ends in `.log`, and nothing otherwise |
| Scanner.LoginNamesAppend | src/run.py:164 | files contribute independently and in listing order |
| Scanner.LoginNamesInAppend | src/run.py:169 | lines contribute independently and in line order |
| Scanner.NonLogFileIgnored | src/run.py:167 | removing an entry not ending in `.log` does not change what is counted |
| Scanner.NonLoginLineIgnored | src/run.py:171 | removing a line without the marker does not change what is counted |
| Scanner.ScanLine | src/run.py:171-174 | one line adds its player to the tally and 1 to `totalCount` when it holds the marker, and changes nothing otherwise |
| Scanner.ScanLines | src/run.py:169-174 | the loop over one file's lines counts each login line's player once more. `totalCount` grows by the number of login lines |
| Scanner.Scan | src/run.py:152-175 | the tally counts exactly the names on login lines of `.log` files, in scan order. It has unique keys and positive counts, and `totalCount` equals both the number of login lines and the sum of all counts |
| Ranking.InsertByCountSorted | src/run.py:178 | inserting into a count-descending sequence keeps it count-descending |
| Ranking.InsertByCountPermutes | src/run.py:178 | inserting adds exactly the inserted entry: the result is the old entries plus it, as a multiset |
| Ranking.InsertByCountStable | src/run.py:178 | the inserted entry goes ahead of the entries of its own count and leaves their order alone |
| Ranking.RankByCount | src/run.py:178 | the ranked sequence is ordered by count, largest first, and is a permutation of the items |
| Ranking.RankByCountStable | src/run.py:178 | for every count, the entries with that count keep their relative input order |
| Ranking.RankKeepsTally | src/run.py:178 | ranking a tally loses, adds and repeats no key, and changes no count: the dictionary view is the same |
| Ranking.StableDescendingSortIsUnique | src/run.py:178 | two sequences that are both count-descending and agree on the order of every count's entries are equal, so the stable descending sort has one possible result |
| Ranking.WithCountKeepsFirstSeenOrder | src/run.py:178 | keeping only the entries of one count keeps the dict's first-seen order |
| Ranking.WithCountOrder | src/run.py:178 | two entries of the same count appear among that count's entries in their order in the sequence |
| Table.WidestCell | src/run.py:77 | the widest cell is at least the width of every name and decimal count, and equals one of them |
| Table.ColumnWidth | src/run.py:104 | the column width is the longest name or decimal count plus 5. The header labels take no part in it, and it is at least 6 |
| Table.HeaderLayout | src/run.py:80-81 | the header is `Name`, then `_` up to the column width, then `No. of logins` unpadded |
| Table.JustifyLayout | src/run.py:111-121 | a row is the name, then `_` up to the column width (a longer name is not cut), then the decimal count, which reads back as the entry's count. Its length is max(len(name), width) + len(str(count)) |
| Table.JustifyAll | src/run.py:106-108 | the rows printed after the header are the entries justified one by one, in ranked order |
| Table.ConsoleLines | src/run.py:102-108 | the console table has one header line plus one line per entry |
| Table.FileTextIsConsoleLines | src/run.py:77-85 | the file text is the console lines, in order, each followed by a newline |
| Table.FileSplitsIntoConsoleLines | src/run.py:81-85 | splitting the file at newlines gives the console lines and the empty remainder after the final newline. The file holds exactly one newline per line |
| Table.ColumnsAlign | src/run.py:106-121 | in every row the name comes first, and the count starts at the column width and reads back as the entry's count. The header's first column is `Name` padded with `_` to the column width, and the count label starts at that same column |
| Table.TwoPlayerTable | src/run.py:77-121 | `{Alice: 2, Bob: 1}` renders as `Name______No. of logins`, `Alice_____2`, `Bob_______1` |
| LoginCounter.Publish | src/run.py:181-183 | a non-empty ranked tally is printed. A missing output directory is announced and created. The file `output/output.txt` then receives the printed table lines, each followed by a newline |
| LoginCounter.CountLogins | src/run.py:150-183 | a missing data directory is created and the run stops with its message. An empty one stops the run with its message. Otherwise the file is written exactly when some login line was found, holding the ranked table. With no login line nothing is printed, created or written |
| LoginCounter.RankedTallyCountsLogins | src/run.py:164-178 | end to end, the ranked rows hold each player seen on a login line exactly once, with the number of its login lines. The largest count comes first and ties are in first-seen order |

## Left out

- File system side effects (`os.path.exists`, `os.mkdir`, `exit()`, `src/run.py:124-147` and `:156-162`) are not performed. Whether each directory exists is an input, and the directories the run would create and where it stops are part of the result.
- `os.listdir`, `open`, UTF-8 decoding, line iteration and `close` (`src/run.py:158`, `:168-175`) are I/O. The listing and each file's lines are inputs, in the order the system would give them. A line keeps whatever trailing newline Python's iteration leaves on it.
- A directory entry whose name ends in `.log` but which is not a readable file makes the script raise an error when it opens it. The model treats every entry as a file with lines. Read and decode errors are likewise not modelled.
- `print` and the file write (`src/run.py:89-92`, `:106-108`) are output plumbing. The model produces the printed lines and the written text instead.
- `str.split`, `in`, `endswith`, `ljust`, `rjust` and `str(int)` are restated only as far as the script uses them: a one-character separator, and non-negative integers.
- Table.FileSplitsIntoConsoleLines: assumes no player name holds a newline. A name comes from a middle field of a line, which Python's line iteration leaves free of newlines, but the model accepts any string as a line.
