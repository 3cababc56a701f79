# rm_older: deleting files older than N days, modelled in Dafny

`rm_older.py` walks a directory tree and reports every file whose age is
strictly greater than `n` days. Age here means the local wall-clock time now
minus the local wall-clock time of the file's last modification. With
`--delete` it also removes each such file. It counts the files seen, the files
deleted and the bytes reclaimed, and at the end it prints the reclaimed space
in binary units (B, KiB, …, PiB) through `convert_size`.

The model has two modules:

- `SizeFormat` (`size_format.dfy`) models `convert_size`. The value is a real
  number and each step divides it exactly by 1024, so after k steps it is
  `size / 1024^k`. There are two loop methods:
  - `ConvertSizeAsWritten` uses the source's guard `index < len(suffixes)`.
  - `ConvertSize` uses the corrected guard `index < len(suffixes) - 1`.

  Each method is proved equal to a specification function (`ConvertAsWritten`
  and `Convert`). Both functions are defined through the order of magnitude
  `Log1024`, and the lemmas are stated about them.
- `Scan` (`scan.dfy`) models the `__main__` block. The file system is replaced
  by what the walk yields: one list of file records per directory. A record
  holds the file's size in bytes and its age in microseconds (the resolution
  of a Python `timedelta`). The age is the local wall-clock difference that
  rm_older.py:68 computes. `ScanTree` is the nested loop, with the three
  counters as real out-parameters. Two ghost out-parameters hold the files
  the source logs as old (`reported`) and the files it removes (`deleted`).
  `RmOlder` is the whole run: the directory check, the scan and the summary.

The unit table at rm_older.py:47 ends at PiB, but the guard at rm_older.py:49
lets the index go one past it, and the lookup at rm_older.py:52 then raises.
The model follows the code: `ConvertSizeAsWritten` returns `IndexError(6)`
there, and `RmOlder`, which formats the summary with it, ends in
`SummaryFailed` after the scan and its deletions. `ConvertSize` is the
corrected formatter (see Findings); wherever the run finishes, its reclaimed
space is the corrected rendering.

## Model

| member | source | states |
|---|---|---|
| `SizeFormat.ConvertSizeAsWritten` | rm_older.py:45-52 | The loop as written returns `ConvertAsWritten(size)`. For a size below 1024 the loop does not run and the result is the unchanged value with suffix "B". |
| `SizeFormat.AsWrittenLoopExit` | rm_older.py:48-51 | On loop exit the index is at most 6. If it is below 6, the value (the size divided by 1024^index) is below 1024, which is the negated guard. If it is 6, the value is still at least 1. |
| `SizeFormat.UnitForMagnitude` | rm_older.py:47-52 | For 1024^k ≤ size < 1024^(k+1) with k ≤ 5, both versions choose suffix `Suffixes[k]` and amount size/1024^k. |
| `SizeFormat.AsWrittenFailsIffHuge` | rm_older.py:47-52 | The lookup `suffixes[index]` fails exactly when size ≥ 1024^6, and the index is then 6 = len(suffixes). |
| `SizeFormat.AsWrittenFailsAtOneExbibyte` | rm_older.py:49-52 | The concrete input 1024^6 = 1152921504606846976 bytes makes the source's lookup raise IndexError at index 6. |
| `SizeFormat.ConvertSize` | rm_older.py:45-52 | The corrected loop, whose guard stops at the last unit, returns `Convert(size)`. A size below 1024 is returned unchanged in "B". |
| `SizeFormat.CorrectedAgreesWithAsWritten` | rm_older.py:45-52 | The source returns a rendering exactly when size < 1024^6, and that rendering is the corrected one. |
| `SizeFormat.ConvertInRange` | rm_older.py:47-52 | The corrected suffix is always in the table. Below 1024^5 bytes the amount is < 1024. From 1 byte on it is ≥ 1. Zero bytes render as (0, "B"). From 1024^5 bytes on the unit is "PiB". |
| `SizeFormat.ConvertRoundTrip` | rm_older.py:47-52 | Amount × 1024^(position of the suffix) gives back the original byte count. |
| `SizeFormat.UnitIndexOfSuffix` | rm_older.py:47 | Each suffix in the six-entry table is found at its own position, so a rendering names exactly one unit. |
| `SizeFormat.SampleSizes` | rm_older.py:45-52 | 0 → (0, B), 1023 → (1023, B), 1024 → (1, KiB), 1048576 → (1, MiB). |
| `SizeFormat.Log1024Brackets` | rm_older.py:49-51 | The number of loop steps an unbounded table would take satisfies 1024^k ≤ n < 1024^(k+1) (for n ≥ 1). |
| `SizeFormat.Log1024Unique` | rm_older.py:49-51 | Those brackets determine the step count uniquely. |
| `SizeFormat.Log1024AtLeast` | rm_older.py:49-51 | A size of at least 1024^k takes at least k steps. |
| `SizeFormat.Log1024Below` | rm_older.py:49-51 | A size below 1024^k (k ≥ 1) takes fewer than k steps. |
| `SizeFormat.ScaledStep` | rm_older.py:51 | `size /= 1024.0` turns size/1024^k into size/1024^(k+1). |
| `SizeFormat.ScaledAtLeastBase` | rm_older.py:49 | The guard `size >= 1024` on the scaled value holds exactly when the byte count is at least 1024^(k+1). |
| `SizeFormat.ScaledRange` | rm_older.py:49-51 | The scaled value is below 1024 under the next power and at least 1 from the current power on. |
| `Scan.ScanTree` | rm_older.py:56-75 | `filenum` is the number of files walked. `reported` is exactly the files with age > n days, in walk order. With delete on, `deleted` equals `reported`; with it off, `deleted` is empty and `removed` = `saved_space` = 0. `removed` = the number of deleted files, `saved_space` = the sum of their sizes, `removed` ≤ `filenum`, and `removed` = 0 implies `saved_space` = 0. |
| `Scan.RmOlder` | rm_older.py:39-81 | A root that is not a directory stops the run before any scanning and removes no file. Otherwise the run removes exactly the qualifying files when deletion is on (none when off), and it does so even when the summary then fails. The summary fails (`SummaryFailed` with the files found and deleted, as the IndexError from line 52 does after lines 78-79 were logged) exactly when the reclaimed total is at least 1024^6 bytes. Otherwise the run finishes with the number of files found, the number deleted and the reclaimed bytes rendered. |
| `Scan.QualifyingExactly` | rm_older.py:65-75 | A file is reported (and, with delete on, deleted) if and only if it was walked and its age is strictly greater than n days. |
| `Scan.StrictThreshold` | rm_older.py:69 | A file exactly n days old is not reported. One n days plus one second old is. |
| `Scan.QualifyingBounded` | rm_older.py:66-75 | At most as many files are reported as walked, and the reclaimed bytes never exceed the total size walked. |
| `Scan.QualifyingSnoc` | rm_older.py:66-75 | Visiting one more file adds it to the reported files exactly when it qualifies. |
| `Scan.TotalSizeSnoc` | rm_older.py:74 | `saved_space += getsize(file)` adds exactly that file's size. |
| `Scan.QualifyingConcat` | rm_older.py:63-75 | The files reported for a walk in two parts are those of the first part followed by those of the second, so the counters only grow. |
| `Scan.TotalSizeConcat` | rm_older.py:74 | The reclaimed bytes of two parts add up. |
| `Scan.QualifyingMultiset` | rm_older.py:63-75 | Counted with multiplicity, the reported files are exactly the qualifying files walked. |
| `Scan.TotalSizePermutation` | rm_older.py:74 | The summed size does not depend on the order of the files. |
| `Scan.CountersIgnoreOrder` | rm_older.py:63-75 | Two walks that visit the same files in different orders report the same files and give the same `removed` and `saved_space`. |
| `Scan.OneOldFileScenario` | rm_older.py:63-75 | One file 40 days old, n = 30, delete on: 1 found, 1 deleted, exactly its size reclaimed. |
| `Scan.EmptyTreeScenario` | rm_older.py:63-80 | An empty tree gives 0 found, 0 deleted and (0, "B") reclaimed. |

## Findings

| source | as written | input that shows it | evidently intended | confidence | as-written member | corrected member |
|---|---|---|---|---|---|---|
| rm_older.py:49-52 | The guard `index < len(suffixes)` lets `index` reach 6, and `suffixes[6]` raises IndexError. | `convert_size(1024**6)`, i.e. 1 EiB reclaimed | Stop at the last unit and report PiB with an unbounded amount, so every index the loop reaches is in the six-entry table | not executed; CPython also fails for some sizes just below 1024^6 that float rounding carries up to 1024^6, which the exact-division model does not | `SizeFormat.AsWrittenFailsAtOneExbibyte` | `SizeFormat.ConvertInRange` |

`SizeFormat.ConvertSizeAsWritten` and `SizeFormat.ConvertAsWritten` model the
code as written, and `Scan.RmOlder` uses them as the source does.
`SizeFormat.ConvertSize` and `SizeFormat.Convert` are the corrected version;
`SizeFormat.CorrectedAgreesWithAsWritten` shows the two agree wherever the
source returns, and `Scan.RmOlder` states its finished report through
`SizeFormat.Convert`.

## Left out

- Argument parsing (rm_older.py:7-13) is not modelled. The threshold `n`, the delete flag and the directory are parameters.
- Logging setup and every log call (rm_older.py:16-36, 60-81) are not modelled. This includes the whole-days text of the "Found … days old file" line. The ghost sequence `reported` stands for the files that line names.
- The `isdir` check and `exit()` (rm_older.py:39-42) are modelled only as the `NotADirectory` case of `Scan.Root`.
- `os.walk`, `datetime.now()`, `os.path.getmtime`, `os.path.getsize` and `os.remove` (rm_older.py:63-75) are file-system and clock I/O. They are replaced by a sequence of (age, size) records per directory. Each age is fixed in its record, although the source reads the clock again for every file. Across a daylight-saving change the local wall-clock difference the source takes differs from the real elapsed time; the record holds the source's difference. Deletion is the ghost sequence `deleted`.
- The walk order is an input. `Scan.CountersIgnoreOrder` shows that the counters do not depend on it.
- Per-file I/O errors (a file that vanishes or cannot be deleted) raise uncaught exceptions in the source and abort the run. The model has no such failures.
- Python's `timedelta(days=n)` raises OverflowError when |n| > 999999999. The model compares against n × 86400 × 10^6 microseconds for any integer n.
- `round(size, precision)` and `"{} {}".format` (rm_older.py:52) are not modelled. A rendering is the exact amount and the suffix, so the `precision` parameter has no counterpart.
- Floating-point division: the model divides exactly. CPython converts the integer to a float first, which rounds above 2^53 and overflows at or above 2^1024. For example, 1024^6 − 1 rounds up and also reaches index 6. From 2^1024 bytes on, the first `size /= 1024.0` (rm_older.py:51) raises OverflowError before the lookup at line 52 runs; the run still ends in an uncaught exception after lines 78-79, which `SummaryFailed` stands for.
