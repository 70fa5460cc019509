# ParseCore: a verified model of the artifact parser's core

ParseCore walks a file or a directory of forensic artifacts. It decides from a
1 KB sample whether each file is text. It picks a kind from the file's base
name: password database, shadow database, group database, sudoers rules, or
generic log. It turns the file's lines into a flat list of records and saves
them as JSON under a name derived from the base name.

This project models the pure core of that pipeline in Dafny:

- `strings.dfy` (module `Strings`): the Python string operations the parser
  uses, written out exactly. These are `split` on one character (with its
  inverse `join`), `strip` over Python's whitespace set, substring `in`, and
  one-character `replace`.
- `sampler.dfy` (module `Sampler`): `is_text_file` on the file's bytes. It
  uses the integer test `10 * nontext < n` on the first 1024 bytes.
- `kinds.dfy` (module `Kinds`): the ordered substring test that picks the kind.
- `records.dfy` (module `Records`): `parse_structured` as a method whose loop
  is proved against the specification function `Extract`. It also holds
  `parse_generic_log` and the line cleaning both of them share.
- `driver.dfy` (module `Driver`): the per-file pipeline of `parse_file`. It
  covers the base name, the output file name, and the outcome of one file.
- `options.dfy` (module `Options`): the `Option` type used for failed reads.

A file's contents are given in memory. The sampler gets the file's bytes; the
extractors get the file's already-decoded lines. `None` stands for a read that
raised an error.

The default threshold 0.90 makes the source compare `nontext / n` with the
double that `1 - 0.90` evaluates to, which is 900719925474099 / 2^53 (0.90
rounds to 8106479329266893 / 2^53, and the subtraction is exact).
`Sampler.ThresholdIsExact` proves that for every sample size from 1 to 1024
the integer test agrees with the exact comparison against that double. It
also proves that `nontext / n` is always more than 2^-56 away from it, which
is one unit in the last place of that double. So rounding the quotient cannot
change the verdict, and a non-text share of exactly one tenth is rejected.

## Model

| member | source | states |
|---|---|---|
| Strings.Split | ParseCore.py:32 | a line with k separators gives k + 1 fields, and no field contains the separator |
| Strings.JoinSplit | ParseCore.py:32 | joining the fields of a split with the separator gives back the original line |
| Strings.SplitJoin | ParseCore.py:32 | splitting the join of separator-free fields gives back exactly those fields, empty ones included |
| Strings.StripPadded | ParseCore.py:30 | `strip` returns the part of the line between leading and trailing whitespace, and that part has no whitespace at either end |
| Strings.StripEmptyIffBlank | ParseCore.py:30 | a line strips to the empty string exactly when it is all whitespace |
| Strings.StripIdempotent | ParseCore.py:30 | stripping a stripped line changes nothing |
| Strings.Strip | ParseCore.py:30 | definition of `str.strip()` as `lstrip` then `rstrip` over the `str.isspace` set; characterised by StripPadded, StripEmptyIffBlank and StripIdempotent |
| Strings.ContainsIff | ParseCore.py:60-66 | `sub in s` holds exactly when `sub` occurs at some position of `s` |
| Strings.Contains | ParseCore.py:60-66 | definition of Python's `sub in s` as a prefix match at some position; characterised by ContainsIff |
| Strings.Replace | ParseCore.py:74 | replacing one character keeps the length and changes exactly the positions that held that character |
| Sampler.IsTextByte | ParseCore.py:21 | definition of the text-byte set {7, 8, 9, 10, 12, 13, 27} plus 0x20 to 0xFF; see NonText |
| Sampler.NonText | ParseCore.py:21-22 | the collected bytes are all outside the text set, and each non-text byte value occurs as often as in the sample |
| Sampler.Chunk | ParseCore.py:18 | definition of `f.read(1024)` on the file's bytes: the first min(n, 1024) bytes of the file; see OnlyFirstKilobyteCounts |
| Sampler.IsTextChunk | ParseCore.py:19-23 | definition: the chunk is non-empty and 10 * nontext < n; see ThresholdIsExact and ExactlyOneTenthRejected |
| Sampler.IsTextFile | ParseCore.py:15-25 | definition: the file was read, its first 1024 bytes are non-empty, and 10 * nontext < n on them (through IsTextChunk); see EmptyOrUnreadableRejected, OnlyFirstKilobyteCounts, AllTextAccepted, ExactlyOneTenthRejected and ThresholdIsExact |
| Sampler.OnlyFirstKilobyteCounts | ParseCore.py:17-18 | bytes after the first 1024 never change the verdict |
| Sampler.EmptyOrUnreadableRejected | ParseCore.py:16-25 | an empty file and an unreadable file are both not text |
| Sampler.AllTextAccepted | ParseCore.py:19-23 | a non-empty sample of text bytes only is text |
| Sampler.ExactlyOneTenthRejected | ParseCore.py:23 | one non-text byte in ten is rejected, and one in eleven is accepted |
| Sampler.ThresholdIsExact | ParseCore.py:23 | for samples of 1 to 1024 bytes, `10 * nontext < n` agrees with comparing `nontext / n` against the double value of `1 - 0.90`, and the quotient is more than one unit in the last place away from it |
| Sampler.IsTextFileIsThresholdTest | ParseCore.py:18-23 | a file is text exactly when its first 1024 bytes are non-empty and their non-text share is below the double value of `1 - 0.90`, compared exactly |
| Kinds.Classify | ParseCore.py:59-67 | the chosen kind's keyword is in the name, and no keyword tried earlier is |
| Kinds.FirstMatchIsUnique | ParseCore.py:59-67 | any kind that satisfies the first-match rule for a name is the kind chosen |
| Kinds.PasswdWins | ParseCore.py:60-61 | a name containing "passwd" is a password database whatever else it contains |
| Kinds.ShadowBeatsGroupAndSudoers | ParseCore.py:62-63 | without "passwd", a name containing "shadow" is a shadow database even if it also contains "group" or "sudoers" |
| Kinds.GroupBeatsSudoers | ParseCore.py:64-65 | without "passwd" or "shadow", a name containing "group" is a group database even if it contains "sudoers" |
| Kinds.NoKeywordIsGenericLog | ParseCore.py:59-67 | a name with none of the four keywords takes the generic-log path |
| Kinds.ClassifyExamples | ParseCore.py:60-63 | "passwd_shadow" is a password database and "gshadow" a shadow database |
| Records.CleanLines | ParseCore.py:30 | cleaning never adds lines, and every cleaned line is non-empty |
| Records.CleanLinesStripped | ParseCore.py:30 | every cleaned line is already stripped |
| Records.CleanLinesAppend | ParseCore.py:30 | cleaning works line by line and keeps line order |
| Records.CleanLine | ParseCore.py:30 | one line cleans to nothing if it is all whitespace, and to its stripped text otherwise |
| Records.BlankLineDropped | ParseCore.py:30 | removing a whitespace-only line does not change the cleaned lines |
| Records.LineRecord | ParseCore.py:32-46 | definition of one pass of the if/elif chain on a cleaned line; characterised by LineRecordPresent, PasswdLine, ShadowLine, ShadowHashMarkers, GroupLine, GroupLineWithoutMembers and GroupTrailingColon |
| Records.Extract | ParseCore.py:31-47 | definition of the loop's result: the records of the lines in order; characterised by ExtractAppend, ExtractAtMostOnePerLine, ExtractMembership and SudoersKeepsEveryLine, and ParseStructured's loop is proved equal to it |
| Records.ParseStructured | ParseCore.py:27-47 | the loop's result is `Extract` of the cleaned lines |
| Records.ParseGenericLog | ParseCore.py:49-51 | one log record per cleaned line, holding that line, in input order |
| Records.ExtractAppend | ParseCore.py:31-47 | the records of two runs of lines are the first run's records followed by the second's |
| Records.ExtractAtMostOnePerLine | ParseCore.py:31-47 | there are never more records than lines |
| Records.ExtractMembership | ParseCore.py:31-47 | a record is in the result exactly when some line gives that record |
| Records.SudoersKeepsEveryLine | ParseCore.py:45-46 | for sudoers files every cleaned line is one rule, verbatim and in order |
| Records.LineRecordPresent | ParseCore.py:32-46 | a line gives a record exactly when it has at least the kind's minimum of colon fields (7, 2, 3, or any for sudoers) |
| Records.PasswdLine | ParseCore.py:33-37 | a password line of at least 7 fields gives user, uid, gid, description, home and shell from fields 0 and 2 to 6; field 1 and later fields are ignored |
| Records.ShadowLine | ParseCore.py:38-39 | a shadow line of at least 2 fields gives the user and a hash flag that is false exactly when field 1 is "*" or "!" |
| Records.ShadowHashMarkers | ParseCore.py:39 | "*" and "!" mean no hash, while "!!" and an empty field mean a hash |
| Records.GroupLine | ParseCore.py:40-44 | a group line with a fourth field gives the group, the gid and the comma-separated members of that field; later fields are ignored |
| Records.GroupLineWithoutMembers | ParseCore.py:40-44 | a group line of exactly three fields has no members |
| Records.GroupTrailingColon | ParseCore.py:43 | an empty fourth field gives one empty member, not none |
| Records.JoinFreeOf | ParseCore.py:43 | joining members that have no colon gives a field with no colon |
| Driver.Basename | ParseCore.py:58 | the base name is the suffix of the path after its last '/' and contains no '/' |
| Driver.OutputName | ParseCore.py:74 | definition of `name.replace(".", "_") + ".json"`; characterised by OutputNameShape, OutputNameOneDot and OutputNameCollision |
| Driver.OutputNameShape | ParseCore.py:74 | the output name is the base name with each '.' turned into '_', followed by ".json", so its only '.' is the suffix's |
| Driver.OutputNameOneDot | ParseCore.py:74 | the output name contains exactly one '.' |
| Driver.OutputNameCollision | ParseCore.py:74 | base names that differ only in '.' against '_' share an output file |
| Driver.FileRecords | ParseCore.py:75-78 | definition of the `if kind:` dispatch: Extract of the cleaned lines for a named kind, ParseGenericLog otherwise; see FileRecordsPerLine and ParseFile |
| Driver.FileRecordsPerLine | ParseCore.py:75-78 | for every kind there is at most one record per non-blank line, and blank lines never matter |
| Driver.ParseFile | ParseCore.py:57-84 | a file that fails the sampler is skipped, a failed read of its lines is an error, and otherwise the records of its kind are saved under the output name exactly when there are any |

## Left out

- Opening and reading files is not modelled. That covers the byte read of the sampler, reading with `errors="ignore"`, and universal-newline splitting. The model takes the bytes and the decoded lines as inputs, and `None` for a read that raised.
- `save_json` is not modelled: the JSON layout belongs to the standard library serializer. `ParseFile` returns the output file name and the records to write.
- `parse_path` and the command-line entry point are not modelled. That covers the existence check, `os.makedirs`, `os.getcwd`, `os.walk` and the argument count, which are file-system and console plumbing.
- The console notices are not modelled; `ParseFile`'s outcome says which notice would be printed.
- `os.path.join` of the output directory is not modelled: `ParseFile` returns the file name inside that directory.
- The `threshold` parameter of `is_text_file` is not modelled; the model uses only its default, 0.90, the one value the program passes.
- Sampler.IsTextFile: floating-point division is replaced by the exact integer test. `Sampler.ThresholdIsExact` shows the two agree for every sample size the sampler can see, and `Sampler.IsTextFileIsThresholdTest` states that agreement for `IsTextFile` itself.
- Records.ParseStructured: the per-file `try/except` is not modelled inside the extractor. A read that raises is the `lines == None` input of `Driver.ParseFile`, which then gives `Failed`.
- Driver.Basename: POSIX paths only ('/' is the only separator); Windows' '\\' separator and drive prefixes, which `ntpath.basename` also strips, are not modelled.
- Strings.StripPadded: the whitespace set is fixed to the characters for which Python's `str.isspace` is true, listed in `IsSpace`; no Unicode database is consulted.
