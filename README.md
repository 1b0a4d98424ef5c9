# Release-file parsing of `systeminfo()`

`systeminfo()` in cloudmesh-common builds a flat information record about the
host: a dictionary of probed platform facts, to which it then adds the
`KEY=VALUE` pairs found in the files `/etc/*release`. This project models that
second step. Each release file's content is cut into lines at `"\n"`; a line
holding `=` is split at its first `=`; every space is removed from the part
before it, which becomes the key; the rest of the line, untrimmed and unquoted,
becomes the value; and the pair is written into the record, so a later line
overwrites an earlier one with the same key. The whole step sits in one
`try`/`except: pass`, so a file that cannot be read ends the step silently and
keeps everything written so far.

- `Wrappers.dfy`: the `Option` type.
- `Strings.dfy`: the Python string operations the loop uses — `split(c)`,
  `split(c, 1)` and `replace(" ", "")` — with their round-trip and filter
  properties.
- `ReleaseFiles.dfy`: the record (`map<string, string>`), the effect of one
  line (`ParseLine`, `ApplyLine`), of a sequence of lines (`ApplyLines`), the
  lines that get read from a sequence of file reads (`ReadLines`), the loop
  itself as the method `MergeReleaseFiles` with two nested `while` loops, and
  the lemmas about the outcome.

The probed base record is an arbitrary input map. The directory scan and the
file reads are an input `seq<Option<string>>` in the order the scan yields the
files: `Some(content)` for a read that returned `content`, `None` for one that
raised.

Although the step is sometimes described as skipped entirely
when a file is inaccessible, the code keeps the pairs from the files read
before the failure; the model follows the code (`ReadLinesStopsAtFailure`).

## Model

| member | source | states |
|---|---|---|
| `Strings.SplitFirst` | cloudmesh/common/systeminfo.py:45 | `line.split("=", 1)`: `None` exactly when there is no separator; otherwise the line is the first part, the separator and the second part, with no separator in the first part |
| `Strings.SplitFirstAt` | cloudmesh/common/systeminfo.py:45 | the cut is at the first separator: for any separator-free `before`, cutting `before + "=" + after` gives back `before` and `after`, even when `after` holds more separators |
| `Strings.Split` | cloudmesh/common/systeminfo.py:42 | `content.split("\n")`: at least one piece, no piece holds a newline, and joining the pieces with newlines gives back the content |
| `Strings.SplitJoin` | cloudmesh/common/systeminfo.py:42 | the converse round trip: splitting newline-joined newline-free lines gives back exactly those lines |
| `Strings.SplitKeepsAbsent` | cloudmesh/common/systeminfo.py:42-44 | a character absent from the content is absent from every line it splits into |
| `Strings.RemoveSpaces` | cloudmesh/common/systeminfo.py:46 | `attribute.replace(" ", "")`: no space remains and every other character keeps its number of occurrences |
| `Strings.RemoveSpacesAppend` | cloudmesh/common/systeminfo.py:46 | removal works piece by piece, so the kept characters keep their order |
| `Strings.RemoveSpacesNoSpace` | cloudmesh/common/systeminfo.py:46 | a key without spaces is kept as it is (removal is idempotent) |
| `ReleaseFiles.ParseLine` | cloudmesh/common/systeminfo.py:44-46 | a line yields an entry exactly when it holds `=`; the key then holds neither a space nor `=` |
| `ReleaseFiles.ParseLineOf` | cloudmesh/common/systeminfo.py:45-46 | the line `raw=value` with `=` absent from `raw` yields key `raw` without spaces and value `value` verbatim, including any further `=` |
| `ReleaseFiles.ApplyLineEffect` | cloudmesh/common/systeminfo.py:44-47 | a line without `=` leaves the record unchanged; `raw=value` sets exactly the one key, normalised, to `value` |
| `ReleaseFiles.LeadingEqualsIsEmptyKey` | cloudmesh/common/systeminfo.py:45-47 | a line starting with `=` stores the rest of the line under the empty key |
| `ReleaseFiles.MergeReleaseFiles` | cloudmesh/common/systeminfo.py:39-49 | the loop leaves the record equal to the base record with the lines read applied in file then line order, and its keys are the base keys plus the keys of those lines |
| `ReleaseFiles.ApplyLinesAppend` | cloudmesh/common/systeminfo.py:41-47 | handling lines `a` and then lines `b` is handling `a + b` |
| `ReleaseFiles.ApplyLinesKeys` | cloudmesh/common/systeminfo.py:43-47 | the final key set is the base keys plus the normalised key of every line with `=` |
| `ReleaseFiles.ApplyLinesLastWins` | cloudmesh/common/systeminfo.py:41-47 | among lines storing the same key, the last one's value is the one kept, whether or not the key was in the base record |
| `ReleaseFiles.ApplyLinesUntouched` | cloudmesh/common/systeminfo.py:47 | a key no line stores is present afterwards exactly when it was before, with the same value |
| `ReleaseFiles.ApplyLinesOverridesBase` | cloudmesh/common/systeminfo.py:47 | once a line stores a key, its final value does not depend on the base record |
| `ReleaseFiles.ApplyLinesWithoutEquals` | cloudmesh/common/systeminfo.py:44 | lines without `=` leave the record unchanged |
| `ReleaseFiles.ContentWithoutEqualsIsNoop` | cloudmesh/common/systeminfo.py:42-44 | a file whose content holds no `=`, the empty content among them, adds and changes nothing |
| `ReleaseFiles.ReadLinesExtend` | cloudmesh/common/systeminfo.py:41-43 | after files that all read well, one more file's lines come after theirs |
| `ReleaseFiles.ReadLinesStopsAtFailure` | cloudmesh/common/systeminfo.py:39-49 | a failing read ends the scan: no later file is read and the lines of the earlier files are all still applied |
| `ReleaseFiles.LastFileDecides` | cloudmesh/common/systeminfo.py:41-47 | for a key the last file read stores, the merged value is what that file's lines give, whatever the base record and earlier files held |
| `ReleaseFiles.ApplyLinesStep` | cloudmesh/common/systeminfo.py:43-47 | handling one more line applies that line to the record so far |
| `ReleaseFiles.ReadStep` | cloudmesh/common/systeminfo.py:41-43 | after a successful read of a file, its lines are applied to the record left by the files before it |
| `ReleaseFiles.ReadStopsAt` | cloudmesh/common/systeminfo.py:39-49 | when a file fails after earlier files were read, the lines read are exactly those of the earlier files |
| `ReleaseFiles.KeysOfSnoc` | cloudmesh/common/systeminfo.py:44-47 | the keys stored by lines are those of all but the last line plus the last line's key if it has one |
| `ReleaseFiles.ExamplePlainPair` | cloudmesh/common/systeminfo.py:44-47 | `NAME=Ubuntu` stores `Ubuntu` under `NAME` |
| `ReleaseFiles.ExampleSpaceInKey` | cloudmesh/common/systeminfo.py:44-47 | `VERSION ID=20.04` stores `20.04` under `VERSIONID` |
| `ReleaseFiles.RemoveSpacesVersionId` | cloudmesh/common/systeminfo.py:46 | removing spaces from `VERSION ID` gives `VERSIONID` |
| `ReleaseFiles.ExampleValueWithEquals` | cloudmesh/common/systeminfo.py:44-47 | `A=b=c` stores `b=c` under `A` |

## Left out

- The platform probes that fill the base record (cloudmesh/common/systeminfo.py:8-21) and the `USER` lookup (line 23): calls into `platform`, `sys` and `os.environ` whose results are opaque; the base record is an arbitrary input map.
- The `mac_version` / `win_version` normalisation (lines 26-37): it depends only on foreign return values, and `win_version` holds a tuple, not a string.
- The duplicate `'machine'` entry of the dictionary literal (lines 9 and 14): it only chooses which foreign value is kept.
- The directory scan `Path("/etc").glob("*release")` and `readfile`: filesystem I/O, given instead as the sequence of read outcomes in scan order; `readfile` itself is not part of this model, so whatever it does to line endings or encodings is folded into the content string or into `None`. A failure of the scan itself is modelled as a `None` at the point where it happens.
- Insertion order of the dictionary: the record is a `map`, so the order in which keys were first inserted, and the copy made by `dict(data)` on return, are not modelled.
- Quotes, escapes and comments of the os-release file format: the code does not treat them, and neither does the model.
