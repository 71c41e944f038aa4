# track-your-time: loading the configuration file

This project is a Dafny model of the core of `track-time.py`, a script for
logging time spent on projects and tasks. The script defines `Category`, a
project or task with a parent, a shortcut key, a name and a seconds count,
and `Tracker`, whose `load_config` reads a configuration file of `key: name`
lines into the dictionary `self.config`.

Each line is split on every `:`. The first field, stripped of surrounding
whitespace, is the key. The second field, stripped, is the value. Anything
after a second colon is dropped. `self.config` is set to a new empty
dictionary before the first line is read. At the first line whose key is
already stored, the method returns early and keeps what it has stored. A
line without a colon makes `splitted[1]` raise `IndexError`. That access is
outside the `try`, so the exception leaves the method, and the dictionary
keeps the entries stored before that line. The duplicate test comes before
the colon test, so a colon-less line that repeats an earlier key ends the
load as a duplicate.

The model has three modules:

- `PyStr` (`py_str.dfy`): Python's `str.strip()` and `str.split(sep)` as
  functions over code points. `Strip` is characterised as the unique trimmed
  string that sits in the input between two runs of whitespace. `Split` is
  related to its inverse `Join` in both directions.
- `ConfigLoad` (`config_load.dfy`): `ParseLine` takes one line apart.
  `LoadFrom`/`Load` is the reference definition of the loop. The outcome is
  `Ok`, `DuplicateAbort(key)` for the early return, or `MissingColon(i)` for
  the `IndexError` on line `i`. The lemmas state what the dictionary and the
  outcome are for every input.
- `TrackTime` (`track_time.dfy`): the classes. `Category` has a constructor
  whose `time` defaults to 0. `Tracker.LoadConfig` is the imperative loop
  over the lines. Its loop invariant ties the dictionary built so far to
  `LoadFrom`, so the method is proved equal to `Load`, and the dictionary it
  leaves holds exactly the lines it stored.

`load_config` stops at the first repeated key, and it creates no
`Category` objects: the configuration only fills the dictionary.

## Model

| member | source | states |
|---|---|---|
| PyStr.Strip | track-time.py:38-44 | the definition of `str.strip()`: leading whitespace removed, then trailing whitespace; characterised by StripSpec and StripCharacterization |
| PyStr.StripSpec | track-time.py:38-44 | the result of `strip()` has no whitespace at either end and occurs in the input with only whitespace on each side |
| PyStr.StripCharacterization | track-time.py:38-44 | `Strip(s) == r` exactly when `r` is trimmed and sits in `s` between whitespace (both directions) |
| PyStr.StripUnique | track-time.py:38-44 | stripping whitespace + trimmed text + whitespace gives back exactly the trimmed text |
| PyStr.StripIdempotent | track-time.py:38-44 | stripping twice gives the same result as stripping once |
| PyStr.TrimStartSpec | track-time.py:38-44 | the left half of `strip()`: the result is a suffix of the input, everything removed is whitespace, and the result does not start with whitespace |
| PyStr.TrimEndSpec | track-time.py:38-44 | the right half of `strip()`: the result is a prefix of the input, everything removed is whitespace, and the result does not end with whitespace |
| PyStr.Split | track-time.py:36 | `split(":")` always returns at least one field, so `splitted[0]` exists for every line |
| PyStr.SplitFields | track-time.py:36 | there are two or more fields exactly when the line contains the separator, and no field contains the separator |
| PyStr.SplitField | track-time.py:36 | a separator-free text followed by the separator becomes the first field, and the rest of the line is split on its own |
| PyStr.JoinSplit | track-time.py:36 | joining the fields of `split` with the separator gives back the original line |
| PyStr.SplitJoin | track-time.py:36 | splitting the join of separator-free fields gives back those fields |
| PyStr.IndexOf | track-time.py:36 | the position of the first separator, or the length when there is none |
| ConfigLoad.ParseLine | track-time.py:36-44 | the definition of one line's parts: split on `:`, key = strip of field 0, value = strip of field 1 when there is one; characterised by ParseLineFields |
| ConfigLoad.LoadFrom | track-time.py:35-44 | the definition of the loop from line `i`: `Ok` at the end, `DuplicateAbort` when the key is stored, tested before `MissingColon` when the line has no value, otherwise store and go on; characterised by LoadFromStops |
| ConfigLoad.LoadParsed | track-time.py:34-44 | the definition of the loop over lines already parsed, starting from a new empty dictionary; characterised by LoadStops, LoadOkIff and LoadKeepsFirst |
| ConfigLoad.Load | track-time.py:34-44 | the definition of a whole load: the loop over the parsed lines from a new empty dictionary; characterised by LoadStops, HoldsUnique and LoadOkIff |
| ConfigLoad.ParseAll | track-time.py:35-36 | one parsed line per line of the file |
| ConfigLoad.ParseAllAt | track-time.py:35-36 | the parts of line `i` are those of the `i`-th line of the file, in file order |
| ConfigLoad.ParseLineFields | track-time.py:36-44 | the key is the stripped text before the first colon; a value exists exactly when the line has a colon; the value is the stripped text between the first and second colon (or the end of the line) |
| ConfigLoad.ParseFields | track-time.py:36-44 | for `f0:f1` followed by nothing or by another colon, the key is `strip(f0)` and the value `strip(f1)`, so text after a second colon is dropped |
| ConfigLoad.ParseNoColon | track-time.py:36-44 | a line without a colon has no value, so `splitted[1]` does not exist |
| ConfigLoad.LoadFromStops | track-time.py:35-44 | from any loop state whose dictionary holds exactly the lines before it, the load stops at the first bad line, holding exactly the lines before it, with the matching outcome |
| ConfigLoad.LoadStops | track-time.py:34-44 | with `n` stored entries, the dictionary holds exactly the first `n` lines (each line's own key and value, no repeated key); `Ok` exactly when `n` is the number of lines; otherwise line `n` stopped the load, as `DuplicateAbort` of its key if that key is stored and as `MissingColon(n)` with no value if not |
| ConfigLoad.StopLineIsBad | track-time.py:39-44 | the line where a load stops early either has no colon or repeats an earlier key |
| ConfigLoad.LoadOkIff | track-time.py:35-44 | a load completes exactly when every line has a colon and no key repeats; the dictionary then has one entry per line and its keys are the lines' keys |
| ConfigLoad.LoadKeepsFirst | track-time.py:39-44 | every stored key maps to the value of the first line with that key |
| ConfigLoad.DuplicateKeepsEarlierValue | track-time.py:39-41 | at a repeated key the load stops at the line right after the stored ones, and the earlier value for that key is not overwritten |
| ConfigLoad.ColonlessLineFails | track-time.py:36-44 | a colon-less line that the loop reaches with a new key ends the load with `MissingColon` at that line, and exactly the lines before it are stored |
| ConfigLoad.LoadIgnoresLater | track-time.py:39-44 | after an early stop, lines appended to the file change nothing: no later line is read |
| ConfigLoad.AbortKeepsPrefix | track-time.py:34-41 | after an early stop, the dictionary is exactly what a successful load of the lines before the stopping line gives |
| ConfigLoad.HoldsUnique | track-time.py:34-44 | two dictionaries that each hold exactly the same first `n` lines are equal |
| ConfigLoad.BlankLineParse | track-time.py:36-44 | a blank line `"\n"` has the empty key and no value |
| ConfigLoad.BlankLineAborts | track-time.py:34-44 | a file of one blank line fails at line 0 with an empty dictionary |
| ConfigLoad.LoadLinesStored | track-time.py:34-44 | in terms of the raw lines: every stored line has a colon and stored its own parsed key and value |
| ConfigLoad.LoadLinesStop | track-time.py:35-44 | in terms of the raw lines: `Ok` exactly when every line was stored; `MissingColon` names the first unstored line, which has no colon; `DuplicateAbort` carries that line's key |
| ConfigLoad.KeyValueLine | track-time.py:36-44 | a line `k: v` with a line break, for any trimmed colon-free `k` and `v`, has key `k` and value `v` |
| ConfigLoad.KeyOnlyLine | track-time.py:36-44 | a line holding only a trimmed colon-free key `k` and a line break has key `k` and no value |
| ConfigLoad.ParseAllParts | track-time.py:35-36 | lines whose parsed parts are `ps` parse to exactly `ps` |
| ConfigLoad.LoadFromParts | track-time.py:35-44 | a load depends on the lines only through their parsed parts |
| ConfigLoad.ExampleFileParts | track-time.py:35-44 | the four text lines `a: va`, `b: vb`, `a`, `c: vc` parse to their keys and values, the third with no value, and loading the text gives the same result as loading these parts |
| ConfigLoad.DuplicateExample | track-time.py:34-44 | for any trimmed colon-free keys and values with `a` different from `b`, the text file `a: va`, `b: vb`, `a`, `c: vc` ends with `DuplicateAbort(a)` and the dictionary `{a: va, b: vb}`: the repeat is reported before the missing colon, `a` keeps its first value, and the fourth line is not read |
| TrackTime.Category.constructor | track-time.py:12-21 | the four arguments are stored unchanged, and `time` is 0 when omitted |
| TrackTime.Tracker.constructor | track-time.py:25-27 | a new tracker's dictionary is empty (see Left out for the missing attribute) |
| TrackTime.Tracker.LoadConfig | track-time.py:29-44 | the dictionary is replaced by a new empty one, then filled line by line; the final dictionary and outcome are those of `Load(lines)` whatever the dictionary held before, and the dictionary holds exactly the lines stored, each under its own key |

## Left out

- Opening and reading the file (track-time.py:33,35): the model takes the lines as `readlines()` returns them, with their line breaks. The file handle that is never closed is not modelled.
- Errors from `open` or from decoding the file are not modelled. Only the `IndexError` at line 44 is.
- The `print` calls (track-time.py:38,40,48) have no effect on state. The bare `except` (track-time.py:42) would also swallow an exception raised by the `print` at line 38 or at line 40; on the line-40 path line 44 would overwrite the repeated key and the loop would go on. Neither path is modelled.
- The module-level script (track-time.py:46-48) that builds a tracker and loads `prueba.rc`.
- `Tracker.categories` (track-time.py:27) is initialised and never used.
- TrackTime.Tracker.constructor: in Python the tracker has no `config` attribute until the first `load_config`; the model starts with an empty dictionary.
- PyStr.IsWhitespace is the whitespace set of Python 3's `str.isspace()`. Run under Python 2, `strip()` on byte strings removes only ASCII whitespace.
