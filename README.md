# Configuration core of config.py, modelled in Dafny

`config.py` holds a small configuration facility with three parts:

- `parse_size` turns human-readable byte sizes ("10M", "2g", " 5 K ") into integers.
- `Config` is a `ConfigParser` with typed getters on top of it: `getByteSize`, `getUpper`, `getlist` and `getListOrFalse`.
- A reload mechanism swaps in a freshly parsed configuration. The process-wide slot `_config` is read through `get_config`. `FileChangeHandler.on_modified` keeps only modification events whose file name is `config.ini`, drops any event that comes within 5 seconds of the last accepted one, and replaces the slot with a newly loaded `Config`.

The project has five modules, one file each:

- `python.dfy` (`Python`): the Python values a getter can receive as a fallback (`PyValue`), Python truthiness, the exceptions the core raises (`ValueError`, `AttributeError`, and `LoadError` for whatever reading the file raises), and `Result`/`Option`.
- `text.dfy` (`Text`): the string operations the code relies on, each with its partner:
  - ASCII `str.upper`, proved idempotent;
  - `str.replace(' ', '')`, which commutes with upper-casing;
  - `str.split(',')` and `','.join`, proved inverse both ways;
  - `int()` and `str()`, with `int(str(n)) == n`.
- `size.dfy` (`SizeParser`): `parse_size`.
- `store.dfy` (`ConfigStore`): `Config` as an immutable map from (section, option) to raw text, the `ConfigParser.get` lookup with fallback, and the four getters.
- `reload.dfy` (`Reload`):
  - `os.path.split`'s tail (`BaseName`);
  - the per-event decision of `on_modified` (`Decide`) and its behaviour over whole event sequences;
  - the `_config` slot as class `Registry`, with `get_config`;
  - `create_config`;
  - `FileChangeHandler` as a class with a `lastEventTime` field and an `OnModified` method.

Time is an integer argument. `Config(filename)` becomes a loader argument of type `string -> Result<Config>`. It stands for reading and parsing the file as it is on disk at that moment, so each call may pass a different loader. `DebounceScenario` is a client method. It starts a registry and a handler, delivers two `config.ini` events 5 time units apart and then an event for another file, and asserts that only the first event reloads. It is a client of the model, not a model of any code in `config.py`.

The model follows the code wherever the code differs from what the names or annotations suggest:

- `getByteSize` with its default `fallback=0` raises AttributeError for a missing option, because `0` has no `.upper()`. It does not return 0. The row under "Findings" covers this.
- `getUpper` returns the stored text unchanged. No case folding happens.
- `getListOrFalse` is annotated `bool | list[str]`, but it returns `[]` for a missing or empty option and never returns `False`.
- `on_modified` stores the new `last_event_time` before it loads the file. A load that raises leaves the old configuration installed, but it still starts a new 5-second window. `OnModified` reports this as `ReloadFailed`. `AcceptedTimes` therefore counts accepted events, not successful loads.
- The first event is compared against `last_event_time = 0`. So an event at time t <= 5 is debounced even though no event was accepted before it.

## Model

| member | source | states |
|---|---|---|
| Text.Upper | config.py:13 | `s.upper()` keeps the length and maps every character by itself: ASCII a-z to A-Z, all else unchanged |
| Text.RemoveSpaces | config.py:13 | `replace(' ', '')` leaves no space in the text and never makes it longer; with `RemoveSpacesLength`, `RemoveSpacesAppend` and `RemoveSpacesNoSpace` the exact result is fixed (one-character texts, then concatenation) |
| Text.RemoveSpacesLength | config.py:13 | `replace(' ', '')` shortens the text by exactly its number of spaces |
| Text.RemoveSpacesAppend | config.py:13 | `replace(' ', '')` of a concatenation is the concatenation of the two results |
| Text.RemoveSpacesNoSpace | config.py:13 | text without spaces is left unchanged |
| Text.Normalize | config.py:13 | the normal form `size.upper().replace(' ', '')` holds no space and no lower-case ASCII letter |
| Text.NormalizeIdempotent | config.py:13 | upper-casing then removing spaces a second time changes nothing |
| Text.NormalizeIgnoresCase | config.py:13 | the normal form of a text equals the normal form of its upper-cased text |
| Text.NormalizeIgnoresSpace | config.py:13 | inserting a space anywhere does not change the normal form |
| Text.Split | config.py:39 | `str.split` always yields at least one piece (`''.split(',') == ['']`) |
| Text.JoinSplit | config.py:39 | joining the pieces of `v.split(',')` with ',' gives back `v` |
| Text.SplitShape | config.py:39 | `v.split(',')` has one more piece than `v` has commas, and no piece contains a comma |
| Text.SplitJoin | config.py:39 | splitting the join of one or more comma-free pieces returns exactly those pieces |
| Text.SplitUnique | config.py:39 | `v.split(',')` is the only non-empty list of comma-free pieces whose join is `v` |
| Text.ParseInt | config.py:21 | `int(s)` succeeds exactly when `s` is an optional sign followed by one or more decimal digits; `ParseIntSign`, `ParseIntLeadingZero` and `IntToStringRoundTrip` fix its value |
| Text.ParseIntSign | config.py:21 | `int('+' + d) == int(d)` and `int('-' + d) == -int(d)` for every non-empty digit string d |
| Text.DigitsValueLeadingZero | config.py:21 | a leading '0' does not change the value of a digit string |
| Text.ParseIntLeadingZero | config.py:21 | `int('0' + d) == int(d)` for every non-empty digit string d, so "007" is 7 |
| Text.IntToStringRoundTrip | config.py:21 | `int(str(n)) == n` for every integer n, negative ones included, without Python's 4300-digit conversion limit (see "Left out") |
| SizeParser.ParseNormal | config.py:14-21 | on normalized text, parsing succeeds exactly when the text is an integer optionally followed by one G, M or K; the only error is ValueError |
| SizeParser.ParseSize | config.py:12-21 | `parse_size` succeeds exactly when the upper-cased, space-free text is an integer with at most one trailing unit letter, and otherwise raises ValueError |
| SizeParser.ParseSizeOfUnit | config.py:14-21 | `parse_size(str(n) + u)` is n, n·1024, n·1024² or n·1024³ for u = "", "K", "M", "G", for every integer n of any length (Python limits this to 4300 digits, see "Left out") |
| SizeParser.ParseSizeNormalized | config.py:13 | `parse_size` gives the same result for a text and for its upper-cased, space-free form |
| SizeParser.ParseSizeIgnoresCase | config.py:13 | `parse_size(s.upper()) == parse_size(s)`, so "5m" and "5M" agree |
| SizeParser.ParseSizeIgnoresSpace | config.py:13 | a space inserted anywhere does not change the result of `parse_size` |
| SizeParser.ParseSizeAppendUnit | config.py:14-21 | appending K, M or G to a size whose normal form ends in a digit multiplies its value by 1024, 1024² or 1024³ |
| SizeParser.ParseSizeExamples | config.py:12-21 | "5m", " 5 M " and "5M" all parse to 5·1024² |
| SizeParser.ParseSizeMoreExamples | config.py:12-21 | "10M" is 10485760 |
| SizeParser.ParseSizeKiloExample | config.py:12-19 | "4k" is 4096 |
| SizeParser.ParseSizeNegativeExample | config.py:12-21 | "-3" is -3 |
| SizeParser.ParseSizeRejects | config.py:15-21 | "", "G", "5MB" and "1.5G" raise ValueError |
| ConfigStore.Get | config.py:30-42 | `ConfigParser.get(..., fallback=f)` gives the stored text of a present option and `f` itself for a missing section or option |
| ConfigStore.GetByteSize | config.py:29-30 | a present option gives `parse_size` of its text; a missing one gives `parse_size` of a str fallback, and AttributeError for any other fallback |
| ConfigStore.GetUpper | config.py:32-33 | a present option's text comes back unchanged; a missing option gives the fallback |
| ConfigStore.GetList | config.py:35-39 | a value of '' with `fallback_on_empty` gives the fallback itself; any other str value gives one more piece than it has commas, comma-free pieces that join back to it; a fallback that is not a str raises AttributeError |
| ConfigStore.GetListOrFalse | config.py:41-45 | never raises on stored text (interpolation errors are not modelled, see "Left out"); the result is [] exactly when the option is missing or empty; otherwise it is one more piece than the text has commas, comma-free pieces that join back to the stored text |
| ConfigStore.GetListIsSplit | config.py:35-39 | the pieces `getlist` returns are exactly `v.split(',')`, the only comma-free decomposition of `v` by `SplitUnique` |
| ConfigStore.GetByteSizeOfUnit | config.py:29-30 | a stored `str(n)` plus a unit letter reads back as n times that unit, whatever the fallback |
| ConfigStore.GetByteSizeMissingDefault | config.py:29-30 | with the default fallback a missing option raises AttributeError, while a fallback of "0" gives 0 |
| ConfigStore.GetByteSizeFixed | config.py:29-30 | corrected getter: same as `getByteSize` for present options and str fallbacks; a numeric fallback for a missing option is returned as the size |
| ConfigStore.GetByteSizeFixedMissingDefault | config.py:29-30 | with the corrected getter a missing option reads as the default 0, unlike the getter as written |
| ConfigStore.GetUpperKeepsCase | config.py:32-33 | a stored value holding a lower-case letter is not returned upper-cased |
| ConfigStore.GetListExamples | config.py:35-39 | "a,b,c" gives ["a","b","c"] |
| ConfigStore.GetListEmptyExamples | config.py:35-39 | "" gives ["x"] with fallback ["x"] and `fallback_on_empty`, and [""] without; a missing option with the default fallback [] raises AttributeError |
| ConfigStore.GetByteSizeExamples | config.py:29-30 | stored "10M" reads as 10485760 and "1G" as 1073741824 |
| Reload.BaseName | config.py:59 | the tail of `os.path.split` is never longer than the path; `BaseNameIsTail` characterises it |
| Reload.BaseNameIsTail | config.py:59 | the tail of `os.path.split` is a '/'-free suffix of the path, preceded by '/' unless it is the whole path |
| Reload.BaseNameOfJoin | config.py:59-60 | `dir + "/" + name` has tail `name` for every name without '/' |
| Reload.Decide | config.py:59-64 | an event is ignored as another file exactly when its tail is not config.ini, and accepted exactly when its tail is config.ini and it comes more than 5 after `last_event_time` |
| Reload.LastEventTime | config.py:54-66 | after any event sequence `last_event_time` is either its initial 0 or a time later than 5; `AcceptedTimesSpaced` shows it is the latest accepted time |
| Reload.AcceptedTimes | config.py:59-66 | at most one accepted time per event; `AcceptedTimesStep` and `AcceptedTimesSpaced` characterise them |
| Reload.AcceptedTimesStep | config.py:59-66 | one more event moves `last_event_time` to its time, and is recorded as accepted, exactly when its name is config.ini and it comes more than 5 after the last accepted one; otherwise both stay as they were |
| Reload.AcceptedTimesSpaced | config.py:54-66 | over any event sequence, accepted events are more than 5 apart and all later than 5, and `last_event_time` is the latest accepted time (0 before any) |
| Reload.OnlyConfigFileAccepted | config.py:59-61 | events whose file name is not config.ini are never accepted and leave `last_event_time` at 0 |
| Reload.TwoEvents | config.py:59-66 | of two events for a path whose file name is config.ini, when the first comes after time 5 (so it is accepted), the second is accepted exactly when it comes more than 5 after the first |
| Reload.CreateConfig | config.py:81-82 | `create_config(path)` is the configuration loaded from that path; the installed slot is not touched |
| Reload.Registry.constructor | config.py:72-73 | at start-up the slot holds the configuration loaded from config.ini |
| Reload.Registry.GetConfig | config.py:76-78 | `get_config` returns the configuration currently installed |
| Reload.FileChangeHandler.constructor | config.py:53-54 | a new handler starts with `last_event_time` 0 and no events seen |
| Reload.FileChangeHandler.OnModified | config.py:56-69 | a wrong file name or an event at most 5 after the last accepted one changes nothing; otherwise `last_event_time` becomes now and the slot is replaced by the fresh load, or kept when the load raises; the handler state stays the fold of its event history |

## Findings

| source | as written | input that shows it | evidently intended | confidence | as-written member | corrected member |
|---|---|---|---|---|---|---|
| config.py:29-30 | the default `fallback=0` is passed to `parse_size`, which calls `0.upper()` | `getByteSize(s, o)` for an option `o` missing from the file: AttributeError instead of 0 | a missing option reads as the fallback size 0 | medium, not executed | ConfigStore.GetByteSizeMissingDefault | ConfigStore.GetByteSizeFixedMissingDefault |

## Left out

- configparser itself is not modelled: INI syntax, `%(name)s` interpolation, lower-casing of option names, the DEFAULT section, and the `raw` and `vars` arguments of the getters. With the default `raw=False`, `ConfigParser.get` interpolates a present value and can raise: a stored `50%` raises InterpolationSyntaxError, and `%(x)s` with `x` undefined raises InterpolationMissingOptionError. This holds for every getter, and `getListOrFalse` always reads this way. The model's getters return the stored text as it is and cannot raise these errors. A `Config` is the finished (section, option) → text map. Loading is a loader argument that returns a `Config` or `LoadError`. `LoadError` stands for any exception `ConfigParser.read` raises: `ParsingError`, `DuplicateSectionError`, `DuplicateOptionError` or a decoding error. A missing file is not an error: `read` skips it, and the loader then returns an empty `Config`.
- `Config.write` (config.py:47-49), `config_file_exists` (config.py:93-94) and `download_template` (config.py:97-103) are file, OS and network I/O.
- `watch_config_change` (config.py:85-90) and the watchdog `Observer` thread are left out. Event delivery is modelled as sequential calls of `OnModified`. Concurrency between the observer thread and readers of `_config` is not modelled. A `Config` is a value, so installing it is a single assignment.
- `time.time()` is a float clock. The model takes time as an integer argument, and the log line on reload is dropped.
- Text.ParseInt: Python's `int()` also accepts underscores between digits, non-ASCII digits and surrounding whitespace other than spaces (tabs, newlines). The model accepts only an optional sign and ASCII digits, so it rejects texts such as "1_000" and "5\t" that Python accepts. In the other direction, Python 3.10.7 and later (the source needs 3.10 for the `bool | list[str]` annotation at config.py:41) refuse by default to convert text of more than 4300 digits, and the model accepts digit strings of any length.
- SizeParser.ParseSize: inherits both differences of `int()` above; for instance `parse_size('1' * 4301)` raises ValueError in Python, while the model returns a value.
- Text.IntToStringRoundTrip: Python's `str(n)` itself raises for an n of more than 4300 digits under the default limit; the round trip is proved for every integer. SizeParser.ParseSizeOfUnit carries the same caveat.
- Reload.BaseName: the model uses POSIX path rules (`posixpath.split`, splitting at the last '/'). On Windows, `os.path` is `ntpath`, which also splits at `\` and after a drive such as `C:`; there an event for `.\config.ini` reloads, while `Decide` treats it as another file.
- ConfigStore.GetList: `getlist` returns the fallback object itself, and the default `fallback=[]` is one list shared by all calls, so a caller that mutates the returned list changes later defaults. The model treats lists as values and does not capture this aliasing.
- Reload.Registry.constructor: its requires that config.ini loads rules out the case where the import-time `Config(_config_file_name)` at config.py:73 raises. The module import then fails and no `_config` exists; the model has no state for that.
- Text.Upper: `str.upper()` also maps non-ASCII letters ('ß' becomes "SS"). The model upper-cases ASCII letters only.
- Fallback values are the Python values in `PyValue`: None, bool, int, str and list of str. Other objects are not modelled.
- The exception raised by a failing reload propagates out of `on_modified` into the watchdog thread. The model returns it as `ReloadFailed` and does not model what the thread does with it.
