# Monika's human-like memory, modelled in Dafny

Monika is a small console assistant (`main.py`). Two classes make up its core.

- `HumanLikeMemory` keeps a dictionary of facts, mapping keys to values. It
  mirrors every fact into a folder as one `.txt` file per key. The file name
  is the key with every character other than a letter, a digit, `-`, `_` or
  `.` replaced by `_`. On start-up it rebuilds the dictionary from the folder.
  Each `.txt` name, with its `_`s read back as spaces, becomes a key. The
  file's content becomes its value: it is read in text mode, so `\r\n` and a
  lone `\r` become `\n`, and then stripped.
- `HumanLikeAI.handle` reads one line of input and replies. It strips the
  line, lowers it, and chooses a branch by the prefix: `learn <key>: <value>`,
  `recall <key>`, `update <key>: <value>`, or the exact word `facts`. Any
  other line gets a help text. A malformed `learn`, `recall` or `update` gets
  a usage hint.

The project has three modules:

- `Text` (`text.dfy`): the Python string operations the core relies on. These
  are `isalnum`, `isspace`, `lower`, `strip`, `startswith`, `endswith`,
  `split(sep, 1)` and single-character `replace`.
- `Memory` (`memory.dfy`): the store as a class `HumanLikeMemory`. Its fields
  are `facts` (the dictionary) and `folder` (the folder's contents, a map from
  file name to text). The filename mapping and the start-up `load` are pure
  functions, with lemmas about them.
- `Dispatcher` (`dispatcher.dfy`): `handle`. `Parse` is the pure reading of a
  line into a `Command`. `Outcome` relates a command to the reply and to the
  new facts and folder. `HumanLikeAI.Handle` is the imperative method, and
  its postcondition is exactly `Outcome(Parse(text), …)`.

The central results are the following.

- The file-name round trip `KeyOf(FileName(key)) == key` holds exactly when
  every character of the key is a letter, a digit, `-`, `.` or a space
  (`FileNameRoundTrip`).
- Different keys can share a file: `a/b` and `a:b` are both stored in
  `a_b.txt` and come back as `a b` (`FileNameCollision`).
- A value holding a carriage return does not read back as written
  (`CarriageReturnLost`).
- Call facts reloadable when every key survives the file-name round trip and
  every value is stripped and free of carriage returns. For reloadable facts,
  every `learn` and `update` keeps the folder an exact mirror of the facts
  (`LearnKeepsMirror`, `HandleKeepsMirror`). From a mirrored folder, `load`
  rebuilds exactly those facts in any directory order (`Restart`). This
  assumes file names are case-sensitive (see "Left out").

## Model

| member | source | states |
|---|---|---|
| Memory.SanitizeFilename | main.py:15-17 | the name has as many characters as the key; each kept character is alphanumeric or one of `-_.`; safe characters stay and every other one becomes `_` |
| Memory.SanitizeIdempotent | main.py:15-17 | a stand-alone property of the sanitizer: sanitizing a sanitized name changes nothing |
| Memory.Lookup | main.py:26 | `facts.get(key, …)`: the stored value of a known key, otherwise `I don't remember that yet.` (its contract is on `Recall`) |
| Memory.FileName | main.py:21 | the file `learn` writes for a key: the sanitized key followed by `.txt` (its properties are in `FileNameRoundTrip`) |
| Memory.KeyOf | main.py:39-40 | the key read back from a `.txt` name is the name without `.txt`, with every `_` turned into a space and every other character kept |
| Memory.FileNameRoundTrip | main.py:15-21 | the file `learn` writes ends in `.txt`; reading its name back gives the key if and only if every character of the key is alphanumeric, `-`, `.` or a space |
| Memory.FileNameCollision | main.py:15-21 | the keys `a/b` and `a:b` are written to the same file `a_b.txt`, which reloads under the key `a b` |
| Memory.ReadText | main.py:41-42 | what `f.read()` returns in text mode: `\r\n` and a lone `\r` become `\n`, and every other character is kept |
| Memory.ReadTextUnchanged | main.py:41-42 | text without a carriage return reads back exactly as written |
| Memory.ReadTextNoCarriageReturn | main.py:41-42 | no carriage return survives a read in text mode |
| Memory.CarriageReturnLost | main.py:22-23 | a value holding a carriage return, written by `learn`, does not read back as written |
| Memory.FileValue | main.py:41-42 | the value `load` keeps from a file: its contents read in text mode, then stripped |
| Memory.LoadFile | main.py:39-43 | one iteration of `load`: a `.txt` name sets its derived key to the file's value, and any other name changes nothing |
| Memory.Loaded | main.py:38-43 | the facts `load` builds: one iteration per name, from the first name of the listing to the last (its properties are in `LoadedKeys`, `LoadedLastWins` and `LoadedUntouched`) |
| Memory.LoadedStep | main.py:38-43 | loading a non-empty listing is loading its first name, then the rest |
| Memory.LoadedKeys | main.py:37-43 | after `load`, a key is present if and only if it was present before or some `.txt` name in the listing reads back to it |
| Memory.LoadedLastWins | main.py:37-43 | a key takes the stripped content of the last `.txt` file in the listing that reads back to it |
| Memory.LoadedUntouched | main.py:37-43 | a key that no `.txt` name reads back to keeps its earlier value |
| Memory.LoadedFirstWins | main.py:37-43 | a first `.txt` name that no later name shares its key with decides that key's value |
| Memory.LearnKeepsMirror | main.py:19-23 | writing a stripped value without carriage returns, under a key that survives the round trip, keeps the folder an exact mirror of the facts: one file per key, holding its value, and no other files |
| Memory.ListedKeysDistinct | main.py:37-40 | in a listing of a mirror folder, no two `.txt` names read back to the same key |
| Memory.RestartKeeps | main.py:37-43 | loading a mirror folder of reloadable facts recovers any one stored fact with its value |
| Memory.RestartKeepsAll | main.py:37-43 | loading a mirror folder of reloadable facts recovers every stored fact with its value |
| Memory.RestartAddsNothing | main.py:37-43 | a key that loading a mirror folder produces was stored |
| Memory.RestartAddsNone | main.py:37-43 | loading a mirror folder produces no key that was not stored |
| Memory.Restart | main.py:9-13 | a fresh memory over a folder that mirrors reloadable facts loads exactly those facts, whatever order the directory is listed in |
| Memory.HumanLikeMemory.constructor | main.py:9-13 | the new memory keeps the folder and holds what `load` reads from it, starting from no facts |
| Memory.HumanLikeMemory.Learn | main.py:19-23 | the key now maps to the value in the facts, and its sanitized `.txt` file holds the value; `Recall` of the key gives the value and every other key recalls as before |
| Memory.HumanLikeMemory.Recall | main.py:25-26 | the stored value of a known key, and `I don't remember that yet.` for an unknown one |
| Memory.HumanLikeMemory.Update | main.py:28-32 | the result is true exactly when the key was known; a known key is learned afresh, and an unknown key changes neither the facts nor the folder |
| Memory.HumanLikeMemory.AllFacts | main.py:34-35 | the result equals the facts at the time of the call |
| Memory.HumanLikeMemory.Load | main.py:37-43 | the facts become what `Loaded` builds from them over the listing, first name to last; the folder is unchanged |
| Text.Lower | main.py:51 | lowering keeps the length and lowers each character in place |
| Text.StartsWithSlice | main.py:51 | `s.startswith(p)` holds exactly when `p` is the slice of `s` of its own length |
| Text.TrimLeft | main.py:50 | the result is a suffix of the input, everything cut before it is whitespace, and it does not start with whitespace |
| Text.TrimRight | main.py:50 | the result is a prefix of the input, everything cut after it is whitespace, and it does not end with whitespace |
| Text.Strip | main.py:50 | the result has no whitespace at either end and is no longer than the input |
| Text.StripSlice | main.py:50 | `strip` returns a contiguous slice of its input, and only whitespace lies on either side of it |
| Text.StripKeepsAbsent | main.py:56 | a character absent from a string is absent from its stripped form |
| Text.StripLeadingSpace | main.py:50 | leading whitespace does not change the stripped line |
| Text.StripTrailingSpace | main.py:50 | trailing whitespace does not change the stripped line |
| Text.SplitFirst | main.py:54-55 | there is no split exactly when the separator is absent; otherwise the head holds no separator and head, separator and rest rebuild the input |
| Text.SplitFirstAt | main.py:54-55 | the split is unique: text without the separator, then the separator, then anything splits into exactly those two parts |
| Text.ReplaceChar | main.py:40 | the result keeps the length and replaces exactly the occurrences of one character by another |
| Dispatcher.Payload | main.py:54-56 | the `<key>: <value>` payload: split at the first space and then at the first colon after it, with both halves stripped; none when either separator is missing (the unpacking fails) |
| Dispatcher.Parse | main.py:50-82 | the command a line asks for. The line is stripped and lowered; the prefixes `learn`, `recall` and `update` are tried in that order, then the whole line against `facts`; any other line asks for help |
| Dispatcher.LearnedReply | main.py:58 | the reply `I've learned that <key> is <value>.` |
| Dispatcher.UpdatedReply | main.py:77 | the reply `I've updated <key> to <value>.` |
| Dispatcher.UnknownReply | main.py:79 | the reply `I don't know <key> yet. Teach me first.` |
| Dispatcher.Line | main.py:67 | the line `<key>: <value>`, used for the `recall` reply and for each fact listed by `facts` |
| Dispatcher.JoinLines | main.py:85 | `"\n".join(lines)`: the lines with a newline between each two |
| Dispatcher.Outcome | main.py:57-89 | the reply and store effect of each command: learning sets the key and writes its file; `recall` replies with the key and its value or the sentinel; `update` of a known key learns and of an unknown key changes nothing; `facts` lists every fact once or says none is known; a usage hint or the help text changes nothing |
| Dispatcher.Lines | main.py:85 | one `key: value` line per listed key, in the order of the listing |
| Dispatcher.DistinctCardinality | main.py:85 | a list of keys without repeats has as many entries as it has distinct keys |
| Dispatcher.FactsListing | main.py:82-87 | the `facts` reply has one line per stored fact, every fact appears with its value, and the reply is non-empty when the store is |
| Dispatcher.ListFacts | main.py:85 | builds an enumeration of all stored keys, each exactly once, together with their lines |
| Dispatcher.PayloadFields | main.py:54-56 | a parsed `<key>: <value>` payload has both halves stripped and a key without a colon |
| Dispatcher.RestNotBlank | main.py:64-65 | on a stripped line, the `recall` key after the first space is never empty |
| Dispatcher.ParsedFieldsTrimmed | main.py:49-81 | whatever `learn` and `update` store is stripped and its key has no colon; a `recall` key is stripped and non-empty |
| Dispatcher.NoColonNoPayload | main.py:53-60 | a line with no colon has no payload |
| Dispatcher.MissingSeparator | main.py:53-81 | a stripped line without a space never learns, recalls or updates; without a colon it never learns or updates (it gets the usage hint) |
| Dispatcher.KeywordShape | main.py:51 | a keyword written in any case contains no space and does not start with whitespace |
| Dispatcher.StripOfForm | main.py:50 | stripping `<keyword> <key>: <value>` drops at most the space before an empty value |
| Dispatcher.PayloadOfForm | main.py:54-56 | the payload of `<keyword> <key>: <value>` is exactly `(key, value)` for a stripped key without a colon and a stripped value |
| Dispatcher.LowerPrefix | main.py:51 | a line that begins with a keyword in any case has a lowered form that begins with the lowered keyword |
| Dispatcher.RecallFormParts | main.py:61-65 | `<keyword> <key>` strips to itself and splits at its first space into the keyword and the key |
| Dispatcher.ParseUpdateBranch | main.py:70-81 | a line whose lowered form starts with `update` takes the `update` branch, with or without a payload |
| Dispatcher.ParseRecallBranch | main.py:61-69 | a line whose lowered form starts with `recall` takes the `recall` branch, with or without a key |
| Dispatcher.ParseLearnForm | main.py:51-58 | `learn <key>: <value>`, with `learn` in any case, is read as learning the value under the key, for every stripped key without a colon and every stripped value |
| Dispatcher.ParseUpdateForm | main.py:70-77 | `update <key>: <value>`, with `update` in any case, is read as updating the key to the value |
| Dispatcher.ParseRecallForm | main.py:61-67 | `recall <key>`, with `recall` in any case, is read as recalling the stripped non-empty key |
| Dispatcher.ParseRecallAlone | main.py:61-69 | `recall` with nothing after it gets the recall usage hint |
| Dispatcher.ParseFactsExact | main.py:82 | a line lists the facts if and only if, stripped and lowered, it is exactly `facts` |
| Dispatcher.OutcomeKeepsMirror | main.py:49-89 | every command keeps the folder an exact mirror of reloadable facts when the value it writes is stripped and free of carriage returns and its key survives the round trip |
| Dispatcher.HandleKeepsMirror | main.py:49-89 | one handled line keeps the folder an exact mirror of reloadable facts, provided the key it writes survives the round trip and the value holds no carriage return, so a restart recovers the facts |
| Dispatcher.HumanLikeAI.constructor | main.py:46-47 | the dispatcher works on the memory it is given |
| Dispatcher.HumanLikeAI.Handle | main.py:49-89 | the reply and the new facts and folder are exactly those `Outcome` gives for the command parsed from the line: learn, recall, update (known or unknown key), facts (empty or not), each usage hint, and the help text |

## Left out

- File-system access is not modelled. The folder is a map from file name to
  content, and the directory listing is a parameter of `Load` and of the
  constructor. `os.makedirs`, `os.path.join` and the folder path are left out.
- Failing file operations are not modelled: an unwritable file, an unreadable
  file or a non-UTF-8 file. In `handle`, a write error inside `learn` would be
  caught by the broad `except Exception` and answered with the usage hint.
  The model assumes writes succeed.
- File names are assumed case-sensitive, as on Linux. On the default macOS
  and Windows file systems, `Color.txt` and `color.txt` are the same file, so
  the keys `Color` and `color` share one file and merge into one key on
  restart. `Mirrors`, `Restart` and `HandleKeepsMirror` do not hold there.
- Writing is modelled as storing the value unchanged, as text mode does on
  Linux. Windows writes each `\n` as `\r\n`, which reads back as `\n`, so a
  value without carriage returns reads back the same there too. Reading applies universal newlines
  (`ReadText`), and a value with a carriage return does not survive a
  restart. `Reloadable` therefore excludes such values.
- `os.listdir` also lists sub-directories. A directory named `x.txt` would
  make `load` fail. The model treats every listed name as a file.
- The `main` loop (console input, `print`, `asyncio`) is not modelled, and
  neither is logging. `handle` is modelled as a synchronous method.
- `isalnum`, `isspace`, `lower` and `strip` are modelled on ASCII only.
  Python applies them to all of Unicode. The keywords `learn`, `recall`,
  `update` and `facts` contain no letter that a non-ASCII character lowers
  to, so the branch chosen for an ASCII line is exact.
- Dictionary insertion order is not modelled. The `facts` reply lists the
  facts in some enumeration of the keys, each exactly once, rather than in
  insertion order.
- Dispatcher.ListFacts: its order is any enumeration of the keys,
  because Dafny maps have no insertion order.
- Memory.HumanLikeMemory.AllFacts: returns the map itself. Dafny maps are
  values, so a returned map is already an independent copy, as
  `self.facts.copy()` is.
- No lemma evaluates `Parse` on literal sample lines such as
  `learn color: blue`. The general forms `ParseLearnForm`, `ParseUpdateForm`,
  `ParseRecallForm` and `ParseRecallAlone` cover every such line.
