# The `.env` configuration manager of LockIn Fitness Desktop

The desktop app keeps its settings in a `.env` file next to its `config`
directory. The settings include the GitHub token, owner and repository used
for updates, the API URL, and the auto-update switch and interval. The
`EnvironmentManager` in `config/env.js` manages that file:

- It reads the file line by line into a plain JavaScript object. Blank lines
  and lines whose first character is `#` are skipped.
- For every other line, it takes the trimmed text before the first `=` as
  the key and the trimmed text between the first and second `=` as the
  value. The line counts only when both are non-empty.
- It warns when `GH_TOKEN` is missing or empty.
- It answers `get`.
- On `set`, it assigns the property and rewrites the whole file as
  `key=value` lines joined by line feeds.

The model is written in Dafny, in five files:

- `wrappers.dfy`: an `Option` type.
- `js_string.dfy`: the JavaScript built-ins the reader uses. These are
  `String.prototype.trim`, with ECMAScript's white-space and line-terminator
  set, `split` on one character, and `Array.prototype.join`.
- `js_object.dfy`: a plain object used as a dictionary. It covers:
  - what `obj[key]` reads: its own string property, an inherited
    `Object.prototype` member (truthy), or `undefined`;
  - what `obj[key] = value` does, including the ignored assignment to
    `__proto__`;
  - the order of Object.entries: array-index keys come first in ascending
    numeric order, then the other keys in creation order.
- `dotenv.dfy`: the file format as pure functions.
  - The reader is `ParseLine`, `ParseLines` and `Parse`.
  - The writer is `Serialize`.
  - Validation is `MissingVars` and `Warnings`.
  - It also holds the lemmas that relate them.
- `env_manager.dfy`: the `EnvironmentManager` class.
  - The configuration is a field.
  - `LoadEnv` is a method whose loop goes over the lines and is proved equal
    to `Parse`.
  - `Set` is a method that updates the field.
  - `ValidateConfig`, `Get` and `SaveEnv` are functions of the field.

File access is not modelled:

- What reading the file yields is a parameter of the constructor and of
  `LoadEnv`. `None` means the read threw.
- What saving writes is the result of `Set`.
- The warnings printed are returned as strings.

`preload.js` exposes `saveOfflineData` and `onSyncComplete` to the web
frontend. However, `main.js` registers no handler for `save-offline-data`
and never sends `sync-complete`, so the desktop side has no offline storage
or synchronisation logic to model. The configuration manager is the part of
the app with behaviour worth stating.

## Model

| member | source | states |
|---|---|---|
| `JsString.Trim` | config/env.js:25-26 | The result has no white space at either end, is no longer than the input, and is empty exactly when the line is all white space (including `\r`). |
| `JsString.TrimPadding` | config/env.js:26 | Trimming white space around an already-trimmed middle gives exactly that middle. Together with `Trim`'s contract, this pins trim down on every input. |
| `JsString.TrimOfTrimmed` | config/env.js:26 | Trimming a trimmed string changes nothing. |
| `JsString.TrimStartSuffix` | config/env.js:25-26 | `trim`'s left half drops exactly the leading white space. The result is a suffix, preceded only by white space, and does not start with white space. |
| `JsString.TrimEndPrefix` | config/env.js:25-26 | `trim`'s right half drops exactly the trailing white space. |
| `JsString.Split` | config/env.js:20 | Splitting at a separator always gives at least one piece, and no piece holds the separator. |
| `JsString.JoinSplit` | config/env.js:20 | Joining the pieces of a split with the separator gives back the text, so no character is lost. |
| `JsString.JoinEnds` | config/env.js:82 | `Array.prototype.join`, as `JsString.Join`: the result starts with the first part, followed by the separator when there are more parts, and ends with the last part. |
| `JsString.SplitJoin` | config/env.js:80-82 | Splitting joined separator-free parts at the separator gives back exactly those parts. |
| `JsString.SplitPrefix` | config/env.js:26 | A separator-free text followed by the separator becomes the first piece, and splitting goes on from there. |
| `JsObject.Empty` | config/env.js:8 | `{}` is a well-formed object with no own keys. |
| `JsObject.Lookup` | config/env.js:69-71 | `obj[key]`, which `EnvManager.EnvironmentManager.Get` applies to the current configuration. Reading a key gives a string exactly when it is an own property, namely its value. It gives an inherited member exactly for the `Object.prototype` names that are not own properties. Otherwise it gives `undefined`. |
| `JsObject.InsertKey` | config/env.js:28 | A new key goes in at a single position, and the old keys keep their relative order. The result is in property order and holds the old keys plus the new one. A non-index key goes last, and so does an index key that no existing key would follow. |
| `JsObject.Put` | config/env.js:28 | After an assignment the object is still well formed, and the key reads as the new value. Every other key reads as before. `__proto__` changes nothing. An existing key keeps its place. A new key goes in at a single position, the other keys keeping their order, and a new non-index key is appended. |
| `DotEnv.ParseLine` | config/env.js:25-29 | A line that is blank, starts with `#` or has no `=` gives no entry. Any entry has a non-empty, trimmed, `=`-free key and value, and the line did not start with `#`. A line without a line feed yields none in the entry. |
| `DotEnv.ParseLineOneEquals` | config/env.js:26-27 | A line with one `=` gives the trimmed text on either side exactly when both are non-empty, and nothing otherwise. |
| `DotEnv.ParseLineTwoEquals` | config/env.js:26-27 | In a line with a second `=`, everything from that `=` on is ignored. The entry is the one the first two pieces give. |
| `DotEnv.ParseLineFields` | config/env.js:26-28 | A one-`=` line whose sides trim to the non-empty key and value gives that entry. |
| `DotEnv.ParseEntryLine` | config/env.js:81 | A `key=value` line as saveEnv writes it reads back as that entry. |
| `DotEnv.ParseCrlfLine` | config/env.js:20-26 | The `\r` that a CRLF file leaves at the end of a line is trimmed away, so the entry is the same as with LF endings. |
| `DotEnv.IndentedHashIsNotComment` | config/env.js:25 | `#` is a comment only in column 0. An indented `#KEY=v` line is loaded, and its key keeps the `#`. |
| `DotEnv.SecondEqualsTruncates` | config/env.js:26 | `A=b=c` gives `A` the value `b`. |
| `DotEnv.InlineCommentIsKept` | config/env.js:53 | A `KEY=value # comment` line, like the template's `UPDATE_INTERVAL` line, keeps ` # comment` as part of the value. |
| `DotEnv.Step` | config/env.js:25-29 | Processing one line keeps the object well formed. |
| `DotEnv.ParseLines` | config/env.js:22-31 | Reading the lines, starting from `{}`, gives a well-formed object. |
| `DotEnv.Parse` | config/env.js:19-31 | The configuration read from any text is a well-formed object. |
| `DotEnv.LastWins` | config/env.js:24-29 | When a key is defined on several lines, the last defining line decides its value. |
| `DotEnv.NeverDefined` | config/env.js:22-29 | A key that no line defines is not an own property after a reload, whatever the old configuration held. It reads as it does on `{}`. |
| `DotEnv.ParsedClean` | config/env.js:20-29 | Every loaded key and value is non-empty and trimmed, and contains neither `=` nor a line feed. |
| `DotEnv.ReadEmptyText` | config/env.js:19-22 | An empty file loads as `{}`. |
| `DotEnv.ReadOneLine` | config/env.js:20-29 | A text without line feeds loads as what its single line gives on `{}`. |
| `DotEnv.Serialize` | config/env.js:80-82 | The entries mapped to `key=value` lines (`DotEnv.EntryLines`) and joined by line feeds. The saved text is empty exactly when the object has no own properties. |
| `DotEnv.SerializeLines` | config/env.js:80-82 | If no key or value contains a line feed, the saved text splits back into exactly one `key=value` line per property, in Object.entries order, with no trailing empty line. |
| `DotEnv.WriteThenRead` | config/env.js:78-83 | Saving a configuration and loading the text gives back the same object, key order included. This holds when keys and values are clean and no key starts with `#`. |
| `DotEnv.ReadWriteRead` | config/env.js:19-31 | Load, save and load again changes nothing, provided no loaded key starts with `#`. |
| `DotEnv.IndentedHashLoaded` | config/env.js:25-28 | A one-line file ` #KEY=value` loads as the single entry `#KEY=value`. |
| `DotEnv.IndentedHashLostOnReread` | config/env.js:25 | The condition of `ReadWriteRead` is needed. An indented `#` key is saved without its indentation and then skipped as a comment on the next load. |
| `DotEnv.SetSurvivesReload` | config/env.js:73-76 | After `set` with a clean entry on a clean configuration, the saved file loads back as exactly the new configuration, and the new value is read back. |
| `DotEnv.MissingVars` | config/env.js:60-61 | This is `filter`. The result is a subsequence of the required names, so their order is kept. Each name occurs as often as in the list when its value is missing or empty, and not at all otherwise. So a name is reported exactly when it is required and falsy. |
| `DotEnv.Warnings` | config/env.js:63-66 | Warnings appear exactly when `GH_TOKEN` is missing or empty. There are then two of them, and the first names `GH_TOKEN`. |
| `EnvManager.EnvironmentManager.constructor` | config/env.js:6-10 | A new manager holds the configuration read from the file, or `{}` when reading throws. |
| `EnvManager.EnvironmentManager.LoadEnv` | config/env.js:12-37 | If the file can be read, the configuration becomes exactly what its text parses to and the warnings are those of validation. If reading throws, the configuration is unchanged and nothing is warned. |
| `EnvManager.EnvironmentManager.ValidateConfig` | config/env.js:59-67 | Validation warns exactly when `get("GH_TOKEN")` is falsy. |
| `EnvManager.EnvironmentManager.SaveEnv` | config/env.js:78-83 | The text written is empty exactly when the configuration is. A configuration with clean entries whose keys do not start with `#` loads back from it unchanged. |
| `EnvManager.EnvironmentManager.Set` | config/env.js:73-76 | After `set(key, value)`, `get(key)` returns `value`, except for `__proto__`, which changes nothing. Every other key reads as before, and the text written is the serialisation of the new configuration. |

## Left out

- The `.env` path and file system calls are not modelled: `existsSync`, `readFileSync` and `writeFileSync`. What is read is a parameter and what is written is a result.
- `createEnvTemplate` is not modelled. A missing file is modelled as the text that is read after the template is written. The template text itself is not part of the model, beyond its inline-comment line (`DotEnv.InlineCommentIsKept`).
- Console output is not modelled. The warnings of `validateConfig` are returned as strings, and the logging in the two `catch` blocks is dropped.
- A failing write in `saveEnv` only logs, so it has no visible effect on the configuration here.
- The constructor's `module.exports` singleton is not modelled.
- JavaScript strings are sequences of UTF-16 code units, but the model uses Dafny characters, which are Unicode scalar values. Lone surrogates therefore cannot be expressed.
- `EnvManager.EnvironmentManager.Set`: values are strings. The source accepts any JavaScript value and converts it to text only when saving.
- `JsObject.Lookup`: an inherited `Object.prototype` member is modelled only by its name and its truthiness, not as the actual function or object.
- Object.entries does not list keys in pure insertion order. Array-index keys such as `"12"` come first, in numeric order, and the model follows that.
- `main.js`, `preload.js`, `build.js`, `test-update.js` and `scripts/prepare-release.js` are the app shell, the update flow and the build tooling, and are not part of this model. `main.js` and `test-update.js` read the configuration only through `get`, and `test-env.js` uses `get` and `set`. `preload.js`, `build.js` and `scripts/prepare-release.js` do not use it.
- The offline-data channel is not modelled. `preload.js` forwards `save-offline-data` and listens for `sync-complete`, but `main.js` handles neither, so there is no behaviour behind it.
