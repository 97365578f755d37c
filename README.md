# composer-helper, modelled in Dafny

`ComposerHelper` is a thin PHP facade over Composer's console application.
It finds a project's `composer.json` below a base path, reads that file and
`vendor/composer/installed.json` (checking that each exists, is readable, is
not empty and decodes to a non-empty PHP array, that is a JSON object or
list), answers queries about the
manifest (`require`, `require-dev`, both merged, the vendor and bin
directories, where a binary lives), and runs `composer outdated` in-process
while a capture buffer, `ArrayOutput`, collects what the application writes.
Only the last chunk written is decoded, and its `installed` member is the
answer.

The model has six modules:

- `Php`: the PHP runtime behaviour the helper relies on. It covers the value
  `json_decode($s, true)` produces (arrays as ordered key/value entries),
  truthiness, the `??` lookup, `array_merge` (string keys overwrite in place,
  integer keys are renumbered and appended), `array_pop`, `rtrim` and the
  `0 === stripos(...)` prefix test.
- `Exceptions`: the messages of `FileNotFoundException` and
  `EmptyFileException`, and the `Error` datatype for what a call throws.
  The payloads are `FileNotFound`, `EmptyFile`, `Runtime` (a
  `RuntimeException` carrying `json_last_error_msg()`) and `TypeError`.
  Because the source declares `strict_types=1`, a value that breaks a
  declared return or argument type throws PHP's own TypeError.
- `Files`: the file system as a value. It holds contents by path, the
  directories and the readable paths, and gives `file_exists`,
  `is_readable`, `is_dir` and `file_get_contents` over them.
- `Output`: the `ArrayOutput` class, whose `store` field is appended to by
  `DoWrite` and drained by `GetStore`.
- `Helper`: the `ComposerHelper` class. Its immutable fields are the base
  path and the two default paths. Its functions take the file system and
  the JSON decoder (`decode: string -> Decoded`, left uninterpreted) as
  parameters. The module also holds `getOutdated`'s post-processing of the
  drained buffer.
- `Wrappers`: `Option` and `Result`.

Behaviour a reader might not expect, all of it proved:
- `getAllInstalled` reads below the default vendor path. It does not use a
  `vendor-dir` override.
- Contents `"0"` count as an empty file, not just `""`.
- A decoded value that is falsy (`{}`, `[]`, `null`, `0`, `false`) is
  rejected as a runtime error even though it is valid JSON.
- The "vendor/bin folder is missing" errors cannot be raised. They need a
  falsy config, and a successful read never returns one.

## Model

| member | source | states |
|---|---|---|
| `Php.RTrim` | src/ComposerHelper.php:57 | the result is a prefix of the input, does not end in the mask character, and everything cut off was that character |
| `Php.RTrimIdempotent` | src/ComposerHelper.php:57 | trimming an already trimmed base path changes nothing |
| `Php.Lookup` | src/ComposerHelper.php:85 | `$v[$key] ?? ...` yields a non-null member stored under the key in an array, yields the member whenever keys are unique, and never yields anything for a scalar |
| `Php.Find` | src/ComposerHelper.php:85 | the index found is the first entry under the key; none is found exactly when no entry has the key |
| `Php.ArrayMergeStringKeys` | src/ComposerHelper.php:111-114 | for unique string keys, `array_merge(a, b)` equals `a` with `b`'s values on shared keys, followed by `b`'s entries whose keys `a` lacks, in `b`'s order |
| `Php.ArrayMergeEntries` | src/ComposerHelper.php:111-114 | for unique string keys the merge has unique keys, and its key set is the union of the two key sets. Every entry of `b` is kept, as is every entry of `a` whose key `b` lacks, and nothing else. The first keys are `a`'s, in order |
| `Php.ArrayMergeLists` | src/ComposerHelper.php:111-114 | merging integer-keyed arrays renumbers them: entry i of the result is key i with the i-th value of `a` followed by `b` |
| `Php.PutAllOverride` | src/ComposerHelper.php:111-114 | merging unique string-keyed entries one by one into an array with unique keys overwrites shared keys in place and appends the others in order |
| `Php.ArrayPop` | src/ComposerHelper.php:154 | popping an empty array gives null; otherwise it gives the last element, and what is left plus that element is the input |
| `Exceptions.FileNotFoundMessage` | src/Exceptions/FileNotFoundException.php:21-23 | the message always starts with "File not found."; it is exactly that sentence iff the detail is falsy ("" or "0"); otherwise a space and the detail follow |
| `Exceptions.FileNotFoundDetailRoundTrip` | src/Exceptions/FileNotFoundException.php:23 | reading the detail back from the message gives the detail when it is truthy and "" when it is falsy |
| `Exceptions.FileNotFoundDropsZero` | src/Exceptions/FileNotFoundException.php:21-23 | the detail "0" is dropped, giving the same "File not found." as the omitted (default "") detail |
| `Exceptions.FileNotFoundMessageInjective` | src/Exceptions/FileNotFoundException.php:23 | two truthy details with equal messages are equal |
| `Exceptions.EmptyFileMessage` | src/Exceptions/EmptyFileException.php:21-23 | the message is "File ", then the path verbatim, then " is empty."; its length is the path's plus 15 |
| `Exceptions.EmptyFilePathRoundTrip` | src/Exceptions/EmptyFileException.php:23 | the path is read back unchanged from the message |
| `Exceptions.EmptyFileOfEmptyPath` | src/Exceptions/EmptyFileException.php:23 | the empty path has no special case: "File  is empty." with two spaces |
| `Output.ArrayOutput.constructor` | src/Output/ArrayOutput.php:19 | a fresh buffer is empty |
| `Output.ArrayOutput.DoWrite` | src/Output/ArrayOutput.php:39-42 | exactly one entry, the message, is appended at the end; earlier entries stay; the newline flag leaves no trace |
| `Output.ArrayOutput.GetStore` | src/Output/ArrayOutput.php:24-31 | returns the entries written since creation or the last drain, in order, and leaves the buffer empty |
| `Output.WriteAll` | src/Output/ArrayOutput.php:39-42 | n writes append the n messages in order, so the length grows by n |
| `Output.CaptureTwice` | src/Output/ArrayOutput.php:24-31 | over a fresh buffer, a first drain returns exactly the writes in order and a second drain returns nothing |
| `Helper.CheckFileExisting` | src/ComposerHelper.php:257-264 | passes iff the file exists and is readable; otherwise a FileNotFound whose detail names the file |
| `Helper.GetFileContent` | src/ComposerHelper.php:232-249 | checks in a fixed order: a missing or unreadable file gives FileNotFound; readable falsy contents give EmptyFile naming the file. Next, a decode error or a falsy decoded value gives a RuntimeException carrying the decoder's message, or "No error" for a valid but falsy value, and a truthy non-array gives a TypeError. Only a non-empty array, the decoding of the contents, is returned |
| `Helper.ArrayOrEmpty` | src/ComposerHelper.php:85-86 | an absent member becomes [], an array member is returned, and anything else breaks the `array` return type |
| `Helper.PathOr` | src/ComposerHelper.php:186 | an absent override gives the default, a string override is returned verbatim, and anything else breaks the `string` return type |
| `Helper.LookupCommand` | src/ComposerHelper.php:216 | the command is `where` exactly when the OS name starts with "win" ignoring case, and `which` otherwise |
| `Helper.LookupCommandExamples` | src/ComposerHelper.php:216 | "WINNT" and "Windows" give `where`; "Darwin", "Linux" and "wi" give `which` |
| `Helper.OutdatedFromStore` | src/ComposerHelper.php:152-160 | an empty store fails (null passed to `json_decode`). Otherwise the result is the last chunk's `installed` member as an array, or [] when the member is absent or the chunk is not JSON |
| `Helper.GetOutdated` | src/ComposerHelper.php:141-161 | writing into a fresh capture buffer and draining it gives back the writes, and post-processing that store gives `OutdatedFromStore` of the writes |
| `Helper.OutdatedUsesLastChunk` | src/ComposerHelper.php:152-160 | chunks before the last never affect the result |
| `Helper.OutdatedOfOnePackage` | src/ComposerHelper.php:158-160 | a last chunk `{"installed": [p]}` gives the one-element list `[p]` |
| `Helper.NotReadableIsNotFolderMissing` | src/ComposerHelper.php:260-262 | the message checkFileExisting builds never equals either "folder is missing" message |
| `Helper.ComposerHelper.constructor` | src/ComposerHelper.php:57-61 | the base path is the argument minus every trailing '/'; the default vendor path is base + "/vendor" and the default bin path is that + "/bin" (field initialisers) |
| `Helper.ComposerHelper.Create` | src/ComposerHelper.php:52-62 | construction fails, with checkFileExisting's FileNotFound, exactly when base + "/composer.json" is missing or unreadable; otherwise it gives the paths above |
| `Helper.ComposerHelper.GetRequirements` | src/ComposerHelper.php:81-86 | a failed manifest read passes its error through. Otherwise the result is the `require` member when it is an array, [] when it is absent or null, and a TypeError for any other member |
| `Helper.ComposerHelper.GetDevRequirements` | src/ComposerHelper.php:94-99 | the same for `require-dev` |
| `Helper.ComposerHelper.GetAllInstalled` | src/ComposerHelper.php:123-128 | reads base + "/vendor/composer/installed.json", whatever the manifest says |
| `Helper.ComposerHelper.AllInstalledReadsDefaultPath` | src/ComposerHelper.php:125-127 | two file systems that agree on the default installed.json path give the same result, so a `vendor-dir` override never matters |
| `Helper.ComposerHelper.RequirementsMerge` | src/ComposerHelper.php:107-115 | getAllRequirements succeeds iff getRequirements and getDevRequirements both do, and is then `array_merge` of their results. On failure it raises the manifest's error, or a TypeError |
| `Helper.ComposerHelper.AllRequirementsDevWins` | src/ComposerHelper.php:111-114 | for unique string keys, the merged key set is the union and a key in `require-dev` takes the dev value. A key only in `require` keeps its value. `require` keys come first, in their order, then the dev-only keys in dev order |
| `Helper.ComposerHelper.GetVendorPath` | src/ComposerHelper.php:178-187 | a failed manifest read passes through unchanged. Otherwise the result is `config.vendor-dir` verbatim, or the default vendor path; the folder-missing branch is proved dead |
| `Helper.ComposerHelper.GetBinaryPath` | src/ComposerHelper.php:195-204 | the same for `config.bin-dir` and the default bin path |
| `Helper.ComposerHelper.FolderMissingNeverRaised` | src/ComposerHelper.php:182-184 | getVendorPath never raises "The vendor folder is missing." and getBinaryPath never raises "The bin folder is missing." |
| `Helper.ComposerHelper.GetBinary` | src/ComposerHelper.php:214-222 | a getBinaryPath failure passes through. When binaryPath/bin exists, that path is returned and the shell is not consulted. Otherwise the shell is asked with `where`/`which` followed by the binary name |

## Left out

- Running Composer's console application (`Composer\Console\Application`,
  `doRun`, `setAutoExit`, and `ArrayInput`'s reading of the argument array)
  is a foreign library. `GetOutdated` takes the application's writes as its
  input.
- `Helper.ComposerHelper.GetBinary`: the shell call `system(...)` is a
  subprocess. The model returns the command line it would run, not the
  output, and not the `false` that `system` can return.
- Real file I/O is replaced by the `FileSystem` value. Reading a directory
  yields "" (PHP gives "" or `false`, both falsy).
- `json_decode` is the parameter `decode`. Only its error and its value are
  used: the model does not parse JSON, and it does not coerce numeric object
  keys into integer keys.
- `Php.Lookup` looks up string keys only. Looking up a numeric string in a
  list, which PHP coerces to an index, is not modelled. The keys the helper
  uses are never numeric.
- `Php.Value` holds JSON numbers as `int` and `real`. Floating-point
  rounding is not modelled.
- `Php.StartsWithIgnoringCase` folds ASCII letters only. That matches PHP 8.2
  and later; older versions follow the locale.
- `longOperations` is left out. It saves and restores `memory_limit` and
  the time limit of the host process.
- The constructor's default argument (four directories above `src/`, which
  is the project root when the package is installed under
  `vendor/<vendor>/<package>`) depends on the host. The base path is always a
  parameter.
- The Symfony `Output::write` machinery in front of `doWrite` (verbosity
  filtering and formatting) belongs to a parent class that is not part of
  this model. `Output.WriteAll` stands for the application's sequence of
  writes.
- `getComposerConfigPath` and `getComposerConfig` are modelled as
  `GetComposerConfigPath` and `GetComposerConfig`, with no contract of their
  own. What they give is stated by `Create` and `GetFileContent`.
- `getAllRequirements` is modelled as `GetAllRequirements`. Its contract is
  stated by the lemmas `RequirementsMerge` and `AllRequirementsDevWins`.
