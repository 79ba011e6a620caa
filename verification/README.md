# postgres-helper migration engine, modelled in Dafny

This project models the core of `postgres-helper`, a command-line tool that applies
ordered, reversible database migrations. Migrations are files in one directory.
A history table in the database records which ones have run, in order.

The model covers four parts:

- **The reconciler** (`reconciler.dfy`, module `Reconciler`). `diff` walks the applied
  history and the discovered files in lockstep. It returns the files not yet applied, or
  throws at the first index where the two disagree. `pluck` maps each history row that
  `down` will undo to its file. It throws when a row has no file.
- **The executor** (`executor.dfy`, module `Executor`). `up`, `down` and `status` open a
  connection through a pluggable driver (`connect`, `setup`, `loop`, `end`). They choose
  what to run from the history that `setup` returns. `up` and `down` hand that list to
  `loop`. All three call `end` in a `finally` block once `connect` has returned a client.
  - The driver is a parameter (`Driver`). It says whether `connect` returns a client,
    whether `setup` throws, which position of the list given to `loop` throws, and
    whether `end` throws.
  - The store (`Store`) holds the history table and the list of driver calls made. This
    lets the contracts say which list reached `loop` and that `end` ran exactly once.
  - `loop` commits each item together with its history write, in order, and stops at the
    first item that throws. The model assumes this of the driver, whose code is not modelled.
- **The name allocator of `new`** (`naming.dfy`, module `Naming`). It computes the next
  zero-padded counter prefix, or the Unix time in seconds when a clock reading is passed
  in. It then replaces whitespace runs with hyphens and adds `.js`/`.mjs` unless the name
  already ends in an extension.
- **Shared definitions** (`migration.dfy`, `wrappers.dfy`). These hold the entities
  (`MigrationFile`, `Record`, `Direction`), the error variants, and `Result`/`Option`.

The model follows the code. Three behaviours worth knowing:

- `pluck` restarts each search at the target's own index (`j=i`), not at the position
  after the previous match. So a file before index `i` is never found for target `i`. Matches also
  need not move forward: a later target can match at a lower index than an earlier one.
  `Reconciler.PluckNeverLooksBefore` and `Reconciler.PluckRestartsAtTargetIndex` show
  both effects.
- `diff` only looks at indices below the number of discovered files. A history longer
  than the disk listing, whose first entries match, gives an empty pending list, not an
  error.
- The four driver functions are never checked for presence in `ley.js`. The check in
  `lib/util.js` (`isDriver`) is not called, so the model has no such error.

## Model

| member | source | states |
|---|---|---|
| `Reconciler.DiffFrom` | lib/util.js:14-21 | One loop step from index `i`. It succeeds iff the remaining common indices agree by name. The value is the files past the end of the history. A failure names the first mismatch at or after `i`. |
| `Reconciler.Diff` | lib/util.js:12-23 | Succeeds iff history and files agree by name on every index both have. It then returns exactly `nexts[min(|prevs|,|nexts|)..]` in disk order, which is empty when the history is at least as long. Otherwise it throws at the first disagreeing index, naming that file and that history row. |
| `Reconciler.DiffIgnoresExtraHistory` | lib/util.js:14-16 | Rows at indices `>= |nexts|` are never examined. Extending such a history changes neither the result nor the error. |
| `Reconciler.DiffOfAppliedPrefix` | lib/util.js:12-23 | When the history is exactly the first `n` files, the pending list is the remaining files in order. |
| `Reconciler.DiffCatchUp` | lib/util.js:12-23 | Recording the pending list after the history leaves nothing pending. |
| `Reconciler.FindFrom` | lib/util.js:29-35 | The inner scan returns the first index `>= j` holding the name. It returns none exactly when no index `>= j` holds it. |
| `Reconciler.PluckFrom` | lib/util.js:27-37 | One step of the outer loop from target `i`. It succeeds iff every target has a file of its name at its own index or later. A failure names the first target without one. |
| `Reconciler.Pluck` | lib/util.js:25-39 | Returns one file per target, in target order, with equal names. Entry `k` is the first file named like target `k` in `nexts[k..]`. It throws, with no partial list, naming the first target that has none. Empty targets give `[]`. |
| `Reconciler.PluckAligned` | lib/util.js:27-34 | When the targets name the candidates position by position, `pluck` returns that prefix of the candidates. |
| `Reconciler.PluckNeverLooksBefore` | lib/util.js:29 | History `[a, b]` against files `[b, a]` fails on `b`, because index 0 is not searched for target 1. |
| `Reconciler.PluckRestartsAtTargetIndex` | lib/util.js:29-33 | Targets `[x, y, z]` against files `[x, w, z, y]` succeed. `z` is found at index 2 after `y` was found at index 3. |
| `Executor.Execute` | ley.js:86-164 | If `connect` throws, nothing else is called. Otherwise the calls are `connect`, `setup`, at most one `loop`, then `end` exactly once, last. This holds whatever `setup`, the reconciler or `loop` did. A throwing `end` replaces the result. The history changes only through `loop`. |
| `Executor.StatusReportsPending` | ley.js:153-164 | `status` never calls `loop` and leaves the history alone. On an aligned history it returns the names past the history. Otherwise it throws the first mismatch. |
| `Executor.StatusIdempotent` | ley.js:158-160 | Two `status` calls with nothing run in between give the same answer. |
| `Executor.UpNothingPending` | ley.js:95-96 | With nothing pending, `up` returns `[]` without calling `loop`. |
| `Executor.UpRefusesMismatch` | ley.js:95 | A misaligned history makes `up` throw the first mismatch, before `loop` and with the history untouched. |
| `Executor.UpRunsPending` | ley.js:98-100 | `loop` receives exactly `[pending[0]]` with `single`, otherwise all pending files. Items before a failing one stay recorded. Success returns exactly the names run, in order. |
| `Executor.UpThenStatusCaughtUp` | ley.js:95-100 | After a successful full `up`, `status` reports nothing pending. |
| `Executor.DownNothingApplied` | ley.js:124-125 | With an empty history, `down` returns `[]` without calling `loop`. |
| `Executor.DownUnknownNewest` | ley.js:127-132 | If no file carries the newest applied name, `down` throws the unknown-migration error for it, before `loop` and with the history untouched. |
| `Executor.NewestFileNamed` | ley.js:128-131 | `findIndex` on the reversed listing finds the newest file with the name. |
| `Executor.DownSingle` | ley.js:130-135 | Without `all`, `loop` receives exactly one file. It is the newest discovered file named like the newest applied row. |
| `Executor.DownAllAligned` | ley.js:127-135 | With `all`, on an aligned history of distinctly named files, `loop` receives the applied files newest first. |
| `Executor.DownAllRefusesMissingFile` | ley.js:127-135 | With `all`, if any applied row has no file, `down` throws an unknown-migration or missing-file error before `loop`, with the history untouched. |
| `Executor.Without` | ley.js:135 | The delete committed by a `down` unit removes every row carrying one of the names. Every other row survives, and no row is invented. |
| `Executor.WithoutConcat` | ley.js:135 | The delete works row by row, so the surviving rows keep their order. |
| `Executor.DownOneRemovesNewest` | ley.js:130-136 | Undoing a newest row whose name appears once removes exactly that row and returns its name. |
| `Executor.UpSingleThenDown` | ley.js:98-136 | `up --single` followed by `down` restores the history. |
| `Naming.LeadingDigits` | ley.js:174-175 | The match of `/^\d+/` is the longest prefix of ASCII digits. |
| `Naming.DecimalString` | ley.js:176 | `String(n)` is all digits, reads back as `n`, and has no leading zero. |
| `Naming.PadStart` | ley.js:176 | `padStart(length, "0")` only adds zeros in front, up to `length`. It never truncates. |
| `Naming.NextPrefix` | ley.js:169-180 | A numbered last name gives a numeral worth one more, of length `max(length, |String(n+1)|)`. Otherwise the result is `length` zeros, or a range error for a negative length. |
| `Naming.LeadingDigitsOf` | ley.js:174-175 | A numeral followed by a non-digit reads back as exactly that numeral. |
| `Naming.ToInt32` | ley.js:171 | `x \| 0` yields a signed 32-bit value congruent to `x` modulo 2^32. |
| `Naming.TimestampPrefix` | ley.js:171 | The intended timestamp prefix is a numeral whose value is the whole seconds of the clock reading. |
| `Naming.TimestampAgreesBefore2038` | ley.js:171 | Before 2^31 seconds, the expression as written gives the intended prefix. |
| `Naming.TimestampWrapsFrom2038` | ley.js:171 | For the 2^31 seconds from 2^31 on, the expression as written yields a prefix starting with `-` that has no leading number. |
| `Naming.Sanitize` | ley.js:182 | `replace(/\s+/g, "-")` leaves no whitespace and never lengthens the name. |
| `Naming.SkipSpacesSuffix` | ley.js:182 | Skipping a whitespace run leaves a suffix. The suffix is empty exactly when the name is all whitespace. |
| `Naming.SanitizeKeepsClean` | ley.js:182 | A name without whitespace is unchanged. |
| `Naming.SanitizeRun` | ley.js:182 | A non-empty whitespace run becomes exactly one hyphen. |
| `Naming.SanitizeConcat` | ley.js:182 | Sanitising distributes over a cut that is not inside a whitespace run. With the two rows above, this fixes the function. |
| `Naming.WithExtension` | ley.js:183 | The result always ends in `.` plus word characters and starts with the name. It equals the name iff the name already had an extension. Otherwise it is the name followed by `.mjs` under `esm` and `.js` without it. |
| `Naming.WithExtensionIdempotent` | ley.js:183 | Adding the default extension a second time changes nothing. |
| `Naming.NewFilename` | ley.js:169-183 | In both branches the file name is exactly `prefix + "-" + sanitised name`. `.mjs` under `esm` or `.js` otherwise is appended exactly when that has no extension. The prefix is the clock's seconds (by the corrected timestamp prefix) or the next counter, and the name reads it back as its leading number. It throws exactly when the counter prefix does. |
| `Naming.NewFilenameBefore2038` | ley.js:170-171 | Before 2^31 seconds, the timestamp branch reads back exactly the prefix that the expression as written produces. |
| `Naming.NewFilenameAdvances` | ley.js:173-176 | Given a numbered last file or a positive length: once the created file is the newest on disk, the next `new` gets a counter one higher. |
| `Naming.NewFilenameExample` | ley.js:169-183 | `new y` after `00005-x` with length 5 gives `00006-y.js`. |

## Left out

- Discovery (`glob` in `lib/util.js`) is not modelled. It walks the file system and sorts with the locale-aware numeric `localeCompare`. The discovered migrations are an input sequence, already ordered.
- The postgres driver under `lib/clients` is not part of this model. It does the SQL, transactions and network I/O. Its calls are the `Driver` parameter. The model assumes each `loop` item commits together with its history write, in order, stopping at the first failure.
- `isDriver`, `exists`, `load` and `MigrationError` in `lib/util.js` are not modelled. They do dynamic `require`/`import`, runtime type checks and stack-trace rewriting. A failing migration is reported as `MigrationFailed(name)`.
- `init`, `getConfig`, `parse` and `typegen` in `ley.js` are not modelled. They do file creation, config loading and module loading. The code-generation hook in the `finally` blocks of `up` and `down` is also left out. Its errors are caught and logged, so it cannot change an outcome.
- The file writing of `new` is not modelled: `mkdir`, `writeFileSync` and the template text. The model computes the file name only.
- `lib/log.js` (coloured console output), `bin.js` (argument parsing), and `lib/index.js` with `src/index.ts` (config loading at module load) are not modelled. They are I/O and process glue.
- `Executor.Execute`: `connect` either returns a client or throws. A `connect` that resolves to a falsy value, which the `if (client)` guard would treat as no client, is not modelled.
- `Naming.NextPrefix`: numbers are unbounded integers. `parseInt` loses precision above 2^53, and `String` switches to exponent notation from 10^21; neither is modelled. A non-integer `--length` is also not modelled.
- `Naming.NewFilename`: the timestamp branch uses the corrected `Naming.TimestampPrefix`, not the 32-bit conversion of ley.js:171 (see Findings). From 2^31 seconds on, the program writes a prefix such as `-2147483648`, while the model reads back the positive numeral of the seconds. `Naming.NewFilenameBefore2038` states that both agree before that instant.
- `Naming.TimestampPrefix`: the division `Date.now() / 1e3` is a floating-point division. It is modelled as integer division of the non-negative millisecond reading, which the truncation in `| 0` makes equal for clock readings of realistic size.
- `Executor.RunLoop`: a `down` unit deletes every history row with the rolled-back name. A real driver's delete may remove only one row per name, while the model removes every row with the name.

## Findings

| source | as written | input that shows it | evidently intended | confidence | as-written member | corrected member |
|---|---|---|---|---|---|---|
| ley.js:171 | `(Date.now() / 1e3) \| 0` converts the seconds with ECMAScript ToInt32, which wraps at 2^31 | any clock reading from 2147483648000 ms on (03:14:08 UTC, 19 January 2038); the prefix becomes `-2147483648` | the Unix time in whole seconds as a plain numeral, so that new files keep sorting after older ones | medium, not executed | `Naming.TimestampWrapsFrom2038` (on `Naming.TimestampPrefixAsWritten`) | `Naming.TimestampPrefix` (used by `Naming.NewFilename`; agrees before 2038 by `Naming.TimestampAgreesBefore2038`) |
