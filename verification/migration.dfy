/** The entities the migration engine works on, and the errors it raises. */
module Migration {

  /** A migration discovered on disk: its file name (the identity) and its absolute path. */
  datatype MigrationFile = MigrationFile(name: string, path: string)

  /** A row of the history table: the name of an applied migration. */
  datatype Record = Record(name: string)

  /** Which unit of a migration file is run. */
  datatype Direction = Up | Down

  /** Every way an operation of the engine can throw. */
  datatype Error =
    | Mismatch(file: string, applied: string)   // diff: `Cannot run "file" after "applied" has been applied`
    | MissingFile(name: string)                 // pluck: `Cannot find "name" migration file`
    | UnknownMigration(name: string)            // down: `Unknown "name" migration`
    | ConnectFailed                             // driver.connect threw
    | SetupFailed                               // driver.setup threw
    | MigrationFailed(name: string)             // driver.loop threw on this migration
    | EndFailed                                 // driver.end threw
    | InvalidLength(length: int)                // "0".repeat(length) threw a RangeError

  /** The names of a list of files, in order (`toRun.map(x => x.name)`). */
  function Names(files: seq<MigrationFile>): (r: seq<string>)
    ensures |r| == |files|
    ensures forall k :: 0 <= k < |files| ==> r[k] == files[k].name
  {
    if |files| == 0 then [] else [files[0].name] + Names(files[1..])
  }

  /** The history rows the store writes for a list of files applied in order. */
  function Records(files: seq<MigrationFile>): (r: seq<Record>)
    ensures |r| == |files|
    ensures forall k :: 0 <= k < |files| ==> r[k].name == files[k].name
  {
    if |files| == 0 then [] else [Record(files[0].name)] + Records(files[1..])
  }

  /** In-place `Array.prototype.reverse`, as a value. */
  function Reverse<T>(s: seq<T>): (r: seq<T>)
    ensures |r| == |s|
    ensures forall k :: 0 <= k < |s| ==> r[k] == s[|s| - 1 - k]
  {
    seq(|s|, k requires 0 <= k < |s| => s[|s| - 1 - k])
  }

  /** No two files share a name: discovery reads one directory, so names are unique. */
  predicate DistinctNames(files: seq<MigrationFile>) {
    forall i, j :: 0 <= i < j < |files| ==> files[i].name != files[j].name
  }

  function Min(a: int, b: int): int {
    if a <= b then a else b
  }
}
