/**
 * The executor: `up`, `down` and `status` drive a pluggable database driver
 * (`connect`, `setup`, `loop`, `end`) through the migrations the reconciler
 * selects. The driver is a parameter saying how each of its calls behaves;
 * the store is the history table plus the list of driver calls made, so
 * that "which list reached `loop`" and "`end` ran exactly once" can be stated.
 */
module Executor {
  import opened Wrappers
  import opened Migration
  import opened Reconciler

  /** A call the executor makes on the driver. */
  datatype Call = Connect | Setup | Loop(items: seq<MigrationFile>, dir: Direction) | End

  /**
   * How the driver behaves in one invocation: whether `connect` hands back a
   * client, whether `setup` throws, the position in the list handed to
   * `loop` whose unit throws (if any), and whether `end` throws.
   */
  datatype Driver = Driver(connectOk: bool, setupOk: bool, failAt: Option<nat>, endOk: bool)

  /** The database as the driver sees it: the history table and the calls made so far. */
  datatype Store = Store(history: seq<Record>, calls: seq<Call>)

  /** What an operation returns or throws, and the store it leaves behind. */
  datatype Outcome = Outcome(result: Result<seq<string>, Error>, store: Store)

  /** The three database commands with their flags (`--single`, `--all`). */
  datatype Command = RunUp(single: bool) | RunDown(all: bool) | Status

  /** A driver none of whose calls throws. */
  predicate Healthy(drv: Driver) {
    drv.connectOk && drv.setupOk && drv.failAt.None? && drv.endOk
  }

  /** The calls contain no `loop`. */
  predicate NoLoop(calls: seq<Call>) {
    forall k :: 0 <= k < |calls| ==> !calls[k].Loop?
  }

  // ---------------------------------------------------------------------
  // The store side of `loop`
  // ---------------------------------------------------------------------

  /** The history without any row whose name is in `names` (the delete a `down` unit commits). */
  function Without(history: seq<Record>, names: seq<string>): (r: seq<Record>)
    ensures forall k :: 0 <= k < |r| ==> r[k].name !in names
    ensures |r| <= |history|
    ensures (forall k :: 0 <= k < |history| ==> history[k].name !in names) ==> r == history
    ensures forall k :: 0 <= k < |history| && history[k].name !in names ==> history[k] in r
    ensures forall x :: x in r ==> x in history
  {
    if |history| == 0 then []
    else if history[0].name in names then Without(history[1..], names)
    else [history[0]] + Without(history[1..], names)
  }

  /** Deleting by name works row by row: the surviving rows keep their order. */
  lemma {:induction false} WithoutConcat(a: seq<Record>, b: seq<Record>, names: seq<string>)
    ensures Without(a + b, names) == Without(a, names) + Without(b, names)
    decreases |a|
  {
    if |a| == 0 {
      assert a + b == b;
    } else {
      assert (a + b)[0] == a[0];
      assert (a + b)[1..] == a[1..] + b;
      WithoutConcat(a[1..], b, names);
    }
  }

  /** How many items commit before the failing one (all of them when none fails). */
  function Committed(n: nat, failAt: Option<nat>): (k: nat)
    ensures k <= n
    ensures k < n <==> failAt.Some? && failAt.value < n
  {
    if failAt.Some? && failAt.value < n then failAt.value else n
  }

  /**
   * `driver.loop(client, items, dir)`: each item's unit runs in its own
   * transaction together with its history write, in order; the first unit
   * that throws stops the loop, and the items before it stay committed.
   */
  function RunLoop(s: Store, items: seq<MigrationFile>, dir: Direction, drv: Driver): (o: Outcome)
    ensures o.store.calls == s.calls + [Loop(items, dir)]
    ensures var k := Committed(|items|, drv.failAt);
      o.store.history == (if dir == Up then s.history + Records(items[..k]) else Without(s.history, Names(items[..k])))
    ensures o.result.Success? <==> Committed(|items|, drv.failAt) == |items|
    ensures o.result.Success? ==> o.result.value == Names(items)
    ensures o.result.Failure? ==> o.result.error == MigrationFailed(items[Committed(|items|, drv.failAt)].name)
  {
    var k := Committed(|items|, drv.failAt);
    var done := items[..k];
    var history := match dir
      case Up => s.history + Records(done)
      case Down => Without(s.history, Names(done));
    var s' := Store(history, s.calls + [Loop(items, dir)]);
    if k < |items| then Outcome(Failure(MigrationFailed(items[k].name)), s')
    else Outcome(Success(Names(items)), s')
  }

  // ---------------------------------------------------------------------
  // The bodies of the three `try` blocks, after `connect` and `setup`
  // ---------------------------------------------------------------------

  /** `up`: run the pending migrations (only the first with `single`), oldest first. */
  function UpBody(single: bool, migrations: seq<MigrationFile>, s: Store, drv: Driver): Outcome {
    match Diff(s.history, migrations)
    case Failure(e) => Outcome(Failure(e), s)
    case Success(pending) =>
      if |pending| == 0 then Outcome(Success([]), s)
      else RunLoop(s, if single then [pending[0]] else pending, Up, drv)
  }

  /**
   * `down`: undo the newest applied migration (or, with `all`, every applied
   * one), newest first, after checking that the newest is still on disk.
   */
  function DownBody(all: bool, migrations: seq<MigrationFile>, s: Store, drv: Driver): Outcome {
    if |s.history| == 0 then Outcome(Success([]), s)
    else
      var newest := Reverse(s.history);
      var files := Reverse(migrations);
      var last := newest[0];
      match FindFrom(last.name, files, 0)
      case None => Outcome(Failure(UnknownMigration(last.name)), s)
      case Some(idx) =>
        match Pluck(if all then newest else [last], files[idx..])
        case Failure(e) => Outcome(Failure(e), s)
        case Success(toRun) => RunLoop(s, toRun, Down, drv)
  }

  /** `status`: the names of the pending migrations; nothing runs. */
  function StatusBody(migrations: seq<MigrationFile>, s: Store): Outcome {
    match Diff(s.history, migrations)
    case Failure(e) => Outcome(Failure(e), s)
    case Success(pending) => Outcome(Success(Names(pending)), s)
  }

  function Body(cmd: Command, migrations: seq<MigrationFile>, s: Store, drv: Driver): Outcome {
    match cmd
    case RunUp(single) => UpBody(single, migrations, s, drv)
    case RunDown(all) => DownBody(all, migrations, s, drv)
    case Status => StatusBody(migrations, s)
  }

  /** The body makes at most one `loop` call, and nothing else on the driver. */
  lemma BodyCalls(cmd: Command, migrations: seq<MigrationFile>, s: Store, drv: Driver)
    ensures var o := Body(cmd, migrations, s, drv);
      || o.store.calls == s.calls
      || (|o.store.calls| == |s.calls| + 1 && o.store.calls == s.calls + [o.store.calls[|s.calls|]]
          && o.store.calls[|s.calls|].Loop?)
    ensures var o := Body(cmd, migrations, s, drv);
      o.store.calls == s.calls ==> o.store.history == s.history
  {
  }

  /** The `finally` block: the client is ended; an `end` that throws replaces the outcome. */
  function Finally(o: Outcome, drv: Driver): Outcome {
    var s := Store(o.store.history, o.store.calls + [End]);
    if drv.endOk then Outcome(o.result, s) else Outcome(Failure(EndFailed), s)
  }

  /**
   * One invocation of `up`, `down` or `status` against a database whose
   * history table holds `history`. `end` runs exactly once, as the last
   * call, whenever `connect` returned a client, whatever `setup`, the
   * reconciler or `loop` did; when `connect` throws nothing else is called.
   * `loop` runs at most once, and the history changes only through it.
   */
  function Execute(cmd: Command, migrations: seq<MigrationFile>, history: seq<Record>, drv: Driver): (o: Outcome)
    ensures !drv.connectOk ==> o == Outcome(Failure(ConnectFailed), Store(history, [Connect]))
    ensures drv.connectOk ==>
      && 3 <= |o.store.calls| <= 4
      && o.store.calls[0] == Connect && o.store.calls[1] == Setup
      && o.store.calls[|o.store.calls| - 1] == End
      && (forall k :: 0 <= k < |o.store.calls| - 1 ==> !o.store.calls[k].End?)
      && (|o.store.calls| == 4 ==> o.store.calls[2].Loop?)
    ensures drv.connectOk && !drv.setupOk ==> o.store.calls == [Connect, Setup, End]
    ensures NoLoop(o.store.calls) ==> o.store.history == history
    ensures drv.connectOk && !drv.endOk ==> o.result == Failure(EndFailed)
    ensures o.result.Success? ==> drv.connectOk && drv.setupOk && drv.endOk
  {
    if !drv.connectOk then
      Outcome(Failure(ConnectFailed), Store(history, [Connect]))
    else
      var s := Store(history, [Connect, Setup]);
      var inner := if drv.setupOk then Body(cmd, migrations, s, drv) else Outcome(Failure(SetupFailed), s);
      BodyCalls(cmd, migrations, s, drv);
      var c := inner.store.calls;
      assert c == [Connect, Setup] || (|c| == 3 && c == [Connect, Setup, c[2]] && c[2].Loop?);
      Finally(inner, drv)
  }

  // ---------------------------------------------------------------------
  // status
  // ---------------------------------------------------------------------

  /**
   * `status` reports the names of the migrations past the applied history
   * when the history is aligned with the disk, throws the first mismatch
   * otherwise, and never calls `loop` or touches the history.
   */
  lemma StatusReportsPending(migrations: seq<MigrationFile>, history: seq<Record>, drv: Driver)
    requires drv.connectOk && drv.setupOk
    ensures var o := Execute(Status, migrations, history, drv);
      o.store == Store(history, [Connect, Setup, End])
    ensures var o := Execute(Status, migrations, history, drv);
      drv.endOk && Agree(history, migrations, Min(|history|, |migrations|)) ==>
        o.result == Success(Names(migrations[Min(|history|, |migrations|)..]))
    ensures var o := Execute(Status, migrations, history, drv);
      drv.endOk && !Agree(history, migrations, Min(|history|, |migrations|)) ==>
        exists k :: MismatchAt(history, migrations, k) && o.result == Failure(Mismatch(migrations[k].name, history[k].name))
  {
    var s := Store(history, [Connect, Setup]);
    var r := Diff(history, migrations);
    assert StatusBody(migrations, s).store == s;
  }

  /** Asking for the status twice, with nothing run in between, gives the same answer. */
  lemma StatusIdempotent(migrations: seq<MigrationFile>, history: seq<Record>, drv: Driver, drv': Driver)
    requires drv.connectOk && drv.setupOk && drv.endOk
    requires drv'.connectOk && drv'.setupOk && drv'.endOk
    ensures var o := Execute(Status, migrations, history, drv);
      Execute(Status, migrations, o.store.history, drv').result == o.result
  {
    StatusReportsPending(migrations, history, drv);
  }

  // ---------------------------------------------------------------------
  // up
  // ---------------------------------------------------------------------

  /** With nothing pending, `up` returns `[]` without calling `loop`. */
  lemma UpNothingPending(single: bool, migrations: seq<MigrationFile>, history: seq<Record>, drv: Driver)
    requires drv.connectOk && drv.setupOk
    requires Agree(history, migrations, |migrations|)
    ensures var o := Execute(RunUp(single), migrations, history, drv);
      o.store == Store(history, [Connect, Setup, End]) && (drv.endOk ==> o.result == Success([]))
  {
    assert Min(|history|, |migrations|) == |migrations|;
  }

  /** A history that disagrees with the disk makes `up` throw the first mismatch before `loop`. */
  lemma UpRefusesMismatch(single: bool, migrations: seq<MigrationFile>, history: seq<Record>, drv: Driver)
    requires drv.connectOk && drv.setupOk
    requires !Agree(history, migrations, Min(|history|, |migrations|))
    ensures var o := Execute(RunUp(single), migrations, history, drv);
      o.store == Store(history, [Connect, Setup, End])
    ensures var o := Execute(RunUp(single), migrations, history, drv);
      drv.endOk ==> exists k :: MismatchAt(history, migrations, k) && o.result == Failure(Mismatch(migrations[k].name, history[k].name))
  {
  }

  /**
   * With migrations pending, `up` hands `loop` exactly the first pending one
   * (with `single`) or all of them, oldest first; the items before a failing
   * one stay recorded; on success it returns exactly the names it ran.
   */
  lemma UpRunsPending(single: bool, migrations: seq<MigrationFile>, history: seq<Record>, drv: Driver)
    requires drv.connectOk && drv.setupOk
    requires Agree(history, migrations, |history|) && |history| < |migrations|
    ensures var items := if single then [migrations[|history|]] else migrations[|history|..];
      var o := Execute(RunUp(single), migrations, history, drv);
      && o.store.calls == [Connect, Setup, Loop(items, Up), End]
      && o.store.history == history + Records(items[..Committed(|items|, drv.failAt)])
      && (drv.endOk && drv.failAt.None? ==> o.result == Success(Names(items)))
      && (drv.endOk && drv.failAt.Some? && drv.failAt.value < |items| ==>
            o.result == Failure(MigrationFailed(items[drv.failAt.value].name)))
  {
    assert Min(|history|, |migrations|) == |history|;
  }

  /**
   * Running every pending migration catches the database up: a following
   * `status` reports nothing pending.
   */
  lemma UpThenStatusCaughtUp(migrations: seq<MigrationFile>, history: seq<Record>, drv: Driver, drv': Driver)
    requires Healthy(drv) && Healthy(drv')
    requires Agree(history, migrations, Min(|history|, |migrations|))
    ensures var o := Execute(RunUp(false), migrations, history, drv);
      o.result.Success? && Execute(Status, migrations, o.store.history, drv').result == Success([])
  {
    var o := Execute(RunUp(false), migrations, history, drv);
    DiffCatchUp(history, migrations);
    var pending := Diff(history, migrations).value;
    if |pending| == 0 {
      assert o.store.history == history;
      assert history + Records(pending) == history;
    } else {
      assert o.store.history == history + Records(pending[..|pending|]);
      assert pending[..|pending|] == pending;
    }
    StatusReportsPending(migrations, o.store.history, drv');
  }

  // ---------------------------------------------------------------------
  // down
  // ---------------------------------------------------------------------

  /** With an empty history, `down` returns `[]` without calling `loop`. */
  lemma DownNothingApplied(all: bool, migrations: seq<MigrationFile>, drv: Driver)
    requires drv.connectOk && drv.setupOk
    ensures var o := Execute(RunDown(all), migrations, [], drv);
      o.store == Store([], [Connect, Setup, End]) && (drv.endOk ==> o.result == Success([]))
  {
  }

  /**
   * When no discovered file carries the name of the newest applied
   * migration, `down` throws "Unknown migration" naming it, before `loop`.
   */
  lemma DownUnknownNewest(all: bool, migrations: seq<MigrationFile>, history: seq<Record>, drv: Driver)
    requires drv.connectOk && drv.setupOk && |history| > 0
    requires forall k :: 0 <= k < |migrations| ==> migrations[k].name != history[|history| - 1].name
    ensures var o := Execute(RunDown(all), migrations, history, drv);
      o.store == Store(history, [Connect, Setup, End])
      && (drv.endOk ==> o.result == Failure(UnknownMigration(history[|history| - 1].name)))
  {
    var files := Reverse(migrations);
    assert forall m :: 0 <= m < |files| ==> files[m].name != history[|history| - 1].name;
  }

  /** Once the newest row is located on disk and `pluck` succeeds, `down` hands its list to `loop`. */
  lemma DownBodyRuns(all: bool, migrations: seq<MigrationFile>, s: Store, drv: Driver, idx: nat, toRun: seq<MigrationFile>)
    requires |s.history| > 0
    requires FindFrom(Reverse(s.history)[0].name, Reverse(migrations), 0) == Some(idx)
    requires Pluck(if all then Reverse(s.history) else [Reverse(s.history)[0]], Reverse(migrations)[idx..]) == Success(toRun)
    ensures DownBody(all, migrations, s, drv) == RunLoop(s, toRun, Down, drv)
  {
  }

  /** Once the newest row is located on disk and `pluck` succeeds, `down` calls `loop` with `pluck`'s list. */
  lemma DownCalls(all: bool, migrations: seq<MigrationFile>, history: seq<Record>, drv: Driver, idx: nat, toRun: seq<MigrationFile>)
    requires drv.connectOk && drv.setupOk && |history| > 0
    requires FindFrom(Reverse(history)[0].name, Reverse(migrations), 0) == Some(idx)
    requires Pluck(if all then Reverse(history) else [Reverse(history)[0]], Reverse(migrations)[idx..]) == Success(toRun)
    ensures Execute(RunDown(all), migrations, history, drv).store.calls == [Connect, Setup, Loop(toRun, Down), End]
  {
    var s := Store(history, [Connect, Setup]);
    var o := Body(RunDown(all), migrations, s, drv);
    DownBodyLoops(all, migrations, s, drv, idx, toRun);
    ExecuteRunsBody(RunDown(all), migrations, history, drv);
    FinallyCalls(o, drv);
  }

  /** `finally` appends `end` to the calls. */
  lemma FinallyCalls(o: Outcome, drv: Driver)
    ensures Finally(o, drv).store.calls == o.store.calls + [End]
  {
  }

  /** The body of `down` appends one `loop` call with `pluck`'s list. */
  lemma DownBodyLoops(all: bool, migrations: seq<MigrationFile>, s: Store, drv: Driver, idx: nat, toRun: seq<MigrationFile>)
    requires |s.history| > 0
    requires FindFrom(Reverse(s.history)[0].name, Reverse(migrations), 0) == Some(idx)
    requires Pluck(if all then Reverse(s.history) else [Reverse(s.history)[0]], Reverse(migrations)[idx..]) == Success(toRun)
    ensures Body(RunDown(all), migrations, s, drv).store.calls == s.calls + [Loop(toRun, Down)]
  {
    DownBodyRuns(all, migrations, s, drv, idx, toRun);
  }

  /** A single target named like the first candidate is plucked to that candidate. */
  lemma PluckOne(last: Record, rest: seq<MigrationFile>)
    requires |rest| > 0 && rest[0].name == last.name
    ensures Pluck([last], rest) == Success([rest[0]])
  {
    assert Agree([last], rest, 1);
    PluckAligned([last], rest);
    assert rest[..1] == [rest[0]];
  }

  /** With `connect` and `setup` succeeding, an invocation is its body followed by `end`. */
  lemma ExecuteRunsBody(cmd: Command, migrations: seq<MigrationFile>, history: seq<Record>, drv: Driver)
    requires drv.connectOk && drv.setupOk
    ensures Execute(cmd, migrations, history, drv) == Finally(Body(cmd, migrations, Store(history, [Connect, Setup]), drv), drv)
  {
  }

  /**
   * `findIndex` on the reversed listing finds the newest file carrying
   * `name`: position `p` of the listing, with no later file of that name.
   */
  lemma NewestFileNamed(migrations: seq<MigrationFile>, name: string, k: int)
    requires 0 <= k < |migrations| && migrations[k].name == name
    ensures var r := FindFrom(name, Reverse(migrations), 0);
      r.Some? && r.value < |migrations|
      && var p := |migrations| - 1 - r.value;
         migrations[p].name == name && forall q :: p < q < |migrations| ==> migrations[q].name != name
  {
    var files := Reverse(migrations);
    assert files[|migrations| - 1 - k].name == name;
    var idx := FindFrom(name, files, 0).value;
    var p := |migrations| - 1 - idx;
    assert files[idx] == migrations[p];
    forall q | p < q < |migrations|
      ensures migrations[q].name != name
    {
      assert files[|migrations| - 1 - q] == migrations[q];
    }
  }

  /**
   * Without `all`, `down` hands `loop` exactly one file: the newest
   * discovered file named like the newest applied migration.
   */
  lemma DownSingle(migrations: seq<MigrationFile>, history: seq<Record>, drv: Driver)
    requires drv.connectOk && drv.setupOk && |history| > 0
    requires exists k :: 0 <= k < |migrations| && migrations[k].name == history[|history| - 1].name
    ensures var o := Execute(RunDown(false), migrations, history, drv);
      exists p :: 0 <= p < |migrations| && migrations[p].name == history[|history| - 1].name
        && (forall q :: p < q < |migrations| ==> migrations[q].name != history[|history| - 1].name)
        && o.store.calls == [Connect, Setup, Loop([migrations[p]], Down), End]
  {
    var last := history[|history| - 1];
    var k :| 0 <= k < |migrations| && migrations[k].name == last.name;
    NewestFileNamed(migrations, last.name, k);
    var files := Reverse(migrations);
    var idx := FindFrom(last.name, files, 0).value;
    var p := |migrations| - 1 - idx;
    var rest := files[idx..];
    assert rest[0] == migrations[p];
    PluckOne(last, rest);
    assert Reverse(history)[0] == last;
    DownCalls(false, migrations, history, drv, idx, [rest[0]]);
  }

  /** On an aligned history of `h` rows, the newest row is the file `h` from the end of the listing. */
  lemma NewestAligned(migrations: seq<MigrationFile>, history: seq<Record>)
    requires |history| > 0 && Agree(history, migrations, |history|) && DistinctNames(migrations)
    ensures FindFrom(Reverse(history)[0].name, Reverse(migrations), 0) == Some(|migrations| - |history|)
  {
    var n, h := |migrations|, |history|;
    var name := history[h - 1].name;
    var files := Reverse(migrations);
    assert files[n - h] == migrations[h - 1];
    forall m | 0 <= m < n - h
      ensures files[m].name != name
    {
      assert files[m] == migrations[n - 1 - m];
    }
    FindFromStopsAt(name, files, 0, n - h);
  }

  /** The newest `h` files of the reversed listing are the first `h` files, reversed. */
  lemma ReversedSuffix(migrations: seq<MigrationFile>, h: nat)
    requires h <= |migrations|
    ensures Reverse(migrations)[|migrations| - h..] == Reverse(migrations[..h])
  {
    var rest := Reverse(migrations)[|migrations| - h..];
    var applied := Reverse(migrations[..h]);
    forall k | 0 <= k < h
      ensures rest[k] == applied[k]
    {
      assert rest[k] == migrations[h - 1 - k];
    }
  }

  /** Reversed, the applied rows name the reversed applied files position by position. */
  lemma ReversedAgree(migrations: seq<MigrationFile>, history: seq<Record>)
    requires Agree(history, migrations, |history|)
    ensures Agree(Reverse(history), Reverse(migrations[..|history|]), |history|)
  {
    var h := |history|;
    var applied := Reverse(migrations[..h]);
    var newest := Reverse(history);
    forall k | 0 <= k < h
      ensures newest[k].name == applied[k].name
    {
      assert newest[k] == history[h - 1 - k];
      assert applied[k] == migrations[h - 1 - k];
    }
  }

  /**
   * With `all`, on a history aligned with distinctly named files, `down`
   * hands `loop` every applied migration's file, newest first.
   */
  lemma DownAllAligned(migrations: seq<MigrationFile>, history: seq<Record>, drv: Driver)
    requires drv.connectOk && drv.setupOk && |history| > 0
    requires Agree(history, migrations, |history|) && DistinctNames(migrations)
    ensures var o := Execute(RunDown(true), migrations, history, drv);
      o.store.calls == [Connect, Setup, Loop(Reverse(migrations[..|history|]), Down), End]
  {
    NewestAligned(migrations, history);
    PluckAllAligned(migrations, history);
    DownCalls(true, migrations, history, drv, |migrations| - |history|, Reverse(migrations[..|history|]));
  }

  /** On an aligned history, `pluck` over the listing from the newest row on returns the applied files newest first. */
  lemma PluckAllAligned(migrations: seq<MigrationFile>, history: seq<Record>)
    requires Agree(history, migrations, |history|)
    ensures |history| <= |migrations|
    ensures Pluck(Reverse(history), Reverse(migrations)[|migrations| - |history|..]) == Success(Reverse(migrations[..|history|]))
  {
    var h := |history|;
    ReversedSuffix(migrations, h);
    ReversedAgree(migrations, history);
    var rest := Reverse(migrations[..h]);
    PluckAligned(Reverse(history), rest);
    assert rest[..h] == rest;
  }

  /**
   * With `all`, `down` refuses to start when some applied migration has no
   * file on disk: it throws before `loop` and the history is left unchanged.
   */
  lemma DownAllRefusesMissingFile(migrations: seq<MigrationFile>, history: seq<Record>, drv: Driver, i: int)
    requires drv.connectOk && drv.setupOk
    requires 0 <= i < |history|
    requires forall k :: 0 <= k < |migrations| ==> migrations[k].name != history[i].name
    ensures var o := Execute(RunDown(true), migrations, history, drv);
      o.store == Store(history, [Connect, Setup, End])
      && (drv.endOk ==> o.result.Failure? && (o.result.error.UnknownMigration? || o.result.error.MissingFile?))
  {
    var newest := Reverse(history);
    var files := Reverse(migrations);
    var last := newest[0];
    match FindFrom(last.name, files, 0)
    case None =>
    case Some(idx) =>
      var rest := files[idx..];
      var t := |history| - 1 - i;
      assert newest[t] == history[i];
      assert !Locatable(newest, rest, t) by {
        forall k | t <= k < |rest|
          ensures rest[k].name != newest[t].name
        {
          assert rest[k] == migrations[|migrations| - 1 - (idx + k)];
        }
      }
  }

  /**
   * Rolling back one migration whose name appears once in the history
   * removes exactly the newest row and reports its name.
   */
  lemma DownOneRemovesNewest(migrations: seq<MigrationFile>, history: seq<Record>, drv: Driver)
    requires Healthy(drv) && |history| > 0
    requires exists k :: 0 <= k < |migrations| && migrations[k].name == history[|history| - 1].name
    requires forall k :: 0 <= k < |history| - 1 ==> history[k].name != history[|history| - 1].name
    ensures var o := Execute(RunDown(false), migrations, history, drv);
      o.result == Success([history[|history| - 1].name]) && o.store.history == history[..|history| - 1]
  {
    var last := history[|history| - 1];
    DownSingle(migrations, history, drv);
    var o := Execute(RunDown(false), migrations, history, drv);
    var p :| 0 <= p < |migrations| && migrations[p].name == last.name
        && o.store.calls == [Connect, Setup, Loop([migrations[p]], Down), End];
    assert Names([migrations[p]]) == [last.name];
    var body := Body(RunDown(false), migrations, Store(history, [Connect, Setup]), drv);
    assert body.store.calls == [Connect, Setup, Loop([migrations[p]], Down)];
    assert body.store.history == Without(history, [last.name]) by {
      assert [migrations[p]][..1] == [migrations[p]];
    }
    assert body.result == Success([last.name]);
    WithoutNewest(history, last.name);
  }

  /** Deleting the newest row's name, when it appears nowhere else, drops just that row. */
  lemma {:induction false} WithoutNewest(history: seq<Record>, name: string)
    requires |history| > 0 && history[|history| - 1].name == name
    requires forall k :: 0 <= k < |history| - 1 ==> history[k].name != name
    ensures Without(history, [name]) == history[..|history| - 1]
  {
    if |history| == 1 {
      assert Without(history, [name]) == Without(history[1..], [name]);
      assert history[1..] == [];
    } else {
      var tail := history[1..];
      assert history[0].name !in [name];
      assert Without(history, [name]) == [history[0]] + Without(tail, [name]);
      assert tail[|tail| - 1].name == name;
      assert forall k :: 0 <= k < |tail| - 1 ==> tail[k].name != name by {
        assert forall k :: 0 <= k < |tail| ==> tail[k] == history[k + 1];
      }
      WithoutNewest(tail, name);
      assert history[..|history| - 1] == [history[0]] + tail[..|tail| - 1];
    }
  }

  /**
   * `down` undoes `up --single`: on an aligned history with distinctly named
   * files, applying the next migration and then rolling back one restores
   * the history.
   */
  lemma UpSingleThenDown(migrations: seq<MigrationFile>, history: seq<Record>, drv: Driver, drv': Driver)
    requires Healthy(drv) && Healthy(drv')
    requires Agree(history, migrations, |history|) && |history| < |migrations| && DistinctNames(migrations)
    ensures var o := Execute(RunUp(true), migrations, history, drv);
      o.result == Success([migrations[|history|].name])
      && Execute(RunDown(false), migrations, o.store.history, drv').store.history == history
  {
    var next := migrations[|history|];
    UpRunsPending(true, migrations, history, drv);
    var o := Execute(RunUp(true), migrations, history, drv);
    var h' := history + [Record(next.name)];
    assert o.store.history == h' by {
      assert [next][..1] == [next];
    }
    assert Names([next]) == [next.name];
    forall k | 0 <= k < |h'| - 1
      ensures h'[k].name != next.name
    {
      assert h'[k].name == migrations[k].name;
    }
    DownOneRemovesNewest(migrations, h', drv');
    assert h'[..|h'| - 1] == history;
  }
}
