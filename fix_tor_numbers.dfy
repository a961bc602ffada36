/** The repair script `prisma/fix-tor-numbers.ts`: every TOR stored without
    a number gets one.

    The database is a sequence of rows and an update is a pair of a TOR id
    and the number to store under it. The script's `findMany` is
    `Selected`, its loop of `update` calls is `FixTorNumbers`, and what the
    updates do to the table is `Apply`. A row's `createdAt` comes in as the
    calendar fields and the epoch milliseconds the script reads from it. */
module FixTorNumbers {
  import opened Wrappers
  import opened Text
  import TorNumber

  /** The script's own copy of `generateTorNumber`. Its title is a plain
      string (the column is never null), and the empty title is the only
      falsy one. */
  function GenerateTorNumber(title: string, day: int, monthIndex: int, year: int, epochMs: int): string {
    var slug := TorNumber.SlugOf(if title == "" then "draft" else title);
    var date := PadStart(IntToString(day), 2, '0') + PadStart(IntToString(monthIndex + 1), 2, '0') + IntToString(year);
    slug + "-" + date + "-" + Last(IntToString(epochMs), 6)
  }

  /** The copy gives what the TOR route's generator gives, for every input. */
  lemma SameAsRoute(title: string, day: int, monthIndex: int, year: int, epochMs: int)
    ensures GenerateTorNumber(title, day, monthIndex, year, epochMs) ==
              TorNumber.GenerateTorNumber(Some(title), day, monthIndex, year, epochMs)
  {
  }

  /** The columns the script selects. */
  datatype TorRow = TorRow(id: int, title: string, day: int, monthIndex: int, year: int,
                           epochMs: int, number: Option<string>)

  /** `prisma.tor.update({ where: { id }, data: { number } })`. */
  datatype NumberUpdate = NumberUpdate(id: int, number: string)

  /** How the script ends: early when every TOR has a number, with the
      success message after `count` updates, or through the `catch` of
      lines 71-75 (exit code 1) when the update of the `done`-th selected TOR
      throws after `done` updates went through. */
  datatype Report = AllHaveNumbers | Generated(count: nat) | Failed(done: nat)

  /** The number the script gives a row. */
  function NumberFor(tor: TorRow): string {
    GenerateTorNumber(tor.title, tor.day, tor.monthIndex, tor.year, tor.epochMs)
  }

  /** `findMany({ where: { number: null } })`: the rows without a number.
      The query has no `orderBy`, so `db` stands for the rows in the order
      the database returns them, taken as given. */
  function Selected(db: seq<TorRow>): (r: seq<TorRow>)
    ensures |r| <= |db|
    ensures forall k :: 0 <= k < |r| ==> r[k].number.None?
  {
    if db == [] then []
    else if db[0].number.None? then [db[0]] + Selected(db[1..])
    else Selected(db[1..])
  }

  /** Nothing is selected exactly when every TOR already has a number. */
  lemma {:induction false} NothingSelected(db: seq<TorRow>)
    ensures Selected(db) == [] <==> forall k :: 0 <= k < |db| ==> db[k].number.Some?
    decreases |db|
  {
    if db != [] {
      NothingSelected(db[1..]);
      assert forall k :: 1 <= k < |db| ==> db[k] == db[1..][k - 1];
    }
  }

  /** The updates that number the given rows, one per row and in order.
      The numbering function is a parameter so that the reasoning about
      updates does not have to look inside the generator. */
  function UpdatesFor(tors: seq<TorRow>, generate: TorRow -> string): seq<NumberUpdate> {
    seq(|tors|, k requires 0 <= k < |tors| => NumberUpdate(tors[k].id, generate(tors[k])))
  }

  /** The position of the first update, among `n`, that throws; None when
      all `n` go through. `updateOk(i)` says whether the update of the i-th
      selected TOR succeeds: a database error, or a clash on the number
      column, makes it throw. */
  function FirstFailure(updateOk: nat -> bool, n: nat): (r: Option<nat>)
    ensures r.None? <==> forall i: nat :: i < n ==> updateOk(i)
    ensures r.Some? ==> r.value < n && !updateOk(r.value)
    ensures r.Some? ==> forall i: nat :: i < r.value ==> updateOk(i)
    decreases n
  {
    if n == 0 then None
    else match FirstFailure(updateOk, n - 1)
      case Some(k) => Some(k)
      case None => if updateOk(n - 1) then None else Some(n - 1)
  }

  /** How many updates went through before the loop stopped. */
  function Sent(failure: Option<nat>, n: nat): nat {
    if failure.Some? then failure.value else n
  }

  /** The report for `n` selected TORs whose updates first fail at
      `failure`. */
  function ReportFor(n: nat, failure: Option<nat>): Report {
    if n == 0 then AllHaveNumbers
    else if failure.Some? then Failed(failure.value)
    else Generated(n)
  }

  /** `main()`: select the rows without a number; stop early when there are
      none; otherwise number the selected rows with the script's generator,
      one update after another, until an update throws; report the count
      only when every update went through. */
  method FixTorNumbers(db: seq<TorRow>, updateOk: nat -> bool)
    returns (updates: seq<NumberUpdate>, report: Report)
    ensures var sel := Selected(db);
      var failure := FirstFailure(updateOk, |sel|);
      && updates == UpdatesFor(sel[..Sent(failure, |sel|)], NumberFor)
      && report == ReportFor(|sel|, failure)
  {
    var torsWithoutNumber := Selected(db);
    if |torsWithoutNumber| == 0 {
      return [], AllHaveNumbers;
    }
    var failedAt;
    updates, failedAt := NumberTors(torsWithoutNumber, NumberFor, updateOk);
    if failedAt.Some? {
      return updates, Failed(failedAt.value);
    }
    report := Generated(|torsWithoutNumber|);
  }

  /** The loop of `main()`: one update per TOR, in order, each storing the
      number generated for that TOR, until an update throws. The updates
      returned are the ones that went through. */
  method NumberTors(tors: seq<TorRow>, generate: TorRow -> string, updateOk: nat -> bool)
    returns (updates: seq<NumberUpdate>, failedAt: Option<nat>)
    ensures failedAt == FirstFailure(updateOk, |tors|)
    ensures updates == UpdatesFor(tors[..Sent(failedAt, |tors|)], generate)
  {
    updates := [];
    var i := 0;
    while i < |tors|
      invariant 0 <= i <= |tors|
      invariant forall j: nat :: j < i ==> updateOk(j)
      invariant updates == UpdatesFor(tors[..i], generate)
    {
      var tor := tors[i];
      var torNumber := generate(tor);
      if !updateOk(i) {
        return updates, Some(i);
      }
      updates := updates + [NumberUpdate(tor.id, torNumber)];
      i := i + 1;
    }
    assert tors[..i] == tors;
    failedAt := None;
  }

  /** The success message appears exactly when there was something to do
      and every update went through, and it then gives the number of TORs
      selected; a failure names how many updates went through, all before
      the one that threw. */
  lemma ReportMeans(db: seq<TorRow>, updateOk: nat -> bool)
    ensures var n := |Selected(db)|;
      var report := ReportFor(n, FirstFailure(updateOk, n));
      && (report == AllHaveNumbers <==> n == 0)
      && (report.Generated? <==> n > 0 && forall i: nat :: i < n ==> updateOk(i))
      && (report.Generated? ==> report.count == n)
      && (report.Failed? ==> report.done < n && !updateOk(report.done) &&
                               forall i: nat :: i < report.done ==> updateOk(i))
  {
  }

  // ---------------------------------------------------------------------
  // What the updates do to the table
  // ---------------------------------------------------------------------

  /** One update: the row with the id gets the number; the others keep theirs. */
  function ApplyOne(db: seq<TorRow>, u: NumberUpdate): (r: seq<TorRow>)
    ensures |r| == |db|
    ensures forall k :: 0 <= k < |db| ==>
              r[k] == if db[k].id == u.id then db[k].(number := Some(u.number)) else db[k]
  {
    seq(|db|, k requires 0 <= k < |db| => if db[k].id == u.id then db[k].(number := Some(u.number)) else db[k])
  }

  /** The updates, one after another. */
  function Apply(db: seq<TorRow>, updates: seq<NumberUpdate>): seq<TorRow>
    decreases |updates|
  {
    if updates == [] then db else Apply(ApplyOne(db, updates[0]), updates[1..])
  }

  /** Applying updates keeps the rows, their ids and every column but the
      number, and only rows an update names change. */
  lemma {:induction false} ApplyKeeps(db: seq<TorRow>, updates: seq<NumberUpdate>, i: int)
    requires 0 <= i < |db|
    ensures |Apply(db, updates)| == |db|
    ensures Apply(db, updates)[i] == db[i].(number := Apply(db, updates)[i].number)
    ensures (forall j :: 0 <= j < |updates| ==> updates[j].id != db[i].id) ==> Apply(db, updates)[i] == db[i]
    decreases |updates|
  {
    if updates != [] {
      var next := ApplyOne(db, updates[0]);
      ApplyKeeps(next, updates[1..], i);
      if forall j :: 0 <= j < |updates| ==> updates[j].id != db[i].id {
        assert updates[0].id != db[i].id;
        assert forall j :: 0 <= j < |updates| - 1 ==> updates[1..][j].id == updates[j + 1].id;
      }
    }
  }

  /** A row that an update names ends with that update's number, when no
      other update names the same id. */
  lemma {:induction false} ApplySets(db: seq<TorRow>, updates: seq<NumberUpdate>, i: int, j: int)
    requires 0 <= i < |db| && 0 <= j < |updates| && updates[j].id == db[i].id
    requires forall j' :: 0 <= j' < |updates| && j' != j ==> updates[j'].id != db[i].id
    ensures |Apply(db, updates)| == |db|
    ensures Apply(db, updates)[i].number == Some(updates[j].number)
    decreases |updates|
  {
    ApplyKeeps(db, updates, i);
    var next := ApplyOne(db, updates[0]);
    if j == 0 {
      ApplyKeeps(next, updates[1..], i);
      assert forall j' :: 0 <= j' < |updates| - 1 ==> updates[1..][j'].id == updates[j' + 1].id;
    } else {
      assert updates[0].id != db[i].id;
      ApplySets(next, updates[1..], i, j - 1);
    }
  }

  /** Every TOR id occurs once in the table. */
  predicate UniqueIds(db: seq<TorRow>) {
    forall a, b :: 0 <= a < b < |db| ==> db[a].id != db[b].id
  }

  /** The selected rows are rows of the table, and every row without a
      number is selected. */
  lemma {:induction false} SelectedRows(db: seq<TorRow>)
    ensures forall k :: 0 <= k < |Selected(db)| ==> Selected(db)[k] in db
    ensures forall i :: 0 <= i < |db| && db[i].number.None? ==> db[i] in Selected(db)
    decreases |db|
  {
    if db != [] {
      var tail := db[1..];
      SelectedRows(tail);
      forall i | 1 <= i < |db| && db[i].number.None? ensures db[i] in Selected(db) {
        assert db[i] == tail[i - 1];
      }
    }
  }

  /** With unique ids in the table, the selected rows have unique ids too. */
  lemma {:induction false} SelectedUnique(db: seq<TorRow>)
    requires UniqueIds(db)
    ensures UniqueIds(Selected(db))
    decreases |db|
  {
    if db != [] {
      var tail := db[1..];
      UniqueTail(db);
      SelectedUnique(tail);
      if db[0].number.None? {
        var rest := Selected(tail);
        forall b | 0 <= b < |rest| ensures rest[b].id != db[0].id {
          SelectedRows(tail);
          var i :| 0 <= i < |tail| && tail[i] == rest[b];
        }
        ConsUnique(db[0], rest);
      }
    }
  }

  lemma UniqueTail(db: seq<TorRow>)
    requires UniqueIds(db) && db != []
    ensures UniqueIds(db[1..])
    ensures forall i :: 0 <= i < |db| - 1 ==> db[1..][i].id != db[0].id
  {
    forall a, b | 0 <= a < b < |db| - 1 ensures db[1..][a].id != db[1..][b].id {
      assert db[1..][a] == db[a + 1] && db[1..][b] == db[b + 1];
    }
  }

  lemma ConsUnique(x: TorRow, s: seq<TorRow>)
    requires UniqueIds(s) && forall b :: 0 <= b < |s| ==> s[b].id != x.id
    ensures UniqueIds([x] + s)
  {
    var t := [x] + s;
    forall a, b | 0 <= a < b < |t| ensures t[a].id != t[b].id {
      assert t[b] == s[b - 1];
      if a > 0 { assert t[a] == s[a - 1]; }
    }
  }

  /** After the first `k` updates of the script, with unique ids: the first
      `k` selected TORs hold their generated number and every other row is
      untouched. */
  lemma NumberedPrefix(db: seq<TorRow>, generate: TorRow -> string, k: nat)
    requires UniqueIds(db) && k <= |Selected(db)|
    ensures var sel := Selected(db)[..k];
      var after := Apply(db, UpdatesFor(sel, generate));
      && |after| == |db|
      && forall i :: 0 <= i < |db| ==>
           after[i] == if db[i] in sel then db[i].(number := Some(generate(db[i]))) else db[i]
  {
    var sel := Selected(db)[..k];
    var ups := UpdatesFor(sel, generate);
    SelectedRows(db);
    SelectedUnique(db);
    assert UniqueIds(sel);
    ApplyKeepsLength(db, ups);
    forall i | 0 <= i < |db|
      ensures Apply(db, ups)[i] == if db[i] in sel then db[i].(number := Some(generate(db[i]))) else db[i]
    {
      ApplyKeeps(db, ups, i);
      if db[i] in sel {
        NumberedRow(db, sel, generate, i);
      } else {
        KeptRow(db, sel, generate, i);
      }
    }
  }

  /** After the script has gone through, with unique ids, every TOR has a
      number: the rows that had none hold the generated one, and the others
      are untouched. */
  lemma AllNumbered(db: seq<TorRow>, generate: TorRow -> string)
    requires UniqueIds(db)
    ensures var after := Apply(db, UpdatesFor(Selected(db), generate));
      && |after| == |db|
      && forall i :: 0 <= i < |db| ==>
           after[i] == if db[i].number.None? then db[i].(number := Some(generate(db[i]))) else db[i]
  {
    var sel := Selected(db);
    NumberedPrefix(db, generate, |sel|);
    assert sel[..|sel|] == sel;
    SelectedRows(db);
  }

  lemma {:induction false} ApplyKeepsLength(db: seq<TorRow>, updates: seq<NumberUpdate>)
    ensures |Apply(db, updates)| == |db|
    decreases |updates|
  {
    if updates != [] {
      ApplyKeepsLength(ApplyOne(db, updates[0]), updates[1..]);
    }
  }

  /** A row among the numbered ones gets its generated number. */
  lemma NumberedRow(db: seq<TorRow>, sel: seq<TorRow>, generate: TorRow -> string, i: int)
    requires UniqueIds(sel) && 0 <= i < |db| && db[i] in sel
    ensures |Apply(db, UpdatesFor(sel, generate))| == |db|
    ensures Apply(db, UpdatesFor(sel, generate))[i].number == Some(generate(db[i]))
  {
    var ups := UpdatesFor(sel, generate);
    var j :| 0 <= j < |sel| && sel[j] == db[i];
    forall j' | 0 <= j' < |ups| && j' != j ensures ups[j'].id != db[i].id {
      assert ups[j'].id == sel[j'].id;
      if j' < j { assert sel[j'].id != sel[j].id; } else { assert sel[j].id != sel[j'].id; }
    }
    ApplySets(db, ups, i, j);
  }

  /** A row outside the numbered ones is named by no update. */
  lemma KeptRow(db: seq<TorRow>, sel: seq<TorRow>, generate: TorRow -> string, i: int)
    requires UniqueIds(db) && 0 <= i < |db| && db[i] !in sel
    requires forall k :: 0 <= k < |sel| ==> sel[k] in db
    ensures forall j :: 0 <= j < |sel| ==> UpdatesFor(sel, generate)[j].id != db[i].id
  {
    forall j | 0 <= j < |sel| ensures UpdatesFor(sel, generate)[j].id != db[i].id {
      var i' :| 0 <= i' < |db| && db[i'] == sel[j];
      assert i' != i;
      if i' < i { assert db[i'].id != db[i].id; } else { assert db[i].id != db[i'].id; }
    }
  }
}
