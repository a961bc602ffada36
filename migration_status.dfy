/** `prisma/check-migration-status.ts`: count the TORs still holding legacy
    director data and say whether the director migration must run. */
module MigrationStatus {
  import opened Wrappers
  import opened Json
  import opened Seqs
  import opened DirectorMigration

  /** Lines 28-31: the status script's own copy of the selection filter. */
  predicate NeedsMigrationHere(t: Tor) {
    (Present(t.directorProposal) && !Truthy(t.directorProposals)) ||
    (Truthy(t.fieldDirectorProposal) && !Truthy(t.fieldDirectorProposals))
  }

  /** The two scripts select the same TORs. */
  lemma SameFilter(allTors: seq<Tor>)
    ensures forall t :: NeedsMigrationHere(t) == NeedsMigration(t)
    ensures Filter(allTors, NeedsMigrationHere) == Filter(allTors, NeedsMigration)
  {
    FilterSame(allTors, NeedsMigrationHere, NeedsMigration);
  }

  lemma {:induction false} FilterSame<T>(s: seq<T>, p: T -> bool, q: T -> bool)
    requires forall x :: p(x) == q(x)
    ensures Filter(s, p) == Filter(s, q)
  {
    if s != [] {
      FilterSame(s[1..], p, q);
    }
  }

  /** Lines 33-35: a TOR whose new fields hold something. */
  predicate AlreadyMigrated(t: Tor) {
    Truthy(t.directorProposals) || Truthy(t.fieldDirectorProposals)
  }

  /** One line of the "TORs that need migration" list: the TOR and which of
      its two legacy fields is pending. */
  datatype Pending = Pending(id: int, number: Option<string>, director: bool, field: bool)

  datatype Verdict = MigrationRequired(pending: seq<Pending>) | AlreadyCompleted | NoDirectorData

  /** What the script reports: nothing but the empty database, or the three
      counts and the verdict. */
  datatype Status =
    | NoTors
    | Counted(total: nat, alreadyMigrated: nat, needsMigration: nat, noData: int, verdict: Verdict)

  function PendingOf(t: Tor): Pending {
    Pending(t.id, t.number, DirectorPending(t), FieldPending(t))
  }

  /** Lines 45-53: one line per TOR needing migration, in order. */
  function PendingList(tors: seq<Tor>): (r: seq<Pending>)
    ensures |r| == |tors|
    ensures forall i :: 0 <= i < |tors| ==> r[i] == PendingOf(tors[i])
  {
    seq(|tors|, i requires 0 <= i < |tors| => PendingOf(tors[i]))
  }

  /** `checkMigrationStatus()`: lines 20-60. */
  function CheckMigrationStatus(allTors: seq<Tor>): (r: Status)
    ensures r.NoTors? <==> allTors == []
    ensures r.Counted? ==> r.total == |allTors| && r.noData == r.total - r.alreadyMigrated - r.needsMigration
  {
    if |allTors| == 0 then NoTors
    else
      var needsMigration := Filter(allTors, NeedsMigrationHere);
      var alreadyMigrated := Filter(allTors, AlreadyMigrated);
      var verdict :=
        if |needsMigration| > 0 then MigrationRequired(PendingList(needsMigration))
        else if |alreadyMigrated| > 0 then AlreadyCompleted
        else NoDirectorData;
      Counted(|allTors|, |alreadyMigrated|, |needsMigration|,
              |allTors| - |alreadyMigrated| - |needsMigration|, verdict)
  }

  /** The verdict: migration is required exactly when some TOR needs it;
      otherwise it is complete exactly when some TOR has new-format data; and
      there is no director data exactly when no TOR is in either class. */
  lemma VerdictCases(allTors: seq<Tor>)
    requires allTors != []
    ensures var v := CheckMigrationStatus(allTors).verdict;
      && (v.MigrationRequired? <==> exists i :: 0 <= i < |allTors| && NeedsMigration(allTors[i]))
      && (v == AlreadyCompleted <==>
            (forall i :: 0 <= i < |allTors| ==> !NeedsMigration(allTors[i])) &&
            exists i :: 0 <= i < |allTors| && AlreadyMigrated(allTors[i]))
      && (v == NoDirectorData <==>
            forall i :: 0 <= i < |allTors| ==> !NeedsMigration(allTors[i]) && !AlreadyMigrated(allTors[i]))
  {
    SameFilter(allTors);
    FilterCount(allTors, NeedsMigration);
    FilterCount(allTors, AlreadyMigrated);
  }

  /** The pending list `p` names exactly the TORs that need migration:
      every entry is such a TOR, with at least one pending field, and every
      such TOR has its entry. */
  predicate ListsPending(allTors: seq<Tor>, p: seq<Pending>) {
    && (forall k :: 0 <= k < |p| ==>
          (p[k].director || p[k].field) &&
          exists t :: t in allTors && NeedsMigration(t) && p[k] == PendingOf(t))
    && (forall i :: 0 <= i < |allTors| && NeedsMigration(allTors[i]) ==> PendingOf(allTors[i]) in p)
  }

  /** The list printed under "TORs that need migration" has one entry per
      TOR counted as needing it, and names exactly those TORs with their
      pending fields. */
  lemma PendingFlags(allTors: seq<Tor>)
    requires CheckMigrationStatus(allTors).Counted?
    requires CheckMigrationStatus(allTors).verdict.MigrationRequired?
    ensures var p := CheckMigrationStatus(allTors).verdict.pending;
      |p| == CheckMigrationStatus(allTors).needsMigration && ListsPending(allTors, p)
  {
    var needs := Filter(allTors, NeedsMigrationHere);
    assert PendingList(needs) == CheckMigrationStatus(allTors).verdict.pending;
    SameFilter(allTors);
    PendingListOf(allTors, needs);
  }

  /** The pending list of the selected TORs names exactly those TORs. */
  lemma PendingListOf(allTors: seq<Tor>, needs: seq<Tor>)
    requires forall k :: 0 <= k < |needs| ==> needs[k] in allTors && NeedsMigration(needs[k])
    requires forall i :: 0 <= i < |allTors| && NeedsMigration(allTors[i]) ==> allTors[i] in needs
    ensures ListsPending(allTors, PendingList(needs))
  {
    var p := PendingList(needs);
    forall k | 0 <= k < |p|
      ensures (p[k].director || p[k].field) &&
              exists t :: t in allTors && NeedsMigration(t) && p[k] == PendingOf(t)
    {
      assert needs[k] in allTors && NeedsMigration(needs[k]) && p[k] == PendingOf(needs[k]);
    }
    forall i | 0 <= i < |allTors| && NeedsMigration(allTors[i]) ensures PendingOf(allTors[i]) in p {
      var k :| 0 <= k < |needs| && needs[k] == allTors[i];
      assert p[k] == PendingOf(allTors[i]);
    }
  }


  predicate Neither(t: Tor) {
    !NeedsMigration(t) && !AlreadyMigrated(t)
  }

  predicate Both(t: Tor) {
    NeedsMigration(t) && AlreadyMigrated(t)
  }

  /** The "no data" count is the number of TORs in neither class minus the
      number in both: the two classes overlap, so it is not the number of
      TORs without director data. */
  lemma {:induction false} NoDataCount(allTors: seq<Tor>)
    ensures |allTors| - |Filter(allTors, AlreadyMigrated)| - |Filter(allTors, NeedsMigration)|
            == |Filter(allTors, Neither)| - |Filter(allTors, Both)|
  {
    if allTors != [] {
      NoDataCount(allTors[1..]);
    }
  }

  /** A TOR with a pending legacy director and a filled new field-director
      list is counted in both classes, so alone it gives "No data: -1". */
  lemma NoDataMayBeNegative(t: Tor)
    requires DirectorPending(t) && Truthy(t.fieldDirectorProposals)
    ensures CheckMigrationStatus([t]).noData == -1
  {
    assert Filter([t], NeedsMigrationHere) == [t];
    assert Filter([t], AlreadyMigrated) == [t];
  }

  /** The database after every TOR's updates are written. */
  function MigratedAll(allTors: seq<Tor>): (r: seq<Tor>)
    requires forall i :: 0 <= i < |allTors| ==> PlanFor(allTors[i]).Planned?
    ensures |r| == |allTors|
  {
    seq(|allTors|, i requires 0 <= i < |allTors| => Apply(allTors[i], PlanFor(allTors[i]).plan))
  }

  /** Once the migration has run without throwing and every update was
      written, the status script finds nothing left to migrate. */
  lemma MigrationCompletes(allTors: seq<Tor>)
    requires allTors != []
    requires forall i :: 0 <= i < |allTors| ==> PlanFor(allTors[i]).Planned?
    ensures !CheckMigrationStatus(MigratedAll(allTors)).verdict.MigrationRequired?
  {
    var after := MigratedAll(allTors);
    forall i | 0 <= i < |after| ensures !NeedsMigration(after[i]) {
      MigrationSettles(allTors[i]);
    }
    VerdictCases(after);
  }
}
