/** `prisma/migrations/migrate-director-fields.ts`: move the legacy
    director fields of each TOR into the new array fields.

    The TORs are the records the script reads; the update that may fail in
    the database is the oracle `updateOk`, which says for the k-th selected
    TOR whether its update succeeds. */
module DirectorMigration {
  import opened Wrappers
  import opened Text
  import opened Json
  import opened Seqs

  /** The columns the script selects. `directorProposal` is a nullable
      string column; the other three are JSON columns. */
  datatype Tor = Tor(id: int, number: Option<string>, directorProposal: Option<string>,
                     fieldDirectorProposal: Json, directorProposals: Json,
                     fieldDirectorProposals: Json)

  /** A nullable string column is truthy when it holds a non-empty string. */
  predicate Present(s: Option<string>) {
    s.Some? && s.value != ""
  }

  /** The legacy director is set and the new field is not. */
  predicate DirectorPending(t: Tor) {
    Present(t.directorProposal) && !Truthy(t.directorProposals)
  }

  /** The legacy field director is set and the new field is not. */
  predicate FieldPending(t: Tor) {
    Truthy(t.fieldDirectorProposal) && !Truthy(t.fieldDirectorProposals)
  }

  /** Lines 21-24: the filter choosing the TORs to migrate. */
  predicate NeedsMigration(t: Tor) {
    DirectorPending(t) || FieldPending(t)
  }

  /** `{ id, name }`. */
  function Proposal(id: Json, name: Json): Json {
    JObj(map["id" := id, "name" := name])
  }

  /** Lines 60-63, one array item at `index`: `{ id: item.id ||
      String(index + 1), name: typeof item === 'string' ? item : item.name ||
      '' }`. Reading a property of a `null` item throws (None). */
  function ConvertItem(item: Json, index: nat): (r: Option<Json>)
    ensures r.None? <==> item == JNull
    ensures item.JStr? ==> r == Some(Proposal(JStr(NatToString(index + 1)), item))
    ensures item.JObj? ==> r == Some(Proposal(
      if "id" in item.fields && Truthy(item.fields["id"]) then item.fields["id"]
      else JStr(NatToString(index + 1)),
      if "name" in item.fields && Truthy(item.fields["name"]) then item.fields["name"]
      else JStr("")))
    ensures item != JNull && !item.JStr? && !item.JObj? ==>
      r == Some(Proposal(JStr(NatToString(index + 1)), JStr("")))
  {
    if item == JNull then None
    else
      var id := Or(Get(item, "id"), JStr(NatToString(index + 1)));
      var name := if item.JStr? then item else Or(Get(item, "name"), JStr(""));
      Some(Proposal(id, name))
  }

  /** `oldValue.map(...)`: it throws at a `null` item, and otherwise keeps
      the length and converts item i with index i. */
  function ConvertArray(items: seq<Json>): (r: Option<seq<Json>>)
    ensures r.None? <==> JNull in items
    ensures r.Some? ==> |r.value| == |items|
    ensures r.Some? ==> forall i :: 0 <= i < |items| ==> Some(r.value[i]) == ConvertItem(items[i], i)
  {
    if JNull in items then None
    else Some(seq(|items|, i requires 0 <= i < |items| => ConvertItem(items[i], i).value))
  }

  /** Every entry of a converted array is an `{ id, name }` object with a
      truthy id: the item's own id when that is truthy, and otherwise its
      position counted from 1; a string item becomes the name. */
  lemma ConvertedEntries(items: seq<Json>)
    requires JNull !in items
    ensures var r := ConvertArray(items);
      && r.Some? && |r.value| == |items|
      && forall i :: 0 <= i < |items| ==>
           && r.value[i].JObj? && r.value[i].fields.Keys == {"id", "name"}
           && Truthy(r.value[i].fields["id"])
           && (items[i].JObj? && "id" in items[i].fields && Truthy(items[i].fields["id"]) ==>
                 r.value[i].fields["id"] == items[i].fields["id"])
           && (!(items[i].JObj? && "id" in items[i].fields && Truthy(items[i].fields["id"])) ==>
                 r.value[i].fields["id"] == JStr(NatToString(i + 1)))
           && (items[i].JStr? ==> r.value[i].fields["name"] == items[i])
  {
    var r := ConvertArray(items).value;
    forall i | 0 <= i < |items|
      ensures r[i].JObj? && r[i].fields.Keys == {"id", "name"} && Truthy(r[i].fields["id"])
    {
      assert Some(r[i]) == ConvertItem(items[i], i);
      assert |NatToString(i + 1)| >= 1;
    }
  }

  /** Lines 48-76: the new `fieldDirectorProposals` made from the legacy
      value; always an array, unless a `null` array item makes the
      conversion throw. */
  function ConvertField(legacy: Json): (r: Option<Json>)
    ensures r.None? <==> legacy.JArr? && JNull in legacy.items
    ensures r.Some? ==> r.value.JArr?
    ensures legacy.JStr? ==> r == Some(JArr([Proposal(JStr("1"), legacy)]))
    ensures legacy.JArr? && r.Some? ==> |r.value.items| == |legacy.items|
    ensures legacy.JObj? ==> r == Some(JArr([Proposal(
      if "id" in legacy.fields && Truthy(legacy.fields["id"]) then legacy.fields["id"] else JStr("1"),
      if "name" in legacy.fields && Truthy(legacy.fields["name"]) then legacy.fields["name"] else JStr(""))]))
    ensures legacy.JNull? || legacy.JBool? || legacy.JNum? ==> r == Some(JArr([]))
  {
    match legacy
    case JStr(_) => Some(JArr([Proposal(JStr("1"), legacy)]))
    case JArr(items) =>
      var converted := ConvertArray(items);
      if converted.None? then None else Some(JArr(converted.value))
    case JObj(_) => Some(JArr([Proposal(Or(Get(legacy, "id"), JStr("1")), Or(Get(legacy, "name"), JStr("")))]))
    case _ => Some(JArr([]))
  }

  /** The `updates` object: a new value for each field that is written. */
  datatype Plan = Plan(directorProposals: Option<Json>, fieldDirectorProposals: Option<Json>)

  /** `needsUpdate`. */
  predicate NeedsUpdate(p: Plan) {
    p.directorProposals.Some? || p.fieldDirectorProposals.Some?
  }

  /** What the body of the loop makes of one TOR: its updates, or the
      TypeError the conversion throws. */
  datatype Step = Planned(plan: Plan) | Throws

  /** Lines 31-80: the updates for one TOR. */
  function PlanFor(t: Tor): (r: Step)
  {
    var director := if DirectorPending(t)
      then Some(JArr([Proposal(JStr("1"), JStr(t.directorProposal.value))])) else None;
    if FieldPending(t) then
      var field := ConvertField(t.fieldDirectorProposal);
      if field.None? then Throws else Planned(Plan(director, field))
    else Planned(Plan(director, None))
  }

  /** A field is written exactly when it is pending, so a truthy new field
      is never overwritten; a legacy director becomes a one-element list with
      id "1"; the legacy field director is converted; and only a `null` item
      of a legacy array makes the conversion throw. */
  lemma PlanForCases(t: Tor)
    ensures var r := PlanFor(t);
      && (r.Throws? <==>
            FieldPending(t) && t.fieldDirectorProposal.JArr? && JNull in t.fieldDirectorProposal.items)
      && (r.Planned? ==> (r.plan.directorProposals.Some? <==> DirectorPending(t)))
      && (r.Planned? ==> (r.plan.fieldDirectorProposals.Some? <==> FieldPending(t)))
      && (r.Planned? && DirectorPending(t) ==>
            r.plan.directorProposals == Some(JArr([Proposal(JStr("1"), JStr(t.directorProposal.value))])))
      && (r.Planned? && FieldPending(t) ==>
            r.plan.fieldDirectorProposals == ConvertField(t.fieldDirectorProposal))
  {
  }

  /** Every selected TOR that does not throw is updated: the "already
      migrated" branch of the loop is never taken. */
  lemma SelectedNeedsUpdate(t: Tor)
    requires NeedsMigration(t) && PlanFor(t).Planned?
    ensures NeedsUpdate(PlanFor(t).plan)
  {
    PlanForCases(t);
  }

  /** `prisma.tor.update({ where: { id }, data: updates })`. */
  function Apply(t: Tor, p: Plan): (r: Tor)
    ensures r.id == t.id && r.directorProposal == t.directorProposal
    ensures r.fieldDirectorProposal == t.fieldDirectorProposal
    ensures r.directorProposals == p.directorProposals.GetOr(t.directorProposals)
    ensures r.fieldDirectorProposals == p.fieldDirectorProposals.GetOr(t.fieldDirectorProposals)
  {
    t.(directorProposals := p.directorProposals.GetOr(t.directorProposals),
       fieldDirectorProposals := p.fieldDirectorProposals.GetOr(t.fieldDirectorProposals))
  }

  /** A migrated TOR is not selected again: every value written is an array,
      and an array is truthy even when empty. */
  lemma MigrationSettles(t: Tor)
    requires PlanFor(t).Planned?
    ensures !NeedsMigration(Apply(t, PlanFor(t).plan))
  {
    var p := PlanFor(t).plan;
    PlanForCases(t);
    if FieldPending(t) {
      assert p.fieldDirectorProposals.value.JArr?;
    }
  }

  /** One update sent to the database. */
  datatype Update = Update(id: int, plan: Plan)

  /** The updates sent, the value of `migratedCount`, and whether the run
      ended with a thrown TypeError. */
  datatype Summary = Summary(updates: seq<Update>, migrated: nat, aborted: bool)

  /** The loop over the first `n` selected TORs. */
  function Migration(tors: seq<Tor>, updateOk: nat -> bool, n: nat): Summary
    requires n <= |tors|
  {
    if n == 0 then Summary([], 0, false)
    else
      var s := Migration(tors, updateOk, n - 1);
      if s.aborted then s
      else match PlanFor(tors[n - 1])
        case Throws => s.(aborted := true)
        case Planned(p) =>
          if NeedsUpdate(p) then
            Summary(s.updates + [Update(tors[n - 1].id, p)],
                    s.migrated + (if updateOk(n - 1) then 1 else 0), false)
          else s
  }

  /** `migrateDirectorFields()`: select the TORs, then build and send the
      updates one TOR at a time, counting the ones that succeed. The query
      has no `orderBy`: `allTors` is the table in the order the database
      returns it, taken as given. */
  method MigrateDirectorFields(allTors: seq<Tor>, updateOk: nat -> bool)
    returns (tors: seq<Tor>, summary: Summary)
    ensures tors == Filter(allTors, NeedsMigration)
    ensures summary == Migration(tors, updateOk, |tors|)
  {
    tors := Filter(allTors, NeedsMigration);
    var updates: seq<Update> := [];
    var migratedCount: nat := 0;
    var i := 0;
    while i < |tors|
      invariant i <= |tors|
      invariant Migration(tors, updateOk, i) == Summary(updates, migratedCount, false)
    {
      var step := PlanFor(tors[i]);
      if step.Throws? {
        summary := Summary(updates, migratedCount, true);
        MigrationStaysAborted(tors, updateOk, i + 1);
        return;
      }
      var needsUpdate := step.plan.directorProposals.Some? || step.plan.fieldDirectorProposals.Some?;
      if needsUpdate {
        updates := updates + [Update(tors[i].id, step.plan)];
        if updateOk(i) {
          migratedCount := migratedCount + 1;
        }
      }
      i := i + 1;
    }
    summary := Summary(updates, migratedCount, false);
  }

  /** Once aborted, the loop stays aborted with what it had. */
  lemma {:induction false} MigrationStaysAborted(tors: seq<Tor>, updateOk: nat -> bool, n: nat)
    requires 1 <= n <= |tors| && Migration(tors, updateOk, n).aborted
    ensures Migration(tors, updateOk, |tors|) == Migration(tors, updateOk, n)
    decreases |tors| - n
  {
    if n < |tors| {
      MigrationStaysAborted(tors, updateOk, n + 1);
    }
  }

  /** On the selected TORs: the run aborts exactly when some TOR's
      conversion throws; until then each TOR gets exactly one update, in
      order; and `migratedCount` counts the updates that succeed, so it is
      between 0 and the number selected, and equal to it when nothing throws
      and every update succeeds. */
  lemma {:induction false} MigrationFacts(tors: seq<Tor>, updateOk: nat -> bool, n: nat)
    requires n <= |tors|
    requires forall k :: 0 <= k < |tors| ==> NeedsMigration(tors[k])
    ensures var s := Migration(tors, updateOk, n);
      && s.migrated <= |s.updates| <= n
      && (s.aborted <==> exists k :: 0 <= k < n && PlanFor(tors[k]).Throws?)
      && (!s.aborted ==> |s.updates| == n)
      && (!s.aborted ==>
            forall k :: 0 <= k < n ==> s.updates[k] == Update(tors[k].id, PlanFor(tors[k]).plan))
      && (!s.aborted && (forall k :: 0 <= k < n ==> updateOk(k)) ==> s.migrated == n)
  {
    if n > 0 {
      MigrationFacts(tors, updateOk, n - 1);
      var s := Migration(tors, updateOk, n - 1);
      if !s.aborted && PlanFor(tors[n - 1]).Planned? {
        SelectedNeedsUpdate(tors[n - 1]);
      }
    }
  }
}
