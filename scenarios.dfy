/** Properties that relate several requests to the store: startup
    idempotence, what the admin view sees after each mutating route, the
    behaviour of ids under delete, and a complete session. */
module Scenarios {
  import opened Values
  import opened Records
  import opened Storage
  import opened Routes

  /** Running startup again after a successful start changes nothing,
      whatever the second write would have done. */
  lemma StartupIdempotent(file: FileState, w1: WriteOutcome, w2: WriteOutcome)
    requires Startup(file, w1).started
    ensures Startup(Startup(file, w1).file, w2) == Startup(file, w1)
  {
  }

  /** A successful submit is seen by the admin view: the list it reads
      (before its newest-first sort) is the old list with the new record,
      carrying the request's fields, at the end. */
  lemma SubmitThenView(rs: seq<Grievance>, body: Form, clock: int)
    ensures var after := Submit(Present(Json(rs)), body, clock, false, Written);
            var l := View(after.file, false);
            l.status == Ok && l.page.Listed? &&
            |l.page.records| == |rs| + 1 &&
            l.page.records[..|rs|] == rs &&
            l.page.records[|rs|].id == Num(clock) &&
            UserFields(l.page.records[|rs|]) == body
  {
  }

  /** Submits to a missing or empty file start a fresh list, yet the admin
      view and delete refuse both states with 500. */
  lemma MissingOrEmptyFileTreatedDifferently(file: FileState, body: Form, clock: int, id: Value, w: WriteOutcome)
    requires file.Absent? || file == Present(EmptyText)
    ensures Submit(file, body, clock, false, Written) == Outcome(Present(Json([NewGrievance(clock, body)])), Ok)
    ensures View(file, false) == Listing(ServerError, ErrorText)
    ensures Delete(file, id, false, w) == Outcome(file, ServerError)
  {
  }

  /** Clearing and then viewing shows the empty-list notice, whatever the
      file held before (absent, empty, corrupt or a list). */
  lemma ClearThenView()
    ensures View(ClearAll(Written).file, false) == Listing(Ok, NoGrievancesYet)
  {
  }

  /** After a successful delete no stored record has the deleted id, every
      other record is still there, and a second delete of the same id
      answers 404 without writing. */
  lemma {:induction false} DeleteThenDeleteAgain(rs: seq<Grievance>, id: Value, w: WriteOutcome)
    requires Delete(Present(Json(rs)), id, false, Written).status == Ok
    ensures var after := Delete(Present(Json(rs)), id, false, Written).file;
            after.Present? && after.content.Json? &&
            (forall g :: g in after.content.records <==> g in rs && !Matches(g, id)) &&
            Delete(after, id, false, w) == Outcome(after, NotFound)
  {
    var kept := Without(rs, id);
    forall g ensures g in kept <==> g in rs && !Matches(g, id) {
      WithoutMembership(rs, id, g);
    }
    assert !HasId(kept, id);
  }

  /** The id sent by the admin page's script is compared with `!==`: a
      string id never removes records whose ids are numbers, even when the
      digits agree, so the store answers 404 and is left as it was. */
  lemma {:induction false} StringIdNeverMatchesNumericIds(rs: seq<Grievance>, s: string, w: WriteOutcome)
    requires forall g :: g in rs ==> g.id.Num?
    ensures Delete(Present(Json(rs)), Str(s), false, w) == Outcome(Present(Json(rs)), NotFound)
  {
    assert !HasId(rs, Str(s));
  }

  /** Concretely: a record with id 5 is not deleted by a request for "5". */
  lemma StringFiveIsNotNumberFive(g: Grievance, w: WriteOutcome)
    requires g.id == Num(5)
    ensures Delete(Present(Json([g])), Str("5"), false, w) == Outcome(Present(Json([g])), NotFound)
  {
    StringIdNeverMatchesNumericIds([g], "5", w);
  }

  /** Submitting with a clock value no stored record uses as its id keeps
      ids distinct; the code itself does not check this. */
  lemma SubmitWithFreshClockKeepsDistinct(rs: seq<Grievance>, body: Form, clock: int)
    requires DistinctIds(rs)
    requires forall g :: g in rs ==> g.id != Num(clock)
    ensures var after := Submit(Present(Json(rs)), body, clock, false, Written).file;
            after.Present? && after.content.Json? && DistinctIds(after.content.records)
  {
  }

  /** With distinct ids, a delete that succeeds removes exactly one record
      and keeps the ids distinct. */
  lemma {:induction false} DeleteWithDistinctIdsRemovesOne(rs: seq<Grievance>, id: Value)
    requires DistinctIds(rs)
    requires Delete(Present(Json(rs)), id, false, Written).status == Ok
    ensures var after := Delete(Present(Json(rs)), id, false, Written).file;
            after.Present? && after.content.Json? &&
            |after.content.records| == |rs| - 1 &&
            DistinctIds(after.content.records)
  {
    WithoutCount(rs, id);
    DistinctAtMostOneMatch(rs, id);
    WithoutUnchangedIffNoMatch(rs, id);
    WithoutKeepsDistinct(rs, id);
  }

  /** Ids are clock readings, so two submits in the same millisecond give
      two records with the same id, and one delete then removes both. */
  lemma {:induction false} SameClockCollides(a: Form, b: Form, t: int)
    ensures var s1 := Submit(Present(Json([])), a, t, false, Written).file;
            var s2 := Submit(s1, b, t, false, Written).file;
            s2 == Present(Json([NewGrievance(t, a), NewGrievance(t, b)])) &&
            !DistinctIds(s2.content.records) &&
            Delete(s2, Num(t), false, Written) == Outcome(Present(Json([])), Ok)
  {
    var gA := NewGrievance(t, a);
    var gB := NewGrievance(t, b);
    var rs := [gA, gB];
    var s0: FileState := Present(Json([]));
    assert s0.content.records + [gA] == [gA];
    var s1 := Submit(s0, a, t, false, Written).file;
    assert s1 == Present(Json([gA]));
    var s2 := Submit(s1, b, t, false, Written).file;
    assert [gA] + [gB] == rs;
    assert s2 == Present(Json(rs));
    assert !DistinctIds(rs) by {
      assert rs[0].id == rs[1].id;
    }
    assert rs[1..] == [gB];
    assert Without([gB], Num(t)) == [];
    assert Without(rs, Num(t)) == [];
    assert rs[0] in rs;
  }

  /** A whole session on a fresh store: two submits, a listing in stored
      order, a delete of the first record, and a clear. */
  lemma {:induction false} Session(a: Form, b: Form, tA: int, tB: int)
    requires tA != tB
    ensures var s0 := Startup(Absent, Written).file;
            var gA := NewGrievance(tA, a);
            var gB := NewGrievance(tB, b);
            var s1 := Submit(s0, a, tA, false, Written).file;
            var s2 := Submit(s1, b, tB, false, Written).file;
            var s3 := Delete(s2, Num(tA), false, Written);
            View(s0, false) == Listing(Ok, NoGrievancesYet) &&
            View(s2, false) == Listing(Ok, Listed([gA, gB])) &&
            s3 == Outcome(Present(Json([gB])), Ok) &&
            View(s3.file, false) == Listing(Ok, Listed([gB])) &&
            View(ClearAll(Written).file, false) == Listing(Ok, NoGrievancesYet)
  {
    var gA := NewGrievance(tA, a);
    var gB := NewGrievance(tB, b);
    var rs := [gA, gB];
    var s0 := Startup(Absent, Written).file;
    assert s0 == Present(Json([]));
    assert s0.content.records + [gA] == [gA];
    var s1 := Submit(s0, a, tA, false, Written).file;
    assert s1 == Present(Json([gA]));
    var s2 := Submit(s1, b, tB, false, Written).file;
    assert [gA] + [gB] == rs;
    assert s2 == Present(Json(rs));
    assert rs[1..] == [gB];
    assert Without([gB], Num(tA)) == [gB];
    assert Without(rs, Num(tA)) == [gB];
    assert rs[0] in rs;
    assert Delete(s2, Num(tA), false, Written) == Outcome(Present(Json([gB])), Ok);
  }
}
