/** Grievance records, the record built by a submission, and the filter
    that delete applies to the stored list. */
module Records {
  import opened Values

  /** The fields a submission carries in its request body, each as the body
      parser produced it (a missing field is `Undefined`). */
  datatype Form = Form(title: Value, complaint: Value, mood: Value, date: Value)

  /** One stored grievance record `{id, title, complaint, mood, date}`. */
  datatype Grievance = Grievance(id: Value, title: Value, complaint: Value, mood: Value, date: Value)

  /** The user-supplied part of a record. */
  function UserFields(g: Grievance): Form
  {
    Form(g.title, g.complaint, g.mood, g.date)
  }

  /** The record a submission builds: the clock reading as its numeric id,
      and the body's four fields verbatim, with no trimming or validation. */
  function NewGrievance(clock: int, body: Form): (g: Grievance)
    ensures g.id == Num(clock)
    ensures UserFields(g) == body
  {
    Grievance(Num(clock), body.title, body.complaint, body.mood, body.date)
  }

  /** Whether a record's id is strictly equal to the requested id. */
  predicate Matches(g: Grievance, id: Value)
  {
    StrictEquals(g.id, id)
  }

  /** Whether some record of the list has the requested id. */
  predicate HasId(rs: seq<Grievance>, id: Value)
  {
    exists g :: g in rs && Matches(g, id)
  }

  /** The list delete keeps: `rs.filter(g => g.id !== id)`. */
  function Without(rs: seq<Grievance>, id: Value): (kept: seq<Grievance>)
    ensures |kept| <= |rs|
  {
    if rs == [] then []
    else if Matches(rs[0], id) then Without(rs[1..], id)
    else [rs[0]] + Without(rs[1..], id)
  }

  /** How many records of the list have the requested id. */
  function CountMatches(rs: seq<Grievance>, id: Value): nat
  {
    if rs == [] then 0
    else (if Matches(rs[0], id) then 1 else 0) + CountMatches(rs[1..], id)
  }

  /** No two records of the list share an id. */
  predicate DistinctIds(rs: seq<Grievance>)
  {
    forall i, j :: 0 <= i < j < |rs| ==> rs[i].id != rs[j].id
  }

  /** The filter keeps exactly the records whose id does not match. */
  lemma {:induction false} WithoutMembership(rs: seq<Grievance>, id: Value, g: Grievance)
    ensures g in Without(rs, id) <==> g in rs && !Matches(g, id)
  {
    if rs != [] {
      WithoutMembership(rs[1..], id, g);
      assert rs == [rs[0]] + rs[1..];
    }
  }

  /** The filter works record by record, left to right: filtering a
      concatenation is concatenating the filtered parts, so the records
      that stay keep their original order. */
  lemma {:induction false} WithoutDistributes(a: seq<Grievance>, b: seq<Grievance>, id: Value)
    ensures Without(a + b, id) == Without(a, id) + Without(b, id)
  {
    if a == [] {
      assert a + b == b;
    } else {
      assert (a + b)[1..] == a[1..] + b;
      WithoutDistributes(a[1..], b, id);
    }
  }

  /** The filter drops exactly as many records as match. */
  lemma {:induction false} WithoutCount(rs: seq<Grievance>, id: Value)
    ensures |Without(rs, id)| + CountMatches(rs, id) == |rs|
  {
    if rs != [] {
      WithoutCount(rs[1..], id);
    }
  }

  /** Delete's length comparison decides "not found" correctly: the filtered
      list is as long as the original exactly when no record matches, and
      then it is the original list. */
  lemma {:induction false} WithoutUnchangedIffNoMatch(rs: seq<Grievance>, id: Value)
    ensures |Without(rs, id)| == |rs| <==> !HasId(rs, id)
    ensures !HasId(rs, id) ==> Without(rs, id) == rs
  {
    if rs != [] {
      WithoutUnchangedIffNoMatch(rs[1..], id);
      assert rs == [rs[0]] + rs[1..];
      if Matches(rs[0], id) {
        assert HasId(rs, id) by { assert rs[0] in rs; }
      } else {
        assert HasId(rs, id) <==> HasId(rs[1..], id) by {
          forall g | g in rs && Matches(g, id) ensures g in rs[1..] {
          }
        }
      }
    }
  }

  /** Dropping the first record keeps the ids of the rest distinct. */
  lemma DistinctTail(rs: seq<Grievance>)
    requires rs != [] && DistinctIds(rs)
    ensures DistinctIds(rs[1..])
  {
    var rest := rs[1..];
    forall i, j | 0 <= i < j < |rest| ensures rest[i].id != rest[j].id {
      assert rest[i] == rs[i + 1] && rest[j] == rs[j + 1];
    }
  }

  /** Removing records cannot create a duplicate id. */
  lemma {:induction false} WithoutKeepsDistinct(rs: seq<Grievance>, id: Value)
    requires DistinctIds(rs)
    ensures DistinctIds(Without(rs, id))
  {
    if rs != [] {
      var rest := rs[1..];
      DistinctTail(rs);
      WithoutKeepsDistinct(rest, id);
      if !Matches(rs[0], id) {
        var w := Without(rest, id);
        forall k | 0 <= k < |w| ensures w[k].id != rs[0].id {
          WithoutMembership(rest, id, w[k]);
          var j :| 0 <= j < |rest| && rest[j] == w[k];
          assert rs[j + 1] == w[k];
        }
        var r := [rs[0]] + w;
        forall i, j | 0 <= i < j < |r| ensures r[i].id != r[j].id {
          if i == 0 {
            assert r[j] == w[j - 1];
          } else {
            assert r[i] == w[i - 1] && r[j] == w[j - 1];
          }
        }
      }
    }
  }

  /** With distinct ids, at most one record matches a requested id. */
  lemma {:induction false} DistinctAtMostOneMatch(rs: seq<Grievance>, id: Value)
    requires DistinctIds(rs)
    ensures CountMatches(rs, id) <= 1
  {
    if rs != [] {
      var rest := rs[1..];
      DistinctTail(rs);
      DistinctAtMostOneMatch(rest, id);
      if Matches(rs[0], id) {
        assert !HasId(rest, id) by {
          forall g | g in rest ensures !Matches(g, id) {
            var j :| 0 <= j < |rest| && rest[j] == g;
            assert rs[j + 1] == g;
          }
        }
        WithoutUnchangedIffNoMatch(rest, id);
        WithoutCount(rest, id);
      }
    }
  }
}
