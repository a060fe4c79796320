/** Correction requests (app/Models/CorrectionRequest.php): a status among
    'pending', 'in-progress' and 'completed' (the column's enum, default
    'pending'), a paid flag and a completion time. Each `update([...])` call
    writes the named columns and no other. */
module CorrectionRequests {
  import opened Wrappers

  /** The values the status column admits. */
  predicate IsStatus(s: string) {
    s == "pending" || s == "in-progress" || s == "completed"
  }

  class CorrectionRequest {
    var status: string
    var isPaid: bool
    var completedAt: Option<int>

    /** A new request carries the column defaults. */
    constructor ()
      ensures status == "pending" && !isPaid && completedAt == None
    {
      status := "pending";
      isPaid := false;
      completedAt := None;
    }

    /** `markAsInProgress`: sets the status and nothing else. */
    method MarkAsInProgress()
      modifies this`status
      ensures status == "in-progress"
      ensures IsInProgress() && !IsPending() && !IsCompleted()
    {
      status := "in-progress";
    }

    /** `markAsCompleted`: sets the status and stamps the completion time. */
    method MarkAsCompleted(now: int)
      modifies this`status, this`completedAt
      ensures status == "completed" && completedAt == Some(now)
      ensures IsCompleted() && !IsPending() && !IsInProgress()
    {
      status := "completed";
      completedAt := Some(now);
    }

    /** `markAsPaid`: sets the paid flag; status and completion time stay. */
    method MarkAsPaid()
      modifies this`isPaid
      ensures isPaid
    {
      isPaid := true;
    }

    predicate IsPending()
      reads this
    {
      status == "pending"
    }

    predicate IsInProgress()
      reads this
    {
      status == "in-progress"
    }

    predicate IsCompleted()
      reads this
    {
      status == "completed"
    }
  }

  /** The three status predicates exclude each other, and for a status the
      column admits exactly one of them holds. */
  lemma StatusPredicatesPartition(r: CorrectionRequest)
    ensures !(r.IsPending() && r.IsInProgress())
    ensures !(r.IsPending() && r.IsCompleted())
    ensures !(r.IsInProgress() && r.IsCompleted())
    ensures IsStatus(r.status) <==> (r.IsPending() || r.IsInProgress() || r.IsCompleted())
  {
  }

  /** `where('status', literal)`: the requests with that status, in their
      order. The model uses soft deletes, so `rs` stands for the rows that
      are not soft-deleted. */
  function WhereStatus(rs: seq<CorrectionRequest>, literal: string): (r: seq<CorrectionRequest>)
    reads rs
    ensures |r| <= |rs|
    ensures forall i :: 0 <= i < |r| ==> r[i] in rs && r[i].status == literal
    ensures forall i :: 0 <= i < |rs| && rs[i].status == literal ==> rs[i] in r
  {
    if |rs| == 0 then []
    else (if rs[0].status == literal then [rs[0]] else []) + WhereStatus(rs[1..], literal)
  }

  /** `scopePending`. */
  function ScopePending(rs: seq<CorrectionRequest>): (r: seq<CorrectionRequest>)
    reads rs
    ensures forall i :: 0 <= i < |r| ==> r[i] in rs && r[i].IsPending()
    ensures forall i :: 0 <= i < |rs| && rs[i].IsPending() ==> rs[i] in r
  {
    WhereStatus(rs, "pending")
  }

  /** `scopeInProgress`. */
  function ScopeInProgress(rs: seq<CorrectionRequest>): (r: seq<CorrectionRequest>)
    reads rs
    ensures forall i :: 0 <= i < |r| ==> r[i] in rs && r[i].IsInProgress()
    ensures forall i :: 0 <= i < |rs| && rs[i].IsInProgress() ==> rs[i] in r
  {
    WhereStatus(rs, "in-progress")
  }

  /** `scopeCompleted`. */
  function ScopeCompleted(rs: seq<CorrectionRequest>): (r: seq<CorrectionRequest>)
    reads rs
    ensures forall i :: 0 <= i < |r| ==> r[i] in rs && r[i].IsCompleted()
    ensures forall i :: 0 <= i < |rs| && rs[i].IsCompleted() ==> rs[i] in r
  {
    WhereStatus(rs, "completed")
  }

  /** When every status is one the column admits, the three scopes split the
      requests: together they hold each request exactly as often as the table. */
  lemma {:induction false} ScopesPartition(rs: seq<CorrectionRequest>)
    requires forall x :: x in rs ==> IsStatus(x.status)
    ensures |ScopePending(rs)| + |ScopeInProgress(rs)| + |ScopeCompleted(rs)| == |rs|
    ensures multiset(ScopePending(rs)) + multiset(ScopeInProgress(rs)) + multiset(ScopeCompleted(rs)) == multiset(rs)
  {
    if |rs| > 0 {
      ScopesPartition(rs[1..]);
      assert rs == [rs[0]] + rs[1..];
    }
  }
}
