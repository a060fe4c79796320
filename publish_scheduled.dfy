/** The console command `blog:publish-scheduled`
    (app/Console/Commands/PublishScheduledBlogPosts.php). It works on the
    `status` vocabulary of the blog post table, not on the model's
    `is_published`/`is_draft` flags. Rows are addressed by their position in
    the table, standing for the primary key; a save that throws is modelled by
    the set of ids whose save fails in this run, and "now" is passed in. */
module PublishScheduledBlogPosts {
  import opened Wrappers

  /** The stored columns the command reads or writes. */
  datatype StoredPost = StoredPost(id: int, status: string, publishedAt: Option<int>, scheduledAt: Option<int>)

  /** What the command reports for one selected post. */
  datatype Outcome = Published(id: int) | Failed(id: int)

  /** The command's query: status 'draft' and a schedule time that has been reached. */
  predicate Selected(p: StoredPost, now: int) {
    p.status == "draft" && p.scheduledAt.Some? && p.scheduledAt.value <= now
  }

  /** The two assignments made to a selected post before it is saved. A
      published post is never selected again, whatever the time. */
  function Publish(p: StoredPost): (q: StoredPost)
    ensures q.id == p.id && q.status == "published"
    ensures q.publishedAt == p.scheduledAt && q.scheduledAt == p.scheduledAt
    ensures forall now :: !Selected(q, now)
  {
    p.(status := "published", publishedAt := p.scheduledAt)
  }

  /** What one run leaves in storage for one post. */
  function Effect(p: StoredPost, now: int, failing: set<int>): StoredPost {
    if Selected(p, now) && p.id !in failing then Publish(p) else p
  }

  /** The stored table after one run, post by post. */
  function RunOnce(rows: seq<StoredPost>, now: int, failing: set<int>): seq<StoredPost> {
    seq(|rows|, i requires 0 <= i < |rows| => Effect(rows[i], now, failing))
  }

  /** The positions the query returns: exactly the selected posts, each
      once. The query has no `orderBy`; table order stands for the order the
      database returns. */
  function DueIndices(rows: seq<StoredPost>, now: int): (sel: seq<nat>)
    ensures forall k :: 0 <= k < |sel| ==> sel[k] < |rows| && Selected(rows[sel[k]], now)
    ensures forall k, l :: 0 <= k < l < |sel| ==> sel[k] < sel[l]
    ensures forall i :: 0 <= i < |rows| && Selected(rows[i], now) ==> i in sel
  {
    if |rows| == 0 then []
    else DueIndices(rows[..|rows| - 1], now) + (if Selected(rows[|rows| - 1], now) then [|rows| - 1] else [])
  }

  function OutcomeOf(p: StoredPost, failing: set<int>): Outcome {
    if p.id in failing then Failed(p.id) else Published(p.id)
  }

  /** The outcomes of one run, in the order of the query. */
  function Report(rows: seq<StoredPost>, now: int, failing: set<int>): seq<Outcome> {
    var sel := DueIndices(rows, now);
    seq(|sel|, k requires 0 <= k < |sel| => OutcomeOf(rows[sel[k]], failing))
  }

  /** The blog post table as the command sees it. */
  class BlogPostTable {
    var rows: seq<StoredPost>

    constructor (rows: seq<StoredPost>)
      ensures this.rows == rows
    {
      this.rows := rows;
    }
  }

  /** `handle`: publishes every selected post whose save succeeds, reports
      each selected post, and returns 0 whenever it returns. */
  method Handle(table: BlogPostTable, now: int, failing: set<int>) returns (exitCode: int, report: seq<Outcome>)
    modifies table
    ensures exitCode == 0
    ensures table.rows == RunOnce(old(table.rows), now, failing)
    ensures report == Report(old(table.rows), now, failing)
  {
    var postsToPublish := DueIndices(table.rows, now);
    ghost var rows0 := table.rows;
    report := [];
    if |postsToPublish| == 0 {
      NothingDue(rows0, now, failing);
      return 0, report;
    }
    for k := 0 to |postsToPublish|
      invariant table.rows == Processed(rows0, postsToPublish[..k], now, failing)
      invariant report == ReportPrefix(rows0, postsToPublish, k, failing)
    {
      var i := postsToPublish[k];
      ProcessedStep(rows0, postsToPublish, k, now, failing);
      var post := table.rows[i];
      post := post.(status := "published");
      post := post.(publishedAt := post.scheduledAt);
      if post.id in failing {
        // save() throws: storage keeps the row, the loop goes on.
        report := report + [Failed(post.id)];
      } else {
        table.rows := table.rows[i := post];
        report := report + [Published(post.id)];
      }
    }
    ProcessedAll(rows0, now, failing);
    return 0, report;
  }

  /** The table once the posts at the positions `done` have been processed. */
  ghost function Processed(rows: seq<StoredPost>, done: seq<nat>, now: int, failing: set<int>): seq<StoredPost> {
    seq(|rows|, i requires 0 <= i < |rows| => if i in done then Effect(rows[i], now, failing) else rows[i])
  }

  /** The outcomes of the first `k` selected posts. */
  ghost function ReportPrefix(rows: seq<StoredPost>, sel: seq<nat>, k: nat, failing: set<int>): seq<Outcome>
    requires k <= |sel|
    requires forall j :: 0 <= j < |sel| ==> sel[j] < |rows|
  {
    seq(k, j requires 0 <= j < k => OutcomeOf(rows[sel[j]], failing))
  }

  /** Processing one more position updates that row alone. */
  lemma ProcessedAdd(rows: seq<StoredPost>, done: seq<nat>, i: nat, now: int, failing: set<int>)
    requires i < |rows| && i !in done
    ensures Processed(rows, done, now, failing)[i] == rows[i]
    ensures Processed(rows, done + [i], now, failing) ==
              Processed(rows, done, now, failing)[i := Effect(rows[i], now, failing)]
  {
    var before, after := Processed(rows, done, now, failing), Processed(rows, done + [i], now, failing);
    forall j | 0 <= j < |rows|
      ensures after[j] == before[i := Effect(rows[i], now, failing)][j]
    {
      assert (j in done + [i]) == (j in done || j == i);
    }
  }

  lemma ProcessedStep(rows: seq<StoredPost>, sel: seq<nat>, k: nat, now: int, failing: set<int>)
    requires k < |sel| && forall m :: 0 <= m < |sel| ==> sel[m] < |rows|
    requires forall m, l :: 0 <= m < l < |sel| ==> sel[m] < sel[l]
    requires Selected(rows[sel[k]], now)
    ensures var i, p := sel[k], rows[sel[k]];
            var q := p.(status := "published").(publishedAt := p.scheduledAt);
            && Processed(rows, sel[..k], now, failing)[i] == p
            && Processed(rows, sel[..k + 1], now, failing) ==
                 (if p.id in failing then Processed(rows, sel[..k], now, failing)
                  else Processed(rows, sel[..k], now, failing)[i := q])
            && ReportPrefix(rows, sel, k + 1, failing) ==
                 ReportPrefix(rows, sel, k, failing) + [if p.id in failing then Failed(p.id) else Published(p.id)]
  {
    var i, p := sel[k], rows[sel[k]];
    assert i !in sel[..k] by {
      forall m | 0 <= m < k
        ensures sel[..k][m] != i
      {
        assert sel[m] < sel[k];
      }
    }
    assert sel[..k + 1] == sel[..k] + [i];
    ProcessedAdd(rows, sel[..k], i, now, failing);
    if p.id in failing {
      var before := Processed(rows, sel[..k], now, failing);
      assert before[i := p] == before;
    }
    ReportPrefixStep(rows, sel, k, failing);
  }

  lemma ReportPrefixStep(rows: seq<StoredPost>, sel: seq<nat>, k: nat, failing: set<int>)
    requires k < |sel|
    requires forall j :: 0 <= j < |sel| ==> sel[j] < |rows|
    ensures ReportPrefix(rows, sel, k + 1, failing) == ReportPrefix(rows, sel, k, failing) + [OutcomeOf(rows[sel[k]], failing)]
  {
  }

  lemma ProcessedAll(rows: seq<StoredPost>, now: int, failing: set<int>)
    ensures var sel := DueIndices(rows, now);
            Processed(rows, sel[..|sel|], now, failing) == RunOnce(rows, now, failing)
  {
    var sel := DueIndices(rows, now);
    assert sel[..|sel|] == sel;
  }

  /** An empty selection changes nothing and reports nothing. */
  lemma NothingDue(rows: seq<StoredPost>, now: int, failing: set<int>)
    requires DueIndices(rows, now) == []
    ensures RunOnce(rows, now, failing) == rows
    ensures Report(rows, now, failing) == []
  {
    forall i | 0 <= i < |rows|
      ensures RunOnce(rows, now, failing)[i] == rows[i]
    {
      assert !Selected(rows[i], now);
    }
  }

  /** What one run does to each post: an unselected post is untouched; a
      selected post whose save fails is untouched; a selected post whose save
      succeeds becomes published at its schedule time, which is not after
      `now`, and keeps its schedule. */
  lemma RunOnceAt(rows: seq<StoredPost>, now: int, failing: set<int>, i: int)
    requires 0 <= i < |rows|
    ensures var after := RunOnce(rows, now, failing)[i];
            && |RunOnce(rows, now, failing)| == |rows|
            && (!Selected(rows[i], now) || rows[i].id in failing ==> after == rows[i])
            && (Selected(rows[i], now) && rows[i].id !in failing ==>
                  && after.id == rows[i].id
                  && after.status == "published"
                  && after.publishedAt == rows[i].scheduledAt
                  && after.publishedAt.Some? && after.publishedAt.value <= now
                  && after.scheduledAt == rows[i].scheduledAt)
  {
  }

  /** A second run at the same time with the same failing saves changes
      nothing: what the first run published no longer matches 'draft'. */
  lemma {:induction false} RunOnceIdempotent(rows: seq<StoredPost>, now: int, failing: set<int>)
    ensures RunOnce(RunOnce(rows, now, failing), now, failing) == RunOnce(rows, now, failing)
  {
    var once := RunOnce(rows, now, failing);
    forall i | 0 <= i < |rows|
      ensures RunOnce(once, now, failing)[i] == once[i]
    {
      RunOnceAt(rows, now, failing, i);
      RunOnceAt(once, now, failing, i);
    }
  }

  /** Only the posts whose save failed are selected again by a later run. */
  lemma {:induction false} ReselectedOnlyAfterFailure(rows: seq<StoredPost>, now1: int, now2: int, failing: set<int>, i: int)
    requires 0 <= i < |rows|
    requires Selected(RunOnce(rows, now1, failing)[i], now2)
    ensures rows[i].id in failing || !Selected(rows[i], now1)
    ensures RunOnce(rows, now1, failing)[i] == rows[i]
  {
    RunOnceAt(rows, now1, failing, i);
  }

  /** Across two runs at `now1 <= now2` a post is published at most once,
      and a post due by `now2` is published by one of them unless its save
      failed in each run that selected it. */
  lemma {:induction false} PublishedExactlyOnce(rows: seq<StoredPost>, now1: int, now2: int,
                                              failing1: set<int>, failing2: set<int>, i: int)
    requires now1 <= now2 && 0 <= i < |rows|
    ensures var first := RunOnce(rows, now1, failing1);
            var second := RunOnce(first, now2, failing2);
            && (first[i] != rows[i] ==> second[i] == first[i])
            && (Selected(rows[i], now2) ==>
                  (second[i] == Publish(rows[i]) <==>
                     (Selected(rows[i], now1) && rows[i].id !in failing1) || rows[i].id !in failing2))
  {
    var first := RunOnce(rows, now1, failing1);
    RunOnceAt(rows, now1, failing1, i);
    RunOnceAt(first, now2, failing2, i);
  }

  /** A failing save of one post does not prevent any other post from being
      published. */
  lemma {:induction false} FailureIsolated(rows: seq<StoredPost>, now: int, failing: set<int>, bad: int, i: int)
    requires 0 <= i < |rows| && rows[i].id != bad
    ensures RunOnce(rows, now, failing + {bad})[i] == RunOnce(rows, now, failing - {bad})[i]
  {
    RunOnceAt(rows, now, failing + {bad}, i);
    RunOnceAt(rows, now, failing - {bad}, i);
  }

  /** After a run with no failing saves nothing is due any more, so the
      next run reports nothing. */
  lemma {:induction false} NothingLeftAfterCleanRun(rows: seq<StoredPost>, now: int)
    ensures Report(RunOnce(rows, now, {}), now, {}) == []
    ensures RunOnce(RunOnce(rows, now, {}), now, {}) == RunOnce(rows, now, {})
  {
    var once := RunOnce(rows, now, {});
    var sel := DueIndices(once, now);
    if |sel| > 0 {
      RunOnceAt(rows, now, {}, sel[0]);
      assert false;
    }
    RunOnceIdempotent(rows, now, {});
  }

  /** Three drafts, all due by time 200. */
  function ThreeDrafts(): seq<StoredPost> {
    [StoredPost(1, "draft", None, Some(100)),
     StoredPost(2, "draft", None, Some(110)),
     StoredPost(3, "draft", None, Some(120))]
  }

  /** When every post is due the query returns every position, in order. */
  lemma {:induction false} AllDue(rows: seq<StoredPost>, now: int)
    requires forall i :: 0 <= i < |rows| ==> Selected(rows[i], now)
    ensures |DueIndices(rows, now)| == |rows|
    ensures forall k :: 0 <= k < |rows| ==> DueIndices(rows, now)[k] == k
  {
    if |rows| > 0 {
      var pre := rows[..|rows| - 1];
      AllDue(pre, now);
    }
  }

  /** Three due posts whose second save fails: the report reads Published,
      Failed, Published, in query order, and the first and third are stored
      as published while the second keeps its draft row. */
  lemma ThreeDueOneFails()
    ensures Report(ThreeDrafts(), 200, {2}) == [Published(1), Failed(2), Published(3)]
    ensures RunOnce(ThreeDrafts(), 200, {2}) == [StoredPost(1, "published", Some(100), Some(100)),
                                                ThreeDrafts()[1],
                                                StoredPost(3, "published", Some(120), Some(120))]
  {
    AllDue(ThreeDrafts(), 200);
    var r := Report(ThreeDrafts(), 200, {2});
    assert |r| == 3 && r[0] == Published(1) && r[1] == Failed(2) && r[2] == Published(3);
    var t := RunOnce(ThreeDrafts(), 200, {2});
    assert |t| == 3 && t[0] == Publish(ThreeDrafts()[0]) && t[1] == ThreeDrafts()[1] && t[2] == Publish(ThreeDrafts()[2]);
  }

  /** A post scheduled for 3600 is left alone by a run at 1800 and published,
      dated 3600, by a run at 3660. */
  lemma ScheduledScenario()
    ensures var p := StoredPost(7, "draft", None, Some(3600));
            && RunOnce([p], 1800, {}) == [p]
            && RunOnce(RunOnce([p], 1800, {}), 3660, {}) == [StoredPost(7, "published", Some(3600), Some(3600))]
  {
  }
}
