/** The blog post model of app/Models/BlogPost.php: its publication flags
    `is_published`/`is_draft`, the `published_at`/`scheduled_at` timestamps,
    the query scopes over them and the unique-slug generator.
    Timestamps are integers; "now" is passed in rather than read from a clock. */
module BlogPosts {
  import opened Wrappers
  import Decimal

  /** One blog post model instance, holding the attributes the publication
      logic reads or writes. */
  class BlogPost {
    var id: int
    var slug: string
    var isPublished: bool
    var isDraft: bool
    var publishedAt: Option<int>
    var scheduledAt: Option<int>
    /** `getOriginal('is_published')`: the value as last read from or written to storage. */
    var originalIsPublished: bool

    /** A new, unsaved post carries the attribute defaults: a draft, not published. */
    constructor (id: int, slug: string)
      ensures this.id == id && this.slug == slug
      ensures isDraft && !isPublished && publishedAt == None && scheduledAt == None
      ensures !originalIsPublished
    {
      this.id := id;
      this.slug := slug;
      isDraft := true;
      isPublished := false;
      publishedAt := None;
      scheduledAt := None;
      originalIsPublished := false;
    }

    /** A post read from storage: its original attributes are the stored ones. */
    constructor Load(id: int, slug: string, isPublished: bool, isDraft: bool,
                     publishedAt: Option<int>, scheduledAt: Option<int>)
      ensures this.id == id && this.slug == slug
      ensures this.isPublished == isPublished && this.isDraft == isDraft
      ensures this.publishedAt == publishedAt && this.scheduledAt == scheduledAt
      ensures originalIsPublished == isPublished
    {
      this.id := id;
      this.slug := slug;
      this.isPublished := isPublished;
      this.isDraft := isDraft;
      this.publishedAt := publishedAt;
      this.scheduledAt := scheduledAt;
      originalIsPublished := isPublished;
    }

    /** `scopePublished`: published, with a publication time that has been reached. */
    predicate Published(now: int)
      reads this
    {
      isPublished && publishedAt.Some? && publishedAt.value <= now
    }

    /** `scopeDrafts`: the draft flag is set. */
    predicate Draft()
      reads this
    {
      isDraft
    }

    /** `scopeScheduledAndDue`: not published, with a schedule time that has been
        reached. Such a post is never also in the published scope. */
    function ScheduledAndDue(now: int): (due: bool)
      reads this
      ensures due ==> !Published(now)
      ensures due ==> scheduledAt.Some? && scheduledAt.value <= now
    {
      !isPublished && scheduledAt.Some? && scheduledAt.value <= now
    }

    /** `markAsDraft`: unpublishes and forgets the publication time; the
        schedule is kept. */
    method MarkAsDraft()
      modifies this`isPublished, this`isDraft, this`publishedAt
      ensures !isPublished && isDraft && publishedAt == None
      ensures scheduledAt == old(scheduledAt)
      ensures Draft() && forall now :: !Published(now)
    {
      isPublished := false;
      isDraft := true;
      publishedAt := None;
    }

    /** `markAsPublished`: publishes and clears the schedule. The publication
        time is kept only when the post was already published in storage and
        has one; otherwise it becomes `now`. */
    method MarkAsPublished(now: int)
      modifies this`isPublished, this`isDraft, this`publishedAt, this`scheduledAt
      ensures isPublished && !isDraft && scheduledAt == None
      ensures !Draft()
      ensures publishedAt ==
                if old(publishedAt).Some? && originalIsPublished then old(publishedAt) else Some(now)
      ensures forall t :: !ScheduledAndDue(t)
      ensures Published(now) <==> publishedAt.value <= now
      ensures !(old(publishedAt).Some? && originalIsPublished) ==> Published(now)
    {
      isPublished := true;
      isDraft := false;
      if publishedAt == None || !originalIsPublished {
        publishedAt := Some(now);
      }
      scheduledAt := None;
    }
  }

  /** A post in the published scope stays in it as time passes. */
  lemma PublishedLater(p: BlogPost, t1: int, t2: int)
    requires t1 <= t2 && p.Published(t1)
    ensures p.Published(t2)
  {
  }

  /** The slug columns of the stored posts that `generateUniqueSlug` queries. */
  datatype SlugRow = SlugRow(id: int, slug: string)

  /** PHP `empty()` on a string: true for "" and for "0". */
  predicate IsEmptyString(s: string) {
    s == "" || s == "0"
  }

  /** The slug the search starts from: the slug of the title, or "post-" and
      a random string when that is empty. */
  function BaseSlug(titleSlug: string, random: string): string {
    if IsEmptyString(titleSlug) then "post-" + random else titleSlug
  }

  /** `->when($excludeId, ...)`: a null or zero id excludes no row. */
  predicate Excluded(id: int, excludeId: Option<int>) {
    excludeId.Some? && excludeId.value != 0 && id == excludeId.value
  }

  /** Some post other than the excluded one already owns `slug`. */
  predicate Taken(rows: seq<SlugRow>, slug: string, excludeId: Option<int>) {
    exists i :: 0 <= i < |rows| && rows[i].slug == slug && !Excluded(rows[i].id, excludeId)
  }

  /** The `k`-th candidate after the base: `base-k`. */
  function Suffixed(base: string, k: nat): string {
    base + "-" + Decimal.NatToString(k)
  }

  /** The counter `k` when `s` has the form `base-k`, and -1 otherwise. */
  function CounterOf(s: string, base: string): int {
    if |s| >= |base| + 2 && s[..|base|] == base && s[|base|] == '-'
       && Decimal.AllDigits(s[|base| + 1..])
    then Decimal.ParseNat(s[|base| + 1..])
    else -1
  }

  lemma CounterOfSuffixed(base: string, k: nat)
    ensures CounterOf(Suffixed(base, k), base) == k
  {
    var s := Suffixed(base, k);
    assert s[..|base|] == base;
    assert s[|base| + 1..] == Decimal.NatToString(k);
    Decimal.ParseNatToString(k);
  }

  /** Different counters give different candidates. */
  lemma SuffixedInjective(base: string, j: nat, k: nat)
    requires Suffixed(base, j) == Suffixed(base, k)
    ensures j == k
  {
    CounterOfSuffixed(base, j);
    CounterOfSuffixed(base, k);
  }

  /** The rows, not excluded, whose slug is `base-k` for some `k >= t`. */
  ghost function PendingRows(rows: seq<SlugRow>, base: string, excludeId: Option<int>, t: int): set<int> {
    set i | 0 <= i < |rows| && CounterOf(rows[i].slug, base) >= t && !Excluded(rows[i].id, excludeId)
  }

  lemma PendingRowsShrink(rows: seq<SlugRow>, base: string, excludeId: Option<int>, t: int, i: int)
    requires i in PendingRows(rows, base, excludeId, t)
    ensures |PendingRows(rows, base, excludeId, t + 1)| <= |PendingRows(rows, base, excludeId, t)|
    ensures i !in PendingRows(rows, base, excludeId, t + 1) ==>
              |PendingRows(rows, base, excludeId, t + 1)| < |PendingRows(rows, base, excludeId, t)|
  {
    var small, big := PendingRows(rows, base, excludeId, t + 1), PendingRows(rows, base, excludeId, t);
    assert big == small + (big - small);
    if i !in small {
      assert i in big - small;
    }
  }

  /** What is left of the search once `count - 1` candidates have been tried:
      the rows whose slug is the base or a later candidate, plus one while the
      base itself is still untried. */
  ghost function SearchMeasure(rows: seq<SlugRow>, base: string, excludeId: Option<int>, count: nat): nat {
    |PendingRows(rows, base, excludeId, count - 1)| + (if count <= 1 then 1 else 0)
  }

  /** A candidate owned by another post leaves less to search after it. */
  lemma SearchProgress(rows: seq<SlugRow>, base: string, excludeId: Option<int>, count: nat, i: int)
    requires count >= 1 && 0 <= i < |rows| && !Excluded(rows[i].id, excludeId)
    requires rows[i].slug == Candidate(base, count - 1)
    ensures SearchMeasure(rows, base, excludeId, count + 1) < SearchMeasure(rows, base, excludeId, count)
  {
    if count >= 2 {
      CounterOfSuffixed(base, count - 1);
      PendingRowsShrink(rows, base, excludeId, count - 1, i);
    } else {
      PendingRowsShrink0(rows, base, excludeId);
    }
  }

  /** The `k`-th slug the search tries: the base, then `base-1`, `base-2`, … */
  function Candidate(base: string, k: nat): string {
    if k == 0 then base else Suffixed(base, k)
  }

  /** Each of the first `n` candidates is owned by some other post. */
  predicate AllTaken(rows: seq<SlugRow>, base: string, excludeId: Option<int>, n: nat) {
    forall j: nat :: j < n ==> Taken(rows, Candidate(base, j), excludeId)
  }

  lemma AllTakenStep(rows: seq<SlugRow>, base: string, excludeId: Option<int>, n: nat)
    requires AllTaken(rows, base, excludeId, n) && Taken(rows, Candidate(base, n), excludeId)
    ensures AllTaken(rows, base, excludeId, n + 1)
  {
    forall j: nat | j < n + 1
      ensures Taken(rows, Candidate(base, j), excludeId)
    {
      if j < n {
        assert Taken(rows, Candidate(base, j), excludeId);
      }
    }
  }

  /** `generateUniqueSlug`: the first candidate, starting from the slug of the
      title (or `post-` and a random string when that is empty), that no
      other post owns. `titleSlug` is the result of `Str::slug($title)` and
      `random` that of `Str::random(8)`. */
  method GenerateUniqueSlug(rows: seq<SlugRow>, titleSlug: string, random: string,
                            excludeId: Option<int>) returns (slug: string)
    ensures !Taken(rows, slug, excludeId)
    ensures exists k: nat :: slug == Candidate(BaseSlug(titleSlug, random), k)
                             && AllTaken(rows, BaseSlug(titleSlug, random), excludeId, k)
  {
    slug := titleSlug;
    if IsEmptyString(slug) {
      slug := "post-" + random;
    }
    var originalSlug := slug;
    assert originalSlug == BaseSlug(titleSlug, random);
    var count: nat := 1;
    while Taken(rows, slug, excludeId)
      invariant count >= 1 && slug == Candidate(originalSlug, count - 1)
      invariant AllTaken(rows, originalSlug, excludeId, count - 1)
      decreases SearchMeasure(rows, originalSlug, excludeId, count)
    {
      var i :| 0 <= i < |rows| && rows[i].slug == slug && !Excluded(rows[i].id, excludeId);
      SearchProgress(rows, originalSlug, excludeId, count, i);
      AllTakenStep(rows, originalSlug, excludeId, count - 1);
      slug := Suffixed(originalSlug, count);
      count := count + 1;
    }
    assert slug == Candidate(originalSlug, count - 1) && AllTaken(rows, originalSlug, excludeId, count - 1);
  }

  lemma PendingRowsShrink0(rows: seq<SlugRow>, base: string, excludeId: Option<int>)
    ensures |PendingRows(rows, base, excludeId, 1)| <= |PendingRows(rows, base, excludeId, 0)|
  {
    var small, big := PendingRows(rows, base, excludeId, 1), PendingRows(rows, base, excludeId, 0);
    assert big == small + (big - small);
  }
}
