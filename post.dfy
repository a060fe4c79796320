/** The simple post model (app/Models/Post.php): a published flag and a
    publication time, written together by `publish` and `unpublish`. */
module Posts {
  import opened Wrappers

  class Post {
    var isPublished: bool
    var publishedAt: Option<int>

    constructor (isPublished: bool, publishedAt: Option<int>)
      ensures this.isPublished == isPublished && this.publishedAt == publishedAt
    {
      this.isPublished := isPublished;
      this.publishedAt := publishedAt;
    }

    /** `scopePublished`: the flag is set and a publication time is present
        (no comparison with the current time). */
    predicate InPublishedScope()
      reads this
    {
      isPublished && publishedAt.Some?
    }

    /** `publish`: always stamps `now`, replacing any earlier time. */
    method Publish(now: int)
      modifies this
      ensures isPublished && publishedAt == Some(now)
      ensures InPublishedScope()
    {
      isPublished := true;
      publishedAt := Some(now);
    }

    /** `unpublish`: clears the flag and the time. */
    method Unpublish()
      modifies this
      ensures !isPublished && publishedAt == None
      ensures !InPublishedScope()
    {
      isPublished := false;
      publishedAt := None;
    }
  }
}
