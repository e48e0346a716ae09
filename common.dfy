/** Failure-carrying result types and the error kinds the two services raise. */
module Common {

  datatype Option<+T> = None | Some(value: T) {
    function GetOr(default: T): T {
      match this
      case Some(v) => v
      case None => default
    }
  }

  /** The errors a service call can end in. Each guard of the services raises
      exactly one of these; `Status` records the HTTP status it is reported with. */
  datatype Failure =
    | ArticleNotFound   // 'Article not found'
    | NotAuthor         // 'You are not an author'
    | ProfileNotFound   // 'Profile not found'
    | SelfFollow        // 'Follower and Following cannot be equal'
    | AuthorNotFound    // listing filtered by an unknown author: the lookup result is dereferenced
    | SlugOfNoTitle     // a slug requested for an absent title: slugify rejects a non-string

  datatype Result<+T> = Ok(value: T) | Err(error: Failure)

  const NOT_FOUND: int := 404
  const FORBIDDEN: int := 403
  const INTERNAL_SERVER_ERROR: int := 500

  /** The HTTP status each failure reaches the client with. The self-follow
      guard is tagged NOT_FOUND in the services, not a client-error status of its own;
      an uncaught exception becomes INTERNAL_SERVER_ERROR. */
  function Status(e: Failure): (code: int)
    ensures code == FORBIDDEN <==> e == NotAuthor
    ensures code == INTERNAL_SERVER_ERROR <==> e in {AuthorNotFound, SlugOfNoTitle}
    ensures code == NOT_FOUND <==> e in {ArticleNotFound, ProfileNotFound, SelfFollow}
  {
    match e
    case ArticleNotFound => NOT_FOUND
    case NotAuthor => FORBIDDEN
    case ProfileNotFound => NOT_FOUND
    case SelfFollow => NOT_FOUND
    case AuthorNotFound => INTERNAL_SERVER_ERROR
    case SlugOfNoTitle => INTERNAL_SERVER_ERROR
  }
}
