/** The article lifecycle: create, look up by slug, update and delete, each
    guarded by "not found" and then "not the author". */
module Articles {
  import opened Common
  import opened Entities

  /** The body of a create request. */
  datatype CreateArticleDto = CreateArticleDto(
    title: string,
    description: string,
    body: string,
    tagList: Option<seq<string>>)

  /** The body of an update request: every field may be left out. */
  datatype UpdateArticleDto = UpdateArticleDto(
    title: Option<string>,
    description: Option<string>,
    body: Option<string>,
    tagList: Option<seq<string>>)

  /** The response body: the article, or nothing when a lookup found none. */
  datatype ArticleResponse = ArticleResponse(article: Option<Article>)

  /** A slug: the slugified title, a hyphen, then a random suffix. `slugify`
      is the transliterating library call, left uninterpreted. */
  function GetSlug(slugify: string -> string, title: string, suffix: string): (slug: string)
    ensures |slug| == |slugify(title)| + 1 + |suffix|
    ensures slug[..|slugify(title)|] == slugify(title)
    ensures slug[|slugify(title)|] == '-'
    ensures slug[|slugify(title)| + 1..] == suffix
  {
    slugify(title) + "-" + suffix
  }

  /** Two slugs for one title differ exactly when their suffixes do. */
  lemma SuffixDecidesSlug(slugify: string -> string, title: string, s1: string, s2: string)
    ensures GetSlug(slugify, title, s1) == GetSlug(slugify, title, s2) <==> s1 == s2
  {
    if GetSlug(slugify, title, s1) == GetSlug(slugify, title, s2) {
      var n := |slugify(title)| + 1;
      assert s1 == GetSlug(slugify, title, s1)[n..];
    }
  }

  /** Wraps a lookup or write result for the response unchanged; an absent
      lookup result is wrapped as nothing. */
  function BuildArticleResponse(article: Option<Article>): (r: ArticleResponse)
    ensures r.article == article
  {
    ArticleResponse(article)
  }

  /** The position of the first article with the slug, if any. */
  function SlugIndex(articles: seq<Article>, slug: string): (r: Option<nat>)
    ensures r.None? <==> forall a :: a in articles ==> a.slug != slug
    ensures r.Some? ==> r.value < |articles| && articles[r.value].slug == slug
    ensures r.Some? ==> forall k :: 0 <= k < r.value ==> articles[k].slug != slug
  {
    if articles == [] then None
    else if articles[0].slug == slug then Some(0)
    else
      match SlugIndex(articles[1..], slug)
      case None => None
      case Some(k) => Some(k + 1)
  }

  /** The article a slug lookup returns: the first one with that slug, or none. */
  function FindBySlug(articles: seq<Article>, slug: string): (r: Option<Article>)
    ensures r.None? <==> forall a :: a in articles ==> a.slug != slug
    ensures r.Some? ==> r.value in articles && r.value.slug == slug
    ensures r.Some? ==> exists i :: 0 <= i < |articles| && articles[i] == r.value
                          && forall k :: 0 <= k < i ==> articles[k].slug != slug
  {
    match SlugIndex(articles, slug)
    case None => None
    case Some(i) => Some(articles[i])
  }

  /** The guards of update and delete, in the order the service checks them:
      the slug must name an article, then the caller must be its author. On
      success, the position of that article. */
  function Authorize(articles: seq<Article>, slug: string, currentUserId: int): (r: Result<nat>)
    ensures r == Err(ArticleNotFound) <==> SlugAbsent(articles, slug)
    ensures r == Err(NotAuthor) <==>
      FindBySlug(articles, slug).Some? && FindBySlug(articles, slug).value.authorId != currentUserId
    ensures r.Ok? <==>
      FindBySlug(articles, slug).Some? && FindBySlug(articles, slug).value.authorId == currentUserId
    ensures r.Ok? ==>
      && r.value < |articles|
      && FindBySlug(articles, slug) == Some(articles[r.value])
      && articles[r.value].authorId == currentUserId
  {
    match SlugIndex(articles, slug)
    case None => Err(ArticleNotFound)
    case Some(i) => if articles[i].authorId != currentUserId then Err(NotAuthor) else Ok(i)
  }

  /** No two rows share an id. */
  predicate DistinctIds(articles: seq<Article>)
  {
    forall i, j :: 0 <= i < j < |articles| ==> articles[i].id != articles[j].id
  }

  /** No row of the table has the slug. */
  predicate SlugAbsent(articles: seq<Article>, slug: string)
  {
    forall a :: a in articles ==> a.slug != slug
  }

  /** The table with every row carrying the slug removed, the rest in order. */
  function WithoutSlug(articles: seq<Article>, slug: string): (r: seq<Article>)
    ensures forall a :: a in r <==> a in articles && a.slug != slug
    ensures |r| <= |articles|
  {
    if articles == [] then []
    else if articles[0].slug == slug then WithoutSlug(articles[1..], slug)
    else [articles[0]] + WithoutSlug(articles[1..], slug)
  }

  /** Deleting by slug keeps each other row as often as the table had it. */
  lemma {:induction false} WithoutSlugCounts(articles: seq<Article>, slug: string, a: Article)
    ensures multiset(WithoutSlug(articles, slug))[a] == if a.slug != slug then multiset(articles)[a] else 0
  {
    if articles != [] {
      WithoutSlugCounts(articles[1..], slug, a);
      assert articles == [articles[0]] + articles[1..];
      assert multiset(articles) == multiset{articles[0]} + multiset(articles[1..]);
      if articles[0].slug != slug {
        var rest := WithoutSlug(articles[1..], slug);
        assert multiset([articles[0]] + rest) == multiset{articles[0]} + multiset(rest);
      }
    }
  }

  /** Deleting by slug removes at least one row exactly when some row has the slug. */
  lemma {:induction false} WithoutSlugShrinks(articles: seq<Article>, slug: string)
    ensures |WithoutSlug(articles, slug)| == |articles| <==> SlugAbsent(articles, slug)
  {
    if articles != [] {
      WithoutSlugShrinks(articles[1..], slug);
      assert articles == [articles[0]] + articles[1..];
      assert SlugAbsent(articles, slug) <==> articles[0].slug != slug && SlugAbsent(articles[1..], slug);
    }
  }

  /** Deleting rows keeps the ids of the remaining rows distinct. */
  lemma {:induction false} WithoutSlugKeepsDistinctIds(articles: seq<Article>, slug: string)
    requires DistinctIds(articles)
    ensures DistinctIds(WithoutSlug(articles, slug))
  {
    if articles != [] {
      var rest := WithoutSlug(articles[1..], slug);
      assert DistinctIds(articles[1..]) by {
        forall i, j | 0 <= i < j < |articles[1..]| ensures articles[1..][i].id != articles[1..][j].id {
          assert articles[1..][i] == articles[i + 1] && articles[1..][j] == articles[j + 1];
        }
      }
      WithoutSlugKeepsDistinctIds(articles[1..], slug);
      if articles[0].slug != slug {
        forall x | x in rest ensures x.id != articles[0].id {
          var k :| 0 <= k < |articles[1..]| && articles[1..][k] == x;
          assert articles[k + 1] == x;
        }
        var r := [articles[0]] + rest;
        forall i, j | 0 <= i < j < |r| ensures r[i].id != r[j].id {
          assert r[j] == rest[j - 1] && r[j] in rest;
          if i > 0 { assert r[i] == rest[i - 1]; }
        }
      }
    }
  }

  /** The update the service evidently intends: each field present in the
      request overwrites the article's, and the slug is regenerated from the
      resulting title. Identity, author and date are kept. */
  function Updated(article: Article, dto: UpdateArticleDto, slugify: string -> string, suffix: string): (r: Article)
    ensures r.title == dto.title.GetOr(article.title)
    ensures r.description == dto.description.GetOr(article.description)
    ensures r.body == dto.body.GetOr(article.body)
    ensures r.tagList == dto.tagList.GetOr(article.tagList)
    ensures r.slug == GetSlug(slugify, r.title, suffix)
    ensures r.(slug := article.slug, title := article.title, description := article.description,
               body := article.body, tagList := article.tagList) == article
  {
    var merged := article.(
      title := dto.title.GetOr(article.title),
      description := dto.description.GetOr(article.description),
      body := dto.body.GetOr(article.body),
      tagList := dto.tagList.GetOr(article.tagList));
    merged.(slug := GetSlug(slugify, merged.title, suffix))
  }

  /** The update as the service writes it: the slug is taken from the request's
      title, so a request without one reaches the slug library with no string,
      which throws. */
  function UpdatedAsWritten(article: Article, dto: UpdateArticleDto, slugify: string -> string, suffix: string): (r: Result<Article>)
    ensures r.Err? <==> dto.title.None?
    ensures r.Err? ==> r.error == SlugOfNoTitle
  {
    match dto.title
    case None => Err(SlugOfNoTitle)
    case Some(t) =>
      Ok(article.(
        title := t,
        description := dto.description.GetOr(article.description),
        body := dto.body.GetOr(article.body),
        tagList := dto.tagList.GetOr(article.tagList),
        slug := GetSlug(slugify, t, suffix)))
  }

  /** When the request carries a title, the two updates agree. */
  lemma UpdateAgreesWithTitle(article: Article, dto: UpdateArticleDto, slugify: string -> string, suffix: string)
    requires dto.title.Some?
    ensures UpdatedAsWritten(article, dto, slugify, suffix) == Ok(Updated(article, dto, slugify, suffix))
  {
  }

  /** Without a title they do not: a request that only edits the body fails as
      written, while the intended update changes the body and keeps the title. */
  lemma BodyOnlyUpdateFailsAsWritten(article: Article, body: string, slugify: string -> string, suffix: string)
    ensures var dto := UpdateArticleDto(None, None, Some(body), None);
      && UpdatedAsWritten(article, dto, slugify, suffix) == Err(SlugOfNoTitle)
      && Updated(article, dto, slugify, suffix).body == body
      && Updated(article, dto, slugify, suffix).title == article.title
  {
  }

  /** After an update that moves the only article with a slug to another slug,
      the old slug no longer resolves. */
  lemma UpdateRetiresOldSlug(articles: seq<Article>, i: nat, updated: Article)
    requires i < |articles|
    requires forall k :: 0 <= k < |articles| && k != i ==> articles[k].slug != articles[i].slug
    requires updated.slug != articles[i].slug
    ensures FindBySlug(articles[i := updated], articles[i].slug).None?
  {
    var after := articles[i := updated];
    forall a | a in after ensures a.slug != articles[i].slug {
      var k :| 0 <= k < |after| && after[k] == a;
    }
  }

  /** A new article whose slug no earlier article carries is what that slug
      then resolves to. */
  lemma CreatedArticleIsFound(articles: seq<Article>, article: Article)
    requires forall a :: a in articles ==> a.slug != article.slug
    ensures FindBySlug(articles + [article], article.slug) == Some(article)
  {
    var after := articles + [article];
    assert forall k :: 0 <= k < |articles| ==> after[k] == articles[k] && after[k] in articles;
    assert after[|articles|] == article;
  }

  /** Deleting goes by slug alone: once the first article with the slug passes
      the ownership check, every row with that slug is removed, whoever wrote it. */
  lemma DeleteRemovesEveryRowWithTheSlug(articles: seq<Article>, slug: string, currentUserId: int, other: Article)
    requires Authorize(articles, slug, currentUserId).Ok?
    requires other in articles && other.slug == slug
    ensures other !in WithoutSlug(articles, slug)
    ensures |WithoutSlug(articles, slug)| < |articles|
  {
    WithoutSlugShrinks(articles, slug);
  }

  /** The service over the articles table. `slugify` is fixed for its lifetime;
      ids are handed out by the table in increasing order. */
  class ArticleService {
    var articles: seq<Article>
    var nextId: nat
    const slugify: string -> string

    /** Ids are unique and all below the next one to hand out. */
    ghost predicate Valid()
      reads this
    {
      && (forall a :: a in articles ==> a.id < nextId)
      && DistinctIds(articles)
    }

    constructor (slugify: string -> string)
      ensures Valid() && articles == [] && this.slugify == slugify
    {
      articles := [];
      nextId := 1;
      this.slugify := slugify;
    }

    /** Stores a new article by the caller. The tag list defaults to empty, the
        slug comes from the title and `suffix` (the random part), and `now` is
        the creation time the table records. */
    method CreateArticle(currentUser: User, dto: CreateArticleDto, suffix: string, now: int) returns (article: Article)
      requires Valid()
      modifies this
      ensures Valid()
      ensures articles == old(articles) + [article]
      ensures article.id == old(nextId) && article.id !in set a | a in old(articles) :: a.id
      ensures article.authorId == currentUser.id
      ensures article.tagList == dto.tagList.GetOr([])
      ensures article.slug == GetSlug(slugify, dto.title, suffix)
      ensures article.title == dto.title && article.description == dto.description && article.body == dto.body
      ensures article.createdAt == now
    {
      var tagList := if dto.tagList.Some? then dto.tagList.value else [];
      article := Article(nextId, GetSlug(slugify, dto.title, suffix), dto.title, dto.description,
                         dto.body, tagList, now, currentUser.id);
      articles := articles + [article];
      nextId := nextId + 1;
    }

    /** Deletes by slug: not found first, then not the author; on success every
        row with the slug is removed and the number of removed rows returned. */
    method DeleteBySlugId(slug: string, currentUserId: int) returns (r: Result<nat>)
      requires Valid()
      modifies this`articles
      ensures Valid()
      ensures Authorize(old(articles), slug, currentUserId).Err? ==>
        r == Err(Authorize(old(articles), slug, currentUserId).error) && articles == old(articles)
      ensures Authorize(old(articles), slug, currentUserId).Ok? ==>
        articles == WithoutSlug(old(articles), slug) && r == Ok(|old(articles)| - |articles|) && r.value >= 1
    {
      var guard := Authorize(articles, slug, currentUserId);
      if guard.Err? {
        return Err(guard.error);
      }
      var before := articles;
      var after := WithoutSlug(before, slug);
      WithoutSlugShrinks(before, slug);
      WithoutSlugKeepsDistinctIds(before, slug);
      assert before[guard.value] in before;
      assert !SlugAbsent(before, slug);
      assert forall a :: a in after ==> a.id < nextId;
      articles := after;
      r := Ok(|before| - |after|);
    }

    /** Updates by slug: not found first, then not the author; on success the
        request's fields overwrite the first article with the slug, whose slug
        is regenerated with `suffix`, and every other row stays as it was. */
    method UpdateBySlugId(slug: string, currentUserId: int, dto: UpdateArticleDto, suffix: string) returns (r: Result<Article>)
      requires Valid()
      modifies this`articles
      ensures Valid()
      ensures Authorize(old(articles), slug, currentUserId).Err? ==>
        r == Err(Authorize(old(articles), slug, currentUserId).error) && articles == old(articles)
      ensures Authorize(old(articles), slug, currentUserId).Ok? ==>
        var i := Authorize(old(articles), slug, currentUserId).value;
        && r == Ok(Updated(old(articles)[i], dto, slugify, suffix))
        && articles == old(articles)[i := r.value]
    {
      var guard := Authorize(articles, slug, currentUserId);
      if guard.Err? {
        return Err(guard.error);
      }
      var i := guard.value;
      var article := Updated(articles[i], dto, slugify, suffix);
      articles := articles[i := article];
      r := Ok(article);
    }
  }
}
