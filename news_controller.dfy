/** The news controller: the ordered validation of each operation and the operations
    themselves, which reach the news store only once validation has passed. */
module NewsApi {
  import opened Common
  import opened Calendar
  import opened Guids
  import opened Entities
  import opened InputValidation
  import opened NewsStorage
  import opened BusinessChecks

  const NotFoundFailure := BusinessFailure(NotFound, NewsNotFound)
  const NotAuthorFailure := BusinessFailure(Unauthorized, NotAuthorized)

  /** `ValidateGetNewsOperation`: the route parameters (400), then existence (404). */
  function ValidateGetNewsOperation(items: NewsItems, checks: Checks, city: Text, date: Text, id: Text): (r: Outcome)
    ensures r.Ok? <==> ValidateNewsParameters(city, date, id).Ok? && checks.isValidGetNews(items, ParsedPath(city, date, id))
    ensures ValidateNewsParameters(city, date, id).Fail? ==> r == ValidateNewsParameters(city, date, id)
    ensures ValidateNewsParameters(city, date, id).Ok? && r.Fail? ==> r.failure == NotFoundFailure
  {
    var parameters := ValidateNewsParameters(city, date, id);
    if parameters.Fail? then parameters
    else if !checks.isValidGetNews(items, ParsedPath(city, date, id)) then Fail(NotFoundFailure)
    else Ok
  }

  /** `ValidatePostNewsOperation`: the city and date (400), then the body (400), then the
      duplicate check (400). */
  function ValidatePostNewsOperation(items: NewsItems, checks: Checks, city: Text, date: Text, news: Option<News>,
                                     nickname: string): (r: Outcome)
    ensures r.Ok? <==> ValidateDiaryEntryParameters(city, date).Ok? && IsValidNews(news) &&
                       checks.isValidCreateNews(items, news.value, city.value, nickname, ParsedDate(date))
    ensures r.Fail? ==> r.failure.status == BadRequest
    ensures ValidateDiaryEntryParameters(city, date).Fail? ==> r == ValidateDiaryEntryParameters(city, date)
    ensures ValidateDiaryEntryParameters(city, date).Ok? && !IsValidNews(news) ==> r == Fail(InputFailure(BadNewsFormat))
    ensures ValidateDiaryEntryParameters(city, date).Ok? && IsValidNews(news) && r.Fail? ==>
              r.failure == BusinessFailure(BadRequest, NewsAlreadyCreated)
  {
    var parameters := ValidateDiaryEntryParameters(city, date);
    if parameters.Fail? then parameters
    else if !IsValidNews(news) then Fail(InputFailure(BadNewsFormat))
    else if !checks.isValidCreateNews(items, news.value, city.value, nickname, ParsedDate(date)) then
      Fail(BusinessFailure(BadRequest, NewsAlreadyCreated))
    else Ok
  }

  /** `ValidatePatchNewsOperation`: the route parameters (400), the body (400), existence
      (404), then authorship (401). */
  function ValidatePatchNewsOperation(items: NewsItems, checks: Checks, city: Text, date: Text, id: Text,
                                      news: Option<News>, user: string): (r: Outcome)
    ensures r.Ok? <==> ValidateNewsParameters(city, date, id).Ok? && IsValidNews(news) &&
                       checks.isValidGetNews(items, ParsedPath(city, date, id)) &&
                       checks.isValidModifyNews(items, ParsedPath(city, date, id), user)
    ensures ValidateNewsParameters(city, date, id).Fail? ==> r == ValidateNewsParameters(city, date, id)
    ensures ValidateNewsParameters(city, date, id).Ok? && !IsValidNews(news) ==> r == Fail(InputFailure(BadNewsFormat))
    ensures ValidateNewsParameters(city, date, id).Ok? && IsValidNews(news) ==>
              (!checks.isValidGetNews(items, ParsedPath(city, date, id)) <==> r == Fail(NotFoundFailure))
    ensures ValidateNewsParameters(city, date, id).Ok? && IsValidNews(news) && checks.isValidGetNews(items, ParsedPath(city, date, id)) ==>
              (!checks.isValidModifyNews(items, ParsedPath(city, date, id), user) <==> r == Fail(NotAuthorFailure))
  {
    var parameters := ValidateNewsParameters(city, date, id);
    if parameters.Fail? then parameters
    else if !IsValidNews(news) then Fail(InputFailure(BadNewsFormat))
    else if !checks.isValidGetNews(items, ParsedPath(city, date, id)) then Fail(NotFoundFailure)
    else if !checks.isValidModifyNews(items, ParsedPath(city, date, id), user) then Fail(NotAuthorFailure)
    else Ok
  }

  /** `ValidateDeleteNewsOperation`: the route parameters (400), existence (404), then
      authorship (401); there is no body. */
  function ValidateDeleteNewsOperation(items: NewsItems, checks: Checks, city: Text, date: Text, id: Text,
                                       user: string): (r: Outcome)
    ensures r.Ok? <==> ValidateNewsParameters(city, date, id).Ok? &&
                       checks.isValidGetNews(items, ParsedPath(city, date, id)) &&
                       checks.isValidModifyNews(items, ParsedPath(city, date, id), user)
    ensures ValidateNewsParameters(city, date, id).Fail? ==> r == ValidateNewsParameters(city, date, id)
    ensures ValidateNewsParameters(city, date, id).Ok? ==>
              (!checks.isValidGetNews(items, ParsedPath(city, date, id)) <==> r == Fail(NotFoundFailure))
    ensures ValidateNewsParameters(city, date, id).Ok? && checks.isValidGetNews(items, ParsedPath(city, date, id)) ==>
              (!checks.isValidModifyNews(items, ParsedPath(city, date, id), user) <==> r == Fail(NotAuthorFailure))
  {
    var parameters := ValidateNewsParameters(city, date, id);
    if parameters.Fail? then parameters
    else if !checks.isValidGetNews(items, ParsedPath(city, date, id)) then Fail(NotFoundFailure)
    else if !checks.isValidModifyNews(items, ParsedPath(city, date, id), user) then Fail(NotAuthorFailure)
    else Ok
  }

  /** The record a patch stores: the body under the route's identifier, city and date,
      with the requester as author. */
  function PatchedNews(city: Text, date: Text, id: Text, news: Option<News>, user: string): (n: NewsBll)
    requires ValidateNewsParameters(city, date, id).Ok? && IsValidNews(news)
    ensures n.id == ParsedPath(city, date, id).id && n.author == user
    ensures n.title == news.value.title && n.content == news.value.content
  {
    ToNewsBll(ParsedId(id), news.value, city.value, user, ParsedDate(date))
  }

  class NewsController {
    const repository: NewsStore
    const checks: Checks

    constructor (repository: NewsStore, checks: Checks)
      ensures this.repository == repository && this.checks == checks
    {
      this.repository := repository;
      this.checks := checks;
    }

    /** `ExecuteGetAsync`: validate, then read the item; the store is not changed. */
    method ExecuteGet(city: Text, date: Text, id: Text) returns (reply: Reply<Option<NewsBll>>)
      ensures var v := ValidateGetNewsOperation(repository.items, checks, city, date, id);
              if v.Fail? then reply == Rejected(v.failure)
              else reply == Answer(OK, None, Lookup(repository.items, ParsedPath(city, date, id).id))
    {
      var v := ValidateGetNewsOperation(repository.items, checks, city, date, id);
      if v.Fail? {
        return Rejected(v.failure);
      }
      var news := repository.GetNews(ParsedId(id));
      reply := Answer(OK, None, news);
    }

    /** `ExecutePostAsync`: validate, then store the body under the new identifier with the
        requester as author and the route's city and date, and answer 201 with the link to it. */
    method ExecutePost(city: Text, date: Text, news: Option<News>, user: string, newId: Guid)
      returns (reply: Reply<()>)
      modifies repository
      ensures var v := ValidatePostNewsOperation(old(repository.items), checks, city, date, news, user);
              if v.Fail? then reply == Rejected(v.failure) && repository.items == old(repository.items)
              else reply == Answer(Created, Some(NewsSelf(city.value, date.value, newId)), ()) &&
                   repository.items == old(repository.items)[newId := ToNewsBll(newId, news.value, city.value, user, ParsedDate(date))]
    {
      var v := ValidatePostNewsOperation(repository.items, checks, city, date, news, user);
      if v.Fail? {
        return Rejected(v.failure);
      }
      repository.AddNews(ToNewsBll(newId, news.value, city.value, user, ParsedDate(date)));
      reply := Answer(Created, Some(NewsSelf(city.value, date.value, newId)), ());
    }

    /** `ExecutePatchAsync`: validate, then replace the item, and answer 200. */
    method ExecutePatch(city: Text, date: Text, id: Text, news: Option<News>, user: string)
      returns (reply: Reply<()>)
      modifies repository
      ensures var v := ValidatePatchNewsOperation(old(repository.items), checks, city, date, id, news, user);
              if v.Fail? then reply == Rejected(v.failure) && repository.items == old(repository.items)
              else
                var n := PatchedNews(city, date, id, news, user);
                reply == Answer(OK, None, ()) &&
                repository.items == if n.id in old(repository.items) then old(repository.items)[n.id := n] else old(repository.items)
    {
      var v := ValidatePatchNewsOperation(repository.items, checks, city, date, id, news, user);
      if v.Fail? {
        return Rejected(v.failure);
      }
      var n := ToNewsBll(ParsedId(id), news.value, city.value, user, ParsedDate(date));
      repository.UpdateNews(n.id, n);
      reply := Answer(OK, None, ());
    }

    /** `ExecuteDeleteAsync`: validate, then remove the item, and answer 204. */
    method ExecuteDelete(city: Text, date: Text, id: Text, user: string) returns (reply: Reply<()>)
      modifies repository
      ensures var v := ValidateDeleteNewsOperation(old(repository.items), checks, city, date, id, user);
              if v.Fail? then reply == Rejected(v.failure) && repository.items == old(repository.items)
              else reply == Answer(NoContent, None, ()) &&
                   repository.items == old(repository.items) - {ParsedPath(city, date, id).id}
    {
      var v := ValidateDeleteNewsOperation(repository.items, checks, city, date, id, user);
      if v.Fail? {
        return Rejected(v.failure);
      }
      repository.DeleteNews(ParsedId(id));
      reply := Answer(NoContent, None, ());
    }
  }

  /** A malformed route is answered the same whatever the store holds and whatever the
      checks would say, so it reveals nothing about stored news. */
  lemma {:induction false} BadRouteRevealsNothing(items1: NewsItems, items2: NewsItems, checks1: Checks, checks2: Checks,
                                                  city: Text, date: Text, id: Text, news: Option<News>, user: string)
    requires ValidateNewsParameters(city, date, id).Fail?
    ensures ValidateGetNewsOperation(items1, checks1, city, date, id) == ValidateGetNewsOperation(items2, checks2, city, date, id)
    ensures ValidatePatchNewsOperation(items1, checks1, city, date, id, news, user) ==
            ValidatePatchNewsOperation(items2, checks2, city, date, id, news, user)
    ensures ValidateDeleteNewsOperation(items1, checks1, city, date, id, user) ==
            ValidateDeleteNewsOperation(items2, checks2, city, date, id, user)
    ensures ValidateDiaryEntryParameters(city, date).Fail? ==>
            ValidatePostNewsOperation(items1, checks1, city, date, news, user) ==
            ValidatePostNewsOperation(items2, checks2, city, date, news, user)
  {
  }

  /** Whatever passes patch or delete validation passes get validation. */
  lemma {:induction false} ModifyImpliesFound(items: NewsItems, checks: Checks, city: Text, date: Text, id: Text,
                                              news: Option<News>, user: string)
    ensures ValidatePatchNewsOperation(items, checks, city, date, id, news, user).Ok? ==>
            ValidateGetNewsOperation(items, checks, city, date, id).Ok?
    ensures ValidateDeleteNewsOperation(items, checks, city, date, id, user).Ok? ==>
            ValidateGetNewsOperation(items, checks, city, date, id).Ok?
    ensures ValidatePatchNewsOperation(items, checks, city, date, id, news, user).Ok? ==>
            ValidateDeleteNewsOperation(items, checks, city, date, id, user).Ok?
  {
  }

  /** When only authors may modify, a well-formed patch or delete of a stored item by
      anyone else is refused with 401. */
  lemma {:induction false} NonAuthorRefused(items: NewsItems, checks: Checks, city: Text, date: Text, id: Text,
                                            news: Option<News>, user: string)
    requires ModifyRequiresAuthor(checks)
    requires ValidateNewsParameters(city, date, id).Ok? && checks.isValidGetNews(items, ParsedPath(city, date, id))
    requires ParsedPath(city, date, id).id in items && items[ParsedPath(city, date, id).id].author != user
    ensures ValidateDeleteNewsOperation(items, checks, city, date, id, user) == Fail(NotAuthorFailure)
    ensures IsValidNews(news) ==> ValidatePatchNewsOperation(items, checks, city, date, id, news, user) == Fail(NotAuthorFailure)
  {
  }

  /** After a successful post, the values of the returned link pass get validation and
      resolve to the stored item, which has the title and content that were posted. */
  lemma {:induction false} PostedNewsIsReachable(items: NewsItems, checks: Checks, city: Text, date: Text,
                                                 news: Option<News>, user: string, newId: Guid)
    requires GetNewsFindsStored(checks)
    requires ValidatePostNewsOperation(items, checks, city, date, news, user).Ok?
    ensures var stored := items[newId := ToNewsBll(newId, news.value, city.value, user, ParsedDate(date))];
            var link := Some(FormatGuid(newId));
            ValidateGetNewsOperation(stored, checks, city, date, link).Ok? &&
            ParsedPath(city, date, link).id == newId &&
            stored[newId].title == news.value.title && stored[newId].content == news.value.content &&
            stored[newId].author == user
  {
    var stored := items[newId := ToNewsBll(newId, news.value, city.value, user, ParsedDate(date))];
    assert ValidateDiaryEntryParameters(city, date).Ok?;
    assert newId in stored;
    FormattedIdIsValid(newId);
  }

  /** The post, get, patch and delete scenarios of the end-to-end news tests, on a store
      that starts empty and checks that find stored items and admit only authors. */
  method CreateThenGet(checks: Checks, city: Text, date: Text, news: Option<News>, author: string, newId: Guid)
    returns (created: Reply<()>, got: Reply<Option<NewsBll>>)
    requires GetNewsFindsStored(checks)
    requires ValidatePostNewsOperation(map[], checks, city, date, news, author).Ok?
    ensures created.Answer? && created.status == Created
    ensures got.Answer? && got.status == OK && got.body.Some?
    ensures got.body.value.title == news.value.title && got.body.value.content == news.value.content
  {
    var store := new NewsStore();
    var controller := new NewsController(store, checks);
    created := controller.ExecutePost(city, date, news, author, newId);
    assert ValidateDiaryEntryParameters(city, date).Ok? && newId in store.items;
    FormattedIdIsValid(newId);
    got := controller.ExecuteGet(city, date, Some(FormatGuid(newId)));
  }

  /** A patch by someone other than the author is refused and the item is unchanged. */
  method CreateThenPatchByAnother(checks: Checks, city: Text, date: Text, news: Option<News>, updated: Option<News>,
                                  author: string, another: string, newId: Guid)
    returns (patched: Reply<()>, before: Option<NewsBll>, after: Option<NewsBll>)
    requires GetNewsFindsStored(checks) && ModifyRequiresAuthor(checks)
    requires ValidatePostNewsOperation(map[], checks, city, date, news, author).Ok?
    requires another != author
    ensures patched.Rejected? && patched.failure.status in {BadRequest, Unauthorized}
    ensures IsValidNews(updated) ==> patched == Rejected(NotAuthorFailure)
    ensures before.Some? && after == before
  {
    var store := new NewsStore();
    var controller := new NewsController(store, checks);
    var _ := controller.ExecutePost(city, date, news, author, newId);
    assert ValidateDiaryEntryParameters(city, date).Ok? && newId in store.items;
    FormattedIdIsValid(newId);
    before := store.GetNews(newId);
    patched := controller.ExecutePatch(city, date, Some(FormatGuid(newId)), updated, another);
    after := store.GetNews(newId);
  }

  /** A delete by someone other than the author is refused and the item stays. */
  method CreateThenDeleteByAnother(checks: Checks, city: Text, date: Text, news: Option<News>,
                                   author: string, another: string, newId: Guid)
    returns (deleted: Reply<()>, present: bool)
    requires GetNewsFindsStored(checks) && ModifyRequiresAuthor(checks)
    requires ValidatePostNewsOperation(map[], checks, city, date, news, author).Ok?
    requires another != author
    ensures deleted == Rejected(NotAuthorFailure)
    ensures present
  {
    var store := new NewsStore();
    var controller := new NewsController(store, checks);
    var _ := controller.ExecutePost(city, date, news, author, newId);
    assert ValidateDiaryEntryParameters(city, date).Ok? && newId in store.items;
    FormattedIdIsValid(newId);
    deleted := controller.ExecuteDelete(city, date, Some(FormatGuid(newId)), another);
    present := store.ContainsNewsId(newId);
  }

  /** A patch by the author replaces the title and content. */
  method CreateThenPatchByAuthor(checks: Checks, city: Text, date: Text, news: Option<News>, updated: Option<News>,
                                 author: string, newId: Guid)
    returns (patched: Reply<()>, after: Option<NewsBll>)
    requires GetNewsFindsStored(checks)
    requires ValidatePostNewsOperation(map[], checks, city, date, news, author).Ok?
    requires IsValidNews(updated)
    requires checks.isValidModifyNews(map[newId := ToNewsBll(newId, news.value, city.value, author, ParsedDate(date))],
                                      NewsPath(city.value, ParsedDate(date), newId), author)
    ensures patched == Answer(OK, None, ())
    ensures after.Some? && after.value.title == updated.value.title && after.value.content == updated.value.content
    ensures after.value.author == author
  {
    var store := new NewsStore();
    var controller := new NewsController(store, checks);
    var _ := controller.ExecutePost(city, date, news, author, newId);
    assert ValidateDiaryEntryParameters(city, date).Ok? && newId in store.items;
    FormattedIdIsValid(newId);
    patched := controller.ExecutePatch(city, date, Some(FormatGuid(newId)), updated, author);
    after := store.GetNews(newId);
  }

  /** A delete by the author removes the item. */
  method CreateThenDeleteByAuthor(checks: Checks, city: Text, date: Text, news: Option<News>,
                                  author: string, newId: Guid)
    returns (deleted: Reply<()>, present: bool)
    requires GetNewsFindsStored(checks)
    requires ValidatePostNewsOperation(map[], checks, city, date, news, author).Ok?
    requires checks.isValidModifyNews(map[newId := ToNewsBll(newId, news.value, city.value, author, ParsedDate(date))],
                                      NewsPath(city.value, ParsedDate(date), newId), author)
    ensures deleted == Answer(NoContent, None, ())
    ensures !present
  {
    var store := new NewsStore();
    var controller := new NewsController(store, checks);
    var _ := controller.ExecutePost(city, date, news, author, newId);
    assert ValidateDiaryEntryParameters(city, date).Ok? && newId in store.items;
    FormattedIdIsValid(newId);
    deleted := controller.ExecuteDelete(city, date, Some(FormatGuid(newId)), author);
    present := store.ContainsNewsId(newId);
  }
}
