/** The storage-dependent checks the controllers consult. Their implementations are not
    part of this model: each check is an arbitrary total predicate over the state of the
    store it reads, and the properties some results depend on are stated as predicates
    on the whole family, used as premises. */
module BusinessChecks {
  import opened Common
  import opened Calendar
  import opened Entities
  import opened Guids
  import opened ImageRepository

  type NewsItems = map<Guid, NewsBll>
  type Users = map<string, UserBll>

  datatype Checks = Checks(
    isValidGetNews: (NewsItems, NewsPath) -> bool,
    isValidCreateNews: (NewsItems, News, string, string, DateTime) -> bool,
    isValidModifyNews: (NewsItems, NewsPath, string) -> bool,
    isValidGetImageNews: (Blobs, NewsPath) -> bool,
    isValidGetThumbnailImageNews: (Blobs, NewsPath) -> bool,
    isValidGetUser: (Users, Text) -> bool,
    isValidCreateUser: (Users, User) -> bool,
    isValidUpdateUser: (Users, User) -> bool,
    isAuthorizedUser: (string, Text) -> bool,
    isValidDeleteUser: (Users, Text) -> bool)

  /** The news check finds exactly the stored identifiers. */
  ghost predicate GetNewsFindsStored(c: Checks)
  {
    forall items: NewsItems, p: NewsPath :: c.isValidGetNews(items, p) <==> p.id in items
  }

  /** Only the author of a stored item may modify it. */
  ghost predicate ModifyRequiresAuthor(c: Checks)
  {
    forall items: NewsItems, p: NewsPath, user: string :: c.isValidModifyNews(items, p, user) ==> p.id in items && items[p.id].author == user
  }

  /** The image checks ask the repository whether the names it reads from are present. */
  ghost predicate ImageChecksReadBlobs(c: Checks)
  {
    (forall blobs: Blobs, p: NewsPath :: c.isValidGetImageNews(blobs, p) <==> ImageKey(p) in blobs) &&
    (forall blobs: Blobs, p: NewsPath :: c.isValidGetThumbnailImageNews(blobs, p) <==> ThumbnailKey(p) in blobs)
  }

  /** Registering is allowed exactly for a nickname not yet registered. */
  ghost predicate CreateUserIffAbsent(c: Checks)
  {
    forall users: Users, user: User :: user.nickname.Some? ==>
      (c.isValidCreateUser(users, user) <==> user.nickname.value !in users)
  }

  /** A requester is authorized exactly for their own nickname. */
  ghost predicate AuthorizedIffSame(c: Checks)
  {
    forall requester: string, target: Text :: c.isAuthorizedUser(requester, target) <==> target == Some(requester)
  }
}
