/** The records the web layer receives and the business records it stores. */
module Entities {
  import opened Common
  import opened Calendar
  import opened Guids

  /** A user as a request body carries it; every field may be missing. */
  datatype User = User(nickname: Text, password: Text, city: Text, name: Text, email: Text,
                       birthDate: Option<DateTime>)

  /** A news item as a request body carries it. */
  datatype News = News(title: Text, content: Text)

  datatype Vote = Vote(value: int)

  /** A stored news item. The table entity the comparer works on has the same fields. */
  datatype NewsBll = NewsBll(id: Guid, title: Text, content: Text, author: string, city: string,
                             date: DateTime)

  /** A stored user, keyed by nickname. */
  datatype UserBll = UserBll(nickname: string, password: Text, city: Text, name: Text, email: Text,
                             birthDate: Option<DateTime>, registrationDate: Option<DateTime>)

  /** Where a news item lives: the city and date of the route and its identifier, after parsing. */
  datatype NewsPath = NewsPath(city: string, date: DateTime, id: Guid)

  /** The record a news body becomes once the route and the requester are attached to it. */
  function ToNewsBll(id: Guid, news: News, city: string, author: string, date: DateTime): NewsBll
  {
    NewsBll(id, news.title, news.content, author, city, date)
  }

  /** The record a user body becomes; the registration date is set by the caller. */
  function ToUserBll(user: User): UserBll
    requires user.nickname.Some?
  {
    UserBll(user.nickname.value, user.password, user.city, user.name, user.email, user.birthDate, None)
  }

  /** A `self` link, as the link factories build it from the route values. */
  datatype Link = UserSelf(nickname: string) | NewsSelf(city: string, date: string, id: Guid)

  /** What an operation answers: a success status with an optional `Location` and a body,
      or the validation failure that stopped it. */
  datatype Reply<T> = Answer(status: Status, location: Option<Link>, body: T) | Rejected(failure: Failure)

  /** An image response: the bytes and the `Content-Type` header. */
  datatype ImageContent = ImageContent(bytes: seq<byte>, contentType: string)
}
