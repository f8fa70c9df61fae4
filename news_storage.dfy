/** The news store contract: a keyed store of news items, as an in-memory reference
    implementation over a map from identifier to item. */
module NewsStorage {
  import opened Common
  import opened Guids
  import opened Entities
  import opened NewsEquality

  /** What `GetNews(id)` answers on a store holding `items`: the item, or null. */
  function Lookup(items: map<Guid, NewsBll>, id: Guid): (r: Option<NewsBll>)
    ensures r.Some? <==> id in items
    ensures r.Some? ==> r.value == items[id]
  {
    if id in items then Some(items[id]) else None
  }

  /** What `ContainsNews(news)` answers: an item is stored under its identifier and the
      comparer finds it equal to `news`. */
  predicate Holds(items: map<Guid, NewsBll>, news: NewsBll)
  {
    news.id in items && NewsEntityEquals(items[news.id], news)
  }

  class NewsStore {
    var items: map<Guid, NewsBll>

    constructor ()
      ensures items == map[]
    {
      items := map[];
    }

    /** `AddNews`: the item is stored under its identifier, replacing any item there. */
    method AddNews(news: NewsBll)
      modifies this
      ensures items == old(items)[news.id := news]
    {
      items := items[news.id := news];
    }

    /** `GetNews(id)`. */
    method GetNews(id: Guid) returns (r: Option<NewsBll>)
      ensures r == Lookup(items, id)
    {
      r := if id in items then Some(items[id]) else None;
    }

    /** `ContainsNews(Guid)`. */
    method ContainsNewsId(id: Guid) returns (b: bool)
      ensures b <==> id in items
    {
      b := id in items;
    }

    /** `ContainsNews(NewsBll)`. */
    method ContainsNews(news: NewsBll) returns (b: bool)
      ensures b <==> Holds(items, news)
    {
      b := news.id in items && NewsEntityEquals(items[news.id], news);
    }

    /** `UpdateNews(id, news)`: the item stored under `id` is replaced; an identifier that
        is not stored leaves the store as it was. */
    method UpdateNews(id: Guid, news: NewsBll)
      modifies this
      ensures id in old(items) ==> items == old(items)[id := news]
      ensures id !in old(items) ==> items == old(items)
    {
      if id in items {
        items := items[id := news];
      }
    }

    /** `DeleteNews(id)`. */
    method DeleteNews(id: Guid)
      modifies this
      ensures items == old(items) - {id}
    {
      items := items - {id};
    }

    /** `DeleteAllNews`. */
    method DeleteAllNews()
      modifies this
      ensures items == map[]
    {
      items := map[];
    }
  }

  /** Adding an item makes the store contain it. */
  method AddThenContains(news: NewsBll) returns (contained: bool)
    ensures contained
  {
    var store := new NewsStore();
    store.AddNews(news);
    contained := store.ContainsNews(news);
  }

  /** Adding an item makes it retrievable by its identifier, with its title and author. */
  method AddThenGet(news: NewsBll) returns (got: Option<NewsBll>)
    ensures got.Some? && got.value.title == news.title && got.value.author == news.author
    ensures got == Some(news)
  {
    var store := new NewsStore();
    store.AddNews(news);
    got := store.GetNews(news.id);
  }

  /** An empty store answers null. */
  method GetFromEmpty(id: Guid) returns (got: Option<NewsBll>)
    ensures got == None
  {
    var store := new NewsStore();
    got := store.GetNews(id);
  }

  /** Three stored items updated under their own identifiers, with a changed content, a
      changed date and nothing changed, are each contained afterwards. */
  method UpdateThenContains(old1: NewsBll, old2: NewsBll, old3: NewsBll,
                            new1: NewsBll, new2: NewsBll, new3: NewsBll)
    returns (contained1: bool, contained2: bool, contained3: bool)
    requires old1.id != old2.id && old2.id != old3.id && old1.id != old3.id
    requires new1.id == old1.id && new2.id == old2.id && new3.id == old3.id
    ensures contained1 && contained2 && contained3
  {
    var store := new NewsStore();
    store.AddNews(old1);
    store.AddNews(old2);
    store.AddNews(old3);
    store.UpdateNews(new1.id, new1);
    store.UpdateNews(new2.id, new2);
    store.UpdateNews(new3.id, new3);
    contained1 := store.ContainsNews(new1);
    contained2 := store.ContainsNews(new2);
    contained3 := store.ContainsNews(new3);
  }

  /** An item with the identifier of a stored one but a different title, year, month or
      hour is not contained. */
  method ContainsReturnsFalse(stored: NewsBll, probe: NewsBll) returns (contained: bool)
    requires probe.id == stored.id
    requires probe.title != stored.title || probe.date.date.year != stored.date.date.year ||
             probe.date.date.month != stored.date.date.month || probe.date.hour != stored.date.hour
    ensures !contained
  {
    var store := new NewsStore();
    store.AddNews(stored);
    contained := store.ContainsNews(probe);
  }

  /** Deleting one of two items removes it and keeps the other. */
  method DeleteKeepsOthers(news1: NewsBll, news2: NewsBll) returns (contained1: bool, contained2: bool)
    requires news1.id != news2.id
    ensures !contained1 && contained2
  {
    var store := new NewsStore();
    store.AddNews(news1);
    store.AddNews(news2);
    store.DeleteNews(news1.id);
    contained1 := store.ContainsNews(news1);
    contained2 := store.ContainsNews(news2);
  }

  /** After `DeleteAllNews` nothing is contained. */
  method DeleteAllThenContains(news: NewsBll, probe: NewsBll) returns (contained: bool)
    ensures !contained
  {
    var store := new NewsStore();
    store.AddNews(news);
    store.DeleteAllNews();
    contained := store.ContainsNews(probe);
  }

  /** Deleting an identifier changes what is contained under that identifier only. */
  lemma {:induction false} DeleteOnlyAffectsItsId(items: map<Guid, NewsBll>, id: Guid, news: NewsBll)
    ensures news.id == id ==> !Holds(items - {id}, news)
    ensures news.id != id ==> (Holds(items - {id}, news) <==> Holds(items, news))
  {
  }

  /** Once an item is contained, a probe with its identifier is contained exactly when the
      comparer equates the two. */
  lemma {:induction false} ContainsUpToComparer(items: map<Guid, NewsBll>, stored: NewsBll, probe: NewsBll)
    requires Holds(items, stored) && probe.id == stored.id
    ensures Holds(items, probe) <==> NewsEntityEquals(stored, probe)
  {
    if Holds(items, probe) {
      EqualsSymmetric(items[stored.id], stored);
      EqualsTransitive(stored, items[stored.id], probe);
    } else if NewsEntityEquals(stored, probe) {
      EqualsTransitive(items[stored.id], stored, probe);
    }
  }
}
