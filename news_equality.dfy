/** The table-storage comparer for news entities: the same title and author, ordinally,
    and a publication date equal down to the hour. */
module NewsEquality {
  import opened Common
  import opened Calendar
  import opened Entities

  /** `NewsEntityEqualityComparer.Equals`. */
  predicate NewsEntityEquals(news1: NewsBll, news2: NewsBll)
  {
    news1.title == news2.title &&
    news1.author == news2.author &&
    news1.date.date.year == news2.date.date.year &&
    news1.date.date.month == news2.date.date.month &&
    news1.date.date.day == news2.date.date.day &&
    news1.date.hour == news2.date.hour
  }

  /** The date of a news item truncated to its hour, the part of it the comparer sees. */
  function HourKey(n: NewsBll): (k: DateTime)
    ensures k.date == n.date.date && k.hour == n.date.hour && k.minute == 0 && k.second == 0
  {
    DateTime(n.date.date, n.date.hour, 0, 0)
  }

  /** An independent statement of the comparer: equal title, equal author and equal
      hour-truncated date. */
  lemma {:induction false} EqualsIffSameKey(news1: NewsBll, news2: NewsBll)
    ensures NewsEntityEquals(news1, news2) <==>
            (news1.title, news1.author, HourKey(news1)) == (news2.title, news2.author, HourKey(news2))
  {
    if NewsEntityEquals(news1, news2) {
      assert news1.date.date == news2.date.date;
    }
  }

  lemma {:induction false} EqualsReflexive(n: NewsBll)
    ensures NewsEntityEquals(n, n)
  {
  }

  lemma {:induction false} EqualsSymmetric(news1: NewsBll, news2: NewsBll)
    requires NewsEntityEquals(news1, news2)
    ensures NewsEntityEquals(news2, news1)
  {
  }

  lemma {:induction false} EqualsTransitive(news1: NewsBll, news2: NewsBll, news3: NewsBll)
    requires NewsEntityEquals(news1, news2) && NewsEntityEquals(news2, news3)
    ensures NewsEntityEquals(news1, news3)
  {
  }

  /** The identifier, content, city, minutes and seconds play no part. */
  lemma {:induction false} EqualsIgnoresUncomparedFields(n: NewsBll, other: NewsBll)
    requires other.title == n.title && other.author == n.author
    requires other.date.date == n.date.date && other.date.hour == n.date.hour
    ensures NewsEntityEquals(n, other)
  {
  }

  /** Changing any compared field breaks equality. */
  lemma {:induction false} EqualsSensitiveToComparedFields(n: NewsBll, other: NewsBll)
    requires other.title != n.title || other.author != n.author || other.date.hour != n.date.hour ||
             other.date.date.year != n.date.date.year || other.date.date.month != n.date.date.month ||
             other.date.date.day != n.date.date.day
    ensures !NewsEntityEquals(n, other)
  {
  }
}
