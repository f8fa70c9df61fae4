/** The storage-independent checks of the web layer: blank-text tests, the city list,
    identifier and date formats, the composite user and news checks, and the two
    fail-fast route-parameter validators that raise a 400 input error. */
module InputValidation {
  import opened Common
  import opened Calendar
  import opened Guids
  import opened Entities

  /** `Char.IsWhiteSpace`: the space separators, the line and paragraph separators,
      and the control characters U+0009 to U+000D and U+0085. */
  predicate IsWhiteSpace(c: char)
  {
    c == ' ' || ('\t' <= c <= '\r') || c == '\U{85}' || c == '\U{A0}' || c == '\U{1680}' ||
    ('\U{2000}' <= c <= '\U{200A}') || c == '\U{2028}' || c == '\U{2029}' ||
    c == '\U{202F}' || c == '\U{205F}' || c == '\U{3000}'
  }

  /** Some character of `s` is not white space. */
  function HasNonWhiteSpace(s: string): (r: bool)
    ensures r <==> exists i :: 0 <= i < |s| && !IsWhiteSpace(s[i])
  {
    if s == [] then false
    else if !IsWhiteSpace(s[0]) then true
    else
      var rest := HasNonWhiteSpace(s[1..]);
      assert rest ==> exists i :: 0 <= i < |s| && !IsWhiteSpace(s[i]) by {
        if rest {
          var j :| 0 <= j < |s[1..]| && !IsWhiteSpace(s[1..][j]);
          assert !IsWhiteSpace(s[j + 1]);
        }
      }
      assert !rest ==> forall i :: 0 <= i < |s| ==> IsWhiteSpace(s[i]) by {
        if !rest {
          forall i | 0 <= i < |s|
            ensures IsWhiteSpace(s[i])
          {
            if i > 0 {
              assert s[i] == s[1..][i - 1];
            }
          }
        }
      }
      rest
  }

  /** A present string with at least one character that is not white space. */
  ghost predicate NonBlank(t: Text)
  {
    t.Some? && exists i :: 0 <= i < |t.value| && !IsWhiteSpace(t.value[i])
  }

  /** `string.IsNullOrWhiteSpace`. */
  function IsNullOrWhiteSpace(t: Text): (r: bool)
    ensures r <==> !NonBlank(t)
    ensures t == None || t == Some("") ==> r
  {
    t.None? || !HasNonWhiteSpace(t.value)
  }

  /** Every character of `s` is white space. */
  ghost predicate AllWhiteSpace(s: string)
  {
    forall i :: 0 <= i < |s| ==> IsWhiteSpace(s[i])
  }

  /** `string.TrimStart()`: `s` without its leading white space. */
  function TrimStart(s: string): (r: string)
    ensures |r| <= |s| && r == s[|s| - |r|..]
    ensures forall i :: 0 <= i < |s| - |r| ==> IsWhiteSpace(s[i])
    ensures r != [] ==> !IsWhiteSpace(s[|s| - |r|])
  {
    if s != [] && IsWhiteSpace(s[0]) then
      var rest := TrimStart(s[1..]);
      assert forall i :: 1 <= i < |s| ==> s[i] == s[1..][i - 1];
      rest
    else s
  }

  /** `string.TrimEnd()`: `s` without its trailing white space. */
  function TrimEnd(s: string): (r: string)
    ensures |r| <= |s| && r == s[..|r|]
    ensures forall i :: |r| <= i < |s| ==> IsWhiteSpace(s[i])
    ensures r != [] ==> !IsWhiteSpace(s[|r| - 1])
  {
    if s != [] && IsWhiteSpace(s[|s| - 1]) then
      var rest := TrimEnd(s[..|s| - 1]);
      assert forall i :: 0 <= i < |s| - 1 ==> s[i] == s[..|s| - 1][i];
      rest
    else s
  }

  /** `string.Trim()`: `s` without its leading and trailing white space. */
  function Trim(s: string): (r: string)
    ensures |r| <= |s|
    ensures r != [] ==> !IsWhiteSpace(r[0]) && !IsWhiteSpace(r[|r| - 1])
  {
    TrimEnd(TrimStart(s))
  }

  /** Leading white space in front of text that does not start with white space is
      exactly what `TrimStart` removes. */
  lemma {:induction false} TrimStartRemovesPadding(pre: string, rest: string)
    requires AllWhiteSpace(pre)
    requires rest != [] ==> !IsWhiteSpace(rest[0])
    ensures TrimStart(pre + rest) == rest
  {
    var s := pre + rest;
    assert forall i :: 0 <= i < |pre| ==> s[i] == pre[i];
    if rest != [] {
      assert s[|pre|] == rest[0];
    }
    assert s[|pre|..] == rest;
  }

  /** Trailing white space after text that does not end with white space is exactly what
      `TrimEnd` removes. */
  lemma {:induction false} TrimEndRemovesPadding(rest: string, post: string)
    requires AllWhiteSpace(post)
    requires rest != [] ==> !IsWhiteSpace(rest[|rest| - 1])
    ensures TrimEnd(rest + post) == rest
  {
    var s := rest + post;
    assert forall i :: |rest| <= i < |s| ==> s[i] == post[i - |rest|];
    if rest != [] {
      assert s[|rest| - 1] == rest[|rest| - 1];
    }
    assert s[..|rest|] == rest;
  }

  /** Trimming removes exactly the white-space padding: text that neither starts nor ends
      with white space comes back from any padding of white space unchanged. */
  lemma {:induction false} TrimRemovesPadding(pre: string, m: string, post: string)
    requires AllWhiteSpace(pre) && AllWhiteSpace(post)
    requires m != [] ==> !IsWhiteSpace(m[0]) && !IsWhiteSpace(m[|m| - 1])
    ensures Trim(pre + m + post) == m
  {
    var rest := m + post;
    assert pre + m + post == pre + rest;
    if m == [] {
      assert rest == post;
      assert AllWhiteSpace(pre + post);
      TrimStartRemovesPadding(pre + post, []);
      assert pre + post + [] == pre + post;
      TrimEndRemovesPadding([], []);
    } else {
      assert rest[0] == m[0];
      TrimStartRemovesPadding(pre, rest);
      TrimEndRemovesPadding(m, post);
    }
  }

  function IsValidNickName(nickName: Text): (r: bool)
    ensures r <==> NonBlank(nickName)
  {
    !IsNullOrWhiteSpace(nickName)
  }

  function IsValidPassword(password: Text): (r: bool)
    ensures r <==> NonBlank(password)
  {
    !IsNullOrWhiteSpace(password)
  }

  function IsValidTitle(title: Text): (r: bool)
    ensures r <==> NonBlank(title)
  {
    !IsNullOrWhiteSpace(title)
  }

  function IsValidContent(content: Text): (r: bool)
    ensures r <==> NonBlank(content)
  {
    !IsNullOrWhiteSpace(content)
  }

  /** A missing name is allowed; a present one must not be blank. */
  function IsValidName(name: Text): (r: bool)
    ensures r <==> name == None || NonBlank(name)
  {
    name == None || !IsNullOrWhiteSpace(name)
  }

  /** The cities of the `City` enumeration. */
  datatype City = Malaga | Granada | Sevilla | Cadiz | Almeria | Cordoba | Huelva

  function CityName(c: City): string
  {
    match c
    case Malaga => "Malaga"
    case Granada => "Granada"
    case Sevilla => "Sevilla"
    case Cadiz => "Cadiz"
    case Almeria => "Almeria"
    case Cordoba => "Cordoba"
    case Huelva => "Huelva"
  }

  /** `Enum.TryParse` on the member names, case-sensitively. */
  function ParseCity(s: string): (r: Option<City>)
    ensures r.Some? ==> CityName(r.value) == s
    ensures r.None? ==> forall c :: CityName(c) != s
  {
    if s == "Malaga" then Some(Malaga)
    else if s == "Granada" then Some(Granada)
    else if s == "Sevilla" then Some(Sevilla)
    else if s == "Cadiz" then Some(Cadiz)
    else if s == "Almeria" then Some(Almeria)
    else if s == "Cordoba" then Some(Cordoba)
    else if s == "Huelva" then Some(Huelva)
    else None
  }

  /** A city is valid exactly when it is the name of one of the enumerated cities. */
  function IsValidCity(city: Text): (r: bool)
    ensures r <==> city.Some? && exists c :: CityName(c) == city.value
    ensures r ==> NonBlank(city)
  {
    if !IsNullOrWhiteSpace(city) then ParseCity(city.value).Some? else false
  }

  /** A blank address is accepted; any other must match the address pattern, here the
      parameter `matchesPattern`, which stands for the domain mapping and the pattern
      match together. */
  function IsValidEmail(email: Text, matchesPattern: string -> bool): (r: bool)
    ensures !NonBlank(email) ==> r
    ensures NonBlank(email) ==> (r <==> matchesPattern(email.value))
  {
    if IsNullOrWhiteSpace(email) then true else matchesPattern(email.value)
  }

  /** Every birth date is accepted. */
  function IsValidBirthDate(birthDate: DateTime): (r: bool)
    ensures r
  {
    true
  }

  /** The composite user check: present, with a nickname and a password, a name that is
      missing or not blank, an acceptable address and, when present, an acceptable birth
      date. The city is not examined. */
  function IsValidUser(user: Option<User>, matchesPattern: string -> bool): (r: bool)
    ensures r <==> user.Some? && NonBlank(user.value.nickname) && NonBlank(user.value.password) &&
                   (user.value.name == None || NonBlank(user.value.name)) &&
                   (!NonBlank(user.value.email) || matchesPattern(user.value.email.value))
  {
    user.Some? &&
    IsValidNickName(user.value.nickname) &&
    IsValidPassword(user.value.password) &&
    IsValidName(user.value.name) &&
    IsValidEmail(user.value.email, matchesPattern) &&
    (user.value.birthDate.None? || IsValidBirthDate(user.value.birthDate.value))
  }

  /** The composite news check: present, with a title and a content that are not blank. */
  function IsValidNews(news: Option<News>): (r: bool)
    ensures r <==> news.Some? && NonBlank(news.value.title) && NonBlank(news.value.content)
  {
    news.Some? &&
    news.value.title.Some? && IsValidTitle(news.value.title) &&
    news.value.content.Some? && IsValidContent(news.value.content)
  }

  /** A vote is one to five stars. */
  function IsValidVote(vote: Vote): (r: bool)
    ensures r <==> vote.value in {1, 2, 3, 4, 5}
  {
    vote.value > 0 && vote.value <= 5
  }

  /** `Guid.TryParse` on the hyphenated layout, which ignores surrounding white space. */
  function IsValidNewsId(id: Text): (r: bool)
    ensures r <==> id.Some? && GuidShape(Trim(id.value))
  {
    id.Some? && ParseGuid(Trim(id.value)).Some?
  }

  /** `DateTime.TryParseExact(date, "yyyy-MM-dd", ...)`. */
  function IsValidNewsDate(date: Text): (r: bool)
    ensures r ==> date.Some? && FullDateShape(date.value)
    ensures r ==> exists d: CivilDate :: date.value == FormatFullDate(d)
  {
    date.Some? && ParseFullDate(date.value).Some?
  }

  /** A date is accepted exactly when it is the `yyyy-MM-dd` rendering of a civil date. */
  lemma {:induction false} IsValidNewsDateExactly(date: Text)
    ensures IsValidNewsDate(date) <==> exists d: CivilDate :: date == Some(FormatFullDate(d))
  {
    if d: CivilDate :| date == Some(FormatFullDate(d)) {
      FullDateRoundTrip(d);
    }
  }

  /** Every rendered identifier is accepted as one. */
  lemma {:induction false} FormattedIdIsValid(g: Guid)
    ensures IsValidNewsId(Some(FormatGuid(g)))
    ensures ParsedId(Some(FormatGuid(g))) == g
  {
    var s := FormatGuid(g);
    assert !IsDashPosition(0) && !IsDashPosition(35);
    assert IsHexDigit(s[0]) && IsHexDigit(s[35]);
    TrimRemovesPadding("", s, "");
    assert "" + s + "" == s;
    ParseFormatGuid(g);
  }

  /** White space around an identifier changes neither whether it is valid nor the
      identifier it denotes. */
  lemma {:induction false} PaddedIdIsValid(pre: string, g: Guid, post: string)
    requires AllWhiteSpace(pre) && AllWhiteSpace(post)
    ensures IsValidNewsId(Some(pre + FormatGuid(g) + post))
    ensures ParsedId(Some(pre + FormatGuid(g) + post)) == g
  {
    var s := FormatGuid(g);
    assert !IsDashPosition(0) && !IsDashPosition(35);
    assert IsHexDigit(s[0]) && IsHexDigit(s[35]);
    TrimRemovesPadding(pre, s, post);
    ParseFormatGuid(g);
  }

  /** The blank-text cases of the validator tests. */
  lemma {:induction false} BlankTextExamples()
    ensures IsValidNickName(Some("nickname")) && !IsValidNickName(None)
    ensures !IsValidNickName(Some("")) && !IsValidNickName(Some(" \n\t"))
    ensures IsValidName(None) && IsValidName(Some("Alberto"))
    ensures !IsValidName(Some("")) && !IsValidName(Some(" \n\t"))
  {
    assert "nickname"[0] == 'n' && "Alberto"[0] == 'A';
    assert " \n\t"[0] == ' ' && " \n\t"[1] == '\n' && " \n\t"[2] == '\t';
  }

  /** The city cases of the validator tests. */
  lemma {:induction false} CityExamples()
    ensures IsValidCity(Some("Malaga")) && IsValidCity(Some("Granada")) && IsValidCity(Some("Sevilla"))
    ensures IsValidCity(Some("Cadiz")) && IsValidCity(Some("Almeria")) && IsValidCity(Some("Cordoba"))
    ensures IsValidCity(Some("Huelva"))
    ensures !IsValidCity(None) && !IsValidCity(Some("")) && !IsValidCity(Some(" \n\t"))
  {
    assert CityName(Malaga) == "Malaga" && CityName(Granada) == "Granada" && CityName(Sevilla) == "Sevilla";
    assert CityName(Cadiz) == "Cadiz" && CityName(Almeria) == "Almeria" && CityName(Cordoba) == "Cordoba";
    assert CityName(Huelva) == "Huelva";
    assert " \n\t"[0] == ' ' && " \n\t"[1] == '\n' && " \n\t"[2] == '\t';
  }

  /** The news-body cases of the validator tests. */
  lemma {:induction false} NewsExamples()
    ensures !IsValidNews(None)
    ensures !IsValidNews(Some(News(None, Some("content")))) && !IsValidNews(Some(News(Some(""), Some("content"))))
    ensures !IsValidNews(Some(News(Some(" \n\t"), Some("content"))))
    ensures !IsValidNews(Some(News(Some("title"), None))) && !IsValidNews(Some(News(Some("title"), Some(""))))
    ensures !IsValidNews(Some(News(Some("title"), Some(" \n\t"))))
    ensures IsValidNews(Some(News(Some("title"), Some("content"))))
  {
    assert "content"[0] == 'c' && "title"[0] == 't';
    assert " \n\t"[0] == ' ' && " \n\t"[1] == '\n' && " \n\t"[2] == '\t';
  }

  /** A free-text identifier is refused. */
  lemma {:induction false} NewsIdExample()
    ensures !IsValidNewsId(Some("not id"))
  {
  }

  /** The date the validator tests accept. */
  lemma {:induction false} AcceptedDateExample()
    ensures IsValidNewsDate(Some("2015-05-21"))
  {
    var s0 := "2015-05-21";
    assert s0[0] == '2' && s0[1] == '0' && s0[2] == '1' && s0[3] == '5' && s0[4] == '-' && s0[5] == '0' && s0[6] == '5' && s0[7] == '-' && s0[8] == '2' && s0[9] == '1';
  }

  /** The dates the validator tests refuse: a wrong separator, free text and the empty string. */
  lemma {:induction false} RefusedDateExamples()
    ensures !IsValidNewsDate(Some("2015/05/21"))
    ensures !IsValidNewsDate(Some("not a date"))
    ensures !IsValidNewsDate(Some(""))
  {
    var s0 := "2015/05/21";
    assert s0[0] == '2' && s0[1] == '0' && s0[2] == '1' && s0[3] == '5' && s0[4] == '/' && s0[5] == '0' && s0[6] == '5' && s0[7] == '/' && s0[8] == '2' && s0[9] == '1';
    var s1 := "not a date";
    assert s1[0] == 'n' && s1[1] == 'o' && s1[2] == 't' && s1[3] == ' ' && s1[4] == 'a' && s1[5] == ' ' && s1[6] == 'd' && s1[7] == 'a' && s1[8] == 't' && s1[9] == 'e';
  }

  /** February the 29th exists exactly in leap years of the Gregorian rule. */
  lemma {:induction false} LeapDayExamples()
    ensures IsValidNewsDate(Some("2016-02-29")) && !IsValidNewsDate(Some("2015-02-29"))
    ensures IsValidNewsDate(Some("2000-02-29")) && !IsValidNewsDate(Some("1900-02-29"))
  {
    var s0 := "2016-02-29";
    assert s0[0] == '2' && s0[1] == '0' && s0[2] == '1' && s0[3] == '6' && s0[4] == '-' && s0[5] == '0' && s0[6] == '2' && s0[7] == '-' && s0[8] == '2' && s0[9] == '9';
    var s1 := "2015-02-29";
    assert s1[0] == '2' && s1[1] == '0' && s1[2] == '1' && s1[3] == '5' && s1[4] == '-' && s1[5] == '0' && s1[6] == '2' && s1[7] == '-' && s1[8] == '2' && s1[9] == '9';
    var s2 := "2000-02-29";
    assert s2[0] == '2' && s2[1] == '0' && s2[2] == '0' && s2[3] == '0' && s2[4] == '-' && s2[5] == '0' && s2[6] == '2' && s2[7] == '-' && s2[8] == '2' && s2[9] == '9';
    var s3 := "1900-02-29";
    assert s3[0] == '1' && s3[1] == '9' && s3[2] == '0' && s3[3] == '0' && s3[4] == '-' && s3[5] == '0' && s3[6] == '2' && s3[7] == '-' && s3[8] == '2' && s3[9] == '9';
  }

  /** Months past December, days past the end of the month and the year zero are refused. */
  lemma {:induction false} OutOfRangeDateExamples()
    ensures !IsValidNewsDate(Some("2015-13-01"))
    ensures !IsValidNewsDate(Some("2015-04-31"))
    ensures !IsValidNewsDate(Some("0000-01-01"))
  {
    var s0 := "2015-13-01";
    assert s0[0] == '2' && s0[1] == '0' && s0[2] == '1' && s0[3] == '5' && s0[4] == '-' && s0[5] == '1' && s0[6] == '3' && s0[7] == '-' && s0[8] == '0' && s0[9] == '1';
    var s1 := "2015-04-31";
    assert s1[0] == '2' && s1[1] == '0' && s1[2] == '1' && s1[3] == '5' && s1[4] == '-' && s1[5] == '0' && s1[6] == '4' && s1[7] == '-' && s1[8] == '3' && s1[9] == '1';
    var s2 := "0000-01-01";
    assert s2[0] == '0' && s2[1] == '0' && s2[2] == '0' && s2[3] == '0' && s2[4] == '-' && s2[5] == '0' && s2[6] == '1' && s2[7] == '-' && s2[8] == '0' && s2[9] == '1';
  }

  /** `ValidateDiaryEntryParameters`: the city first, then the date; the first bad one is
      reported as a 400 input error naming it. */
  function ValidateDiaryEntryParameters(city: Text, date: Text): (r: Outcome)
    ensures r.Ok? <==> IsValidCity(city) && IsValidNewsDate(date)
    ensures !IsValidCity(city) ==> r == Fail(InputFailure(InvalidCity(city)))
    ensures IsValidCity(city) && !IsValidNewsDate(date) ==> r == Fail(InputFailure(InvalidDate(date)))
  {
    if !IsValidCity(city) then Fail(InputFailure(InvalidCity(city)))
    else if !IsValidNewsDate(date) then Fail(InputFailure(InvalidDate(date)))
    else Ok
  }

  /** `ValidateNewsParameters`: the city and the date as above, then the identifier. */
  function ValidateNewsParameters(city: Text, date: Text, id: Text): (r: Outcome)
    ensures r.Ok? <==> IsValidCity(city) && IsValidNewsDate(date) && IsValidNewsId(id)
    ensures r.Fail? ==> r.failure.kind == InputValidation && r.failure.status == BadRequest
    ensures ValidateDiaryEntryParameters(city, date).Fail? ==> r == ValidateDiaryEntryParameters(city, date)
    ensures ValidateDiaryEntryParameters(city, date).Ok? && !IsValidNewsId(id) ==> r == Fail(InputFailure(InvalidNewsId(id)))
  {
    var diary := ValidateDiaryEntryParameters(city, date);
    if diary.Fail? then diary
    else if !IsValidNewsId(id) then Fail(InputFailure(InvalidNewsId(id)))
    else Ok
  }

  /** A bad city is the error reported, whatever is wrong with the date and identifier. */
  lemma {:induction false} CityReportedFirst(city: Text, date: Text, id: Text)
    requires !IsValidCity(city)
    ensures ValidateNewsParameters(city, date, id) == Fail(InputFailure(InvalidCity(city)))
  {
  }

  /** `DateTime.Parse` of a date that passed validation: midnight of that day. */
  function ParsedDate(date: Text): (t: DateTime)
    requires IsValidNewsDate(date)
    ensures FormatFullDate(t.date) == date.value
    ensures t.hour == 0 && t.minute == 0 && t.second == 0
  {
    AtMidnight(ParseFullDate(date.value).value)
  }

  /** `Guid.Parse` of an identifier that passed validation. */
  function ParsedId(id: Text): (g: Guid)
    requires IsValidNewsId(id)
    ensures ParseGuid(Trim(id.value)) == Some(g)
  {
    ParseGuid(Trim(id.value)).value
  }

  /** The parsed route of a validated request. */
  function ParsedPath(city: Text, date: Text, id: Text): (p: NewsPath)
    requires ValidateNewsParameters(city, date, id).Ok?
    ensures Some(p.city) == city && FormatFullDate(p.date.date) == date.value && ParseGuid(Trim(id.value)) == Some(p.id)
  {
    NewsPath(city.value, ParsedDate(date), ParsedId(id))
  }
}
