# GoingOn: a Dafny model of the REST back end's core

GoingOn is a REST service for local news. Users register, publish news items under a city and
a date, and attach an image to a news item. The service keeps a thumbnail of each image. This
project models the following parts of it and proves properties about them:

- **Input validation.** This covers the text fields, the city, the `yyyy-MM-dd` date, the news
  identifier, and the route checks shared by every news operation. It also covers
  `IsNullOrWhiteSpace` over the .NET white-space set, a Gregorian calendar for the date, and
  the hyphenated GUID layout together with its lowercase rendering, parsed after the
  surrounding white space is trimmed.
- **The news store.** This is a class over a map from identifier to news item, with add, get,
  both `ContainsNews` overloads, update, delete and delete-all. The store's implementation is
  not shown; the model lets containment go through the table-storage equality comparer, which
  compares title, author and the date down to the hour.
- **The image repository.** It works over a blob store, modelled as a class over a map from
  blob name to bytes. The model covers:
  - the blob names built for images and thumbnails, with a two-digit year;
  - the create sequence: write the image, check again that it is there, then write the
    thumbnail;
  - delete and the two existence tests.
- **The four controllers: news, news image, news thumbnail and user.** Each one runs its
  ordered guard chain. Every guard maps a failure to a status: 400 for input, and 401, 404 or
  400 for business rules. The news, image and thumbnail operations reach their stores only
  after their validation succeeds. The user controller validates only delete; its get, post
  and patch reach the user store directly.
- **The credential decision of the basic-authentication filter.**

The business checks the controllers consult are not part of this model, because their
implementations are not shown. Each one is an arbitrary total predicate over the store it
reads. The lemmas that depend on how a check behaves state that behaviour as a premise:
`GetNewsFindsStored`, `ModifyRequiresAuthor`, `ImageChecksReadBlobs`, `CreateUserIffAbsent`
and `AuthorizedIffSame`.

The modules are `Common`, `Calendar`, `Guids`, `Entities`, `InputValidation`, `NewsEquality`,
`NewsStorage`, `UserStorage`, `ImageRepository`, `BusinessChecks`, `NewsApi`, `NewsImageApi`,
`ThumbnailApi`, `UserApi` and `Authentication`, one per file.

## Model

| member | source | states |
|---|---|---|
| InputValidation.IsNullOrWhiteSpace | GoingOn/Frontend/Validation/ApiInputValidationChecks.cs:51-59 | true exactly when the text is null or every character is .NET white space |
| InputValidation.HasNonWhiteSpace | GoingOn/Frontend/Validation/ApiInputValidationChecks.cs:51-54 | true exactly when some character of the string is not white space |
| InputValidation.IsValidNickName | GoingOn/Frontend/Validation/ApiInputValidationChecks.cs:51-54 | a nickname is valid iff it is non-null and not blank |
| InputValidation.IsValidPassword | GoingOn/Frontend/Validation/ApiInputValidationChecks.cs:56-59 | a password is valid iff it is non-null and not blank |
| InputValidation.IsValidTitle | GoingOn/Frontend/Validation/ApiInputValidationChecks.cs:191-194 | a title is valid iff it is non-null and not blank |
| InputValidation.IsValidContent | GoingOn/Frontend/Validation/ApiInputValidationChecks.cs:196-199 | a content is valid iff it is non-null and not blank |
| InputValidation.IsValidName | GoingOn/Frontend/Validation/ApiInputValidationChecks.cs:73-76 | a name is valid iff it is null or not blank |
| InputValidation.ParseCity | GoingOn/Frontend/Validation/ApiInputValidationChecks.cs:61-71 | parsing yields a city exactly for a member name, and it yields the city with that name |
| InputValidation.IsValidCity | GoingOn/Frontend/Validation/ApiInputValidationChecks.cs:61-71 | a city is valid iff it is non-null and names a member of the enumeration; a valid city is not blank |
| InputValidation.IsValidEmail | GoingOn/Frontend/Validation/ApiInputValidationChecks.cs:84-114 | a blank or null e-mail is accepted; any other is accepted iff it matches the pattern |
| InputValidation.IsValidBirthDate | GoingOn/Frontend/Validation/ApiInputValidationChecks.cs:116-119 | every birth date is accepted |
| InputValidation.IsValidUser | GoingOn/Frontend/Validation/ApiInputValidationChecks.cs:40-49 | a user is valid iff it is non-null with a valid nickname, password, name and e-mail |
| InputValidation.IsValidNews | GoingOn/Frontend/Validation/ApiInputValidationChecks.cs:121-127 | a news body is valid iff it is non-null with a non-blank title and content |
| InputValidation.IsValidVote | GoingOn/Frontend/Validation/ApiInputValidationChecks.cs:129-133 | a vote is valid iff its value is 1 to 5 |
| InputValidation.TrimStart | GoingOn/Frontend/Validation/ApiInputValidationChecks.cs:135-139 | the result is a suffix of the text, everything removed is white space, and the result does not start with white space (the trimming `Guid.TryParse` applies first) |
| InputValidation.TrimEnd | GoingOn/Frontend/Validation/ApiInputValidationChecks.cs:135-139 | the result is a prefix of the text, everything removed is white space, and the result does not end with white space |
| InputValidation.Trim | GoingOn/Frontend/Validation/ApiInputValidationChecks.cs:135-139 | the trimmed text is no longer than the text and neither starts nor ends with white space |
| InputValidation.TrimStartRemovesPadding | GoingOn/Frontend/Validation/ApiInputValidationChecks.cs:135-139 | white space in front of text not starting with white space is exactly what is removed |
| InputValidation.TrimEndRemovesPadding | GoingOn/Frontend/Validation/ApiInputValidationChecks.cs:135-139 | white space after text not ending with white space is exactly what is removed |
| InputValidation.TrimRemovesPadding | GoingOn/Frontend/Validation/ApiInputValidationChecks.cs:135-139 | trimming any white-space padding of such text gives the text back |
| InputValidation.IsValidNewsId | GoingOn/Frontend/Validation/ApiInputValidationChecks.cs:135-139 | an identifier is valid iff it is non-null and, once surrounding white space is trimmed, has the 8-4-4-4-12 hexadecimal layout |
| InputValidation.PaddedIdIsValid | GoingOn/Frontend/Validation/ApiInputValidationChecks.cs:135-139 | a rendered identifier padded with white space on either side is valid and parses to the same identifier |
| InputValidation.IsValidNewsDateExactly | GoingOn/Frontend/Validation/ApiInputValidationChecks.cs:141-146 | a date string is valid iff it is the `yyyy-MM-dd` rendering of a real calendar date of years 1 to 9999 |
| InputValidation.FormattedIdIsValid | GoingOn/Frontend/Validation/ApiInputValidationChecks.cs:135-139 | every rendered identifier is a valid identifier and parses back to its identifier |
| InputValidation.BlankTextExamples | GoingOn/Frontend.Tests/Validation/ApiInputValidationChecksTests.cs:58-86 | null, empty and white-space nicknames and passwords are refused; a name may be null |
| InputValidation.CityExamples | GoingOn/Frontend.Tests/Validation/ApiInputValidationChecksTests.cs:102-114 | the case-exact city names are accepted; other spellings are refused |
| InputValidation.NewsExamples | GoingOn/Frontend.Tests/Validation/ApiInputValidationChecksTests.cs:191-218 | a null body, or a blank title or content, is refused |
| InputValidation.NewsIdExample | GoingOn/Frontend.Tests/Validation/ApiInputValidationChecksTests.cs:221-225 | a non-GUID identifier is refused |
| InputValidation.AcceptedDateExample | GoingOn/Frontend.Tests/Validation/ApiInputValidationChecksTests.cs:228-234 | a well-formed date is accepted |
| InputValidation.RefusedDateExamples | GoingOn/Frontend.Tests/Validation/ApiInputValidationChecksTests.cs:228-234 | dates in another layout are refused |
| InputValidation.LeapDayExamples | GoingOn/Frontend/Validation/ApiInputValidationChecks.cs:141-146 | 29 February is accepted in a leap year and refused otherwise |
| InputValidation.OutOfRangeDateExamples | GoingOn/Frontend/Validation/ApiInputValidationChecks.cs:141-146 | month 13, day 32 and year 0 are refused |
| InputValidation.ValidateDiaryEntryParameters | GoingOn/Frontend/Validation/ApiInputValidationChecks.cs:148-159 | passes iff the city and the date are valid; an invalid city is reported first, then an invalid date, each as 400 |
| InputValidation.ValidateNewsParameters | GoingOn/Frontend/Validation/ApiInputValidationChecks.cs:161-169 | passes iff city, date and identifier are valid; the city and date are reported as the diary check does, then the identifier, all as 400 input failures |
| InputValidation.CityReportedFirst | GoingOn/Frontend/Validation/ApiInputValidationChecks.cs:150-153 | an invalid city is what is reported, whatever the date and identifier |
| InputValidation.ParsedPath | GoingOn/FrontendWebRole/Controllers/NewsController.cs:177-179 | the parsed route renders back to the route's city, date and identifier (`DateTime.Parse` and `Guid.Parse` after validation) |
| Calendar.DaysInMonth | GoingOn/Frontend/Validation/ApiInputValidationChecks.cs:141-146 | a month has 28 to 31 days, and February has 29 exactly in a leap year |
| Calendar.Pad2 | GoingOn/Repository/NewsImageRepository.cs:36 | two digits whose value is the number |
| Calendar.Pad4 | GoingOn/Frontend/Validation/ApiInputValidationChecks.cs:141-146 | four digits whose value is the number |
| Calendar.ParseFullDate | GoingOn/Frontend/Validation/ApiInputValidationChecks.cs:141-146 | a parsed date renders back to exactly the parsed text |
| Calendar.FullDateRoundTrip | GoingOn/Frontend/Validation/ApiInputValidationChecks.cs:141-146 | rendering a date as `yyyy-MM-dd` and parsing it gives the date back |
| Calendar.FormatFullDateInjective | GoingOn/Frontend/Validation/ApiInputValidationChecks.cs:141-146 | distinct dates render differently |
| Calendar.ShortDateDetermines | GoingOn/Repository/NewsImageRepository.cs:36 | two dates render alike as `yy-MM-dd` iff they agree on year modulo 100, month and day |
| Guids.FormatGuid | GoingOn/FrontendWebRole/Controllers/NewsController.cs:135 | the rendering has dashes at 8, 13, 18 and 23 and lowercase hexadecimal digits of the identifier elsewhere |
| Guids.ParseGuid | GoingOn/Frontend/Validation/ApiInputValidationChecks.cs:135-139 | the layout step of `Guid.TryParse`, applied to the already trimmed text: parsing succeeds iff the text has the layout, and it yields the digits' values |
| Guids.ParseFormatGuid | GoingOn/FrontendWebRole/Controllers/NewsController.cs:130-135 | parsing a rendered identifier gives the identifier back |
| Guids.FormatGuidInjective | GoingOn/Repository/NewsImageRepository.cs:36 | distinct identifiers render differently |
| Guids.ParseGuidCanonical | GoingOn/Frontend/Validation/ApiInputValidationChecks.cs:135-139 | a parsed text renders back to the same text up to the case of its letters |
| NewsEquality.HourKey | GoingOn/Storage/TableStorage/NewsEntityEqualityComparer.cs:20-32 | the date truncated to its hour |
| NewsEquality.EqualsIffSameKey | GoingOn/Storage/TableStorage/NewsEntityEqualityComparer.cs:20-32 | two items are equal iff they have the same title, author and hour-truncated date |
| NewsEquality.EqualsReflexive | GoingOn/Storage/TableStorage/NewsEntityEqualityComparer.cs:20-32 | every item equals itself |
| NewsEquality.EqualsSymmetric | GoingOn/Storage/TableStorage/NewsEntityEqualityComparer.cs:20-32 | equality is symmetric |
| NewsEquality.EqualsTransitive | GoingOn/Storage/TableStorage/NewsEntityEqualityComparer.cs:20-32 | equality is transitive |
| NewsEquality.EqualsIgnoresUncomparedFields | GoingOn/Storage/TableStorage/NewsEntityEqualityComparer.cs:20-32 | identifier, content, city, minutes and seconds play no part |
| NewsEquality.EqualsSensitiveToComparedFields | GoingOn/Storage/TableStorage/NewsEntityEqualityComparer.cs:20-32 | a change to title, author, year, month, day or hour breaks equality |
| NewsStorage.Lookup | GoingOn/Storage/INewsStorage.cs:19 | the stored item under the identifier, or null when there is none |
| NewsStorage.NewsStore.AddNews | GoingOn/Storage/INewsStorage.cs:18 | the item is stored under its identifier; nothing else changes |
| NewsStorage.NewsStore.GetNews | GoingOn/Storage/INewsStorage.cs:19 | answers the lookup of the identifier |
| NewsStorage.NewsStore.ContainsNewsId | GoingOn/Storage/INewsStorage.cs:20 | true iff the identifier is stored |
| NewsStorage.NewsStore.ContainsNews | GoingOn/Storage/INewsStorage.cs:21 | true iff the item's identifier is stored with an item the comparer equates with it |
| NewsStorage.NewsStore.UpdateNews | GoingOn/Storage/INewsStorage.cs:22 | a stored identifier gets the new item; an unknown one changes nothing |
| NewsStorage.NewsStore.DeleteNews | GoingOn/Storage/INewsStorage.cs:23 | exactly that identifier is removed |
| NewsStorage.NewsStore.DeleteAllNews | GoingOn/Storage/INewsStorage.cs:24 | the store is empty |
| NewsStorage.AddThenContains | GoingOn/Storage.Tests/NewsMemoryStorageTests.cs:49-55 | an added item is contained |
| NewsStorage.AddThenGet | GoingOn/Storage.Tests/NewsMemoryStorageTests.cs:57-65 | an added item is got back with its title and author |
| NewsStorage.GetFromEmpty | GoingOn/Storage.Tests/NewsMemoryStorageTests.cs:67-71 | an empty store answers null |
| NewsStorage.UpdateThenContains | GoingOn/Storage.Tests/NewsMemoryStorageTests.cs:81-155 | each of three updated items is contained after the updates |
| NewsStorage.ContainsReturnsFalse | GoingOn/Storage.Tests/NewsMemoryStorageTests.cs:157-203 | a probe differing in title, year, month or hour is not contained |
| NewsStorage.DeleteKeepsOthers | GoingOn/Storage.Tests/NewsMemoryStorageTests.cs:205-246 | a deleted item is gone and the other one stays |
| NewsStorage.DeleteAllThenContains | GoingOn/Storage.Tests/NewsMemoryStorageTests.cs:248-256 | after delete-all nothing is contained |
| NewsStorage.DeleteOnlyAffectsItsId | GoingOn/Storage/INewsStorage.cs:21-23 | deleting an identifier changes containment only under that identifier |
| NewsStorage.ContainsUpToComparer | GoingOn/Storage/INewsStorage.cs:21 | a probe with a stored item's identifier is contained iff the comparer equates the two |
| UserStorage.UserStore.AddUser | GoingOn/FrontendWebRole/Controllers/UserController.cs:100 | the user is stored under its nickname; nothing else changes |
| UserStorage.UserStore.GetUser | GoingOn/FrontendWebRole/Controllers/UserController.cs:86 | the stored user under the nickname, or null |
| UserStorage.UserStore.UpdateUser | GoingOn/FrontendWebRole/Controllers/UserController.cs:114 | a registered user is replaced; an unregistered one changes nothing |
| UserStorage.UserStore.DeleteUser | GoingOn/FrontendWebRole/Controllers/UserController.cs:125 | exactly that nickname is removed |
| ImageRepository.BlobStore.CreateBlob | GoingOn/Repository/NewsImageRepository.cs:60 | an acknowledged write stores the bytes under the name; an unacknowledged one changes nothing |
| ImageRepository.BlobStore.ContainsBlob | GoingOn/Repository/NewsImageRepository.cs:63 | true iff the name is stored |
| ImageRepository.BlobStore.GetBlob | GoingOn/Repository/NewsImageRepository.cs:36 | the bytes under the name, if any |
| ImageRepository.BlobStore.DeleteBlob | GoingOn/Repository/NewsImageRepository.cs:82 | exactly that name is removed |
| ImageRepository.KeySuffix | GoingOn/Repository/NewsImageRepository.cs:36 | `;yy-MM-dd;` followed by the 36-character identifier |
| ImageRepository.ImageKey | GoingOn/Repository/NewsImageRepository.cs:36 | the city followed by the suffix |
| ImageRepository.ThumbnailKey | GoingOn/Repository/NewsImageRepository.cs:46 | `thumbnail;` followed by the image name |
| ImageRepository.WrittenThumbnailKey | GoingOn/Repository/NewsImageRepository.cs:69 | the thumbnail read name followed by `;` |
| ImageRepository.ImageKeyInjective | GoingOn/Repository/NewsImageRepository.cs:36 | two news get the same image name iff they have the same city, identifier, year modulo 100, month and day |
| ImageRepository.CenturyApartShareKey | GoingOn/Repository/NewsImageRepository.cs:36 | news a whole number of centuries apart share their image and thumbnail names |
| ImageRepository.CenturyApartExample | GoingOn/Repository/NewsImageRepository.cs:36 | 1915-05-21 and 2015-05-21 give the same name |
| ImageRepository.KeysEndInHexDigit | GoingOn/Repository/NewsImageRepository.cs:36-46 | image and thumbnail read names end in a hexadecimal digit |
| ImageRepository.WrittenThumbnailNeverRead | GoingOn/Repository/NewsImageRepository.cs:69 | the name a thumbnail is written under is never a name any image or thumbnail is read from |
| ImageRepository.ThumbnailAndImageKeysDisjoint | GoingOn/Repository/NewsImageRepository.cs:36-46 | for cities without `;`, no thumbnail name is an image name |
| ImageRepository.StoreImage | GoingOn/Repository/NewsImageRepository.cs:52-76 | succeeds iff the image is present after its write; a failure is a 500 with the blobs unchanged; the image bytes are stored when their write lands, and a success whose thumbnail write lands stores the thumbnail bytes; a name whose write does not land keeps its old state; the thumbnail is written only once the image is present; no blob is lost and only the two names can change |
| ImageRepository.NewsImageRepository.GetNewsImage | GoingOn/Repository/NewsImageRepository.cs:32-40 | the bytes under the image name |
| ImageRepository.NewsImageRepository.GetNewsThumbnailImage | GoingOn/Repository/NewsImageRepository.cs:42-50 | the bytes under the thumbnail read name |
| ImageRepository.NewsImageRepository.CreateUnder | GoingOn/Repository/NewsImageRepository.cs:52-76 | the write, check and second write sequence leaves the blobs and outcome `StoreImage` describes |
| ImageRepository.NewsImageRepository.CreateNewsImageAsWritten | GoingOn/Repository/NewsImageRepository.cs:52-76 | the create sequence with the thumbnail under the written name |
| ImageRepository.NewsImageRepository.CreateNewsImage | GoingOn/Repository/NewsImageRepository.cs:52-76 | the create sequence with the thumbnail under the read name |
| ImageRepository.NewsImageRepository.DeleteNewsImage | GoingOn/Repository/NewsImageRepository.cs:78-83 | only the image name is removed; the thumbnail stays |
| ImageRepository.NewsImageRepository.ContainsImage | GoingOn/Repository/NewsImageRepository.cs:85-90 | true iff the image name is stored |
| ImageRepository.NewsImageRepository.ContainsImageThumbnail | GoingOn/Repository/NewsImageRepository.cs:92-97 | true iff the thumbnail read name is stored |
| ImageRepository.AsWrittenCreateNeverAddsReadableThumbnail | GoingOn/Repository/NewsImageRepository.cs:69-94 | as written, a create never changes whether any news has a thumbnail under its read name |
| ImageRepository.AsWrittenThumbnailMissing | GoingOn/Repository/NewsImageRepository.cs:52-97 | as written, a successful create on an empty store leaves the image present and the thumbnail absent |
| ImageRepository.CreatedThumbnailReadable | GoingOn/Repository/NewsImageRepository.cs:32-76 | with the corrected name, the created image and thumbnail are read back |
| ImageRepository.CreatePreservesThumbnailsBacked | GoingOn/Repository/NewsImageRepository.cs:52-76 | with the corrected name, a create keeps every stored thumbnail backed by its image |
| ImageRepository.DeleteKeepsThumbnail | GoingOn/Repository/NewsImageRepository.cs:78-83 | deleting the image removes it and leaves the thumbnail as it was |
| NewsApi.ValidateGetNewsOperation | GoingOn/FrontendWebRole/Controllers/NewsController.cs:175-183 | route parameters, then existence (404); passes iff both hold |
| NewsApi.ValidatePostNewsOperation | GoingOn/FrontendWebRole/Controllers/NewsController.cs:185-198 | city and date, then the body, then the duplicate check, every failure 400; passes iff all hold |
| NewsApi.ValidatePatchNewsOperation | GoingOn/FrontendWebRole/Controllers/NewsController.cs:200-218 | route parameters, body (400), existence (404), then authorship (401); passes iff all hold |
| NewsApi.ValidateDeleteNewsOperation | GoingOn/FrontendWebRole/Controllers/NewsController.cs:220-233 | route parameters, existence (404), then authorship (401), with no body check |
| NewsApi.PatchedNews | GoingOn/FrontendWebRole/Controllers/NewsController.cs:150 | the patched item has the route's identifier, the body's title and content, and the requester as author |
| NewsApi.NewsController.ExecuteGet | GoingOn/FrontendWebRole/Controllers/NewsController.cs:106-119 | a refused request is answered with its failure; otherwise 200 with the stored item |
| NewsApi.NewsController.ExecutePost | GoingOn/FrontendWebRole/Controllers/NewsController.cs:121-138 | a refused request changes nothing; otherwise the body is stored under the new identifier with the requester as author, with 201 and the link to it |
| NewsApi.NewsController.ExecutePatch | GoingOn/FrontendWebRole/Controllers/NewsController.cs:140-155 | a refused request changes nothing; otherwise the item is replaced with 200 |
| NewsApi.NewsController.ExecuteDelete | GoingOn/FrontendWebRole/Controllers/NewsController.cs:157-169 | a refused request changes nothing; otherwise the item is removed with 204 |
| NewsApi.BadRouteRevealsNothing | GoingOn/FrontendWebRole/Controllers/NewsController.cs:175-233 | a malformed route is answered alike whatever the store and the checks |
| NewsApi.ModifyImpliesFound | GoingOn/FrontendWebRole/Controllers/NewsController.cs:200-233 | whatever passes patch validation passes delete and get validation |
| NewsApi.NonAuthorRefused | GoingOn/FrontendWebRole/Controllers/NewsController.cs:214-232 | when only authors may modify, another user's well-formed patch or delete of a stored item is a 401 |
| NewsApi.PostedNewsIsReachable | GoingOn/FrontendWebRole/Controllers/NewsController.cs:121-138 | after a post, the link's values validate for get and lead to the stored item with the posted title, content and author |
| NewsApi.CreateThenGet | GoingOn/EndToEndTests/NewsTests.cs:69-97 | a posted item is got back with its title and content |
| NewsApi.CreateThenPatchByAuthor | GoingOn/EndToEndTests/NewsTests.cs:99-117 | the author's patch replaces title and content |
| NewsApi.CreateThenPatchByAnother | GoingOn/EndToEndTests/NewsTests.cs:120-141 | another user's patch is refused and the item is unchanged |
| NewsApi.CreateThenDeleteByAuthor | GoingOn/EndToEndTests/NewsTests.cs:143-153 | the author's delete answers 204 and removes the item |
| NewsApi.CreateThenDeleteByAnother | GoingOn/EndToEndTests/NewsTests.cs:156-169 | another user's delete is a 401 and the item stays |
| NewsImageApi.ValidCityHasNoSeparator | GoingOn/Frontend/Validation/ApiInputValidationChecks.cs:61-71 | no accepted city contains `;` |
| NewsImageApi.ValidateGetImageOperation | GoingOn/FrontendWebRole/Controllers/NewsImageController.cs:153-166 | route parameters, the news (404), then the image (404), with no authorship step |
| NewsImageApi.ValidatePostImageOperation | GoingOn/FrontendWebRole/Controllers/NewsImageController.cs:168-188 | route parameters, image format (400), the news (404), authorship (401), then an image already there (400) |
| NewsImageApi.ValidateDeleteImageOperation | GoingOn/FrontendWebRole/Controllers/NewsImageController.cs:190-208 | route parameters, the news (404), authorship (401), then the image (404) |
| NewsImageApi.NewsImageController.ExecuteGet | GoingOn/FrontendWebRole/Controllers/NewsImageController.cs:91-110 | a refused request is answered with its failure; otherwise 200 with the stored bytes and their media type |
| NewsImageApi.NewsImageController.ExecutePost | GoingOn/FrontendWebRole/Controllers/NewsImageController.cs:112-133 | a refused request changes no blob; otherwise the create sequence as written runs, with the thumbnail under its written name, and 200 or the 500 storage failure is answered |
| NewsImageApi.NewsImageController.ExecuteDelete | GoingOn/FrontendWebRole/Controllers/NewsImageController.cs:135-147 | the validation's failure, or 200; no repository is called |
| NewsImageApi.GetCarriesStoredImage | GoingOn/FrontendWebRole/Controllers/NewsImageController.cs:98-107 | when the image check reads the blobs, a validated get finds the image |
| NewsImageApi.CreatedImageIsFound | GoingOn/FrontendWebRole/Controllers/NewsImageController.cs:112-188 | a create as written whose image write lands makes get validation pass with the image, and a second post is a 400 |
| NewsImageApi.DeleteKeepsImageFound | GoingOn/FrontendWebRole/Controllers/NewsImageController.cs:135-147 | after a successful delete the image still passes get validation and blocks a new post |
| ThumbnailApi.ValidateGetThumbnailOperation | GoingOn/FrontendWebRole/Controllers/NewsThumbnailImageController.cs:96-114 | the image get chain, then the thumbnail, each missing item 404 |
| ThumbnailApi.GetThumbnail | GoingOn/FrontendWebRole/Controllers/NewsThumbnailImageController.cs:69-90 | a refused request is answered with its failure; otherwise 200 with the bytes under the thumbnail read name, always as `image/png` |
| ThumbnailApi.GetThumbnailCarriesStoredBytes | GoingOn/FrontendWebRole/Controllers/NewsThumbnailImageController.cs:75-87 | when the checks read the blobs, an answered get carries the stored thumbnail |
| ThumbnailApi.AsWrittenThumbnailNotFound | GoingOn/Repository/NewsImageRepository.cs:69-94 | as written, after a successful create the thumbnail get is a 404 although the image is stored |
| ThumbnailApi.CreatedThumbnailIsServed | GoingOn/FrontendWebRole/Controllers/NewsThumbnailImageController.cs:69-114 | with the corrected name, an acknowledged create makes the thumbnail get answer 200 with the thumbnail |
| ThumbnailApi.ImageLifecycle | GoingOn/FrontendWebRole/Controllers/NewsImageController.cs:91-208 | on fresh stores: the post answers 200 and the image get serves the image, but the thumbnail get is a 404; the delete answers 200 and keeps the image; a second post is a 400 |
| UserApi.ValidateGetUserOperation | GoingOn/FrontendWebRole/Controllers/UserController.cs:134-145 | nickname format (400), then registration (404) |
| UserApi.ValidatePostUserOperation | GoingOn/FrontendWebRole/Controllers/UserController.cs:147-158 | user format, then not yet registered, each 400 |
| UserApi.ValidatePatchUserOperation | GoingOn/FrontendWebRole/Controllers/UserController.cs:160-181 | nickname and body (400), requester is the user (401), then registered (404) |
| UserApi.ValidateDeleteUserOperation | GoingOn/FrontendWebRole/Controllers/UserController.cs:183-199 | nickname (400), requester is the user (401), then registered (404) |
| UserApi.Registered | GoingOn/FrontendWebRole/Controllers/UserController.cs:97-98 | the body's fields with the registration date set |
| UserApi.UserController.ExecuteGet | GoingOn/FrontendWebRole/Controllers/UserController.cs:82-91 | 200 with the stored user under the nickname, or none |
| UserApi.UserController.ExecutePost | GoingOn/FrontendWebRole/Controllers/UserController.cs:93-106 | the user is stored with the registration date, with 201 and the user's link |
| UserApi.UserController.ExecutePatch | GoingOn/FrontendWebRole/Controllers/UserController.cs:108-117 | the body's user replaces a registered record, with 204 |
| UserApi.UserController.ExecuteDelete | GoingOn/FrontendWebRole/Controllers/UserController.cs:119-128 | a refused request changes nothing; otherwise the user is removed with 204 |
| UserApi.OtherUserRefused | GoingOn/FrontendWebRole.Tests/Controllers/UserControllerTest.cs:202-257 | when authorization means acting on oneself, a well-formed patch or delete of another user is a 401 |
| UserApi.RegistrationIsOnce | GoingOn/Frontend.Tests/Validation/ApiBusinessLogicValidationChecksTests.cs:45-59 | a user passing post validation is new, and once stored the same post is a 400 |
| UserApi.RegisterThenDelete | GoingOn/FrontendWebRole.Tests/Controllers/UserControllerTest.cs:112-257 | a post answers 201 and stores the date; another user's delete is a 401 and the user stays; the user's own delete is a 204 and removes them |
| Authentication.AuthenticateAsync | GoingOn/Frontend/Authentication/IdentityBasicAuthenticationAttribute.cs:25-38 | a fault iff the nickname is not registered; for a registered one, a principal named by the nickname iff the passwords are equal and no cancellation is requested, null on a mismatch, and a cancellation after a match |
| Authentication.StoredPasswordAuthenticates | GoingOn/Frontend/Authentication/IdentityBasicAuthenticationAttribute.cs:27-37 | a stored password authenticates its user and any other password does not |
| Authentication.RegisterThenAuthenticate | GoingOn/Frontend/Authentication/IdentityBasicAuthenticationAttribute.cs:27-37 | a user registered through the controller authenticates with the posted password and not with another; an unregistered nickname faults |

## Left out

- ImageRepository.StoreImage and NewsImageApi.NewsImageController.ExecutePost: a create whose image is absent after its write raises `AzureRepositoryException`. The wrapper that maps exceptions to statuses (`ValidateExecute` in the controllers' base class) is not shown, so answering that exception with 500 is the model's choice.
- ImageRepository.KeySuffix and ImageRepository.ImageKey: the blob names render the date with `ToString("yy-MM-dd")` and no culture, so the running thread's culture and its calendar decide the digits. The model takes the Gregorian calendar, as `Calendar.ShortDateDetermines` does; a culture with another calendar would build other names.
- HTTP plumbing is not modelled: routing, response objects, REST resource conversion, URI building and the `ValidateExecute` wrapper that turns exceptions into responses. A failure is a `Failure` value carrying the status.
- Exception messages are not modelled. A failure carries a `Reason` tag instead.
- Asynchrony and cancellation tokens are not modelled. The one cancellation that changes a result, in `AuthenticateAsync`, is a boolean parameter.
- The business-check implementations and the news and user repositories behind the controllers are not part of this model. The checks are oracles. The repositories are the in-memory stores here, keyed by news identifier and by nickname.
- The news repository and the user repository are not shown, so four of their behaviours are choices of this model: `AddNews` and `AddUser` overwrite an item or user already stored under the same identifier or nickname; `UpdateNews` and `UpdateUser` do nothing for an identifier or nickname not stored; `GetUserByNickname` answers null for an unregistered nickname; and `ContainsNews` holds when the item's identifier is stored with an item that the table-storage equality comparer equates with it.
- NewsStorage.NewsStore.ContainsNews: the equality comparer shown belongs to table storage; that the repository behind the controllers compares through it is the choice named above.
- The image and thumbnail controllers depend on an `IImageRepository`. The repository class shown, `NewsNewsImageRepository`, implements `INewsImageRepository`, and the wiring between the two is not shown. The model takes the controllers to reach that class, so the image controller's create is its create as written; the Findings row and the thumbnail 404 of `ThumbnailApi.ImageLifecycle` rest on this.
- InputValidation.IsValidUser, InputValidation.ValidateDiaryEntryParameters and InputValidation.ValidateNewsParameters call the field checks of an injected `IApiInputValidationChecks`, not the class's own. The parameterless constructor leaves that field null, and the production wiring is not shown. The model takes the injected checks to be these checks, and takes the validator that the controllers are given to be this class.
- Authentication.AuthenticateAsync: the fault for an unregistered nickname is the null dereference that follows from `GetUserByNickname` answering null, as assumed above. The model has no exception values, so it shows this as the `Faulted` outcome.
- The blob store is not shown. Whether it acknowledges a write is a parameter. What `GetBlob` does for a missing name is modelled as "nothing found".
- Image decoding, re-encoding and thumbnail resizing (`System.Drawing`) are not modelled.
  - `ValidateImage` is a boolean verdict.
  - The thumbnail bytes are an input.
  - The image get answers the stored bytes, not the PNG re-encoding of them.
  - The media type of stored bytes is a function parameter.
- UserApi.UserController.ExecuteGet answers 200 with an absent body for an unregistered nickname. The source hands the null that `GetUser` answers to `UserREST.FromUserBll`, which is not shown, and get runs no validation, so this case is reachable; what that conversion does with null is not modelled.
- NewsImageApi.NewsImageController.ExecuteGet and ThumbnailApi.GetThumbnail answer an absent body when the repository holds nothing, where the source would dereference a null image.
- The e-mail pattern and the IDN mapping of `IsValidEmail` are a predicate parameter.
- `DateTime.Now` for the registration date is a parameter, and so is `Guid.NewGuid()` for a posted news item.
- InputValidation.ParseCity and InputValidation.IsValidCity: `Enum.TryParse` is modelled case-sensitively on the seven member names only. Its numeric, comma-separated and padded inputs are refused here, where the source accepts them.
- InputValidation.ParseCity and InputValidation.IsValidCity: the `City` enumeration is not shown. Its members are taken to be the seven names the validator tests accept, and no others, so that other names are refused (as `InputValidation.CityExamples` states) is the model's choice. A further member in the source would be a valid city there and an invalid one here.
- InputValidation.IsValidNewsId and Guids.ParseGuid: `Guid.TryParse` is modelled as trimming the surrounding white space (`Trim`), then reading the hyphenated 32-digit layout (`Guids.ParseGuid`). The braced, parenthesised, undashed and hexadecimal-list layouts are refused here, where the source accepts them.
- The news rating field is not modelled, because no operation of the core reads it.
- UserApi.UserController.ExecutePost and UserApi.UserController.ExecutePatch require a non-null nickname. The source runs them without validation, and `ToUserBll` is not shown, so what a null nickname does there is not modelled.
- The user controller's get, post and patch do not call their validators in the source, and the model keeps them unvalidated. The validators are modelled on their own. The user controller tests expect these operations to be validated; they also expect a 401 check on get that the code does not have. The model follows the code.
- UserApi validators: the source builds its exceptions without a status. The statuses are the ones the user controller tests assign.
- The vote check is modelled, but no vote operation is. InputValidation.IsValidVote takes a present vote; the source dereferences the vote without a null check, and no caller of it is part of this model.

## Findings

| source | as written | input that shows it | evidently intended | confidence | as-written member | corrected member |
|---|---|---|---|---|---|---|
| GoingOn/Repository/NewsImageRepository.cs:69 | the thumbnail is written under `thumbnail;<city>;<yy-MM-dd>;<id>;`, with a trailing `;`, while it is read and looked up under `thumbnail;<city>;<yy-MM-dd>;<id>` (lines 46 and 94) | any acknowledged image creation, e.g. for Malaga, 2015-05-21 and any identifier, on an empty store: the image is present and `ContainsImageThumbnail` answers false, so the thumbnail get answers 404 | the thumbnail is written under the name it is read from | not executed | ImageRepository.AsWrittenThumbnailMissing | ImageRepository.CreatedThumbnailReadable |
