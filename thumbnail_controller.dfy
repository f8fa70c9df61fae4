/** The news thumbnail controller: a guard chain over the route, the news, the image and the
    thumbnail, followed by a read of the thumbnail. It takes no requester and changes
    nothing. */
module ThumbnailApi {
  import opened Common
  import opened Calendar
  import opened Guids
  import opened Entities
  import opened InputValidation
  import opened ImageRepository
  import opened BusinessChecks
  import opened NewsStorage
  import opened NewsImageApi

  const ThumbnailMissing := BusinessFailure(NotFound, ThumbnailNotFound)

  /** The media type every thumbnail is announced with, whatever its format. */
  const ThumbnailMediaType := "image/png"

  /** `ValidateGetOperation`: the route parameters (400), then the news, the image and the
      thumbnail, each 404 when missing. */
  function ValidateGetThumbnailOperation(items: NewsItems, blobs: Blobs, checks: Checks, city: Text, date: Text, id: Text): (r: Outcome)
    ensures r.Ok? <==> ValidateGetImageOperation(items, blobs, checks, city, date, id).Ok? &&
                       checks.isValidGetThumbnailImageNews(blobs, ParsedPath(city, date, id))
    ensures ValidateGetImageOperation(items, blobs, checks, city, date, id).Fail? ==>
              r == ValidateGetImageOperation(items, blobs, checks, city, date, id)
    ensures r.Fail? ==> r.failure.status in {BadRequest, NotFound}
    ensures r == Fail(ThumbnailMissing) <==>
              ValidateGetImageOperation(items, blobs, checks, city, date, id).Ok? &&
              !checks.isValidGetThumbnailImageNews(blobs, ParsedPath(city, date, id))
  {
    var parameters := ValidateNewsParameters(city, date, id);
    if parameters.Fail? then parameters
    else if !checks.isValidGetNews(items, ParsedPath(city, date, id)) then Fail(NewsMissing)
    else if !checks.isValidGetImageNews(blobs, ParsedPath(city, date, id)) then Fail(ImageMissing)
    else if !checks.isValidGetThumbnailImageNews(blobs, ParsedPath(city, date, id)) then Fail(ThumbnailMissing)
    else Ok
  }

  /** `ExecuteGetAsync`: validate, then answer 200 with the bytes under the thumbnail read
      name, announced as PNG; the body is absent when nothing is stored there. */
  function GetThumbnail(items: NewsItems, blobs: Blobs, checks: Checks, city: Text, date: Text, id: Text): (r: Reply<Option<ImageContent>>)
    ensures var v := ValidateGetThumbnailOperation(items, blobs, checks, city, date, id);
            v.Fail? ==> r == Rejected(v.failure)
    ensures var v := ValidateGetThumbnailOperation(items, blobs, checks, city, date, id);
            v.Ok? ==>
              var key := ThumbnailKey(ParsedPath(city, date, id));
              r.Answer? && r.status == OK && r.location == None &&
              (r.body.Some? <==> key in blobs) &&
              (r.body.Some? ==> r.body.value.bytes == blobs[key] && r.body.value.contentType == ThumbnailMediaType)
  {
    var v := ValidateGetThumbnailOperation(items, blobs, checks, city, date, id);
    if v.Fail? then Rejected(v.failure)
    else
      var key := "thumbnail;" + city.value + ";" + FormatShortDate(ParsedDate(date).date) + ";" + FormatGuid(ParsedId(id));
      Answer(OK, None, if key in blobs then Some(ImageContent(blobs[key], ThumbnailMediaType)) else None)
  }

  /** When the checks read the blob store, a thumbnail get that passes validation carries
      the stored thumbnail. */
  lemma {:induction false} GetThumbnailCarriesStoredBytes(items: NewsItems, blobs: Blobs, checks: Checks,
                                                          city: Text, date: Text, id: Text)
    requires ImageChecksReadBlobs(checks)
    requires GetThumbnail(items, blobs, checks, city, date, id).Answer?
    ensures var key := ThumbnailKey(ParsedPath(city, date, id));
            key in blobs && GetThumbnail(items, blobs, checks, city, date, id).body == Some(ImageContent(blobs[key], ThumbnailMediaType))
  {
    assert checks.isValidGetThumbnailImageNews(blobs, ParsedPath(city, date, id));
  }

  /** After the image creation as written, on a store that has no thumbnail for the news,
      the thumbnail get is refused with 404 although the image was stored. */
  lemma {:induction false} AsWrittenThumbnailNotFound(items: NewsItems, blobs: Blobs, checks: Checks, city: Text, date: Text, id: Text,
                                                      image: seq<byte>, thumbnail: seq<byte>, thumbnailLands: bool)
    requires ImageChecksReadBlobs(checks)
    requires ValidateNewsParameters(city, date, id).Ok? && checks.isValidGetNews(items, ParsedPath(city, date, id))
    requires ThumbnailKey(ParsedPath(city, date, id)) !in blobs
    ensures var p := ParsedPath(city, date, id);
            ImageKey(p) != WrittenThumbnailKey(p) &&
            var s := StoreImage(blobs, ImageKey(p), WrittenThumbnailKey(p), image, thumbnail, true, thumbnailLands);
            s.outcome.Ok? && ImageKey(p) in s.blobs &&
            GetThumbnail(items, s.blobs, checks, city, date, id) == Rejected(ThumbnailMissing)
  {
    var p := ParsedPath(city, date, id);
    ValidCityHasNoSeparator(city);
    AsWrittenCreateNeverAddsReadableThumbnail(blobs, p, p, image, thumbnail, true, thumbnailLands);
    var s := StoreImage(blobs, ImageKey(p), WrittenThumbnailKey(p), image, thumbnail, true, thumbnailLands);
    assert checks.isValidGetImageNews(s.blobs, p);
    assert !checks.isValidGetThumbnailImageNews(s.blobs, p);
  }

  /** With the corrected creation, an acknowledged image and thumbnail make the thumbnail
      get answer 200 with the thumbnail. */
  lemma {:induction false} CreatedThumbnailIsServed(items: NewsItems, blobs: Blobs, checks: Checks, city: Text, date: Text, id: Text,
                                                    image: seq<byte>, thumbnail: seq<byte>)
    requires ImageChecksReadBlobs(checks)
    requires ValidateNewsParameters(city, date, id).Ok? && checks.isValidGetNews(items, ParsedPath(city, date, id))
    ensures var p := ParsedPath(city, date, id);
            ImageKey(p) != ThumbnailKey(p) &&
            var s := StoreImage(blobs, ImageKey(p), ThumbnailKey(p), image, thumbnail, true, true);
            GetThumbnail(items, s.blobs, checks, city, date, id) == Answer(OK, None, Some(ImageContent(thumbnail, ThumbnailMediaType)))
  {
    var p := ParsedPath(city, date, id);
    ValidCityHasNoSeparator(city);
    ThumbnailAndImageKeysDisjoint(p, p);
    var s := StoreImage(blobs, ImageKey(p), ThumbnailKey(p), image, thumbnail, true, true);
    assert checks.isValidGetImageNews(s.blobs, p);
    assert checks.isValidGetThumbnailImageNews(s.blobs, p);
  }

  /** The image life cycle on stores holding one news item and no blobs: the author posts
      an image, which is then served, while its thumbnail get is refused with 404 because
      the thumbnail was written under another name; a delete answers 200 and the image is
      still served; a second post is refused with 400. */
  method ImageLifecycle(checks: Checks, mediaTypeOf: seq<byte> -> string, news: NewsBll, city: Text, date: Text, id: Text,
                        image: seq<byte>, thumbnail: seq<byte>, user: string)
    returns (posted: Reply<()>, got: Reply<Option<ImageContent>>, thumb: Reply<Option<ImageContent>>,
             deleted: Reply<()>, gotAfterDelete: Reply<Option<ImageContent>>, postedAgain: Reply<()>)
    requires GetNewsFindsStored(checks) && ImageChecksReadBlobs(checks)
    requires ValidateNewsParameters(city, date, id).Ok? && ParsedId(id) == news.id
    requires checks.isValidModifyNews(map[news.id := news], ParsedPath(city, date, id), user)
    ensures posted == Answer(OK, None, ())
    ensures got == Answer(OK, None, Some(ImageContent(image, mediaTypeOf(image))))
    ensures thumb == Rejected(ThumbnailMissing)
    ensures deleted == Answer(OK, None, ()) && gotAfterDelete == got
    ensures postedAgain == Rejected(ImageExists)
  {
    var newsStore := new NewsStore();
    newsStore.AddNews(news);
    var blobStore := new BlobStore();
    var repository := new NewsImageRepository(blobStore);
    var controller := new NewsImageController(newsStore, repository, checks, mediaTypeOf);
    var p := ParsedPath(city, date, id);
    assert !checks.isValidGetImageNews(map[], p);
    posted := controller.ExecutePost(city, date, id, image, true, thumbnail, true, true, user);
    assert |ThumbnailKey(p)| == |ImageKey(p)| + 10;
    WrittenThumbnailNeverRead(p, p);
    assert checks.isValidGetImageNews(blobStore.blobs, p);
    assert !checks.isValidGetThumbnailImageNews(blobStore.blobs, p);
    got := controller.ExecuteGet(city, date, id);
    thumb := GetThumbnail(newsStore.items, blobStore.blobs, checks, city, date, id);
    deleted := controller.ExecuteDelete(city, date, id, user);
    gotAfterDelete := controller.ExecuteGet(city, date, id);
    postedAgain := controller.ExecutePost(city, date, id, image, true, thumbnail, true, true, user);
  }
}
