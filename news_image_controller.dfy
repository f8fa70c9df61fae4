/** The news image controller: the ordered validation of getting, creating and deleting the
    image of a news item, and the operations, of which only creation writes to the image
    repository. */
module NewsImageApi {
  import opened Common
  import opened Calendar
  import opened Guids
  import opened Entities
  import opened InputValidation
  import opened NewsStorage
  import opened ImageRepository
  import opened BusinessChecks

  const NewsMissing := BusinessFailure(NotFound, NewsNotFound)
  const ImageMissing := BusinessFailure(NotFound, ImageNotFound)
  const NotAuthorFailure := BusinessFailure(Unauthorized, NotAuthorized)
  const ImageExists := BusinessFailure(BadRequest, ImageAlreadyExists)

  /** Every city name the route accepts is free of the key separator. */
  lemma {:induction false} ValidCityHasNoSeparator(city: Text)
    requires IsValidCity(city)
    ensures ';' !in city.value
  {
    var c :| CityName(c) == city.value;
    match c
    case Malaga => assert city.value == "Malaga";
    case Granada => assert city.value == "Granada";
    case Sevilla => assert city.value == "Sevilla";
    case Cadiz => assert city.value == "Cadiz";
    case Almeria => assert city.value == "Almeria";
    case Cordoba => assert city.value == "Cordoba";
    case Huelva => assert city.value == "Huelva";
  }

  /** `ValidateGetOperation`: the route parameters (400), the news (404), the image (404). */
  function ValidateGetImageOperation(items: NewsItems, blobs: Blobs, checks: Checks, city: Text, date: Text, id: Text): (r: Outcome)
    ensures r.Ok? <==> ValidateNewsParameters(city, date, id).Ok? &&
                       checks.isValidGetNews(items, ParsedPath(city, date, id)) &&
                       checks.isValidGetImageNews(blobs, ParsedPath(city, date, id))
    ensures ValidateNewsParameters(city, date, id).Fail? ==> r == ValidateNewsParameters(city, date, id)
    ensures ValidateNewsParameters(city, date, id).Ok? ==>
              (!checks.isValidGetNews(items, ParsedPath(city, date, id)) <==> r == Fail(NewsMissing))
    ensures ValidateNewsParameters(city, date, id).Ok? && checks.isValidGetNews(items, ParsedPath(city, date, id)) ==>
              (!checks.isValidGetImageNews(blobs, ParsedPath(city, date, id)) <==> r == Fail(ImageMissing))
  {
    var parameters := ValidateNewsParameters(city, date, id);
    if parameters.Fail? then parameters
    else if !checks.isValidGetNews(items, ParsedPath(city, date, id)) then Fail(NewsMissing)
    else if !checks.isValidGetImageNews(blobs, ParsedPath(city, date, id)) then Fail(ImageMissing)
    else Ok
  }

  /** `ValidatePostOperation`: the route parameters (400), the image against its content type
      (400), the news (404), authorship (401), and an image not yet stored (400).
      `imageMatches` is the verdict of `ValidateImage`, which decodes the bytes. */
  function ValidatePostImageOperation(items: NewsItems, blobs: Blobs, checks: Checks, city: Text, date: Text, id: Text,
                                      imageMatches: bool, user: string): (r: Outcome)
    ensures r.Ok? <==> ValidateNewsParameters(city, date, id).Ok? && imageMatches &&
                       checks.isValidGetNews(items, ParsedPath(city, date, id)) &&
                       checks.isValidModifyNews(items, ParsedPath(city, date, id), user) &&
                       !checks.isValidGetImageNews(blobs, ParsedPath(city, date, id))
    ensures ValidateNewsParameters(city, date, id).Fail? ==> r == ValidateNewsParameters(city, date, id)
    ensures ValidateNewsParameters(city, date, id).Ok? && !imageMatches ==> r == Fail(InputFailure(ImageFormatMismatch))
    ensures ValidateNewsParameters(city, date, id).Ok? && imageMatches ==>
              (!checks.isValidGetNews(items, ParsedPath(city, date, id)) <==> r == Fail(NewsMissing))
    ensures ValidateNewsParameters(city, date, id).Ok? && imageMatches && checks.isValidGetNews(items, ParsedPath(city, date, id)) ==>
              (!checks.isValidModifyNews(items, ParsedPath(city, date, id), user) <==> r == Fail(NotAuthorFailure))
    ensures r == Fail(ImageExists) <==>
              ValidateNewsParameters(city, date, id).Ok? && imageMatches &&
              checks.isValidGetNews(items, ParsedPath(city, date, id)) &&
              checks.isValidModifyNews(items, ParsedPath(city, date, id), user) &&
              checks.isValidGetImageNews(blobs, ParsedPath(city, date, id))
  {
    var parameters := ValidateNewsParameters(city, date, id);
    if parameters.Fail? then parameters
    else if !imageMatches then Fail(InputFailure(ImageFormatMismatch))
    else if !checks.isValidGetNews(items, ParsedPath(city, date, id)) then Fail(NewsMissing)
    else if !checks.isValidModifyNews(items, ParsedPath(city, date, id), user) then Fail(NotAuthorFailure)
    else if checks.isValidGetImageNews(blobs, ParsedPath(city, date, id)) then Fail(ImageExists)
    else Ok
  }

  /** `ValidateDeleteOperation`: the route parameters (400), the news (404), authorship
      (401), the image (404). */
  function ValidateDeleteImageOperation(items: NewsItems, blobs: Blobs, checks: Checks, city: Text, date: Text, id: Text,
                                        user: string): (r: Outcome)
    ensures r.Ok? <==> ValidateNewsParameters(city, date, id).Ok? &&
                       checks.isValidGetNews(items, ParsedPath(city, date, id)) &&
                       checks.isValidModifyNews(items, ParsedPath(city, date, id), user) &&
                       checks.isValidGetImageNews(blobs, ParsedPath(city, date, id))
    ensures ValidateNewsParameters(city, date, id).Fail? ==> r == ValidateNewsParameters(city, date, id)
    ensures ValidateNewsParameters(city, date, id).Ok? ==>
              (!checks.isValidGetNews(items, ParsedPath(city, date, id)) <==> r == Fail(NewsMissing))
    ensures ValidateNewsParameters(city, date, id).Ok? && checks.isValidGetNews(items, ParsedPath(city, date, id)) ==>
              (!checks.isValidModifyNews(items, ParsedPath(city, date, id), user) <==> r == Fail(NotAuthorFailure))
    ensures r == Fail(ImageMissing) <==>
              ValidateNewsParameters(city, date, id).Ok? &&
              checks.isValidGetNews(items, ParsedPath(city, date, id)) &&
              checks.isValidModifyNews(items, ParsedPath(city, date, id), user) &&
              !checks.isValidGetImageNews(blobs, ParsedPath(city, date, id))
  {
    var parameters := ValidateNewsParameters(city, date, id);
    if parameters.Fail? then parameters
    else if !checks.isValidGetNews(items, ParsedPath(city, date, id)) then Fail(NewsMissing)
    else if !checks.isValidModifyNews(items, ParsedPath(city, date, id), user) then Fail(NotAuthorFailure)
    else if !checks.isValidGetImageNews(blobs, ParsedPath(city, date, id)) then Fail(ImageMissing)
    else Ok
  }

  class NewsImageController {
    const newsRepository: NewsStore
    const imageRepository: NewsImageRepository
    const checks: Checks
    /** The media type announced for stored bytes (the decoded image's raw format). */
    const mediaTypeOf: seq<byte> -> string

    constructor (newsRepository: NewsStore, imageRepository: NewsImageRepository, checks: Checks,
                 mediaTypeOf: seq<byte> -> string)
      ensures this.newsRepository == newsRepository && this.imageRepository == imageRepository
      ensures this.checks == checks && this.mediaTypeOf == mediaTypeOf
    {
      this.newsRepository := newsRepository;
      this.imageRepository := imageRepository;
      this.checks := checks;
      this.mediaTypeOf := mediaTypeOf;
    }

    /** `ExecuteGetAsync`: validate, then read the image under its key and answer 200 with
        the bytes and their media type; nothing is changed. The body is absent when the
        repository holds nothing under the key. */
    method ExecuteGet(city: Text, date: Text, id: Text) returns (reply: Reply<Option<ImageContent>>)
      ensures var v := ValidateGetImageOperation(newsRepository.items, imageRepository.blobStore.blobs, checks, city, date, id);
              v.Fail? ==> reply == Rejected(v.failure)
      ensures var v := ValidateGetImageOperation(newsRepository.items, imageRepository.blobStore.blobs, checks, city, date, id);
              v.Ok? ==>
                var key := ImageKey(ParsedPath(city, date, id));
                var blobs := imageRepository.blobStore.blobs;
                reply.Answer? && reply.status == OK && reply.location == None &&
                (reply.body.Some? <==> key in blobs) &&
                (reply.body.Some? ==> reply.body.value == ImageContent(blobs[key], mediaTypeOf(blobs[key])))
    {
      var v := ValidateGetImageOperation(newsRepository.items, imageRepository.blobStore.blobs, checks, city, date, id);
      if v.Fail? {
        return Rejected(v.failure);
      }
      var bytes := imageRepository.GetNewsImage(ParsedPath(city, date, id));
      var body := if bytes.Some? then Some(ImageContent(bytes.value, mediaTypeOf(bytes.value))) else None;
      reply := Answer(OK, None, body);
    }

    /** `ExecutePostAsync`: validate, then create the image and its thumbnail and answer 200;
        a full image the store does not hold after its write is answered 500. `imageLands`
        and `thumbnailLands` say whether the store acknowledges each write. The repository's
        create is the one as written, so the thumbnail goes under its written name. */
    method ExecutePost(city: Text, date: Text, id: Text, image: seq<byte>, imageMatches: bool, thumbnail: seq<byte>,
                       imageLands: bool, thumbnailLands: bool, user: string)
      returns (reply: Reply<()>)
      modifies imageRepository.blobStore
      ensures var v := ValidatePostImageOperation(newsRepository.items, old(imageRepository.blobStore.blobs), checks,
                                                  city, date, id, imageMatches, user);
              v.Fail? ==> reply == Rejected(v.failure) && imageRepository.blobStore.blobs == old(imageRepository.blobStore.blobs)
      ensures var v := ValidatePostImageOperation(newsRepository.items, old(imageRepository.blobStore.blobs), checks,
                                                  city, date, id, imageMatches, user);
              v.Ok? ==>
                var p := ParsedPath(city, date, id);
                ImageKey(p) != WrittenThumbnailKey(p) &&
                var s := StoreImage(old(imageRepository.blobStore.blobs), ImageKey(p), WrittenThumbnailKey(p), image, thumbnail,
                                    imageLands, thumbnailLands);
                imageRepository.blobStore.blobs == s.blobs &&
                reply == if s.outcome.Ok? then Answer(OK, None, ()) else Rejected(s.outcome.failure)
    {
      var v := ValidatePostImageOperation(newsRepository.items, imageRepository.blobStore.blobs, checks,
                                          city, date, id, imageMatches, user);
      if v.Fail? {
        return Rejected(v.failure);
      }
      var p := ParsedPath(city, date, id);
      WrittenThumbnailNeverRead(p, p);
      var stored := imageRepository.CreateNewsImageAsWritten(p, image, thumbnail, imageLands, thumbnailLands);
      reply := if stored.Ok? then Answer(OK, None, ()) else Rejected(stored.failure);
    }

    /** `ExecuteDeletetAsync`: validate and answer 200. No repository is called, so the image
        stays stored. */
    method ExecuteDelete(city: Text, date: Text, id: Text, user: string) returns (reply: Reply<()>)
      ensures var v := ValidateDeleteImageOperation(newsRepository.items, imageRepository.blobStore.blobs, checks,
                                                    city, date, id, user);
              reply == if v.Fail? then Rejected(v.failure) else Answer(OK, None, ())
    {
      var v := ValidateDeleteImageOperation(newsRepository.items, imageRepository.blobStore.blobs, checks,
                                            city, date, id, user);
      if v.Fail? {
        return Rejected(v.failure);
      }
      reply := Answer(OK, None, ());
    }
  }

  /** When the image check reads the blob store, a successful get always carries the stored
      bytes, and a creation the store acknowledges makes the next get succeed. */
  lemma {:induction false} GetCarriesStoredImage(items: NewsItems, blobs: Blobs, checks: Checks, city: Text, date: Text, id: Text)
    requires ImageChecksReadBlobs(checks)
    requires ValidateGetImageOperation(items, blobs, checks, city, date, id).Ok?
    ensures ImageKey(ParsedPath(city, date, id)) in blobs
  {
    assert checks.isValidGetImageNews(blobs, ParsedPath(city, date, id));
  }

  /** An image creation as written that passes validation and whose image write lands,
      under checks that read the stores, leaves the image where a get validates and finds it;
      a second creation is refused with 400. */
  lemma {:induction false} CreatedImageIsFound(items: NewsItems, blobs: Blobs, checks: Checks, city: Text, date: Text, id: Text,
                                               image: seq<byte>, imageMatches: bool, thumbnail: seq<byte>,
                                               thumbnailLands: bool, user: string)
    requires ImageChecksReadBlobs(checks)
    requires ValidatePostImageOperation(items, blobs, checks, city, date, id, imageMatches, user).Ok?
    ensures var p := ParsedPath(city, date, id);
            ImageKey(p) != WrittenThumbnailKey(p) &&
            var s := StoreImage(blobs, ImageKey(p), WrittenThumbnailKey(p), image, thumbnail, true, thumbnailLands);
            s.outcome.Ok? &&
            ValidateGetImageOperation(items, s.blobs, checks, city, date, id).Ok? &&
            s.blobs[ImageKey(p)] == image &&
            ValidatePostImageOperation(items, s.blobs, checks, city, date, id, imageMatches, user) == Fail(ImageExists)
  {
    var p := ParsedPath(city, date, id);
    WrittenThumbnailNeverRead(p, p);
    var s := StoreImage(blobs, ImageKey(p), WrittenThumbnailKey(p), image, thumbnail, true, thumbnailLands);
    assert checks.isValidGetImageNews(s.blobs, p);
  }

  /** A successful delete leaves every blob in place, so the image is still found. */
  lemma {:induction false} DeleteKeepsImageFound(items: NewsItems, blobs: Blobs, checks: Checks, city: Text, date: Text, id: Text,
                                                 user: string)
    requires ValidateDeleteImageOperation(items, blobs, checks, city, date, id, user).Ok?
    ensures ValidateGetImageOperation(items, blobs, checks, city, date, id).Ok?
    ensures ValidatePostImageOperation(items, blobs, checks, city, date, id, true, user) == Fail(ImageExists)
  {
  }
}
