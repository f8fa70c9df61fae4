/** The news image repository: images and their thumbnails kept as blobs whose names are
    built from the city, the two-digit-year date and the identifier of the news item. */
module ImageRepository {
  import opened Common
  import opened Calendar
  import opened Guids
  import opened Entities

  type Blobs = map<string, seq<byte>>

  /** The blob service: named byte strings. */
  class BlobStore {
    var blobs: Blobs

    constructor ()
      ensures blobs == map[]
    {
      blobs := map[];
    }

    /** `CreateBlob`. Whether the service stored the bytes is the parameter `lands`; a write
        that does not land leaves the store as it was. */
    method CreateBlob(name: string, data: seq<byte>, lands: bool)
      modifies this
      ensures blobs == if lands then old(blobs)[name := data] else old(blobs)
    {
      if lands {
        blobs := blobs[name := data];
      }
    }

    /** `ContainsBlob`. */
    method ContainsBlob(name: string) returns (b: bool)
      ensures b <==> name in blobs
    {
      b := name in blobs;
    }

    /** `GetBlob`: the bytes stored under the name, if any. */
    method GetBlob(name: string) returns (r: Option<seq<byte>>)
      ensures r.Some? <==> name in blobs
      ensures r.Some? ==> r.value == blobs[name]
    {
      r := if name in blobs then Some(blobs[name]) else None;
    }

    /** `DeleteBlob`. */
    method DeleteBlob(name: string)
      modifies this
      ensures blobs == old(blobs) - {name}
    {
      blobs := blobs - {name};
    }
  }

  /** The part of every key after the city: `;yy-MM-dd;id`, always 46 characters. */
  function KeySuffix(p: NewsPath): (s: string)
    ensures |s| == 46 && s[0] == ';' && s[9] == ';'
    ensures s[1..9] == FormatShortDate(p.date.date) && s[10..] == FormatGuid(p.id)
  {
    ";" + FormatShortDate(p.date.date) + ";" + FormatGuid(p.id)
  }

  /** The full-image blob name `city;yy-MM-dd;id`. */
  function ImageKey(p: NewsPath): (k: string)
    ensures k == p.city + KeySuffix(p)
  {
    p.city + ";" + FormatShortDate(p.date.date) + ";" + FormatGuid(p.id)
  }

  /** The thumbnail blob name that reads and existence checks use. */
  function ThumbnailKey(p: NewsPath): (k: string)
    ensures k == "thumbnail;" + ImageKey(p)
  {
    "thumbnail;" + p.city + ";" + FormatShortDate(p.date.date) + ";" + FormatGuid(p.id)
  }

  /** The thumbnail blob name the create operation writes: the full-image name between
      `thumbnail;` and a trailing `;`. */
  function WrittenThumbnailKey(p: NewsPath): (k: string)
    ensures k == ThumbnailKey(p) + ";"
  {
    "thumbnail;" + ImageKey(p) + ";"
  }

  /** Two full-image names are equal exactly when the cities, the two-digit-year dates and
      the identifiers are. */
  lemma {:induction false} ImageKeyInjective(p: NewsPath, q: NewsPath)
    ensures ImageKey(p) == ImageKey(q) <==>
            p.city == q.city && FormatShortDate(p.date.date) == FormatShortDate(q.date.date) && p.id == q.id
  {
    var kp, kq := ImageKey(p), ImageKey(q);
    if kp == kq {
      assert |p.city| == |q.city|;
      assert p.city == kp[..|p.city|] && q.city == kq[..|q.city|];
      assert KeySuffix(p) == kp[|p.city|..] && KeySuffix(q) == kq[|q.city|..];
      assert FormatGuid(p.id) == KeySuffix(p)[10..];
      FormatGuidInjective(p.id, q.id);
    }
  }

  /** The two-digit year makes news items of the same city and identifier a century apart
      share their blobs. */
  lemma {:induction false} CenturyApartShareKey(p: NewsPath, q: NewsPath)
    requires p.city == q.city && p.id == q.id
    requires p.date.date.month == q.date.date.month && p.date.date.day == q.date.date.day
    requires p.date.date.year % 100 == q.date.date.year % 100
    ensures ImageKey(p) == ImageKey(q) && ThumbnailKey(p) == ThumbnailKey(q)
  {
    ShortDateDetermines(p.date.date, q.date.date);
  }

  /** One concrete pair: 21 May 1915 and 21 May 2015 in the same city under one identifier. */
  lemma {:induction false} CenturyApartExample(city: string, id: Guid)
    ensures ImageKey(NewsPath(city, AtMidnight(Date(1915, 5, 21)), id)) ==
            ImageKey(NewsPath(city, AtMidnight(Date(2015, 5, 21)), id))
  {
    CenturyApartShareKey(NewsPath(city, AtMidnight(Date(1915, 5, 21)), id),
                         NewsPath(city, AtMidnight(Date(2015, 5, 21)), id));
  }

  /** Every name built from a path ends in the last digit of the identifier. */
  lemma {:induction false} KeysEndInHexDigit(p: NewsPath)
    ensures IsHexDigit(ImageKey(p)[|ImageKey(p)| - 1])
    ensures IsHexDigit(ThumbnailKey(p)[|ThumbnailKey(p)| - 1])
  {
    var g := FormatGuid(p.id);
    assert !IsDashPosition(35);
    assert ImageKey(p)[|ImageKey(p)| - 1] == g[35];
    assert ThumbnailKey(p)[|ThumbnailKey(p)| - 1] == g[35];
  }

  /** The name the thumbnail is written under is never a name a thumbnail or a full image
      is read from, for any news item. */
  lemma {:induction false} WrittenThumbnailNeverRead(p: NewsPath, q: NewsPath)
    ensures WrittenThumbnailKey(p) != ThumbnailKey(q)
    ensures WrittenThumbnailKey(p) != ImageKey(q)
  {
    KeysEndInHexDigit(q);
    var w := WrittenThumbnailKey(p);
    assert w[|w| - 1] == ';';
  }

  /** For cities without a `;`, such as every city the validator accepts, thumbnail names
      and full-image names never meet. */
  lemma {:induction false} ThumbnailAndImageKeysDisjoint(p: NewsPath, q: NewsPath)
    requires ';' !in q.city
    ensures ThumbnailKey(p) != ImageKey(q)
  {
    var t, k := ThumbnailKey(p), ImageKey(q);
    assert t[9] == ';';
    if |q.city| >= 10 {
      assert k[9] == q.city[9] != ';';
    } else {
      assert |k| < |t|;
    }
  }

  /** What `CreateNewsImage` leaves behind: the reply and the new blobs. */
  datatype Stored = Stored(blobs: Blobs, outcome: Outcome)

  /** The failure the create reports when the full image is not there after its write. */
  const NotStored := Failure(StorageFault, InternalServerError, ImageNotStored)

  /** The create sequence on a blob store holding `blobs`: write the image under
      `imageKey`; if the image is then present, write the thumbnail under `thumbKey` and
      succeed; otherwise fail and write nothing more. */
  function StoreImage(blobs: Blobs, imageKey: string, thumbKey: string, image: seq<byte>, thumbnail: seq<byte>,
                      imageLands: bool, thumbnailLands: bool): (s: Stored)
    requires imageKey != thumbKey
    ensures s.outcome.Ok? <==> imageLands || imageKey in blobs
    ensures s.outcome.Fail? ==> s.outcome.failure == NotStored && s.blobs == blobs
    ensures s.outcome.Ok? ==> imageKey in s.blobs
    ensures imageLands ==> imageKey in s.blobs && s.blobs[imageKey] == image
    ensures thumbKey in s.blobs && thumbKey !in blobs ==> imageKey in s.blobs
    ensures s.outcome.Ok? && thumbnailLands ==> thumbKey in s.blobs && s.blobs[thumbKey] == thumbnail
    ensures !thumbnailLands ==>
              (thumbKey in s.blobs <==> thumbKey in blobs) && (thumbKey in blobs ==> s.blobs[thumbKey] == blobs[thumbKey])
    ensures !imageLands ==>
              (imageKey in s.blobs <==> imageKey in blobs) && (imageKey in blobs ==> s.blobs[imageKey] == blobs[imageKey])
    ensures forall k :: k in blobs ==> k in s.blobs
    ensures forall k :: k != imageKey && k != thumbKey ==>
              (k in s.blobs <==> k in blobs) && (k in blobs ==> s.blobs[k] == blobs[k])
  {
    var afterImage := if imageLands then blobs[imageKey := image] else blobs;
    if imageKey in afterImage then
      Stored(if thumbnailLands then afterImage[thumbKey := thumbnail] else afterImage, Ok)
    else
      Stored(blobs, Fail(NotStored))
  }

  /** A thumbnail stored under its read name always has its full image beside it. */
  ghost predicate ThumbnailsBacked(blobs: Blobs)
  {
    forall p :: ThumbnailKey(p) in blobs ==> ImageKey(p) in blobs
  }

  class NewsImageRepository {
    const blobStore: BlobStore

    constructor (store: BlobStore)
      ensures blobStore == store
    {
      blobStore := store;
    }

    /** `GetNewsImage`: the bytes under the full-image name. */
    method GetNewsImage(p: NewsPath) returns (r: Option<seq<byte>>)
      ensures r.Some? <==> ImageKey(p) in blobStore.blobs
      ensures r.Some? ==> r.value == blobStore.blobs[ImageKey(p)]
    {
      r := blobStore.GetBlob(p.city + ";" + FormatShortDate(p.date.date) + ";" + FormatGuid(p.id));
    }

    /** `GetNewsThumbnailImage`: the bytes under the thumbnail read name. */
    method GetNewsThumbnailImage(p: NewsPath) returns (r: Option<seq<byte>>)
      ensures r.Some? <==> ThumbnailKey(p) in blobStore.blobs
      ensures r.Some? ==> r.value == blobStore.blobs[ThumbnailKey(p)]
    {
      r := blobStore.GetBlob("thumbnail;" + p.city + ";" + FormatShortDate(p.date.date) + ";" + FormatGuid(p.id));
    }

    /** The create sequence with the thumbnail name given: the image write, the re-check
        and, only when the image is there, the thumbnail write. */
    method CreateUnder(p: NewsPath, thumbKey: string, image: seq<byte>, thumbnail: seq<byte>,
                       imageLands: bool, thumbnailLands: bool) returns (r: Outcome)
      requires thumbKey != ImageKey(p)
      modifies blobStore
      ensures Stored(blobStore.blobs, r) ==
              StoreImage(old(blobStore.blobs), ImageKey(p), thumbKey, image, thumbnail, imageLands, thumbnailLands)
    {
      var blobName := p.city + ";" + FormatShortDate(p.date.date) + ";" + FormatGuid(p.id);
      blobStore.CreateBlob(blobName, image, imageLands);
      var present := blobStore.ContainsBlob(blobName);
      if present {
        blobStore.CreateBlob(thumbKey, thumbnail, thumbnailLands);
        r := Ok;
      } else {
        r := Fail(NotStored);
      }
    }

    /** `CreateNewsImage` as written: the thumbnail goes under `thumbnail;city;yy-MM-dd;id;`. */
    method CreateNewsImageAsWritten(p: NewsPath, image: seq<byte>, thumbnail: seq<byte>,
                                    imageLands: bool, thumbnailLands: bool) returns (r: Outcome)
      modifies blobStore
      ensures Stored(blobStore.blobs, r) ==
              StoreImage(old(blobStore.blobs), ImageKey(p), WrittenThumbnailKey(p), image, thumbnail, imageLands, thumbnailLands)
    {
      WrittenThumbnailNeverRead(p, p);
      r := CreateUnder(p, "thumbnail;" + ImageKey(p) + ";", image, thumbnail, imageLands, thumbnailLands);
    }

    /** `CreateNewsImage` with the thumbnail under the name it is read from. */
    method CreateNewsImage(p: NewsPath, image: seq<byte>, thumbnail: seq<byte>,
                           imageLands: bool, thumbnailLands: bool) returns (r: Outcome)
      modifies blobStore
      ensures Stored(blobStore.blobs, r) ==
              StoreImage(old(blobStore.blobs), ImageKey(p), ThumbnailKey(p), image, thumbnail, imageLands, thumbnailLands)
    {
      assert |ThumbnailKey(p)| == |ImageKey(p)| + 10;
      r := CreateUnder(p, "thumbnail;" + ImageKey(p), image, thumbnail, imageLands, thumbnailLands);
    }

    /** `DeleteNewsImage`: only the full-image blob is removed. */
    method DeleteNewsImage(p: NewsPath)
      modifies blobStore
      ensures blobStore.blobs == old(blobStore.blobs) - {ImageKey(p)}
    {
      blobStore.DeleteBlob(p.city + ";" + FormatShortDate(p.date.date) + ";" + FormatGuid(p.id));
    }

    /** `ContainsImage`. */
    method ContainsImage(p: NewsPath) returns (b: bool)
      ensures b <==> ImageKey(p) in blobStore.blobs
    {
      b := blobStore.ContainsBlob(p.city + ";" + FormatShortDate(p.date.date) + ";" + FormatGuid(p.id));
    }

    /** `ContainsImageThumbnail`. */
    method ContainsImageThumbnail(p: NewsPath) returns (b: bool)
      ensures b <==> ThumbnailKey(p) in blobStore.blobs
    {
      b := blobStore.ContainsBlob("thumbnail;" + p.city + ";" + FormatShortDate(p.date.date) + ";" + FormatGuid(p.id));
    }
  }

  /** As written, creating an image never changes whether any news item has a thumbnail
      under the name it is read from. */
  lemma {:induction false} AsWrittenCreateNeverAddsReadableThumbnail(blobs: Blobs, p: NewsPath, q: NewsPath,
                                                                  image: seq<byte>, thumbnail: seq<byte>,
                                                                  imageLands: bool, thumbnailLands: bool)
    requires ';' !in p.city
    ensures ImageKey(p) != WrittenThumbnailKey(p)
    ensures var s := StoreImage(blobs, ImageKey(p), WrittenThumbnailKey(p), image, thumbnail, imageLands, thumbnailLands);
            (ThumbnailKey(q) in s.blobs <==> ThumbnailKey(q) in blobs)
  {
    WrittenThumbnailNeverRead(p, p);
    WrittenThumbnailNeverRead(p, q);
    ThumbnailAndImageKeysDisjoint(q, p);
  }

  /** The counterexample: on an empty store, a create whose writes both land succeeds and
      stores the image, yet the thumbnail existence check for the same item is false. */
  method AsWrittenThumbnailMissing(p: NewsPath, image: seq<byte>, thumbnail: seq<byte>)
    returns (created: Outcome, hasImage: bool, hasThumbnail: bool)
    ensures created == Ok && hasImage && !hasThumbnail
  {
    var store := new BlobStore();
    var repository := new NewsImageRepository(store);
    created := repository.CreateNewsImageAsWritten(p, image, thumbnail, true, true);
    hasImage := repository.ContainsImage(p);
    hasThumbnail := repository.ContainsImageThumbnail(p);
    WrittenThumbnailNeverRead(p, p);
    assert |ThumbnailKey(p)| == |ImageKey(p)| + 10;
  }

  /** With the thumbnail under its read name, a create whose writes both land makes the
      image and the thumbnail readable, with the bytes given. */
  method CreatedThumbnailReadable(p: NewsPath, image: seq<byte>, thumbnail: seq<byte>)
    returns (created: Outcome, readImage: Option<seq<byte>>, readThumbnail: Option<seq<byte>>)
    ensures created == Ok && readImage == Some(image) && readThumbnail == Some(thumbnail)
  {
    var store := new BlobStore();
    var repository := new NewsImageRepository(store);
    created := repository.CreateNewsImage(p, image, thumbnail, true, true);
    readImage := repository.GetNewsImage(p);
    readThumbnail := repository.GetNewsThumbnailImage(p);
  }

  /** The corrected create keeps every readable thumbnail backed by its full image. */
  lemma {:induction false} CreatePreservesThumbnailsBacked(blobs: Blobs, p: NewsPath,
                                                          image: seq<byte>, thumbnail: seq<byte>,
                                                          imageLands: bool, thumbnailLands: bool)
    requires ';' !in p.city
    requires ThumbnailsBacked(blobs)
    ensures ImageKey(p) != ThumbnailKey(p)
    ensures ThumbnailsBacked(StoreImage(blobs, ImageKey(p), ThumbnailKey(p), image, thumbnail, imageLands, thumbnailLands).blobs)
  {
    ThumbnailAndImageKeysDisjoint(p, p);
    var s := StoreImage(blobs, ImageKey(p), ThumbnailKey(p), image, thumbnail, imageLands, thumbnailLands);
    forall q | ThumbnailKey(q) in s.blobs
      ensures ImageKey(q) in s.blobs
    {
      ThumbnailAndImageKeysDisjoint(q, p);
      if ThumbnailKey(q) !in blobs {
        assert ThumbnailKey(q) == ThumbnailKey(p);
        assert ImageKey(q) == ThumbnailKey(q)[10..] == ThumbnailKey(p)[10..] == ImageKey(p);
      }
    }
  }

  /** Deleting an image keeps its thumbnail: the store can be left with a readable thumbnail
      whose full image is gone. */
  lemma {:induction false} DeleteKeepsThumbnail(blobs: Blobs, p: NewsPath)
    ensures ThumbnailKey(p) in blobs - {ImageKey(p)} <==> ThumbnailKey(p) in blobs
    ensures ImageKey(p) !in blobs - {ImageKey(p)}
  {
    assert |ThumbnailKey(p)| == |ImageKey(p)| + 10;
  }
}
