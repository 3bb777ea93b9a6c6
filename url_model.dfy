/**
 * The Urls collection: the record schema, the constraints the schema and its
 * unique indexes enforce, and the queries the controller runs against it.
 */
module UrlModel {
  import opened Wrappers

  /** The id of the user who created a record (an ObjectId in the store; compared by equality only). */
  type UserId = string

  /** A stored short link. Times are milliseconds since the epoch. */
  datatype UrlRecord = UrlRecord(
    shortCode: string,
    originalUrl: string,
    shortUrl: string,
    clicks: int,
    createdBy: UserId,
    createdAt: int,
    updatedAt: int)

  const SHORT_CODE_MIN_LENGTH: nat := 4
  const SHORT_CODE_MAX_LENGTH: nat := 10

  /** The schema's `/^https?:\/\//` test, read character by character. */
  predicate MatchesHttpScheme(v: string)
  {
    |v| >= 7 && v[0] == 'h' && v[1] == 't' && v[2] == 't' && v[3] == 'p'
    && ((v[4] == ':' && v[5] == '/' && v[6] == '/')
        || (|v| >= 8 && v[4] == 's' && v[5] == ':' && v[6] == '/' && v[7] == '/'))
  }

  /** The pattern holds exactly of the strings that start with "http://" or "https://". */
  lemma MatchesHttpSchemePrefix(v: string)
    ensures MatchesHttpScheme(v) <==> "http://" <= v || "https://" <= v
  {
    if "http://" <= v {
      assert v[..7] == "http://";
      assert v[0] == 'h' && v[4] == ':' && v[6] == '/';
    }
    if "https://" <= v {
      assert v[..8] == "https://";
      assert v[0] == 'h' && v[4] == 's' && v[7] == '/';
    }
    if MatchesHttpScheme(v) {
      if v[4] == ':' {
        assert v[..7] == "http://";
      } else {
        assert v[..8] == "https://";
      }
    }
  }

  /** shortCode: required, minLength 4, maxLength 10. */
  predicate ShortCodeValid(code: string)
  {
    SHORT_CODE_MIN_LENGTH <= |code| <= SHORT_CODE_MAX_LENGTH
  }

  /**
   * What the schema validates when a record is created: the code's length
   * bounds and the scheme of both URLs (a required string must be non-empty,
   * which both bounds already imply). clicks carries no validator.
   */
  predicate SchemaValid(r: UrlRecord)
  {
    ShortCodeValid(r.shortCode) && MatchesHttpScheme(r.originalUrl) && MatchesHttpScheme(r.shortUrl)
  }

  /** A new document: clicks takes its default 0, both timestamps are the insertion time. */
  function NewUrlRecord(shortCode: string, originalUrl: string, shortUrl: string, owner: UserId, now: int): (r: UrlRecord)
    ensures r.clicks == 0 && r.createdAt == now && r.updatedAt == now
    ensures r.shortCode == shortCode && r.originalUrl == originalUrl && r.shortUrl == shortUrl && r.createdBy == owner
  {
    UrlRecord(shortCode, originalUrl, shortUrl, 0, owner, now, now)
  }

  /** The unique indexes: no two records share a shortCode, no two share a shortUrl. */
  predicate UniqueKeys(urls: seq<UrlRecord>)
  {
    (forall i, j :: 0 <= i < |urls| && 0 <= j < |urls| && urls[i].shortCode == urls[j].shortCode ==> i == j)
    && (forall i, j :: 0 <= i < |urls| && 0 <= j < |urls| && urls[i].shortUrl == urls[j].shortUrl ==> i == j)
  }

  /**
   * What every stored record keeps once inserted: the code's bounds, the
   * short URL's scheme and a non-negative counter. The original URL's scheme
   * is not among them: findOneAndUpdate runs without runValidators, so an update
   * skips the schema's validators (UrlController.UpdateMayStoreSchemelessUrl).
   */
  predicate StoredRecordValid(r: UrlRecord)
  {
    ShortCodeValid(r.shortCode) && MatchesHttpScheme(r.shortUrl) && r.clicks >= 0
  }

  predicate CollectionValid(urls: seq<UrlRecord>)
  {
    UniqueKeys(urls) && forall i :: 0 <= i < |urls| ==> StoredRecordValid(urls[i])
  }

  // ---------------------------------------------------------------------------
  // Queries

  /** The query filters the controller passes to find, findOne and their variants. */
  datatype Filter =
    | ByCode(code: string)                        // { shortCode }
    | ByOwnedCode(code: string, owner: UserId)    // { shortCode, createdBy }
    | ByOriginalUrl(url: string)                  // { originalUrl }
    | ByShortUrl(url: string)                     // the shortUrl unique index
    | ByOwner(owner: UserId)                      // { createdBy }

  predicate Matches(r: UrlRecord, f: Filter)
  {
    match f
    case ByCode(code) => r.shortCode == code
    case ByOwnedCode(code, owner) => r.shortCode == code && r.createdBy == owner
    case ByOriginalUrl(url) => r.originalUrl == url
    case ByShortUrl(url) => r.shortUrl == url
    case ByOwner(owner) => r.createdBy == owner
  }

  /** findOne: the position of the first record (in natural order) that matches, if any. */
  function FindOne(urls: seq<UrlRecord>, f: Filter): (r: Option<nat>)
    ensures r.None? <==> forall i :: 0 <= i < |urls| ==> !Matches(urls[i], f)
    ensures r.Some? ==> r.value < |urls| && Matches(urls[r.value], f)
    ensures r.Some? ==> forall j :: 0 <= j < r.value ==> !Matches(urls[j], f)
  {
    if urls == [] then None
    else if Matches(urls[0], f) then Some(0)
    else match FindOne(urls[1..], f)
      case None => None
      case Some(i) => Some(i + 1)
  }

  /** find: every matching record, in natural order. */
  function FindAll(urls: seq<UrlRecord>, f: Filter): (r: seq<UrlRecord>)
    ensures |r| <= |urls|
    ensures forall x :: x in r <==> x in urls && Matches(x, f)
  {
    if urls == [] then []
    else (if Matches(urls[0], f) then [urls[0]] else []) + FindAll(urls[1..], f)
  }

  /** find keeps each matching record once per occurrence in the collection, and no other record. */
  lemma {:induction false} FindAllCount(urls: seq<UrlRecord>, f: Filter)
    ensures forall x :: multiset(FindAll(urls, f))[x] == if Matches(x, f) then multiset(urls)[x] else 0
  {
    if urls != [] {
      assert urls == [urls[0]] + urls[1..];
      FindAllCount(urls[1..], f);
    }
  }

  /** Under the unique index on shortCode, a code lookup finds the one record that carries it. */
  lemma FindByCodeUnique(urls: seq<UrlRecord>, i: nat)
    requires UniqueKeys(urls) && i < |urls|
    ensures FindOne(urls, ByCode(urls[i].shortCode)) == Some(i)
  {
    var r := FindOne(urls, ByCode(urls[i].shortCode));
    assert r.Some?;
  }

  /** The index owner-filtered lookups find is the code lookup's index, and only when the owner matches. */
  lemma FindOwnedIsFindByCode(urls: seq<UrlRecord>, code: string, owner: UserId)
    requires UniqueKeys(urls)
    ensures FindOne(urls, ByOwnedCode(code, owner)).Some?
      <==> FindOne(urls, ByCode(code)).Some? && urls[FindOne(urls, ByCode(code)).value].createdBy == owner
    ensures FindOne(urls, ByOwnedCode(code, owner)).Some?
      ==> FindOne(urls, ByOwnedCode(code, owner)) == FindOne(urls, ByCode(code))
  {
    var a, b := FindOne(urls, ByOwnedCode(code, owner)), FindOne(urls, ByCode(code));
    if a.Some? {
      FindByCodeUnique(urls, a.value);
    }
    if b.Some? && urls[b.value].createdBy == owner {
      assert Matches(urls[b.value], ByOwnedCode(code, owner));
    }
  }
}
