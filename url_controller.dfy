/**
 * The short-link request handlers over an in-memory model of the two
 * collections. Each handler is one atomic step: it reads and writes the
 * store, and returns the response it would send (or the error it would
 * pass on to the error-handling middleware).
 */
module UrlController {
  import opened Wrappers
  import opened GenerateUrl
  import opened UrlModel
  import opened ClickModel

  /** Create derives its seed from the clock modulo this... */
  const SEED_MODULUS: nat := 10000
  /** ...and asks for codes of this length. */
  const CODE_LENGTH: nat := 5

  /** The errors a handler passes on. */
  datatype ApiError =
    | Unauthorized      // no authenticated user on the request
    | InvalidUrl        // "Invalid URL format or unreachable URL"
    | NotFound          // no record with that code (for owner-scoped handlers: none the caller owns)
    | ShortCodeExists   // "Short code already exists. Try again.": the insert hit a unique index
    | ValidationFailed  // the schema rejected the new document

  /** A record as the list returns it: everything but createdBy. */
  datatype UrlView = UrlView(
    shortCode: string,
    originalUrl: string,
    shortUrl: string,
    clicks: int,
    createdAt: int,
    updatedAt: int)

  datatype Response =
    | Created(longUrl: string, shortUrl: string)
    | AlreadyExists(longUrl: string, shortUrl: string)
    | UrlList(urls: seq<UrlView>)
    | Deleted
    | UrlData(url: UrlRecord)
    | ClickLogs(logs: seq<ClickLog>, clicks: int)
    | Redirect(location: string)
    | Failure(error: ApiError)

  /** The status each outcome is sent with; None where the handler leaves it to the error middleware. */
  function HttpStatus(r: Response): (status: Option<int>)
    ensures status == Some(201) <==> r.Created?
    ensures status == Some(302) <==> r.Redirect?
    ensures status == Some(200) <==> r.AlreadyExists? || r.UrlList? || r.Deleted? || r.UrlData? || r.ClickLogs?
    ensures status == Some(401) <==> r == Failure(Unauthorized)
    ensures status == Some(400) <==> r == Failure(InvalidUrl)
    ensures status == Some(404) <==> r == Failure(NotFound)
    ensures status.None? <==> r == Failure(ShortCodeExists) || r == Failure(ValidationFailed)
  {
    match r
    case Created(_, _) => Some(201)
    case Redirect(_) => Some(302)
    case Failure(e) =>
      (match e
       case Unauthorized => Some(401)
       case InvalidUrl => Some(400)
       case NotFound => Some(404)
       case ShortCodeExists => None
       case ValidationFailed => None)
    case _ => Some(200)
  }

  /** The projection .select('-__v -createdBy'): every stored field but the owner. */
  function View(r: UrlRecord): (v: UrlView)
    ensures v.shortCode == r.shortCode && v.originalUrl == r.originalUrl && v.shortUrl == r.shortUrl
    ensures v.clicks == r.clicks && v.createdAt == r.createdAt && v.updatedAt == r.updatedAt
  {
    UrlView(r.shortCode, r.originalUrl, r.shortUrl, r.clicks, r.createdAt, r.updatedAt)
  }

  /** The owner leaves no trace in a view: records differing only in createdBy look the same. */
  lemma ViewHidesOwner(r: UrlRecord, owner: UserId)
    ensures View(r.(createdBy := owner)) == View(r)
  {
  }

  function Views(rs: seq<UrlRecord>): (vs: seq<UrlView>)
    ensures |vs| == |rs| && forall k :: 0 <= k < |rs| ==> vs[k] == View(rs[k])
  {
    seq(|rs|, k requires 0 <= k < |rs| => View(rs[k]))
  }

  // ---------------------------------------------------------------------------
  // URL validation

  /** isValidUrlScheme: the URL starts with "http://" or "https://". */
  function IsValidUrlScheme(url: string): (r: bool)
    ensures r <==> "http://" <= url || "https://" <= url
  {
    MatchesHttpSchemePrefix(url);
    MatchesHttpScheme(url)
  }

  /** The URL validateUrl sends its HEAD request to: the URL itself, or with "https://" in front when it has no scheme. */
  function FetchTarget(url: string): (target: string)
    ensures IsValidUrlScheme(target)
    ensures IsValidUrlScheme(url) ==> target == url
    ensures !IsValidUrlScheme(url) ==> target == "https://" + url
  {
    if IsValidUrlScheme(url) then url else "https://" + url
  }

  /**
   * validateUrl: whether a HEAD request to FetchTarget(url) answers 2xx.
   * `reachable` stands for the network; a failed request is a false answer.
   * The caller keeps using `url` itself, not the target.
   */
  function ValidateUrl(url: string, reachable: string -> bool): (ok: bool)
    ensures IsValidUrlScheme(url) ==> (ok <==> reachable(url))
    ensures !IsValidUrlScheme(url) ==> (ok <==> reachable("https://" + url))
  {
    reachable(FetchTarget(url))
  }

  /** A URL without a scheme passes validation whenever its https:// form is reachable, yet fails the schema. */
  lemma SchemelessUrlPassesValidation(url: string, reachable: string -> bool)
    requires !IsValidUrlScheme(url) && reachable("https://" + url)
    ensures ValidateUrl(url, reachable)
    ensures !MatchesHttpScheme(url)
  {
    MatchesHttpSchemePrefix(url);
  }

  // ---------------------------------------------------------------------------
  // Code and short URL of a new link

  /**
   * The code create mints: generateBase62Hash(Date.now() % 10000, 5), signed
   * with the key HMAC_SECRET_KEY configures (`secretEnv`) or its default.
   */
  function ShortCodeFor(hmac: Hmac, secretEnv: Option<string>, now: nat): (code: string)
    ensures |code| <= |hmac(Base62(now % SEED_MODULUS), SecretKey(secretEnv))|
    ensures forall i :: 0 <= i < |code| ==> code[i] in hmac(Base62(now % SEED_MODULUS), SecretKey(secretEnv))
  {
    GenerateBase62Hash(hmac, SecretKey(secretEnv), now % SEED_MODULUS, CODE_LENGTH)
  }

  /** protocol + '://' + host + '/' + code. */
  function ShortUrlFor(protocol: string, host: string, code: string): (shortUrl: string)
    ensures |shortUrl| == |protocol| + 3 + |host| + 1 + |code|
    ensures shortUrl[|shortUrl| - |code|..] == code
  {
    protocol + "://" + host + "/" + code
  }

  /** With a full digest the minted code is digest characters 7 to 11, within the schema's 4 to 10. */
  lemma MintedCodeFitsSchema(hmac: Hmac, secretEnv: Option<string>, now: nat)
    requires |hmac(Base62(now % SEED_MODULUS), SecretKey(secretEnv))| == DIGEST_HEX_LENGTH
    ensures ShortCodeFor(hmac, secretEnv, now) == hmac(Base62(now % SEED_MODULUS), SecretKey(secretEnv))[7..12]
    ensures ShortCodeValid(ShortCodeFor(hmac, secretEnv, now))
  {
    GeneratedCodeAtFive(hmac, SecretKey(secretEnv), now % SEED_MODULUS);
  }

  /** Requests arrive over http or https, so the short URL passes the schema's pattern. */
  lemma ShortUrlHasScheme(protocol: string, host: string, code: string)
    requires protocol == "http" || protocol == "https"
    ensures MatchesHttpScheme(ShortUrlFor(protocol, host, code))
  {
    var u := ShortUrlFor(protocol, host, code);
    assert u == protocol + ("://" + host + "/" + code);
    if protocol == "http" {
      assert u[..7] == "http://";
    } else {
      assert u[..8] == "https://";
    }
    MatchesHttpSchemePrefix(u);
  }

  // ---------------------------------------------------------------------------
  // The store and how the handlers change it

  /**
   * What holds of the two collections between requests: the URL records
   * keep their indexes and field bounds, every click log names a code, and
   * no record has counted more clicks than there are logs for its code.
   * (There can be more logs than clicks: deleting a record keeps its logs,
   * and a later record may receive the same code.)
   */
  predicate StoreInvariant(urls: seq<UrlRecord>, logs: seq<ClickLog>)
  {
    CollectionValid(urls)
    && (forall j :: 0 <= j < |logs| ==> ClickLogValid(logs[j]))
    && (forall i :: 0 <= i < |urls| ==> urls[i].clicks <= |LogsFor(logs, urls[i].shortCode)|)
  }

  /** findOneAndDelete: the record at i goes, the others keep their order. */
  function RemoveAt(urls: seq<UrlRecord>, i: nat): (r: seq<UrlRecord>)
    requires i < |urls|
    ensures |r| == |urls| - 1
    ensures forall k :: 0 <= k < i ==> r[k] == urls[k]
    ensures forall k :: i <= k < |r| ==> r[k] == urls[k + 1]
  {
    urls[..i] + urls[i + 1..]
  }

  /** findOneAndUpdate with { originalUrl }: only that field and the update time change, and only at i. */
  function WithOriginalUrl(urls: seq<UrlRecord>, i: nat, url: string, now: int): (r: seq<UrlRecord>)
    requires i < |urls|
    ensures |r| == |urls| && forall k :: 0 <= k < |urls| && k != i ==> r[k] == urls[k]
    ensures r[i].originalUrl == url && r[i].updatedAt == now
    ensures r[i] == urls[i].(originalUrl := url, updatedAt := now)
  {
    urls[i := urls[i].(originalUrl := url, updatedAt := now)]
  }

  /** findOneAndUpdate with { $inc: { clicks: 1 } }: one more click at i, the update time moves, nothing else changes. */
  function WithClick(urls: seq<UrlRecord>, i: nat, now: int): (r: seq<UrlRecord>)
    requires i < |urls|
    ensures |r| == |urls| && forall k :: 0 <= k < |urls| && k != i ==> r[k] == urls[k]
    ensures r[i].clicks == urls[i].clicks + 1
    ensures r[i] == urls[i].(clicks := urls[i].clicks + 1, updatedAt := now)
  {
    urls[i := urls[i].(clicks := urls[i].clicks + 1, updatedAt := now)]
  }

  /** Inserting a schema-valid record that clashes with no key keeps the invariant. */
  lemma InsertKeepsInvariant(urls: seq<UrlRecord>, logs: seq<ClickLog>, rec: UrlRecord)
    requires StoreInvariant(urls, logs)
    requires SchemaValid(rec) && rec.clicks == 0
    requires FindOne(urls, ByCode(rec.shortCode)).None? && FindOne(urls, ByShortUrl(rec.shortUrl)).None?
    ensures StoreInvariant(urls + [rec], logs)
  {
    var r := urls + [rec];
    forall k | 0 <= k < |urls|
      ensures urls[k].shortCode != rec.shortCode && urls[k].shortUrl != rec.shortUrl
    {
      assert !Matches(urls[k], ByCode(rec.shortCode)) && !Matches(urls[k], ByShortUrl(rec.shortUrl));
    }
    assert forall k :: 0 <= k < |urls| ==> r[k] == urls[k];
    assert r[|urls|] == rec;
    assert UniqueKeys(r) by {
      forall a, b | 0 <= a < |r| && 0 <= b < |r| && r[a].shortCode == r[b].shortCode
        ensures a == b
      {
        if a < |urls| && b < |urls| {
          assert urls[a].shortCode == urls[b].shortCode;
        }
      }
      forall a, b | 0 <= a < |r| && 0 <= b < |r| && r[a].shortUrl == r[b].shortUrl
        ensures a == b
      {
        if a < |urls| && b < |urls| {
          assert urls[a].shortUrl == urls[b].shortUrl;
        }
      }
    }
    assert forall k :: 0 <= k < |r| ==> StoredRecordValid(r[k]) && r[k].clicks <= |LogsFor(logs, r[k].shortCode)|;
  }

  /** Removing a record keeps the invariant, and afterwards no record carries its code. */
  lemma RemoveKeepsInvariant(urls: seq<UrlRecord>, logs: seq<ClickLog>, i: nat)
    requires StoreInvariant(urls, logs) && i < |urls|
    ensures StoreInvariant(RemoveAt(urls, i), logs)
    ensures FindOne(RemoveAt(urls, i), ByCode(urls[i].shortCode)).None?
  {
    var r := RemoveAt(urls, i);
    forall a, b | 0 <= a < |r| && 0 <= b < |r| && r[a].shortCode == r[b].shortCode
      ensures a == b
    {
      var a', b' := if a < i then a else a + 1, if b < i then b else b + 1;
      assert r[a] == urls[a'] && r[b] == urls[b'];
    }
    forall a, b | 0 <= a < |r| && 0 <= b < |r| && r[a].shortUrl == r[b].shortUrl
      ensures a == b
    {
      var a', b' := if a < i then a else a + 1, if b < i then b else b + 1;
      assert r[a] == urls[a'] && r[b] == urls[b'];
    }
    forall a | 0 <= a < |r|
      ensures StoredRecordValid(r[a]) && r[a].clicks <= |LogsFor(logs, r[a].shortCode)|
      ensures r[a].shortCode != urls[i].shortCode
    {
      var a' := if a < i then a else a + 1;
      assert r[a] == urls[a'] && a' != i;
    }
  }

  /** Changing a record's original URL keeps the invariant: no key, bound or counter moves. */
  lemma UpdateKeepsInvariant(urls: seq<UrlRecord>, logs: seq<ClickLog>, i: nat, url: string, now: int)
    requires StoreInvariant(urls, logs) && i < |urls|
    ensures StoreInvariant(WithOriginalUrl(urls, i, url, now), logs)
  {
    var r := WithOriginalUrl(urls, i, url, now);
    assert forall k :: 0 <= k < |r| ==> r[k].shortCode == urls[k].shortCode && r[k].shortUrl == urls[k].shortUrl;
    assert forall k :: 0 <= k < |r| ==> r[k].clicks == urls[k].clicks;
  }

  /** A visit (log appended, counter incremented together) keeps the invariant. */
  lemma ClickKeepsInvariant(urls: seq<UrlRecord>, logs: seq<ClickLog>, i: nat, log: ClickLog, now: int)
    requires StoreInvariant(urls, logs) && i < |urls| && log.shortCode == urls[i].shortCode
    ensures StoreInvariant(WithClick(urls, i, now), logs + [log])
  {
    var r, logs' := WithClick(urls, i, now), logs + [log];
    assert forall k :: 0 <= k < |r| ==> r[k].shortCode == urls[k].shortCode && r[k].shortUrl == urls[k].shortUrl;
    forall k | 0 <= k < |r|
      ensures r[k].clicks <= |LogsFor(logs', r[k].shortCode)|
    {
      LogsForAppend(logs, log, urls[k].shortCode);
    }
    forall j | 0 <= j < |logs'| ensures ClickLogValid(logs'[j]) {
      if j < |logs| {
        assert logs'[j] == logs[j];
      }
    }
  }

  /**
   * findOneAndUpdate is called without runValidators, so the schema's
   * validators do not run on update (validateUrl does): an owner can replace a record's original URL
   * with a scheme-less one that merely answers over https, and the invariant
   * still holds although the record no longer passes the schema.
   */
  lemma UpdateMayStoreSchemelessUrl(urls: seq<UrlRecord>, logs: seq<ClickLog>, i: nat, now: int)
    requires StoreInvariant(urls, logs) && i < |urls|
    ensures var url := "example.com";
      ValidateUrl(url, u => true)
      && StoreInvariant(WithOriginalUrl(urls, i, url, now), logs)
      && !SchemaValid(WithOriginalUrl(urls, i, url, now)[i])
  {
    var url := "example.com";
    SchemelessUrlPassesValidation(url, u => true);
    UpdateKeepsInvariant(urls, logs, i, url, now);
  }

  /** No index on originalUrl: a store may hold two records for one original URL. */
  lemma OriginalUrlNotUnique()
    ensures exists urls: seq<UrlRecord> ::
      StoreInvariant(urls, []) && |urls| == 2 && urls[0].originalUrl == urls[1].originalUrl
  {
    var a := NewUrlRecord("abcde", "https://example.com", "https://s.io/abcde", "u1", 0);
    var b := NewUrlRecord("fghij", "https://example.com", "https://s.io/fghij", "u2", 0);
    var urls := [a, b];
    assert MatchesHttpScheme(a.shortUrl) && MatchesHttpScheme(b.shortUrl);
    assert a.shortCode != b.shortCode && a.shortUrl != b.shortUrl;
    assert StoreInvariant(urls, []);
  }

  // ---------------------------------------------------------------------------
  // The handlers

  class UrlStore {
    /** The Urls collection, in natural order. */
    var urls: seq<UrlRecord>
    /** The ClickLogs collection, in insertion order. */
    var clickLogs: seq<ClickLog>

    ghost predicate Valid()
      reads this
    {
      StoreInvariant(urls, clickLogs)
    }

    constructor ()
      ensures Valid() && urls == [] && clickLogs == []
    {
      urls := [];
      clickLogs := [];
    }

    /** checkOriginalUrlExistance: the first record, from any owner, whose original URL is longUrl. */
    function CheckOriginalUrlExistance(longUrl: string): (existing: Option<UrlRecord>)
      reads this
      ensures existing.None? <==> forall i :: 0 <= i < |urls| ==> urls[i].originalUrl != longUrl
      ensures existing.Some? ==> existing.value in urls && existing.value.originalUrl == longUrl
    {
      match FindOne(urls, ByOriginalUrl(longUrl))
      case None => None
      case Some(i) => Some(urls[i])
    }

    /**
     * saveUrlToDB: UrlModel.create validates the document first, then the
     * unique indexes reject a code or short URL already present (error
     * 11000, reported as "Short code already exists"); nothing is retried.
     */
    method SaveUrlToDb(longUrl: string, shortCode: string, shortUrl: string, owner: UserId, now: int)
      returns (err: Option<ApiError>)
      requires Valid()
      modifies this
      ensures Valid() && clickLogs == old(clickLogs)
      ensures var rec := NewUrlRecord(shortCode, longUrl, shortUrl, owner, now);
        if !SchemaValid(rec) then err == Some(ValidationFailed) && urls == old(urls)
        else if FindOne(old(urls), ByCode(shortCode)).Some? || FindOne(old(urls), ByShortUrl(shortUrl)).Some?
        then err == Some(ShortCodeExists) && urls == old(urls)
        else err == None && urls == old(urls) + [rec]
    {
      var rec := NewUrlRecord(shortCode, longUrl, shortUrl, owner, now);
      if !SchemaValid(rec) {
        return Some(ValidationFailed);
      }
      if FindOne(urls, ByCode(shortCode)).Some? || FindOne(urls, ByShortUrl(shortUrl)).Some? {
        return Some(ShortCodeExists);
      }
      InsertKeepsInvariant(urls, clickLogs, rec);
      urls := urls + [rec];
      return None;
    }

    /**
     * createShortUrl. `now` is the clock (seed and timestamps), `reachable`
     * the network, `hmac` and `secretEnv` the signing, `protocol` and `host` the
     * request's origin.
     */
    method CreateShortUrl(user: Option<UserId>, longUrl: string, reachable: string -> bool,
                          hmac: Hmac, secretEnv: Option<string>, now: nat, protocol: string, host: string)
      returns (r: Response)
      requires Valid()
      modifies this
      ensures Valid() && clickLogs == old(clickLogs)
      ensures user.None? ==> r == Failure(Unauthorized) && urls == old(urls)
      ensures user.Some? && !ValidateUrl(longUrl, reachable) ==> r == Failure(InvalidUrl) && urls == old(urls)
      ensures user.Some? && ValidateUrl(longUrl, reachable) && old(CheckOriginalUrlExistance(longUrl)).Some? ==>
        r == AlreadyExists(longUrl, old(CheckOriginalUrlExistance(longUrl)).value.shortUrl) && urls == old(urls)
      ensures user.Some? && ValidateUrl(longUrl, reachable) && old(CheckOriginalUrlExistance(longUrl)).None? ==>
        var code := ShortCodeFor(hmac, secretEnv, now);
        var rec := NewUrlRecord(code, longUrl, ShortUrlFor(protocol, host, code), user.value, now);
        if !SchemaValid(rec) then r == Failure(ValidationFailed) && urls == old(urls)
        else if FindOne(old(urls), ByCode(rec.shortCode)).Some? || FindOne(old(urls), ByShortUrl(rec.shortUrl)).Some?
        then r == Failure(ShortCodeExists) && urls == old(urls)
        else r == Created(longUrl, rec.shortUrl) && urls == old(urls) + [rec]
      ensures HttpStatus(r) in {Some(401), Some(400), Some(200), Some(201), None}
    {
      if user.None? {
        return Failure(Unauthorized);
      }
      var isValid := ValidateUrl(longUrl, reachable);
      if !isValid {
        return Failure(InvalidUrl);
      }
      var existing := CheckOriginalUrlExistance(longUrl);
      if existing.Some? {
        return AlreadyExists(longUrl, existing.value.shortUrl);
      }
      var shortUrlCode := ShortCodeFor(hmac, secretEnv, now);
      var shortUrl := ShortUrlFor(protocol, host, shortUrlCode);
      var err := SaveUrlToDb(longUrl, shortUrlCode, shortUrl, user.value, now);
      if err.Some? {
        return Failure(err.value);
      }
      return Created(longUrl, shortUrl);
    }

    /** getUserUrls: exactly the caller's records, in natural order, without createdBy. */
    method GetUserUrls(user: Option<UserId>) returns (r: Response)
      ensures user.None? ==> r == Failure(Unauthorized)
      ensures user.Some? ==> r.UrlList? && r.urls == Views(FindAll(urls, ByOwner(user.value)))
      ensures user.Some? ==> forall v :: v in r.urls <==> exists x :: x in urls && x.createdBy == user.value && v == View(x)
      ensures user.Some? ==> forall x :: multiset(FindAll(urls, ByOwner(user.value)))[x] == if x.createdBy == user.value then multiset(urls)[x] else 0
      ensures HttpStatus(r) in {Some(401), Some(200)}
    {
      if user.None? {
        return Failure(Unauthorized);
      }
      var own := FindAll(urls, ByOwner(user.value));
      FindAllCount(urls, ByOwner(user.value));
      r := UrlList(Views(own));
      forall v ensures v in r.urls <==> exists x :: x in urls && x.createdBy == user.value && v == View(x) {
        if v in r.urls {
          var k :| 0 <= k < |own| && r.urls[k] == v;
          assert own[k] in own;
        }
        if exists x :: x in urls && x.createdBy == user.value && v == View(x) {
          var x :| x in urls && x.createdBy == user.value && v == View(x);
          assert Matches(x, ByOwner(user.value));
          var k :| 0 <= k < |own| && own[k] == x;
          assert r.urls[k] == v;
        }
      }
    }

    /** deleteShortUrl: removes the caller's record with that code; the click logs stay. */
    method DeleteShortUrl(user: Option<UserId>, code: string) returns (r: Response)
      requires Valid()
      modifies this
      ensures Valid() && clickLogs == old(clickLogs)
      ensures user.None? ==> r == Failure(Unauthorized) && urls == old(urls)
      ensures user.Some? ==>
        match FindOne(old(urls), ByOwnedCode(code, user.value))
        case None => r == Failure(NotFound) && urls == old(urls)
        case Some(i) => r == Deleted && urls == RemoveAt(old(urls), i)
      ensures r == Deleted ==> FindOne(urls, ByCode(code)).None?
      ensures HttpStatus(r) in {Some(401), Some(404), Some(200)}
    {
      if user.None? {
        return Failure(Unauthorized);
      }
      match FindOne(urls, ByOwnedCode(code, user.value))
      case None =>
        return Failure(NotFound);
      case Some(i) =>
        RemoveKeepsInvariant(urls, clickLogs, i);
        urls := RemoveAt(urls, i);
        return Deleted;
    }

    /** updateUrlData: after validation, sets the original URL of the caller's record with that code. */
    method UpdateUrlData(user: Option<UserId>, code: string, newLongUrl: string, reachable: string -> bool, now: int)
      returns (r: Response)
      requires Valid()
      modifies this
      ensures Valid() && clickLogs == old(clickLogs)
      ensures user.None? ==> r == Failure(Unauthorized) && urls == old(urls)
      ensures user.Some? && !ValidateUrl(newLongUrl, reachable) ==> r == Failure(InvalidUrl) && urls == old(urls)
      ensures user.Some? && ValidateUrl(newLongUrl, reachable) ==>
        match FindOne(old(urls), ByOwnedCode(code, user.value))
        case None => r == Failure(NotFound) && urls == old(urls)
        case Some(i) => urls == WithOriginalUrl(old(urls), i, newLongUrl, now) && r == UrlData(urls[i])
      ensures HttpStatus(r) in {Some(401), Some(400), Some(404), Some(200)}
    {
      if user.None? {
        return Failure(Unauthorized);
      }
      var isValid := ValidateUrl(newLongUrl, reachable);
      if !isValid {
        return Failure(InvalidUrl);
      }
      match FindOne(urls, ByOwnedCode(code, user.value))
      case None =>
        return Failure(NotFound);
      case Some(i) =>
        UpdateKeepsInvariant(urls, clickLogs, i, newLongUrl, now);
        urls := WithOriginalUrl(urls, i, newLongUrl, now);
        return UrlData(urls[i]);
    }

    /** getDataByShortCode: the record with that code, whoever owns it. */
    method GetDataByShortCode(code: string) returns (r: Response)
      ensures r == Failure(NotFound) <==> forall i :: 0 <= i < |urls| ==> urls[i].shortCode != code
      ensures r.UrlData? ==> r.url in urls && r.url.shortCode == code
      ensures r.UrlData? || r == Failure(NotFound)
      ensures HttpStatus(r) in {Some(404), Some(200)}
    {
      match FindOne(urls, ByCode(code))
      case None =>
        return Failure(NotFound);
      case Some(i) =>
        return UrlData(urls[i]);
    }

    /** getClickLogsByShortCode: the logs of a code the caller owns, with its counter. */
    method GetClickLogsByShortCode(user: Option<UserId>, code: string) returns (r: Response)
      requires Valid()
      ensures user.None? ==> r == Failure(Unauthorized)
      ensures user.Some? ==>
        match FindOne(urls, ByOwnedCode(code, user.value))
        case None => r == Failure(NotFound)
        case Some(i) => r == ClickLogs(LogsFor(clickLogs, code), urls[i].clicks)
      ensures r.ClickLogs? ==> r.clicks <= |r.logs| && forall l :: l in r.logs <==> l in clickLogs && l.shortCode == code
      ensures r.ClickLogs? ==> forall l :: multiset(r.logs)[l] == if l.shortCode == code then multiset(clickLogs)[l] else 0
      ensures HttpStatus(r) in {Some(401), Some(404), Some(200)}
    {
      if user.None? {
        return Failure(Unauthorized);
      }
      match FindOne(urls, ByOwnedCode(code, user.value))
      case None =>
        return Failure(NotFound);
      case Some(i) =>
        LogsForCount(clickLogs, code);
        return ClickLogs(LogsFor(clickLogs, code), urls[i].clicks);
    }

    /**
     * redirectToOriginalUrl: for a known code, log the visit, count it and
     * redirect to the original URL read before the count.
     */
    method RedirectToOriginalUrl(code: string, userAgent: Option<string>, ipAddress: Option<string>, now: int)
      returns (r: Response)
      requires Valid()
      modifies this
      ensures Valid()
      ensures match FindOne(old(urls), ByCode(code))
        case None => r == Failure(NotFound) && urls == old(urls) && clickLogs == old(clickLogs)
        case Some(i) =>
          && r == Redirect(old(urls)[i].originalUrl)
          && clickLogs == old(clickLogs) + [NewClickLog(code, userAgent, ipAddress, now)]
          && urls == WithClick(old(urls), i, now)
      ensures HttpStatus(r) in {Some(404), Some(302)}
    {
      match FindOne(urls, ByCode(code))
      case None =>
        return Failure(NotFound);
      case Some(i) =>
        var data := urls[i];
        var log := NewClickLog(code, userAgent, ipAddress, now);
        ClickKeepsInvariant(urls, clickLogs, i, log, now);
        clickLogs := clickLogs + [log];
        urls := WithClick(urls, i, now);
        return Redirect(data.originalUrl);
    }
  }

  // ---------------------------------------------------------------------------
  // Request sequences

  /**
   * Visit a stored link, then read its logs as its owner: the visit leads to
   * the original URL, and the owner sees exactly one more click and one more
   * log for the code.
   */
  method VisitAndReadLogs(store: UrlStore, owner: UserId, code: string, userAgent: Option<string>,
                          ipAddress: Option<string>, now: int)
    returns (visited: Response, logs: Response)
    requires store.Valid()
    requires FindOne(store.urls, ByCode(code)).Some?
    requires store.urls[FindOne(store.urls, ByCode(code)).value].createdBy == owner
    modifies store
    ensures store.Valid()
    ensures var i := FindOne(old(store.urls), ByCode(code)).value;
      && visited == Redirect(old(store.urls)[i].originalUrl)
      && logs.ClickLogs? && logs.clicks == old(store.urls)[i].clicks + 1
      && |logs.logs| == |LogsFor(old(store.clickLogs), code)| + 1
  {
    ghost var i := FindOne(store.urls, ByCode(code)).value;
    ghost var logsBefore := store.clickLogs;
    visited := store.RedirectToOriginalUrl(code, userAgent, ipAddress, now);
    assert store.urls[i].shortCode == code && store.urls[i].createdBy == owner;
    FindByCodeUnique(store.urls, i);
    FindOwnedIsFindByCode(store.urls, code, owner);
    LogsForAppend(logsBefore, NewClickLog(code, userAgent, ipAddress, now), code);
    logs := store.GetClickLogsByShortCode(Some(owner), code);
  }

  /**
   * Create, then visit the new link, then read its logs as the owner: the
   * visit leads to the long URL, and the owner sees one click and one more
   * log for the code.
   */
  method CreateVisitAndReadLogs(store: UrlStore, user: UserId, longUrl: string, reachable: string -> bool,
                                hmac: Hmac, secretEnv: Option<string>, now: nat, protocol: string, host: string,
                                userAgent: Option<string>, ipAddress: Option<string>)
    returns (created: Response, visited: Response, logs: Response)
    requires store.Valid()
    modifies store
    ensures store.Valid()
    ensures created.Created? ==>
      var code := ShortCodeFor(hmac, secretEnv, now);
      && ShortCodeValid(code)
      && created.shortUrl == ShortUrlFor(protocol, host, code)
      && visited == Redirect(longUrl)
      && logs.ClickLogs? && logs.clicks == 1
      && |logs.logs| == |LogsFor(old(store.clickLogs), code)| + 1
  {
    created := store.CreateShortUrl(Some(user), longUrl, reachable, hmac, secretEnv, now, protocol, host);
    var code := ShortCodeFor(hmac, secretEnv, now);
    if created.Created? {
      var n := |store.urls| - 1;
      assert store.urls[n].shortCode == code && store.urls[n].createdBy == user;
      FindByCodeUnique(store.urls, n);
      visited, logs := VisitAndReadLogs(store, user, code, userAgent, ipAddress, now);
    } else {
      visited := store.RedirectToOriginalUrl(code, userAgent, ipAddress, now);
      logs := store.GetClickLogsByShortCode(Some(user), code);
    }
  }

  /** Once the owner deletes a link, visiting its code finds nothing and logs no click. */
  method DeleteThenVisit(store: UrlStore, user: UserId, code: string, userAgent: Option<string>,
                         ipAddress: Option<string>, now: int)
    returns (deleted: Response, visited: Response)
    requires store.Valid()
    modifies store
    ensures store.Valid()
    ensures deleted == Deleted ==> visited == Failure(NotFound) && store.clickLogs == old(store.clickLogs)
  {
    deleted := store.DeleteShortUrl(Some(user), code);
    visited := store.RedirectToOriginalUrl(code, userAgent, ipAddress, now);
  }

  /** Creating the same long URL twice returns the first short URL and adds no second record. */
  method CreateTwice(store: UrlStore, user: UserId, other: UserId, longUrl: string, reachable: string -> bool,
                     hmac: Hmac, secretEnv: Option<string>, now: nat, later: nat, protocol: string, host: string)
    returns (first: Response, second: Response)
    requires store.Valid()
    modifies store
    ensures store.Valid()
    ensures first.Created? ==> second == AlreadyExists(longUrl, first.shortUrl) && |store.urls| == |old(store.urls)| + 1
  {
    first := store.CreateShortUrl(Some(user), longUrl, reachable, hmac, secretEnv, now, protocol, host);
    ghost var between := store.urls;
    second := store.CreateShortUrl(Some(other), longUrl, reachable, hmac, secretEnv, later, protocol, host);
    if first.Created? {
      var n := |between| - 1;
      assert between[n].originalUrl == longUrl;
      var found := FindOne(between, ByOriginalUrl(longUrl));
      assert Matches(between[n], ByOriginalUrl(longUrl));
      assert found.Some? && found.value == n;
    }
  }
}
