/** The change-aware document store of parser/database.go. The MongoDB
    collection, with its unique index on `url`, is a map from URL to
    document; the clock reading `time.Now().Unix()` is passed in as `now`,
    and the MD5 hex digest is a function value the store is built with. */
module Documents {
  import opened Base

  /* ---------------------------------------------------------------------- */
  /* NormalizeURL                                                            */

  /** The parts of a parsed `net/url.URL` that normalisation touches or
      keeps. */
  datatype Url = Url(scheme: seq<byte>, host: seq<byte>, path: seq<byte>, rawQuery: seq<byte>, fragment: seq<byte>)

  const HTTPS: seq<byte> := Ascii("https")
  const SLASH: byte := 47

  /** `NormalizeURL` after a successful `url.Parse` (a parse failure is
      `None` and is returned as the error): the fragment is dropped, the
      scheme forced to `https`, an empty host replaced by the new scheme's
      text, and one trailing slash cut from a path longer than one byte. */
  function NormalizeURL(parsed: Option<Url>): (r: Option<Url>)
    ensures r.None? <==> parsed.None?
    ensures r.Some? ==>
      var u, n := parsed.value, r.value;
      && n.fragment == [] && n.scheme == HTTPS
      && n.host == (if u.host == [] then HTTPS else u.host)
      && n.rawQuery == u.rawQuery
      && (n.path == u.path || n.path + [SLASH] == u.path)
      && (n.path != u.path <==> |u.path| > 1 && u.path[|u.path| - 1] == SLASH)
  {
    if parsed.None? then None
    else
      var u := parsed.value.(fragment := []);
      var u := u.(scheme := HTTPS);
      var u := if u.host == [] then u.(host := u.scheme) else u;
      var u := if |u.path| > 1 && u.path[|u.path| - 1] == SLASH then u.(path := u.path[..|u.path| - 1]) else u;
      assert u.path + [SLASH] == parsed.value.path || u.path == parsed.value.path;
      Some(u)
  }

  /** Normalising a normalised URL changes it again exactly when the
      original path ended in two slashes after at least one more byte: only
      one slash is cut each time. */
  lemma NormalizeTwice(u: Url)
    ensures var once := NormalizeURL(Some(u)).value;
      NormalizeURL(Some(once)) != Some(once) <==>
        |u.path| > 2 && u.path[|u.path| - 1] == SLASH && u.path[|u.path| - 2] == SLASH
  {
    var once := NormalizeURL(Some(u)).value;
    var twice := NormalizeURL(Some(once)).value;
    if |u.path| > 2 && u.path[|u.path| - 1] == SLASH && u.path[|u.path| - 2] == SLASH {
      assert |twice.path| < |once.path|;
    }
  }

  /** A concrete case: `https://h/a//` normalises to `https://h/a/`, which
      normalises further to `https://h/a`. */
  lemma NormalizeNotIdempotent()
    ensures var u := Url(HTTPS, Ascii("h"), Ascii("/a//"), [], []);
      NormalizeURL(NormalizeURL(Some(u))) != NormalizeURL(Some(u))
  {
    var u := Url(HTTPS, Ascii("h"), Ascii("/a//"), [], []);
    NormalizeTwice(u);
  }

  /* ---------------------------------------------------------------------- */
  /* Documents                                                               */

  /** A stored page; the MongoDB object id is not modelled. */
  datatype Document = Document(
    url: seq<byte>,
    rawHTML: seq<byte>,
    source: seq<byte>,
    crawlTime: int,
    htmlHash: seq<byte>,
    lastChecked: int)

  /** The decision of `HasDocumentChanged` once the stored document has
      been looked up: a page never stored, or an empty new page, counts as
      changed; otherwise the digests are compared. */
  function Changed(stored: Option<Document>, newHTML: seq<byte>, digest: seq<byte> -> seq<byte>): (r: bool)
    ensures stored.None? ==> r
    ensures newHTML == [] ==> r
    ensures stored.Some? && newHTML != [] ==> (r <==> stored.value.htmlHash != digest(newHTML))
  {
    if stored.None? then true
    else if newHTML == [] then true
    else stored.value.htmlHash != digest(newHTML)
  }

  class DocumentStore {
    var docs: map<seq<byte>, Document>
    const digest: seq<byte> -> seq<byte>

    /** Each document is filed under its own URL and carries the digest of
        its HTML. */
    ghost predicate Valid()
      reads this
    {
      forall u :: u in docs ==> docs[u].url == u && docs[u].htmlHash == digest(docs[u].rawHTML)
    }

    constructor (digest: seq<byte> -> seq<byte>)
      ensures Valid() && docs == map[] && this.digest == digest
    {
      docs := map[];
      this.digest := digest;
    }

    /** `SaveDocument`: an upsert on the URL that sets the HTML, the source,
        the digest, and both time stamps to `now`. */
    method SaveDocument(url: seq<byte>, rawHTML: seq<byte>, source: seq<byte>, now: int)
      requires Valid()
      modifies this
      ensures Valid()
      ensures docs == old(docs)[url := Document(url, rawHTML, source, now, digest(rawHTML), now)]
    {
      var htmlHash := digest(rawHTML);
      var crawlTime := now;
      docs := docs[url := Document(url, rawHTML, source, crawlTime, htmlHash, crawlTime)];
    }

    /** `DocumentExists`. */
    method DocumentExists(url: seq<byte>) returns (present: bool)
      ensures present <==> url in docs
    {
      present := url in docs;
    }

    /** `GetDocument`: `None` when no document has that URL. */
    method GetDocument(url: seq<byte>) returns (doc: Option<Document>)
      requires Valid()
      ensures doc.None? <==> url !in docs
      ensures doc.Some? ==> doc.value == docs[url] && doc.value.url == url
    {
      if url in docs {
        doc := Some(docs[url]);
      } else {
        doc := None;
      }
    }

    /** `HasDocumentChanged`. */
    method HasDocumentChanged(url: seq<byte>, newHTML: seq<byte>) returns (changed: bool)
      requires Valid()
      ensures changed == Changed(if url in docs then Some(docs[url]) else None, newHTML, digest)
    {
      var doc := GetDocument(url);
      if doc.None? {
        return true;
      }
      if newHTML == [] {
        return true;
      }
      var newHash := digest(newHTML);
      changed := doc.value.htmlHash != newHash;
    }

    /** `UpdateLastChecked`: a plain update, so an unknown URL creates
        nothing. */
    method UpdateLastChecked(url: seq<byte>, now: int)
      requires Valid()
      modifies this
      ensures Valid()
      ensures url in old(docs) ==> docs == old(docs)[url := old(docs)[url].(lastChecked := now)]
      ensures url !in old(docs) ==> docs == old(docs)
    {
      if url in docs {
        docs := docs[url := docs[url].(lastChecked := now)];
      }
    }

    /** `GetDocumentsForReCrawl`: nothing for a non-positive interval;
        otherwise every document last checked strictly before
        `now - interval`, each once, in no particular order. */
    method GetDocumentsForReCrawl(interval: int, now: int) returns (due: seq<Document>)
      requires Valid()
      ensures interval <= 0 ==> due == []
      ensures interval > 0 ==>
        && (forall d :: d in due <==> d in docs.Values && d.lastChecked < now - interval)
        && (forall i, j :: 0 <= i < j < |due| ==> due[i] != due[j])
    {
      due := [];
      if interval <= 0 {
        return;
      }
      var cutoff := now - interval;
      var left := docs.Keys;
      ghost var seen: set<seq<byte>> := {};
      while left != {}
        invariant left + seen == docs.Keys && left !! seen
        invariant forall d :: d in due <==> exists u :: u in seen && docs[u] == d && d.lastChecked < cutoff
        invariant forall i, j :: 0 <= i < j < |due| ==> due[i] != due[j]
        invariant forall d :: d in due ==> d.url in seen
        decreases left
      {
        var u :| u in left;
        if docs[u].lastChecked < cutoff {
          due := due + [docs[u]];
        }
        left := left - {u};
        seen := seen + {u};
      }
    }

    /** `GetLastProcessedURL`: the URL of a document with the latest crawl
        time, or the empty string when the store is empty. */
    method GetLastProcessedURL() returns (url: seq<byte>)
      requires Valid()
      ensures docs == map[] ==> url == []
      ensures docs != map[] ==> url in docs && forall u :: u in docs ==> docs[u].crawlTime <= docs[url].crawlTime
    {
      if docs == map[] {
        return [];
      }
      var left := docs.Keys;
      url :| url in left;
      left := left - {url};
      while left != {}
        invariant left <= docs.Keys && url in docs
        invariant forall u :: u in docs && u !in left ==> docs[u].crawlTime <= docs[url].crawlTime
        decreases left
      {
        var u :| u in left;
        if docs[u].crawlTime > docs[url].crawlTime {
          url := u;
        }
        left := left - {u};
      }
      url := docs[url].url;
    }
  }

  /** Saving a page and asking at once whether the same non-empty HTML
      changed answers no. */
  lemma SavedIsUnchanged(url: seq<byte>, rawHTML: seq<byte>, source: seq<byte>, now: int,
                         digest: seq<byte> -> seq<byte>)
    requires rawHTML != []
    ensures !Changed(Some(Document(url, rawHTML, source, now, digest(rawHTML), now)), rawHTML, digest)
  {
  }

  /** A page saved with a clock reading later than every stored crawl time
      becomes the last processed URL, and is the only candidate. */
  lemma LatestSaveIsLast(docs: map<seq<byte>, Document>, url: seq<byte>, doc: Document, now: int)
    requires doc.crawlTime == now
    requires forall u :: u in docs ==> docs[u].crawlTime < now
    ensures var d := docs[url := doc];
      forall v :: v in d && (forall u :: u in d ==> d[u].crawlTime <= d[v].crawlTime) ==> v == url
  {
    var d := docs[url := doc];
    forall v | v in d && (forall u :: u in d ==> d[u].crawlTime <= d[v].crawlTime)
      ensures v == url
    {
      assert d[url].crawlTime <= d[v].crawlTime;
    }
  }
}
