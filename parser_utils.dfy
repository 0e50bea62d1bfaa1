/** The helpers of parser/utils.go: file-name sanitising, the back-off
    delay between fetch attempts, the site a URL belongs to, and the check
    that a scraped article is a real one. Go strings are byte sequences. */
module ParserUtils {
  import opened Base
  import opened Downloads

  /* ---------------------------------------------------------------------- */
  /* SanitizeFilename                                                        */

  const MAX_FILENAME: nat := 200

  /** The characters `< > : " / \ | ? *` that file names may not contain. */
  predicate IsReserved(b: byte)
  {
    b == 60 || b == 62 || b == 58 || b == 34 || b == 47 || b == 92 || b == 124 || b == 63 || b == 42
  }

  /** The regular-expression replacement: each reserved byte becomes `_`.
      The reserved characters are ASCII, so replacing them rune by rune and
      byte by byte agree. */
  function ReplaceReserved(name: seq<byte>): (r: seq<byte>)
    ensures |r| == |name|
    ensures forall i :: 0 <= i < |name| ==> r[i] == if IsReserved(name[i]) then UNDERSCORE else name[i]
  {
    if name == [] then []
    else [if IsReserved(name[0]) then UNDERSCORE else name[0]] + ReplaceReserved(name[1..])
  }

  /** `SanitizeFilename`: reserved bytes replaced, then cut to 200 bytes. */
  function SanitizeFilename(name: seq<byte>): (r: seq<byte>)
  {
    var s := ReplaceReserved(name);
    if |s| > MAX_FILENAME then s[..MAX_FILENAME] else s
  }

  /** The result is the first 200 bytes of the name (or all of it), each
      reserved byte replaced by `_` and every other byte kept. */
  lemma SanitizeShape(name: seq<byte>)
    ensures var r := SanitizeFilename(name);
      && |r| == (if |name| > MAX_FILENAME then MAX_FILENAME else |name|)
      && forall i :: 0 <= i < |r| ==> r[i] == if IsReserved(name[i]) then UNDERSCORE else name[i]
  {
  }

  /** No reserved byte survives, and the result fits in 200 bytes. */
  lemma SanitizeClean(name: seq<byte>)
    ensures |SanitizeFilename(name)| <= MAX_FILENAME
    ensures forall i :: 0 <= i < |SanitizeFilename(name)| ==> !IsReserved(SanitizeFilename(name)[i])
  {
    SanitizeShape(name);
  }

  /** A name that is already clean and short enough is left as it is. */
  lemma SanitizeKeepsClean(name: seq<byte>)
    requires |name| <= MAX_FILENAME
    requires forall i :: 0 <= i < |name| ==> !IsReserved(name[i])
    ensures SanitizeFilename(name) == name
  {
    SanitizeShape(name);
  }

  /** Sanitising twice is sanitising once. */
  lemma SanitizeIdempotent(name: seq<byte>)
    ensures SanitizeFilename(SanitizeFilename(name)) == SanitizeFilename(name)
  {
    SanitizeClean(name);
    SanitizeKeepsClean(SanitizeFilename(name));
  }

  /* ---------------------------------------------------------------------- */
  /* SleepWithJitter                                                         */

  /** `time.Duration` counts nanoseconds in an `int64`. */
  const NANOS_PER_MILLI: int := 1_000_000
  const NANOS_PER_SECOND: int := 1_000_000_000
  const MAX_BACKOFF: int := 30 * NANOS_PER_SECOND
  const JITTER_RANGE: nat := 300
  const TWO_63: int := 0x8000_0000_0000_0000
  const TWO_64: int := 0x1_0000_0000_0000_0000

  predicate IsInt64(x: int) { -TWO_63 <= x < TWO_63 }

  /** Two's-complement wrap-around of an `int64` result. */
  function Wrap64(x: int): (r: int)
    ensures IsInt64(r) && (r - x) % TWO_64 == 0
    ensures IsInt64(x) ==> r == x
  {
    (x + TWO_63) % TWO_64 - TWO_63
  }

  function Pow2(n: nat): (r: nat)
    ensures r >= 1
  {
    if n == 0 then 1 else 2 * Pow2(n - 1)
  }

  /** `time.Duration(1 << uint(attempt))`: a negative attempt converts to a
      huge `uint`, and a shift by 64 or more yields 0; a shift by 63 lands
      on the sign bit. */
  function ShiftFactor(attempt: int): (r: int)
    ensures IsInt64(r)
    ensures 0 <= attempt < 63 ==> r == Pow2(attempt)
  {
    if 0 <= attempt < 64 then Pow2Below(attempt); Wrap64(Pow2(attempt)) else 0
  }

  lemma Pow2Below(n: nat)
    ensures n < 63 ==> Pow2(n) < TWO_63
  {
    if n < 63 {
      Pow2Value63();
      Pow2Grows(n, 62);
    }
  }

  /** The delay `SleepWithJitter` sleeps for, with the random number of
      milliseconds `rand.Intn(300)` passed in as `jitter`. The product wraps
      around like Go's `int64`; adding the jitter cannot overflow, since the
      capped wait is at most 30 s. */
  function BackoffDelay(base: int, attempt: int, jitter: nat): (r: int)
    requires IsInt64(base) && jitter < JITTER_RANGE
    ensures r <= MAX_BACKOFF + (JITTER_RANGE - 1) * NANOS_PER_MILLI
    ensures IsInt64(r)
  {
    var wait := Wrap64(base * ShiftFactor(attempt));
    var capped := if wait > MAX_BACKOFF then MAX_BACKOFF else wait;
    capped + jitter * NANOS_PER_MILLI
  }

  /** `base · 2^attempt` stays inside `int64`. */
  predicate NoOverflow(base: int, attempt: int)
  {
    0 <= base && 0 <= attempt < 63 && base * Pow2(attempt) < TWO_63
  }

  /** Without overflow the delay is `min(base · 2^attempt, 30 s)` plus the
      jitter. */
  lemma DelayExact(base: int, attempt: int, jitter: nat)
    requires NoOverflow(base, attempt) && jitter < JITTER_RANGE
    ensures var w := base * Pow2(attempt);
      BackoffDelay(base, attempt, jitter) == (if w > MAX_BACKOFF then MAX_BACKOFF else w) + jitter * NANOS_PER_MILLI
  {
  }

  lemma Pow2Grows(m: nat, n: nat)
    requires m <= n
    ensures Pow2(m) <= Pow2(n)
    decreases n
  {
    if m < n {
      Pow2Grows(m, n - 1);
    }
  }

  /** For a fixed jitter, a later attempt never waits less. */
  lemma DelayMonotone(base: int, a1: int, a2: int, jitter: nat)
    requires NoOverflow(base, a1) && NoOverflow(base, a2) && a1 <= a2 && jitter < JITTER_RANGE
    ensures BackoffDelay(base, a1, jitter) <= BackoffDelay(base, a2, jitter)
  {
    Pow2Grows(a1, a2);
    DelayExact(base, a1, jitter);
    DelayExact(base, a2, jitter);
    MulGrows(base, Pow2(a1), Pow2(a2));
  }

  lemma MulGrows(b: nat, x: nat, y: nat)
    requires x <= y
    ensures b * x <= b * y
  {
  }

  /** A positive base always waits. */
  lemma DelayPositive(base: int, attempt: int, jitter: nat)
    requires NoOverflow(base, attempt) && base > 0 && jitter < JITTER_RANGE
    ensures BackoffDelay(base, attempt, jitter) > 0
  {
    DelayExact(base, attempt, jitter);
    MulGrows(base, 1, Pow2(attempt));
  }

  /** At the 63rd attempt the shift reaches the sign bit and the wait turns
      negative, so the sleep returns at once. The fetch loop stops after six
      attempts, well before this. */
  lemma DelayWrapsAtSignBit(jitter: nat)
    requires jitter < JITTER_RANGE
    ensures BackoffDelay(1, 63, jitter) < 0
  {
    assert Pow2(63) == TWO_63 by {
      Pow2Value63();
    }
  }

  lemma Pow2Value63()
    ensures Pow2(63) == 0x8000_0000_0000_0000
  {
    assert Pow2(8) == 256;
    assert Pow2(16) == 65536 by { Pow2Add(8, 8); }
    assert Pow2(32) == 0x1_0000_0000 by { Pow2Add(16, 16); }
    assert Pow2(48) == 0x1_0000_0000_0000 by { Pow2Add(32, 16); }
    assert Pow2(56) == 0x100_0000_0000_0000 by { Pow2Add(48, 8); }
    assert Pow2(7) == 128;
    Pow2Add(56, 7);
  }

  lemma {:induction false} Pow2Add(m: nat, n: nat)
    ensures Pow2(m + n) == Pow2(m) * Pow2(n)
    decreases n
  {
    if n > 0 {
      Pow2Add(m, n - 1);
    }
  }

  /* ---------------------------------------------------------------------- */
  /* ExtractDomain                                                           */

  const HLTV_DOMAIN: seq<byte> := Ascii("hltv.org")
  const CYBERSPORT_DOMAIN: seq<byte> := Ascii("cybersport.ru")

  /** `ExtractDomain`: the first of the two site names the URL contains. */
  function ExtractDomain(url: seq<byte>): (r: seq<byte>)
    ensures r == HLTV_DOMAIN <==> Contains(url, HLTV_DOMAIN)
    ensures r == CYBERSPORT_DOMAIN <==> !Contains(url, HLTV_DOMAIN) && Contains(url, CYBERSPORT_DOMAIN)
    ensures r == [] <==> !Contains(url, HLTV_DOMAIN) && !Contains(url, CYBERSPORT_DOMAIN)
  {
    if Contains(url, HLTV_DOMAIN) then HLTV_DOMAIN
    else if Contains(url, CYBERSPORT_DOMAIN) then CYBERSPORT_DOMAIN
    else []
  }

  /** Every URL built for an HLTV article is recognised as HLTV's. */
  lemma HLTVURLDomain(articleID: seq<byte>, slug: seq<byte>)
    ensures ExtractDomain(BuildHLTVURL(articleID, slug)) == HLTV_DOMAIN
  {
    var url := BuildHLTVURL(articleID, slug);
    var site := Ascii("https://www.");
    assert HLTV_NEWS == site + HLTV_DOMAIN + Ascii("/news/");
    assert IsPrefix(HLTV_DOMAIN, HLTV_DOMAIN);
    ContainsInConcat(site, HLTV_DOMAIN, HLTV_DOMAIN);
    ContainsInConcat(site + HLTV_DOMAIN, Ascii("/news/"), HLTV_DOMAIN);
    ContainsInConcat(HLTV_NEWS, url[|HLTV_NEWS|..], HLTV_DOMAIN);
    assert HLTV_NEWS + url[|HLTV_NEWS|..] == url;
  }

  /* ---------------------------------------------------------------------- */
  /* IsEmptyHLTVArticle                                                      */

  datatype Article = Article(id: seq<byte>, url: seq<byte>, title: seq<byte>, content: seq<byte>,
                             source: seq<byte>, tag: seq<byte>)

  /** The errors `IsEmptyHLTVArticle` reports, in the order it checks. */
  datatype ArticleError =
    | NilArticle
    | EmptyTitle
    | ContentTooShort(length: nat)
    | BlockedPage(marker: seq<byte>)

  const MIN_CONTENT: nat := 15

  /** The ASCII white space `strings.TrimSpace` removes: tab, line feed,
      vertical tab, form feed, carriage return and space. */
  predicate IsSpace(b: byte)
  {
    b == 32 || 9 <= b <= 13
  }

  function TrimLeft(s: seq<byte>): (r: seq<byte>)
    ensures |r| <= |s|
  {
    if s != [] && IsSpace(s[0]) then TrimLeft(s[1..]) else s
  }

  function TrimRight(s: seq<byte>): (r: seq<byte>)
    ensures |r| <= |s|
  {
    if s != [] && IsSpace(s[|s| - 1]) then TrimRight(s[..|s| - 1]) else s
  }

  /** Trimming the left end keeps a suffix and removes only white space,
      up to the first byte that is not. */
  lemma {:induction false} TrimLeftShape(s: seq<byte>)
    ensures var r := TrimLeft(s);
      && r == s[|s| - |r|..]
      && (r != [] ==> !IsSpace(r[0]))
      && forall i :: 0 <= i < |s| - |r| ==> IsSpace(s[i])
    decreases |s|
  {
    if s != [] && IsSpace(s[0]) {
      TrimLeftShape(s[1..]);
      var r := TrimLeft(s);
      assert s[1..][|s| - 1 - |r|..] == s[|s| - |r|..];
      forall i | 1 <= i < |s| - |r|
        ensures IsSpace(s[i])
      {
        assert s[i] == s[1..][i - 1];
      }
    }
  }

  /** Trimming the right end keeps a prefix and removes only white space,
      back to the last byte that is not. */
  lemma {:induction false} TrimRightShape(s: seq<byte>)
    ensures var r := TrimRight(s);
      && r == s[..|r|]
      && (r != [] ==> !IsSpace(r[|r| - 1]))
      && forall i :: |r| <= i < |s| ==> IsSpace(s[i])
    decreases |s|
  {
    if s != [] && IsSpace(s[|s| - 1]) {
      TrimRightShape(s[..|s| - 1]);
      var r := TrimRight(s);
      assert s[..|s| - 1][..|r|] == s[..|r|];
    }
  }

  /** `strings.TrimSpace`, on ASCII white space. */
  function TrimSpace(s: seq<byte>): seq<byte>
  {
    TrimRight(TrimLeft(s))
  }

  /** The trimmed text is a slice of the original with only white space cut
      from either end, and it neither starts nor ends with white space. */
  lemma TrimSpaceShape(s: seq<byte>)
    ensures TrimSpace(s) != [] ==> !IsSpace(TrimSpace(s)[0]) && !IsSpace(TrimSpace(s)[|TrimSpace(s)| - 1])
    ensures Lead(s) + |TrimSpace(s)| <= |s| && s[Lead(s)..Lead(s) + |TrimSpace(s)|] == TrimSpace(s)
    ensures forall k :: 0 <= k < Lead(s) ==> IsSpace(s[k])
    ensures forall k :: Lead(s) + |TrimSpace(s)| <= k < |s| ==> IsSpace(s[k])
  {
    var l := TrimLeft(s);
    var r := TrimRight(l);
    TrimLeftShape(s);
    TrimRightShape(l);
    if r != [] {
      assert r[0] == l[0];
    }
    SliceOfSuffix(s, l, r);
  }

  /** A prefix `r` of a suffix `l` of `s` sits in `s` right where `l`
      starts, and what `l` has past `r` is what `s` has past it. */
  lemma SliceOfSuffix(s: seq<byte>, l: seq<byte>, r: seq<byte>)
    requires |l| <= |s| && l == s[|s| - |l|..]
    requires |r| <= |l| && r == l[..|r|]
    requires forall k :: |r| <= k < |l| ==> IsSpace(l[k])
    ensures var i := |s| - |l|;
      && s[i..i + |r|] == r
      && forall k :: i + |r| <= k < |s| ==> IsSpace(s[k])
  {
    var i := |s| - |l|;
    assert s[i..][..|r|] == s[i..i + |r|];
    forall k | i + |r| <= k < |s|
      ensures IsSpace(s[k])
    {
      assert s[k] == l[k - i];
    }
  }

  /** How many bytes of white space lead `s`. */
  function Lead(s: seq<byte>): nat
  {
    |s| - |TrimLeft(s)|
  }

  /** Trimming twice is trimming once. */
  lemma TrimSpaceIdempotent(s: seq<byte>)
    ensures TrimSpace(TrimSpace(s)) == TrimSpace(s)
  {
    var r := TrimSpace(s);
    TrimSpaceShape(s);
    if r != [] {
      assert TrimLeft(r) == r;
    }
  }

  /** `IsEmptyHLTVArticle`: `None` is a nil error. The checks run in order:
      a missing article, a blank title, trimmed content under 15 bytes, then
      the first anti-bot marker the trimmed content contains. */
  function CheckArticle(article: Option<Article>): (r: Option<ArticleError>)
  {
    CheckArticleAgainst(article, BLOCK_MARKERS)
  }

  /** The same checks against any marker list. */
  function CheckArticleAgainst(article: Option<Article>, markers: seq<seq<byte>>): (r: Option<ArticleError>)
  {
    if article.None? then Some(NilArticle)
    else
      var title := TrimSpace(article.value.title);
      var content := TrimSpace(article.value.content);
      if title == [] then Some(EmptyTitle)
      else if |content| < MIN_CONTENT then Some(ContentTooShort(|content|))
      else match FirstMarker(content, markers)
        case Some(m) => Some(BlockedPage(m))
        case None => None
  }

  /** An article passes exactly when it exists, its trimmed title is not
      empty, its trimmed content has at least 15 bytes and contains none of
      the markers. */
  lemma CheckArticleAccepts(article: Option<Article>, markers: seq<seq<byte>>)
    ensures CheckArticleAgainst(article, markers).None? <==>
      && article.Some?
      && TrimSpace(article.value.title) != []
      && |TrimSpace(article.value.content)| >= MIN_CONTENT
      && forall k :: 0 <= k < |markers| ==> !Contains(TrimSpace(article.value.content), markers[k])
  {
  }

  /** Each error is reported only when every earlier check has passed, and
      a blocked page names a marker its content contains. */
  lemma CheckArticleOrder(article: Option<Article>, markers: seq<seq<byte>>)
    ensures var r := CheckArticleAgainst(article, markers);
      && (r == Some(NilArticle) <==> article.None?)
      && (r == Some(EmptyTitle) ==> article.Some? && TrimSpace(article.value.title) == [])
      && (r.Some? && r.value.ContentTooShort? ==>
            && article.Some? && TrimSpace(article.value.title) != []
            && r.value.length == |TrimSpace(article.value.content)| < MIN_CONTENT)
      && (r.Some? && r.value.BlockedPage? ==>
            && article.Some? && TrimSpace(article.value.title) != []
            && |TrimSpace(article.value.content)| >= MIN_CONTENT
            && r.value.marker in markers
            && Contains(TrimSpace(article.value.content), r.value.marker))
  {
  }

  /** The markers are looked for in the content only: a marker in the title
      changes nothing as long as the title is not blank. */
  lemma TitleNeverScanned(a: Article, title: seq<byte>, markers: seq<seq<byte>>)
    requires TrimSpace(a.title) != [] && TrimSpace(title) != []
    ensures CheckArticleAgainst(Some(a.(title := title)), markers) == CheckArticleAgainst(Some(a), markers)
  {
  }
}
