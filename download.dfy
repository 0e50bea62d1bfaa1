/** The pure parts of parser/download.go: recognising an anti-bot page by
    its marker phrases, and building the article URLs of the two sites. */
module Downloads {
  import opened Base

  const SLASH: byte := 47

  /** The phrases that identify a challenge or refusal page instead of an
      article, in the order they are tried. parser/utils.go checks article
      bodies against the same list. */
  const BLOCK_MARKERS: seq<seq<byte>> := [
    Ascii("Verify you are human"),
    Ascii("Checking your browser"),
    Ascii("Enable JavaScript"),
    Ascii("Access denied")
  ]

  /** The first phrase of `markers` that `s` contains, if any. */
  function FirstMarker(s: seq<byte>, markers: seq<seq<byte>>): (r: Option<seq<byte>>)
    ensures r.None? <==> forall k :: 0 <= k < |markers| ==> !Contains(s, markers[k])
    ensures r.Some? ==> r.value in markers && Contains(s, r.value)
  {
    if markers == [] then None
    else if Contains(s, markers[0]) then Some(markers[0])
    else
      var rest := FirstMarker(s, markers[1..]);
      assert forall k :: 1 <= k < |markers| ==> markers[k] == markers[1..][k - 1];
      rest
  }

  /** The phrase reported is the earliest of the list that occurs: when
      `markers[k]` occurs and no phrase before it does, it is the one. */
  lemma {:induction false} FirstMarkerPicks(s: seq<byte>, markers: seq<seq<byte>>, k: nat)
    requires k < |markers| && Contains(s, markers[k])
    requires forall j :: 0 <= j < k ==> !Contains(s, markers[j])
    ensures FirstMarker(s, markers) == Some(markers[k])
    decreases k
  {
    if k > 0 {
      assert markers[1..][k - 1] == markers[k];
      FirstMarkerPicks(s, markers[1..], k - 1);
    }
  }

  /** The text of the error naming the marker that was found. */
  function BlockedMessage(marker: seq<byte>): (r: seq<byte>)
    ensures |r| == 30 + |marker| && r[30..] == marker
  {
    Ascii("blocked page marker detected: ") + marker
  }

  /** `IsBlockedHTML`: walks the marker list and stops at the first phrase
      the page contains, returning the error that names it; `None` is a nil
      error. */
  method IsBlockedHTML(content: seq<byte>) returns (err: Option<seq<byte>>)
    ensures err.None? <==> forall k :: 0 <= k < |BLOCK_MARKERS| ==> !Contains(content, BLOCK_MARKERS[k])
    ensures err.Some? ==> err == Some(BlockedMessage(FirstMarker(content, BLOCK_MARKERS).value))
  {
    var markers := BLOCK_MARKERS;
    var i := 0;
    while i < |markers|
      invariant i <= |markers|
      invariant forall k :: 0 <= k < i ==> !Contains(content, markers[k])
      invariant FirstMarker(content, markers) == FirstMarker(content, markers[i..])
    {
      if Contains(content, markers[i]) {
        return Some(BlockedMessage(markers[i]));
      }
      assert markers[i..][1..] == markers[i + 1..];
      i := i + 1;
    }
    return None;
  }

  /** An empty page is never taken for a blocked one: no marker is empty. */
  lemma EmptyNeverBlocked()
    ensures FirstMarker([], BLOCK_MARKERS).None?
  {
    forall k | 0 <= k < |BLOCK_MARKERS|
      ensures !Contains([], BLOCK_MARKERS[k])
    {
      assert |BLOCK_MARKERS[k]| > 0;
    }
  }

  const HLTV_NEWS: seq<byte> := Ascii("https://www.hltv.org/news/")
  const CYBERSPORT_TAGS: seq<byte> := Ascii("https://www.cybersport.ru/tags/")

  /** `prefix + a + "/" + b`, the shape of both article URLs. */
  function Joined(prefix: seq<byte>, a: seq<byte>, b: seq<byte>): (r: seq<byte>)
    ensures |r| == |prefix| + |a| + 1 + |b|
    ensures r[..|prefix|] == prefix && r[|prefix|..|prefix| + |a|] == a
    ensures r[|prefix| + |a|] == SLASH && r[|prefix| + |a| + 1..] == b
  {
    prefix + a + [SLASH] + b
  }

  /** A URL of that shape gives back its two parts when the first one holds
      no slash: distinct (id, slug) pairs never share a URL. */
  lemma JoinedInjective(prefix: seq<byte>, a1: seq<byte>, b1: seq<byte>, a2: seq<byte>, b2: seq<byte>)
    requires SLASH !in a1 && SLASH !in a2
    requires Joined(prefix, a1, b1) == Joined(prefix, a2, b2)
    ensures a1 == a2 && b1 == b2
  {
    var u := Joined(prefix, a1, b1);
    var p := |prefix|;
    assert forall i :: p <= i < p + |a1| ==> u[i] == a1[i - p];
    assert forall i :: p <= i < p + |a2| ==> u[i] == a2[i - p];
    assert |a1| == |a2|;
    assert a1 == u[p..p + |a1|] == a2;
  }

  /** `BuildHLTVURL`. */
  function BuildHLTVURL(articleID: seq<byte>, slug: seq<byte>): (r: seq<byte>)
    ensures IsPrefix(HLTV_NEWS, r) && r[|HLTV_NEWS|..] == articleID + [SLASH] + slug
  {
    Joined(HLTV_NEWS, articleID, slug)
  }

  /** `BuildCybersportURL`. */
  function BuildCybersportURL(tag: seq<byte>, slug: seq<byte>): (r: seq<byte>)
    ensures IsPrefix(CYBERSPORT_TAGS, r) && r[|CYBERSPORT_TAGS|..] == tag + [SLASH] + slug
  {
    Joined(CYBERSPORT_TAGS, tag, slug)
  }

  /** Two HLTV URLs agree only for the same article id and slug, article ids
      being slash-free. */
  lemma HLTVURLInjective(id1: seq<byte>, slug1: seq<byte>, id2: seq<byte>, slug2: seq<byte>)
    requires SLASH !in id1 && SLASH !in id2
    requires BuildHLTVURL(id1, slug1) == BuildHLTVURL(id2, slug2)
    ensures id1 == id2 && slug1 == slug2
  {
    JoinedInjective(HLTV_NEWS, id1, slug1, id2, slug2);
  }

  /** Two cybersport.ru URLs agree only for the same tag and slug, tags
      being slash-free. */
  lemma CybersportURLInjective(tag1: seq<byte>, slug1: seq<byte>, tag2: seq<byte>, slug2: seq<byte>)
    requires SLASH !in tag1 && SLASH !in tag2
    requires BuildCybersportURL(tag1, slug1) == BuildCybersportURL(tag2, slug2)
    ensures tag1 == tag2 && slug1 == slug2
  {
    JoinedInjective(CYBERSPORT_TAGS, tag1, slug1, tag2, slug2);
  }
}
