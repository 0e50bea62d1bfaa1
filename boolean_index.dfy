/** `BooleanIndex` of search/boolean_index.h: an inverted index from lowercased
    terms to posting lists, the stored text of every document, and the next
    document id to hand out. The two `HashMap`s are the class of hashmap.dfy;
    a posting list is held as its id sequence, which `AddId` keeps ascending
    exactly as `PostingList::add_doc` does. */
module BooleanIndexes {
  import opened Base
  import opened PostingLists
  import opened HashMaps
  import opened WordRuns

  /** `unsigned int` ids wrap around at 2^32. */
  const UINT_MODULUS: nat := 0x1_0000_0000
  /** `char buffer[4096]`: room for 4095 bytes of a word and the terminator. */
  const BUFFER_SIZE: nat := 4096
  const TOKEN_CAP: nat := 4095

  /** The term a run of word bytes is indexed under: its first 4095 bytes,
      ASCII letters lowercased. */
  function IndexTerm(run: seq<byte>): seq<byte>
  {
    LowerAscii(Capped(run, TOKEN_CAP))
  }

  function TermsOf(runs: seq<seq<byte>>): (r: seq<seq<byte>>)
    ensures |r| == |runs|
    ensures forall i :: 0 <= i < |runs| ==> r[i] == IndexTerm(runs[i])
  {
    seq(|runs|, i requires 0 <= i < |runs| => IndexTerm(runs[i]))
  }

  /** The terms `tokenize_and_index` files a text under, one per word, in order. */
  function IndexTerms(text: seq<byte>): seq<seq<byte>>
  {
    TermsOf(Runs(text))
  }

  /** Every indexed term is a non-empty lowercase word of at most 4095 bytes. */
  lemma IndexTermsShape(text: seq<byte>)
    ensures forall t :: t in IndexTerms(text) ==>
      0 < |t| <= TOKEN_CAP && AllWordBytes(t) && forall k :: 0 <= k < |t| ==> !IsAsciiUpper(t[k])
  {
    RunsWellFormed(text);
    var rs := Runs(text);
    forall t | t in IndexTerms(text)
      ensures 0 < |t| <= TOKEN_CAP && AllWordBytes(t)
    {
      var i :| 0 <= i < |rs| && IndexTerms(text)[i] == t;
      var c := Capped(rs[i], TOKEN_CAP);
      assert forall k :: 0 <= k < |c| ==> c[k] == rs[i][k];
    }
  }

  /** The posting list of `t`, or the empty list when `t` is not indexed. */
  function PostingOf(m: map<seq<byte>, seq<nat>>, t: seq<byte>): seq<nat>
  {
    if t in m then m[t] else []
  }

  /** `after` is `before` with document `d` added to the posting list of
      every term of `terms`, creating the lists that are missing. */
  ghost predicate IndexedAs(after: map<seq<byte>, seq<nat>>, before: map<seq<byte>, seq<nat>>,
                            terms: seq<seq<byte>>, d: nat)
  {
    (forall t :: t in after <==> t in before || t in terms)
    && (forall t :: t in after ==>
          Elems(after[t]) == Elems(PostingOf(before, t)) + (if t in terms then {d} else {}))
  }

  ghost predicate AllAscending(m: map<seq<byte>, seq<nat>>)
  {
    forall t :: t in m ==> Ascending(m[t])
  }

  /** Looking `token` up for writing (creating an empty list when it is
      missing) and storing the list with `d` added is filing `d` under `token`. */
  lemma AddedToPosting(before: map<seq<byte>, seq<nat>>, mid: map<seq<byte>, seq<nat>>,
                       after: map<seq<byte>, seq<nat>>, token: seq<byte>, postings: seq<nat>, d: nat)
    requires AllAscending(before)
    requires mid == if token in before then before else before[token := []]
    requires after == mid[token := postings]
    requires Ascending(postings) && Elems(postings) == Elems(PostingOf(before, token)) + {d}
    ensures AllAscending(after) && IndexedAs(after, before, [token], d)
  {
  }

  /** Filing an id below `n` into an index whose ids are all below `n` keeps
      them all below `n`. */
  lemma IndexedStaysBelow(before: map<seq<byte>, seq<nat>>, after: map<seq<byte>, seq<nat>>,
                          terms: seq<seq<byte>>, d: nat, n: nat)
    requires IndexedAs(after, before, terms, d) && d < n
    requires forall t :: t in before ==> forall id :: id in before[t] ==> id < n
    ensures forall t :: t in after ==> forall id :: id in after[t] ==> id < n
  {
    forall t, id | t in after && id in after[t]
      ensures id < n
    {
      assert id in Elems(after[t]);
      if id != d {
        assert id in PostingOf(before, t);
      }
    }
  }

  lemma IndexedAsStep(m2: map<seq<byte>, seq<nat>>, m1: map<seq<byte>, seq<nat>>, m0: map<seq<byte>, seq<nat>>,
                      ts: seq<seq<byte>>, t: seq<byte>, d: nat)
    requires IndexedAs(m1, m0, ts, d) && IndexedAs(m2, m1, [t], d)
    ensures IndexedAs(m2, m0, ts + [t], d)
  {
  }

  /** Folding the remaining terms of an AND into the ids found so far. */
  function AndAll(current: seq<nat>, m: map<seq<byte>, seq<nat>>, terms: seq<seq<byte>>): (r: seq<nat>)
    ensures Ascending(current) ==> Ascending(r)
    decreases |terms|
  {
    if terms == [] then current
    else AndAll(Common(current, PostingOf(m, terms[0])), m, terms[1..])
  }

  /** What `search_and` returns: nothing for no terms, otherwise the first
      term's list narrowed by each further term's. */
  function SearchAndSpec(m: map<seq<byte>, seq<nat>>, terms: seq<seq<byte>>): seq<nat>
  {
    if terms == [] then [] else AndAll(PostingOf(m, terms[0]), m, terms[1..])
  }

  lemma {:induction false} AndAllMembers(current: seq<nat>, m: map<seq<byte>, seq<nat>>, terms: seq<seq<byte>>)
    ensures forall id :: id in AndAll(current, m, terms) <==>
      id in current && forall t :: t in terms ==> id in PostingOf(m, t)
    decreases |terms|
  {
    if terms != [] {
      AndAllMembers(Common(current, PostingOf(m, terms[0])), m, terms[1..]);
      assert forall t :: t in terms <==> t == terms[0] || t in terms[1..];
    }
  }

  /** A document is found by an AND query exactly when every term lists it;
      an AND of no terms finds nothing. */
  lemma SearchAndMembers(m: map<seq<byte>, seq<nat>>, terms: seq<seq<byte>>)
    ensures forall id :: id in SearchAndSpec(m, terms) <==>
      terms != [] && forall t :: t in terms ==> id in PostingOf(m, t)
  {
    if terms != [] {
      AndAllMembers(PostingOf(m, terms[0]), m, terms[1..]);
      assert forall t :: t in terms <==> t == terms[0] || t in terms[1..];
    }
  }

  /** The ids the posting lists of `terms` hold between them. */
  function UnionOf(m: map<seq<byte>, seq<nat>>, terms: seq<seq<byte>>): set<nat>
    decreases |terms|
  {
    if terms == [] then {}
    else UnionOf(m, terms[..|terms| - 1]) + Elems(PostingOf(m, terms[|terms| - 1]))
  }

  /** A document is found by an OR query exactly when some term lists it. */
  lemma {:induction false} UnionOfMembers(m: map<seq<byte>, seq<nat>>, terms: seq<seq<byte>>)
    ensures forall id :: id in UnionOf(m, terms) <==> exists t :: t in terms && id in PostingOf(m, t)
    decreases |terms|
  {
    if terms != [] {
      var init := terms[..|terms| - 1];
      UnionOfMembers(m, init);
      assert forall t :: t in terms <==> t in init || t == terms[|terms| - 1];
    }
  }

  /** The ids below `n` that `ids` lacks, ascending. */
  function Complement(ids: seq<nat>, n: nat): (r: seq<nat>)
    ensures forall x: nat :: x in r <==> x < n && x !in ids
    ensures Ascending(r)
  {
    if n == 0 then []
    else
      var front := Complement(ids, n - 1);
      if n - 1 !in ids then
        AppendAscending(front, n - 1);
        front + [n - 1]
      else front
  }

  /** Over ids below `n`, NOT of a term is exactly the complement of the
      single-term AND. */
  lemma NotIsComplementOfAnd(m: map<seq<byte>, seq<nat>>, t: seq<byte>, n: nat)
    ensures forall id: nat :: id < n ==> (id in Complement(PostingOf(m, t), n) <==> id !in SearchAndSpec(m, [t]))
  {
    SearchAndMembers(m, [t]);
  }

  class BooleanIndex {
    const index: HashMap<seq<byte>, seq<nat>>
    const documents: HashMap<nat, seq<byte>>
    var nextDocId: nat

    ghost predicate Valid()
      reads this, index, documents
    {
      index.Valid() && documents.Valid() && nextDocId < UINT_MODULUS
      && index.defaultValue == [] && documents.defaultValue == []
      && AllAscending(index.Map())
    }

    /** Every indexed and every stored id was handed out already. This holds
        until `nextDocId` wraps around after 2^32 documents. */
    ghost predicate Dense()
      reads this, index, documents
    {
      (forall t :: t in index.Map() ==> forall id :: id in index.Map()[t] ==> id < nextDocId)
      && (forall id :: id in documents.Map() ==> id < nextDocId)
    }

    constructor ()
      ensures Valid() && Dense() && fresh(index) && fresh(documents)
      ensures nextDocId == 0 && index.Map() == map[] && documents.Map() == map[]
    {
      index := new HashMap([]);
      documents := new HashMap([]);
      nextDocId := 0;
    }

    /** `index[token].add_doc(docId)`. */
    method AddPosting(token: seq<byte>, docId: nat)
      requires Valid()
      modifies index
      ensures Valid()
      ensures IndexedAs(index.Map(), old(index.Map()), [token], docId)
    {
      ghost var before := index.Map();
      var slot := index.Slot(token);
      ghost var mid := index.Map();
      MapOfAt(index.items, slot);
      var current := index.items[slot].value;
      assert current == PostingOf(before, token);
      var postings := AddId(current, docId);
      index.SetAt(slot, postings);
      AddedToPosting(before, mid, index.Map(), token, postings, docId);
    }

    /** Files the word held in `buffer[..len]`, the first bytes of the
        closed run `run`: terminates it, lowercases it in place and adds
        `docId` to its posting list. Seen from the scan, the terms filed so
        far grow by the term of `run`. */
    method FlushWord(buffer: array<byte>, len: nat, docId: nat,
                     ghost base: map<seq<byte>, seq<nat>>, ghost closed: seq<seq<byte>>, ghost run: seq<byte>)
      requires Valid()
      requires 0 < len < buffer.Length && buffer[..len] == Capped(run, TOKEN_CAP)
      requires AllWordBytes(run)
      requires IndexedAs(index.Map(), base, TermsOf(closed), docId)
      modifies index, buffer
      ensures Valid()
      ensures IndexedAs(index.Map(), base, TermsOf(closed + [run]), docId)
    {
      assert NoNul(buffer[..len]) by {
        forall k | 0 <= k < len
          ensures buffer[..len][k] != 0
        {
          assert buffer[..len][k] == run[k];
        }
      }
      ghost var before := index.Map();
      buffer[len] := 0;
      assert buffer[..len] == old(buffer[..len]);
      LowerCString(buffer, len);
      AddPosting(buffer[..len], docId);
      assert TermsOf(closed + [run]) == TermsOf(closed) + [IndexTerm(run)];
      IndexedAsStep(index.Map(), before, base, TermsOf(closed), IndexTerm(run), docId);
    }

    /** `tokenize_and_index`: every word of `text` is filed under its term. */
    method TokenizeAndIndex(docId: nat, text: seq<byte>)
      requires Valid() && NoNul(text)
      modifies index
      ensures Valid()
      ensures IndexedAs(index.Map(), old(index.Map()), IndexTerms(text), docId)
    {
      var buffer := new byte[BUFFER_SIZE];
      var bufIdx := 0;
      var i := 0;
      while i < |text|
        invariant 0 <= i <= |text|
        invariant Valid()
        invariant bufIdx <= TOKEN_CAP
        invariant buffer[..bufIdx] == Capped(Scan(text[..i]).open, TOKEN_CAP)
        invariant IndexedAs(index.Map(), old(index.Map()), TermsOf(Scan(text[..i]).closed), docId)
      {
        ghost var st := Scan(text[..i]);
        var c := text[i];
        ScanPrefixStep(text, i);
        if IsWordByte(c) {
          CappedStep(st.open, c, TOKEN_CAP);
          if bufIdx < TOKEN_CAP {
            buffer[bufIdx] := c;
            bufIdx := bufIdx + 1;
          }
        } else if bufIdx > 0 {
          OpenRunIsWord(text[..i]);
          FlushWord(buffer, bufIdx, docId, old(index.Map()), st.closed, st.open);
          bufIdx := 0;
        }
        i := i + 1;
      }
      assert text[..i] == text;
      OpenRunIsWord(text);
      if bufIdx > 0 {
        FlushWord(buffer, bufIdx, docId, old(index.Map()), Scan(text).closed, Scan(text).open);
      }
    }

    /** `add_document`: hands out the next id (wrapping around at 2^32),
        stores the text under it and indexes its words. */
    method AddDocument(text: seq<byte>) returns (docId: nat)
      requires Valid() && NoNul(text)
      modifies this, index, documents
      ensures Valid()
      ensures docId == old(nextDocId)
      ensures nextDocId == (old(nextDocId) + 1) % UINT_MODULUS
      ensures documents.Map() == old(documents.Map())[docId := text]
      ensures IndexedAs(index.Map(), old(index.Map()), IndexTerms(text), docId)
      ensures old(Dense()) && old(nextDocId) + 1 < UINT_MODULUS ==> Dense()
    {
      docId := nextDocId;
      nextDocId := (nextDocId + 1) % UINT_MODULUS;
      var slot := documents.Slot(docId);
      documents.SetAt(slot, text);
      TokenizeAndIndex(docId, text);
      if old(Dense()) && docId + 1 < UINT_MODULUS {
        IndexedStaysBelow(old(index.Map()), index.Map(), IndexTerms(text), docId, nextDocId);
      }
    }

    /** `get_posting_list`: the list of `term`, or nothing. */
    method GetPostingList(term: seq<byte>) returns (r: Option<seq<nat>>)
      requires Valid()
      ensures r.Some? <==> term in index.Map()
      ensures r.Some? ==> r.value == index.Map()[term] && Ascending(r.value)
    {
      r := index.Get(term);
    }

    /** The list of `term`, or the empty list: what a null list pointer
        contributes to a search. */
    method PostingOrEmpty(term: seq<byte>) returns (ids: seq<nat>)
      requires Valid()
      ensures ids == PostingOf(index.Map(), term) && Ascending(ids)
    {
      var plist := index.Get(term);
      ids := if plist.Some? then plist.value else [];
    }

    /** `search_and`. */
    method SearchAnd(terms: seq<seq<byte>>) returns (r: seq<nat>)
      requires Valid()
      ensures r == SearchAndSpec(index.Map(), terms)
      ensures Ascending(r)
    {
      if |terms| == 0 {
        return [];
      }
      var result := index.Get(terms[0]);
      var current: seq<nat> := [];
      if result.Some? {
        current := result.value;
      }
      var i := 1;
      while i < |terms|
        invariant 1 <= i <= |terms|
        invariant Ascending(current)
        invariant AndAll(current, index.Map(), terms[i..]) == SearchAndSpec(index.Map(), terms)
      {
        var plist := index.Get(terms[i]);
        var next: seq<nat> := [];
        if plist.Some? {
          next := IntersectIds(current, plist.value);
        } else {
          CommonWithNothing(current);
        }
        assert terms[i..][1..] == terms[i + 1..];
        current := next;
        i := i + 1;
      }
      r := current;
    }

    /** `search_or`: the ids of every listed term, each once, ascending. */
    method SearchOr(terms: seq<seq<byte>>) returns (r: seq<nat>)
      requires Valid()
      ensures Ascending(r)
      ensures Elems(r) == UnionOf(index.Map(), terms)
    {
      var result: seq<nat> := [];
      var i := 0;
      while i < |terms|
        invariant 0 <= i <= |terms|
        invariant Distinct(result)
        invariant Elems(result) == UnionOf(index.Map(), terms[..i])
      {
        var plist := index.Get(terms[i]);
        if plist.Some? {
          result := AppendMissing(result, plist.value);
        }
        assert terms[..i + 1][..i] == terms[..i];
        i := i + 1;
      }
      assert terms[..i] == terms;
      r := SortIds(result);
    }

    /** `search_not`: every id handed out so far that `term` does not list. */
    method SearchNot(term: seq<byte>) returns (r: seq<nat>)
      requires Valid()
      ensures r == Complement(PostingOf(index.Map(), term), nextDocId)
    {
      var listed := PostingOrEmpty(term);
      r := [];
      var i := 0;
      while i < nextDocId
        invariant 0 <= i <= nextDocId
        invariant r == Complement(listed, i)
      {
        var found := ContainsId(listed, i);
        if !found {
          r := r + [i];
        }
        i := i + 1;
      }
    }

    /** `get_document_text`: the stored text, or nothing for an unknown id. */
    method GetDocumentText(docId: nat) returns (r: Option<seq<byte>>)
      requires Valid()
      ensures r.Some? <==> docId in documents.Map()
      ensures r.Some? ==> r.value == documents.Map()[docId]
    {
      r := documents.Get(docId);
    }

    method GetTotalDocuments() returns (n: nat)
      ensures n == nextDocId
    {
      n := nextDocId;
    }

    /** `get_total_terms`: the number of distinct terms. */
    method GetTotalTerms() returns (n: nat)
      requires Valid()
      ensures n == |index.Map()|
    {
      n := index.Size();
    }

    /** `keys`: every term once, in the order the terms were first indexed. */
    method Keys() returns (ks: seq<seq<byte>>)
      requires Valid()
      ensures forall t :: t in ks <==> t in index.Map()
      ensures |ks| == |index.Map()|
    {
      ks := index.Keys();
    }
  }
}
