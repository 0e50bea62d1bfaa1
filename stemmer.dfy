/** stemmer/stemmer.cpp: a Russian suffix stripper in the style of the
    Porter/Snowball stemmer, working in place on a NUL-terminated UTF-8 word
    buffer, and the file processor that splits a file into words, lowercases
    and stems each and writes out the non-empty stems. */
module Stemmers {
  import opened Base
  import opened WordRuns

  const LEAD_D0: byte := 0xD0
  const LEAD_D1: byte := 0xD1

  /** The word buffer of `process_file` holds 1024 bytes, so a word keeps at
      most its first 1023 bytes and the terminator. */
  const WORD_BUFFER: nat := 1024
  const WORD_CAP: nat := 1023

  // ---------------------------------------------------------------------
  // to_lower_utf8

  /** What `to_lower_utf8` makes of a 0xD0 lead byte followed by `b`:
      D0 90..AF gain 0x20, D0 81 becomes D1 91, anything else stays. */
  function LowerD0(b: byte): (r: seq<byte>)
    ensures |r| == 2
    ensures b != 0 ==> r[1] != 0
  {
    if 0x90 <= b <= 0xAF then [LEAD_D0, b + 0x20]
    else if b == 0x81 then [LEAD_D1, 0x91]
    else [LEAD_D0, b]
  }

  /** `to_lower_utf8` on the bytes of a C string: ASCII capitals are
      lowered; a 0xD0 byte that is not last takes the byte after it along
      (rewritten by `LowerD0`), and that byte is skipped. */
  function LowerWord(s: seq<byte>): (r: seq<byte>)
    ensures |r| == |s|
    decreases |s|
  {
    if s == [] then []
    else if s[0] == LEAD_D0 && |s| >= 2 then LowerD0(s[1]) + LowerWord(s[2..])
    else [LowerAsciiByte(s[0])] + LowerWord(s[1..])
  }

  /** On a word without 0xD0 bytes the function is plain ASCII lowercasing. */
  lemma {:induction false} LowerWordAscii(s: seq<byte>)
    requires forall k :: 0 <= k < |s| ==> s[k] != LEAD_D0
    ensures LowerWord(s) == LowerAscii(s)
    decreases |s|
  {
    if s != [] {
      LowerWordAscii(s[1..]);
      assert LowerAscii(s) == [LowerAsciiByte(s[0])] + LowerAscii(s[1..]);
    }
  }

  /** Lowering never produces a NUL, so the C string keeps its length. */
  lemma {:induction false} LowerWordNoNul(s: seq<byte>)
    requires NoNul(s)
    ensures NoNul(LowerWord(s))
    decreases |s|
  {
    if s != [] {
      if s[0] == LEAD_D0 && |s| >= 2 {
        LowerWordNoNul(s[2..]);
        assert NoNul(s[2..]);
      } else {
        LowerWordNoNul(s[1..]);
        assert NoNul(s[1..]);
      }
    }
  }

  /** The Cyrillic capitals А..П (D0 90..9F) come out as а..п (D0 B0..BF),
      but Р..Я (D0 A0..AF) come out as D0 C0..CF, which are not the UTF-8
      bytes of р..я (D1 80..8F); the vowel test below accepts D0 C3, D0 CB
      and D0 CD for this reason. */
  lemma LowerWordCapitals(b: byte)
    requires 0x90 <= b <= 0xAF
    ensures LowerWord([LEAD_D0, b]) == [LEAD_D0, b + 0x20]
    ensures b <= 0x9F ==> 0xB0 <= b + 0x20 <= 0xBF
    ensures 0xA0 <= b ==> 0xC0 <= b + 0x20 <= 0xCF
  {
    assert [LEAD_D0, b][2..] == [];
  }

  lemma LowerWordPairStep(w: seq<byte>, i: nat)
    requires i + 1 < |w| && w[i] == LEAD_D0
    ensures LowerWord(w[i..]) == LowerD0(w[i + 1]) + LowerWord(w[i + 2..])
  {
    assert w[i..][2..] == w[i + 2..];
  }

  lemma LowerWordByteStep(w: seq<byte>, i: nat)
    requires i < |w| && !(w[i] == LEAD_D0 && i + 1 < |w|)
    ensures LowerWord(w[i..]) == [LowerAsciiByte(w[i])] + LowerWord(w[i + 1..])
  {
    assert w[i..][1..] == w[i + 1..];
  }

  lemma Regroup(out: seq<byte>, piece: seq<byte>, rest: seq<byte>)
    ensures out + (piece + rest) == (out + piece) + rest
  {
  }

  /** One round of `to_lower_utf8`'s loop at index `i`; `next` is where
      the following round starts (one further when a 0xD0 pair was taken). */
  method LowerAt(s: array<byte>, i: nat) returns (next: nat)
    requires i + 1 < s.Length
    modifies s
    ensures next == if old(s[i]) == LEAD_D0 && old(s[i + 1]) != 0 then i + 2 else i + 1
    ensures s[..i] == old(s[..i]) && s[next..] == old(s[next..])
    ensures next == i + 2 ==> s[i..next] == LowerD0(old(s[i + 1]))
    ensures next == i + 1 ==> s[i] == LowerAsciiByte(old(s[i]))
  {
    var c1 := s[i];
    next := i + 1;
    if c1 == LEAD_D0 {
      if s[i + 1] != 0 {
        var c2 := s[i + 1];
        if 0x90 <= c2 <= 0xAF {
          s[i + 1] := c2 + 0x20;
        } else if c2 == 0x81 {
          s[i] := LEAD_D1;
          s[i + 1] := 0x91;
        }
        next := next + 1;
      }
    } else if IsAsciiUpper(c1) {
      s[i] := c1 + 32;
    }
  }

  /** `to_lower_utf8`, in place on the C string in `s` whose terminator sits
      at the (ghost) position `n`. */
  method LowerInPlace(s: array<byte>, ghost n: nat)
    requires n < s.Length && s[n] == 0 && NoNul(s[..n])
    modifies s
    ensures s[..n] == LowerWord(old(s[..n]))
    ensures s[n..] == old(s[n..])
  {
    ghost var orig := s[..];
    ghost var w := orig[..n];
    var i := 0;
    while s[i] != 0
      invariant i <= n
      invariant s[i..] == orig[i..]
      invariant LowerWord(w) == s[..i] + LowerWord(w[i..])
      decreases n - i
    {
      assert s[i] == orig[i] && s[i + 1] == orig[i + 1] by {
        assert s[i..][0] == orig[i..][0];
        assert s[i..][1] == orig[i..][1];
      }
      ghost var pre := s[..];
      ghost var out := s[..i];
      var next := LowerAt(s, i);
      assert s[next..] == orig[next..] by {
        assert pre[next..] == pre[i..][next - i..];
        assert orig[next..] == orig[i..][next - i..];
      }
      if next == i + 2 {
        LowerWordPairStep(w, i);
        Regroup(out, LowerD0(w[i + 1]), LowerWord(w[i + 2..]));
        assert s[..next] == out + LowerD0(w[i + 1]);
      } else {
        LowerWordByteStep(w, i);
        Regroup(out, [LowerAsciiByte(w[i])], LowerWord(w[i + 1..]));
        assert s[..next] == out + [LowerAsciiByte(w[i])];
      }
      i := next;
    }
    assert i == n;
    assert w[n..] == [];
  }

  /** `my_strlen`: the position of the terminator. */
  method StrLen(s: array<byte>, ghost n: nat) returns (len: nat)
    requires n < s.Length && s[n] == 0 && NoNul(s[..n])
    ensures len == n
  {
    assert forall k :: 0 <= k < n ==> s[k] == s[..n][k];
    len := 0;
    while s[len] != 0
      invariant len <= n
      decreases n - len
    {
      len := len + 1;
    }
  }

  // ---------------------------------------------------------------------
  // PorterStemmer: the pure scans

  /** `is_vowel`: the two bytes at `i` are in the source's table; a lead
      byte with the terminator after it is no vowel. After `D0` the table
      holds А а Е е И и О о and У Ы Э with, for each, the byte that
      `to_lower_utf8` makes of it (`C3`, `CB`, `CD`, which are not у ы э);
      after `D1` it holds ю я ё and also с (`81`), ў (`9E`) and џ (`9F`).
      Ю and Я lowered by `to_lower_utf8` (`D0 CE`, `D0 CF`) are not in it. */
  predicate IsVowelAt(w: seq<byte>, i: nat)
    requires i < |w|
  {
    i + 1 < |w| &&
    ((w[i] == LEAD_D0 && w[i + 1] in {0x90, 0xB0, 0x95, 0xB5, 0x98, 0xB8, 0x9E, 0xBE, 0xA3, 0xC3, 0xAB, 0xCB, 0xAD, 0xCD}) ||
     (w[i] == LEAD_D1 && w[i + 1] in {0x8E, 0x9E, 0x8F, 0x9F, 0x91, 0x81}))
  }

  /** The table's quirks: the consonant с counts as a vowel, while Ю and Я
      no longer do once `to_lower_utf8` has lowered them. */
  lemma VowelTableQuirks()
    ensures IsVowelAt([LEAD_D1, 0x81], 0)
    ensures LowerWord([LEAD_D0, 0xAE]) == [LEAD_D0, 0xCE] && !IsVowelAt([LEAD_D0, 0xCE], 0)
    ensures LowerWord([LEAD_D0, 0xAF]) == [LEAD_D0, 0xCF] && !IsVowelAt([LEAD_D0, 0xCF], 0)
  {
    LowerWordCapitals(0xAE);
    LowerWordCapitals(0xAF);
  }

  /** `find_rv` from offset `i` on: the offsets tried are `i`, `i + 2`, ...
      while below `|w| - 1`; a vowel at `j` puts the region after it, at
      `j + 2` clamped to the length. */
  function RvFrom(w: seq<byte>, i: nat): (r: nat)
    requires i <= |w|
    ensures r <= |w|
    decreases |w| - i
  {
    if i + 1 >= |w| then |w|
    else if IsVowelAt(w, i) then (if i + 2 < |w| then i + 2 else |w|)
    else RvFrom(w, i + 2)
  }

  /** `find_rv`: where the region RV, the part of the word after its first
      vowel, starts (vowels are only looked for at even offsets). */
  function FindRv(w: seq<byte>): (r: nat)
    ensures r <= |w|
  {
    RvFrom(w, 0)
  }

  /** The result of `find_rv`, characterised without the scan: RV starts
      right after a vowel at an even offset, and no even offset before that
      vowel holds one; when there is no RV, no even offset that leaves room
      for a byte after the vowel holds one. */
  lemma {:induction false} RvFromShape(w: seq<byte>, i: nat)
    requires i <= |w| && i % 2 == 0
    ensures var r := RvFrom(w, i);
      r < |w| ==> i + 2 <= r && r % 2 == 0 && IsVowelAt(w, r - 2)
    ensures var r := RvFrom(w, i);
      forall j: nat :: i <= j && j + 2 < r && j % 2 == 0 ==> !IsVowelAt(w, j)
    ensures RvFrom(w, i) == |w| ==> forall j: nat :: i <= j && j + 2 < |w| && j % 2 == 0 ==> !IsVowelAt(w, j)
    decreases |w| - i
  {
    if i + 1 < |w| && !IsVowelAt(w, i) {
      RvFromShape(w, i + 2);
    }
  }

  lemma FindRvShape(w: seq<byte>)
    ensures FindRv(w) < |w| ==> 2 <= FindRv(w) && FindRv(w) % 2 == 0 && IsVowelAt(w, FindRv(w) - 2)
    ensures forall j: nat :: j + 2 < FindRv(w) && j % 2 == 0 ==> !IsVowelAt(w, j)
    ensures FindRv(w) == |w| ==> forall j: nat :: j + 2 < |w| && j % 2 == 0 ==> !IsVowelAt(w, j)
  {
    RvFromShape(w, 0);
  }

  /** `ends_with`: false when the suffix is longer than the word, else a
      comparison of the word's last bytes. */
  predicate EndsWith(w: seq<byte>, suffix: seq<byte>)
  {
    |suffix| <= |w| && w[|w| - |suffix|..] == suffix
  }

  // ---------------------------------------------------------------------
  // PorterStemmer: replacing suffixes

  /** What a call of `replace` did: whether it matched, and the word after. */
  datatype Edit = Edit(changed: bool, word: seq<byte>)

  /** `replace`: a word that ends with `suffix` loses it and gains `repl`;
      any other word is left as it is. */
  function Strip(w: seq<byte>, suffix: seq<byte>, repl: seq<byte>): (e: Edit)
    ensures e.changed <==> EndsWith(w, suffix)
    ensures e.changed ==> |e.word| == |w| - |suffix| + |repl|
    ensures e.changed ==> IsPrefix(w[..|w| - |suffix|], e.word) && e.word[|w| - |suffix|..] == repl
    ensures !e.changed ==> e.word == w
    ensures NoNul(w) && NoNul(repl) ==> NoNul(e.word)
  {
    if EndsWith(w, suffix) then Edit(true, w[..|w| - |suffix|] + repl) else Edit(false, w)
  }

  /** The loops that stop at the first `replace` that matches: the first
      suffix of `list`, in list order, that ends the word is removed. */
  function StripFirst(w: seq<byte>, list: seq<seq<byte>>): (e: Edit)
    ensures !e.changed ==> e.word == w
    ensures |e.word| <= |w|
    ensures NoNul(w) ==> NoNul(e.word)
    decreases |list|
  {
    if list == [] then Edit(false, w)
    else
      var e := Strip(w, list[0], []);
      if e.changed then e else StripFirst(w, list[1..])
  }

  /** The loop over the reflexive endings, which does not stop: every
      suffix of `list` is tried in turn on what the previous ones left. */
  function StripEach(w: seq<byte>, list: seq<seq<byte>>): (r: seq<byte>)
    ensures |r| <= |w|
    ensures NoNul(w) ==> NoNul(r)
    decreases |list|
  {
    if list == [] then w else StripEach(Strip(w, list[0], []).word, list[1..])
  }

  /** `StripFirst`, characterised: when the suffix at `k` ends the word and
      none listed before it does, exactly that suffix is removed. */
  lemma {:induction false} StripFirstPicks(w: seq<byte>, list: seq<seq<byte>>, k: nat)
    requires k < |list| && EndsWith(w, list[k])
    requires forall j :: 0 <= j < k ==> !EndsWith(w, list[j])
    ensures StripFirst(w, list) == Edit(true, w[..|w| - |list[k]|])
    decreases k
  {
    if k > 0 {
      assert !EndsWith(w, list[0]);
      StripFirstPicks(w, list[1..], k - 1);
    }
  }

  /** ... and when no listed suffix ends the word, nothing changes. */
  lemma {:induction false} StripFirstNone(w: seq<byte>, list: seq<seq<byte>>)
    requires forall j :: 0 <= j < |list| ==> !EndsWith(w, list[j])
    ensures StripFirst(w, list) == Edit(false, w)
    decreases |list|
  {
    if list != [] {
      assert !EndsWith(w, list[0]);
      StripFirstNone(w, list[1..]);
    }
  }

  /** A change made by `StripFirst` removes one of the listed suffixes. */
  lemma {:induction false} StripFirstRemoves(w: seq<byte>, list: seq<seq<byte>>)
    ensures var e := StripFirst(w, list);
      e.changed ==> exists k :: 0 <= k < |list| && EndsWith(w, list[k]) && e.word == w[..|w| - |list[k]|]
    decreases |list|
  {
    if list != [] && !Strip(w, list[0], []).changed {
      StripFirstRemoves(w, list[1..]);
      var e := StripFirst(w, list[1..]);
      if e.changed {
        var k :| 0 <= k < |list[1..]| && EndsWith(w, list[1..][k]) && e.word == w[..|w| - |list[1..][k]|];
        assert list[k + 1] == list[1..][k];
      }
    }
  }

  // ---------------------------------------------------------------------
  // PorterStemmer: the suffix lists and `stem`

  /** The suffix lists `stem` works with, and the single suffixes of its
      last stage (`нн` is replaced by `н`, every other suffix by nothing). */
  datatype SuffixTables = SuffixTables(
    perfective: seq<seq<byte>>, reflexive: seq<seq<byte>>, adjective: seq<seq<byte>>,
    participle: seq<seq<byte>>, verb: seq<seq<byte>>, noun: seq<seq<byte>>,
    derivational: seq<seq<byte>>, endingI: seq<byte>, softSign: seq<byte>,
    superlative: seq<byte>, doubleN: seq<byte>, singleN: seq<byte>)

  const PERFECTIVE: seq<seq<byte>> :=
    [Utf8("ившись"), Utf8("ывшись"), Utf8("вшись"), Utf8("ив"), Utf8("ыв"), Utf8("в")]
  const REFLEXIVE: seq<seq<byte>> := [Utf8("ся"), Utf8("сь")]
  const ADJECTIVE: seq<seq<byte>> :=
    [Utf8("ее"), Utf8("ие"), Utf8("ые"), Utf8("ое"), Utf8("ими"), Utf8("ыми"), Utf8("ей"), Utf8("ий"),
     Utf8("ый"), Utf8("ой"), Utf8("ем"), Utf8("им"), Utf8("ым"), Utf8("ом"), Utf8("его"), Utf8("ого"),
     Utf8("ему"), Utf8("ому"), Utf8("их"), Utf8("ых"), Utf8("ую"), Utf8("юю"), Utf8("ая"), Utf8("яя"),
     Utf8("ою"), Utf8("ею")]
  const PARTICIPLE: seq<seq<byte>> :=
    [Utf8("ивш"), Utf8("ывш"), Utf8("ующ"), Utf8("ем"), Utf8("нн"), Utf8("вш"), Utf8("ющ"), Utf8("щ")]
  const VERB: seq<seq<byte>> :=
    [Utf8("ила"), Utf8("ыла"), Utf8("ена"), Utf8("ейте"), Utf8("уйте"), Utf8("ите"), Utf8("или"), Utf8("ыли"),
     Utf8("ей"), Utf8("уй"), Utf8("ил"), Utf8("ыл"), Utf8("им"), Utf8("ым"), Utf8("ен"), Utf8("ят"),
     Utf8("ует"), Utf8("уют"), Utf8("ит"), Utf8("ыт"), Utf8("ены"), Utf8("ить"), Utf8("ыть"), Utf8("ишь"),
     Utf8("ую"), Utf8("ю")]
  const NOUN: seq<seq<byte>> :=
    [Utf8("иями"), Utf8("ями"), Utf8("ами"), Utf8("ией"), Utf8("иям"), Utf8("ием"), Utf8("ию"), Utf8("ий"),
     Utf8("ия"), Utf8("ие"), Utf8("ям"), Utf8("ем"), Utf8("ам"), Utf8("ом"), Utf8("ях"), Utf8("ах"),
     Utf8("ю"), Utf8("ь"), Utf8("и"), Utf8("я"), Utf8("а"), Utf8("е")]
  const DERIVATIONAL: seq<seq<byte>> := [Utf8("ость"), Utf8("ост")]
  const ENDING_I: seq<byte> := Utf8("и")
  const SOFT_SIGN: seq<byte> := Utf8("ь")
  const SUPERLATIVE: seq<byte> := Utf8("ейше")
  /** н is D0 BD in UTF-8. */
  const SINGLE_N: seq<byte> := [0xD0, 0xBD]
  const DOUBLE_N: seq<byte> := SINGLE_N + SINGLE_N

  const RUSSIAN: SuffixTables := SuffixTables(
    PERFECTIVE, REFLEXIVE, ADJECTIVE, PARTICIPLE, VERB, NOUN, DERIVATIONAL,
    ENDING_I, SOFT_SIGN, SUPERLATIVE, DOUBLE_N, SINGLE_N)

  /** The one replacement that puts bytes back puts back fewer than it
      takes, and no NUL. */
  predicate Shortening(t: SuffixTables)
  {
    |t.singleN| <= |t.doubleN| && NoNul(t.singleN)
  }

  lemma RussianShortening()
    ensures Shortening(RUSSIAN)
  {

  }

  /** The first stage of `stem` on the region RV: a perfective gerund
      ending, if one is found, is all that is removed; otherwise the
      reflexive endings, then an adjective ending (followed by a participle
      ending) or else a verb ending or else a noun ending. */
  function MainStep(t: SuffixTables, rv: seq<byte>): (r: seq<byte>)
    ensures |r| <= |rv|
    ensures NoNul(rv) ==> NoNul(r)
  {
    var perfective := StripFirst(rv, t.perfective);
    if perfective.changed then perfective.word
    else
      var reflexive := StripEach(rv, t.reflexive);
      var adjective := StripFirst(reflexive, t.adjective);
      if adjective.changed then StripFirst(adjective.word, t.participle).word
      else
        var verb := StripFirst(reflexive, t.verb);
        if verb.changed then verb.word else StripFirst(reflexive, t.noun).word
  }

  /** The last stage: a final и, then a derivational ending; then a soft
      sign, or, when there is none, the superlative ending and a double н. */
  function FinalStep(t: SuffixTables, rv: seq<byte>): (r: seq<byte>)
    ensures Shortening(t) ==> |r| <= |rv|
    ensures Shortening(t) && NoNul(rv) ==> NoNul(r)
  {
    var afterI := Strip(rv, t.endingI, []).word;
    var derivational := StripFirst(afterI, t.derivational).word;
    var soft := Strip(derivational, t.softSign, []);
    if soft.changed then soft.word
    else Strip(Strip(derivational, t.superlative, []).word, t.doubleN, t.singleN).word
  }

  predicate LastIsLead(w: seq<byte>)
  {
    |w| > 0 && (w[|w| - 1] == LEAD_D0 || w[|w| - 1] == LEAD_D1)
  }

  /** The repair at the end of `stem`: a lead byte left alone at the end is
      dropped. */
  function DropLoneLead(w: seq<byte>): (r: seq<byte>)
    ensures IsPrefix(r, w) && |w| - 1 <= |r|
    ensures !LastIsLead(w) ==> r == w
  {
    if LastIsLead(w) then w[..|w| - 1] else w
  }

  /** `stem` with the given tables: words under 6 bytes and words with an
      empty RV are left as they are; otherwise both stages work on RV, and
      a lead byte left alone at the end is dropped. */
  function StemWith(t: SuffixTables, w: seq<byte>): seq<byte>
  {
    if |w| < 6 then w
    else
      var rvPos := FindRv(w);
      if rvPos >= |w| then w
      else
        DropLoneLead(w[..rvPos] + FinalStep(t, MainStep(t, w[rvPos..])))
  }

  /** Stemming never lengthens a word and never puts a NUL into it. */
  lemma StemShortens(t: SuffixTables, w: seq<byte>)
    requires Shortening(t)
    ensures |StemWith(t, w)| <= |w|
    ensures NoNul(w) ==> NoNul(StemWith(t, w))
  {
    if |w| >= 6 && FindRv(w) < |w| {
      var rvPos := FindRv(w);
      var full := w[..rvPos] + FinalStep(t, MainStep(t, w[rvPos..]));
      if NoNul(w) {
        assert NoNul(w[rvPos..]);
        assert NoNul(full);
      }
    }
  }

  /** Short words and words without RV come back unchanged. */
  lemma StemLeavesShort(t: SuffixTables, w: seq<byte>)
    requires |w| < 6 || FindRv(w) == |w|
    ensures StemWith(t, w) == w
  {
  }

  /** Dropping a trailing lead byte cannot reach into a head that does
      not end in one. */
  lemma TrimKeepsHead(head: seq<byte>, tail: seq<byte>)
    requires !LastIsLead(head)
    ensures IsPrefix(head, DropLoneLead(head + tail))
  {
    var full := head + tail;
    if tail == [] {
      assert full == head;
    } else {
      assert full[..|full| - 1][..|head|] == head;
    }
  }

  /** `stem` never touches the bytes before RV: the stem starts with them. */
  lemma StemKeepsPrefix(t: SuffixTables, w: seq<byte>)
    requires |w| >= 6 && FindRv(w) < |w|
    ensures IsPrefix(w[..FindRv(w)], StemWith(t, w))
  {
    FindRvShape(w);
    var rvPos := FindRv(w);
    assert w[rvPos - 1] != LEAD_D0 && w[rvPos - 1] != LEAD_D1;
    TrimKeepsHead(w[..rvPos], FinalStep(t, MainStep(t, w[rvPos..])));
  }

  /** A perfective gerund ending decides the first stage alone: the first
      one listed that ends RV is removed and nothing else is. */
  lemma PerfectiveWins(t: SuffixTables, rv: seq<byte>, k: nat)
    requires k < |t.perfective| && EndsWith(rv, t.perfective[k])
    requires forall j :: 0 <= j < k ==> !EndsWith(rv, t.perfective[j])
    ensures MainStep(t, rv) == rv[..|rv| - |t.perfective[k]|]
  {
    StripFirstPicks(rv, t.perfective, k);
  }

  /** Without a perfective ending, an adjective ending takes precedence
      over verb and noun endings, and a participle ending may follow it. */
  lemma AdjectiveBeforeVerb(t: SuffixTables, rv: seq<byte>, k: nat)
    requires forall j :: 0 <= j < |t.perfective| ==> !EndsWith(rv, t.perfective[j])
    requires var reflexive := StripEach(rv, t.reflexive);
      k < |t.adjective| && EndsWith(reflexive, t.adjective[k]) &&
      forall j :: 0 <= j < k ==> !EndsWith(reflexive, t.adjective[j])
    ensures var reflexive := StripEach(rv, t.reflexive);
      MainStep(t, rv) == StripFirst(reflexive[..|reflexive| - |t.adjective[k]|], t.participle).word
  {
    StripFirstNone(rv, t.perfective);
    StripFirstPicks(StripEach(rv, t.reflexive), t.adjective, k);
  }

  // ---------------------------------------------------------------------
  // PorterStemmer: the in-place operations on the word buffer

  /** `word[start..start + len]` holds `w` and a terminator follows it. */
  ghost predicate Holds(word: array<byte>, start: nat, len: nat, w: seq<byte>)
    reads word
  {
    start + len < word.Length && word[start + len] == 0 && word[start..start + len] == w
  }

  /** `ends_with` on the `len` bytes at `start`. */
  method EndsWithIn(word: array<byte>, start: nat, len: nat, suffix: seq<byte>) returns (b: bool)
    requires start + len <= word.Length
    ensures b == EndsWith(word[start..start + len], suffix)
  {
    if |suffix| > len {
      return false;
    }
    var from := start + len - |suffix|;
    var i := 0;
    while i < |suffix|
      invariant i <= |suffix|
      invariant forall k :: 0 <= k < i ==> word[from + k] == suffix[k]
    {
      if word[from + i] != suffix[i] {
        assert word[start..start + len][len - |suffix|..][i] != suffix[i];
        return false;
      }
      i := i + 1;
    }
    assert word[start..start + len][len - |suffix|..] == suffix;
    return true;
  }

  /** `replace` on the word of `len` bytes at `start`: on a match the
      suffix is overwritten by `repl` and a new terminator written. */
  method ReplaceIn(word: array<byte>, start: nat, len: nat, suffix: seq<byte>, repl: seq<byte>)
      returns (changed: bool, newLen: nat)
    requires start + len < word.Length && word[start + len] == 0 && |repl| <= |suffix|
    modifies word
    ensures word[..start] == old(word[..start])
    ensures var e := Strip(old(word[start..start + len]), suffix, repl);
      changed == e.changed && Holds(word, start, newLen, e.word)
    ensures !changed ==> word[..] == old(word[..])
  {
    ghost var w := word[start..start + len];
    changed := EndsWithIn(word, start, len, suffix);
    newLen := len;
    if changed {
      newLen := len - |suffix|;
      var at := start + newLen;
      assert word[start..at] == word[start..start + len][..newLen];
      var i := 0;
      while i < |repl|
        invariant i <= |repl|
        invariant word[..at] == old(word[..at])
        invariant word[at..at + i] == repl[..i]
      {
        word[at + i] := repl[i];
        i := i + 1;
      }
      newLen := newLen + |repl|;
      word[start + newLen] := 0;
      assert word[start..start + newLen] == w[..len - |suffix|] + repl;
    }
  }

  /** The loops that stop at the first `replace` that matches. */
  method FirstReplaceIn(word: array<byte>, start: nat, len: nat, list: seq<seq<byte>>)
      returns (changed: bool, newLen: nat)
    requires start + len < word.Length && word[start + len] == 0
    modifies word
    ensures word[..start] == old(word[..start])
    ensures var e := StripFirst(old(word[start..start + len]), list);
      changed == e.changed && Holds(word, start, newLen, e.word)
  {
    ghost var w := word[start..start + len];
    changed, newLen := false, len;
    var k := 0;
    while k < |list|
      invariant k <= |list|
      invariant word[..start] == old(word[..start])
      invariant Holds(word, start, len, w) && newLen == len && !changed
      invariant StripFirst(w, list) == StripFirst(w, list[k..])
    {
      assert list[k..][0] == list[k] && list[k..][1..] == list[k + 1..];
      changed, newLen := ReplaceIn(word, start, len, list[k], []);
      if changed {
        return;
      }
      k := k + 1;
    }
    assert list[k..] == [];
  }

  /** The loop over the reflexive endings, which tries every one in turn. */
  method EachReplaceIn(word: array<byte>, start: nat, len: nat, list: seq<seq<byte>>)
      returns (newLen: nat)
    requires start + len < word.Length && word[start + len] == 0
    modifies word
    ensures word[..start] == old(word[..start])
    ensures Holds(word, start, newLen, StripEach(old(word[start..start + len]), list))
  {
    ghost var w := word[start..start + len];
    newLen := len;
    var k := 0;
    while k < |list|
      invariant k <= |list|
      invariant word[..start] == old(word[..start])
      invariant start + newLen < word.Length
      invariant Holds(word, start, newLen, word[start..start + newLen])
      invariant StripEach(w, list) == StripEach(word[start..start + newLen], list[k..])
    {
      assert list[k..][1..] == list[k + 1..];
      var _, shorter := ReplaceIn(word, start, newLen, list[k], []);
      newLen := shorter;
      k := k + 1;
    }
  }

  /** `find_rv` over the first `len` bytes of the buffer (`len - 1` is
      unsigned, so an empty word is not allowed). */
  method FindRvIn(word: array<byte>, len: nat) returns (r: nat)
    requires 0 < len <= word.Length
    ensures r == FindRv(word[..len])
  {
    var i := 0;
    while i < len - 1
      invariant i <= len && i % 2 == 0
      invariant RvFrom(word[..len], i) == FindRv(word[..len])
    {
      if IsVowelAt(word[..len], i) {
        return if i + 2 < len then i + 2 else len;
      }
      i := i + 2;
    }
    return len;
  }

  /** `PorterStemmer`: its suffix lists, and `stem` with its two stages. */
  class PorterStemmer {
    const tables: SuffixTables

    ghost predicate Valid()
    {
      Shortening(tables)
    }

    constructor ()
      ensures Valid() && tables == RUSSIAN
    {
      tables := RUSSIAN;
      RussianShortening();
    }

    /** The first stage of `stem`, lines 88-113, on the region RV of `len`
        bytes at `start`. */
    method MainStage(word: array<byte>, start: nat, len: nat) returns (newLen: nat)
      requires start + len < word.Length && word[start + len] == 0
      modifies word
      ensures word[..start] == old(word[..start])
      ensures Holds(word, start, newLen, MainStep(tables, old(word[start..start + len])))
    {
      var changed;
      changed, newLen := FirstReplaceIn(word, start, len, tables.perfective);
      if !changed {
        newLen := EachReplaceIn(word, start, newLen, tables.reflexive);
        var isAdjective;
        isAdjective, newLen := FirstReplaceIn(word, start, newLen, tables.adjective);
        if isAdjective {
          changed, newLen := FirstReplaceIn(word, start, newLen, tables.participle);
        } else {
          var isVerb;
          isVerb, newLen := FirstReplaceIn(word, start, newLen, tables.verb);
          if !isVerb {
            changed, newLen := FirstReplaceIn(word, start, newLen, tables.noun);
          }
        }
      }
    }

    /** The last stage of `stem`, lines 114-121. */
    method FinalStage(word: array<byte>, start: nat, len: nat) returns (newLen: nat)
      requires Valid() && start + len < word.Length && word[start + len] == 0
      modifies word
      ensures word[..start] == old(word[..start])
      ensures Holds(word, start, newLen, FinalStep(tables, old(word[start..start + len])))
    {
      var changed;
      changed, newLen := ReplaceIn(word, start, len, tables.endingI, []);
      changed, newLen := FirstReplaceIn(word, start, newLen, tables.derivational);
      var soft;
      soft, newLen := ReplaceIn(word, start, newLen, tables.softSign, []);
      if !soft {
        changed, newLen := ReplaceIn(word, start, newLen, tables.superlative, []);
        changed, newLen := ReplaceIn(word, start, newLen, tables.doubleN, tables.singleN);
      }
    }

    /** `stem`, in place on the C string in `word` whose terminator sits at
        the (ghost) position `n`: afterwards the buffer holds the stem,
        terminated. */
    method Stem(word: array<byte>, ghost n: nat)
      requires Valid() && n < word.Length && word[n] == 0 && NoNul(word[..n])
      modifies word
      ensures var r := StemWith(tables, old(word[..n]));
        |r| < word.Length && word[|r|] == 0 && word[..|r|] == r
    {
      var len := StrLen(word, n);
      if len < 6 {
        return;
      }
      var rvPos := FindRvIn(word, len);
      if rvPos >= len {
        return;
      }
      StemRegion(word, rvPos, len, word[..len]);
    }

    /** Lines 85-132, once RV is known to start at `rvPos` inside the word
        `w` of `len` bytes. */
    method StemRegion(word: array<byte>, rvPos: nat, len: nat, ghost w: seq<byte>)
      requires Valid() && len < word.Length && word[len] == 0 && word[..len] == w
      requires |w| >= 6 && rvPos == FindRv(w) < len
      modifies word
      ensures var r := StemWith(tables, w);
        |r| < word.Length && word[|r|] == 0 && word[..|r|] == r
    {
      ghost var full := w[..rvPos] + FinalStep(tables, MainStep(tables, w[rvPos..]));
      assert StemWith(tables, w) == DropLoneLead(full);
      var rLen := len - rvPos;
      assert word[rvPos..rvPos + rLen] == w[rvPos..];
      assert word[..rvPos] == w[..rvPos];
      rLen := MainStage(word, rvPos, rLen);
      rLen := FinalStage(word, rvPos, rLen);
      var finalLen := rvPos + rLen;
      SliceSplit(word[..], rvPos, finalLen);
      assert word[..finalLen] == full;
      TrimLead(word, finalLen);
    }
  }

  lemma SliceSplit(a: seq<byte>, i: nat, j: nat)
    requires i <= j <= |a|
    ensures a[..j] == a[..i] + a[i..j]
  {
  }

  /** Lines 124-132: a lead byte 0xD0 or 0xD1 left alone at the end of the
      `len` bytes of the word is cut off by moving the terminator onto it. */
  method TrimLead(word: array<byte>, len: nat)
    requires len < word.Length && word[len] == 0
    modifies word
    ensures var r := DropLoneLead(old(word[..len]));
      word[|r|] == 0 && word[..|r|] == r
  {
    if len > 0 {
      var last := word[len - 1];
      if last == LEAD_D0 || last == LEAD_D1 {
        word[len - 1] := 0;
      } else {
        word[len] := 0;
      }
    }
  }

  // ---------------------------------------------------------------------
  // Processor

  /** What `process_file` makes of a run of word bytes: its first 1023
      bytes, lowercased and stemmed. */
  function StemOf(t: SuffixTables, run: seq<byte>): seq<byte>
  {
    StemWith(t, LowerWord(Capped(run, WORD_CAP)))
  }

  /** The lines `process_file` writes for the runs of a file: the
      non-empty stems, in order. */
  function Emitted(t: SuffixTables, runs: seq<seq<byte>>): seq<seq<byte>>
    decreases |runs|
  {
    if runs == [] then []
    else
      var stem := StemOf(t, runs[|runs| - 1]);
      Emitted(t, runs[..|runs| - 1]) + (if stem != [] then [stem] else [])
  }

  lemma EmittedSnoc(t: SuffixTables, runs: seq<seq<byte>>, run: seq<byte>)
    ensures Emitted(t, runs + [run]) == Emitted(t, runs) + (if StemOf(t, run) != [] then [StemOf(t, run)] else [])
  {
    assert (runs + [run])[..|runs|] == runs;
  }

  /** At most one line per run, and every line is a non-empty stem of at
      most 1023 bytes. */
  lemma {:induction false} EmittedBounds(t: SuffixTables, runs: seq<seq<byte>>)
    requires Shortening(t)
    ensures |Emitted(t, runs)| <= |runs|
    ensures forall i :: 0 <= i < |Emitted(t, runs)| ==> 0 < |Emitted(t, runs)[i]| <= WORD_CAP
    decreases |runs|
  {
    if runs != [] {
      EmittedBounds(t, runs[..|runs| - 1]);
      StemShortens(t, LowerWord(Capped(runs[|runs| - 1], WORD_CAP)));
    }
  }

  class Processor {
    /** The lines written to the output file so far. */
    var tokens: seq<seq<byte>>
    var totalTokens: nat
    var totalChars: nat
    const stemmer: PorterStemmer

    /** The counters count the lines written and their bytes. */
    ghost predicate Valid()
      reads this
    {
      stemmer.Valid() && totalTokens == |tokens| && totalChars == TotalLength(tokens)
    }

    constructor ()
      ensures Valid() && tokens == [] && stemmer.tables == RUSSIAN
    {
      stemmer := new PorterStemmer();
      tokens := [];
      totalTokens := 0;
      totalChars := 0;
    }

    /** Lines 158-161 and 172-175: terminates the word in the buffer (the
        first bytes of the run `run`), lowercases and stems it in place and
        measures the stem. */
    method StemBuffer(buffer: array<byte>, len: nat, ghost run: seq<byte>) returns (slen: nat)
      requires Valid()
      requires 0 < len < buffer.Length && buffer[..len] == Capped(run, WORD_CAP)
      requires AllWordBytes(run)
      modifies buffer
      ensures slen < buffer.Length && buffer[..slen] == StemOf(stemmer.tables, run)
    {
      assert NoNul(buffer[..len]) by {
        forall k | 0 <= k < len
          ensures buffer[..len][k] != 0
        {
          assert buffer[..len][k] == run[k];
        }
      }
      ghost var word := buffer[..len];
      buffer[len] := 0;
      assert buffer[..len] == word;
      LowerInPlace(buffer, len);
      LowerWordNoNul(word);
      stemmer.Stem(buffer, len);
      StemShortens(stemmer.tables, LowerWord(word));
      slen := StrLen(buffer, |StemOf(stemmer.tables, run)|);
    }

    /** Lines 157-168 and 171-180: the stem of the run `run` is written and
        counted unless it is empty. */
    method FlushWord(buffer: array<byte>, len: nat,
                     ghost base: seq<seq<byte>>, ghost closed: seq<seq<byte>>, ghost run: seq<byte>)
      requires Valid() && tokens == base + Emitted(stemmer.tables, closed)
      requires 0 < len < buffer.Length && buffer[..len] == Capped(run, WORD_CAP)
      requires AllWordBytes(run)
      modifies this, buffer
      ensures Valid() && tokens == base + Emitted(stemmer.tables, closed + [run])
    {
      var slen := StemBuffer(buffer, len, run);
      ghost var stem := StemOf(stemmer.tables, run);
      if slen > 0 {
        tokens := tokens + [buffer[..slen]];
        assert tokens[..|tokens| - 1] == old(tokens);
        totalTokens := totalTokens + 1;
        totalChars := totalChars + slen;
      }
      EmittedSnoc(stemmer.tables, closed, run);
      ghost var line := if stem != [] then [stem] else [];
      assert base + (Emitted(stemmer.tables, closed) + line) == old(tokens) + line;
    }

    /** `process_file`: a file that does not open writes nothing; otherwise
        the file's runs of word bytes are stemmed in order and every
        non-empty stem is written and counted. */
    method ProcessFile(file: Option<seq<byte>>)
      requires Valid()
      modifies this
      ensures Valid()
      ensures file.None? ==> tokens == old(tokens)
      ensures file.Some? ==> tokens == old(tokens) + Emitted(stemmer.tables, Runs(file.value))
    {
      if file.None? {
        return;
      }
      var content := file.value;
      var buffer := new byte[WORD_BUFFER];
      var pos := 0;
      var i := 0;
      while i < |content|
        invariant 0 <= i <= |content| && Valid()
        invariant pos <= WORD_CAP
        invariant buffer[..pos] == Capped(Scan(content[..i]).open, WORD_CAP)
        invariant tokens == old(tokens) + Emitted(stemmer.tables, Scan(content[..i]).closed)
      {
        ghost var st := Scan(content[..i]);
        var c := content[i];
        ScanPrefixStep(content, i);
        if IsWordByte(c) {
          CappedStep(st.open, c, WORD_CAP);
          if pos < WORD_CAP {
            buffer[pos] := c;
            pos := pos + 1;
          }
        } else if pos > 0 {
          OpenRunIsWord(content[..i]);
          FlushWord(buffer, pos, old(tokens), st.closed, st.open);
          pos := 0;
        }
        i := i + 1;
      }
      assert content[..i] == content;
      OpenRunIsWord(content);
      ghost var st := Scan(content);
      if pos > 0 {
        FlushWord(buffer, pos, old(tokens), st.closed, st.open);
      }
    }

    /** `get_count`. */
    method GetCount() returns (n: nat)
      requires Valid()
      ensures n == |tokens|
    {
      n := totalTokens;
    }
  }
}
