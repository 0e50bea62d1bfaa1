/** `Tokenizer` of tokenizer/tokenizer.cpp: splits the bytes of a file into
    the maximal runs of word bytes (the runs of word_runs.dfy, uncapped),
    lowercases each run with `toLowerUtf8` and appends it to `tokens`, counting
    tokens and their bytes. Reading the file is replaced by its contents, or
    `None` for a file that does not open. */
module Tokenizers {
  import opened Base
  import opened WordRuns

  const LEAD_D0: byte := 0xD0
  const LEAD_D1: byte := 0xD1

  /** What `toLowerUtf8` makes of `s`, read front to back. A `D0` lead
      followed by `90`..`AF` (А..Я) gets its second byte raised by `0x20`:
      А..П become а..п (`D0 B0`..`BF`), but Р..Я become `D0 C0`..`CF`, which
      are not р..я (those are `D1 80`..`8F`). `D0 81` (Ё) becomes `D1 91` (ё),
      `D1 90` becomes `D0 81`;
      a rewritten pair is passed over as a whole. Any other byte goes through
      `std::tolower` of the C locale, which lowers ASCII letters only. */
  function LowerUtf8(s: seq<byte>): (r: seq<byte>)
    ensures |r| == |s|
    decreases |s|
  {
    if s == [] then []
    else if |s| >= 2 && IsPair(s[0], s[1]) then LowerPair(s[0], s[1]) + LowerUtf8(s[2..])
    else [LowerAsciiByte(s[0])] + LowerUtf8(s[1..])
  }

  /** The two-byte sequences `toLowerUtf8` rewrites. */
  predicate IsPair(a: byte, b: byte)
  {
    (a == LEAD_D0 && (0x90 <= b <= 0xAF || b == 0x81)) || (a == LEAD_D1 && b == 0x90)
  }

  function LowerPair(a: byte, b: byte): (r: seq<byte>)
    requires IsPair(a, b)
    ensures |r| == 2 && 0x80 <= r[1] && r[1] != LEAD_D0 && r[1] != LEAD_D1
  {
    if a == LEAD_D0 && 0x90 <= b <= 0xAF then [LEAD_D0, b + 0x20]
    else if a == LEAD_D0 then [LEAD_D1, 0x91]
    else [LEAD_D0, 0x81]
  }

  /** Every ASCII byte is lowercased where it stands: no rewritten pair has
      an ASCII second byte. */
  lemma {:induction false} LowerUtf8Ascii(s: seq<byte>)
    ensures forall i :: 0 <= i < |s| && s[i] < 0x80 ==> LowerUtf8(s)[i] == LowerAsciiByte(s[i])
    decreases |s|
  {
    if s != [] {
      var r := LowerUtf8(s);
      if |s| >= 2 && IsPair(s[0], s[1]) {
        LowerUtf8Ascii(s[2..]);
        assert forall i :: 2 <= i < |s| ==> s[i] == s[2..][i - 2];
      } else {
        LowerUtf8Ascii(s[1..]);
        assert forall i :: 1 <= i < |s| ==> s[i] == s[1..][i - 1];
      }
    }
  }

  /** Bytes that are neither ASCII capitals nor a `D0`/`D1` lead are left as
      they are. */
  lemma {:induction false} LowerUtf8Unchanged(s: seq<byte>)
    requires forall i :: 0 <= i < |s| ==> !IsAsciiUpper(s[i]) && s[i] != LEAD_D0 && s[i] != LEAD_D1
    ensures LowerUtf8(s) == s
    decreases |s|
  {
    if s != [] {
      LowerUtf8Unchanged(s[1..]);
      assert s == [s[0]] + s[1..];
    }
  }

  /** Input that does not end in a lead byte splits cleanly: no pair reaches
      across the cut, so the pieces are lowercased on their own. */
  lemma {:induction false} LowerUtf8Concat(x: seq<byte>, y: seq<byte>)
    requires x == [] || (x[|x| - 1] != LEAD_D0 && x[|x| - 1] != LEAD_D1)
    ensures LowerUtf8(x + y) == LowerUtf8(x) + LowerUtf8(y)
    decreases |x|
  {
    if x == [] {
      assert x + y == y;
    } else if |x| >= 2 && IsPair(x[0], x[1]) {
      assert (x + y)[2..] == x[2..] + y;
      LowerUtf8Concat(x[2..], y);
    } else {
      assert (x + y)[1..] == x[1..] + y;
      LowerUtf8Concat(x[1..], y);
    }
  }

  /** `ѐ` (`D1 90`) is turned into the capital `Ё` (`D0 81`), which a second
      pass lowers to `ё`: lowercasing twice is not lowercasing once. */
  lemma LowerUtf8NotIdempotent()
    ensures LowerUtf8([LEAD_D1, 0x90]) == [LEAD_D0, 0x81]
    ensures LowerUtf8(LowerUtf8([LEAD_D1, 0x90])) == [LEAD_D1, 0x91]
  {
    assert LowerUtf8([LEAD_D1, 0x90]) == [LEAD_D0, 0x81] + LowerUtf8([]);
    assert LowerUtf8([LEAD_D0, 0x81]) == [LEAD_D1, 0x91] + LowerUtf8([]);
  }

  /** Reading a rewritten pair off the front of the unread input. */
  lemma AdvancePair(orig: seq<byte>, done: nat, out: seq<byte>)
    requires done + 2 <= |orig| && IsPair(orig[done], orig[done + 1])
    requires LowerUtf8(orig) == out + LowerUtf8(orig[done..])
    ensures LowerUtf8(orig) == (out + LowerPair(orig[done], orig[done + 1])) + LowerUtf8(orig[done + 2..])
  {
    assert orig[done..][2..] == orig[done + 2..];
  }

  /** Reading one byte that starts no pair off the front of the unread input. */
  lemma AdvanceOne(orig: seq<byte>, done: nat, out: seq<byte>)
    requires done < |orig| && !(done + 1 < |orig| && IsPair(orig[done], orig[done + 1]))
    requires LowerUtf8(orig) == out + LowerUtf8(orig[done..])
    ensures LowerUtf8(orig) == (out + [LowerAsciiByte(orig[done])]) + LowerUtf8(orig[done + 1..])
  {
    var r := orig[done..];
    assert r[1..] == orig[done + 1..];
    assert r[0] == orig[done];
    assert |r| >= 2 ==> r[1] == orig[done + 1];
    var head, tail := [LowerAsciiByte(r[0])], LowerUtf8(r[1..]);
    assert LowerUtf8(r) == head + tail;
    assert out + (head + tail) == (out + head) + tail;
  }

  /** One round of `toLowerUtf8`'s loop at index `i`: a pair starting at
      `i` is rewritten, any other byte goes through `tolower`. */
  method LowerAt(s: array<byte>, i: nat)
    requires i < s.Length
    modifies s
    ensures s[..i] == old(s[..i])
    ensures i + 2 <= s.Length ==> s[i + 2..] == old(s[i + 2..])
    ensures i + 1 < s.Length && IsPair(old(s[i]), old(s[i + 1])) ==>
      s[i..i + 2] == LowerPair(old(s[i]), old(s[i + 1]))
    ensures !(i + 1 < s.Length && IsPair(old(s[i]), old(s[i + 1]))) ==>
      s[i] == LowerAsciiByte(old(s[i])) && (i + 1 < s.Length ==> s[i + 1] == old(s[i + 1]))
  {
    var n := s.Length;
    var c1 := s[i];
    if c1 == LEAD_D0 {
      if i + 1 < n {
        var c2 := s[i + 1];
        if 0x90 <= c2 <= 0xAF {
          s[i + 1] := c2 + 0x20;
        } else if c2 == 0x81 {
          s[i] := LEAD_D1;
          s[i + 1] := 0x91;
        }
      }
    } else if c1 == LEAD_D1 && i + 1 < n {
      var c2 := s[i + 1];
      if c2 == 0x90 {
        s[i] := LEAD_D0;
        s[i + 1] := 0x81;
      }
    } else {
      s[i] := LowerAsciiByte(c1);
    }
  }

  /** `toLowerUtf8`, in place. The index `i` moves one byte at a time; a
      rewritten pair also writes the byte after `i`, which the next round
      then passes through `tolower` unchanged. `done` is where the input
      still to be read starts: `i`, or `i + 1` right after a pair. */
  method ToLowerUtf8(s: array<byte>)
    modifies s
    ensures s[..] == LowerUtf8(old(s[..]))
  {
    ghost var orig := s[..];
    var n := s.Length;
    ghost var done := 0;
    var i := 0;
    while i < n
      invariant i <= done <= i + 1 && done <= n
      invariant s[done..] == orig[done..]
      invariant LowerUtf8(orig) == s[..done] + LowerUtf8(orig[done..])
      invariant done == i + 1 ==> 0x80 <= s[i] && s[i] != LEAD_D0 && s[i] != LEAD_D1
    {
      ghost var out := s[..done];
      ghost var pair := i + 1 < n && IsPair(s[i], s[i + 1]);
      if done == i {
        assert s[i] == orig[i];
        if i + 1 < n {
          assert s[i + 1] == orig[i + 1];
        }
        if pair {
          AdvancePair(orig, i, out);
        } else {
          AdvanceOne(orig, i, out);
        }
      }
      LowerAt(s, i);
      if done == i {
        if pair {
          done := i + 2;
          assert s[..done] == out + s[i..done];
        } else {
          done := i + 1;
          assert s[..done] == out + [s[i]];
        }
      } else {
        assert s[..done] == out;
      }
      i := i + 1;
    }
  }

  function LowerAll(rs: seq<seq<byte>>): (r: seq<seq<byte>>)
    ensures |r| == |rs|
    ensures forall i :: 0 <= i < |rs| ==> r[i] == LowerUtf8(rs[i])
  {
    seq(|rs|, i requires 0 <= i < |rs| => LowerUtf8(rs[i]))
  }

  /** Lowercasing keeps every length, so the runs' lowercase forms have as
      many bytes between them as the input has word bytes. */
  lemma {:induction false} LoweredLength(rs: seq<seq<byte>>)
    ensures TotalLength(LowerAll(rs)) == |Concat(rs)|
    decreases |rs|
  {
    if rs != [] {
      var init := rs[..|rs| - 1];
      LoweredLength(init);
      assert LowerAll(rs)[..|rs| - 1] == LowerAll(init);
    }
  }

  lemma LowerAllSnoc(ws: seq<seq<byte>>, w: seq<byte>)
    ensures LowerAll(ws + [w]) == LowerAll(ws) + [LowerUtf8(w)]
  {
    assert (ws + [w])[..|ws|] == ws;
  }

  class Tokenizer {
    var tokens: seq<seq<byte>>
    var totalTokens: nat
    var totalChars: nat

    /** The counters count what `tokens` holds. */
    ghost predicate Valid()
      reads this
    {
      totalTokens == |tokens| && totalChars == TotalLength(tokens)
    }

    constructor ()
      ensures Valid() && tokens == []
    {
      tokens := [];
      totalTokens := 0;
      totalChars := 0;
    }

    /** Lowercase a finished word and store it: lines 61-64 and 70-73. */
    method Emit(word: seq<byte>)
      requires Valid()
      modifies this
      ensures Valid() && tokens == old(tokens) + [LowerUtf8(word)]
    {
      var buf := new byte[|word|](k requires 0 <= k < |word| => word[k]);
      assert buf[..] == word;
      ToLowerUtf8(buf);
      tokens := tokens + [buf[..]];
      assert tokens[..|tokens| - 1] == old(tokens);
      totalChars := totalChars + buf.Length;
      totalTokens := totalTokens + 1;
    }

    /** `processFile`: a file that does not open adds nothing; otherwise
        every maximal run of word bytes, lowercased, is appended in order. */
    method ProcessFile(file: Option<seq<byte>>)
      requires Valid()
      modifies this
      ensures Valid()
      ensures file.None? ==> tokens == old(tokens)
      ensures file.Some? ==> tokens == old(tokens) + LowerAll(Runs(file.value))
    {
      if file.None? {
        return;
      }
      var content := file.value;
      var word: seq<byte> := [];
      var i := 0;
      while i < |content|
        invariant 0 <= i <= |content| && Valid()
        invariant word == Scan(content[..i]).open
        invariant tokens == old(tokens) + LowerAll(Scan(content[..i]).closed)
      {
        ScanPrefixStep(content, i);
        ghost var closed := Scan(content[..i]).closed;
        var c := content[i];
        if IsWordByte(c) {
          word := word + [c];
        } else if word != [] {
          Emit(word);
          LowerAllSnoc(closed, word);
          word := [];
        }
        i := i + 1;
      }
      assert content[..i] == content;
      ghost var closed := Scan(content).closed;
      if word != [] {
        Emit(word);
        LowerAllSnoc(closed, word);
      }
    }

    method GetTotalTokens() returns (n: nat)
      requires Valid()
      ensures n == |tokens|
    {
      n := totalTokens;
    }
  }

  /** Processing a file adds one token per run of word bytes and counts
      exactly the file's word bytes as characters. */
  lemma ProcessedCounts(before: seq<seq<byte>>, content: seq<byte>)
    ensures |before + LowerAll(Runs(content))| == |before| + RunStarts(content)
    ensures TotalLength(before + LowerAll(Runs(content))) == TotalLength(before) + |WordBytes(content)|
  {
    RunsCount(content);
    RunsConcat(content);
    LoweredLength(Runs(content));
    TotalLengthAppend(before, LowerAll(Runs(content)));
  }
}
