/** The word scanner that search/boolean_index.h (`tokenize_and_index`),
    tokenizer/tokenizer.cpp (`processFile`) and stemmer/stemmer.cpp
    (`Processor::process_file`) each write out by hand: a byte belongs to a
    word when it is an ASCII letter or digit, '-', '_' or any byte above 127
    (a piece of a multi-byte UTF-8 character); a word is a maximal run of such
    bytes. The three differ only in how much of a run they keep and what they
    do with it, so the runs are specified once here. */
module WordRuns {
  import opened Base

  /** `is_word_char` / `isWordChar`; `std::isalnum` in the C locale is the
      ASCII letters and digits. */
  predicate IsWordByte(b: byte)
  {
    IsAsciiDigit(b) || IsAsciiLower(b) || IsAsciiUpper(b) || b == HYPHEN || b == UNDERSCORE || b > 127
  }

  /** Where a left-to-right scan stands: the runs closed so far and the run
      still open. */
  datatype ScanState = ScanState(closed: seq<seq<byte>>, open: seq<byte>)

  /** One byte of the scan: a word byte extends the open run, any other byte
      closes it if it is non-empty. */
  function Step(st: ScanState, b: byte): ScanState
  {
    if IsWordByte(b) then ScanState(st.closed, st.open + [b])
    else if st.open != [] then ScanState(st.closed + [st.open], [])
    else st
  }

  function Scan(s: seq<byte>): ScanState
    decreases |s|
  {
    if s == [] then ScanState([], []) else Step(Scan(s[..|s| - 1]), s[|s| - 1])
  }

  /** The end of input closes the open run too. */
  function Flush(st: ScanState): seq<seq<byte>>
  {
    if st.open != [] then st.closed + [st.open] else st.closed
  }

  /** The maximal runs of word bytes of `s`, in order. */
  function Runs(s: seq<byte>): seq<seq<byte>>
  {
    Flush(Scan(s))
  }

  /** A run as a scanner with a fixed buffer keeps it: its first `cap` bytes. */
  function Capped(run: seq<byte>, cap: nat): (r: seq<byte>)
    ensures |r| == if |run| <= cap then |run| else cap
    ensures IsPrefix(r, run)
  {
    if |run| <= cap then run else run[..cap]
  }

  /** A capped buffer takes one more byte exactly while it is below the cap. */
  lemma CappedStep(run: seq<byte>, b: byte, cap: nat)
    ensures Capped(run + [b], cap) == if |run| < cap then Capped(run, cap) + [b] else Capped(run, cap)
  {
    if |run| >= cap {
      assert (run + [b])[..cap] == run[..cap];
    }
  }

  predicate AllWordBytes(w: seq<byte>)
  {
    forall k :: 0 <= k < |w| ==> IsWordByte(w[k])
  }

  predicate WellFormedRuns(rs: seq<seq<byte>>)
  {
    forall i :: 0 <= i < |rs| ==> rs[i] != [] && AllWordBytes(rs[i])
  }

  /** The word bytes of `s`, in order. */
  function WordBytes(s: seq<byte>): seq<byte>
    decreases |s|
  {
    if s == [] then []
    else WordBytes(s[..|s| - 1]) + (if IsWordByte(s[|s| - 1]) then [s[|s| - 1]] else [])
  }

  function Concat(rs: seq<seq<byte>>): seq<byte>
    decreases |rs|
  {
    if rs == [] then [] else Concat(rs[..|rs| - 1]) + rs[|rs| - 1]
  }

  /** Positions where a run starts: a word byte that is first or follows a
      non-word byte. */
  function RunStarts(s: seq<byte>): nat
    decreases |s|
  {
    if s == [] then 0
    else
      var n := |s| - 1;
      RunStarts(s[..n]) + (if IsWordByte(s[n]) && (n == 0 || !IsWordByte(s[n - 1])) then 1 else 0)
  }

  lemma {:induction false} ScanInvariant(s: seq<byte>)
    ensures WellFormedRuns(Scan(s).closed)
    ensures AllWordBytes(Scan(s).open)
    ensures Concat(Scan(s).closed) + Scan(s).open == WordBytes(s)
    ensures |Scan(s).closed| + (if Scan(s).open != [] then 1 else 0) == RunStarts(s)
    ensures Scan(s).open != [] <==> s != [] && IsWordByte(s[|s| - 1])
    decreases |s|
  {
    if s != [] {
      var init := s[..|s| - 1];
      var b := s[|s| - 1];
      ScanInvariant(init);
      var st := Scan(init);
      if IsWordByte(b) {
        assert Concat(st.closed) + (st.open + [b]) == (Concat(st.closed) + st.open) + [b];
      } else if st.open != [] {
        assert Concat(st.closed + [st.open]) == Concat(st.closed) + st.open by {
          assert (st.closed + [st.open])[..|st.closed|] == st.closed;
        }
      }
    }
  }

  /** Scanning one more byte of a prefix is one more step. */
  lemma ScanPrefixStep(s: seq<byte>, i: nat)
    requires i < |s|
    ensures Scan(s[..i + 1]) == Step(Scan(s[..i]), s[i])
  {
    assert s[..i + 1][..i] == s[..i];
  }

  lemma OpenRunIsWord(s: seq<byte>)
    ensures AllWordBytes(Scan(s).open)
  {
    ScanInvariant(s);
  }

  /** Every run is non-empty and made of word bytes. */
  lemma RunsWellFormed(s: seq<byte>)
    ensures WellFormedRuns(Runs(s))
  {
    ScanInvariant(s);
  }

  /** The runs, put back together, are exactly the word bytes of the input:
      the scan loses and invents no byte. */
  lemma RunsConcat(s: seq<byte>)
    ensures Concat(Runs(s)) == WordBytes(s)
  {
    ScanInvariant(s);
    var st := Scan(s);
    if st.open != [] {
      assert (st.closed + [st.open])[..|st.closed|] == st.closed;
    }
  }

  /** There is one run per position where a run starts. */
  lemma RunsCount(s: seq<byte>)
    ensures |Runs(s)| == RunStarts(s)
  {
    ScanInvariant(s);
  }

  /** Scanning on from a state with no open run just adds the runs of the rest. */
  lemma {:induction false} ScanFromClosed(x: seq<byte>, b: seq<byte>)
    requires Scan(x).open == []
    ensures Scan(x + b) == ScanState(Scan(x).closed + Scan(b).closed, Scan(b).open)
    decreases |b|
  {
    if b == [] {
      assert x + b == x;
    } else {
      var binit := b[..|b| - 1];
      ScanFromClosed(x, binit);
      assert (x + b)[..|x + b| - 1] == x + binit;
      var c := Scan(x).closed;
      var st := Scan(binit);
      if !IsWordByte(b[|b| - 1]) && st.open != [] {
        assert c + st.closed + [st.open] == c + (st.closed + [st.open]);
      }
    }
  }

  /** A non-word byte separates: the runs of `a`, the byte, then `b` are the
      runs of `a` followed by the runs of `b`. */
  lemma RunsSeparated(a: seq<byte>, sep: byte, b: seq<byte>)
    requires !IsWordByte(sep)
    ensures Runs(a + [sep] + b) == Runs(a) + Runs(b)
  {
    var x := a + [sep];
    assert x[..|x| - 1] == a;
    assert Scan(x) == ScanState(Runs(a), []);
    ScanFromClosed(x, b);
    var st := Scan(b);
    if st.open != [] {
      assert Runs(a) + st.closed + [st.open] == Runs(a) + (st.closed + [st.open]);
    }
  }

  /** Over word bytes alone the scan closes nothing and keeps all of them open. */
  lemma {:induction false} ScanWordBytes(w: seq<byte>)
    requires AllWordBytes(w)
    ensures Scan(w) == ScanState([], w)
    decreases |w|
  {
    if w != [] {
      var init := w[..|w| - 1];
      ScanWordBytes(init);
      assert init + [w[|w| - 1]] == w;
    }
  }

  /** A non-empty input of word bytes alone is one run. */
  lemma SingleRun(w: seq<byte>)
    requires w != [] && AllWordBytes(w)
    ensures Runs(w) == [w]
  {
    ScanWordBytes(w);
  }

  /** The number of bytes in a list of words. */
  function TotalLength(ws: seq<seq<byte>>): nat
    decreases |ws|
  {
    if ws == [] then 0 else TotalLength(ws[..|ws| - 1]) + |ws[|ws| - 1]|
  }

  lemma {:induction false} TotalLengthAppend(a: seq<seq<byte>>, b: seq<seq<byte>>)
    ensures TotalLength(a + b) == TotalLength(a) + TotalLength(b)
    decreases |b|
  {
    if b == [] {
      assert a + b == a;
    } else {
      var init := b[..|b| - 1];
      TotalLengthAppend(a, init);
      assert (a + b)[..|a + b| - 1] == a + init;
    }
  }
}
