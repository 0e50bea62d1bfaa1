/** The term-frequency counter of zipf/frequency.cpp: a chained hash table of
    131072 buckets keyed by the djb2 hash of the term, each node holding a
    term and how often it was added, and the bubble sort that ranks the
    nodes by count. Terms are C strings, here NUL-free byte sequences; a
    null pointer is `None`. A chain is the sequence of its nodes from the
    bucket's head, so nodes are values and their addresses are not modelled. */
module Frequencies {
  import opened Base

  const TABLE_SIZE: nat := 131072
  const HASH_SEED: nat := 5381
  /** `size_t` arithmetic is modulo 2^64. */
  const WORD: nat := 0x1_0000_0000_0000_0000

  /** `int c = *s` sign-extends a `char` (signed on the usual targets). */
  function SignedChar(b: byte): (c: int)
    ensures -128 <= c < 128
    ensures c % 256 == b
  {
    if b < 128 then b else b - 256
  }

  /** One djb2 round, `((h << 5) + h) + c` in `size_t`. */
  function Djb2Step(h: nat, b: byte): (r: nat)
    ensures r < WORD
    ensures r == (h * 33 + SignedChar(b)) % WORD
  {
    (h * 33 + SignedChar(b)) % WORD
  }

  /** The full djb2 hash of a term, before the reduction to a bucket. */
  function Djb2(s: seq<byte>): (r: nat)
    decreases |s|
  {
    if s == [] then HASH_SEED else Djb2Step(Djb2(s[..|s| - 1]), s[|s| - 1])
  }

  /** The bucket a term lives in. */
  function Bucket(s: seq<byte>): (r: nat)
    ensures r < TABLE_SIZE
  {
    Djb2(s) % TABLE_SIZE
  }

  /** The same hash kept modulo the table size at every round: since 2^17
      divides 2^64, only the low 17 bits of the running hash ever matter. */
  function Djb2Low(s: seq<byte>): (r: nat)
    decreases |s|
  {
    if s == [] then HASH_SEED % TABLE_SIZE
    else (Djb2Low(s[..|s| - 1]) * 33 + SignedChar(s[|s| - 1])) % TABLE_SIZE
  }

  lemma ModOfMod(x: int)
    ensures (x % WORD) % TABLE_SIZE == x % TABLE_SIZE
  {
    var q := x / WORD;
    assert x == q * WORD + x % WORD;
    assert q * WORD == (q * 0x8000_0000_0000) * TABLE_SIZE;
  }

  lemma MulMod(h: int, c: int)
    ensures (h * 33 + c) % TABLE_SIZE == ((h % TABLE_SIZE) * 33 + c) % TABLE_SIZE
  {
    var q := h / TABLE_SIZE;
    assert h == q * TABLE_SIZE + h % TABLE_SIZE;
    assert h * 33 + c == (q * 33) * TABLE_SIZE + ((h % TABLE_SIZE) * 33 + c);
  }

  /** The bucket can be computed with a 17-bit accumulator. */
  lemma {:induction false} BucketIsLowHash(s: seq<byte>)
    ensures Bucket(s) == Djb2Low(s)
    decreases |s|
  {
    if s != [] {
      var init := s[..|s| - 1];
      var c := SignedChar(s[|s| - 1]);
      BucketIsLowHash(init);
      ModOfMod(Djb2(init) * 33 + c);
      MulMod(Djb2(init), c);
    }
  }

  /** `hash`: the djb2 loop over the term, reduced to a bucket. */
  method Hash(term: seq<byte>) returns (index: nat)
    ensures index == Bucket(term)
  {
    var h := HASH_SEED;
    var i := 0;
    while i < |term|
      invariant i <= |term|
      invariant h == Djb2(term[..i])
    {
      assert term[..i + 1][..i] == term[..i];
      h := Djb2Step(h, term[i]);
      i := i + 1;
    }
    assert term[..i] == term;
    index := h % TABLE_SIZE;
  }

  /** The byte a C string holds at `i`: its terminator past the end. */
  function CharAt(s: seq<byte>, i: nat): byte
  {
    if i < |s| then s[i] else 0
  }

  /** `my_strcmp`: walks both strings while they agree and compares the
      bytes where the walk stopped. */
  method SameTerm(s1: seq<byte>, s2: seq<byte>) returns (eq: bool)
    requires NoNul(s1) && NoNul(s2)
    ensures eq <==> s1 == s2
  {
    var i := 0;
    while CharAt(s1, i) != 0 && CharAt(s1, i) == CharAt(s2, i)
      invariant i <= |s1| && i <= |s2|
      invariant s1[..i] == s2[..i]
      decreases |s1| - i
    {
      i := i + 1;
    }
    eq := CharAt(s1, i) == CharAt(s2, i);
    if i < |s1| && i < |s2| {
      assert s1[i] != s2[i] ==> s1 != s2;
    } else if i < |s1| {
      assert s1[i] != 0;
    } else if i < |s2| {
      assert s2[i] != 0;
    } else {
      assert s1 == s1[..i] && s2 == s2[..i];
    }
  }

  datatype Node = Node(term: seq<byte>, count: nat)

  /** A well-formed chain of bucket `b`: non-empty NUL-free terms that hash
      to `b`, each counted at least once, no term twice. */
  ghost predicate ChainOk(chain: seq<Node>, b: nat)
  {
    && (forall k :: 0 <= k < |chain| ==>
          chain[k].term != [] && NoNul(chain[k].term) && Bucket(chain[k].term) == b && chain[k].count > 0)
    && (forall k, l :: 0 <= k < l < |chain| ==> chain[k].term != chain[l].term)
  }

  /** How often `t` was counted in a chain: the first node with that term. */
  function CountIn(chain: seq<Node>, t: seq<byte>): nat
  {
    if chain == [] then 0
    else if chain[0].term == t then chain[0].count
    else CountIn(chain[1..], t)
  }

  /** The nodes of all chains, bucket by bucket, each chain from its head:
      the order in which `sort_and_save` collects them. */
  function Flat(chains: seq<seq<Node>>): seq<Node>
  {
    if chains == [] then [] else Flat(chains[..|chains| - 1]) + chains[|chains| - 1]
  }

  function CountSum(chain: seq<Node>): nat
  {
    if chain == [] then 0 else chain[0].count + CountSum(chain[1..])
  }

  /** The sum of all counts in all chains. */
  function CountTotal(chains: seq<seq<Node>>): nat
  {
    if chains == [] then 0 else CountTotal(chains[..|chains| - 1]) + CountSum(chains[|chains| - 1])
  }

  /** Replacing one chain changes the node total and the count total by the
      difference between the two chains only. */
  lemma {:induction false} ReplaceChain(chains: seq<seq<Node>>, b: nat, c: seq<Node>)
    requires b < |chains|
    ensures |Flat(chains[b := c])| + |chains[b]| == |Flat(chains)| + |c|
    ensures CountTotal(chains[b := c]) + CountSum(chains[b]) == CountTotal(chains) + CountSum(c)
    decreases |chains|
  {
    var n := |chains|;
    var d := chains[b := c];
    if b == n - 1 {
      assert d[..n - 1] == chains[..n - 1];
    } else {
      assert d[..n - 1] == chains[..n - 1][b := c];
      ReplaceChain(chains[..n - 1], b, c);
    }
  }

  /** Counting one more occurrence in a node adds one to the chain's sum. */
  lemma {:induction false} BumpCountSum(chain: seq<Node>, k: nat)
    requires k < |chain|
    ensures CountSum(chain[k := Node(chain[k].term, chain[k].count + 1)]) == CountSum(chain) + 1
    decreases k
  {
    var c := chain[k := Node(chain[k].term, chain[k].count + 1)];
    if k > 0 {
      assert c[1..] == chain[1..][k - 1 := Node(chain[k].term, chain[k].count + 1)];
      BumpCountSum(chain[1..], k - 1);
    }
  }

  /** Bumping the node at `k` adds one to its term's count and no other. */
  lemma {:induction false} BumpCountIn(chain: seq<Node>, k: nat, t: seq<byte>)
    requires k < |chain|
    requires forall l :: 0 <= l < k ==> chain[l].term != chain[k].term
    ensures CountIn(chain[k := Node(chain[k].term, chain[k].count + 1)], t)
         == CountIn(chain, t) + (if t == chain[k].term then 1 else 0)
    ensures CountIn(chain, chain[k].term) == chain[k].count
    decreases k
  {
    var c := chain[k := Node(chain[k].term, chain[k].count + 1)];
    if k > 0 {
      assert c[1..] == chain[1..][k - 1 := Node(chain[k].term, chain[k].count + 1)];
      BumpCountIn(chain[1..], k - 1, t);
    }
  }

  /** A term no node holds has count zero. */
  lemma {:induction false} AbsentCountIn(chain: seq<Node>, t: seq<byte>)
    requires forall l :: 0 <= l < |chain| ==> chain[l].term != t
    ensures CountIn(chain, t) == 0
    decreases |chain|
  {
    if chain != [] {
      AbsentCountIn(chain[1..], t);
    }
  }

  /** A term's count is positive exactly when a node of the chain holds it. */
  lemma {:induction false} CountInPositive(chain: seq<Node>, b: nat, t: seq<byte>)
    requires ChainOk(chain, b)
    ensures CountIn(chain, t) > 0 <==> exists k :: 0 <= k < |chain| && chain[k].term == t
    decreases |chain|
  {
    if chain != [] {
      assert ChainOk(chain[1..], b) by {
        forall k, l | 0 <= k < l < |chain[1..]|
          ensures chain[1..][k].term != chain[1..][l].term
        {
          assert chain[1..][k] == chain[k + 1] && chain[1..][l] == chain[l + 1];
        }
      }
      CountInPositive(chain[1..], b, t);
      if exists k :: 0 <= k < |chain[1..]| && chain[1..][k].term == t {
        var k :| 0 <= k < |chain[1..]| && chain[1..][k].term == t;
        assert chain[k + 1].term == t;
      }
      if exists k :: 0 <= k < |chain| && chain[k].term == t {
        var k :| 0 <= k < |chain| && chain[k].term == t;
        if k > 0 {
          assert chain[1..][k - 1].term == t;
        }
      }
    }
  }

  /** Every node collected from the first `|chains|` buckets sits in the
      bucket its term hashes to. */
  lemma {:induction false} FlatBuckets(chains: seq<seq<Node>>)
    requires forall b :: 0 <= b < |chains| ==> ChainOk(chains[b], b)
    ensures forall x :: x in Flat(chains) ==> Bucket(x.term) < |chains| && x in chains[Bucket(x.term)]
    decreases |chains|
  {
    if chains != [] {
      var n := |chains|;
      FlatBuckets(chains[..n - 1]);
      forall x | x in Flat(chains)
        ensures Bucket(x.term) < n && x in chains[Bucket(x.term)]
      {
        if x in chains[n - 1] {
          var k :| 0 <= k < |chains[n - 1]| && chains[n - 1][k] == x;
        }
      }
    }
  }

  /** No term appears in two nodes of the whole table. */
  lemma {:induction false} FlatDistinct(chains: seq<seq<Node>>)
    requires forall b :: 0 <= b < |chains| ==> ChainOk(chains[b], b)
    ensures forall i, j :: 0 <= i < j < |Flat(chains)| ==> Flat(chains)[i].term != Flat(chains)[j].term
    decreases |chains|
  {
    if chains != [] {
      var n := |chains|;
      var init := chains[..n - 1];
      var last := chains[n - 1];
      FlatDistinct(init);
      FlatBuckets(init);
      var f := Flat(chains);
      assert f == Flat(init) + last;
      forall i, j | 0 <= i < j < |f|
        ensures f[i].term != f[j].term
      {
        var m := |Flat(init)|;
        if j < m {
          assert f[i] == Flat(init)[i] && f[j] == Flat(init)[j];
        } else if i < m {
          assert f[i] == Flat(init)[i] && f[i] in Flat(init);
          assert f[j] == last[j - m];
          assert Bucket(f[j].term) == n - 1;
        } else {
          assert f[i] == last[i - m] && f[j] == last[j - m];
        }
      }
    }
  }

  /** The first `i` chains' nodes fit in the whole table's. */
  lemma {:induction false} FlatPrefix(chains: seq<seq<Node>>, i: nat)
    requires i < |chains|
    ensures |Flat(chains[..i])| + |chains[i]| <= |Flat(chains)|
    decreases |chains|
  {
    var n := |chains|;
    assert chains[..n] == chains;
    if i < n - 1 {
      assert chains[..n - 1][..i] == chains[..i];
      FlatPrefix(chains[..n - 1], i);
      assert Flat(chains[..n - 1][..i + 1]) == Flat(chains[..i]) + chains[i] by {
        assert chains[..n - 1][..i + 1] == chains[..i + 1];
        assert chains[..i + 1][..i] == chains[..i];
      }
      FlatLengthGrows(chains[..n - 1], i + 1);
    } else {
      assert chains[..i] == chains[..n - 1];
    }
  }

  lemma {:induction false} FlatLengthGrows(chains: seq<seq<Node>>, i: nat)
    requires i <= |chains|
    ensures |Flat(chains[..i])| <= |Flat(chains)|
    decreases |chains|
  {
    var n := |chains|;
    if i < n {
      assert chains[..n - 1][..i] == chains[..i];
      FlatLengthGrows(chains[..n - 1], i);
    } else {
      assert chains[..i] == chains;
    }
  }

  predicate NonIncreasing(s: seq<Node>)
  {
    forall p, q :: 0 <= p < q < |s| ==> s[p].count >= s[q].count
  }

  method Swap(a: array<Node>, i: nat, j: nat)
    requires i < a.Length && j < a.Length
    modifies a
    ensures a[i] == old(a[j]) && a[j] == old(a[i])
    ensures forall k :: 0 <= k < a.Length && k != i && k != j ==> a[k] == old(a[k])
    ensures multiset(a[..]) == old(multiset(a[..]))
  {
    var t := a[i];
    a[i] := a[j];
    a[j] := t;
  }

  /** The bubble sort of `sort_and_save`: rounds of adjacent swaps that move
      a smaller count behind a larger one. Its bounds `unique_count - 1` and
      `unique_count - i - 1` are `size_t`; on an empty list the inner bound
      wraps around to 2^64 - 1 and the first comparison reads past the end,
      so the list must be non-empty. */
  method BubbleSort(a: array<Node>)
    requires a.Length > 0
    modifies a
    ensures NonIncreasing(a[..])
    ensures multiset(a[..]) == old(multiset(a[..]))
  {
    var n := a.Length;
    var i := 0;
    while i < n - 1
      invariant i <= n - 1
      invariant forall p, q :: 0 <= p < n - i <= q < n ==> a[p].count >= a[q].count
      invariant forall p, q :: n - i <= p < q < n ==> a[p].count >= a[q].count
      invariant multiset(a[..]) == old(multiset(a[..]))
    {
      BubblePass(a, n - i);
      i := i + 1;
    }
  }

  /** One round of the bubble sort over `a[..m]`: it sinks a smallest count
      of the prefix to `a[m - 1]` and leaves the rest of the array alone. */
  method BubblePass(a: array<Node>, m: nat)
    requires 1 <= m <= a.Length
    requires forall p, q :: 0 <= p < m <= q < a.Length ==> a[p].count >= a[q].count
    modifies a
    ensures forall p, q :: 0 <= p < m <= q < a.Length ==> a[p].count >= a[q].count
    ensures forall p :: 0 <= p < m - 1 ==> a[p].count >= a[m - 1].count
    ensures forall q :: m <= q < a.Length ==> a[q] == old(a[q])
    ensures multiset(a[..]) == old(multiset(a[..]))
  {
    var j := 0;
    while j < m - 1
      invariant j <= m - 1
      invariant forall p :: 0 <= p < j ==> a[p].count >= a[j].count
      invariant forall p, q :: 0 <= p < m <= q < a.Length ==> a[p].count >= a[q].count
      invariant forall q :: m <= q < a.Length ==> a[q] == old(a[q])
      invariant multiset(a[..]) == old(multiset(a[..]))
    {
      if a[j].count < a[j + 1].count {
        Swap(a, j, j + 1);
      }
      j := j + 1;
    }
  }

  /** Where a term sits in a chain, walked from its head as `add` does. */
  method Locate(chain: seq<Node>, term: seq<byte>) returns (found: bool, k: nat)
    requires forall l :: 0 <= l < |chain| ==> NoNul(chain[l].term)
    requires NoNul(term)
    ensures found ==> k < |chain| && chain[k].term == term
    ensures found ==> forall l :: 0 <= l < k ==> chain[l].term != term
    ensures !found ==> forall l :: 0 <= l < |chain| ==> chain[l].term != term
  {
    k := 0;
    while k < |chain|
      invariant k <= |chain|
      invariant forall l :: 0 <= l < k ==> chain[l].term != term
    {
      var same := SameTerm(chain[k].term, term);
      if same {
        return true, k;
      }
      k := k + 1;
    }
    found := false;
  }

  class FrequencyCounter {
    const table: array<seq<Node>>
    var unique: nat
    var total: nat

    /** Every chain well formed and `unique_count` the number of nodes. */
    ghost predicate Shaped()
      reads this, table
    {
      && table.Length == TABLE_SIZE
      && (forall b :: 0 <= b < TABLE_SIZE ==> ChainOk(table[b], b))
      && unique == |Flat(table[..])|
    }

    /** ... and `total_tokens` the sum of all counts. */
    ghost predicate Valid()
      reads this, table
    {
      Shaped() && total == CountTotal(table[..])
    }

    /** How many times `t` has been added. */
    ghost function Freq(t: seq<byte>): nat
      reads table
      requires table.Length == TABLE_SIZE
    {
      CountIn(table[Bucket(t)], t)
    }

    constructor ()
      ensures Valid() && unique == 0 && total == 0
      ensures forall t :: Freq(t) == 0
    {
      table := new seq<Node>[TABLE_SIZE];
      unique := 0;
      total := 0;
      new;
      var i := 0;
      while i < TABLE_SIZE
        invariant i <= TABLE_SIZE
        invariant forall b :: 0 <= b < i ==> table[b] == []
        modifies table
      {
        table[i] := [];
        i := i + 1;
      }
      EmptyTable(table[..]);
    }

    /** `add`: a null or empty term is ignored; otherwise the token total
        grows by one, and the term's node is bumped if it has one or a new
        node with count 1 is pushed at the head of its chain. */
    method Add(term: Option<seq<byte>>)
      requires Valid()
      requires term.Some? ==> NoNul(term.value)
      modifies this, table
      ensures Valid()
      ensures term.None? || term.value == [] ==>
        unchanged(table) && unique == old(unique) && total == old(total)
      ensures term.Some? && term.value != [] ==>
        var t, h := term.value, Bucket(term.value);
        && total == old(total) + 1
        && (forall s :: Freq(s) == old(Freq(s)) + if s == t then 1 else 0)
        && (forall b :: 0 <= b < TABLE_SIZE && b != h ==> table[b] == old(table[b]))
        && (old(Freq(t)) == 0 ==> table[h] == [Node(t, 1)] + old(table[h]) && unique == old(unique) + 1)
        && (old(Freq(t)) > 0 ==>
              && unique == old(unique)
              && |table[h]| == |old(table[h])|
              && forall l :: 0 <= l < |table[h]| ==>
                   && table[h][l].term == old(table[h][l].term)
                   && table[h][l].count == old(table[h][l].count) + if table[h][l].term == t then 1 else 0)
    {
      if term.None? || term.value == [] {
        return;
      }
      var t := term.value;
      var h := Hash(t);
      var found, k := Locate(table[h], t);
      if found {
        Bump(h, k);
      } else {
        Push(h, t);
      }
      total := total + 1;
    }

    /** Counts one more occurrence of the term of node `k` of chain `h`,
        the first node of that chain with its term. */
    method Bump(h: nat, k: nat)
      requires Shaped() && h < TABLE_SIZE && k < |table[h]|
      requires forall l :: 0 <= l < k ==> table[h][l].term != table[h][k].term
      modifies table
      ensures Shaped()
      ensures CountTotal(table[..]) == old(CountTotal(table[..])) + 1
      ensures forall b :: 0 <= b < TABLE_SIZE && b != h ==> table[b] == old(table[b])
      ensures var t := old(table[h][k].term);
        && old(Freq(t)) > 0
        && (forall s :: Freq(s) == old(Freq(s)) + if s == t then 1 else 0)
        && |table[h]| == |old(table[h])|
        && forall l :: 0 <= l < |table[h]| ==>
             && table[h][l].term == old(table[h][l].term)
             && table[h][l].count == old(table[h][l].count) + if table[h][l].term == t then 1 else 0
    {
      var chain := table[h];
      var next := chain[k := Node(chain[k].term, chain[k].count + 1)];
      BumpFacts(chain, h, k);
      UpdateTable(table[..], h, next, chain[k].term);
      table[h] := next;
      assert table[..] == old(table[..])[h := next];
    }

    /** Pushes a node with count 1 for a term its chain lacks. */
    method Push(h: nat, t: seq<byte>)
      requires Shaped() && h < TABLE_SIZE
      requires t != [] && NoNul(t) && Bucket(t) == h
      requires forall l :: 0 <= l < |table[h]| ==> table[h][l].term != t
      modifies this, table
      ensures Shaped() && total == old(total)
      ensures unique == old(unique) + 1
      ensures CountTotal(table[..]) == old(CountTotal(table[..])) + 1
      ensures forall b :: 0 <= b < TABLE_SIZE && b != h ==> table[b] == old(table[b])
      ensures table[h] == [Node(t, 1)] + old(table[h])
      ensures old(Freq(t)) == 0
      ensures forall s :: Freq(s) == old(Freq(s)) + if s == t then 1 else 0
    {
      var chain := table[h];
      var next := [Node(t, 1)] + chain;
      PushFacts(chain, h, t);
      UpdateTable(table[..], h, next, t);
      table[h] := next;
      unique := unique + 1;
      assert table[..] == old(table[..])[h := next];
    }

    /** The nodes of the table collected into a fresh array, bucket by
        bucket and each chain from its head. */
    method Collect() returns (flat: array<Node>)
      requires Valid()
      ensures fresh(flat) && flat[..] == Flat(table[..])
    {
      flat := new Node[unique];
      var idx := 0;
      var i := 0;
      while i < TABLE_SIZE
        invariant i <= TABLE_SIZE
        invariant idx == |Flat(table[..i])| <= flat.Length
        invariant flat[..idx] == Flat(table[..i])
      {
        FlatPrefix(table[..], i);
        CopyChain(flat, idx, table[i]);
        idx := idx + |table[i]|;
        assert table[..i + 1][..i] == table[..i];
        i := i + 1;
      }
      assert table[..i] == table[..];
      assert flat[..] == flat[..idx];
    }

    /** The inner walk of the collection: one chain's nodes stored from
        `flat[idx]` on. */
    static method CopyChain(flat: array<Node>, idx: nat, chain: seq<Node>)
      requires idx + |chain| <= flat.Length
      modifies flat
      ensures flat[..idx + |chain|] == old(flat[..idx]) + chain
    {
      var k := 0;
      while k < |chain|
        invariant k <= |chain|
        invariant flat[..idx + k] == old(flat[..idx]) + chain[..k]
      {
        flat[idx + k] := chain[k];
        assert chain[..k + 1] == chain[..k] + [chain[k]];
        k := k + 1;
      }
      assert chain[..k] == chain;
    }

    /** The sort part of `sort_and_save`: every node once, by count from the
        largest down. The table must hold at least one term. */
    method Ranked() returns (ranked: seq<Node>)
      requires Valid() && unique > 0
      ensures |ranked| == unique
      ensures NonIncreasing(ranked)
      ensures multiset(ranked) == multiset(Flat(table[..]))
    {
      var flat := Collect();
      BubbleSort(flat);
      ranked := flat[..];
    }

    method GetUnique() returns (n: nat)
      requires Valid()
      ensures n == |Flat(table[..])|
    {
      n := unique;
    }

    method GetTotal() returns (n: nat)
      requires Valid()
      ensures n == CountTotal(table[..])
    {
      n := total;
    }
  }

  /** An all-empty table is well formed, holds no node and no count. */
  lemma {:induction false} EmptyTable(chains: seq<seq<Node>>)
    requires forall b :: 0 <= b < |chains| ==> chains[b] == []
    ensures forall b :: 0 <= b < |chains| ==> ChainOk(chains[b], b)
    ensures Flat(chains) == [] && CountTotal(chains) == 0
    decreases |chains|
  {
    if chains != [] {
      EmptyTable(chains[..|chains| - 1]);
    }
  }

  /** Bumping the node of term `chain[k].term`, the first with that term,
      keeps the chain well formed, adds one to the chain's sum and to that
      term's count, and changes no other count. */
  lemma BumpFacts(chain: seq<Node>, h: nat, k: nat)
    requires ChainOk(chain, h) && k < |chain|
    requires forall l :: 0 <= l < k ==> chain[l].term != chain[k].term
    ensures var next := chain[k := Node(chain[k].term, chain[k].count + 1)];
      && ChainOk(next, h) && |next| == |chain|
      && CountSum(next) == CountSum(chain) + 1
      && CountIn(chain, chain[k].term) > 0
      && forall s :: CountIn(next, s) == CountIn(chain, s) + if s == chain[k].term then 1 else 0
  {
    var next := chain[k := Node(chain[k].term, chain[k].count + 1)];
    assert forall l :: 0 <= l < |next| ==> next[l].term == chain[l].term && next[l].count >= chain[l].count;
    BumpCountSum(chain, k);
    BumpCountIn(chain, k, chain[k].term);
    forall s ensures CountIn(next, s) == CountIn(chain, s) + if s == chain[k].term then 1 else 0 {
      BumpCountIn(chain, k, s);
    }
  }

  /** Pushing a node for a term the chain lacks keeps it well formed, adds
      one to the chain's sum and to that term's count, and changes no other
      count. */
  lemma PushFacts(chain: seq<Node>, h: nat, t: seq<byte>)
    requires ChainOk(chain, h)
    requires t != [] && NoNul(t) && Bucket(t) == h
    requires forall l :: 0 <= l < |chain| ==> chain[l].term != t
    ensures var next := [Node(t, 1)] + chain;
      && ChainOk(next, h)
      && CountSum(next) == CountSum(chain) + 1
      && CountIn(chain, t) == 0
      && forall s :: CountIn(next, s) == CountIn(chain, s) + if s == t then 1 else 0
  {
    var next := [Node(t, 1)] + chain;
    assert next[1..] == chain;
    forall k, l | 0 <= k < l < |next|
      ensures next[k].term != next[l].term
    {
      assert next[l] == chain[l - 1];
      if k > 0 {
        assert next[k] == chain[k - 1];
      }
    }
    AbsentCountIn(chain, t);
  }

  /** Installing a chain that counts `t` once more, in `t`'s bucket, keeps
      every chain well formed and adds one to `t`'s count and nothing to any
      other's. */
  lemma UpdateTable(chains: seq<seq<Node>>, h: nat, next: seq<Node>, t: seq<byte>)
    requires |chains| == TABLE_SIZE && h < TABLE_SIZE && Bucket(t) == h
    requires forall b :: 0 <= b < TABLE_SIZE ==> ChainOk(chains[b], b)
    requires ChainOk(next, h)
    requires forall s :: CountIn(next, s) == CountIn(chains[h], s) + if s == t then 1 else 0
    ensures var d := chains[h := next];
      && (forall b :: 0 <= b < TABLE_SIZE ==> ChainOk(d[b], b))
      && (forall s :: CountIn(d[Bucket(s)], s) == CountIn(chains[Bucket(s)], s) + if s == t then 1 else 0)
      && |Flat(d)| + |chains[h]| == |Flat(chains)| + |next|
      && CountTotal(d) + CountSum(chains[h]) == CountTotal(chains) + CountSum(next)
  {
    ReplaceChain(chains, h, next);
  }

  /** The meaning of the table: every collected node carries its term's
      count, and a term has a positive count exactly when a node holds it. */
  lemma FlatIsFrequencies(c: FrequencyCounter, t: seq<byte>)
    requires c.Valid()
    ensures c.Freq(t) > 0 <==> exists x :: x in Flat(c.table[..]) && x.term == t
    ensures forall x :: x in Flat(c.table[..]) ==> c.Freq(x.term) == x.count
  {
    var chains := c.table[..];
    var h := Bucket(t);
    CountInPositive(chains[h], h, t);
    FlatBuckets(chains);
    if c.Freq(t) > 0 {
      var k :| 0 <= k < |chains[h]| && chains[h][k].term == t;
      FlatHolds(chains, h, chains[h][k]);
    }
    forall x | x in Flat(chains)
      ensures c.Freq(x.term) == x.count
    {
      var b := Bucket(x.term);
      var k :| 0 <= k < |chains[b]| && chains[b][k] == x;
      BumpCountIn(chains[b], k, x.term);
    }
  }

  lemma {:induction false} CountSumAppend(a: seq<Node>, b: seq<Node>)
    ensures CountSum(a + b) == CountSum(a) + CountSum(b)
    decreases |a|
  {
    if a == [] {
      assert a + b == b;
    } else {
      assert (a + b)[1..] == a[1..] + b;
      CountSumAppend(a[1..], b);
    }
  }

  /** The counts of all nodes add up to the table's count total, which a
      valid counter keeps equal to `total_tokens`. */
  lemma {:induction false} FlatCountSum(chains: seq<seq<Node>>)
    ensures CountSum(Flat(chains)) == CountTotal(chains)
    decreases |chains|
  {
    if chains != [] {
      FlatCountSum(chains[..|chains| - 1]);
      CountSumAppend(Flat(chains[..|chains| - 1]), chains[|chains| - 1]);
    }
  }

  lemma {:induction false} FlatHolds(chains: seq<seq<Node>>, b: nat, x: Node)
    requires b < |chains| && x in chains[b]
    ensures x in Flat(chains)
    decreases |chains|
  {
    if b < |chains| - 1 {
      assert chains[..|chains| - 1][b] == chains[b];
      FlatHolds(chains[..|chains| - 1], b, x);
    }
  }
}
