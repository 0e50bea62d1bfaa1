/** `QueryParser` of search/query_parser.h: splits a boolean query into
    tokens. Parentheses become term tokens "(" and ")"; a '-' followed by a
    word becomes a NOT token carrying that word; the words "and", "or" and
    "not" (in any ASCII case) become operators; every other word becomes a
    term. Words stop at a space or a parenthesis and at 255 bytes. */
module QueryParsers {
  import opened Base

  datatype QueryOperator = OpAnd | OpOr | OpNot | OpTerm

  datatype QueryToken = QueryToken(op: QueryOperator, term: seq<byte>)

  /** `char word[256]`: 255 bytes and the terminator. */
  const MAX_WORD: nat := 255

  /** The operator words, as the bytes of "and", "or" and "not". */
  const AND_WORD: seq<byte> := [97, 110, 100]
  const OR_WORD: seq<byte> := [111, 114]
  const NOT_WORD: seq<byte> := [110, 111, 116]

  predicate IsDelimiter(b: byte)
  {
    b == SPACE || b == LEFT_PAREN || b == RIGHT_PAREN
  }

  /** What `skip_spaces` leaves of `s`. */
  function DropSpaces(s: seq<byte>): (r: seq<byte>)
    ensures |r| <= |s| && r == s[|s| - |r|..]
    ensures r == [] || r[0] != SPACE
    decreases |s|
  {
    if s != [] && s[0] == SPACE then DropSpaces(s[1..]) else s
  }

  lemma DropSpacesIdempotent(s: seq<byte>)
    ensures DropSpaces(DropSpaces(s)) == DropSpaces(s)
  {
  }

  /** The length of the longest prefix of `s` holding no space or parenthesis. */
  function DelimiterFree(s: seq<byte>): (n: nat)
    ensures n <= |s|
    decreases |s|
  {
    if s == [] || IsDelimiter(s[0]) then 0 else 1 + DelimiterFree(s[1..])
  }

  lemma {:induction false} DelimiterFreeShape(s: seq<byte>)
    ensures forall k :: 0 <= k < DelimiterFree(s) ==> !IsDelimiter(s[k])
    ensures DelimiterFree(s) < |s| ==> IsDelimiter(s[DelimiterFree(s)])
    decreases |s|
  {
    if s != [] && !IsDelimiter(s[0]) {
      DelimiterFreeShape(s[1..]);
    }
  }

  /** The bytes the word loops copy from the front of `s`: up to 255 bytes,
      stopping before a space or a parenthesis. */
  function WordPrefix(s: seq<byte>): (r: seq<byte>)
    ensures IsPrefix(r, s) && |r| <= MAX_WORD
  {
    var n := DelimiterFree(s);
    if n <= MAX_WORD then s[..n] else s[..MAX_WORD]
  }

  /** The word stops only at a delimiter, at the end of `s` or at 255 bytes,
      and holds no delimiter. */
  lemma WordPrefixShape(s: seq<byte>)
    ensures forall k :: 0 <= k < |WordPrefix(s)| ==> !IsDelimiter(WordPrefix(s)[k])
    ensures |WordPrefix(s)| < MAX_WORD ==> |WordPrefix(s)| == |s| || IsDelimiter(s[|WordPrefix(s)|])
  {
    DelimiterFreeShape(s);
  }

  /** The token a plain word becomes once lowercased. */
  function Classify(word: seq<byte>): (t: QueryToken)
  {
    if word == AND_WORD then QueryToken(OpAnd, [])
    else if word == OR_WORD then QueryToken(OpOr, [])
    else if word == NOT_WORD then QueryToken(OpNot, [])
    else QueryToken(OpTerm, word)
  }

  /** One pass of the `parse` loop over `r`, which starts at a byte that is
      not a space: the token it emits and the input it leaves. */
  function NextToken(r: seq<byte>): (res: (QueryToken, seq<byte>))
    requires r != [] && r[0] != SPACE
    ensures |res.1| < |r| && res.1 == r[|r| - |res.1|..]
  {
    if r[0] == LEFT_PAREN || r[0] == RIGHT_PAREN then
      (QueryToken(OpTerm, [r[0]]), r[1..])
    else if r[0] == HYPHEN then
      var rest := DropSpaces(r[1..]);
      var w := WordPrefix(rest);
      (QueryToken(OpNot, LowerAscii(w)), rest[|w|..])
    else
      var w := WordPrefix(r);
      WordPrefixShape(r);
      assert |w| > 0;
      (Classify(LowerAscii(w)), r[|w|..])
  }

  /** The tokens `parse` produces from the rest `q` of the query. */
  function Lex(q: seq<byte>): seq<QueryToken>
    decreases |q|
  {
    var r := DropSpaces(q);
    if r == [] then [] else [NextToken(r).0] + Lex(NextToken(r).1)
  }

  lemma LexUnfold(r: seq<byte>)
    requires r != [] && r[0] != SPACE
    ensures Lex(r) == [NextToken(r).0] + Lex(NextToken(r).1)
  {
  }

  /** Emitting the next token of `r` keeps `tokens + Lex(rest)` fixed. */
  lemma LexStep(tokens: seq<QueryToken>, r: seq<byte>, t: QueryToken, rest: seq<byte>)
    requires r != [] && r[0] != SPACE && (t, rest) == NextToken(r)
    ensures (tokens + [t]) + Lex(rest) == tokens + Lex(r)
  {
    LexUnfold(r);
  }

  lemma Regroup(tokens: seq<QueryToken>, t: QueryToken, later: seq<QueryToken>)
    ensures (tokens + [t]) + later == tokens + ([t] + later)
  {
  }

  /** Nothing is left to lex at the end of the query. */
  lemma LexEmpty(q: seq<byte>)
    requires q == []
    ensures Lex(q) == []
  {
  }

  /** Leading spaces make no token. */
  lemma LexDropSpaces(q: seq<byte>)
    ensures Lex(DropSpaces(q)) == Lex(q)
  {
    DropSpacesIdempotent(q);
  }

  /** Every token consumes at least one byte of the query. */
  lemma {:induction false} LexLength(q: seq<byte>)
    ensures |Lex(q)| <= |q|
    decreases |q|
  {
    var r := DropSpaces(q);
    if r != [] {
      LexLength(NextToken(r).1);
    }
  }

  /** The shape of every token: a parenthesis token is alone in its term; any
      other term is at most 255 bytes, holds no space or parenthesis and no
      uppercase ASCII letter; a plain term is never empty (a NOT term may be);
      AND, OR and the word "not" carry no term. */
  predicate WellFormedToken(t: QueryToken)
  {
    match t.op
    case OpAnd => t.term == []
    case OpOr => t.term == []
    case OpNot => |t.term| <= MAX_WORD && TermBytes(t.term)
    case OpTerm =>
      t.term == [LEFT_PAREN] || t.term == [RIGHT_PAREN]
      || (0 < |t.term| <= MAX_WORD && TermBytes(t.term))
  }

  predicate TermBytes(w: seq<byte>)
  {
    forall k :: 0 <= k < |w| ==> !IsDelimiter(w[k]) && !IsAsciiUpper(w[k])
  }

  lemma NextTokenWellFormed(r: seq<byte>)
    requires r != [] && r[0] != SPACE
    ensures WellFormedToken(NextToken(r).0)
  {
    if r[0] != LEFT_PAREN && r[0] != RIGHT_PAREN {
      var s := if r[0] == HYPHEN then DropSpaces(r[1..]) else r;
      WordPrefixShape(s);
      var w := WordPrefix(s);
      assert TermBytes(LowerAscii(w));
    }
  }

  lemma {:induction false} LexWellFormed(q: seq<byte>)
    ensures forall i :: 0 <= i < |Lex(q)| ==> WellFormedToken(Lex(q)[i])
    decreases |q|
  {
    var r := DropSpaces(q);
    if r != [] {
      NextTokenWellFormed(r);
      LexWellFormed(NextToken(r).1);
    }
  }

  class QueryParser {
    /** The query as a C string: its bytes before the terminator. */
    const query: seq<byte>
    var pos: nat

    ghost predicate Valid()
      reads this
    {
      NoNul(query) && pos <= |query|
    }

    constructor (q: seq<byte>)
      requires NoNul(q)
      ensures Valid() && query == q && pos == 0
    {
      query := q;
      pos := 0;
    }

    /** `skip_spaces`. */
    method SkipSpaces()
      requires Valid()
      modifies this
      ensures Valid() && old(pos) <= pos
      ensures query[pos..] == DropSpaces(old(query[pos..]))
    {
      while pos < |query| && query[pos] == SPACE
        invariant Valid() && old(pos) <= pos
        invariant DropSpaces(query[pos..]) == DropSpaces(old(query[pos..]))
      {
        assert query[pos..][1..] == query[pos + 1..];
        pos := pos + 1;
      }
    }

    /** The copying loop of both word branches: at most 255 bytes up to a
        space or a parenthesis go into `buf`, which is then terminated and
        lowercased in place. */
    method ReadWord(buf: array<byte>) returns (len: nat)
      requires Valid() && buf.Length == MAX_WORD + 1
      modifies this, buf
      ensures Valid()
      ensures len == |WordPrefix(old(query[pos..]))| && pos == old(pos) + len
      ensures query[pos..] == old(query[pos..])[len..]
      ensures buf[..len] == LowerAscii(WordPrefix(old(query[pos..])))
    {
      ghost var w := WordPrefix(query[pos..]);
      WordPrefixShape(query[pos..]);
      var i := 0;
      while pos < |query| && !IsDelimiter(query[pos]) && i < MAX_WORD
        invariant Valid() && pos == old(pos) + i && i <= |w|
        invariant buf[..i] == w[..i]
      {
        assert query[pos] == old(query[pos..])[i];
        buf[i] := query[pos];
        i := i + 1;
        pos := pos + 1;
      }
      assert i == |w|;
      buf[i] := 0;
      assert buf[..i] == w;
      LowerCString(buf, i);
      len := i;
    }

    /** The '-' branch of the `parse` loop: the word after the '-' and any
        spaces, lowercased, as a NOT token. */
    method ParseNegation() returns (t: QueryToken)
      requires Valid() && pos < |query| && query[pos] == HYPHEN
      modifies this
      ensures Valid()
      ensures var rest := DropSpaces(old(query[pos + 1..]));
        t == QueryToken(OpNot, LowerAscii(WordPrefix(rest))) && query[pos..] == rest[|WordPrefix(rest)|..]
    {
      ghost var tail := query[pos + 1..];
      pos := pos + 1;
      SkipSpaces();
      ghost var rest := query[pos..];
      assert rest == DropSpaces(tail);
      t := ReadNotTerm();
      ghost var w := WordPrefix(rest);
      assert t == QueryToken(OpNot, LowerAscii(w)) && query[pos..] == rest[|w|..];
    }

    /** The word after '-' as the term of a NOT token. */
    method ReadNotTerm() returns (t: QueryToken)
      requires Valid()
      modifies this
      ensures Valid()
      ensures var w := WordPrefix(old(query[pos..]));
        t == QueryToken(OpNot, LowerAscii(w)) && query[pos..] == old(query[pos..])[|w|..]
    {
      var termBuf := new byte[MAX_WORD + 1];
      var len := ReadWord(termBuf);
      t := QueryToken(OpNot, termBuf[..len]);
    }

    /** The word branch of the `parse` loop: the lowercased word is an
        operator when it is "and", "or" or "not", and a term otherwise. */
    method ParseWord() returns (t: QueryToken)
      requires Valid() && pos < |query| && !IsDelimiter(query[pos]) && query[pos] != HYPHEN
      modifies this
      ensures Valid()
      ensures (t, query[pos..]) == NextToken(old(query[pos..]))
    {
      ghost var r := query[pos..];
      var word := new byte[MAX_WORD + 1];
      var len := ReadWord(word);
      var lowered := word[..len];
      if lowered == AND_WORD {
        t := QueryToken(OpAnd, []);
      } else if lowered == OR_WORD {
        t := QueryToken(OpOr, []);
      } else if lowered == NOT_WORD {
        t := QueryToken(OpNot, []);
      } else {
        t := QueryToken(OpTerm, lowered);
      }
    }

    /** One pass of the `parse` loop, from a byte that is not a space: a
        parenthesis token, a NOT token with the word after '-', or the token
        of a plain word. */
    method ParseToken() returns (t: QueryToken)
      requires Valid() && pos < |query| && query[pos] != SPACE
      modifies this
      ensures Valid()
      ensures (t, query[pos..]) == NextToken(old(query[pos..]))
    {
      if query[pos] == LEFT_PAREN || query[pos] == RIGHT_PAREN {
        ghost var r := query[pos..];
        t := QueryToken(OpTerm, [query[pos]]);
        assert r[1..] == query[pos + 1..];
        pos := pos + 1;
      } else if query[pos] == HYPHEN {
        ghost var r := query[pos..];
        assert r[1..] == query[pos + 1..];
        t := ParseNegation();
      } else {
        t := ParseWord();
      }
    }

    /** One turn of the `parse` loop: skip spaces, then read one token, or
        nothing when the query is used up. */
    method ParseStep() returns (t: Option<QueryToken>)
      requires Valid() && pos < |query|
      modifies this
      ensures Valid() && old(pos) < pos
      ensures t.None? ==> pos == |query| && Lex(old(query[pos..])) == []
      ensures t.Some? ==> Lex(old(query[pos..])) == [t.value] + Lex(query[pos..])
    {
      ghost var before := query[pos..];
      LexDropSpaces(before);
      SkipSpaces();
      if pos >= |query| {
        assert query[pos..] == [];
        return None;
      }
      ghost var r := query[pos..];
      var token := ParseToken();
      LexStep([], r, token, query[pos..]);
      t := Some(token);
    }

    /** `parse`: the tokens of the rest of the query. */
    method Parse() returns (tokens: seq<QueryToken>)
      requires Valid()
      modifies this
      ensures Valid()
      ensures tokens == Lex(old(query[pos..]))
    {
      ghost var q0 := query[pos..];
      tokens := [];
      LexDropSpaces(q0);
      SkipSpaces();
      while pos < |query|
        invariant Valid()
        invariant tokens + Lex(query[pos..]) == Lex(q0)
        decreases |query| - pos
      {
        ghost var later := Lex(query[pos..]);
        var t := ParseStep();
        if t.None? {
          assert later == [];
          return;
        }
        Regroup(tokens, t.value, Lex(query[pos..]));
        tokens := tokens + [t.value];
      }
      LexEmpty(query[pos..]);
    }
  }
}
