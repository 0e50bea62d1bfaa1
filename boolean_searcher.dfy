/** `BooleanSearcher` of search/boolean_searcher.h: parses a query and
    evaluates its tokens recursively against a `BooleanIndex`. The evaluator
    reads one operand (a parenthesised group, a prefix NOT with the term after
    it, or a term), then loops over infix AND, OR and NOT, each of whose right
    operand is a recursive evaluation that runs to the end of the tokens or to
    a ")". `Eval` and `EvalLoop` specify it over the index's posting lists `m`
    and its next document id `n`. */
module BooleanSearchers {
  import opened Base
  import opened PostingLists
  import opened BooleanIndexes
  import opened QueryParsers

  /** The ids an evaluation found and the token position it stopped at. */
  datatype Outcome = Outcome(ids: seq<nat>, next: nat)

  const OPEN: seq<byte> := [LEFT_PAREN]
  const CLOSE: seq<byte> := [RIGHT_PAREN]

  /** A term token that is not a parenthesis: what a prefix NOT applies to. */
  predicate IsPlainTerm(t: QueryToken)
  {
    t.op == OpTerm && t.term != OPEN && t.term != CLOSE
  }

  /** `evaluate_tokens` from `pos`. */
  function Eval(m: map<seq<byte>, seq<nat>>, n: nat, toks: seq<QueryToken>, pos: nat): (r: Outcome)
    requires pos <= |toks|
    ensures pos <= r.next <= |toks|
    ensures pos < |toks| ==> pos < r.next
    ensures AllAscending(m) ==> Ascending(r.ids)
    decreases |toks| - pos, 1
  {
    if pos == |toks| then Outcome([], pos)
    else if toks[pos].op == OpTerm && toks[pos].term == OPEN then
      var inner := Eval(m, n, toks, pos + 1);
      if inner.next < |toks| && toks[inner.next].term == CLOSE then Outcome(inner.ids, inner.next + 1)
      else inner
    else if toks[pos].op == OpNot then
      if pos + 1 < |toks| && IsPlainTerm(toks[pos + 1]) then
        Outcome(Complement(PostingOf(m, toks[pos + 1].term), n), pos + 2)
      else Outcome([], pos + 1)
    else if toks[pos].op == OpTerm then
      EvalLoop(m, n, toks, pos + 1, PostingOf(m, toks[pos].term))
    else
      EvalLoop(m, n, toks, pos, [])
  }

  /** The `while` loop of `evaluate_tokens` from `pos`, with `result` the
      ids found so far. It stops only at the end of the tokens or at a ")"
      term, which it leaves for the caller. */
  function EvalLoop(m: map<seq<byte>, seq<nat>>, n: nat, toks: seq<QueryToken>, pos: nat, result: seq<nat>): (r: Outcome)
    requires pos <= |toks|
    ensures pos <= r.next <= |toks|
    ensures r.next < |toks| ==> toks[r.next] == QueryToken(OpTerm, CLOSE)
    ensures pos < |toks| && toks[pos] != QueryToken(OpTerm, CLOSE) ==> pos < r.next
    ensures AllAscending(m) && Ascending(result) ==> Ascending(r.ids)
    decreases |toks| - pos, 0
  {
    if pos == |toks| then Outcome(result, pos)
    else if IsConnective(toks[pos].op) then
      var right := Eval(m, n, toks, pos + 1);
      EvalLoop(m, n, toks, right.next, Combine(toks[pos].op, result, right.ids))
    else if toks[pos].term == CLOSE then Outcome(result, pos)
    else EvalLoop(m, n, toks, pos + 1, result)
  }

  predicate IsConnective(op: QueryOperator)
  {
    op == OpAnd || op == OpOr || op == OpNot
  }

  /** What an infix operator makes of the ids on its left and on its right:
      AND keeps the left ids the right holds and NOT those it lacks, in left
      order; OR is the ascending union. */
  function Combine(op: QueryOperator, left: seq<nat>, right: seq<nat>): (r: seq<nat>)
    ensures Ascending(left) && Ascending(right) ==> Ascending(r)
  {
    if op == OpAnd then Common(left, right)
    else if op == OpOr then
      MergeAscendingWhen(left, right);
      Merge(left, right)
    else Without(left, right)
  }

  /** The ids `Combine` keeps, as sets. */
  lemma CombineElems(op: QueryOperator, left: seq<nat>, right: seq<nat>)
    requires IsConnective(op)
    ensures op == OpAnd ==> Elems(Combine(op, left, right)) == Elems(left) * Elems(right)
    ensures op == OpOr ==> Elems(Combine(op, left, right)) == Elems(left) + Elems(right)
    ensures op == OpNot ==> Elems(Combine(op, left, right)) == Elems(left) - Elems(right)
  {
  }

  lemma MergeAscendingWhen(s: seq<nat>, t: seq<nat>)
    ensures Ascending(s) && Ascending(t) ==> Ascending(Merge(s, t))
  {
    if Ascending(s) && Ascending(t) {
      MergeAscending(s, t);
    }
  }

  /** What `search` returns for a query: nothing when it has no tokens,
      otherwise the evaluation from the first token. */
  function SearchSpec(m: map<seq<byte>, seq<nat>>, n: nat, query: seq<byte>): seq<nat>
  {
    var toks := Lex(query);
    if toks == [] then [] else Eval(m, n, toks, 0).ids
  }

  /** A query of plain terms joined by AND, OR or NOT: `ts[0] ops[0] ts[1]
      ops[1] ... ts[k]`. */
  function FlatTokens(ts: seq<seq<byte>>, ops: seq<QueryOperator>): (r: seq<QueryToken>)
    requires |ts| == |ops| + 1
    ensures |r| == 2 * |ops| + 1
    decreases |ops|
  {
    if ops == [] then [QueryToken(OpTerm, ts[0])]
    else [QueryToken(OpTerm, ts[0]), QueryToken(ops[0], [])] + FlatTokens(ts[1..], ops[1..])
  }

  predicate FlatQuery(ts: seq<seq<byte>>, ops: seq<QueryOperator>)
  {
    |ts| == |ops| + 1
    && (forall i :: 0 <= i < |ts| ==> ts[i] != OPEN)
    && (forall i :: 0 <= i < |ops| ==> ops[i] != OpTerm)
  }

  /** The set a flat query stands for when every operator takes everything
      to its right as its right operand: right associativity, no precedence. */
  function Denote(m: map<seq<byte>, seq<nat>>, ts: seq<seq<byte>>, ops: seq<QueryOperator>): set<nat>
    requires |ts| == |ops| + 1
    decreases |ops|
  {
    var first := Elems(PostingOf(m, ts[0]));
    if ops == [] then first
    else
      var rest := Denote(m, ts[1..], ops[1..]);
      match ops[0]
      case OpAnd => first * rest
      case OpOr => first + rest
      case OpNot => first - rest
      case OpTerm => first
  }

  /** The loop ends at the end of the tokens and at a ")" term. */
  lemma LoopStops(m: map<seq<byte>, seq<nat>>, n: nat, toks: seq<QueryToken>, e: nat, result: seq<nat>)
    requires e == |toks| || (e < |toks| && toks[e] == QueryToken(OpTerm, CLOSE))
    ensures EvalLoop(m, n, toks, e, result) == Outcome(result, e)
  {
  }

  /** Where the tokens of a flat query sit once put between `pre` and `post`. */
  lemma FlatLayout(pre: seq<QueryToken>, ts: seq<seq<byte>>, ops: seq<QueryOperator>, post: seq<QueryToken>)
    requires FlatQuery(ts, ops)
    ensures var toks := pre + FlatTokens(ts, ops) + post;
      var e := |pre| + |FlatTokens(ts, ops)|;
      toks[|pre|] == QueryToken(OpTerm, ts[0])
      && (e == |toks| || toks[e] == post[0])
      && (ops != [] ==>
            toks[|pre| + 1] == QueryToken(ops[0], [])
            && toks == (pre + [QueryToken(OpTerm, ts[0]), QueryToken(ops[0], [])]) + FlatTokens(ts[1..], ops[1..]) + post
            && FlatQuery(ts[1..], ops[1..]))
  {
    if ops != [] {
      assert forall i :: 0 <= i < |ts| - 1 ==> ts[1..][i] == ts[i + 1];
      assert forall i :: 0 <= i < |ops| - 1 ==> ops[1..][i] == ops[i + 1];
    }
  }

  /** A plain first term starts the loop with its posting list. */
  lemma TermOperand(m: map<seq<byte>, seq<nat>>, n: nat, toks: seq<QueryToken>, p: nat, t: seq<byte>)
    requires p < |toks| && toks[p] == QueryToken(OpTerm, t) && t != OPEN
    ensures Eval(m, n, toks, p) == EvalLoop(m, n, toks, p + 1, PostingOf(m, t))
  {
  }

  /** An infix operator combines the ids so far with its right operand. */
  lemma InfixStep(m: map<seq<byte>, seq<nat>>, n: nat, toks: seq<QueryToken>, p: nat, result: seq<nat>)
    requires p < |toks| && IsConnective(toks[p].op)
    ensures var right := Eval(m, n, toks, p + 1);
      EvalLoop(m, n, toks, p, result) == EvalLoop(m, n, toks, right.next, Combine(toks[p].op, result, right.ids))
  {
  }

  /** A flat query, wherever it starts and followed by nothing or by a ")",
      is evaluated to the end of its terms and finds exactly its
      right-associated meaning. */
  lemma {:induction false} FlatQueryMeaning(m: map<seq<byte>, seq<nat>>, n: nat, pre: seq<QueryToken>,
                                            ts: seq<seq<byte>>, ops: seq<QueryOperator>, post: seq<QueryToken>)
    requires FlatQuery(ts, ops)
    requires post == [] || post[0] == QueryToken(OpTerm, CLOSE)
    ensures var toks := pre + FlatTokens(ts, ops) + post;
      Eval(m, n, toks, |pre|).next == |pre| + |FlatTokens(ts, ops)|
      && Elems(Eval(m, n, toks, |pre|).ids) == Denote(m, ts, ops)
    decreases |ops|
  {
    var toks := pre + FlatTokens(ts, ops) + post;
    var e := |pre| + |FlatTokens(ts, ops)|;
    var first := PostingOf(m, ts[0]);
    FlatLayout(pre, ts, ops, post);
    TermOperand(m, n, toks, |pre|, ts[0]);
    if ops == [] {
      LoopStops(m, n, toks, e, first);
    } else {
      var pre' := pre + [QueryToken(OpTerm, ts[0]), QueryToken(ops[0], [])];
      FlatQueryMeaning(m, n, pre', ts[1..], ops[1..], post);
      var right := Eval(m, n, toks, |pre| + 2);
      var rest := Denote(m, ts[1..], ops[1..]);
      assert right.next == e && Elems(right.ids) == rest by {
        assert toks == pre' + FlatTokens(ts[1..], ops[1..]) + post && |pre'| == |pre| + 2;
      }
      InfixStep(m, n, toks, |pre| + 1, first);
      var combined := Combine(ops[0], first, right.ids);
      LoopStops(m, n, toks, e, combined);
      CombineElems(ops[0], first, right.ids);
      if ops[0] == OpAnd {
        assert Denote(m, ts, ops) == Elems(first) * rest;
      } else if ops[0] == OpOr {
        assert Denote(m, ts, ops) == Elems(first) + rest;
      } else {
        assert Denote(m, ts, ops) == Elems(first) - rest;
      }
    }
  }

  /** "a and b or c" finds a ∩ (b ∪ c): operators group to the right. */
  lemma AndThenOr(m: map<seq<byte>, seq<nat>>, n: nat, a: seq<byte>, b: seq<byte>, c: seq<byte>)
    requires a != OPEN && b != OPEN && c != OPEN
    ensures forall id ::
      id in Eval(m, n, FlatTokens([a, b, c], [OpAnd, OpOr]), 0).ids
      <==> id in PostingOf(m, a) && (id in PostingOf(m, b) || id in PostingOf(m, c))
  {
    var toks := FlatTokens([a, b, c], [OpAnd, OpOr]);
    FlatQueryMeaning(m, n, [], [a, b, c], [OpAnd, OpOr], []);
    assert [] + toks + [] == toks;
    assert forall id :: id in Eval(m, n, toks, 0).ids <==> id in Elems(Eval(m, n, toks, 0).ids);
  }

  /** Parentheses around a flat query change nothing, and the ")" is consumed. */
  lemma GroupedFlatQuery(m: map<seq<byte>, seq<nat>>, n: nat, ts: seq<seq<byte>>, ops: seq<QueryOperator>)
    requires FlatQuery(ts, ops)
    ensures var toks := [QueryToken(OpTerm, OPEN)] + FlatTokens(ts, ops) + [QueryToken(OpTerm, CLOSE)];
      Eval(m, n, toks, 0).next == |toks| && Elems(Eval(m, n, toks, 0).ids) == Denote(m, ts, ops)
  {
    var toks := [QueryToken(OpTerm, OPEN)] + FlatTokens(ts, ops) + [QueryToken(OpTerm, CLOSE)];
    FlatQueryMeaning(m, n, [QueryToken(OpTerm, OPEN)], ts, ops, [QueryToken(OpTerm, CLOSE)]);
    assert toks[0] == QueryToken(OpTerm, OPEN);
    assert toks[|toks| - 1] == QueryToken(OpTerm, CLOSE);
  }

  /** A NOT token's own term is never read: "-x y" is NOT y, whatever x is,
      and "-x" alone finds nothing. */
  lemma NegationReadsNextTerm(m: map<seq<byte>, seq<nat>>, n: nat, x: seq<byte>, y: seq<byte>)
    requires y != OPEN && y != CLOSE
    ensures Eval(m, n, [QueryToken(OpNot, x), QueryToken(OpTerm, y)], 0)
         == Outcome(Complement(PostingOf(m, y), n), 2)
    ensures Eval(m, n, [QueryToken(OpNot, x)], 0) == Outcome([], 1)
  {
  }

  lemma {:induction false} WithoutNothing(s: seq<nat>)
    ensures Without(s, []) == s
    decreases |s|
  {
    if s != [] {
      WithoutNothing(s[..|s| - 1]);
      assert s == s[..|s| - 1] + [s[|s| - 1]];
    }
  }

  /** So "a -b" finds all of a: the NOT that follows has no operand of its
      own and subtracts nothing. */
  lemma TrailingNegationSubtractsNothing(m: map<seq<byte>, seq<nat>>, n: nat, a: seq<byte>, b: seq<byte>)
    requires a != OPEN
    ensures Eval(m, n, [QueryToken(OpTerm, a), QueryToken(OpNot, b)], 0) == Outcome(PostingOf(m, a), 2)
  {
    var toks := [QueryToken(OpTerm, a), QueryToken(OpNot, b)];
    assert Eval(m, n, toks, 2) == Outcome([], 2);
    WithoutNothing(PostingOf(m, a));
    LoopStops(m, n, toks, 2, Combine(OpNot, PostingOf(m, a), []));
  }

  /** A query of spaces alone has no tokens and finds nothing. */
  lemma {:induction false} BlankQueryFindsNothing(m: map<seq<byte>, seq<nat>>, n: nat, query: seq<byte>)
    requires forall k :: 0 <= k < |query| ==> query[k] == SPACE
    ensures Lex(query) == [] && SearchSpec(m, n, query) == []
    decreases |query|
  {
    if query != [] {
      BlankQueryFindsNothing(m, n, query[1..]);
    }
  }

  class BooleanSearcher {
    const index: BooleanIndex

    constructor (idx: BooleanIndex)
      ensures index == idx
    {
      index := idx;
    }

    /** `evaluate_tokens`: the by-reference cursor is passed in as `pos` and
        handed back as `next`. */
    method EvaluateTokens(tokens: seq<QueryToken>, pos: nat) returns (result: seq<nat>, next: nat)
      requires index.Valid() && pos <= |tokens|
      ensures Outcome(result, next) == Eval(index.index.Map(), index.nextDocId, tokens, pos)
      decreases |tokens| - pos, 1
    {
      if pos >= |tokens| {
        return [], pos;
      }
      var token := tokens[pos];
      if token.op == OpTerm && token.term == OPEN {
        var inner, after := EvaluateTokens(tokens, pos + 1);
        if after < |tokens| && tokens[after].term == CLOSE {
          return inner, after + 1;
        }
        return inner, after;
      }
      if token.op == OpNot {
        if pos + 1 < |tokens| && tokens[pos + 1].op == OpTerm && tokens[pos + 1].term != OPEN
           && tokens[pos + 1].term != CLOSE {
          result := index.SearchNot(tokens[pos + 1].term);
          return result, pos + 2;
        }
        return [], pos + 1;
      }
      result := [];
      next := pos;
      if token.op == OpTerm {
        var plist := index.GetPostingList(token.term);
        if plist.Some? {
          result := plist.value;
        }
        next := pos + 1;
      }
      result, next := EvaluateLoop(tokens, pos, next, result);
    }

    /** The `while` loop of `evaluate_tokens`, from `next` with the ids
        `result` found so far; `pos` is where the enclosing call started. */
    method EvaluateLoop(tokens: seq<QueryToken>, ghost pos: nat, next0: nat, result0: seq<nat>)
      returns (result: seq<nat>, next: nat)
      requires index.Valid() && pos <= next0 <= |tokens| && Ascending(result0)
      ensures Outcome(result, next) == EvalLoop(index.index.Map(), index.nextDocId, tokens, next0, result0)
      decreases |tokens| - pos, 0
    {
      ghost var m := index.index.Map();
      ghost var n := index.nextDocId;
      result, next := result0, next0;
      while next < |tokens|
        invariant pos <= next <= |tokens| && Ascending(result)
        invariant EvalLoop(m, n, tokens, next, result) == EvalLoop(m, n, tokens, next0, result0)
        decreases |tokens| - next
      {
        var op := tokens[next].op;
        if op == OpAnd || op == OpOr || op == OpNot {
          var right, after := EvaluateTokens(tokens, next + 1);
          result := CombineIds(op, result, right);
          next := after;
        } else if tokens[next].term == CLOSE {
          break;
        } else {
          next := next + 1;
        }
      }
    }

    /** The three inner loops of the infix operators. */
    method CombineIds(op: QueryOperator, left: seq<nat>, right: seq<nat>) returns (r: seq<nat>)
      requires IsConnective(op) && Ascending(left) && Ascending(right)
      ensures r == Combine(op, left, right)
    {
      if op == OpAnd {
        r := IntersectIds(left, right);
      } else if op == OpOr {
        AscendingIsDistinct(left);
        var united := AppendMissing(left, right);
        r := SortIds(united);
        SortedUnionIsMerge(r, left, right);
      } else {
        r := DifferenceIds(left, right);
      }
    }

    /** `search`: parse the query, then evaluate its tokens from the first. */
    method Search(query: seq<byte>) returns (r: seq<nat>)
      requires index.Valid() && NoNul(query)
      ensures r == SearchSpec(index.index.Map(), index.nextDocId, query)
      ensures Ascending(r)
    {
      var parser := new QueryParser(query);
      var tokens := parser.Parse();
      if |tokens| == 0 {
        return [];
      }
      var next;
      r, next := EvaluateTokens(tokens, 0);
    }
  }
}
