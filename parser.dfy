/**
 * The parser of calc.go (`Parse`, `parse`, `innerParentheses`).
 *
 * Go builds the tree through `*calcNode` pointers and assigns `cur.right`
 * in place; `cur` is always the root of the tree built so far and no other
 * pointer to it is ever followed again, so the model rebuilds that root as
 * a value (`SetRight`). A nil pointer is `Nil`; a run-time panic (indexing
 * an empty token, dereferencing a nil pointer) is `ParsePanic`.
 */
module Parser {
  import opened Lexer
  import opened LexerLaws

  datatype Tree =
    | Nil
    | Node(value: string, left: Tree, right: Tree)
    /** An assignment node: Go's `calcNode` with `value == nil` and an
        `assignment` field. */
    | Assign(name: string, rhs: Tree)

  function Leaf(token: string): Tree { Node(token, Nil, Nil) }

  /** `cur.right = r`. An assignment node has a `right` field too, but
      evaluation never reads it, so setting it changes nothing visible. */
  function SetRight(cur: Tree, r: Tree): Tree
  {
    match cur
    case Node(v, l, _) => Node(v, l, r)
    case _ => cur
  }

  /** The result of `parse`: a tree (`Nil` for Go's nil) or a panic. */
  datatype Parsed = Parsed(tree: Tree) | ParsePanic

  /** The result of `Parse`. */
  datatype ParseResult = ParseOk(tree: Tree) | NilTree | ParseCrash

  // -----------------------------------------------------------------------
  // innerParentheses
  // -----------------------------------------------------------------------

  /** Number of "(" minus number of ")" tokens. */
  function Depth(ts: seq<string>): int
  {
    if ts == [] then 0
    else Depth(ts[..|ts| - 1]) + (if ts[|ts| - 1] == "(" then 1 else if ts[|ts| - 1] == ")" then -1 else 0)
  }

  /** Token `i` is a ")" that closes the group opened just before `ts`. */
  predicate Closes(ts: seq<string>, i: int)
  {
    0 <= i < |ts| && ts[i] == ")" && Depth(ts[..i]) == 0
  }

  /** The first closing index at or after `from`, or -1. */
  function CloseFrom(ts: seq<string>, from: nat): (r: int)
    requires from <= |ts|
    ensures r == -1 || (from <= r && Closes(ts, r))
    ensures forall j :: from <= j < (if r == -1 then |ts| else r) ==> !Closes(ts, j)
    decreases |ts| - from
  {
    if from == |ts| then -1
    else if Closes(ts, from) then from
    else CloseFrom(ts, from + 1)
  }

  /** The tokens before the ")" that closes an already-open group; empty
      when there is no such ")" (Go returns nil there). */
  function InnerOf(ts: seq<string>): (r: seq<string>)
    ensures |r| <= |ts|
  {
    var k := CloseFrom(ts, 0);
    if k == -1 then [] else ts[..k]
  }

  method InnerParentheses(tokens: seq<string>) returns (inner: seq<string>)
    ensures inner == InnerOf(tokens)
  {
    var score := 0;
    for i := 0 to |tokens|
      invariant score == Depth(tokens[..i])
      invariant forall j :: 0 <= j < i ==> !Closes(tokens, j)
    {
      assert tokens[..i + 1][..i] == tokens[..i];
      if tokens[i] == ")" {
        if score == 0 {
          assert Closes(tokens, i);
          return tokens[..i];
        }
        score := score - 1;
      } else if tokens[i] == "(" {
        score := score + 1;
      }
    }
    assert CloseFrom(tokens, 0) == -1;
    return [];
  }

  /** Every prefix of the found group has non-negative depth and the group
      itself is balanced. */
  lemma InnerBalanced(ts: seq<string>)
    ensures Depth(InnerOf(ts)) == 0
    ensures forall j :: 0 <= j <= |InnerOf(ts)| ==> Depth(ts[..j]) >= 0
  {
    var k := CloseFrom(ts, 0);
    if k != -1 {
      assert ts[..k][..k] == ts[..k];
      PrefixDepthNonNegative(ts, k);
    }
  }

  lemma {:induction false} PrefixDepthNonNegative(ts: seq<string>, k: nat)
    requires k <= |ts|
    requires forall j :: 0 <= j < k ==> !Closes(ts, j)
    ensures forall j :: 0 <= j <= k ==> Depth(ts[..j]) >= 0
    decreases k
  {
    if k > 0 {
      PrefixDepthNonNegative(ts, k - 1);
      assert ts[..k][..k - 1] == ts[..k - 1];
      assert !Closes(ts, k - 1);
    }
  }

  // -----------------------------------------------------------------------
  // parse
  // -----------------------------------------------------------------------

  /** A token `parse` treats as an infix operator (calc.go:252). */
  predicate IsInfixToken(t: string)
  {
    |t| > 0 && IsInfixChar(t[0]) && t[0] != '='
  }

  /** `parse(tokens, index, cur)`. */
  function ParseFrom(tokens: seq<string>, index: nat, cur: Tree): (r: Parsed)
    decreases |tokens| - index
  {
    if index >= |tokens| then Parsed(cur)
    else
      var token := tokens[index];
      if token == "" then ParsePanic
      else if IsInfixToken(token) then ParseFrom(tokens, index + 1, Node(token, cur, Nil))
      else if token == "=" then
        if index == 0 then Parsed(Nil)
        else if !cur.Node? then ParsePanic
        else
          match ParseFrom(tokens[index + 1..], 0, Nil)
          case Parsed(rhs) => if rhs == Nil then ParsePanic else Parsed(Assign(cur.value, rhs))
          case ParsePanic => ParsePanic
      else if token == "<<" || token == ">>" then ParseFrom(tokens, index + 1, Node(token, cur, Nil))
      else if token == "(" then
        if ")" !in tokens[index..] then Parsed(Nil)
        else
          var inner := InnerOf(tokens[index + 1..]);
          match ParseFrom(inner, 0, Nil)
          case ParsePanic => ParsePanic
          case Parsed(node) =>
            var rest := tokens[index + 1 + |inner|..];
            if cur != Nil then ParseFrom(rest, 0, SetRight(cur, node)) else ParseFrom(rest, 0, node)
      else if token == ")" then ParseFrom(tokens, index + 1, cur)
      else if cur != Nil then ParseFrom(tokens, index + 1, SetRight(cur, Leaf(token)))
      else ParseFrom(tokens, index + 1, Leaf(token))
  }

  /** `Parse`: a nil tree becomes the "nil error". */
  function Parse(tokens: seq<string>): (r: ParseResult)
    ensures |tokens| == 0 ==> r == NilTree
    ensures |tokens| > 0 && tokens[0] == "=" ==> r == NilTree
    ensures |tokens| > 0 && tokens[0] == "(" && ")" !in tokens ==> r == NilTree
    ensures r.ParseOk? ==> r.tree != Nil
  {
    match ParseFrom(tokens, 0, Nil)
    case ParsePanic => ParseCrash
    case Parsed(t) => if t == Nil then NilTree else ParseOk(t)
  }

  /** A `(` with no `)` after it ends the whole parse with the nil error
      wherever it stands, provided parsing reaches it: no earlier `(`,
      `=` or empty token. */
  lemma UnclosedAnywhere(tokens: seq<string>, i: nat)
    requires i < |tokens| && tokens[i] == "(" && ")" !in tokens[i..]
    requires forall j :: 0 <= j < i ==> tokens[j] != "(" && tokens[j] != "=" && tokens[j] != ""
    ensures Parse(tokens) == NilTree
  {
    ReachesUnclosed(tokens, i, 0, Nil);
  }

  /** From any position up to that `(`, whatever tree has been built so
      far, the parse gives the nil tree. */
  lemma {:induction false} ReachesUnclosed(tokens: seq<string>, i: nat, j: nat, cur: Tree)
    requires i < |tokens| && tokens[i] == "(" && ")" !in tokens[i..]
    requires forall k :: 0 <= k < i ==> tokens[k] != "(" && tokens[k] != "=" && tokens[k] != ""
    requires j <= i
    ensures ParseFrom(tokens, j, cur) == Parsed(Nil)
    decreases i - j
  {
    if j < i {
      var t := tokens[j];
      assert t != "(" && t != "=" && t != "";
      if IsInfixToken(t) || t == "<<" || t == ">>" {
        ReachesUnclosed(tokens, i, j + 1, Node(t, cur, Nil));
      } else if t == ")" {
        ReachesUnclosed(tokens, i, j + 1, cur);
      } else if cur != Nil {
        ReachesUnclosed(tokens, i, j + 1, SetRight(cur, Leaf(t)));
      } else {
        ReachesUnclosed(tokens, i, j + 1, Leaf(t));
      }
    }
  }

  // -----------------------------------------------------------------------
  // Operator chains parse left to right, without precedence
  // -----------------------------------------------------------------------

  /** A token that becomes a leaf and is evaluated as a literal or a name. */
  predicate IsOperand(t: string)
  {
    |t| > 0 && !IsInfixChar(t[0]) && !IsPrefixChar(t[0]) && t != "<<" && t != ">>" && t != "(" && t != ")"
  }

  /** A token that becomes a binary node. */
  predicate IsBinaryToken(t: string)
  {
    IsInfixToken(t) || t == "<<" || t == ">>"
  }

  /** `((first op1 x1) op2 x2) ...` */
  function LeftFold(first: string, links: seq<Link>): Tree
  {
    if links == [] then Leaf(first)
    else var last := links[|links| - 1];
      Node(last.op, LeftFold(first, links[..|links| - 1]), Leaf(last.operand))
  }

  predicate IsChain(first: string, links: seq<Link>)
  {
    IsOperand(first) && forall l <- links :: IsBinaryToken(l.op) && IsOperand(l.operand)
  }

  /** A chain of operands and binary operators parses to the tree that
      applies the operators from left to right. */
  lemma ChainParse(first: string, links: seq<Link>)
    requires IsChain(first, links)
    ensures Parse(ChainTokens(first, links)) == ParseOk(LeftFold(first, links))
  {
    ChainTail(first, links, []);
    assert ChainTokens(first, links) + [] == ChainTokens(first, links);
  }

  /** Parsing the chain's tokens followed by `rest` reaches the end of the
      chain with its left fold as `cur`. */
  lemma {:induction false} ChainTail(first: string, links: seq<Link>, rest: seq<string>)
    requires IsChain(first, links)
    ensures |ChainTokens(first, links)| == 2 * |links| + 1
    ensures ParseFrom(ChainTokens(first, links) + rest, 0, Nil)
      == ParseFrom(ChainTokens(first, links) + rest, 2 * |links| + 1, LeftFold(first, links))
    decreases |links|
  {
    var ts := ChainTokens(first, links) + rest;
    if links == [] {
      assert ts[0] == first;
    } else {
      var front := links[..|links| - 1];
      var last := links[|links| - 1];
      assert last in links;
      assert IsChain(first, front) by {
        assert forall l <- front :: l in links;
      }
      var n := 2 * |front| + 1;
      assert ts == ChainTokens(first, front) + ([last.op, last.operand] + rest);
      ChainTail(first, front, [last.op, last.operand] + rest);
      assert ts[n] == last.op && ts[n + 1] == last.operand;
      ChainStep(ts, n, LeftFold(first, front), last);
    }
  }

  /** One link of a chain: the operator wraps `acc` and the operand fills
      its right side. */
  lemma ChainStep(ts: seq<string>, n: nat, acc: Tree, link: Link)
    requires n + 1 < |ts| && ts[n] == link.op && ts[n + 1] == link.operand
    requires IsBinaryToken(link.op) && IsOperand(link.operand)
    ensures ParseFrom(ts, n, acc) == ParseFrom(ts, n + 2, Node(link.op, acc, Leaf(link.operand)))
  {
    assert ParseFrom(ts, n, acc) == ParseFrom(ts, n + 1, Node(link.op, acc, Nil));
  }

  // -----------------------------------------------------------------------
  // Parenthesised groups
  // -----------------------------------------------------------------------

  /** An operand of a binary operator: a word or a parenthesised group. */
  datatype Term = Word(w: string) | Group(e: Expr)

  /** Terms joined by binary operators, grouped from the left. */
  datatype Expr = Single(t: Term) | Binary(left: Expr, op: string, right: Term)

  predicate TermOk(t: Term)
  {
    match t
    case Word(w) => IsOperand(w)
    case Group(e) => ExprOk(e)
  }

  predicate ExprOk(e: Expr)
  {
    match e
    case Single(t) => TermOk(t)
    case Binary(l, op, r) => ExprOk(l) && IsBinaryToken(op) && TermOk(r)
  }

  function TermTokens(t: Term): seq<string>
  {
    match t
    case Word(w) => [w]
    case Group(e) => ["("] + ExprTokens(e) + [")"]
  }

  function ExprTokens(e: Expr): seq<string>
  {
    match e
    case Single(t) => TermTokens(t)
    case Binary(l, op, r) => ExprTokens(l) + [op] + TermTokens(r)
  }

  /** The tree of a term: a group contributes the tree of its contents. */
  function TermTree(t: Term): (r: Tree)
    ensures r.Node?
  {
    match t
    case Word(w) => Leaf(w)
    case Group(e) => ExprTree(e)
  }

  function ExprTree(e: Expr): (r: Tree)
    ensures r.Node?
  {
    match e
    case Single(t) => TermTree(t)
    case Binary(l, op, r) => Node(op, ExprTree(l), TermTree(r))
  }

  /** Depth zero overall and never negative on the way. */
  predicate Balanced(ts: seq<string>)
  {
    Depth(ts) == 0 && forall j :: 0 <= j <= |ts| ==> Depth(ts[..j]) >= 0
  }

  lemma {:induction false} DepthConcat(a: seq<string>, b: seq<string>)
    ensures Depth(a + b) == Depth(a) + Depth(b)
    decreases |b|
  {
    if b == [] {
      assert a + b == a;
    } else {
      var c := a + b;
      assert c[..|c| - 1] == a + b[..|b| - 1];
      DepthConcat(a, b[..|b| - 1]);
    }
  }

  lemma BalancedConcat(a: seq<string>, b: seq<string>)
    requires Balanced(a) && Balanced(b)
    ensures Balanced(a + b)
  {
    DepthConcat(a, b);
    forall j | 0 <= j <= |a + b|
      ensures Depth((a + b)[..j]) >= 0
    {
      if j <= |a| {
        assert (a + b)[..j] == a[..j];
      } else {
        assert (a + b)[..j] == a + b[..j - |a|];
        DepthConcat(a, b[..j - |a|]);
      }
    }
  }

  lemma BalancedWrap(x: seq<string>)
    requires Balanced(x)
    ensures Balanced(["("] + x + [")"])
  {
    var w := ["("] + x + [")"];
    DepthConcat(["("] + x, [")"]);
    DepthConcat(["("], x);
    assert Depth(["("]) == 1 by { assert ["("][..0] == []; }
    assert Depth([")"]) == -1 by { assert [")"][..0] == []; }
    forall j | 0 <= j <= |w|
      ensures Depth(w[..j]) >= 0
    {
      if j == 0 {
      } else if j <= |x| + 1 {
        assert w[..j] == ["("] + x[..j - 1];
        DepthConcat(["("], x[..j - 1]);
      } else {
        assert w[..j] == w;
      }
    }
  }

  lemma BalancedToken(t: string)
    requires t != "(" && t != ")"
    ensures Balanced([t])
  {
    assert [t][..0] == [];
    assert [t][..1] == [t];
  }

  lemma {:induction false} TermBalanced(t: Term)
    requires TermOk(t)
    ensures Balanced(TermTokens(t))
    decreases t
  {
    match t
    case Word(w) =>
      BalancedToken(w);
    case Group(e) =>
      ExprBalanced(e);
      BalancedWrap(ExprTokens(e));
  }

  lemma {:induction false} ExprBalanced(e: Expr)
    requires ExprOk(e)
    ensures Balanced(ExprTokens(e))
    decreases e
  {
    match e
    case Single(t) =>
      TermBalanced(t);
    case Binary(l, op, r) =>
      ExprBalanced(l);
      TermBalanced(r);
      BalancedToken(op);
      BalancedConcat(ExprTokens(l), [op]);
      BalancedConcat(ExprTokens(l) + [op], TermTokens(r));
  }

  /** The ")" that closes a group is the first one after balanced
      contents. */
  lemma CloseAfterBalanced(x: seq<string>, more: seq<string>)
    requires Balanced(x)
    ensures InnerOf(x + [")"] + more) == x
  {
    var ts := x + [")"] + more;
    assert ts[..|x|] == x;
    assert Closes(ts, |x|);
    forall j | 0 <= j < |x|
      ensures !Closes(ts, j)
    {
      assert ts[..j] == x[..j];
      assert x[..j + 1][..j] == x[..j];
      assert x[j] == ")" ==> Depth(x[..j]) >= 1 by {
        assert Depth(x[..j + 1]) >= 0;
      }
    }
    var k := CloseFrom(ts, 0);
    assert k == |x|;
  }

  /** Parsing a suffix from a position after its start is parsing the
      whole sequence from the corresponding position (the "=" rule only
      looks at position 0). */
  lemma {:induction false} ParseShift(ts: seq<string>, k: nat, i: nat, cur: Tree)
    requires k <= |ts| && i >= 1
    ensures ParseFrom(ts[k..], i, cur) == ParseFrom(ts, k + i, cur)
    decreases |ts| - k - i
  {
    var sub := ts[k..];
    if k + i < |ts| {
      var token := ts[k + i];
      assert sub[i] == token;
      assert sub[i..] == ts[k + i..];
      assert sub[i + 1..] == ts[k + i + 1..];
      if token == "" {
      } else if IsInfixToken(token) || token == "<<" || token == ">>" {
        ParseShift(ts, k, i + 1, Node(token, cur, Nil));
      } else if token == "(" {
        ShiftOpen(ts, k, i, cur);
      } else if token == ")" {
        ParseShift(ts, k, i + 1, cur);
      } else {
        ParseShift(ts, k, i + 1, if cur != Nil then SetRight(cur, Leaf(token)) else Leaf(token));
      }
    }
  }

  /** `ParseShift` at an opening parenthesis, where `parse` starts over on
      the group and on what follows it. */
  lemma ShiftOpen(ts: seq<string>, k: nat, i: nat, cur: Tree)
    requires i >= 1 && k + i < |ts| && ts[k + i] == "("
    ensures ParseFrom(ts[k..], i, cur) == ParseFrom(ts, k + i, cur)
  {
    var sub := ts[k..];
    assert sub[i] == "(";
    assert sub[i..] == ts[k + i..];
    assert sub[i + 1..] == ts[k + i + 1..];
    if ")" in sub[i..] {
      var inner := InnerOf(sub[i + 1..]);
      assert sub[i + 1 + |inner|..] == ts[k + i + 1 + |inner|..];
    }
  }

  /** `cur` with `node` put where the parser puts the next operand. */
  function Attach(cur: Tree, node: Tree): Tree
  {
    if cur != Nil then SetRight(cur, node) else node
  }

  /** Parsing a term moves past its tokens and attaches its tree to `cur`. */
  lemma {:induction false} TermStep(ts: seq<string>, n: nat, cur: Tree, t: Term)
    requires TermOk(t)
    requires n + |TermTokens(t)| <= |ts| && ts[n..n + |TermTokens(t)|] == TermTokens(t)
    ensures ParseFrom(ts, n, cur) == ParseFrom(ts, n + |TermTokens(t)|, Attach(cur, TermTree(t)))
    decreases t, 0
  {
    match t
    case Word(w) =>
      assert ts[n] == TermTokens(t)[0];
      WordStep(ts, n, cur, w);
    case Group(e) =>
      GroupStep(ts, n, cur, e);
  }

  /** Parsing a parenthesised group: its contents are parsed on their own,
      the result is attached to `cur` and the closing ")" is skipped. */
  lemma {:induction false} GroupStep(ts: seq<string>, n: nat, cur: Tree, e: Expr)
    requires ExprOk(e)
    requires n + |ExprTokens(e)| + 2 <= |ts| && ts[n..n + |ExprTokens(e)| + 2] == ["("] + ExprTokens(e) + [")"]
    ensures ParseFrom(ts, n, cur) == ParseFrom(ts, n + |ExprTokens(e)| + 2, Attach(cur, ExprTree(e)))
    decreases e, 4
  {
    GroupContents(e);
    GroupParsed(ts, n, cur, ExprTokens(e), ExprTree(e));
  }

  /** An operand is attached to `cur` as a leaf. */
  lemma WordStep(ts: seq<string>, n: nat, cur: Tree, w: string)
    requires IsOperand(w) && n < |ts| && ts[n] == w
    ensures ParseFrom(ts, n, cur) == ParseFrom(ts, n + 1, Attach(cur, Leaf(w)))
  {
  }

  /** The tokens of a well-formed expression are balanced and parse on
      their own to its tree. */
  lemma {:induction false} GroupContents(e: Expr)
    requires ExprOk(e)
    ensures Balanced(ExprTokens(e))
    ensures ParseFrom(ExprTokens(e), 0, Nil) == Parsed(ExprTree(e))
    decreases e, 3
  {
    var x := ExprTokens(e);
    ExprBalanced(e);
    assert x[0..0 + |x|] == x;
    ExprParse(x, 0, e);
    ParseEnd(x, ExprTree(e));
  }

  /** A group whose balanced contents `x` parse to `body`: `parse`
      attaches `body` and goes on after the closing parenthesis. */
  lemma GroupParsed(ts: seq<string>, n: nat, cur: Tree, x: seq<string>, body: Tree)
    requires Balanced(x) && ParseFrom(x, 0, Nil) == Parsed(body)
    requires n + |x| + 2 <= |ts| && ts[n..n + |x| + 2] == ["("] + x + [")"]
    ensures ParseFrom(ts, n, cur) == ParseFrom(ts, n + |x| + 2, Attach(cur, body))
  {
    GroupAt(ts, n, x);
    var k := n + 1 + |x|;
    OpenGroup(ts, n, cur, x, body);
    CloseShift(ts, k, n + |x| + 2, Attach(cur, body));
  }

  /** A closing parenthesis at `k` is skipped: `parse` goes on at `j`. */
  lemma CloseShift(ts: seq<string>, k: nat, j: nat, cur: Tree)
    requires k < |ts| && ts[k..][0] == ")" && j == k + 1
    ensures ParseFrom(ts[k..], 0, cur) == ParseFrom(ts, j, cur)
  {
    CloseStep(ts[k..], cur);
    ParseShift(ts, k, 1, cur);
  }

  /** The "(" rule of `parse` for a group with contents `x`. */
  lemma OpenGroup(ts: seq<string>, n: nat, cur: Tree, x: seq<string>, body: Tree)
    requires n < |ts| && ts[n] == "(" && ")" in ts[n..]
    requires InnerOf(ts[n + 1..]) == x && ParseFrom(x, 0, Nil) == Parsed(body)
    ensures n + 1 + |x| <= |ts|
    ensures ParseFrom(ts, n, cur) == ParseFrom(ts[n + 1 + |x|..], 0, Attach(cur, body))
  {
    OpenStep(ts, n, cur, body);
    var rest := ts[n + 1 + |InnerOf(ts[n + 1..])|..];
    assert rest == ts[n + 1 + |x|..];
  }

  /** At the end of the tokens `parse` returns `cur`. */
  lemma ParseEnd(ts: seq<string>, cur: Tree)
    ensures ParseFrom(ts, |ts|, cur) == Parsed(cur)
  {
  }

  /** Where a balanced group sits in `ts`, `parse` finds its contents and
      its closing parenthesis. */
  lemma GroupAt(ts: seq<string>, n: nat, x: seq<string>)
    requires Balanced(x)
    requires n + |x| + 2 <= |ts| && ts[n..n + |x| + 2] == ["("] + x + [")"]
    ensures ts[n] == "(" && ")" in ts[n..]
    ensures InnerOf(ts[n + 1..]) == x
    ensures ts[n + 1 + |x|..][0] == ")"
  {
    var m := n + |x| + 2;
    assert ts[n + 1..] == x + [")"] + ts[m..] by {
      assert ts[n + 1..m] == x + [")"];
      assert ts[n + 1..] == ts[n + 1..m] + ts[m..];
    }
    CloseAfterBalanced(x, ts[m..]);
    assert ts[n] == "(" by { assert ts[n] == ts[n..m][0]; }
    assert ")" in ts[n..] by { assert ts[n..][|x| + 1] == ")"; }
  }

  /** The "(" rule of `parse` once the group's contents have parsed. */
  lemma OpenStep(ts: seq<string>, n: nat, cur: Tree, body: Tree)
    requires n < |ts| && ts[n] == "(" && ")" in ts[n..]
    requires ParseFrom(InnerOf(ts[n + 1..]), 0, Nil) == Parsed(body)
    ensures n + 1 + |InnerOf(ts[n + 1..])| <= |ts|
    ensures ParseFrom(ts, n, cur) == ParseFrom(ts[n + 1 + |InnerOf(ts[n + 1..])|..], 0, Attach(cur, body))
  {
  }

  /** The ")" rule of `parse`: a closing parenthesis is skipped. */
  lemma CloseStep(ts: seq<string>, cur: Tree)
    requires |ts| > 0 && ts[0] == ")"
    ensures ParseFrom(ts, 0, cur) == ParseFrom(ts, 1, cur)
  {
  }

  /** Parsing an expression from an empty tree moves past its tokens and
      yields its tree. */
  lemma {:induction false} ExprParse(ts: seq<string>, n: nat, e: Expr)
    requires ExprOk(e)
    requires n + |ExprTokens(e)| <= |ts| && ts[n..n + |ExprTokens(e)|] == ExprTokens(e)
    ensures ParseFrom(ts, n, Nil) == ParseFrom(ts, n + |ExprTokens(e)|, ExprTree(e))
    decreases e, 1
  {
    match e
    case Single(t) =>
      TermStep(ts, n, Nil, t);
    case Binary(l, op, r) =>
      var left, whole := ExprTree(l), Node(op, ExprTree(l), TermTree(r));
      BinaryAt(ts, n, l, op, r);
      var i := n + |ExprTokens(l)|;
      var j := i + 1;
      var k := j + |TermTokens(r)|;
      ExprParse(ts, n, l);
      assert ParseFrom(ts, n, Nil) == ParseFrom(ts, i, left);
      OperatorStep(ts, i, left, op);
      TermStep(ts, j, Node(op, left, Nil), r);
      assert Attach(Node(op, left, Nil), TermTree(r)) == whole;
      assert ParseFrom(ts, i, left) == ParseFrom(ts, k, whole);
      assert ExprTree(e) == whole && n + |ExprTokens(e)| == k;
  }

  /** Where the tokens of `l op r` sit, those of `l`, `op` and `r` sit one
      after the other. */
  lemma BinaryAt(ts: seq<string>, n: nat, l: Expr, op: string, r: Term)
    requires n + |ExprTokens(Binary(l, op, r))| <= |ts|
    requires ts[n..n + |ExprTokens(Binary(l, op, r))|] == ExprTokens(Binary(l, op, r))
    ensures |ExprTokens(Binary(l, op, r))| == |ExprTokens(l)| + 1 + |TermTokens(r)|
    ensures ts[n..n + |ExprTokens(l)|] == ExprTokens(l)
    ensures ts[n + |ExprTokens(l)|] == op
    ensures ts[n + |ExprTokens(l)| + 1..n + |ExprTokens(l)| + 1 + |TermTokens(r)|] == TermTokens(r)
  {
    var a, b := |ExprTokens(l)|, |TermTokens(r)|;
    var parts := ExprTokens(l) + [op] + TermTokens(r);
    assert ExprTokens(Binary(l, op, r)) == parts;
    var whole := ts[n..n + a + 1 + b];
    assert whole == parts;
    assert parts[..a] == ExprTokens(l) && parts[a] == op && parts[a + 1..] == TermTokens(r);
    assert ts[n..n + a] == whole[..a];
    assert ts[n + a] == whole[a];
    assert ts[n + a + 1..n + a + 1 + b] == whole[a + 1..];
  }

  /** A binary operator token takes the tree so far as its left operand. */
  lemma OperatorStep(ts: seq<string>, n: nat, acc: Tree, op: string)
    requires n < |ts| && ts[n] == op && IsBinaryToken(op)
    ensures ParseFrom(ts, n, acc) == ParseFrom(ts, n + 1, Node(op, acc, Nil))
  {
  }

  /** Operands and parenthesised groups joined by binary operators parse to
      the tree that applies the operators from left to right, a group
      standing for the tree of its contents. */
  lemma GroupParse(e: Expr)
    requires ExprOk(e)
    ensures Parse(ExprTokens(e)) == ParseOk(ExprTree(e))
  {
    var ts := ExprTokens(e);
    assert ts[0..|ts|] == ts;
    ExprParse(ts, 0, e);
  }
}
