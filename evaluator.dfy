/**
 * Evaluation and execution (calc.go `state`, `Eval`, `Exec`).
 *
 * Go's `Eval` reports failures through an `error` value and crashes with a
 * run-time panic on a nil dereference, a division by zero or a negative
 * shift count; both become explicit outcomes here.
 */
module Evaluator {
  import opened Wrappers
  import opened Int64
  import opened Text
  import opened Lexer
  import opened LexerLaws
  import opened Parser

  /** The errors `Parse` and `Eval` return. */
  datatype CalcError = NilError | InvalidOperator | BadPrefixOperator

  datatype Outcome = Value(v: int64) | Failure(e: CalcError) | Panic

  /** An outcome together with the variables after the evaluation. */
  datatype Evaluation = Evaluation(out: Outcome, vars: map<string, int64>)

  /** The value of a literal, `_ans_` or a variable token: a decimal int64
      literal, else the previous answer, else the variable (0 if unset). */
  function LeafValue(token: string, vars: map<string, int64>, ans: int64): (r: int64)
    ensures ParseInt64(token).Some? ==> r == ParseInt64(token).value
    ensures token == "_ans_" ==> r == ans
    ensures ParseInt64(token).None? && token != "_ans_" ==> r == (if token in vars then vars[token] else 0)
  {
    assert !IsDigit("_ans_"[0]);
    match ParseInt64(token)
    case Some(n) => n
    case None => if token == "_ans_" then ans else if token in vars then vars[token] else 0
  }

  /** A numeral as `Itoa` writes a non-negative value reads back as that
      value, whatever the variables and the previous answer. */
  lemma LeafNumeral(n: int64, vars: map<string, int64>, ans: int64)
    requires n >= 0
    ensures LeafValue(Itoa(n), vars, ans) == n
  {
    ParseItoa(n);
  }

  /** A one-character infix operator applied to two evaluated operands. */
  function Infix(op: string, l: int64, r: int64): (o: Outcome)
    ensures o.Panic? <==> (op == "/" || op == "%") && r == 0
    ensures o.Failure? <==> op !in {"+", "-", "*", "/", "&", "^", "|", "%"}
  {
    if op == "+" then Value(Add(l, r))
    else if op == "-" then Value(Sub(l, r))
    else if op == "*" then Value(Mul(l, r))
    else if op == "/" then (if r == 0 then Panic else Value(Quo(l, r)))
    else if op == "&" then Value(And(l, r))
    else if op == "^" then Value(Xor(l, r))
    else if op == "|" then Value(Or(l, r))
    else if op == "%" then (if r == 0 then Panic else Value(Rem(l, r)))
    else Failure(InvalidOperator)
  }

  /** `<<` or `>>` with a signed count: a negative count panics. */
  function Shift(op: string, l: int64, r: int64): (o: Outcome)
    requires op == "<<" || op == ">>"
    ensures o.Panic? <==> r < 0
    ensures o.Value? && op == ">>" ==> (o.v < 0 <==> l < 0)
  {
    if r < 0 then Panic
    else if op == "<<" then Value(Shl(l, r))
    else Value(Shr(l, r))
  }

  /** The names an evaluation of `t` may assign. */
  function Assigned(t: Tree): set<string>
  {
    match t
    case Nil => {}
    case Node(_, l, r) => Assigned(l) + Assigned(r)
    case Assign(name, rhs) => {name} + Assigned(rhs)
  }

  /** `Eval(t)` started with variables `vars` and previous answer `ans`.
      Children are evaluated left before right; an assignment stores the
      value of its right-hand side. */
  function Evaluate(t: Tree, vars: map<string, int64>, ans: int64): (r: Evaluation)
    ensures forall k :: k in vars ==> k in r.vars
    ensures forall k :: k !in Assigned(t) ==> (k in r.vars <==> k in vars) && (k in vars ==> r.vars[k] == vars[k])
    ensures t.Assign? && r.out.Value? ==> t.name in r.vars && r.vars[t.name] == r.out.v
    decreases t
  {
    match t
    case Nil => Evaluation(Panic, vars)
    case Assign(name, rhs) =>
      var e := Evaluate(rhs, vars, ans);
      if e.out.Value? then Evaluation(e.out, e.vars[name := e.out.v]) else e
    case Node(v, l, r) =>
      if v == "-" && (l == Nil || l.Assign?) then
        var e := Evaluate(r, vars, ans);
        if e.out.Value? then Evaluation(Value(Neg(e.out.v)), e.vars) else e
      else if v == "" then Evaluation(Panic, vars)
      else if IsInfixChar(v[0]) then
        var el := Evaluate(l, vars, ans);
        if !el.out.Value? then el
        else if r == Nil then Evaluation(Failure(InvalidOperator), el.vars)
        else
          var er := Evaluate(r, el.vars, ans);
          if !er.out.Value? then er else Evaluation(Infix(v, el.out.v, er.out.v), er.vars)
      else if IsPrefixChar(v[0]) then
        var e := Evaluate(r, vars, ans);
        if !e.out.Value? then e
        else if v == "~" then Evaluation(Value(Not(e.out.v)), e.vars)
        else Evaluation(Failure(BadPrefixOperator), e.vars)
      else if v == "<<" || v == ">>" then
        var el := Evaluate(l, vars, ans);
        if !el.out.Value? then el
        else
          var er := Evaluate(r, el.vars, ans);
          if !er.out.Value? then er else Evaluation(Shift(v, el.out.v, er.out.v), er.vars)
      else Evaluation(Value(LeafValue(v, vars, ans)), vars)
  }

  /** The fields of Go's `state`, as a value. */
  datatype Session = Session(variables: map<string, int64>, ans: int64, err: Option<CalcError>)

  /** What `Exec` reports: nil, an error, or a run-time panic. */
  datatype Status = Ok | Failed(e: CalcError) | Crashed

  datatype Execution = Execution(status: Status, after: Session)

  /** `Exec(input)` on the session `s`. */
  function Execute(s: Session, input: string): (r: Execution)
    ensures r.status.Ok? ==> r.after.err == None
    ensures !r.status.Ok? ==> r.after.ans == s.ans
    ensures r.status.Failed? ==> r.after.err == Some(r.status.e)
    ensures r.status.Crashed? ==> r.after.err == s.err
  {
    match Parse(Tokens(input))
    case ParseCrash => Execution(Crashed, s)
    case NilTree => Execution(Failed(NilError), s.(err := Some(NilError)))
    case ParseOk(t) =>
      var e := Evaluate(t, s.variables, s.ans);
      match e.out
      case Panic => Execution(Crashed, s.(variables := e.vars))
      case Failure(c) => Execution(Failed(c), s.(variables := e.vars, err := Some(c)))
      case Value(v) => Execution(Ok, Session(e.vars, v, None))
  }

  /** Go's `state`. */
  class State {
    var variables: map<string, int64>
    var ans: int64
    var err: Option<CalcError>

    function Snapshot(): Session
      reads this
    {
      Session(variables, ans, err)
    }

    /** `newState()` */
    constructor ()
      ensures Snapshot() == Session(map[], 0, None)
    {
      variables := map[];
      ans := 0;
      err := None;
    }

    method Eval(t: Tree) returns (out: Outcome)
      modifies this`variables
      ensures Evaluation(out, variables) == Evaluate(t, old(variables), ans)
      decreases t
    {
      match t
      case Nil =>
        return Panic;
      case Assign(name, rhs) =>
        out := Eval(rhs);
        if out.Value? {
          variables := variables[name := out.v];
        }
      case Node(v, l, r) =>
        if v == "-" && (l == Nil || l.Assign?) {
          out := Eval(r);
          if out.Value? {
            out := Value(Neg(out.v));
          }
          return;
        }
        if v == "" {
          return Panic;
        }
        if IsInfixChar(v[0]) {
          var lv := Eval(l);
          if !lv.Value? {
            return lv;
          }
          if r == Nil {
            return Failure(InvalidOperator);
          }
          var rv := Eval(r);
          if !rv.Value? {
            return rv;
          }
          return Infix(v, lv.v, rv.v);
        }
        if IsPrefixChar(v[0]) {
          var num := Eval(r);
          if !num.Value? {
            return num;
          }
          if v == "~" {
            return Value(Not(num.v));
          }
          return Failure(BadPrefixOperator);
        }
        if v == "<<" || v == ">>" {
          var lv := Eval(l);
          if !lv.Value? {
            return lv;
          }
          var rv := Eval(r);
          if !rv.Value? {
            return rv;
          }
          return Shift(v, lv.v, rv.v);
        }
        return Value(LeafValue(v, variables, ans));
    }

    method Exec(input: string) returns (status: Status)
      modifies this
      ensures Execution(status, Snapshot()) == Execute(old(Snapshot()), input)
    {
      var tokens := Tokenize(input);
      match Parse(tokens)
      case ParseCrash =>
        return Crashed;
      case NilTree =>
        err := Some(NilError);
        return Failed(NilError);
      case ParseOk(t) =>
        var out := Eval(t);
        match out
        case Panic =>
          return Crashed;
        case Failure(c) =>
          err := Some(c);
          return Failed(c);
        case Value(v) =>
          err := None;
          ans := v;
          return Ok;
    }
  }

  // -----------------------------------------------------------------------
  // Properties
  // -----------------------------------------------------------------------

  /** A `-` without a left operand negates its right operand, wrapping
      MinInt64 to itself, and keeps the operand's variable updates. */
  lemma NegatePrefix(l: Tree, r: Tree, vars: map<string, int64>, ans: int64)
    requires l == Nil || l.Assign?
    requires Evaluate(r, vars, ans).out.Value?
    ensures var e := Evaluate(r, vars, ans);
      Evaluate(Node("-", l, r), vars, ans) == Evaluation(Value(Neg(e.out.v)), e.vars)
  {
  }

  /** `~` flips every bit of its right operand, whatever stands on its left. */
  lemma ComplementPrefix(l: Tree, r: Tree, vars: map<string, int64>, ans: int64)
    requires Evaluate(r, vars, ans).out.Value?
    ensures var e := Evaluate(r, vars, ans);
      Evaluate(Node("~", l, r), vars, ans) == Evaluation(Value(Not(e.out.v)), e.vars)
  {
  }

  /** An infix operator whose right operand is missing reports an invalid
      operator once its left operand has a value; a `-` without a left
      operand is the negation instead. */
  lemma MissingRightOperand(op: string, l: Tree, vars: map<string, int64>, ans: int64)
    requires |op| > 0 && IsInfixChar(op[0])
    requires !(op == "-" && (l == Nil || l.Assign?))
    requires Evaluate(l, vars, ans).out.Value?
    ensures Evaluate(Node(op, l, Nil), vars, ans) == Evaluation(Failure(InvalidOperator), Evaluate(l, vars, ans).vars)
  {
  }

  /** An expression without assignments leaves the variables unchanged. */
  lemma PureExpression(t: Tree, vars: map<string, int64>, ans: int64)
    requires Assigned(t) == {}
    ensures Evaluate(t, vars, ans).vars == vars
  {
    var r := Evaluate(t, vars, ans).vars;
    assert forall k :: k in r <==> k in vars;
  }

  /** The operators the evaluator knows. */
  predicate IsKnownOperator(op: string)
  {
    op in {"+", "-", "*", "/", "&", "^", "|", "%", "<<", ">>"}
  }

  /** The operator token of a chain applied to two values. */
  function Apply(op: string, l: int64, r: int64): (o: Outcome)
    requires IsBinaryToken(op)
    ensures o.Panic? <==> ((op == "/" || op == "%") && r == 0) || (IsLength2Operator(op) && r < 0)
    ensures o.Failure? <==> IsInfixToken(op) && !IsKnownOperator(op)
  {
    if IsInfixToken(op) then Infix(op, l, r) else Shift(op, l, r)
  }

  /** Left-to-right evaluation of a chain, stopping at the first outcome
      that is not a value. */
  function FoldChain(first: string, links: seq<Link>, vars: map<string, int64>, ans: int64): (o: Outcome)
    requires IsChain(first, links)
    ensures links == [] ==> o == Value(LeafValue(first, vars, ans))
    ensures (forall l <- links :: l.op in {"+", "-", "*", "&", "^", "|"}) ==> o.Value?
    ensures o.Panic? ==> exists l <- links :: l.op in {"/", "%", "<<", ">>"}
    ensures o.Failure? ==> o.e == InvalidOperator && exists l <- links :: !IsKnownOperator(l.op)
  {
    if links == [] then Value(LeafValue(first, vars, ans))
    else
      var last := links[|links| - 1];
      assert last in links;
      assert IsChain(first, links[..|links| - 1]) by {
        assert forall l <- links[..|links| - 1] :: l in links;
      }
      match FoldChain(first, links[..|links| - 1], vars, ans)
      case Value(a) => Apply(last.op, a, LeafValue(last.operand, vars, ans))
      case o => o
  }

  /** A chain evaluates its operators strictly left to right (there is no
      precedence) and assigns nothing. */
  lemma {:induction false} EvaluateChain(first: string, links: seq<Link>, vars: map<string, int64>, ans: int64)
    requires IsChain(first, links)
    ensures Evaluate(LeftFold(first, links), vars, ans) == Evaluation(FoldChain(first, links, vars, ans), vars)
    decreases |links|
  {
    if links != [] {
      var front := links[..|links| - 1];
      var last := links[|links| - 1];
      assert last in links;
      assert IsChain(first, front) by {
        assert forall l <- front :: l in links;
      }
      EvaluateChain(first, front, vars, ans);
      var leaf := Leaf(last.operand);
      assert Evaluate(leaf, vars, ans) == Evaluation(Value(LeafValue(last.operand, vars, ans)), vars);
    }
  }

  /** Parsing and evaluating the tokens of a chain. */
  lemma ChainSemantics(first: string, links: seq<Link>, vars: map<string, int64>, ans: int64)
    requires IsChain(first, links)
    ensures Parse(ChainTokens(first, links)).ParseOk?
    ensures Evaluate(Parse(ChainTokens(first, links)).tree, vars, ans) == Evaluation(FoldChain(first, links, vars, ans), vars)
  {
    ChainParse(first, links);
    EvaluateChain(first, links, vars, ans);
  }

  /** How `Exec` ends after an evaluation that assigned nothing. */
  function ChainExecution(s: Session, o: Outcome): Execution
  {
    match o
    case Value(v) => Execution(Ok, Session(s.variables, v, None))
    case Failure(c) => Execution(Failed(c), s.(err := Some(c)))
    case Panic => Execution(Crashed, s)
  }

  /** An operator chain typed on one line is executed strictly from left
      to right, assigns nothing, and its value becomes the answer. */
  lemma ExecuteChain(s: Session, first: string, links: seq<Link>, gaps: seq<string>)
    requires IsChain(first, links)
    requires Separable(ChainTokens(first, links), gaps)
    ensures Execute(s, Interleave(ChainTokens(first, links), gaps)) == ChainExecution(s, FoldChain(first, links, s.variables, s.ans))
  {
    TokensOfInterleave(ChainTokens(first, links), gaps);
    ChainSemantics(first, links, s.variables, s.ans);
  }

  /** The value of a term: a word is a leaf, a group the value of its
      contents. */
  function TermValue(t: Term, vars: map<string, int64>, ans: int64): Outcome
    requires TermOk(t)
  {
    match t
    case Word(w) => Value(LeafValue(w, vars, ans))
    case Group(e) => ExprValue(e, vars, ans)
  }

  /** Left-to-right evaluation of an expression with groups: the left side
      first, then the right term, then the operator; the first outcome that
      is not a value is the result. */
  function ExprValue(e: Expr, vars: map<string, int64>, ans: int64): Outcome
    requires ExprOk(e)
  {
    match e
    case Single(t) => TermValue(t, vars, ans)
    case Binary(l, op, r) =>
      match ExprValue(l, vars, ans)
      case Value(a) =>
        (match TermValue(r, vars, ans)
         case Value(b) => Apply(op, a, b)
         case o => o)
      case o => o
  }

  /** A term's tree evaluates to its value and assigns nothing. */
  lemma {:induction false} EvaluateTerm(t: Term, vars: map<string, int64>, ans: int64)
    requires TermOk(t)
    ensures Evaluate(TermTree(t), vars, ans) == Evaluation(TermValue(t, vars, ans), vars)
    decreases t, 0
  {
    match t
    case Word(w) =>
    case Group(e) =>
      EvaluateExpr(e, vars, ans);
  }

  /** An expression's tree evaluates to its value and assigns nothing:
      groups are evaluated on their own, everything else from left to
      right without precedence. */
  lemma {:induction false} EvaluateExpr(e: Expr, vars: map<string, int64>, ans: int64)
    requires ExprOk(e)
    ensures Evaluate(ExprTree(e), vars, ans) == Evaluation(ExprValue(e, vars, ans), vars)
    decreases e, 1
  {
    match e
    case Single(t) =>
      EvaluateTerm(t, vars, ans);
    case Binary(l, op, r) =>
      EvaluateExpr(l, vars, ans);
      EvaluateTerm(r, vars, ans);
  }

  /** A line made of operands, binary operators and parenthesised groups is
      executed with each group evaluated first and everything else from
      left to right; it assigns nothing and its value becomes the answer. */
  lemma ExecuteGrouped(s: Session, e: Expr, gaps: seq<string>)
    requires ExprOk(e)
    requires Separable(ExprTokens(e), gaps)
    ensures Execute(s, Interleave(ExprTokens(e), gaps)) == ChainExecution(s, ExprValue(e, s.variables, s.ans))
  {
    TokensOfInterleave(ExprTokens(e), gaps);
    GroupParse(e);
    EvaluateExpr(e, s.variables, s.ans);
  }
}
