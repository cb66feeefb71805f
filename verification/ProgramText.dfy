/** Statements and programs as text (`parse_statement` and `parse_program` of
    `src/soc/isa/semantics/program.rs`). */
module ProgramText {
  import opened Results
  import opened Semantics
  import opened Parser

  // ---- The parser ----

  /** `is_assignment_target` */
  predicate IsTarget(e: Expr) {
    e.Variable? || e.Tuple? || (e.Call? && e.kind == RegisterKind)
  }

  function VariableNames(es: seq<Expr>): Result<seq<string>, ParseError> {
    if es == [] then Ok([])
    else if !es[0].Variable? then Err(UnsupportedTarget)
    else
      var more :- VariableNames(es[1..]);
      Ok([es[0].name] + more)
  }

  /** `AssignTarget::try_from_expr`: of a register call only the first argument and the first subfield count. */
  function TargetOf(e: Expr): Result<Target, ParseError> {
    if e.Variable? then Ok(VariableTarget(e.name))
    else if e.Tuple? then
      var names :- VariableNames(e.items);
      Ok(TupleTarget(names))
    else if e.Call? && e.kind == RegisterKind then
      Ok(RegisterTarget(RegisterRef(e.space, e.name, Head(e.subpath), Head(e.args))))
    else Err(UnsupportedTarget)
  }

  function Head<T>(s: seq<T>): Option<T> {
    if s == [] then None else Some(s[0])
  }

  function ParseStatement(ts: seq<Token>): (r: Parse<Stmt>)
    ensures r.Ok? ==> |r.value.rest| < |ts|
  {
    var first :- ParseExpression(ts);
    if StartsWith(first.rest, Equals) && IsTarget(first.value) then
      var rhs :- ParseExpression(first.rest[1..]);
      var target :- TargetOf(first.value);
      Ok(Parsed(Assign(target, rhs.value), rhs.rest))
    else Ok(Parsed(if first.value.Tuple? then Return(first.value) else ExprStmt(first.value), first.rest))
  }

  /** Statements up to the end or a closing brace; semicolons are skipped. */
  function ParseProgram(ts: seq<Token>): Parse<Program>
    decreases |ts|
  {
    if ts == [] || ts[0].RBrace? then Ok(Parsed([], ts))
    else if ts[0].Semicolon? then ParseProgram(ts[1..])
    else
      var stmt :- ParseStatement(ts);
      var more :- ParseProgram(stmt.rest);
      Ok(Parsed([stmt.value] + more.value, more.rest))
  }

  // ---- The printer ----

  function Optional<T>(o: Option<T>): seq<T> {
    if o.Some? then [o.value] else []
  }

  function Variables(names: seq<string>): seq<Expr> {
    if names == [] then [] else [Variable(names[0])] + Variables(names[1..])
  }

  function TargetExpr(target: Target): Expr {
    match target
    case VariableTarget(name) => Variable(name)
    case TupleTarget(names) => Tuple(Variables(names))
    case RegisterTarget(r) => Call(RegisterKind, r.space, r.name, Optional(r.subfield), Optional(r.index))
  }

  function PrintStmt(stmt: Stmt): seq<Token> {
    if stmt.Assign? then Print(0, TargetExpr(stmt.target)) + ([Equals] + Print(0, stmt.expr)) else Print(0, stmt.expr)
  }

  /** The statements that have a text: what is returned is a tuple, and a tuple alone is returned. */
  predicate PrintableStmt(stmt: Stmt) {
    && Printable(stmt.expr)
    && (stmt.Assign? ==> Printable(TargetExpr(stmt.target)))
    && (!stmt.Assign? ==> (stmt.Return? <==> stmt.expr.Tuple?))
  }

  /** The statements with a semicolon after those that are to have one. */
  function PrintProgram(stmts: Program, separated: seq<bool>): seq<Token>
    requires |separated| == |stmts|
    decreases |stmts|
  {
    if stmts == [] then []
    else PrintStmt(stmts[0]) + (Separator(separated[0]) + PrintProgram(stmts[1..], separated[1..]))
  }

  function Separator(wanted: bool): seq<Token> {
    if wanted then [Semicolon] else []
  }

  /** The statement ends in a call without arguments. */
  predicate EndsInBareCall(stmt: Stmt) {
    EndsBare(0, stmt.expr)
  }

  /** A statement that ends in a call without arguments needs a semicolon before one that opens with a parenthesis. */
  predicate NeedsSeparator(stmt: Stmt, next: Stmt) {
    EndsInBareCall(stmt) && StartsWith(PrintStmt(next), LParen)
  }

  predicate Separated(stmts: Program, separated: seq<bool>) {
    && |separated| == |stmts|
    && forall k | 0 <= k < |stmts| - 1 :: NeedsSeparator(stmts[k], stmts[k + 1]) ==> separated[k]
  }

  // ---- Parsing undoes printing ----

  lemma {:induction false} VariablesBack(names: seq<string>)
    ensures VariableNames(Variables(names)) == Ok(names)
  {
    if names != [] {
      VariablesBack(names[1..]);
      assert Variables(names)[1..] == Variables(names[1..]);
      assert [names[0]] + names[1..] == names;
    }
  }

  lemma TargetBack(target: Target)
    ensures IsTarget(TargetExpr(target)) && TargetOf(TargetExpr(target)) == Ok(target)
  {
    if target.TupleTarget? { VariablesBack(target.names); }
  }

  /** The tokens can follow a statement. */
  predicate EndsStmt(ts: seq<Token>) {
    Stops(0, ts) && !StartsWith(ts, Equals)
  }

  lemma StatementRoundTrip(stmt: Stmt, rest: seq<Token>)
    requires PrintableStmt(stmt) && EndsStmt(rest) && (StartsWith(rest, LParen) ==> !EndsInBareCall(stmt))
    ensures ParseStatement(PrintStmt(stmt) + rest) == Ok(Parsed(stmt, rest))
  {
    if stmt.Assign? {
      var right := Print(0, stmt.expr) + rest;
      var left := Print(0, TargetExpr(stmt.target));
      assert PrintStmt(stmt) + rest == left + ([Equals] + right);
      ExpressionRoundTrip(TargetExpr(stmt.target), [Equals] + right);
      assert ([Equals] + right)[1..] == right;
      ExpressionRoundTrip(stmt.expr, rest);
      TargetBack(stmt.target);
    } else {
      ExpressionRoundTrip(stmt.expr, rest);
    }
  }

  lemma StmtStarts(stmt: Stmt)
    ensures var ts := PrintStmt(stmt); ts != [] && (ts[0].LParen? || ts[0].Ident? || ts[0].Num?)
  {
    FirstToken(0, if stmt.Assign? then TargetExpr(stmt.target) else stmt.expr);
  }

  /** The tokens after the first statement of a printed program. */
  function Tail(stmts: Program, separated: seq<bool>, rest: seq<Token>): seq<Token>
    requires stmts != [] && |separated| == |stmts|
  {
    Separator(separated[0]) + (PrintProgram(stmts[1..], separated[1..]) + rest)
  }

  predicate AllPrintableStmts(stmts: Program) {
    forall k | 0 <= k < |stmts| :: PrintableStmt(stmts[k])
  }

  /** Parsing the text of a program gives the program back exactly when every statement that ends in a call without
      arguments is separated from one that opens with a parenthesis. */
  lemma {:induction false} ProgramRoundTrip(stmts: Program, separated: seq<bool>, rest: seq<Token>)
    requires |separated| == |stmts| && AllPrintableStmts(stmts) && (rest == [] || rest[0].RBrace?)
    ensures ParseProgram(PrintProgram(stmts, separated) + rest) == Ok(Parsed(stmts, rest)) <==> Separated(stmts, separated)
    decreases |stmts|
  {
    var ts := PrintProgram(stmts, separated) + rest;
    if stmts == [] {
      assert ts == rest;
    } else {
      var tail := Tail(stmts, separated, rest);
      RegroupProgram(PrintStmt(stmts[0]), Separator(separated[0]), PrintProgram(stmts[1..], separated[1..]), rest);
      assert PrintableStmt(stmts[0]);
      RestEnds(stmts, separated, rest);
      StmtStarts(stmts[0]);
      SeparatedIff(stmts, separated);
      if StartsWith(tail, LParen) && EndsInBareCall(stmts[0]) {
        TailOpens(stmts, separated, rest);
        StatementSwallows(stmts[0], tail);
        SwallowedStep(ts, stmts, rest);
      } else {
        StatementRoundTrip(stmts[0], tail);
        AllPrintableTail(stmts);
        ProgramRoundTrip(stmts[1..], separated[1..], rest);
        SkipSeparator(separated[0], PrintProgram(stmts[1..], separated[1..]) + rest);
        ProgramStep(ts, stmts, tail, rest);
      }
    }
  }

  lemma AllPrintableTail(stmts: Program)
    requires stmts != [] && AllPrintableStmts(stmts)
    ensures AllPrintableStmts(stmts[1..])
  {
    forall k | 0 <= k < |stmts[1..]| ensures PrintableStmt(stmts[1..][k]) { assert stmts[1..][k] == stmts[k + 1]; }
  }

  lemma RegroupProgram(a: seq<Token>, b: seq<Token>, c: seq<Token>, rest: seq<Token>)
    ensures a + (b + c) + rest == a + (b + (c + rest))
  {}

  lemma SeparatedIff(stmts: Program, separated: seq<bool>)
    requires stmts != [] && |separated| == |stmts|
    ensures Separated(stmts, separated) <==>
      (|stmts| > 1 && NeedsSeparator(stmts[0], stmts[1]) ==> separated[0]) && Separated(stmts[1..], separated[1..])
  {
    assert forall k | 0 <= k < |stmts| - 1 :: stmts[1..][k] == stmts[k + 1] && separated[1..][k] == separated[k + 1];
    if Separated(stmts[1..], separated[1..]) && (|stmts| > 1 && NeedsSeparator(stmts[0], stmts[1]) ==> separated[0]) {
      forall k | 0 <= k < |stmts| - 1 && NeedsSeparator(stmts[k], stmts[k + 1]) ensures separated[k] {
        if k > 0 { assert NeedsSeparator(stmts[1..][k - 1], stmts[1..][k]); }
      }
    }
    if Separated(stmts, separated) {
      forall k | 0 <= k < |stmts[1..]| - 1 && NeedsSeparator(stmts[1..][k], stmts[1..][k + 1]) ensures separated[1..][k] {
        assert stmts[1..][k + 1] == stmts[k + 2] && NeedsSeparator(stmts[k + 1], stmts[k + 2]);
      }
    }
  }

  /** What follows a statement can end it, and opens with a parenthesis exactly when the next statement does and there
      is no semicolon. */
  lemma RestEnds(stmts: Program, separated: seq<bool>, rest: seq<Token>)
    requires stmts != [] && |separated| == |stmts| && (rest == [] || rest[0].RBrace?)
    ensures EndsStmt(Tail(stmts, separated, rest))
    ensures StartsWith(Tail(stmts, separated, rest), LParen) <==>
      !separated[0] && |stmts| > 1 && StartsWith(PrintStmt(stmts[1]), LParen)
  {
    var more := PrintProgram(stmts[1..], separated[1..]) + rest;
    if separated[0] {
      assert (Separator(true) + more)[0] == Semicolon;
    } else {
      assert Separator(false) + more == more;
      if |stmts| > 1 {
        StmtStarts(stmts[1]);
        assert more[0] == PrintStmt(stmts[1])[0];
      } else {
        assert more == rest;
      }
    }
  }

  lemma SkipSeparator(wanted: bool, more: seq<Token>)
    ensures ParseProgram(Separator(wanted) + more) == ParseProgram(more)
  {
    if wanted { assert (Separator(true) + more)[1..] == more; } else { assert Separator(false) + more == more; }
  }

  lemma ProgramStep(ts: seq<Token>, stmts: Program, tail: seq<Token>, rest: seq<Token>)
    requires stmts != [] && ts != [] && (ts[0].LParen? || ts[0].Ident? || ts[0].Num?)
    requires ParseStatement(ts) == Ok(Parsed(stmts[0], tail))
    ensures ParseProgram(ts) == Ok(Parsed(stmts, rest)) <==> ParseProgram(tail) == Ok(Parsed(stmts[1..], rest))
  {
    assert [stmts[0]] + stmts[1..] == stmts;
    var more := ParseProgram(tail);
    if more.Ok? { assert ([stmts[0]] + more.value.value)[1..] == more.value.value; }
  }

  // ---- A call without arguments takes the parenthesis after it ----

  function Size(e: Expr): nat {
    match e
    case Call(_, _, _, _, args) => 1 + SizeAll(args)
    case Tuple(items) => 1 + SizeAll(items)
    case Binary(_, lhs, rhs) => 1 + Size(lhs) + Size(rhs)
    case Slice(inner, _, _) => 1 + Size(inner)
    case _ => 1
  }

  function SizeAll(es: seq<Expr>): nat {
    if es == [] then 0 else 1 + Size(es[0]) + SizeAll(es[1..])
  }

  /** What a loop reads only makes its operand larger. */
  lemma {:induction false} TailGrows(level: nat, acc: Expr, ts: seq<Token>)
    requires level < PRIMARY
    ensures var r := ParseTail(level, acc, ts); r.Ok? ==> Size(r.value.value) >= Size(acc)
    decreases |ts|
  {
    if level == POSTFIX {
      if ts != [] && ts[0].BitExpr? && ts[0].start <= ts[0].end {
        TailGrows(level, SliceOf(acc, ts[0].start, ts[0].end).value, ts[1..]);
      }
    } else if Continues(level, ts) {
      var rhs := ParseLevel(level + 1, ts[1..]);
      if rhs.Ok? { TailGrows(level, Binary(ts[0].op, acc, rhs.value.value), rhs.value.rest); }
    }
  }

  /** The tokens open a parenthesis with something in it. */
  predicate OpensList(ts: seq<Token>) {
    |ts| >= 2 && ts[0] == LParen && ts[1] != RParen
  }

  /** What is parsed is larger than the expression. */
  predicate Larger(r: Parse<Expr>, e: Expr) {
    r.Ok? ==> Size(r.value.value) > Size(e)
  }

  /** The text of an expression that ends in a call without arguments, with a parenthesis after it, is not the text of
      that expression any more: the call has taken arguments. */
  lemma {:induction false} BareCallSwallows(level: nat, e: Expr, rest: seq<Token>)
    requires level <= PRIMARY && Printable(e) && EndsBare(level, e) && OpensList(rest)
    ensures Larger(ParseLevel(level, Print(level, e) + rest), e)
    decreases e, PRIMARY - level
  {
    var ts := Print(level, e) + rest;
    if level < LevelOf(e) {
      assert Print(level, e) == Print(level + 1, e);
      BareCallSwallows(level + 1, e, rest);
      var first := ParseLevel(level + 1, ts);
      if first.Ok? { TailGrows(level, first.value.value, first.value.rest); }
    } else if e.Binary? {
      BinarySwallows(e, rest);
    } else {
      CallSwallows(e, rest);
    }
  }

  lemma {:induction false} BinarySwallows(e: Expr, rest: seq<Token>)
    requires e.Binary? && Printable(e) && EndsBare(OpLevel(e.op), e) && OpensList(rest)
    ensures Larger(ParseLevel(OpLevel(e.op), Print(OpLevel(e.op), e) + rest), e)
    decreases e, 0
  {
    var level := OpLevel(e.op);
    var right := Print(level + 1, e.rhs) + rest;
    var middle := [OpToken(e.op)] + right;
    Regroup(Print(level, e.lhs), [OpToken(e.op)] + Print(level + 1, e.rhs), rest);
    Regroup([OpToken(e.op)], Print(level + 1, e.rhs), rest);
    PrintThenParse(level, e.lhs, middle);
    assert middle[1..] == right;
    BareCallSwallows(level + 1, e.rhs, rest);
    var rhs := ParseLevel(level + 1, right);
    if rhs.Ok? { TailGrows(level, Binary(e.op, e.lhs, rhs.value.value), rhs.value.rest); }
  }

  lemma CallSwallows(e: Expr, rest: seq<Token>)
    requires e.Call? && e.args == [] && Printable(e) && OpensList(rest)
    ensures Larger(ParseLevel(PRIMARY, Print(PRIMARY, e) + rest), e)
  {
    var ts := Print(PRIMARY, e) + rest;
    var names := [e.name] + e.subpath;
    TailOf(ts, Ident("$" + e.space), PrintSegments(names), PrintArguments(e.args), rest);
    assert PrintArguments(e.args) + rest == rest;
    SegmentsThenParse(names, rest);
    PrefixTail('$', e.space);
    assert !StartsWith(rest[1..], RParen);
    assert ParsePrimary(ts) == ParseContext(e.space, ts);
  }

  lemma AssignSwallows(stmt: Stmt, right: seq<Token>)
    requires stmt.Assign? && PrintableStmt(stmt) && Larger(ParseExpression(right), stmt.expr)
    ensures var r := ParseStatement(Print(0, TargetExpr(stmt.target)) + ([Equals] + right)); r.Ok? ==> r.value.value != stmt
  {
    ExpressionRoundTrip(TargetExpr(stmt.target), [Equals] + right);
    assert ([Equals] + right)[1..] == right;
    TargetBack(stmt.target);
  }

  /** The statement that is read instead is not the one that was printed. */
  lemma StatementSwallows(stmt: Stmt, rest: seq<Token>)
    requires PrintableStmt(stmt) && EndsInBareCall(stmt) && OpensList(rest)
    ensures var r := ParseStatement(PrintStmt(stmt) + rest); r.Ok? ==> r.value.value != stmt
  {
    BareCallSwallows(0, stmt.expr, rest);
    if stmt.Assign? {
      var left := Print(0, TargetExpr(stmt.target));
      assert PrintStmt(stmt) + rest == left + ([Equals] + (Print(0, stmt.expr) + rest));
      AssignSwallows(stmt, Print(0, stmt.expr) + rest);
    }
  }

  lemma SwallowedStep(ts: seq<Token>, stmts: Program, rest: seq<Token>)
    requires stmts != [] && ts != [] && (ts[0].LParen? || ts[0].Ident? || ts[0].Num?)
    requires var r := ParseStatement(ts); r.Ok? ==> r.value.value != stmts[0]
    ensures ParseProgram(ts) != Ok(Parsed(stmts, rest))
  {
    var stmt := ParseStatement(ts);
    if stmt.Ok? {
      var more := ParseProgram(stmt.value.rest);
      if more.Ok? { assert ([stmt.value.value] + more.value.value)[0] == stmt.value.value; }
    }
  }

  /** A printed expression that opens a parenthesis has something in it. */
  lemma {:induction false} SecondToken(level: nat, e: Expr)
    requires level <= PRIMARY && Printable(e) && StartsWith(Print(level, e), LParen)
    ensures OpensList(Print(level, e))
    decreases e
  {
    if NeedsParens(level, e) {
      FirstToken(0, e);
      assert Print(level, e)[1] == Print(0, e)[0];
    } else {
      match e
      case Binary(op, lhs, _) =>
        FirstToken(OpLevel(op), lhs);
        SecondToken(OpLevel(op), lhs);
      case Slice(inner, _, _) =>
        FirstToken(POSTFIX, inner);
        SecondToken(POSTFIX, inner);
      case Tuple(items) =>
        FirstToken(0, items[0]);
        assert Print(level, e)[1] == PrintList(items)[0] == Print(0, items[0])[0];
      case _ =>
    }
  }

  lemma TailOpens(stmts: Program, separated: seq<bool>, rest: seq<Token>)
    requires |stmts| > 1 && |separated| == |stmts| && PrintableStmt(stmts[1])
    requires !separated[0] && StartsWith(PrintStmt(stmts[1]), LParen)
    ensures OpensList(Tail(stmts, separated, rest))
  {
    var next := if stmts[1].Assign? then TargetExpr(stmts[1].target) else stmts[1].expr;
    FirstToken(0, next);
    SecondToken(0, next);
    var more := PrintProgram(stmts[1..], separated[1..]) + rest;
    assert Separator(false) + more == more;
    assert Print(0, next) <= PrintStmt(stmts[1]) <= PrintProgram(stmts[1..], separated[1..]) <= more;
  }

  /** Why a semicolon is needed before a parenthesis: a call without arguments followed by a tuple has the
      text of the call with the members of the tuple as its arguments. */
  lemma CallSwallowsTuple(call: Expr, items: seq<Expr>)
    requires call.Call? && call.args == [] && |items| >= 2
    ensures PrintStmt(ExprStmt(call)) + PrintStmt(Return(Tuple(items))) == PrintStmt(ExprStmt(call.(args := items)))
  {
    var names := [Ident("$" + call.space)] + (PrintSegments([call.name] + call.subpath) + []);
    var tuple := [LParen] + (PrintList(items) + [RParen]);
    assert Print(0, Tuple(items)) == tuple && PrintArguments(items) == tuple;
    assert Print(0, call) == names;
    assert Print(0, call.(args := items)) == [Ident("$" + call.space)] + (PrintSegments([call.name] + call.subpath) + tuple);
    assert names + tuple == [Ident("$" + call.space)] + (PrintSegments([call.name] + call.subpath) + tuple);
  }
}
