/** The parser as it runs: a lexer position and one peeked token updated in place, proved to read what
    `Parser` and `ProgramText` say (`src/soc/isa/semantics/program.rs`). */
module ParserRun {
  import opened Results
  import opened Seqs
  import opened Words
  import opened Semantics
  import opened Parser
  import opened ProgramText

  /** The items collected so far, and the outcome of the rest. */
  ghost function Gathered<T>(items: seq<T>, rest: Parse<seq<T>>): Parse<seq<T>> {
    if rest.Err? then rest else Ok(Parsed(items + rest.value.value, rest.value.rest))
  }

  lemma GatheredNone<T>(rest: Parse<seq<T>>)
    ensures Gathered([], rest) == rest
  {
    if rest.Ok? { assert [] + rest.value.value == rest.value.value; }
  }

  lemma GatheredStep<T>(items: seq<T>, x: T, rest: Parse<seq<T>>)
    ensures Gathered(items, if rest.Err? then rest else Ok(Parsed([x] + rest.value.value, rest.value.rest))) == Gathered(items + [x], rest)
  {
    if rest.Ok? { AppendAssoc(items, [x], rest.value.value); }
  }

  class TokenParser {
    const source: seq<Token>
    var next: nat
    var peeked: Option<Token>

    ghost predicate Valid()
      reads this
    {
      next <= |source|
    }

    /** The tokens not consumed yet. */
    ghost function Remaining(): seq<Token>
      requires Valid()
      reads this
    {
      (if peeked.Some? then [peeked.value] else []) + source[next..]
    }

    constructor (source: seq<Token>)
      ensures Valid() && Remaining() == source
    {
      this.source := source;
      next := 0;
      peeked := None;
      new;
      DropWhole(source);
    }

    /** The next token, or nothing at the end of the input. */
    method Peek() returns (t: Option<Token>)
      requires Valid()
      modifies this
      ensures Valid() && Remaining() == old(Remaining())
      ensures t == Head(Remaining())
    {
      if peeked.None? && next < |source| {
        assert source[next..] == [source[next]] + source[next + 1..];
        peeked := Some(source[next]);
        next := next + 1;
      }
      t := peeked;
    }

    method Consume() returns (t: Option<Token>)
      requires Valid()
      modifies this
      ensures Valid() && t == Head(old(Remaining()))
      ensures old(Remaining()) == Optional(t) + Remaining()
      ensures t.Some? ==> Remaining() == old(Remaining())[1..]
    {
      if peeked.Some? {
        t := peeked;
        peeked := None;
        assert Remaining() == source[next..];
      } else if next < |source| {
        assert source[next..] == [source[next]] + source[next + 1..];
        t := Some(source[next]);
        next := next + 1;
      } else {
        t := None;
      }
    }

    method MatchToken(wanted: Token) returns (matched: bool)
      requires Valid()
      modifies this
      ensures Valid()
      ensures matched == StartsWith(old(Remaining()), wanted)
      ensures Remaining() == if matched then old(Remaining())[1..] else old(Remaining())
    {
      var t := Peek();
      matched := t == Some(wanted);
      if matched { var _ := Consume(); }
    }

    method ExpectToken(wanted: Token) returns (r: Result<(), ParseError>)
      requires Valid()
      modifies this
      ensures Valid()
      ensures var expected := Expect(old(Remaining()), wanted);
        if expected.Ok? then r == Ok(()) && Remaining() == expected.value else r == Err(expected.error)
    {
      var t := Consume();
      r := if t == Some(wanted) then Ok(()) else Err(Expected(wanted));
    }

    /** The result is the expected one, and on success the tokens left are. */
    ghost predicate Read<T>(r: Result<T, ParseError>, expected: Parse<T>)
      requires Valid()
      reads this
    {
      match expected
      case Ok(parsed) => r == Ok(parsed.value) && Remaining() == parsed.rest
      case Err(error) => r == Err(error)
    }

    /** `parse_logical_or` to `parse_postfix`, each a loop over the operators of its level. */
    method ParseLevelLoop(level: nat) returns (r: Result<Expr, ParseError>)
      requires Valid() && level <= PRIMARY
      modifies this
      ensures Valid() && Read(r, ParseLevel(level, old(Remaining())))
      decreases |Remaining()|, PRIMARY - level, 2
    {
      if level == PRIMARY {
        r := ParsePrimaryToken();
        return;
      }
      ghost var expected := ParseLevel(level, Remaining());
      r := ParseLevelLoop(level + 1);
      if r.Err? { return; }
      var expr := r.value;
      while true
        invariant Valid() && |Remaining()| < |old(Remaining())|
        invariant expected == ParseTail(level, expr, Remaining())
        decreases |Remaining()|
      {
        var t := Peek();
        if level == POSTFIX && t.Some? && t.value.BitExpr? {
          var _ := Consume();
          r := SliceOf(expr, t.value.start, t.value.end);
          if r.Err? { return; }
          expr := r.value;
        } else if level != POSTFIX && t.Some? && t.value.OpToken? && OpLevel(t.value.op) == level {
          var _ := Consume();
          r := ParseLevelLoop(level + 1);
          if r.Err? { return; }
          expr := Binary(t.value.op, expr, r.value);
        } else {
          r := Ok(expr);
          return;
        }
      }
    }

    method ParsePrimaryToken() returns (r: Result<Expr, ParseError>)
      requires Valid()
      modifies this
      ensures Valid() && Read(r, ParsePrimary(old(Remaining())))
      decreases |Remaining()|, 0, 1
    {
      var t := Peek();
      if t.None? { return Err(UnexpectedToken); }
      match t.value
      case LParen =>
        r := ParseParenthesised();
      case Num(value) =>
        var _ := Consume();
        r := Ok(Number(value));
      case Ident(lexeme) =>
        if lexeme != "" && lexeme[0] == '#' {
          var _ := Consume();
          r := Ok(Parameter(lexeme[1..]));
        } else if lexeme != "" && lexeme[0] == '$' {
          r := ParseContextCall(lexeme[1..]);
        } else {
          var _ := Consume();
          r := Ok(Variable(lexeme));
        }
      case _ => r := Err(UnexpectedToken);
    }

    method ParseParenthesised() returns (r: Result<Expr, ParseError>)
      requires Valid() && StartsWith(Remaining(), LParen)
      modifies this
      ensures Valid() && Read(r, ParseParens(old(Remaining())))
      decreases |Remaining()|, 0, 0
    {
      var _ := Consume();
      var first := ParseLevelLoop(0);
      if first.Err? { return first; }
      var more := ParseMoreLoop();
      if more.Err? { return Err(more.error); }
      var closed := ExpectToken(RParen);
      if closed.Err? { return Err(closed.error); }
      r := Ok(if more.value == [] then first.value else Tuple([first.value] + more.value));
    }

    method ParseMoreLoop() returns (r: Result<seq<Expr>, ParseError>)
      requires Valid()
      modifies this
      ensures Valid() && Read(r, ParseMore(old(Remaining())))
      decreases |Remaining()|, 0, 0
    {
      ghost var expected := ParseMore(Remaining());
      var items: seq<Expr> := [];
      GatheredNone(expected);
      ghost var before := Remaining();
      var more := MatchToken(Comma);
      while more
        invariant Valid() && more == StartsWith(before, Comma)
        invariant Remaining() == if more then before[1..] else before
        invariant |before| <= |old(Remaining())|
        invariant expected == Gathered(items, ParseMore(before))
        decreases |before|
      {
        var e := ParseLevelLoop(0);
        if e.Err? { return Err(e.error); }
        before := Remaining();
        GatheredStep(items, e.value, ParseMore(before));
        items := items + [e.value];
        more := MatchToken(Comma);
      }
      assert items + [] == items;
      r := Ok(items);
    }

    method ParseSegmentsLoop() returns (r: Result<seq<string>, ParseError>)
      requires Valid()
      modifies this
      ensures Valid() && Read(r, ParseSegments(old(Remaining())))
    {
      ghost var expected := ParseSegments(Remaining());
      var names: seq<string> := [];
      GatheredNone(expected);
      ghost var before := Remaining();
      var more := MatchToken(DoubleColon);
      while more
        invariant Valid() && more == StartsWith(before, DoubleColon)
        invariant Remaining() == if more then before[1..] else before
        invariant |before| <= |old(Remaining())|
        invariant expected == Gathered(names, ParseSegments(before))
        decreases |before|
      {
        var t := Consume();
        if t.None? || !t.value.Ident? { return Err(ExpectedIdentifier); }
        assert before[1..][1..] == before[2..];
        before := Remaining();
        GatheredStep(names, t.value.lexeme, ParseSegments(before));
        names := names + [t.value.lexeme];
        more := MatchToken(DoubleColon);
      }
      assert names + [] == names;
      r := Ok(names);
    }

    method ParseArgumentList() returns (r: Result<seq<Expr>, ParseError>)
      requires Valid()
      modifies this
      ensures Valid() && Read(r, ParseArguments(old(Remaining())))
      decreases |Remaining()|, 0, 0
    {
      var open := MatchToken(LParen);
      if !open { return Ok([]); }
      var empty := MatchToken(RParen);
      if empty {
        assert old(Remaining())[1..][1..] == old(Remaining())[2..];
        return Ok([]);
      }
      var first := ParseLevelLoop(0);
      if first.Err? { return Err(first.error); }
      var more := ParseMoreLoop();
      if more.Err? { return more; }
      var closed := ExpectToken(RParen);
      if closed.Err? { return Err(closed.error); }
      r := Ok([first.value] + more.value);
    }

    method ParseContextCall(prefix: string) returns (r: Result<Expr, ParseError>)
      requires Valid() && Remaining() != []
      modifies this
      ensures Valid() && Read(r, ParseContext(prefix, old(Remaining())))
      decreases |Remaining()|, 0, 0
    {
      var _ := Consume();
      var segments := ParseSegmentsLoop();
      if segments.Err? { return Err(segments.error); }
      var args := ParseArgumentList();
      if args.Err? { return Err(args.error); }
      if KindOf(prefix).None? { return Err(UnknownContextPrefix(prefix)); }
      if segments.value == [] { return Err(MissingContextName); }
      r := Ok(Call(KindOf(prefix).value, prefix, segments.value[0], segments.value[1..], args.value));
    }

    method ParseStatementTokens() returns (r: Result<Stmt, ParseError>)
      requires Valid()
      modifies this
      ensures Valid() && Read(r, ParseStatement(old(Remaining())))
    {
      var first := ParseLevelLoop(0);
      if first.Err? { return Err(first.error); }
      if IsTarget(first.value) {
        var equals := MatchToken(Equals);
        if equals {
          var rhs := ParseLevelLoop(0);
          if rhs.Err? { return Err(rhs.error); }
          var target := TargetOf(first.value);
          if target.Err? { return Err(target.error); }
          return Ok(Assign(target.value, rhs.value));
        }
      }
      r := Ok(if first.value.Tuple? then Return(first.value) else ExprStmt(first.value));
    }
  }

  /** `parse_program` */
  method ParseProgramTokens(source: seq<Token>) returns (r: Result<Program, ParseError>)
    ensures var expected := ParseProgram(source); if expected.Ok? then r == Ok(expected.value.value) else r == Err(expected.error)
  {
    var parser := new TokenParser(source);
    var stmts: Program := [];
    var t := parser.Peek();
    assert Gathered([], ParseProgram(source)) == ParseProgram(source) by { GatheredNone(ParseProgram(source)); }
    while t.Some? && !t.value.RBrace?
      invariant parser.Valid() && fresh(parser) && t == Head(parser.Remaining())
      invariant ParseProgram(source) == Gathered(stmts, ParseProgram(parser.Remaining()))
      decreases |parser.Remaining()|
    {
      if t.value.Semicolon? {
        var _ := parser.Consume();
      } else {
        var stmt := parser.ParseStatementTokens();
        if stmt.Err? { return Err(stmt.error); }
        GatheredStep(stmts, stmt.value, ParseProgram(parser.Remaining()));
        stmts := stmts + [stmt.value];
      }
      t := parser.Peek();
    }
    assert stmts + [] == stmts;
    r := Ok(stmts);
  }
}
