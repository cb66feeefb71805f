/** The precedence parser of semantic programs over tokens (`src/soc/isa/semantics/program.rs`), a
    printer, and the proof that parsing undoes printing. */
module Parser {
  import opened Words
  import opened Results
  import opened Semantics

  datatype Token =
    | Ident(lexeme: string)
    | Num(value: U64)
    | BitExpr(start: U64, end: U64)
    | LParen | RParen | Comma | DoubleColon | Semicolon | Equals | RBrace
    | OpToken(op: BinaryOp)
    | OtherToken

  datatype ParseError =
    | UnexpectedToken
    | Expected(what: Token)
    | ExpectedIdentifier
    | UnknownContextPrefix(prefix: string)
    | MissingContextName
    | SliceEndBeforeStart
    | UnsupportedTarget

  /** What was read and the tokens after it. */
  datatype Parsed<+T> = Parsed(value: T, rest: seq<Token>)

  type Parse<+T> = Result<Parsed<T>, ParseError>

  // ---- Precedence ----

  const POSTFIX: nat := 8
  const PRIMARY: nat := 9

  /** From `parse_logical_or` down to `parse_term`. */
  function OpLevel(op: BinaryOp): (level: nat)
    ensures level < POSTFIX
  {
    match op
    case LogicalOr => 0
    case LogicalAnd => 1
    case BitOrOp => 2
    case BitXorOp => 3
    case BitAndOp => 4
    case EqOp => 5
    case NeOp => 5
    case LtOp => 6
    case GtOp => 6
    case AddOp => 7
    case SubOp => 7
  }

  predicate StartsWith(ts: seq<Token>, t: Token) {
    ts != [] && ts[0] == t
  }

  function Expect(ts: seq<Token>, t: Token): Result<seq<Token>, ParseError> {
    if StartsWith(ts, t) then Ok(ts[1..]) else Err(Expected(t))
  }

  /** The next token is an operator of the level. */
  predicate Continues(level: nat, ts: seq<Token>) {
    ts != [] && ts[0].OpToken? && OpLevel(ts[0].op) == level
  }

  /** `parse_bit_slice` keeps the low 32 bits of its bounds. */
  function SliceOf(inner: Expr, start: U64, end: U64): Result<Expr, ParseError> {
    if end < start then Err(SliceEndBeforeStart)
    else Ok(Slice(inner, start % 0x1_0000_0000, end % 0x1_0000_0000))
  }

  /** `ContextKind::from_prefix` */
  function KindOf(prefix: string): Option<Kind> {
    if EqIgnoreCase(prefix, "reg") then Some(RegisterKind)
    else if EqIgnoreCase(prefix, "macro") then Some(MacroKind)
    else if EqIgnoreCase(prefix, "insn") then Some(InstructionKind)
    else if EqIgnoreCase(prefix, "host") then Some(HostKind)
    else None
  }

  // ---- The parser ----

  /** The parser of one precedence level: an operand of the next level, then the operators of this one.
      Level 8 reads bit slices and level 9 is `parse_primary`. */
  function ParseLevel(level: nat, ts: seq<Token>): (r: Parse<Expr>)
    requires level <= PRIMARY
    ensures r.Ok? ==> |r.value.rest| < |ts|
    decreases |ts|, PRIMARY - level, 2
  {
    if level == PRIMARY then ParsePrimary(ts)
    else
      var first :- ParseLevel(level + 1, ts);
      ParseTail(level, first.value, first.rest)
  }

  /** The loop of a level: the expression read so far becomes the left operand. */
  function ParseTail(level: nat, acc: Expr, ts: seq<Token>): (r: Parse<Expr>)
    requires level < PRIMARY
    ensures r.Ok? ==> |r.value.rest| <= |ts|
    decreases |ts|, 0, 0
  {
    if level == POSTFIX then
      if ts != [] && ts[0].BitExpr? then
        var slice :- SliceOf(acc, ts[0].start, ts[0].end);
        ParseTail(level, slice, ts[1..])
      else Ok(Parsed(acc, ts))
    else if Continues(level, ts) then
      var rhs :- ParseLevel(level + 1, ts[1..]);
      ParseTail(level, Binary(ts[0].op, acc, rhs.value), rhs.rest)
    else Ok(Parsed(acc, ts))
  }

  function ParsePrimary(ts: seq<Token>): (r: Parse<Expr>)
    ensures r.Ok? ==> |r.value.rest| < |ts|
    decreases |ts|, 0, 1
  {
    if ts == [] then Err(UnexpectedToken)
    else
      match ts[0]
      case LParen => ParseParens(ts)
      case Num(value) => Ok(Parsed(Number(value), ts[1..]))
      case Ident(lexeme) =>
        if lexeme != "" && lexeme[0] == '#' then Ok(Parsed(Parameter(lexeme[1..]), ts[1..]))
        else if lexeme != "" && lexeme[0] == '$' then ParseContext(lexeme[1..], ts)
        else Ok(Parsed(Variable(lexeme), ts[1..]))
      case _ => Err(UnexpectedToken)
  }

  /** A parenthesised expression, or a tuple of at least two. */
  function ParseParens(ts: seq<Token>): (r: Parse<Expr>)
    requires StartsWith(ts, LParen)
    ensures r.Ok? ==> |r.value.rest| < |ts|
    decreases |ts|, 0, 0
  {
    var first :- ParseLevel(0, ts[1..]);
    var more :- ParseMore(first.rest);
    var rest :- Expect(more.rest, RParen);
    Ok(Parsed(if more.value == [] then first.value else Tuple([first.value] + more.value), rest))
  }

  /** `, expression` any number of times */
  function ParseMore(ts: seq<Token>): (r: Parse<seq<Expr>>)
    ensures r.Ok? ==> |r.value.rest| <= |ts|
    decreases |ts|, 0, 0
  {
    if !StartsWith(ts, Comma) then Ok(Parsed([], ts))
    else
      var next :- ParseLevel(0, ts[1..]);
      var more :- ParseMore(next.rest);
      Ok(Parsed([next.value] + more.value, more.rest))
  }

  function ParseSegments(ts: seq<Token>): (r: Parse<seq<string>>)
    ensures r.Ok? ==> |r.value.rest| <= |ts|
    decreases |ts|
  {
    if !StartsWith(ts, DoubleColon) then Ok(Parsed([], ts))
    else if |ts| == 1 || !ts[1].Ident? then Err(ExpectedIdentifier)
    else
      var more :- ParseSegments(ts[2..]);
      Ok(Parsed([ts[1].lexeme] + more.value, more.rest))
  }

  /** `parse_argument_list`, if there is one */
  function ParseArguments(ts: seq<Token>): (r: Parse<seq<Expr>>)
    ensures r.Ok? ==> |r.value.rest| <= |ts|
    decreases |ts|, 0, 0
  {
    if !StartsWith(ts, LParen) then Ok(Parsed([], ts))
    else if StartsWith(ts[1..], RParen) then Ok(Parsed([], ts[2..]))
    else
      var first :- ParseLevel(0, ts[1..]);
      var more :- ParseMore(first.rest);
      var rest :- Expect(more.rest, RParen);
      Ok(Parsed([first.value] + more.value, rest))
  }

  /** A context call; its prefix is only looked at after its arguments are read. */
  function ParseContext(prefix: string, ts: seq<Token>): (r: Parse<Expr>)
    requires ts != []
    ensures r.Ok? ==> |r.value.rest| < |ts|
    decreases |ts|, 0, 0
  {
    var segments :- ParseSegments(ts[1..]);
    var args :- ParseArguments(segments.rest);
    if KindOf(prefix).None? then Err(UnknownContextPrefix(prefix))
    else if segments.value == [] then Err(MissingContextName)
    else
      Ok(Parsed(Call(KindOf(prefix).value, prefix, segments.value[0], segments.value[1..], args.value), args.rest))
  }

  function ParseExpression(ts: seq<Token>): (r: Parse<Expr>)
    ensures r.Ok? ==> |r.value.rest| < |ts|
  {
    ParseLevel(0, ts)
  }

  // ---- The printer ----

  function LevelOf(e: Expr): (level: nat)
    ensures level <= PRIMARY
  {
    match e
    case Binary(op, _, _) => OpLevel(op)
    case Slice(_, _, _) => POSTFIX
    case _ => PRIMARY
  }

  predicate NeedsParens(level: nat, e: Expr) {
    LevelOf(e) < level
  }

  /** The expression where an operand of the level is wanted, parenthesised only if it binds less. */
  function Print(level: nat, e: Expr): seq<Token>
    requires level <= PRIMARY
    decreases e, 1, NeedsParens(level, e)
  {
    if NeedsParens(level, e) then [LParen] + (Print(0, e) + [RParen])
    else
      match e
      case Number(value) => [Num(value)]
      case Variable(name) => [Ident(name)]
      case Parameter(name) => [Ident("#" + name)]
      case Binary(op, lhs, rhs) => Print(OpLevel(op), lhs) + ([OpToken(op)] + Print(OpLevel(op) + 1, rhs))
      case Slice(inner, start, end) => Print(POSTFIX, inner) + [BitExpr(BitPosition(start), BitPosition(end))]
      case Tuple(items) => [LParen] + (PrintList(items) + [RParen])
      case Call(_, space, name, subpath, args) =>
        [Ident("$" + space)] + (PrintSegments([name] + subpath) + PrintArguments(args))
  }

  /** Slice bounds are tokens of 64 bits. */
  function BitPosition(n: nat): U64 {
    n % WORD
  }

  function PrintList(es: seq<Expr>): seq<Token>
    decreases es, 0
  {
    if es == [] then [] else Print(0, es[0]) + PrintMore(es[1..])
  }

  function PrintMore(es: seq<Expr>): seq<Token>
    decreases es, 0
  {
    if es == [] then [] else [Comma] + (Print(0, es[0]) + PrintMore(es[1..]))
  }

  function PrintSegments(names: seq<string>): seq<Token> {
    if names == [] then [] else [DoubleColon, Ident(names[0])] + PrintSegments(names[1..])
  }

  function PrintArguments(args: seq<Expr>): seq<Token>
    decreases args, 1
  {
    if args == [] then [] else [LParen] + (PrintList(args) + [RParen])
  }

  /** The name is not taken for a parameter or a context. */
  predicate PlainName(name: string) {
    name == "" || (name[0] != '#' && name[0] != '$')
  }

  /** The expressions that have a text: tuples have two members or more, and slices ordered 32-bit bounds. */
  predicate Printable(e: Expr) {
    match e
    case Number(_) => true
    case Variable(name) => PlainName(name)
    case Parameter(_) => true
    case Call(kind, space, _, _, args) => KindOf(space) == Some(kind) && AllPrintable(args)
    case Tuple(items) => |items| >= 2 && AllPrintable(items)
    case Binary(_, lhs, rhs) => Printable(lhs) && Printable(rhs)
    case Slice(inner, start, end) => Printable(inner) && start <= end < 0x1_0000_0000
  }

  predicate AllPrintable(es: seq<Expr>) {
    es == [] || (Printable(es[0]) && AllPrintable(es[1..]))
  }

  // ---- Parsing undoes printing ----

  /** The printed expression ends in a call without arguments, which would take a parenthesis after it for its own. */
  predicate EndsBare(level: nat, e: Expr)
    decreases e
  {
    !NeedsParens(level, e) &&
    match e
    case Binary(op, _, rhs) => EndsBare(OpLevel(op) + 1, rhs)
    case Call(_, _, _, _, args) => args == []
    case _ => false
  }

  /** No parenthesis follows a call without arguments. */
  predicate Clear(level: nat, e: Expr, ts: seq<Token>) {
    StartsWith(ts, LParen) ==> !EndsBare(level, e)
  }

  /** The tokens cannot extend an expression of the level or above it, unless it ends in a call without arguments. */
  predicate Stops(level: nat, ts: seq<Token>) {
    ts == [] ||
    (&& ts[0] != DoubleColon
     && (level <= POSTFIX ==> !ts[0].BitExpr?)
     && (ts[0].OpToken? ==> OpLevel(ts[0].op) < level))
  }

  /** What the loop of a level makes of an operand and the tokens after it. */
  function Continue(level: nat, e: Expr, ts: seq<Token>): Parse<Expr>
    requires level <= PRIMARY
  {
    if level == PRIMARY then Ok(Parsed(e, ts)) else ParseTail(level, e, ts)
  }

  /** The order in which the proof meets the levels at which one expression is printed. */
  function Rounds(level: nat, e: Expr): nat
    requires level <= PRIMARY
  {
    if NeedsParens(level, e) then 20 + PRIMARY - level else LevelOf(e) - level
  }

  lemma StopsEarlier(level: nat, ts: seq<Token>)
    requires Stops(level, ts)
    ensures Stops(level + 1, ts)
    ensures level <= PRIMARY ==> forall e :: Continue(level, e, ts) == Ok(Parsed(e, ts))
  {}

  /** The operand at the next level, when the expression does not end at this one. */
  lemma PassLevel(level: nat, e: Expr, ts: seq<Token>, rest: seq<Token>)
    requires level < PRIMARY && Stops(level + 1, rest)
    requires ParseLevel(level + 1, ts) == Continue(level + 1, e, rest)
    ensures ParseLevel(level, ts) == ParseTail(level, e, rest)
  {
    StopsEarlier(level + 1, rest);
  }

  /** Reading a printed expression brings the parser to the loop of its level, with the expression in hand. */
  lemma {:induction false} PrintThenParse(level: nat, e: Expr, rest: seq<Token>)
    requires level <= PRIMARY && Printable(e) && Stops(level + 1, rest) && Clear(level, e, rest)
    ensures ParseLevel(level, Print(level, e) + rest) == Continue(level, e, rest)
    decreases e, 1, Rounds(level, e)
  {
    if level < PRIMARY && LevelOf(e) != level {
      assert Print(level, e) == Print(level + 1, e);
      StopsEarlier(level + 1, rest);
      PrintThenParse(level + 1, e, rest);
      PassLevel(level, e, Print(level, e) + rest, rest);
    } else if NeedsParens(level, e) {
      PrintThenParse(0, e, [RParen] + rest);
      ParensStep(Print(level, e) + rest, Print(0, e), e, rest);
    } else {
      match e
      case Binary(op, lhs, rhs) => BinaryThenParse(e, rest);
      case Slice(_, _, _) => SliceThenParse(e, rest);
      case Tuple(_) => TupleThenParse(e, rest);
      case Call(_, _, _, _, _) => CallThenParse(e, rest);
      case Parameter(name) => PrefixTail('#', name);
      case _ =>
    }
  }

  lemma PrefixTail(c: char, name: string)
    ensures ([c] + name)[0] == c && ([c] + name)[1..] == name
  {}

  /** The tokens after the first, when printed text is followed by more. */
  lemma TailOf(ts: seq<Token>, t: Token, a: seq<Token>, b: seq<Token>, rest: seq<Token>)
    requires ts == [t] + (a + b) + rest
    ensures ts != [] && ts[0] == t && ts[1..] == a + (b + rest)
  {}

  lemma Regroup(a: seq<Token>, b: seq<Token>, rest: seq<Token>)
    ensures (a + b) + rest == a + (b + rest)
  {}

  lemma ParensStep(ts: seq<Token>, inner: seq<Token>, e: Expr, rest: seq<Token>)
    requires ts == [LParen] + (inner + [RParen]) + rest
    requires ParseLevel(0, inner + ([RParen] + rest)) == Ok(Parsed(e, [RParen] + rest))
    ensures ParseLevel(PRIMARY, ts) == Ok(Parsed(e, rest))
  {
    TailOf(ts, LParen, inner, [RParen], rest);
    assert ParseMore([RParen] + rest) == Ok(Parsed([], [RParen] + rest));
    assert ([RParen] + rest)[1..] == rest;
    assert ParseParens(ts) == Ok(Parsed(e, rest));
  }

  lemma {:induction false} BinaryThenParse(e: Expr, rest: seq<Token>)
    requires e.Binary? && Printable(e) && Stops(OpLevel(e.op) + 1, rest) && Clear(OpLevel(e.op), e, rest)
    ensures ParseLevel(OpLevel(e.op), Print(OpLevel(e.op), e) + rest) == Continue(OpLevel(e.op), e, rest)
    decreases e, 0
  {
    var level := OpLevel(e.op);
    var right := Print(level + 1, e.rhs) + rest;
    var middle := [OpToken(e.op)] + right;
    Regroup(Print(level, e.lhs), [OpToken(e.op)] + Print(level + 1, e.rhs), rest);
    Regroup([OpToken(e.op)], Print(level + 1, e.rhs), rest);
    PrintThenParse(level, e.lhs, middle);
    StopsEarlier(level + 1, rest);
    PrintThenParse(level + 1, e.rhs, rest);
    OperatorStep(level, e.lhs, e.op, right, e.rhs, rest);
  }

  lemma OperatorStep(level: nat, acc: Expr, op: BinaryOp, right: seq<Token>, rhs: Expr, rest: seq<Token>)
    requires OpLevel(op) == level && ParseLevel(level + 1, right) == Ok(Parsed(rhs, rest))
    ensures ParseTail(level, acc, [OpToken(op)] + right) == ParseTail(level, Binary(op, acc, rhs), rest)
  {
    assert ([OpToken(op)] + right)[1..] == right;
  }

  lemma {:induction false} SliceThenParse(e: Expr, rest: seq<Token>)
    requires e.Slice? && Printable(e) && Stops(PRIMARY, rest)
    ensures ParseLevel(POSTFIX, Print(POSTFIX, e) + rest) == Continue(POSTFIX, e, rest)
    decreases e, 0
  {
    var bits := BitExpr(BitPosition(e.start), BitPosition(e.end));
    Regroup(Print(POSTFIX, e.inner), [bits], rest);
    PrintThenParse(POSTFIX, e.inner, [bits] + rest);
    assert ([bits] + rest)[1..] == rest;
    assert ParseTail(POSTFIX, e.inner, [bits] + rest) == ParseTail(POSTFIX, e, rest);
  }

  lemma {:induction false} ListThenParse(es: seq<Expr>, ts: seq<Token>, rest: seq<Token>) returns (mid: seq<Token>)
    requires es != [] && AllPrintable(es) && ts == PrintList(es) + ([RParen] + rest)
    ensures ParseLevel(0, ts) == Ok(Parsed(es[0], mid)) && ParseMore(mid) == Ok(Parsed(es[1..], [RParen] + rest))
    decreases es, 0
  {
    mid := PrintMore(es[1..]) + ([RParen] + rest);
    Regroup(Print(0, es[0]), PrintMore(es[1..]), [RParen] + rest);
    MoreStarts(es[1..], rest);
    PrintThenParse(0, es[0], mid);
    MoreThenParse(es[1..], rest);
  }

  lemma MoreStarts(es: seq<Expr>, rest: seq<Token>)
    ensures var mid := PrintMore(es) + ([RParen] + rest); Stops(0, mid) && Stops(1, mid) && !StartsWith(mid, LParen)
  {}

  lemma {:induction false} MoreThenParse(es: seq<Expr>, rest: seq<Token>)
    requires AllPrintable(es)
    ensures ParseMore(PrintMore(es) + ([RParen] + rest)) == Ok(Parsed(es, [RParen] + rest))
    decreases es, 0
  {
    var after := [RParen] + rest;
    if es == [] {
      assert PrintMore(es) + after == after;
    } else {
      var mid := PrintMore(es[1..]) + after;
      TailOf(PrintMore(es) + after, Comma, Print(0, es[0]), PrintMore(es[1..]), after);
      MoreStarts(es[1..], rest);
      PrintThenParse(0, es[0], mid);
      MoreThenParse(es[1..], rest);
      MoreStep(PrintMore(es) + after, mid, es, after);
    }
  }

  lemma MoreStep(ts: seq<Token>, mid: seq<Token>, es: seq<Expr>, rest: seq<Token>)
    requires es != [] && StartsWith(ts, Comma)
    requires ParseLevel(0, ts[1..]) == Ok(Parsed(es[0], mid)) && ParseMore(mid) == Ok(Parsed(es[1..], rest))
    ensures ParseMore(ts) == Ok(Parsed(es, rest))
  {
    assert [es[0]] + es[1..] == es;
  }

  lemma {:induction false} TupleThenParse(e: Expr, rest: seq<Token>)
    requires e.Tuple? && Printable(e)
    ensures ParseLevel(PRIMARY, Print(PRIMARY, e) + rest) == Ok(Parsed(e, rest))
    decreases e, 0
  {
    var ts := Print(PRIMARY, e) + rest;
    TailOf(ts, LParen, PrintList(e.items), [RParen], rest);
    var mid := ListThenParse(e.items, ts[1..], rest);
    TupleStep(ts, mid, e.items, rest);
  }

  lemma TupleStep(ts: seq<Token>, mid: seq<Token>, items: seq<Expr>, rest: seq<Token>)
    requires |items| >= 2 && StartsWith(ts, LParen)
    requires ParseLevel(0, ts[1..]) == Ok(Parsed(items[0], mid)) && ParseMore(mid) == Ok(Parsed(items[1..], [RParen] + rest))
    ensures ParseLevel(PRIMARY, ts) == Ok(Parsed(Tuple(items), rest))
  {
    assert ([RParen] + rest)[1..] == rest;
    assert [items[0]] + items[1..] == items;
    assert ParseParens(ts) == Ok(Parsed(Tuple(items), rest));
  }

  lemma {:induction false} SegmentsThenParse(names: seq<string>, rest: seq<Token>)
    requires !StartsWith(rest, DoubleColon)
    ensures ParseSegments(PrintSegments(names) + rest) == Ok(Parsed(names, rest))
  {
    var ts := PrintSegments(names) + rest;
    if names == [] {
      assert ts == rest;
    } else {
      Regroup([DoubleColon, Ident(names[0])], PrintSegments(names[1..]), rest);
      SegmentsThenParse(names[1..], rest);
      SegmentsStep(ts, PrintSegments(names[1..]) + rest, names, rest);
    }
  }

  lemma SegmentsStep(ts: seq<Token>, mid: seq<Token>, names: seq<string>, rest: seq<Token>)
    requires names != [] && ts == [DoubleColon, Ident(names[0])] + mid
    requires ParseSegments(mid) == Ok(Parsed(names[1..], rest))
    ensures ParseSegments(ts) == Ok(Parsed(names, rest))
  {
    assert ts[2..] == mid && ts[0] == DoubleColon && ts[1] == Ident(names[0]);
    assert [names[0]] + names[1..] == names;
  }

  lemma {:induction false} ArgumentsThenParse(args: seq<Expr>, rest: seq<Token>)
    requires AllPrintable(args) && (args == [] ==> !StartsWith(rest, LParen))
    ensures ParseArguments(PrintArguments(args) + rest) == Ok(Parsed(args, rest))
    decreases args, 1
  {
    var ts := PrintArguments(args) + rest;
    if args == [] {
      assert ts == rest;
    } else {
      TailOf(ts, LParen, PrintList(args), [RParen], rest);
      var mid := ListThenParse(args, ts[1..], rest);
      FirstToken(0, args[0]);
      assert !StartsWith(ts[1..], RParen);
      ArgumentsStep(ts, mid, args, rest);
    }
  }

  lemma ArgumentsStep(ts: seq<Token>, mid: seq<Token>, args: seq<Expr>, rest: seq<Token>)
    requires args != [] && StartsWith(ts, LParen) && !StartsWith(ts[1..], RParen)
    requires ParseLevel(0, ts[1..]) == Ok(Parsed(args[0], mid)) && ParseMore(mid) == Ok(Parsed(args[1..], [RParen] + rest))
    ensures ParseArguments(ts) == Ok(Parsed(args, rest))
  {
    assert ([RParen] + rest)[1..] == rest;
    assert [args[0]] + args[1..] == args;
  }

  lemma {:induction false} CallThenParse(e: Expr, rest: seq<Token>)
    requires e.Call? && Printable(e) && Stops(PRIMARY + 1, rest) && Clear(PRIMARY, e, rest)
    ensures ParseLevel(PRIMARY, Print(PRIMARY, e) + rest) == Ok(Parsed(e, rest))
    decreases e, 0
  {
    var ts := Print(PRIMARY, e) + rest;
    var names := [e.name] + e.subpath;
    var tail := PrintArguments(e.args) + rest;
    TailOf(ts, Ident("$" + e.space), PrintSegments(names), PrintArguments(e.args), rest);
    ArgumentsThenParse(e.args, rest);
    SegmentsThenParse(names, tail);
    PrefixTail('$', e.space);
    ContextStep(ts, tail, e, rest);
  }

  lemma ContextStep(ts: seq<Token>, tail: seq<Token>, e: Expr, rest: seq<Token>)
    requires e.Call? && KindOf(e.space) == Some(e.kind) && StartsWith(ts, Ident("$" + e.space))
    requires ParseSegments(ts[1..]) == Ok(Parsed([e.name] + e.subpath, tail)) && ParseArguments(tail) == Ok(Parsed(e.args, rest))
    ensures ParseLevel(PRIMARY, ts) == Ok(Parsed(e, rest))
  {
    PrefixTail('$', e.space);
    assert ([e.name] + e.subpath)[1..] == e.subpath;
    assert ParseContext(e.space, ts) == Ok(Parsed(e, rest));
    assert ParsePrimary(ts) == Ok(Parsed(e, rest));
  }

  /** A printed expression starts with a parenthesis, a name or a number. */
  lemma {:induction false} FirstToken(level: nat, e: Expr)
    requires level <= PRIMARY
    ensures var ts := Print(level, e); ts != [] && (ts[0].LParen? || ts[0].Ident? || ts[0].Num?)
    decreases e
  {
    if !NeedsParens(level, e) {
      match e
      case Binary(op, lhs, _) => FirstToken(OpLevel(op), lhs);
      case Slice(inner, _, _) => FirstToken(POSTFIX, inner);
      case _ =>
    }
  }

  /** Parsing the text of an expression, up to a token that cannot extend it, gives the expression back. */
  lemma ExpressionRoundTrip(e: Expr, rest: seq<Token>)
    requires Printable(e) && Stops(0, rest) && Clear(0, e, rest)
    ensures ParseExpression(Print(0, e) + rest) == Ok(Parsed(e, rest))
  {
    StopsEarlier(0, rest);
    PrintThenParse(0, e, rest);
  }

  // ---- What the parser returns has a text ----

  /** Cutting the bounds of a slice to 32 bits leaves them in order. */
  predicate KeepsOrder(start: U64, end: U64) {
    start <= end ==> start % 0x1_0000_0000 <= end % 0x1_0000_0000
  }

  predicate SlicesKeepOrder(ts: seq<Token>) {
    forall t | t in ts :: t.BitExpr? ==> KeepsOrder(t.start, t.end)
  }

  /** The value has a text, and what is left still has slices that keep their order. */
  predicate Faithful(r: Parse<Expr>) {
    r.Ok? ==> Printable(r.value.value) && SlicesKeepOrder(r.value.rest)
  }

  predicate FaithfulAll(r: Parse<seq<Expr>>) {
    r.Ok? ==> AllPrintable(r.value.value) && SlicesKeepOrder(r.value.rest)
  }

  lemma {:induction false} ParsedIsPrintable(level: nat, ts: seq<Token>)
    requires level <= PRIMARY && SlicesKeepOrder(ts)
    ensures Faithful(ParseLevel(level, ts))
    decreases |ts|, PRIMARY - level, 2
  {
    if level == PRIMARY {
      PrimaryIsPrintable(ts);
    } else {
      ParsedIsPrintable(level + 1, ts);
      var first := ParseLevel(level + 1, ts);
      if first.Ok? { TailIsPrintable(level, first.value.value, first.value.rest); }
    }
  }

  lemma {:induction false} TailIsPrintable(level: nat, acc: Expr, ts: seq<Token>)
    requires level < PRIMARY && Printable(acc) && SlicesKeepOrder(ts)
    ensures Faithful(ParseTail(level, acc, ts))
    decreases |ts|, 0, 0
  {
    if level == POSTFIX {
      if ts != [] && ts[0].BitExpr? && ts[0].start <= ts[0].end {
        assert ts[0] in ts;
        TailIsPrintable(level, SliceOf(acc, ts[0].start, ts[0].end).value, ts[1..]);
      }
    } else if Continues(level, ts) {
      ParsedIsPrintable(level + 1, ts[1..]);
      var rhs := ParseLevel(level + 1, ts[1..]);
      if rhs.Ok? { TailIsPrintable(level, Binary(ts[0].op, acc, rhs.value.value), rhs.value.rest); }
    }
  }

  lemma {:induction false} PrimaryIsPrintable(ts: seq<Token>)
    requires SlicesKeepOrder(ts)
    ensures Faithful(ParsePrimary(ts))
    decreases |ts|, 0, 1
  {
    if ts != [] && ts[0].LParen? {
      FirstAndMorePrintable(ts[1..]);
      assert ParsePrimary(ts) == ParseParens(ts);
    } else if ts != [] && ts[0].Ident? && ts[0].lexeme != "" && ts[0].lexeme[0] == '$' {
      SegmentsKeepSlices(ts[1..]);
      var segments := ParseSegments(ts[1..]);
      if segments.Ok? { ArgumentsArePrintable(segments.value.rest); }
      assert ParsePrimary(ts) == ParseContext(ts[0].lexeme[1..], ts);
    }
  }

  /** A list of expressions in parentheses, after the opening one. */
  lemma {:induction false} FirstAndMorePrintable(ts: seq<Token>)
    requires SlicesKeepOrder(ts)
    ensures var first := ParseLevel(0, ts); Faithful(first) && (first.Ok? ==> FaithfulAll(ParseMore(first.value.rest)))
    decreases |ts|, PRIMARY, 3
  {
    ParsedIsPrintable(0, ts);
    var first := ParseLevel(0, ts);
    if first.Ok? { MoreArePrintable(first.value.rest); }
  }

  lemma {:induction false} MoreArePrintable(ts: seq<Token>)
    requires SlicesKeepOrder(ts)
    ensures FaithfulAll(ParseMore(ts))
    decreases |ts|, 0, 0
  {
    if StartsWith(ts, Comma) {
      ParsedIsPrintable(0, ts[1..]);
      var next := ParseLevel(0, ts[1..]);
      if next.Ok? { MoreArePrintable(next.value.rest); }
    }
  }

  lemma {:induction false} ArgumentsArePrintable(ts: seq<Token>)
    requires SlicesKeepOrder(ts)
    ensures FaithfulAll(ParseArguments(ts))
    decreases |ts|, 0, 0
  {
    if StartsWith(ts, LParen) && !StartsWith(ts[1..], RParen) { FirstAndMorePrintable(ts[1..]); }
  }

  lemma {:induction false} SegmentsKeepSlices(ts: seq<Token>)
    requires SlicesKeepOrder(ts)
    ensures var r := ParseSegments(ts); r.Ok? ==> SlicesKeepOrder(r.value.rest)
    decreases |ts|
  {
    if StartsWith(ts, DoubleColon) && |ts| > 1 && ts[1].Ident? { SegmentsKeepSlices(ts[2..]); }
  }

  // ---- Exactly which expressions come back ----

  /** The bounds of every slice fit 32 bits, in whatever order. */
  predicate Bounded(e: Expr) {
    match e
    case Call(_, _, _, _, args) => AllBounded(args)
    case Tuple(items) => AllBounded(items)
    case Binary(_, lhs, rhs) => Bounded(lhs) && Bounded(rhs)
    case Slice(inner, start, end) => Bounded(inner) && start < 0x1_0000_0000 && end < 0x1_0000_0000
    case _ => true
  }

  predicate AllBounded(es: seq<Expr>) {
    es == [] || (Bounded(es[0]) && AllBounded(es[1..]))
  }

  lemma KeepsOrderAppend(a: seq<Token>, b: seq<Token>)
    requires SlicesKeepOrder(a) && SlicesKeepOrder(b)
    ensures SlicesKeepOrder(a + b)
  {}

  /** A printed expression has no bounds to cut. */
  lemma {:induction false} PrintedKeepsOrder(level: nat, e: Expr)
    requires level <= PRIMARY && Bounded(e)
    ensures SlicesKeepOrder(Print(level, e))
    decreases e, 1, NeedsParens(level, e)
  {
    if NeedsParens(level, e) {
      PrintedKeepsOrder(0, e);
      KeepsOrderAppend([LParen], Print(0, e) + [RParen]);
    } else {
      match e
      case Binary(op, lhs, rhs) =>
        PrintedKeepsOrder(OpLevel(op), lhs);
        PrintedKeepsOrder(OpLevel(op) + 1, rhs);
        KeepsOrderAppend(Print(OpLevel(op), lhs), [OpToken(op)] + Print(OpLevel(op) + 1, rhs));
      case Slice(inner, start, end) =>
        PrintedKeepsOrder(POSTFIX, inner);
        KeepsOrderAppend(Print(POSTFIX, inner), [BitExpr(BitPosition(start), BitPosition(end))]);
      case Tuple(items) =>
        ListKeepsOrder(items);
      case Call(_, space, name, subpath, args) =>
        SegmentsAreNames([name] + subpath);
        ListKeepsOrder(args);
        KeepsOrderAppend(PrintSegments([name] + subpath), PrintArguments(args));
      case _ =>
    }
  }

  lemma {:induction false} ListKeepsOrder(es: seq<Expr>)
    requires AllBounded(es)
    ensures SlicesKeepOrder(PrintList(es)) && SlicesKeepOrder(PrintMore(es))
    decreases es, 0
  {
    if es != [] {
      PrintedKeepsOrder(0, es[0]);
      ListKeepsOrder(es[1..]);
      KeepsOrderAppend(Print(0, es[0]), PrintMore(es[1..]));
    }
  }

  lemma {:induction false} SegmentsAreNames(names: seq<string>)
    ensures SlicesKeepOrder(PrintSegments(names))
  {
    if names != [] { SegmentsAreNames(names[1..]); }
  }

  /** The text of an expression with 32-bit bounds parses back to it exactly when the expression is printable. */
  lemma PrintedParsesIff(e: Expr)
    requires Bounded(e)
    ensures ParseExpression(Print(0, e)) == Ok(Parsed(e, [])) <==> Printable(e)
  {
    if Printable(e) {
      ExpressionRoundTrip(e, []);
      assert Print(0, e) + [] == Print(0, e);
    }
    PrintedKeepsOrder(0, e);
    ParsedIsPrintable(0, Print(0, e));
  }

  // ---- The parser cuts every bound ----

  predicate Cut(r: Parse<Expr>) {
    r.Ok? ==> Bounded(r.value.value)
  }

  predicate CutAll(r: Parse<seq<Expr>>) {
    r.Ok? ==> AllBounded(r.value.value)
  }

  lemma {:induction false} ParsedIsBounded(level: nat, ts: seq<Token>)
    requires level <= PRIMARY
    ensures Cut(ParseLevel(level, ts))
    decreases |ts|, PRIMARY - level, 2
  {
    if level == PRIMARY {
      PrimaryIsBounded(ts);
    } else {
      ParsedIsBounded(level + 1, ts);
      var first := ParseLevel(level + 1, ts);
      if first.Ok? { TailIsBounded(level, first.value.value, first.value.rest); }
    }
  }

  lemma {:induction false} TailIsBounded(level: nat, acc: Expr, ts: seq<Token>)
    requires level < PRIMARY && Bounded(acc)
    ensures Cut(ParseTail(level, acc, ts))
    decreases |ts|, 0, 0
  {
    if level == POSTFIX {
      if ts != [] && ts[0].BitExpr? && ts[0].start <= ts[0].end {
        TailIsBounded(level, SliceOf(acc, ts[0].start, ts[0].end).value, ts[1..]);
      }
    } else if Continues(level, ts) {
      ParsedIsBounded(level + 1, ts[1..]);
      var rhs := ParseLevel(level + 1, ts[1..]);
      if rhs.Ok? { TailIsBounded(level, Binary(ts[0].op, acc, rhs.value.value), rhs.value.rest); }
    }
  }

  lemma {:induction false} PrimaryIsBounded(ts: seq<Token>)
    ensures Cut(ParsePrimary(ts))
    decreases |ts|, 0, 1
  {
    if ts != [] && ts[0].LParen? {
      FirstAndMoreBounded(ts[1..]);
      assert ParsePrimary(ts) == ParseParens(ts);
    } else if ts != [] && ts[0].Ident? && ts[0].lexeme != "" && ts[0].lexeme[0] == '$' {
      var segments := ParseSegments(ts[1..]);
      if segments.Ok? { ArgumentsAreBounded(segments.value.rest); }
      assert ParsePrimary(ts) == ParseContext(ts[0].lexeme[1..], ts);
    }
  }

  lemma {:induction false} FirstAndMoreBounded(ts: seq<Token>)
    ensures var first := ParseLevel(0, ts); Cut(first) && (first.Ok? ==> CutAll(ParseMore(first.value.rest)))
    decreases |ts|, PRIMARY, 3
  {
    ParsedIsBounded(0, ts);
    var first := ParseLevel(0, ts);
    if first.Ok? { MoreAreBounded(first.value.rest); }
  }

  lemma {:induction false} MoreAreBounded(ts: seq<Token>)
    ensures CutAll(ParseMore(ts))
    decreases |ts|, 0, 0
  {
    if StartsWith(ts, Comma) {
      ParsedIsBounded(0, ts[1..]);
      var next := ParseLevel(0, ts[1..]);
      if next.Ok? { MoreAreBounded(next.value.rest); }
    }
  }

  lemma {:induction false} ArgumentsAreBounded(ts: seq<Token>)
    ensures CutAll(ParseArguments(ts))
    decreases |ts|, 0, 0
  {
    if StartsWith(ts, LParen) && !StartsWith(ts[1..], RParen) { FirstAndMoreBounded(ts[1..]); }
  }

  /** Printing what the parser returned and parsing again returns the same exactly when its slices are still in order
      after their bounds were cut; tokens whose slices keep their order always give such an expression. */
  lemma ReparseStable(ts: seq<Token>)
    requires ParseExpression(ts).Ok?
    ensures var e := ParseExpression(ts).value.value;
      && (ParseExpression(Print(0, e)) == Ok(Parsed(e, [])) <==> Printable(e))
      && (SlicesKeepOrder(ts) ==> Printable(e))
  {
    ParsedIsBounded(0, ts);
    PrintedParsesIff(ParseExpression(ts).value.value);
    if SlicesKeepOrder(ts) { ParsedIsPrintable(0, ts); }
  }

  /** A slice that loses its order is accepted, and the text of what is returned is rejected. */
  lemma CutSliceIsRejected(value: U64, start: U64, end: U64)
    requires start <= end && !KeepsOrder(start, end)
    ensures var cut := Slice(Number(value), start % 0x1_0000_0000, end % 0x1_0000_0000);
      && ParseLevel(POSTFIX, [Num(value), BitExpr(start, end)]) == Ok(Parsed(cut, []))
      && ParseLevel(POSTFIX, Print(POSTFIX, cut)) == Err(SliceEndBeforeStart)
  {
    var low, high := start % 0x1_0000_0000, end % 0x1_0000_0000;
    var cut := Slice(Number(value), low, high);
    NumberWithSlice(value, BitExpr(start, end));
    NumberWithSlice(value, BitExpr(low, high));
    assert ParseTail(POSTFIX, cut, []) == Ok(Parsed(cut, []));
    assert BitPosition(low) == low && BitPosition(high) == high;
    assert Print(POSTFIX, cut) == [Num(value), BitExpr(low, high)];
  }

  lemma NumberWithSlice(value: U64, bits: Token)
    requires bits.BitExpr?
    ensures ParseLevel(POSTFIX, [Num(value), bits]) ==
            if bits.end < bits.start then Err(SliceEndBeforeStart)
            else ParseTail(POSTFIX, SliceOf(Number(value), bits.start, bits.end).value, [])
  {
    assert [Num(value), bits][1..] == [bits];
    assert ParsePrimary([Num(value), bits]) == Ok(Parsed(Number(value), [bits]));
    assert [bits][1..] == [];
  }
}
