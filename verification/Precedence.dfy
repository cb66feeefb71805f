/** How operators bind, against the list of the parser's rules (`src/soc/isa/semantics/program.rs`), and what the single
    tokens of a statement stand for. */
module Precedence {
  import opened Words
  import opened Results
  import opened Semantics
  import opened Parser
  import ProgramText

  /** The rules from `parse_logical_or` down to `parse_term`, each with its operators; a later row binds tighter. */
  const CHAIN: seq<set<BinaryOp>> := [
    {LogicalOr}, {LogicalAnd}, {BitOrOp}, {BitXorOp}, {BitAndOp}, {EqOp, NeOp}, {LtOp, GtOp}, {AddOp, SubOp}]

  predicate InRow(op: BinaryOp, row: nat) {
    row < 8 && op in CHAIN[row]
  }

  /** Every operator stands in one row. */
  lemma RowOf(op: BinaryOp) returns (row: nat)
    ensures InRow(op, row) && forall other: nat :: InRow(op, other) ==> other == row
  {
    row := OpLevel(op);
  }

  lemma RowIsLevel(op: BinaryOp, row: nat)
    requires InRow(op, row)
    ensures OpLevel(op) == row
  {}

  // ---- Operands ----

  /** A primary expression, or one with bit slices after it. */
  predicate IsOperand(e: Expr) {
    Printable(e) && !e.Binary?
  }

  function Text(e: Expr): seq<Token>
    requires IsOperand(e)
  {
    Print(POSTFIX, e)
  }

  /** What operands look like. */
  lemma OperandText(e: Expr)
    requires IsOperand(e)
    ensures e.Number? ==> Text(e) == [Num(e.value)]
    ensures e.Variable? ==> Text(e) == [Ident(e.name)]
    ensures e.Parameter? ==> Text(e) == [Ident("#" + e.name)]
    ensures e.Slice? && IsOperand(e.inner) ==> Text(e) == Text(e.inner) + [BitExpr(e.start, e.end)]
  {
    assert !NeedsParens(POSTFIX, e);
  }

  lemma SameText(level: nat, e: Expr)
    requires IsOperand(e) && level <= POSTFIX
    ensures Print(level, e) == Text(e)
  {
    assert !NeedsParens(level, e) && !NeedsParens(POSTFIX, e);
  }

  // ---- Binding ----

  function Flat(x: Expr, op: BinaryOp, y: Expr, next: BinaryOp, z: Expr): seq<Token>
    requires IsOperand(x) && IsOperand(y) && IsOperand(z)
  {
    Text(x) + ([OpToken(op)] + (Text(y) + ([OpToken(next)] + Text(z))))
  }

  lemma PairText(level: nat, x: Expr, op: BinaryOp, row: nat, y: Expr)
    requires IsOperand(x) && IsOperand(y) && InRow(op, row) && level <= row
    ensures Print(level, Binary(op, x, y)) == Text(x) + ([OpToken(op)] + Text(y))
  {
    RowIsLevel(op, row);
    SameText(row, x);
    SameText(row + 1, y);
    assert !NeedsParens(level, Binary(op, x, y));
  }

  lemma LeftTree(x: Expr, op: BinaryOp, row: nat, y: Expr, next: BinaryOp, nextRow: nat, z: Expr)
    requires IsOperand(x) && IsOperand(y) && IsOperand(z) && InRow(op, row) && InRow(next, nextRow) && nextRow <= row
    ensures Print(0, Binary(next, Binary(op, x, y), z)) == Flat(x, op, y, next, z)
  {
    RowIsLevel(next, nextRow);
    PairText(nextRow, x, op, row, y);
    SameText(nextRow + 1, z);
    LeftText(Text(x), [OpToken(op)], Text(y), [OpToken(next)] + Text(z));
  }

  lemma RightTree(x: Expr, op: BinaryOp, row: nat, y: Expr, next: BinaryOp, nextRow: nat, z: Expr)
    requires IsOperand(x) && IsOperand(y) && IsOperand(z) && InRow(op, row) && InRow(next, nextRow) && row < nextRow
    ensures Print(0, Binary(op, x, Binary(next, y, z))) == Flat(x, op, y, next, z)
  {
    RowIsLevel(op, row);
    PairText(row + 1, y, next, nextRow, z);
    SameText(row, x);
  }

  lemma LeftText(a: seq<Token>, b: seq<Token>, c: seq<Token>, d: seq<Token>)
    ensures (a + (b + c)) + d == a + (b + (c + d))
  {}

  /** `x op y next z` is read as `(x op y) next z` exactly when `next` is in the row of `op` or in an earlier one, and as
      `x op (y next z)` otherwise. */
  lemma BindingIff(x: Expr, op: BinaryOp, row: nat, y: Expr, next: BinaryOp, nextRow: nat, z: Expr)
    requires IsOperand(x) && IsOperand(y) && IsOperand(z) && InRow(op, row) && InRow(next, nextRow)
    ensures var read := ParseExpression(Flat(x, op, y, next, z));
      && (read == Ok(Parsed(Binary(next, Binary(op, x, y), z), [])) <==> nextRow <= row)
      && (read == Ok(Parsed(Binary(op, x, Binary(next, y, z)), [])) <==> row < nextRow)
  {
    TreesDiffer(x, op, y, next, z);
    if nextRow <= row {
      LeftTree(x, op, row, y, next, nextRow, z);
      ReadsText(Binary(next, Binary(op, x, y), z));
    } else {
      RightTree(x, op, row, y, next, nextRow, z);
      ReadsText(Binary(op, x, Binary(next, y, z)));
    }
  }

  lemma ReadsText(e: Expr)
    requires Printable(e)
    ensures ParseExpression(Print(0, e)) == Ok(Parsed(e, []))
  {
    ExpressionRoundTrip(e, []);
    assert Print(0, e) + [] == Print(0, e);
  }

  lemma TreesDiffer(x: Expr, op: BinaryOp, y: Expr, next: BinaryOp, z: Expr)
    requires IsOperand(x)
    ensures Binary(next, Binary(op, x, y), z) != Binary(op, x, Binary(next, y, z))
  {
    assert !x.Binary?;
  }

  /** A slice belongs to the operand before it, not to the sum. */
  lemma SliceBinds(x: Expr, op: BinaryOp, y: Expr, start: nat, end: nat)
    requires IsOperand(x) && IsOperand(y) && start <= end < 0x1_0000_0000
    ensures ParseExpression(Text(x) + ([OpToken(op)] + (Text(y) + [BitExpr(start, end)])))
      == Ok(Parsed(Binary(op, x, Slice(y, start, end)), []))
  {
    var e := Binary(op, x, Slice(y, start, end));
    var row := RowOf(op);
    PairText(0, x, op, row, Slice(y, start, end));
    OperandText(Slice(y, start, end));
    ReadsText(e);
  }

  /** Parentheses keep what they hold together. */
  lemma ParensHold(e: Expr)
    requires Printable(e)
    ensures ParseLevel(PRIMARY, [LParen] + (Print(0, e) + [RParen])) == Ok(Parsed(e, []))
  {
    ExpressionRoundTrip(e, [RParen] + []);
    assert [LParen] + (Print(0, e) + [RParen]) + [] == [LParen] + (Print(0, e) + [RParen]);
    ParensStep([LParen] + (Print(0, e) + [RParen]), Print(0, e), e, []);
  }

  // ---- Single tokens ----

  function Lower(s: string): string {
    seq(|s|, k requires 0 <= k < |s| => if 'A' <= s[k] <= 'Z' then s[k] - 'A' + 'a' else s[k])
  }

  /** The four context prefixes, in any case. */
  lemma PrefixMeans(prefix: string)
    ensures KindOf(prefix) == Some(RegisterKind) <==> Lower(prefix) == "reg"
    ensures KindOf(prefix) == Some(MacroKind) <==> Lower(prefix) == "macro"
    ensures KindOf(prefix) == Some(InstructionKind) <==> Lower(prefix) == "insn"
    ensures KindOf(prefix) == Some(HostKind) <==> Lower(prefix) == "host"
  {
    SpelledIff(prefix, "reg");
    SpelledIff(prefix, "macro");
    SpelledIff(prefix, "insn");
    SpelledIff(prefix, "host");
  }

  lemma SpelledIff(s: string, word: string)
    requires forall k | 0 <= k < |word| :: 'a' <= word[k] <= 'z'
    ensures EqIgnoreCase(s, word) <==> Lower(s) == word
  {
    if EqIgnoreCase(s, word) {
      forall k | 0 <= k < |s| ensures Lower(s)[k] == word[k] {}
    }
    if Lower(s) == word {
      forall k | 0 <= k < |s| ensures LowerChar(s[k]) == LowerChar(word[k]) { assert Lower(s)[k] == word[k]; }
    }
  }

  /** A name, an equals sign and an expression assign to the variable. */
  lemma AssignmentMeans(name: string, e: Expr)
    requires PlainName(name) && Printable(e)
    ensures ProgramText.ParseStatement([Ident(name)] + ([Equals] + Print(0, e))) == Ok(Parsed(Assign(VariableTarget(name), e), []))
  {
    Assigned(VariableTarget(name), e, [Ident(name)]);
  }

  /** The text of `$space::name::field(index)`. */
  function RegisterTokens(space: string, name: string, field: string, index: Expr): seq<Token> {
    [Ident("$" + space), DoubleColon, Ident(name), DoubleColon, Ident(field), LParen] + Print(0, index) + [RParen]
  }

  /** A register before an equals sign is assigned with the index and the subfield that were written. */
  lemma RegisterAssignmentMeans(name: string, space: string, field: string, index: Expr, e: Expr)
    requires KindOf(space) == Some(RegisterKind) && Printable(e) && Printable(index)
    ensures ProgramText.ParseStatement(RegisterTokens(space, name, field, index) + ([Equals] + Print(0, e)))
      == Ok(Parsed(Assign(RegisterTarget(RegisterRef(space, name, Some(field), Some(index))), e), []))
  {
    RegisterText(space, name, field, index);
    Assigned(RegisterTarget(RegisterRef(space, name, Some(field), Some(index))), e, RegisterTokens(space, name, field, index));
  }

  lemma Assigned(target: Target, e: Expr, text: seq<Token>)
    requires Printable(e) && Printable(ProgramText.TargetExpr(target)) && Print(0, ProgramText.TargetExpr(target)) == text
    ensures ProgramText.ParseStatement(text + ([Equals] + Print(0, e))) == Ok(Parsed(Assign(target, e), []))
  {
    var stmt := Assign(target, e);
    ProgramText.StatementRoundTrip(stmt, []);
    assert ProgramText.PrintStmt(stmt) + [] == text + ([Equals] + Print(0, e));
  }

  lemma RegisterText(space: string, name: string, field: string, index: Expr)
    requires KindOf(space) == Some(RegisterKind) && Printable(index)
    ensures var target := ProgramText.TargetExpr(RegisterTarget(RegisterRef(space, name, Some(field), Some(index))));
      && Printable(target)
      && Print(0, target) == RegisterTokens(space, name, field, index)
  {
    var target := ProgramText.TargetExpr(RegisterTarget(RegisterRef(space, name, Some(field), Some(index))));
    assert target == Call(RegisterKind, space, name, [field], [index]);
    assert [index][1..] == [] && AllPrintable([]);
    assert AllPrintable([index]);
    assert [field][1..] == [] && ([name] + [field])[1..] == [field];
    assert PrintSegments([field]) == [DoubleColon, Ident(field)];
    assert PrintSegments([name] + [field]) == [DoubleColon, Ident(name), DoubleColon, Ident(field)];
    assert PrintList([index]) == Print(0, index) + PrintMore([]);
    assert PrintList([index]) == Print(0, index);
    assert PrintArguments([index]) == [LParen] + (Print(0, index) + [RParen]);
  }
}
