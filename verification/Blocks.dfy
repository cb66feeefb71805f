/** Blocks of decoded instructions (`src/soc/core/harness.rs`): what holds of one run holds of them all. */
module Blocks {
  import opened Results
  import opened Semantics
  import opened RegisterFile
  import opened Registers
  import opened Interp
  import opened InterpLaws
  import opened Analyzer
  import opened Soundness
  import opened Frame

  /** A decoded instruction and the word it was decoded from. */
  datatype Fetched = Fetched(instr: InstructionInfo, bits: nat)

  /** One instruction after the other, each from the core the one before left, up to the first failure. */
  function RunBlock(isa: Isa, block: seq<Fetched>, core: Core): Run<seq<Option<Value>>>
    requires ProperForms(isa)
  {
    if block == [] then Run(Ok([]), core)
    else
      var head := ExecuteDecoded(isa, block[0].instr, block[0].bits, core);
      if head.result.Err? then Run(Err(head.result.error), head.core)
      else
        var tail := RunBlock(isa, block[1..], head.core);
        if tail.result.Err? then tail else Run(Ok([head.result.value] + tail.result.value), tail.core)
  }

  /** The outcome of two parts, the second of which starts where the first one ends. */
  function Joined(first: Run<seq<Option<Value>>>, second: Run<seq<Option<Value>>>): Run<seq<Option<Value>>> {
    if first.result.Err? then first
    else if second.result.Err? then second
    else Run(Ok(first.result.value + second.result.value), second.core)
  }

  function Consed(head: Option<Value>, tail: Run<seq<Option<Value>>>): Run<seq<Option<Value>>> {
    if tail.result.Err? then tail else Run(Ok([head] + tail.result.value), tail.core)
  }

  lemma JoinedEmpty(core: Core, second: Run<seq<Option<Value>>>)
    ensures Joined(Run(Ok([]), core), second) == second
  {
    if second.result.Ok? { assert [] + second.result.value == second.result.value; }
  }

  lemma JoinedConsed(head: Option<Value>, tail: Run<seq<Option<Value>>>, second: Run<seq<Option<Value>>>)
    ensures Joined(Consed(head, tail), second) == Consed(head, Joined(tail, second))
  {
    if tail.result.Ok? && second.result.Ok? {
      assert [head] + (tail.result.value + second.result.value) == [head] + tail.result.value + second.result.value;
    }
  }

  lemma RunBlockCons(isa: Isa, block: seq<Fetched>, core: Core)
    requires ProperForms(isa) && block != []
    ensures var head := ExecuteDecoded(isa, block[0].instr, block[0].bits, core);
      RunBlock(isa, block, core) ==
        if head.result.Err? then Run(Err(head.result.error), head.core)
        else Consed(head.result.value, RunBlock(isa, block[1..], head.core))
  {}

  /** A block may be cut anywhere: the rest runs from the core that the first part leaves. */
  lemma {:induction false} RunBlockSplit(isa: Isa, a: seq<Fetched>, b: seq<Fetched>, core: Core)
    requires ProperForms(isa)
    ensures var first := RunBlock(isa, a, core);
      RunBlock(isa, a + b, core) == Joined(first, RunBlock(isa, b, first.core))
  {
    var second := RunBlock(isa, b, RunBlock(isa, a, core).core);
    if a == [] {
      assert a + b == b;
      JoinedEmpty(core, second);
    } else {
      var head := ExecuteDecoded(isa, a[0].instr, a[0].bits, core);
      assert (a + b)[0] == a[0] && (a + b)[1..] == a[1..] + b;
      RunBlockCons(isa, a, core);
      RunBlockCons(isa, a + b, core);
      if head.result.Ok? {
        RunBlockSplit(isa, a[1..], b, head.core);
        JoinedConsed(head.result.value, RunBlock(isa, a[1..], head.core), second);
      }
    }
  }

  /** The instruction comes from the machine and its operands are subfields of its form. */
  predicate Runnable(isa: Isa, instr: InstructionInfo) {
    && instr in isa.instructions
    && (instr.form.Some? ==> instr.space in isa.spaces && instr.form.value in isa.spaces[instr.space].forms)
    && (forall name | name in instr.operands :: DecodedName(isa, instr, name))
  }

  /** No block of an accepted machine fails statically, from whatever core it starts. */
  lemma {:induction false} BlockSound(isa: Isa, block: seq<Fetched>, core: Core)
    requires ProperForms(isa) && CompileSemantics(isa).Ok? && IndexesInScope(isa)
    requires forall f | f in block :: Runnable(isa, f.instr)
    ensures Clean(RunBlock(isa, block, core))
  {
    if block != [] {
      assert block[0] in block;
      DecodedInstructionSound(isa, block[0].instr, block[0].bits, core);
      var head := ExecuteDecoded(isa, block[0].instr, block[0].bits, core);
      if head.result.Ok? { BlockSound(isa, block[1..], head.core); }
    }
  }

  /** A block leaves unchanged every register that none of its programs, and none they call, assigns. */
  lemma {:induction false} BlockKeepsUnassigned(isa: Isa, programs: set<Program>, name: string, block: seq<Fetched>, core: Core)
    requires ProperForms(isa) && Unassigning(isa, ShapeOf(core), programs, name)
    requires forall f | f in block :: f.instr.program.Some? ==> f.instr.program.value in programs
    ensures Keeps(core, RunBlock(isa, block, core).core, name)
  {
    if block != [] {
      assert block[0] in block;
      var head := ExecuteDecoded(isa, block[0].instr, block[0].bits, core);
      if block[0].instr.program.Some? {
        var params := BindDecoded(isa, block[0].instr, block[0].bits);
        if params.Ok? {
          RunKeepsUnassigned(isa, programs, name, MAX_CALL_DEPTH, params.value, core, block[0].instr.program.value);
        }
      }
      if head.result.Ok? { BlockKeepsUnassigned(isa, programs, name, block[1..], head.core); }
    }
  }
}
