/** Running a function before and after the masking pass.

    The instrumented run keeps metadata in the high half of pointers and of the
    integers in the closure.  The theorem: every place that looks at a value sees
    what the original run saw. */
module MaskSimulation {
  import opened Common
  import opened PointerIR

  /** Arithmetic, address offsets and the metadata page table, all arbitrary. */
  datatype Machine = Machine(
    alu: (AluOp, nat, seq<Word>) -> Word,
    offset: (nat, seq<Word>) -> Word,
    lookup: Word -> Word)

  datatype Cell = Cell(address: Word)

  type Memory = map<Cell, Word>

  /** `edge` holds the registers as they were when block `pred` was left, so that
      the phi nodes of a block read in parallel. */
  datatype State = State(pc: nat, pred: nat, env: map<Id, Word>, edge: map<Id, Word>, mem: Memory)

  /** What the surroundings supply to a step: a parameter or a call's result and
      its effect on memory. */
  datatype Reply = Reply(value: Word, writes: Memory)

  function Get(env: map<Id, Word>, id: Id): Word { if id in env then env[id] else 0 }

  function Read(mem: Memory, a: Word): Word { if Cell(a) in mem then mem[Cell(a)] else 0 }

  function Raw(env: map<Id, Word>, o: Operand): Word {
    match o
    case Reg(id) => Get(env, id)
    case Const(w) => w
  }

  function Value(env: map<Id, Word>, u: Use): Word {
    if u.masked then Low(Raw(env, u.op)) else Raw(env, u.op)
  }

  function Values(ins: Instr, s: State): (vals: seq<Word>)
    ensures |vals| == |ins.uses|
  {
    var env := if ins.op.Phi? then s.edge else s.env;
    seq(|ins.uses|, j requires 0 <= j < |ins.uses| => Value(env, ins.uses[j]))
  }

  function At(vals: seq<Word>, j: nat): Word { if j < |vals| then vals[j] else 0 }

  function Incoming(preds: seq<nat>, vals: seq<Word>, pred: nat): Word
    requires |preds| == |vals|
  {
    if preds == [] then 0
    else if preds[0] == pred then vals[0]
    else Incoming(preds[1..], vals[1..], pred)
  }

  function FatPointer(ptr: Word, meta: Word): Word { ptr | (meta << 32) }

  function Plus(w: Word, d: Word): Word { w + d }

  function Both(w: Word, mask: Word): Word { w & mask }

  function Result(m: Machine, ins: Instr, vals: seq<Word>, s: State, reply: Reply): Word {
    match ins.op
    case Input => reply.value
    case PtrToInt(keep) => Both(At(vals, 0), keep)
    case IntToPtr => At(vals, 0)
    case BitCast => At(vals, 0)
    case Phi(preds) => if |preds| == |vals| then Incoming(preds, vals, s.pred) else 0
    case Select => if At(vals, 0) != 0 then At(vals, 1) else At(vals, 2)
    case And => Both(At(vals, 0), At(vals, 1))
    case Alu(a, attr) => m.alu(a, attr, vals)
    case Gep(attr) => Plus(At(vals, 0), m.offset(attr, if |vals| > 0 then vals[1..] else []))
    case Trunc(keep) => Both(At(vals, 0), keep)
    case Load => Read(s.mem, At(vals, 0))
    case Call(_, _, _) => if ins.fat then FatPointer(reply.value, m.lookup(reply.value)) else reply.value
    case Store(_) => 0
    case Ret => 0
    case Switch(_) => 0
    case Br(_, _) => 0
  }

  function MemoryAfter(ins: Instr, vals: seq<Word>, s: State, reply: Reply): Memory {
    match ins.op
    case Store(_) => s.mem[Cell(At(vals, 1)) := At(vals, 0)]
    case Call(_, _, _) => s.mem + reply.writes
    case _ => s.mem
  }

  predicate Jumps(ins: Instr) { ins.op.Switch? || ins.op.Br? }

  function NextPc(size: nat, ins: Instr, vals: seq<Word>, pc: nat): nat {
    match ins.op
    case Ret => size
    case Switch(target) => target(At(vals, 0))
    case Br(yes, no) => if |vals| == 0 || At(vals, 0) != 0 then yes else no
    case _ => pc + 1
  }

  function Step(m: Machine, p: Program, s: State, reply: Reply): State
    requires s.pc < |p|
  {
    var ins := p[s.pc];
    var vals := Values(ins, s);
    var env := s.env[s.pc := Result(m, ins, vals, s, reply)];
    State(NextPc(|p|, ins, vals, s.pc),
          if Jumps(ins) then s.pc else s.pred,
          env,
          if Jumps(ins) then env else s.edge,
          MemoryAfter(ins, vals, s, reply))
  }

  // ------------------------------------------------------- what is observed

  predicate LooseId(p: Program, known: set<Id>, id: Id) { id in known || (id < |p| && p[id].ty == Ptr) }

  predicate Loose(p: Program, known: set<Id>, o: Operand) { o.Reg? && LooseId(p, known, o.id) }

  /** The operand positions whose value matters: every sink use, every address,
      every pointer comparison, every argument of an external call. */
  predicate Strict(p: Program, known: set<Id>, ins: Instr, j: int)
    requires 0 <= j < |ins.uses|
  {
    match ins.op
    case Alu(_, _) => true
    case And => ins.uses[j].op.Reg? && Classify(ins, ins.uses[j].op.id) == Sink
    case Gep(_) => j >= 1
    case Load => true
    case Store(toExtern) => j == 1 || toExtern
    case Call(kind, _, byval) =>
      || kind == External || MaskedByOpcode(p, ins, j)
      || (!IsPointer(p, ins.uses[j].op) && (kind == Exempt || kind == Indirect))
    case Ret => !IsPointer(p, ins.uses[j].op)
    case Switch(_) => true
    case Br(_, _) => true
    case _ => false
  }

  type Event = seq<Option<Word>>

  function Observe(p: Program, known: set<Id>, ins: Instr, vals: seq<Word>): Event
    requires |vals| == |ins.uses|
  {
    seq(|vals|, j requires 0 <= j < |vals| => if Strict(p, known, ins, j) then Some(vals[j]) else None)
  }

  // --------------------------------------------------------------- relation

  ghost predicate Related(loose: bool, w: Word, w': Word) {
    if loose then Low(w') == w else w' == w
  }

  ghost predicate EnvRelated(p: Program, known: set<Id>, env: map<Id, Word>, env': map<Id, Word>) {
    forall id: Id :: Related(LooseId(p, known, id), Get(env, id), Get(env', id))
  }

  ghost predicate CellRelated(w: Word, w': Word) {
    w' == w || (Fits(w) && Low(w') == w)
  }

  ghost predicate MemRelated(mem: Memory, mem': Memory) {
    forall a: Word :: CellRelated(Read(mem, a), Read(mem', a))
  }

  ghost predicate Simulates(p: Program, known: set<Id>, s: State, s': State) {
    && s'.pc == s.pc && s'.pred == s.pred
    && EnvRelated(p, known, s.env, s'.env) && EnvRelated(p, known, s.edge, s'.edge)
    && MemRelated(s.mem, s'.mem)
  }

  ghost predicate RepliesRelated(ins: Instr, r: Reply, r': Reply) {
    && Related(ins.ty == Ptr, r.value, r'.value)
    && r'.writes.Keys == r.writes.Keys
    && forall a :: a in r.writes ==> CellRelated(r.writes[a], r'.writes[a])
  }

  /** What is taken for granted about a step: pointers and closure values of the
      original run fit in 32 bits; integer loads and casts to non-pointers agree in
      both runs, and so does what the surroundings reply. */
  ghost predicate Regular(m: Machine, p: Program, known: set<Id>, s: State, s': State, r: Reply, r': Reply)
    requires s.pc < |p|
  {
    var ins := p[s.pc];
    var vals := Values(ins, s);
    && (LooseId(p, known, s.pc) ==> Fits(Result(m, ins, vals, s, r)))
    && (ins.op.Load? && ins.ty != Ptr ==> Read(s'.mem, At(vals, 0)) == Read(s.mem, At(vals, 0)))
    && (ins.op.BitCast? && !LooseId(p, known, s.pc) ==> Values(ins, s') == vals)
    && RepliesRelated(ins, r, r')
  }

  /** An integer stored to an extern fits in 32 bits; the pass masks it whatever it is. */
  ghost predicate ExternFits(p: Program, known: set<Id>, s: State)
    requires s.pc < |p|
  {
    var ins := p[s.pc];
    var vals := Values(ins, s);
    ins.op.Store? && ins.op.toExtern && |vals| > 0 ==> Loose(p, known, ins.uses[0].op) || Fits(vals[0])
  }

  ghost predicate Tame(m: Machine, p: Program, known: set<Id>, s: State, s': State, r: Reply, r': Reply)
    requires s.pc < |p|
  {
    Regular(m, p, known, s, s', r, r') && ExternFits(p, known, s)
  }

  // ------------------------------------------------------------ word lemmas

  lemma LowFits(w: Word)
    ensures Fits(w) ==> Low(w) == w
    ensures Fits(Low(w)) && Low(Low(w)) == Low(w)
  {
  }

  lemma LowExact(w: Word)
    ensures Low(w) == w <==> Fits(w)
  {
  }

  lemma FatIsThin(ptr: Word, meta: Word)
    ensures Low(FatPointer(ptr, meta)) == Low(ptr)
  {
  }

  lemma LowAnd(w: Word, mask: Word)
    ensures Low(Both(w, mask)) == Both(Low(w), mask)
    ensures Fits(mask) ==> Both(w, mask) == Both(Low(w), mask)
    ensures Both(w, mask) == Both(mask, w)
  {
  }

  function LowSum(w: Word, d: Word): Word { (w + d) & 0xFFFF_FFFF }

  lemma LowSumIsLow(w: Word, d: Word)
    ensures LowSum(w, d) == Low(Plus(w, d))
  {
  }

  lemma LowSumIgnoresHigh(w: Word, d: Word)
    ensures LowSum(w, d) == LowSum(w & 0xFFFF_FFFF, d)
  {
  }

  lemma LowDefinition(w: Word)
    ensures Low(w) == w & 0xFFFF_FFFF
  {
  }

  lemma LowPlus(w: Word, d: Word)
    ensures Low(Plus(w, d)) == Low(Plus(Low(w), d))
  {
    hide *;
    LowSumIsLow(w, d);
    LowSumIgnoresHigh(w, d);
    LowDefinition(w);
    LowSumIsLow(Low(w), d);
  }

  /** Address arithmetic on a fat pointer is the thin arithmetic. */
  lemma ThinPlus(w: Word, w': Word, d: Word)
    requires Low(w') == w && Fits(Plus(w, d))
    ensures Low(Plus(w', d)) == Plus(w, d)
  {
    hide *;
    LowPlus(w', d);
    LowFits(Plus(w, d));
  }

  // ------------------------------------------------------------- one operand

  ghost predicate ClosureIsI64(p: Program, known: set<Id>) {
    forall i :: i in known ==> i < |p| && p[i].ty == I64
  }

  ghost predicate Analysed(p: Program, known: set<Id>) {
    Original(p) && HasRoots(p, known) && Closed(p, known) && AllKnown(p, known) && ClosureIsI64(p, known)
  }

  /** The closure holds only 64-bit integers: being least, it is inside the closed
      set of all of them. */
  lemma ClosureTypes(p: Program, known: set<Id>)
    requires Original(p) && IsClosure(p, known)
    ensures ClosureIsI64(p, known)
  {
    var wide := set i: Id {:trigger p[i]} | i < |p| && p[i].ty == I64;
    forall v: Id, u: Id | v in wide && UseIs(p, v, u, Follow) ensures u in wide {
      assert WellTyped(p, p[u]);
      var j :| 0 <= j < |p[u].uses| && p[u].uses[j].op == Reg(v);
      assert p[v].ty == I64 && OperandTy(p, p[u].uses[j].op, p[u].ty);
    }
    assert Closed(p, wide) && HasRoots(p, wide);
    assert known <= wide;
  }

  lemma RawRelated(p: Program, known: set<Id>, env: map<Id, Word>, env': map<Id, Word>, o: Operand)
    requires EnvRelated(p, known, env, env')
    ensures Related(Loose(p, known, o), Raw(env, o), Raw(env', o))
  {
    if o.Reg? { assert Related(LooseId(p, known, o.id), Get(env, o.id), Get(env', o.id)); }
  }

  /** A strict use that may carry metadata is masked. */
  lemma StrictIsMasked(p: Program, known: set<Id>, i: Id, j: nat)
    requires Analysed(p, known) && i < |p| && j < |p[i].uses| && Strict(p, known, p[i], j)
    requires Loose(p, known, p[i].uses[j].op)
    ensures MaskedAt(p, known, p[i], j)
  {
    var ins, o := p[i], p[i].uses[j].op;
    assert WellTyped(p, ins) && UsesReg(ins, o.id);
    if o.id in known {
      assert !UseIs(p, o.id, i, Unknown);
    } else {
      assert IsPointer(p, o);
    }
  }

  /** A mask on a use that carries no metadata sits on a value that fits. */
  lemma MaskedFits(p: Program, known: set<Id>, i: Id, j: nat)
    requires Original(p) && i < |p| && j < |p[i].uses| && MaskedAt(p, known, p[i], j)
    requires !Loose(p, known, p[i].uses[j].op)
    ensures || (p[i].uses[j].op.Const? && Fits(p[i].uses[j].op.word))
            || (p[i].op.Store? && p[i].op.toExtern && j == 0)
  {
    var ins, o := p[i], p[i].uses[j].op;
    assert WellTyped(p, ins);
    assert MaskedByOpcode(p, ins, j);
  }

  /** Masking where the pass masks turns related raw values into related operands,
      equal ones at strict uses. */
  lemma MaskRelated(p: Program, known: set<Id>, i: Id, j: nat, w: Word, w': Word)
    requires Analysed(p, known) && i < |p| && j < |p[i].uses|
    requires Related(Loose(p, known, p[i].uses[j].op), w, w')
    requires MaskedAt(p, known, p[i], j) && !Loose(p, known, p[i].uses[j].op) ==> Fits(w)
    ensures var v := if MaskedAt(p, known, p[i], j) then Low(w') else w';
      && Related(Loose(p, known, p[i].uses[j].op), w, v)
      && (Strict(p, known, p[i], j) ==> v == w)
  {
    hide Analysed, Strict, MaskedAt, Loose, Low, Fits;
    if Loose(p, known, p[i].uses[j].op) && Strict(p, known, p[i], j) { StrictIsMasked(p, known, i, j); }
    LowFits(w);
    LowFits(w');
  }

  lemma UnmaskedValue(p: Program, s: State, i: Id, j: nat)
    requires Original(p) && i < |p| && j < |p[i].uses|
    ensures Values(p[i], s)[j] == Raw(if p[i].op.Phi? then s.edge else s.env, p[i].uses[j].op)
  {
    assert Unmasked(p[i]);
  }

  /** Strict uses see the original value; other uses see it up to metadata. */
  lemma OperandRelated(m: Machine, p: Program, known: set<Id>, s: State, s': State, r: Reply, r': Reply, j: nat)
    requires Analysed(p, known) && Simulates(p, known, s, s') && s.pc < |p| && Tame(m, p, known, s, s', r, r')
    requires j < |p[s.pc].uses|
    ensures var ins := p[s.pc];
      var w, w' := Values(ins, s)[j], Values(Rewritten(p, known, ins), s')[j];
      && Related(Loose(p, known, ins.uses[j].op), w, w')
      && (Strict(p, known, ins, j) ==> w' == w)
  {
    hide Regular, MaskedAt, Loose, Strict, EnvRelated, MemRelated, Original, HasRoots, Closed, AllKnown, ClosureIsI64;
    hide Low, Fits, Related;
    var ins := p[s.pc];
    var o := ins.uses[j].op;
    var env, env' := if ins.op.Phi? then s.edge else s.env, if ins.op.Phi? then s'.edge else s'.env;
    UnmaskedValue(p, s, s.pc, j);
    RawRelated(p, known, env, env', o);
    if MaskedAt(p, known, ins, j) && !Loose(p, known, o) { MaskedFits(p, known, s.pc, j); }
    MaskRelated(p, known, s.pc, j, Raw(env, o), Raw(env', o));
  }

  /** A store to an extern writes the original value exactly when that is a pointer, a
      closure value or fits in 32 bits. */
  lemma ExternStoreExact(p: Program, known: set<Id>, s: State, s': State)
    requires Analysed(p, known) && Simulates(p, known, s, s') && s.pc < |p| && p[s.pc].op == Store(true)
    ensures |p[s.pc].uses| == 2
    ensures Values(Rewritten(p, known, p[s.pc]), s')[0] == Values(p[s.pc], s)[0] <==> ExternFits(p, known, s)
    ensures Strict(p, known, p[s.pc], 0)
  {
    var ins := p[s.pc];
    assert WellTyped(p, ins);
    UnmaskedValue(p, s, s.pc, 0);
    RawRelated(p, known, s.env, s'.env, ins.uses[0].op);
    assert MaskedAt(p, known, ins, 0);
    LowExact(Raw(s.env, ins.uses[0].op));
    hide Low, Fits, Original, EnvRelated, MemRelated, HasRoots, Closed, AllKnown;
  }

  // --------------------------------------------------------------- one result

  ghost predicate ValuesRelated(p: Program, known: set<Id>, ins: Instr, vals: seq<Word>, vals': seq<Word>) {
    && |vals| == |vals'| == |ins.uses|
    && forall j :: 0 <= j < |vals| ==> OneRelated(p, known, ins, j, vals[j], vals'[j])
  }

  ghost predicate OneRelated(p: Program, known: set<Id>, ins: Instr, j: int, w: Word, w': Word)
    requires 0 <= j < |ins.uses|
  {
    Related(Loose(p, known, ins.uses[j].op), w, w') && (Strict(p, known, ins, j) ==> w' == w)
  }

  lemma AllOperandsRelated(m: Machine, p: Program, known: set<Id>, s: State, s': State, r: Reply, r': Reply)
    requires Analysed(p, known) && Simulates(p, known, s, s') && s.pc < |p| && Tame(m, p, known, s, s', r, r')
    ensures ValuesRelated(p, known, p[s.pc], Values(p[s.pc], s), Values(Rewritten(p, known, p[s.pc]), s'))
  {
    var ins := p[s.pc];
    var vals, vals' := Values(ins, s), Values(Rewritten(p, known, ins), s');
    forall j | 0 <= j < |vals| ensures OneRelated(p, known, ins, j, vals[j], vals'[j]) {
      OperandRelated(m, p, known, s, s', r, r', j);
    }
  }

  /** A value passed on keeps its relation when its source may carry metadata only
      where the destination may. */
  lemma PassedOn(from: bool, to: bool, w: Word, w': Word)
    requires Related(from, w, w') && (from ==> to) && (to ==> Fits(w))
    ensures Related(to, w, w')
  {
    LowFits(w);
  }

  lemma FollowIsLoose(p: Program, known: set<Id>, i: Id, j: nat)
    requires Analysed(p, known) && i < |p| && j < |p[i].uses| && Loose(p, known, p[i].uses[j].op)
    requires p[i].op.Phi? || (p[i].op.Select? && j >= 1)
    ensures LooseId(p, known, i)
  {
    var o := p[i].uses[j].op;
    assert WellTyped(p, p[i]) && UsesReg(p[i], o.id);
    if o.id in known { assert UseIs(p, o.id, i, Follow); }
  }

  lemma {:induction false} IncomingPick(preds: seq<nat>, vals: seq<Word>, vals': seq<Word>, pred: nat) returns (j: nat)
    requires |preds| == |vals| == |vals'|
    ensures j <= |vals|
    ensures j < |vals| ==> Incoming(preds, vals, pred) == vals[j] && Incoming(preds, vals', pred) == vals'[j]
    ensures j == |vals| ==> Incoming(preds, vals, pred) == Incoming(preds, vals', pred) == 0
  {
    if preds == [] || preds[0] == pred {
      j := 0;
    } else {
      j := IncomingPick(preds[1..], vals[1..], vals'[1..], pred);
      j := j + 1;
    }
  }

  lemma FlowRelated(p: Program, known: set<Id>, i: Id, j: nat, vals: seq<Word>, vals': seq<Word>)
    requires Analysed(p, known) && i < |p| && ValuesRelated(p, known, p[i], vals, vals') && j < |vals|
    requires p[i].op.Phi? || (p[i].op.Select? && j >= 1)
    requires LooseId(p, known, i) ==> Fits(vals[j])
    ensures Related(LooseId(p, known, i), vals[j], vals'[j])
  {
    assert OneRelated(p, known, p[i], j, vals[j], vals'[j]);
    if Loose(p, known, p[i].uses[j].op) { FollowIsLoose(p, known, i, j); }
    PassedOn(Loose(p, known, p[i].uses[j].op), LooseId(p, known, i), vals[j], vals'[j]);
  }

  /** The condition of a select is never a pointer or a closure integer. */
  lemma ConditionAgrees(p: Program, known: set<Id>, i: Id, vals: seq<Word>, vals': seq<Word>)
    requires Analysed(p, known) && i < |p| && p[i].op.Select?
    requires ValuesRelated(p, known, p[i], vals, vals')
    ensures |vals| == |vals'| == 3 && vals'[0] == vals[0]
  {
    assert WellTyped(p, p[i]);
    assert OneRelated(p, known, p[i], 0, vals[0], vals'[0]);
  }

  lemma EqualIsRelated(loose: bool, w: Word)
    requires loose ==> Fits(w)
    ensures Related(loose, w, w)
  {
    LowFits(w);
  }

  lemma AndWords(loose: bool, w: Word, w': Word, mask: Word)
    requires Low(w') == w && (loose || Fits(mask))
    ensures Related(loose, Both(w, mask), Both(w', mask)) && Related(loose, Both(mask, w), Both(mask, w'))
  {
    hide Low, Fits, Both;
    LowAnd(w', mask);
    LowAnd(w, mask);
  }

  ghost predicate ConstantsShown(ins: Instr, vals: seq<Word>) {
    |vals| == |ins.uses| && forall j :: 0 <= j < |vals| && ins.uses[j].op.Const? ==> vals[j] == ins.uses[j].op.word
  }

  /** The operands of an and: each is equal in both runs, or carries metadata and
      meets an equal operand that keeps all of it or removes all of it. */
  lemma AndCases(loose: bool, la: bool, lb: bool, w0: Word, v0: Word, w1: Word, v1: Word)
    requires Related(la, w0, v0) && Related(lb, w1, v1)
    requires v0 == w0 || (!lb && (loose || Fits(w1)))
    requires v1 == w1 || (!la && (loose || Fits(w0)))
    requires loose ==> Fits(Both(w0, w1))
    ensures Related(loose, Both(w0, w1), Both(v0, v1))
  {
    hide Low, Fits, Both;
    if v0 != w0 {
      AndWords(loose, w0, v0, w1);
    } else if v1 != w1 {
      AndWords(loose, w1, v1, w0);
    } else {
      EqualIsRelated(loose, Both(w0, w1));
    }
  }

  lemma AndRelated(p: Program, known: set<Id>, i: Id, vals: seq<Word>, vals': seq<Word>)
    requires Analysed(p, known) && i < |p| && p[i].op.And? && ValuesRelated(p, known, p[i], vals, vals')
    requires ConstantsShown(p[i], vals) && |vals| == 2 && (LooseId(p, known, i) ==> Fits(Both(vals[0], vals[1])))
    ensures Related(LooseId(p, known, i), Both(vals[0], vals[1]), Both(vals'[0], vals'[1]))
  {
    hide Low, Fits, Both;
    var a, b := p[i].uses[0].op, p[i].uses[1].op;
    assert OneRelated(p, known, p[i], 0, vals[0], vals'[0]);
    assert OneRelated(p, known, p[i], 1, vals[1], vals'[1]);
    assert vals'[0] == vals[0] || (!Loose(p, known, b) && (LooseId(p, known, i) || Fits(vals[1]))) by {
      if Loose(p, known, a) { AndUse(p, known, i, 0); }
    }
    assert vals'[1] == vals[1] || (!Loose(p, known, a) && (LooseId(p, known, i) || Fits(vals[0]))) by {
      if Loose(p, known, b) { AndUse(p, known, i, 1); }
    }
    hide *;
    AndCases(LooseId(p, known, i), Loose(p, known, a), Loose(p, known, b), vals[0], vals'[0], vals[1], vals'[1]);
  }

  lemma AndUse(p: Program, known: set<Id>, i: Id, j: nat)
    requires Analysed(p, known) && i < |p| && p[i].op.And? && j < |p[i].uses| && Loose(p, known, p[i].uses[j].op)
    ensures |p[i].uses| == 2
    ensures Strict(p, known, p[i], j)
         || (p[i].uses[1 - j].op.Const? && (LooseId(p, known, i) || Fits(p[i].uses[1 - j].op.word)))
  {
    var ins, o := p[i], p[i].uses[j].op;
    assert WellTyped(p, ins) && UsesReg(ins, o.id) && OperandTy(p, o, ins.ty);
    assert o.id in known;
    assert !UseIs(p, o.id, i, Unknown);
    assert UseIs(p, o.id, i, Follow) ==> i in known;
  }

  /** PtrToInt and Trunc keep some low bits, or all of them. */
  lemma NarrowRelated(loose: bool, from: bool, w: Word, w': Word, keep: Word)
    requires Related(from, w, w') && (from ==> loose || Fits(keep)) && (loose ==> Fits(Both(w, keep)))
    ensures Related(loose, Both(w, keep), Both(w', keep))
  {
    hide Low, Fits, Both;
    LowAnd(w', keep);
    LowFits(Both(w, keep));
  }

  lemma ConversionRelated(p: Program, known: set<Id>, i: Id, vals: seq<Word>, vals': seq<Word>, keep: Word)
    requires Analysed(p, known) && i < |p| && ValuesRelated(p, known, p[i], vals, vals')
    requires p[i].op == PtrToInt(keep) || p[i].op == Trunc(keep)
    requires |vals| == 1 && (LooseId(p, known, i) ==> Fits(Both(vals[0], keep)))
    ensures Related(LooseId(p, known, i), Both(vals[0], keep), Both(vals'[0], keep))
  {
    hide Low, Both;
    assert OneRelated(p, known, p[i], 0, vals[0], vals'[0]);
    var o := p[i].uses[0].op;
    assert Loose(p, known, o) ==> LooseId(p, known, i) || Fits(keep) by {
      assert WellTyped(p, p[i]);
      if Loose(p, known, o) && p[i].op.Trunc? {
        assert UsesReg(p[i], o.id) && o.id in known;
        assert !UseIs(p, o.id, i, Unknown);
      }
    }
    NarrowRelated(LooseId(p, known, i), Loose(p, known, o), vals[0], vals'[0], keep);
  }

  lemma GepRelated(p: Program, known: set<Id>, i: Id, vals: seq<Word>, vals': seq<Word>, d: Word)
    requires Analysed(p, known) && i < |p| && p[i].op.Gep? && ValuesRelated(p, known, p[i], vals, vals') && |vals| > 0
    requires Fits(Plus(vals[0], d))
    ensures Related(true, Plus(vals[0], d), Plus(vals'[0], d)) && vals'[1..] == vals[1..]
  {
    hide Low, Fits, Plus;
    assert OneRelated(p, known, p[i], 0, vals[0], vals'[0]);
    if Loose(p, known, p[i].uses[0].op) {
      ThinPlus(vals[0], vals'[0], d);
    } else {
      EqualIsRelated(true, Plus(vals[0], d));
    }
    forall j | 1 <= j < |vals| ensures vals'[j] == vals[j] { assert OneRelated(p, known, p[i], j, vals[j], vals'[j]); }
  }

  lemma StrictValuesAgree(p: Program, known: set<Id>, ins: Instr, vals: seq<Word>, vals': seq<Word>)
    requires ValuesRelated(p, known, ins, vals, vals') && forall j :: 0 <= j < |ins.uses| ==> Strict(p, known, ins, j)
    ensures vals' == vals
  {
    forall j | 0 <= j < |vals| ensures vals'[j] == vals[j] { assert OneRelated(p, known, ins, j, vals[j], vals'[j]); }
  }

  /** Not a pointer, not in the closure: a value copied from an operand agrees. */
  lemma CopyRelated(m: Machine, p: Program, known: set<Id>, s: State, s': State, r: Reply, r': Reply)
    requires Analysed(p, known) && Simulates(p, known, s, s') && s.pc < |p| && Tame(m, p, known, s, s', r, r')
    requires p[s.pc].op.IntToPtr? || p[s.pc].op.BitCast?
    ensures Related(LooseId(p, known, s.pc), Values(p[s.pc], s)[0], Values(Rewritten(p, known, p[s.pc]), s')[0])
  {
    hide Low, Fits;
    var ins := p[s.pc];
    var ins' := Rewritten(p, known, ins);
    assert WellTyped(p, ins) && Unmasked(ins);
    hide Original, HasRoots, Closed, AllKnown, ClosureIsI64, EnvRelated, MemRelated, Result, RepliesRelated;
    AllOperandsRelated(m, p, known, s, s', r, r');
    var w, w' := Values(ins, s)[0], Values(ins', s')[0];
    assert OneRelated(p, known, ins, 0, w, w');
    if LooseId(p, known, s.pc) {
      PassedOn(Loose(p, known, ins.uses[0].op), true, w, w');
    } else {
      assert !MaskedAt(p, known, ins, 0);
      assert Values(ins, s')[0] == w;
    }
  }

  lemma LoadRelated(loose: bool, ptr: bool, w: Word, w': Word)
    requires if ptr then CellRelated(w, w') else w' == w
    requires (loose ==> Fits(w)) && (ptr ==> loose)
    ensures Related(loose, w, w')
  {
    hide Low, Fits;
    LowFits(w);
  }

  lemma ReplyValueRelated(loose: bool, ptr: bool, fat: bool, w: Word, w': Word, meta: Word)
    requires Related(ptr, w, w') && (ptr ==> loose) && (fat ==> ptr) && (loose ==> Fits(w))
    ensures Related(loose, w, if fat then FatPointer(w', meta) else w')
  {
    hide Low, Fits, FatPointer;
    LowFits(w);
    FatIsThin(w', meta);
  }

  lemma ConstantsAreShown(p: Program, s: State, i: Id)
    requires Original(p) && i < |p|
    ensures ConstantsShown(p[i], Values(p[i], s))
  {
    assert Unmasked(p[i]);
  }

  predicate Computes(ins: Instr) {
    ins.op.PtrToInt? || ins.op.Trunc? || ins.op.Phi? || ins.op.Select? || ins.op.And? || ins.op.Alu? || ins.op.Gep?
  }

  /** Phi, select and and: the operations along which the closure runs. */
  lemma FlowedRelated(m: Machine, p: Program, known: set<Id>, s: State, s': State, r: Reply, r': Reply,
                      vals: seq<Word>, vals': seq<Word>)
    requires Analysed(p, known) && s.pc < |p| && s'.pred == s.pred
    requires ValuesRelated(p, known, p[s.pc], vals, vals') && ConstantsShown(p[s.pc], vals)
    requires LooseId(p, known, s.pc) ==> Fits(Result(m, p[s.pc], vals, s, r))
    requires p[s.pc].op.Phi? || p[s.pc].op.Select? || p[s.pc].op.And?
    ensures var ins, ins' := p[s.pc], Rewritten(p, known, p[s.pc]);
      Related(LooseId(p, known, s.pc), Result(m, ins, vals, s, r), Result(m, ins', vals', s', r'))
  {
    hide Low, Fits, Plus, Both, Closed, AllKnown, HasRoots, ClosureIsI64, MaskedAt, ConstantsShown, LooseId, Related,
      OneRelated, Strict, Incoming;
    var i, ins := s.pc, p[s.pc];
    assert WellTyped(p, ins);
    match ins.op
    case Phi(preds) =>
      var j := IncomingPick(preds, vals, vals', s.pred);
      if j < |vals| { FlowRelated(p, known, i, j, vals, vals'); } else { ZeroRelated(LooseId(p, known, i)); }
    case Select =>
      ConditionAgrees(p, known, i, vals, vals');
      FlowRelated(p, known, i, if vals[0] != 0 then 1 else 2, vals, vals');
    case And => AndRelated(p, known, i, vals, vals');
  }

  lemma PlainRelated(m: Machine, p: Program, known: set<Id>, s: State, s': State, r: Reply, r': Reply,
                     vals: seq<Word>, vals': seq<Word>)
    requires Analysed(p, known) && s.pc < |p| && s'.pred == s.pred
    requires ValuesRelated(p, known, p[s.pc], vals, vals') && ConstantsShown(p[s.pc], vals)
    requires LooseId(p, known, s.pc) ==> Fits(Result(m, p[s.pc], vals, s, r))
    requires p[s.pc].op.PtrToInt? || p[s.pc].op.Trunc? || p[s.pc].op.Alu? || p[s.pc].op.Gep?
    ensures var ins, ins' := p[s.pc], Rewritten(p, known, p[s.pc]);
      Related(LooseId(p, known, s.pc), Result(m, ins, vals, s, r), Result(m, ins', vals', s', r'))
  {
    hide Low, Fits, Plus, Both, Closed, AllKnown, HasRoots, ClosureIsI64, MaskedAt, ConstantsShown, LooseId, Related,
      OneRelated, Strict, Incoming;
    var i, ins := s.pc, p[s.pc];
    assert WellTyped(p, ins);
    match ins.op
    case PtrToInt(keep) => ConversionRelated(p, known, i, vals, vals', keep);
    case Trunc(keep) => ConversionRelated(p, known, i, vals, vals', keep);
    case Alu(a, attr) =>
      AluAgrees(p, known, ins, vals, vals');
      EqualIsRelated(LooseId(p, known, i), m.alu(a, attr, vals));
    case Gep(attr) =>
      GepIsLoose(p, known, i);
      GepRelated(p, known, i, vals, vals', m.offset(attr, vals[1..]));
  }

  /** Instructions whose result is a function of their operands. */
  lemma ComputedRelated(m: Machine, p: Program, known: set<Id>, s: State, s': State, r: Reply, r': Reply,
                        vals: seq<Word>, vals': seq<Word>)
    requires Analysed(p, known) && s.pc < |p| && s'.pred == s.pred
    requires ValuesRelated(p, known, p[s.pc], vals, vals') && ConstantsShown(p[s.pc], vals)
    requires LooseId(p, known, s.pc) ==> Fits(Result(m, p[s.pc], vals, s, r))
    requires Computes(p[s.pc])
    ensures var ins, ins' := p[s.pc], Rewritten(p, known, p[s.pc]);
      Related(LooseId(p, known, s.pc), Result(m, ins, vals, s, r), Result(m, ins', vals', s', r'))
  {
    hide Analysed, ValuesRelated, ConstantsShown, LooseId, Related, Result, Rewritten, Fits;
    var op := p[s.pc].op;
    if op.Phi? || op.Select? || op.And? {
      FlowedRelated(m, p, known, s, s', r, r', vals, vals');
    } else {
      PlainRelated(m, p, known, s, s', r, r', vals, vals');
    }
  }

  lemma GepIsLoose(p: Program, known: set<Id>, i: Id)
    requires Original(p) && i < |p| && p[i].op.Gep?
    ensures LooseId(p, known, i)
  {
    assert WellTyped(p, p[i]);
  }

  /** Both runs are about to execute the same instruction. */
  ghost predicate Poised(m: Machine, p: Program, known: set<Id>, s: State, s': State, r: Reply, r': Reply) {
    Analysed(p, known) && Simulates(p, known, s, s') && s.pc < |p| && Tame(m, p, known, s, s', r, r')
  }

  ghost predicate ResultsRelated(m: Machine, p: Program, known: set<Id>, s: State, s': State, r: Reply, r': Reply)
    requires s.pc < |p|
  {
    var ins, ins' := p[s.pc], Rewritten(p, known, p[s.pc]);
    Related(LooseId(p, known, s.pc), Result(m, ins, Values(ins, s), s, r), Result(m, ins', Values(ins', s'), s', r'))
  }

  lemma ComputedResult(m: Machine, p: Program, known: set<Id>, s: State, s': State, r: Reply, r': Reply)
    requires Poised(m, p, known, s, s', r, r') && Computes(p[s.pc])
    ensures ResultsRelated(m, p, known, s, s', r, r')
  {
    hide Low, Fits, Original, Values, Result, Rewritten, Related, LooseId, ValuesRelated, ConstantsShown;
    AllOperandsRelated(m, p, known, s, s', r, r');
    ConstantsAreShown(p, s, s.pc);
    ComputedRelated(m, p, known, s, s', r, r',
      Values(p[s.pc], s), Values(Rewritten(p, known, p[s.pc]), s'));
  }

  lemma LoadedResult(m: Machine, p: Program, known: set<Id>, s: State, s': State, r: Reply, r': Reply)
    requires Poised(m, p, known, s, s', r, r') && p[s.pc].op.Load?
    ensures ResultsRelated(m, p, known, s, s', r, r')
  {
    hide Low, Fits, Values, ValuesRelated, EnvRelated, CellRelated, Closed, AllKnown, HasRoots, ClosureIsI64, Related;
    hide MaskedAt;
    var ins := p[s.pc];
    var vals, vals' := Values(ins, s), Values(Rewritten(p, known, ins), s');
    assert WellTyped(p, ins);
    AllOperandsRelated(m, p, known, s, s', r, r');
    AluAgrees(p, known, ins, vals, vals');
    assert CellRelated(Read(s.mem, vals[0]), Read(s'.mem, vals[0]));
    LoadRelated(LooseId(p, known, s.pc), ins.ty == Ptr, Read(s.mem, vals[0]), Read(s'.mem, vals[0]));
  }

  lemma RepliedResult(m: Machine, p: Program, known: set<Id>, s: State, s': State, r: Reply, r': Reply)
    requires Poised(m, p, known, s, s', r, r') && (p[s.pc].op.Input? || p[s.pc].op.Call?)
    ensures ResultsRelated(m, p, known, s, s', r, r')
  {
    hide Low, Fits, FatPointer, Values, EnvRelated, MemRelated;
    var ins, ins' := p[s.pc], Rewritten(p, known, p[s.pc]);
    assert WellTyped(p, ins) && !ins.fat;
    ReplyValueRelated(LooseId(p, known, s.pc), ins.ty == Ptr, ins'.fat, r.value, r'.value, m.lookup(r'.value));
  }

  /** Every instruction gives the original result, up to metadata where pointers and
      closure integers are concerned. */
  lemma ResultRelated(m: Machine, p: Program, known: set<Id>, s: State, s': State, r: Reply, r': Reply)
    requires Poised(m, p, known, s, s', r, r')
    ensures ResultsRelated(m, p, known, s, s', r, r')
  {
    var ins := p[s.pc];
    if Computes(ins) {
      ComputedResult(m, p, known, s, s', r, r');
    } else if ins.op.IntToPtr? || ins.op.BitCast? {
      hide Low, Fits, LooseId, Related, EnvRelated, MemRelated;
      CopyRelated(m, p, known, s, s', r, r');
    } else if ins.op.Load? {
      LoadedResult(m, p, known, s, s', r, r');
    } else if ins.op.Input? || ins.op.Call? {
      RepliedResult(m, p, known, s, s', r, r');
    } else {
      hide Low, Fits, LooseId, Related, EnvRelated, MemRelated;
      ZeroRelated(LooseId(p, known, s.pc));
    }
  }

  lemma MemoryStep(m: Machine, p: Program, known: set<Id>, s: State, s': State, r: Reply, r': Reply)
    requires Poised(m, p, known, s, s', r, r')
    ensures var ins, ins' := p[s.pc], Rewritten(p, known, p[s.pc]);
      MemRelated(MemoryAfter(ins, Values(ins, s), s, r), MemoryAfter(ins', Values(ins', s'), s', r'))
  {
    hide Low, Fits, Values, ValuesRelated, EnvRelated, MemRelated, CellRelated, LooseId;
    var ins := p[s.pc];
    var vals, vals' := Values(ins, s), Values(Rewritten(p, known, ins), s');
    assert WellTyped(p, ins);
    AllOperandsRelated(m, p, known, s, s', r, r');
    if ins.op.Store? { StoreRelated(p, known, ins, vals, vals', s.mem, s'.mem); }
    if ins.op.Call? { WritesRelated(s.mem, s'.mem, r.writes, r'.writes); }
  }

  lemma ControlStep(m: Machine, p: Program, known: set<Id>, s: State, s': State, r: Reply, r': Reply)
    requires Poised(m, p, known, s, s', r, r')
    ensures var ins, ins' := p[s.pc], Rewritten(p, known, p[s.pc]);
      NextPc(|p|, ins', Values(ins', s'), s'.pc) == NextPc(|p|, ins, Values(ins, s), s.pc)
    ensures Observe(p, known, p[s.pc], Values(Rewritten(p, known, p[s.pc]), s'))
         == Observe(p, known, p[s.pc], Values(p[s.pc], s))
  {
    hide Low, Fits, Values, EnvRelated, MemRelated, Strict, Related, Analysed;
    var ins := p[s.pc];
    var vals, vals' := Values(ins, s), Values(Rewritten(p, known, ins), s');
    AllOperandsRelated(m, p, known, s, s', r, r');
    forall j | 0 <= j < |vals| ensures Strict(p, known, ins, j) ==> vals'[j] == vals[j] {
      assert OneRelated(p, known, ins, j, vals[j], vals'[j]);
    }
    if ins.op.Switch? || ins.op.Br? { AluAgrees(p, known, ins, vals, vals'); }
  }

  lemma ZeroRelated(loose: bool)
    ensures Related(loose, 0, 0)
  {
  }

  lemma AluAgrees(p: Program, known: set<Id>, ins: Instr, vals: seq<Word>, vals': seq<Word>)
    requires ValuesRelated(p, known, ins, vals, vals') && (ins.op.Alu? || ins.op.Load? || ins.op.Switch? || ins.op.Br?)
    ensures vals' == vals
  {
    StrictValuesAgree(p, known, ins, vals, vals');
  }

  lemma CellFromRelated(loose: bool, w: Word, w': Word)
    requires Related(loose, w, w')
    ensures CellRelated(w, w')
  {
    hide Low, Fits;
    LowFits(w');
  }

  lemma StoreRelated(p: Program, known: set<Id>, ins: Instr, vals: seq<Word>, vals': seq<Word>,
                     mem: Memory, mem': Memory)
    requires ValuesRelated(p, known, ins, vals, vals') && ins.op.Store? && |ins.uses| == 2 && MemRelated(mem, mem')
    ensures vals'[1] == vals[1] && MemRelated(mem[Cell(vals[1]) := vals[0]], mem'[Cell(vals[1]) := vals'[0]])
  {
    hide Low, Fits, CellRelated;
    assert OneRelated(p, known, ins, 0, vals[0], vals'[0]) && OneRelated(p, known, ins, 1, vals[1], vals'[1]);
    CellFromRelated(Loose(p, known, ins.uses[0].op), vals[0], vals'[0]);
    var n, n' := mem[Cell(vals[1]) := vals[0]], mem'[Cell(vals[1]) := vals'[0]];
    forall a: Word ensures CellRelated(Read(n, a), Read(n', a)) {
      if a != vals[1] { assert Read(n, a) == Read(mem, a) && Read(n', a) == Read(mem', a); }
    }
  }

  lemma WritesRelated(mem: Memory, mem': Memory, w: Memory, w': Memory)
    requires MemRelated(mem, mem') && w'.Keys == w.Keys && forall a :: a in w ==> CellRelated(w[a], w'[a])
    ensures MemRelated(mem + w, mem' + w')
  {
    hide Low, Fits, CellRelated;
    forall a: Word ensures CellRelated(Read(mem + w, a), Read(mem' + w', a)) {
      assert Cell(a) in w <==> Cell(a) in w';
      if Cell(a) !in w { assert Read(mem + w, a) == Read(mem, a) && Read(mem' + w', a) == Read(mem', a); }
    }
  }

  /** One step of both runs: the relation is kept and the same things are observed. */
  lemma StepSimulates(m: Machine, p: Program, known: set<Id>, s: State, s': State, r: Reply, r': Reply)
    requires Poised(m, p, known, s, s', r, r')
    ensures Simulates(p, known, Step(m, p, s, r), Step(m, Instrumented(p, known), s', r'))
    ensures Observe(p, known, p[s.pc], Values(Instrumented(p, known)[s.pc], s'))
         == Observe(p, known, p[s.pc], Values(p[s.pc], s))
  {
    hide Low, Analysed, Result, LooseId, Related, Values, EnvRelated, MemRelated, Tame, Observe, NextPc, MemoryAfter;
    var ins, ins' := p[s.pc], Rewritten(p, known, p[s.pc]);
    assert Instrumented(p, known)[s.pc] == ins';
    ResultRelated(m, p, known, s, s', r, r');
    MemoryStep(m, p, known, s, s', r, r');
    ControlStep(m, p, known, s, s', r, r');
    EnvUpdated(p, known, s.env, s'.env, s.pc,
      Result(m, ins, Values(ins, s), s, r), Result(m, ins', Values(ins', s'), s', r'));
  }

  lemma EnvUpdated(p: Program, known: set<Id>, env: map<Id, Word>, env': map<Id, Word>, i: Id, w: Word, w': Word)
    requires EnvRelated(p, known, env, env') && Related(LooseId(p, known, i), w, w')
    ensures EnvRelated(p, known, env[i := w], env'[i := w'])
  {
    hide Low, LooseId;
    var e, e' := env[i := w], env'[i := w'];
    forall id: Id ensures Related(LooseId(p, known, id), Get(e, id), Get(e', id)) {
      assert id != i ==> Related(LooseId(p, known, id), Get(env, id), Get(env', id));
    }
  }

  // -------------------------------------------------------------- whole runs

  /** The observations of a run that is given `replies`, until it leaves the function. */
  function Trace(m: Machine, p: Program, q: Program, known: set<Id>, s: State, replies: seq<Reply>): seq<Event>
    requires |q| == |p| && forall i :: 0 <= i < |p| ==> |q[i].uses| == |p[i].uses|
    decreases |replies|
  {
    if replies == [] || s.pc >= |p| then [] else
      var event := Observe(p, known, p[s.pc], Values(q[s.pc], s));
      [event] + Trace(m, p, q, known, Step(m, q, s, replies[0]), replies[1..])
  }

  /** Every step of the two runs is tame. */
  ghost predicate TameRun(m: Machine, p: Program, known: set<Id>, s: State, s': State, rs: seq<Reply>, rs': seq<Reply>)
    decreases |rs|
  {
    && |rs| == |rs'|
    && (rs != [] && s.pc < |p| && s'.pc < |p| ==>
         && Tame(m, p, known, s, s', rs[0], rs'[0])
         && TameRun(m, p, known, Step(m, p, s, rs[0]), Step(m, Instrumented(p, known), s', rs'[0]), rs[1..], rs'[1..]))
  }

  lemma {:induction false} RunSimulates(m: Machine, p: Program, known: set<Id>, s: State, s': State,
                                        rs: seq<Reply>, rs': seq<Reply>)
    requires Analysed(p, known) && Simulates(p, known, s, s') && TameRun(m, p, known, s, s', rs, rs')
    ensures Trace(m, p, Instrumented(p, known), known, s', rs') == Trace(m, p, p, known, s, rs)
    decreases |rs|
  {
    hide Analysed, Simulates, Tame, Observe, Strict, Step;
    if rs != [] && s.pc < |p| {
      SamePc(p, known, s, s');
      StepSimulates(m, p, known, s, s', rs[0], rs'[0]);
      RunSimulates(m, p, known, Step(m, p, s, rs[0]), Step(m, Instrumented(p, known), s', rs'[0]), rs[1..], rs'[1..]);
    } else {
      SamePc(p, known, s, s');
    }
  }

  /** Every step is regular, as long as externs get integers that fit. */
  ghost predicate RegularRun(m: Machine, p: Program, known: set<Id>, s: State, s': State, rs: seq<Reply>,
                             rs': seq<Reply>)
    decreases |rs|
  {
    && |rs| == |rs'|
    && (rs != [] && s.pc < |p| && s'.pc < |p| ==>
         && Regular(m, p, known, s, s', rs[0], rs'[0])
         && (ExternFits(p, known, s) ==>
              RegularRun(m, p, known, Step(m, p, s, rs[0]), Step(m, Instrumented(p, known), s', rs'[0]), rs[1..],
                         rs'[1..])))
  }

  /** Every integer the original run stores to an extern fits. */
  ghost predicate ExternsFit(m: Machine, p: Program, known: set<Id>, s: State, rs: seq<Reply>)
    decreases |rs|
  {
    rs != [] && s.pc < |p| ==> ExternFits(p, known, s) && ExternsFit(m, p, known, Step(m, p, s, rs[0]), rs[1..])
  }

  /** A store that does not fit is observed. */
  lemma MisfitObserved(p: Program, known: set<Id>, s: State, s': State)
    requires Analysed(p, known) && Simulates(p, known, s, s') && s.pc < |p| && !ExternFits(p, known, s)
    ensures var ins, ins' := p[s.pc], Rewritten(p, known, p[s.pc]);
      Observe(p, known, ins, Values(ins', s')) != Observe(p, known, ins, Values(ins, s))
  {
    var ins, ins' := p[s.pc], Rewritten(p, known, p[s.pc]);
    ExternStoreExact(p, known, s, s');
    hide Strict, Simulates, Analysed, Loose, Fits, Rewritten;
    assert Observe(p, known, ins, Values(ins', s'))[0] == Some(Values(ins', s')[0]);
    assert Observe(p, known, ins, Values(ins, s))[0] == Some(Values(ins, s)[0]);
  }

  lemma TraceStep(m: Machine, p: Program, q: Program, known: set<Id>, s: State, rs: seq<Reply>)
    requires |q| == |p| && (forall i :: 0 <= i < |p| ==> |q[i].uses| == |p[i].uses|) && rs != [] && s.pc < |p|
    ensures Trace(m, p, q, known, s, rs) == [Observe(p, known, p[s.pc], Values(q[s.pc], s))]
      + Trace(m, p, q, known, Step(m, q, s, rs[0]), rs[1..])
  {
  }

  lemma SameShape(p: Program, known: set<Id>)
    ensures var q := Instrumented(p, known); |q| == |p| && forall i :: 0 <= i < |p| ==> |q[i].uses| == |p[i].uses|
  {
  }

  lemma SameHead(a: Event, b: Event, s: seq<Event>, t: seq<Event>)
    ensures [a] + s == [b] + t <==> a == b && s == t
  {
    assert ([a] + s)[0] == a && ([b] + t)[0] == b && ([a] + s)[1..] == s && ([b] + t)[1..] == t;
  }

  lemma {:induction false} RunExact(m: Machine, p: Program, known: set<Id>, s: State, s': State,
                                    rs: seq<Reply>, rs': seq<Reply>)
    requires Analysed(p, known) && Simulates(p, known, s, s') && RegularRun(m, p, known, s, s', rs, rs')
    ensures Trace(m, p, Instrumented(p, known), known, s', rs') == Trace(m, p, p, known, s, rs) <==>
      ExternsFit(m, p, known, s, rs)
    decreases |rs|
  {
    hide Analysed, Simulates, Regular, Observe, Step, ExternFits, Rewritten, Values;
    SamePc(p, known, s, s');
    if rs != [] && s.pc < |p| {
      var q := Instrumented(p, known);
      var t, t' := Step(m, p, s, rs[0]), Step(m, q, s', rs'[0]);
      SameShape(p, known);
      TraceStep(m, p, p, known, s, rs);
      TraceStep(m, p, q, known, s', rs');
      SameHead(Observe(p, known, p[s.pc], Values(q[s.pc], s')), Observe(p, known, p[s.pc], Values(p[s.pc], s)),
        Trace(m, p, q, known, t', rs'[1..]), Trace(m, p, p, known, t, rs[1..]));
      if ExternFits(p, known, s) {
        StepSimulates(m, p, known, s, s', rs[0], rs'[0]);
        RunExact(m, p, known, t, t', rs[1..], rs'[1..]);
      } else {
        MisfitObserved(p, known, s, s');
      }
    }
  }

  lemma SamePc(p: Program, known: set<Id>, s: State, s': State)
    requires Simulates(p, known, s, s')
    ensures s'.pc == s.pc
  {
  }

  lemma StartSimulates(p: Program, known: set<Id>, s: State)
    requires s.env == s.edge == map[]
    ensures Simulates(p, known, s, s)
  {
  }

  /** The masking pass preserves meaning: for every function whose closure it can
      handle, every tame run of the result observes exactly what the original run
      observes. */
  lemma MaskingPreservesMeaning(m: Machine, p: Program, known: set<Id>, mem: Memory, rs: seq<Reply>, rs': seq<Reply>)
    requires Original(p) && IsClosure(p, known) && AllKnown(p, known)
    requires var s := State(0, 0, map[], map[], mem); TameRun(m, p, known, s, s, rs, rs')
    ensures var s := State(0, 0, map[], map[], mem);
      Trace(m, p, Instrumented(p, known), known, s, rs') == Trace(m, p, p, known, s, rs)
  {
    var s := State(0, 0, map[], map[], mem);
    ClosureTypes(p, known);
    StartSimulates(p, known, s);
    RunSimulates(m, p, known, s, s, rs, rs');
  }

  /** And exactly: of the regular runs, those whose observations the pass preserves are the
      ones that store only integers of 32 bits to externs. */
  lemma MaskingExact(m: Machine, p: Program, known: set<Id>, mem: Memory, rs: seq<Reply>, rs': seq<Reply>)
    requires Original(p) && IsClosure(p, known) && AllKnown(p, known)
    requires var s := State(0, 0, map[], map[], mem); RegularRun(m, p, known, s, s, rs, rs')
    ensures var s := State(0, 0, map[], map[], mem);
      Trace(m, p, Instrumented(p, known), known, s, rs') == Trace(m, p, p, known, s, rs) <==>
        ExternsFit(m, p, known, s, rs)
  {
    var s := State(0, 0, map[], map[], mem);
    ClosureTypes(p, known);
    StartSimulates(p, known, s);
    RunExact(m, p, known, s, s, rs, rs');
  }

  /** A function that stores its parameter, an integer, to an extern at address 4096. */
  function StoreToExtern(): Program {
    [Instr(Input, I64, [], false),
     Instr(Store(true), Other, [Use(Reg(0), false), Use(Const(4096), false)], false)]
  }

  lemma StoreToExternOk()
    ensures Original(StoreToExtern()) && IsClosure(StoreToExtern(), {}) && AllKnown(StoreToExtern(), {})
    ensures forall i :: 0 <= i < |StoreToExtern()| ==> ExternMaskable(StoreToExtern(), StoreToExtern()[i])
    ensures Instrumented(StoreToExtern(), {}) ==
      [StoreToExtern()[0], Instr(Store(true), Other, [Use(Reg(0), true), Use(Const(4096), true)], false)]
  {
    var p := StoreToExtern();
    assert Rewritten(p, {}, p[0]).uses == [];
    assert Rewritten(p, {}, p[1]).uses == [Use(Reg(0), true), Use(Const(4096), true)];
  }

  /** The pass accepts it; given 2^32 it stores that before the pass and 0 after it. */
  lemma MaskedStoreLoses(m: Machine)
    ensures Original(StoreToExtern()) && IsClosure(StoreToExtern(), {}) && AllKnown(StoreToExtern(), {})
    ensures var s, reply := State(0, 0, map[], map[], map[]), Reply(0x1_0000_0000, map[]);
      && StoredBy(m, StoreToExtern(), s, reply) == 0x1_0000_0000
      && StoredBy(m, Instrumented(StoreToExtern(), {}), s, reply) == 0
  {
    hide Original, IsClosure, AllKnown, Instrumented, ExternMaskable;
    StoreToExternOk();
    var s, reply := State(0, 0, map[], map[], map[]), Reply(0x1_0000_0000, map[]);
    StoreRun(m, s, reply, false);
    StoreRun(m, s, reply, true);
  }

  /** What two steps of a function leave at address 4096. */
  function StoredBy(m: Machine, p: Program, s: State, reply: Reply): Word {
    if s.pc >= |p| then 0 else
      var s1 := Step(m, p, s, reply);
      if s1.pc >= |p| then 0 else Read(Step(m, p, s1, reply).mem, 4096)
  }

  lemma StoreRun(m: Machine, s: State, reply: Reply, masked: bool)
    requires s.pc == 0
    ensures StoredBy(m, [Instr(Input, I64, [], false),
      Instr(Store(true), Other, [Use(Reg(0), masked), Use(Const(4096), masked)], false)], s, reply)
      == if masked then Low(reply.value) else reply.value
  {
    var p := [Instr(Input, I64, [], false),
              Instr(Store(true), Other, [Use(Reg(0), masked), Use(Const(4096), masked)], false)];
    assert Low(4096) == 4096;
    hide Low;
    var s1 := Step(m, p, s, reply);
    assert s1.pc == 1 && Get(s1.env, 0) == reply.value;
    assert Values(p[1], s1) == [if masked then Low(reply.value) else reply.value, 4096];
  }
}
