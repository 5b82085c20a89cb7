/** A small SSA-like IR for the pointer-masking pass, its classification of the
    uses of pointer-sized integers, and the pass itself. */
module PointerIR {
  type Word = bv64
  type Id = nat

  /** A pointer occupies the low 32 bits; metadata the high 32. */
  function Low(w: Word): Word { w & 0xFFFF_FFFF }

  predicate Fits(w: Word) { w <= 0xFFFF_FFFF }

  const ALL_ONES: Word := 0xFFFF_FFFF_FFFF_FFFF

  datatype Ty = Ptr | I64 | Other

  datatype Operand = Reg(id: Id) | Const(word: Word)

  /** An operand position; the pass replaces an operand by its masked value. */
  datatype Use = Use(op: Operand, masked: bool)

  /** The operations named as sinks, followed by others the pass does not know. */
  datatype AluOp =
    | ICmp | Sub | Add | Xor | URem | SDiv | UDiv | LShr | AShr | Shl | Or | SIToFP | UIToFP | InsertElement
    | Mul | SRem | ZExt | SExt

  /** How a callee is known to the pass: defined here, one of the wrappers that
      forward to libc, declared only, an exempt intrinsic, or not known. */
  datatype CallKind = Internal | Wrapper | External | Exempt | Indirect

  datatype Opcode =
    | Input
    | PtrToInt(keep: Word)
    | IntToPtr
    | BitCast
    | Phi(preds: seq<nat>)
    | Select
    | And
    | Alu(alu: AluOp, attr: nat)
    | Gep(attr: nat)
    | Trunc(keep: Word)
    | Load
    | Store(toExtern: bool)
    | Call(kind: CallKind, alloc: bool, byval: set<nat>)
    | Ret
    | Switch(target: Word -> nat)
    | Br(yes: nat, no: nat)

  /** `fat` says the result carries metadata in its high bits from birth. */
  datatype Instr = Instr(op: Opcode, ty: Ty, uses: seq<Use>, fat: bool)

  type Program = seq<Instr>

  predicate IsSinkOp(a: AluOp) { !a.Mul? && !a.SRem? && !a.ZExt? && !a.SExt? }

  // ------------------------------------------------------------ typing

  predicate OperandTy(p: Program, o: Operand, t: Ty) {
    match o
    case Reg(id) => id < |p| && p[id].ty == t
    case Const(w) => t == Ptr ==> Fits(w)
  }

  predicate Scalar(p: Program, o: Operand) { OperandTy(p, o, I64) || OperandTy(p, o, Other) }

  predicate UsesAre(p: Program, ins: Instr, t: Ty) {
    forall j :: 0 <= j < |ins.uses| ==> OperandTy(p, ins.uses[j].op, t)
  }

  predicate ScalarsFrom(p: Program, ins: Instr, k: int) {
    forall j :: k <= j < |ins.uses| && 0 <= j ==> Scalar(p, ins.uses[j].op)
  }

  /** The operand and result types LLVM enforces.  Pointers convert to i64 or to
      integers of at most 32 bits. */
  predicate WellTyped(p: Program, ins: Instr) {
    && (forall j :: 0 <= j < |ins.uses| && ins.uses[j].op.Reg? ==> ins.uses[j].op.id < |p|)
    && match ins.op
       case Input => true
       case PtrToInt(keep) =>
         && |ins.uses| == 1 && UsesAre(p, ins, Ptr)
         && if ins.ty == I64 then keep == ALL_ONES else ins.ty == Other && Fits(keep)
       case IntToPtr => |ins.uses| == 1 && ins.ty == Ptr && ScalarsFrom(p, ins, 0)
       case BitCast => |ins.uses| == 1 && (ins.ty == Other ==> ScalarsFrom(p, ins, 0))
       case Phi(preds) => |preds| == |ins.uses| && UsesAre(p, ins, ins.ty)
       case Select =>
         && |ins.uses| == 3 && OperandTy(p, ins.uses[0].op, Other)
         && OperandTy(p, ins.uses[1].op, ins.ty) && OperandTy(p, ins.uses[2].op, ins.ty)
       case And => |ins.uses| == 2 && ins.ty != Ptr && UsesAre(p, ins, ins.ty)
       case Alu(a, _) =>
         && ins.ty != Ptr && (a.ICmp? ==> |ins.uses| == 2)
         && (ScalarsFrom(p, ins, 0) || (a.ICmp? && UsesAre(p, ins, Ptr)))
       case Gep(_) => |ins.uses| >= 1 && ins.ty == Ptr && OperandTy(p, ins.uses[0].op, Ptr) && ScalarsFrom(p, ins, 1)
       case Trunc(keep) => |ins.uses| == 1 && ins.ty == Other && ScalarsFrom(p, ins, 0)
       case Load => |ins.uses| == 1 && UsesAre(p, ins, Ptr)
       case Store(_) => |ins.uses| == 2 && ins.ty == Other && OperandTy(p, ins.uses[1].op, Ptr)
       case Call(_, alloc, _) => alloc ==> ins.ty == Ptr
       case Ret => ins.ty == Other
       case Switch(_) => |ins.uses| == 1 && ins.ty == Other && ScalarsFrom(p, ins, 0)
       case Br(_, _) => |ins.uses| <= 1 && ins.ty == Other && UsesAre(p, ins, Other)
  }

  /** A function before the pass. */
  predicate Original(p: Program) {
    forall i :: 0 <= i < |p| ==> WellTyped(p, p[i]) && !p[i].fat && Unmasked(p[i])
  }

  predicate Unmasked(ins: Instr) { forall j :: 0 <= j < |ins.uses| ==> !ins.uses[j].masked }

  // ------------------------------------------------- classification of uses

  datatype UseKind = Follow | Harmless | Sink | Unknown

  predicate UsesReg(ins: Instr, v: Id) {
    exists j :: 0 <= j < |ins.uses| && ins.uses[j].op == Reg(v)
  }

  /** A pointer-sized integer made from a pointer. */
  predicate IsPtrInt(p: Program, i: Id)
    requires i < |p|
  {
    && p[i].ty == I64
    && (p[i].op.PtrToInt? || (p[i].op.BitCast? && |p[i].uses| == 1 && OperandTy(p, p[i].uses[0].op, Ptr)))
  }

  function OtherOperand(ins: Instr, v: Id): Operand
    requires |ins.uses| == 2
  {
    if ins.uses[0].op == Reg(v) then ins.uses[1].op else ins.uses[0].op
  }

  predicate AndPreservesMeta(ins: Instr, v: Id) {
    |ins.uses| == 2 && OtherOperand(ins, v).Const? && OtherOperand(ins, v).word >= 0xFFFF_FFFF_0000_0000
  }

  predicate AndZeroesMeta(ins: Instr, v: Id) {
    |ins.uses| == 2 && OtherOperand(ins, v).Const? && Fits(OtherOperand(ins, v).word)
  }

  predicate IsTrivialNonSink(ins: Instr, v: Id) {
    match ins.op
    case Store(_) => true
    case IntToPtr => true
    case BitCast => true
    case Call(kind, _, _) => kind == Internal || kind == Wrapper
    case And => AndZeroesMeta(ins, v)
    case Trunc(keep) => Fits(keep)
    case _ => false
  }

  predicate IsSink(ins: Instr, v: Id) {
    match ins.op
    case Alu(a, _) => IsSinkOp(a)
    case Gep(_) => true
    case Switch(_) => true
    case Ret => true
    case Call(kind, _, _) => kind == External || kind == Exempt || kind == Indirect
    case And => !AndPreservesMeta(ins, v)
    case _ => false
  }

  function Classify(ins: Instr, v: Id): UseKind {
    if ins.op.Phi? || ins.op.Select? || (ins.op.And? && AndPreservesMeta(ins, v)) then Follow
    else if IsTrivialNonSink(ins, v) then Harmless
    else if IsSink(ins, v) then Sink
    else Unknown
  }

  predicate UseIs(p: Program, v: Id, u: Id, k: UseKind) {
    u < |p| && UsesReg(p[u], v) && Classify(p[u], v) == k
  }

  /** Closed under phi, select and metadata-preserving and. */
  ghost predicate Closed(p: Program, s: set<Id>) {
    forall v: Id, u: Id :: v in s && UseIs(p, v, u, Follow) ==> u in s
  }

  ghost predicate AllKnown(p: Program, s: set<Id>) {
    forall v: Id, u: Id :: v in s ==> !UseIs(p, v, u, Unknown)
  }

  ghost predicate HasRoots(p: Program, s: set<Id>) {
    forall i :: 0 <= i < |p| && IsPtrInt(p, i) ==> i in s
  }

  /** The closure of the pointer-sized integers: the least closed set with them. */
  ghost predicate IsClosure(p: Program, s: set<Id>) {
    && HasRoots(p, s) && Closed(p, s)
    && forall t: set<Id> :: HasRoots(p, t) && Closed(p, t) ==> s <= t
  }

  // -------------------------------------------------------- collecting sinks

  type SinkList = seq<(Id, seq<Id>)>

  predicate Listed(sinks: SinkList, v: Id, u: Id) {
    exists i :: 0 <= i < |sinks| && sinks[i].0 == v && u in sinks[i].1
  }

  function Ids(p: Program): set<Id> { set i: Id {:trigger p[i]} | i < |p| }

  /** The instructions that use `v`. */
  method Users(p: Program, v: Id) returns (us: seq<Id>)
    ensures forall u: Id :: u in us <==> u < |p| && UsesReg(p[u], v)
  {
    us := [];
    for i := 0 to |p|
      invariant forall u: Id :: u in us <==> u < i && UsesReg(p[u], v)
    {
      if UsesReg(p[i], v) { us := us + [i]; }
    }
  }

  method SortUses(p: Program, v: Id) returns (ok: bool, sinks: seq<Id>, follow: seq<Id>)
    ensures ok <==> forall u: Id :: !UseIs(p, v, u, Unknown)
    ensures ok ==> forall u: Id :: u in sinks <==> UseIs(p, v, u, Sink)
    ensures ok ==> forall u: Id :: u in follow <==> UseIs(p, v, u, Follow)
  {
    var us := Users(p, v);
    sinks, follow := [], [];
    for i := 0 to |us|
      invariant forall u: Id :: u in us[..i] ==> !UseIs(p, v, u, Unknown)
      invariant forall u: Id :: u in sinks <==> u in us[..i] && UseIs(p, v, u, Sink)
      invariant forall u: Id :: u in follow <==> u in us[..i] && UseIs(p, v, u, Follow)
    {
      var u := us[i];
      assert u in us;
      assert us[..i + 1] == us[..i] + [u];
      match Classify(p[u], v)
      case Follow => follow := follow + [u];
      case Harmless =>
      case Sink => sinks := sinks + [u];
      case Unknown =>
        assert UseIs(p, v, u, Unknown);
        return false, sinks, follow;
    }
    assert us[..|us|] == us;
    ok := true;
  }

  /** Depth-first collection.  Everything newly known is forced by closedness, has
      only understood uses, and has its own follow uses known; its sinks, and no
      others, are added to the list.  Failure means every closed set around `v`
      holds an integer with a use that is not understood. */
  method CollectSinks(p: Program, v: Id, known: set<Id>, sinks: SinkList)
    returns (ok: bool, known': set<Id>, sinks': SinkList)
    requires v < |p| && known <= Ids(p)
    ensures ok ==> known + {v} <= known' <= Ids(p)
    ensures ok ==> forall t: set<Id> :: Closed(p, t) && v in t ==> known' - known <= t
    ensures ok ==> forall x: Id, u: Id :: x in known' - known && UseIs(p, x, u, Follow) ==> u in known'
    ensures ok ==> AllKnown(p, known' - known)
    ensures ok ==> forall x: Id, u: Id :: Listed(sinks', x, u) <==>
      Listed(sinks, x, u) || (x in known' - known && UseIs(p, x, u, Sink))
    ensures !ok ==> forall t: set<Id> :: Closed(p, t) && v in t ==> !AllKnown(p, t)
    decreases Ids(p) - known
  {
    known', sinks' := known, sinks;
    if v in known { return true, known, sinks; }
    known' := known' + {v};
    var vSinks, follow;
    ok, vSinks, follow := SortUses(p, v);
    if !ok { return; }
    if vSinks != [] { sinks' := sinks' + [(v, vSinks)]; }
    assert forall x: Id, u: Id :: Listed(sinks', x, u) <==> Listed(sinks, x, u) || (x == v && u in vSinks) by {
      ListedAppend(sinks, v, vSinks);
    }
    for i := 0 to |follow|
      invariant known + {v} <= known' <= Ids(p)
      invariant forall t: set<Id> :: Closed(p, t) && v in t ==> known' - known <= t
      invariant forall x: Id, u: Id :: x in known' - known - {v} && UseIs(p, x, u, Follow) ==> u in known'
      invariant forall u: Id :: u in follow[..i] ==> u in known'
      invariant AllKnown(p, known' - known)
      invariant forall x: Id, u: Id :: Listed(sinks', x, u) <==>
        Listed(sinks, x, u) || (x in known' - known && UseIs(p, x, u, Sink))
    {
      var u := follow[i];
      assert UseIs(p, v, u, Follow);
      var before, listedBefore := known', sinks';
      ok, known', sinks' := CollectSinks(p, u, known', sinks');
      if !ok { return; }
      assert known' - known == (known' - before) + (before - known);
      assert follow[..i + 1] == follow[..i] + [u];
    }
    assert follow[..|follow|] == follow;
    ok := true;
  }

  lemma ListedAppend(sinks: SinkList, v: Id, us: seq<Id>)
    ensures forall x: Id, u: Id :: Listed(sinks + [(v, us)], x, u) <==> Listed(sinks, x, u) || (x == v && u in us)
    ensures us == [] ==> forall x: Id, u: Id :: Listed(sinks, x, u) <==> Listed(sinks, x, u) || (x == v && u in us)
  {
    var s' := sinks + [(v, us)];
    forall x, u ensures Listed(s', x, u) <==> Listed(sinks, x, u) || (x == v && u in us) {
      if Listed(sinks, x, u) {
        var i :| 0 <= i < |sinks| && sinks[i].0 == x && u in sinks[i].1;
        assert s'[i] == sinks[i];
      }
      if x == v && u in us { assert s'[|sinks|].0 == x && u in s'[|sinks|].1; }
    }
  }

  /** Over a whole function the pass finds exactly the closure, or stops because
      the closure has a use it does not understand. */
  method CollectAll(p: Program) returns (ok: bool, known: set<Id>, sinks: SinkList)
    ensures ok ==> IsClosure(p, known) && AllKnown(p, known) && known <= Ids(p)
    ensures ok ==> forall x: Id, u: Id :: Listed(sinks, x, u) <==> x in known && UseIs(p, x, u, Sink)
    ensures !ok ==> forall t: set<Id> :: HasRoots(p, t) && Closed(p, t) ==> !AllKnown(p, t)
  {
    known, sinks := {}, [];
    for i := 0 to |p|
      invariant known <= Ids(p) && Closed(p, known) && AllKnown(p, known)
      invariant forall j :: 0 <= j < i && IsPtrInt(p, j) ==> j in known
      invariant forall t: set<Id> :: HasRoots(p, t) && Closed(p, t) ==> known <= t
      invariant forall x: Id, u: Id :: Listed(sinks, x, u) <==> x in known && UseIs(p, x, u, Sink)
    {
      if IsPtrInt(p, i) {
        var before := known;
        ok, known, sinks := CollectSinks(p, i, known, sinks);
        if !ok { return; }
        assert known == before + (known - before);
      }
    }
    ok := true;
  }

  // ------------------------------------------------------------ rewriting

  /** Where the finished pass puts a mask, given the closure `known`. */
  predicate MaskedAt(p: Program, known: set<Id>, ins: Instr, j: int)
    requires 0 <= j < |ins.uses|
  {
    var o := ins.uses[j].op;
    || (o.Reg? && o.id in known && Classify(ins, o.id) == Sink)
    || MaskedByOpcode(p, ins, j)
  }

  /** Masks that depend on the instruction alone: addresses, pointer comparisons,
      pointers to external callees or passed by value, values stored to externs. */
  predicate MaskedByOpcode(p: Program, ins: Instr, j: int)
    requires 0 <= j < |ins.uses|
  {
    match ins.op
    case Load => j == 0
    case Store(toExtern) => j == 1 || toExtern
    case Alu(a, _) => a.ICmp? && ComparesPointers(p, ins)
    case Call(kind, _, byval) =>
      (IsPointer(p, ins.uses[j].op) && (kind == External || kind == Wrapper || (kind != Exempt && j in byval)))
    case _ => false
  }

  predicate IsPointer(p: Program, o: Operand) { o.Reg? && o.id < |p| && p[o.id].ty == Ptr }

  predicate ComparesPointers(p: Program, ins: Instr) {
    exists j :: 0 <= j < |ins.uses| && IsPointer(p, ins.uses[j].op)
  }

  function Rewritten(p: Program, known: set<Id>, ins: Instr): Instr {
    Instr(ins.op, ins.ty,
      seq(|ins.uses|, j requires 0 <= j < |ins.uses| => Use(ins.uses[j].op, MaskedAt(p, known, ins, j))),
      ins.op.Call? && ins.op.alloc)
  }

  /** The function after the pass. */
  function Instrumented(p: Program, known: set<Id>): Program {
    seq(|p|, i requires 0 <= i < |p| => Rewritten(p, known, p[i]))
  }

  /** Mask the uses of `v` in `ins`. */
  function MaskUses(ins: Instr, v: Id): Instr {
    ins.(uses := seq(|ins.uses|, j requires 0 <= j < |ins.uses| =>
      if ins.uses[j].op == Reg(v) then Use(ins.uses[j].op, true) else ins.uses[j]))
  }

  /** `q` is `p` with exactly the listed uses masked in addition. */
  ghost predicate MaskedBy(p: Program, q: Program, sinks: SinkList) {
    |q| == |p| && forall i :: 0 <= i < |p| ==> MaskedInstr(p[i], q[i], i, sinks)
  }

  ghost predicate MaskedInstr(ins: Instr, ins': Instr, i: Id, sinks: SinkList) {
    && ins' == ins.(uses := ins'.uses) && |ins'.uses| == |ins.uses|
    && forall j :: 0 <= j < |ins.uses| ==>
         ins'.uses[j] == Use(ins.uses[j].op, ins.uses[j].masked || ListedUse(ins.uses[j].op, i, sinks))
  }

  ghost predicate ListedUse(o: Operand, i: Id, sinks: SinkList) { o.Reg? && Listed(sinks, o.id, i) }

  lemma MaskedByOneMore(p: Program, q: Program, sinks: SinkList, v: Id, us: seq<Id>, u: Id)
    requires MaskedBy(p, q, sinks + [(v, us)]) && u < |p|
    ensures MaskedBy(p, q[u := MaskUses(q[u], v)], sinks + [(v, us + [u])])
  {
    var q' := q[u := MaskUses(q[u], v)];
    ListedAppend(sinks, v, us);
    ListedAppend(sinks, v, us + [u]);
    forall i | 0 <= i < |p| ensures MaskedInstr(p[i], q'[i], i, sinks + [(v, us + [u])]) {
      assert MaskedInstr(p[i], q[i], i, sinks + [(v, us)]);
    }
  }

  lemma SameMasks(p: Program, q: Program, sinks: SinkList, sinks': SinkList)
    requires MaskedBy(p, q, sinks) && forall x: Id, u: Id :: Listed(sinks', x, u) <==> Listed(sinks, x, u)
    ensures MaskedBy(p, q, sinks')
  {
    hide Listed;
    forall i | 0 <= i < |p| ensures MaskedInstr(p[i], q[i], i, sinks') { assert MaskedInstr(p[i], q[i], i, sinks); }
  }

  /** Replace, in every listed sink, the integer by its masked value. */
  method InstrumentSinks(p: Program, sinks: SinkList) returns (q: Program)
    requires forall v: Id, u: Id :: Listed(sinks, v, u) ==> u < |p|
    ensures MaskedBy(p, q, sinks)
  {
    q := p;
    assert MaskedBy(p, q, sinks[..0]);
    for n := 0 to |sinks|
      invariant MaskedBy(p, q, sinks[..n])
    {
      var (v, us) := sinks[n];
      ListedAppend(sinks[..n], v, []);
      SameMasks(p, q, sinks[..n], sinks[..n] + [(v, us[..0])]);
      for m := 0 to |us|
        invariant MaskedBy(p, q, sinks[..n] + [(v, us[..m])])
      {
        var u := us[m];
        assert Listed(sinks, v, u);
        MaskedByOneMore(p, q, sinks[..n], v, us[..m], u);
        q := q[u := MaskUses(q[u], v)];
        assert us[..m + 1] == us[..m] + [u];
      }
      assert us[..|us|] == us;
      assert sinks[..n + 1] == sinks[..n] + [(v, us)];
    }
    assert sinks[..|sinks|] == sinks;
  }

  // -------------------------------------------- calls, comparisons, memory accesses

  function MaskOperand(ins: Instr, j: int): Instr
    requires 0 <= j < |ins.uses|
  {
    ins.(uses := ins.uses[j := Use(ins.uses[j].op, true)])
  }

  /** `ins'` is `ins` with exactly the positions `js` masked in addition. */
  ghost predicate MasksAt(ins: Instr, ins': Instr, js: set<int>) {
    && ins' == ins.(uses := ins'.uses) && |ins'.uses| == |ins.uses|
    && forall j :: 0 <= j < |ins.uses| ==> ins'.uses[j] == Use(ins.uses[j].op, ins.uses[j].masked || j in js)
  }

  lemma MasksTwice(a: Instr, b: Instr, c: Instr, js: set<int>, ks: set<int>)
    requires MasksAt(a, b, js) && MasksAt(b, c, ks)
    ensures MasksAt(a, c, js + ks)
  {
  }

  function PointerArgs(p: Program, ins: Instr): set<int> {
    set j | 0 <= j < |ins.uses| && IsPointer(p, ins.uses[j].op)
  }

  lemma SameArgs(p: Program, ins: Instr, ins': Instr, js: set<int>)
    requires MasksAt(ins, ins', js)
    ensures PointerArgs(p, ins') == PointerArgs(p, ins)
  {
  }

  /** Mask every pointer argument. */
  method MaskPointerArgs(p: Program, ins: Instr) returns (ins': Instr)
    ensures MasksAt(ins, ins', PointerArgs(p, ins))
  {
    ins' := ins;
    for i := 0 to |ins.uses|
      invariant MasksAt(ins, ins', set j | j in PointerArgs(p, ins) && j < i)
    {
      if IsPointer(p, ins'.uses[i].op) { ins' := MaskOperand(ins', i); }
    }
  }

  /** Pointers to functions defined elsewhere; some intrinsics are exempt. */
  method InstrumentCallExt(p: Program, ins: Instr) returns (ins': Instr)
    requires ins.op.Call?
    ensures MasksAt(ins, ins', if ins.op.kind == External then PointerArgs(p, ins) else {})
  {
    if ins.op.kind != External { return ins; }
    ins' := MaskPointerArgs(p, ins);
  }

  /** Pointers to the named wrappers around libc. */
  method InstrumentCallExtWrap(p: Program, ins: Instr) returns (ins': Instr)
    requires ins.op.Call?
    ensures MasksAt(ins, ins', if ins.op.kind == Wrapper then PointerArgs(p, ins) else {})
  {
    if ins.op.kind != Wrapper { return ins; }
    ins' := MaskPointerArgs(p, ins);
  }

  /** Pointers passed by value to functions that are not just declared. */
  method InstrumentCallByval(p: Program, ins: Instr) returns (ins': Instr)
    requires ins.op.Call?
    ensures MasksAt(ins, ins',
      if ins.op.kind == External || ins.op.kind == Exempt then {} else PointerArgs(p, ins) * ins.op.byval)
  {
    if ins.op.kind == External || ins.op.kind == Exempt { return ins; }
    ins' := ins;
    for i := 0 to |ins.uses|
      invariant MasksAt(ins, ins', set j | j in PointerArgs(p, ins) * ins.op.byval && j < i)
    {
      if IsPointer(p, ins'.uses[i].op) && i in ins'.op.byval { ins' := MaskOperand(ins', i); }
    }
  }

  /** The result of an allocation gets its metadata pointer. */
  method InstrumentCallAlloc(ins: Instr) returns (ins': Instr)
    requires ins.op.Call?
    ensures ins' == ins.(fat := ins.fat || ins.op.alloc)
  {
    ins' := if ins.op.alloc then ins.(fat := true) else ins;
  }

  /** A comparison of pointers: both operands. */
  method InstrumentCmpPtr(p: Program, ins: Instr) returns (ins': Instr)
    requires |ins.uses| == 2
    ensures MasksAt(ins, ins', if ComparesPointers(p, ins) then {0, 1} else {})
  {
    if !IsPointer(p, ins.uses[0].op) && !IsPointer(p, ins.uses[1].op) { return ins; }
    ins' := MaskOperand(ins, 0);
    ins' := MaskOperand(ins', 1);
  }

  /** The address of a load or store, and a value stored to an extern, which must have a
      type that can be masked. */
  method InstrumentMemAccess(p: Program, ins: Instr) returns (ok: bool, ins': Instr)
    requires if ins.op.Store? then |ins.uses| == 2 else ins.op.Load? && |ins.uses| == 1
    ensures ok <==> ExternMaskable(p, ins)
    ensures ok ==> MasksAt(ins, ins', if ins.op.Load? then {0} else if ins.op.toExtern then {0, 1} else {1})
  {
    var ptrOperand := if ins.op.Store? then 1 else 0;
    ins' := MaskOperand(ins, ptrOperand);
    if ins.op.Store? && ins.op.toExtern {
      if !ExternMaskable(p, ins) { return false, ins'; }
      ins' := MaskOperand(ins', 0);
    }
    ok := true;
  }

  predicate ExternMaskable(p: Program, ins: Instr) {
    ins.op.Store? && ins.op.toExtern && |ins.uses| > 0 && ins.uses[0].op.Reg? ==>
      ins.uses[0].op.id < |p| && p[ins.uses[0].op.id].ty != Other
  }

  /** All masks of one call, and its fat result. */
  method InstrumentCall(p: Program, ins: Instr) returns (ins': Instr)
    requires ins.op.Call?
    ensures ins'.fat == (ins.fat || ins.op.alloc) && MasksAt(ins, ins'.(fat := ins.fat), OpcodeMasks(p, ins))
  {
    hide MasksAt;
    var a := InstrumentCallExt(p, ins);
    SameOp(p, ins, a, if ins.op.kind == External then PointerArgs(p, ins) else {});
    var b := InstrumentCallExtWrap(p, a);
    SameOp(p, a, b, if a.op.kind == Wrapper then PointerArgs(p, a) else {});
    var c := InstrumentCallByval(p, b);
    CallMasks(p, ins, a, b, c);
    SameOp(p, ins, c, OpcodeMasks(p, ins));
    ins' := InstrumentCallAlloc(c);
    assert ins'.(fat := ins.fat) == c;
  }

  lemma SameOp(p: Program, ins: Instr, ins': Instr, js: set<int>)
    requires MasksAt(ins, ins', js)
    ensures ins'.op == ins.op && ins'.fat == ins.fat && PointerArgs(p, ins') == PointerArgs(p, ins)
  {
    SameArgs(p, ins, ins', js);
  }

  /** The positions masked because of the instruction alone. */
  ghost function OpcodeMasks(p: Program, ins: Instr): set<int> {
    set j | 0 <= j < |ins.uses| && MaskedByOpcode(p, ins, j)
  }

  /** The three passes over the arguments of a call come to what its kind asks for. */
  lemma CallMasks(p: Program, ins: Instr, a: Instr, b: Instr, c: Instr)
    requires ins.op.Call? && a.op == b.op == ins.op
    requires MasksAt(ins, a, if ins.op.kind == External then PointerArgs(p, ins) else {})
    requires MasksAt(a, b, if ins.op.kind == Wrapper then PointerArgs(p, ins) else {})
    requires MasksAt(b, c, if ins.op.kind == External || ins.op.kind == Exempt then {}
                           else PointerArgs(p, ins) * ins.op.byval)
    ensures MasksAt(ins, c, OpcodeMasks(p, ins))
  {
    var x := if ins.op.kind == External then PointerArgs(p, ins) else {};
    var y := if ins.op.kind == Wrapper then PointerArgs(p, ins) else {};
    var z := if ins.op.kind == External || ins.op.kind == Exempt then {} else PointerArgs(p, ins) * ins.op.byval;
    MasksTwice(ins, a, b, x, y);
    MasksTwice(ins, b, c, x + y, z);
    assert x + y + z == OpcodeMasks(p, ins);
  }

  // ----------------------------------------------------------------- the pass

  predicate CallOrCompare(ins: Instr) { ins.op.Call? || (ins.op.Alu? && ins.op.alu.ICmp?) }

  predicate MemAccess(ins: Instr) { ins.op.Load? || ins.op.Store? }

  /** After the loop over calls and comparisons. */
  ghost predicate CallsDone(p: Program, ins: Instr, ins': Instr) {
    && ins'.fat == (ins.op.Call? && ins.op.alloc)
    && MasksAt(ins, ins'.(fat := ins.fat), if CallOrCompare(ins) then OpcodeMasks(p, ins) else {})
  }

  method InstrumentCallOrCompare(p: Program, ins: Instr) returns (ins': Instr)
    requires WellTyped(p, ins) && !ins.fat
    ensures CallsDone(p, ins, ins')
  {
    hide OpcodeMasks;
    ins' := ins;
    if ins.op.Call? {
      ins' := InstrumentCall(p, ins);
    } else if ins.op.Alu? && ins.op.alu.ICmp? {
      CompareMasks(p, ins);
      ins' := InstrumentCmpPtr(p, ins);
    }
  }

  /** The first loop: calls and comparisons. */
  method InstrumentCalls(p: Program) returns (q: Program)
    requires Original(p)
    ensures |q| == |p| && forall i :: 0 <= i < |p| ==> CallsDone(p, p[i], q[i])
  {
    hide CallsDone;
    q := [];
    for i := 0 to |p|
      invariant |q| == i && forall k :: 0 <= k < i ==> CallsDone(p, p[k], q[k])
    {
      var ins := InstrumentCallOrCompare(p, p[i]);
      q := q + [ins];
    }
  }

  lemma MasksNone(ins: Instr)
    ensures MasksAt(ins, ins, {})
  {
  }

  lemma CompareMasks(p: Program, ins: Instr)
    requires ins.op.Alu? && ins.op.alu.ICmp? && |ins.uses| == 2
    ensures OpcodeMasks(p, ins) == if ComparesPointers(p, ins) then {0, 1} else {}
  {
  }

  /** The last loop: loads and stores; it stops at an extern store that cannot be masked. */
  method InstrumentMemAccesses(p: Program, q: Program) returns (ok: bool, r: Program)
    requires Original(p) && |q| == |p|
    requires forall i :: 0 <= i < |p| ==> q[i].op == p[i].op && SameOperands(p[i], q[i])
    ensures ok <==> forall i :: 0 <= i < |p| ==> ExternMaskable(p, p[i])
    ensures ok ==> |r| == |p|
    ensures ok ==> forall i :: 0 <= i < |p| ==>
      MasksAt(q[i], r[i], if MemAccess(p[i]) then OpcodeMasks(p, p[i]) else {})
  {
    hide MasksAt, OpcodeMasks;
    r := [];
    for i := 0 to |p|
      invariant |r| == i && forall k :: 0 <= k < i ==> ExternMaskable(p, p[k])
      invariant forall k :: 0 <= k < i ==> MasksAt(q[k], r[k], if MemAccess(p[k]) then OpcodeMasks(p, p[k]) else {})
    {
      assert WellTyped(p, p[i]) && SameOperands(p[i], q[i]);
      var ins := q[i];
      MasksNone(ins);
      if MemAccess(p[i]) {
        ok, ins := InstrumentMemAccess(p, ins);
        if !ok { return; }
        MemMasks(p, p[i]);
      }
      r := r + [ins];
    }
    ok := true;
  }

  predicate SameOperands(ins: Instr, ins': Instr) {
    |ins'.uses| == |ins.uses| && forall j :: 0 <= j < |ins.uses| ==> ins'.uses[j].op == ins.uses[j].op
  }

  lemma MemMasks(p: Program, ins: Instr)
    requires if ins.op.Store? then |ins.uses| == 2 else ins.op.Load? && |ins.uses| == 1
    ensures OpcodeMasks(p, ins) == if ins.op.Load? then {0} else if ins.op.toExtern then {0, 1} else {1}
  {
  }

  /** The three phases, in their order, give the instrumented function. */
  lemma PassIsInstrumented(p: Program, known: set<Id>, q: Program, q': Program, sinks: SinkList, r: Program)
    requires Original(p) && |q| == |p| && MaskedBy(q, q', sinks) && |r| == |p|
    requires forall i :: 0 <= i < |p| ==> CallsDone(p, p[i], q[i])
    requires forall x: Id, u: Id :: Listed(sinks, x, u) <==> x in known && UseIs(p, x, u, Sink)
    requires forall i :: 0 <= i < |p| ==> MasksAt(q'[i], r[i], if MemAccess(p[i]) then OpcodeMasks(p, p[i]) else {})
    ensures r == Instrumented(p, known)
  {
    forall i | 0 <= i < |p| ensures r[i] == Rewritten(p, known, p[i]) {
      assert CallsDone(p, p[i], q[i]) && MaskedInstr(q[i], q'[i], i, sinks) && WellTyped(p, p[i]) && Unmasked(p[i]);
      OneInstruction(p, known, i, q[i], q'[i], sinks, r[i]);
    }
  }

  lemma OneInstruction(p: Program, known: set<Id>, i: Id, a: Instr, b: Instr, sinks: SinkList, c: Instr)
    requires i < |p| && Unmasked(p[i]) && CallsDone(p, p[i], a) && MaskedInstr(a, b, i, sinks)
    requires forall x: Id, u: Id :: Listed(sinks, x, u) <==> x in known && UseIs(p, x, u, Sink)
    requires MasksAt(b, c, if MemAccess(p[i]) then OpcodeMasks(p, p[i]) else {})
    ensures c == Rewritten(p, known, p[i])
  {
    hide Listed, Classify;
    var ins := p[i];
    forall j | 0 <= j < |ins.uses| ensures c.uses[j] == Rewritten(p, known, ins).uses[j] {
      var o := ins.uses[j].op;
      if o.Reg? { assert UsesReg(ins, o.id); }
      assert MaskedByOpcode(p, ins, j) <==> j in OpcodeMasks(p, ins);
    }
    assert c.uses == Rewritten(p, known, ins).uses;
  }

  /** Some set closed under following holds all pointer integers and has no use that is not
      understood; then so has the least one. */
  ghost predicate Understood(p: Program) { exists t: set<Id> :: HasRoots(p, t) && Closed(p, t) && AllKnown(p, t) }

  lemma ClosureUnderstood(p: Program, known: set<Id>)
    requires IsClosure(p, known) && AllKnown(p, known)
    ensures Understood(p)
  {
  }

  /** The pass on one function: collect, mask calls and comparisons, then the sinks, then
      memory accesses. */
  method RunOnFunction(p: Program) returns (ok: bool, r: Program, ghost known: set<Id>)
    requires Original(p)
    ensures ok <==> Understood(p) && forall i :: 0 <= i < |p| ==> ExternMaskable(p, p[i])
    ensures ok ==> IsClosure(p, known) && AllKnown(p, known) && r == Instrumented(p, known)
  {
    hide IsClosure, HasRoots, Closed, AllKnown, Listed, MasksAt, MaskedInstr, CallsDone;
    var sinks;
    r := p;
    ok, known, sinks := CollectAll(p);
    if !ok { return; }
    ClosureUnderstood(p, known);
    var q := InstrumentCalls(p);
    var q' := InstrumentSinks(q, sinks);
    forall i | 0 <= i < |p| ensures q'[i].op == p[i].op && SameOperands(p[i], q'[i]) {
      assert CallsDone(p, p[i], q[i]) && MaskedInstr(q[i], q'[i], i, sinks);
      OperandsKept(p, p[i], q[i], q'[i], i, sinks);
    }
    ok, r := InstrumentMemAccesses(p, q');
    if ok { PassIsInstrumented(p, known, q, q', sinks, r); }
  }

  lemma OperandsKept(p: Program, a: Instr, b: Instr, c: Instr, i: Id, sinks: SinkList)
    requires CallsDone(p, a, b) && MaskedInstr(b, c, i, sinks)
    ensures c.op == a.op && SameOperands(a, c)
  {
  }
}
