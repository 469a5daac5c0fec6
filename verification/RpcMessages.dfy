/**
 The RPC message structs of c++/src/capnp/rpc.capnp.h: generated accessors that put ids, flags,
 discriminants and pointers into a few words.  Each struct is an abstract record with a tagged
 union, for every sequence of builder calls.
 */
module RpcMessages {
  import opened Basics
  import opened Bytes
  import opened StructLayout
  import opened RecordLayout

  type u8 = x: int | 0 <= x < 0x100
  type u16 = x: int | 0 <= x < 0x1_0000
  type u32 = x: int | 0 <= x < 0x1_0000_0000
  type u64 = x: int | 0 <= x < 0x1_0000_0000_0000_0000

  function BoolBit(b: bool): nat {
    if b then 1 else 0
  }

  lemma Widths()
    ensures Pow2(1) == 2 && Pow2(8) == 0x100 && Pow2(16) == 0x1_0000
    ensures Pow2(32) == 0x1_0000_0000 && Pow2(64) == 0x1_0000_0000_0000_0000
  {
    assert Pow2(0) == 1;
    Pow2Of8();
    Pow2Of16();
    Pow2Of32();
    Pow2Of64();
  }

  // ---------------------------------------------------------------------------------------
  // Call

  datatype SendResultsTo = Caller | Yourself | ThirdParty(p: Pointer) | UnknownDestination(which: nat)

  datatype Call = Call(
    questionId: nat,
    target: Pointer,
    interfaceId: nat,
    methodId: nat,
    params: Pointer,
    sendResultsTo: SendResultsTo,
    allowThirdPartyTailCall: bool,
    noPromisePipelining: bool,
    onlyPromisePipeline: bool)

  datatype CallOp =
    | SetQuestionId(id: u32)
    | SetTarget(p: Pointer)
    | DisownTarget
    | SetInterfaceId(iface: u64)
    | SetMethodId(m: u16)
    | SetParams(p: Pointer)
    | DisownParams
    | InitSendResultsTo
    | SetCaller
    | SetYourself
    | InitThirdParty
    | FillThirdParty(p: Pointer)
    | SetAllowThirdPartyTailCall(b: bool)
    | SetNoPromisePipelining(b: bool)
    | SetOnlyPromisePipeline(b: bool)

  const CallLayout: Layout := Layout(
    [Field(32, 0, 0), Field(16, 2, 0), Field(16, 3, 0), Field(64, 1, 0),
     Field(1, 128, 0), Field(1, 129, 0), Field(1, 130, 0)], 3, 3)

  function CallOf(s: Struct): Call {
    Call(Value(s, 0), Slot(s, 0), Value(s, 3), Value(s, 1), Slot(s, 1),
         match Value(s, 2)
         case 0 => Caller
         case 1 => Yourself
         case 2 => ThirdParty(Slot(s, 2))
         case n => UnknownDestination(n),
         Value(s, 4) == 1, Value(s, 5) == 1, Value(s, 6) == 1)
  }

  /** The contents of a union member are reachable only while it is the current one. */
  predicate CallCallable(r: Call, op: CallOp) {
    op.FillThirdParty? ==> r.sendResultsTo.ThirdParty?
  }

  function CallStep(r: Call, op: CallOp): Call {
    match op
    case SetQuestionId(id) => r.(questionId := id)
    case SetTarget(p) => r.(target := p)
    case DisownTarget => r.(target := Null)
    case SetInterfaceId(i) => r.(interfaceId := i)
    case SetMethodId(m) => r.(methodId := m)
    case SetParams(p) => r.(params := p)
    case DisownParams => r.(params := Null)
    case InitSendResultsTo => r.(sendResultsTo := Caller)
    case SetCaller => r.(sendResultsTo := Caller)
    case SetYourself => r.(sendResultsTo := Yourself)
    case InitThirdParty => r.(sendResultsTo := ThirdParty(Null))
    case FillThirdParty(p) => r.(sendResultsTo := ThirdParty(p))
    case SetAllowThirdPartyTailCall(b) => r.(allowThirdPartyTailCall := b)
    case SetNoPromisePipelining(b) => r.(noPromisePipelining := b)
    case SetOnlyPromisePipeline(b) => r.(onlyPromisePipeline := b)
  }

  function CallWrites(op: CallOp): seq<Write> {
    match op
    case SetQuestionId(id) => [Data(0, id)]
    case SetTarget(p) => [Ptr(0, p)]
    case DisownTarget => [Ptr(0, Null)]
    case SetInterfaceId(i) => [Data(3, i)]
    case SetMethodId(m) => [Data(1, m)]
    case SetParams(p) => [Ptr(1, p)]
    case DisownParams => [Ptr(1, Null)]
    case InitSendResultsTo => [Data(2, 0), Ptr(2, Null)]
    case SetCaller => [Data(2, 0)]
    case SetYourself => [Data(2, 1)]
    case InitThirdParty => [Data(2, 2), Ptr(2, Null)]
    case FillThirdParty(p) => [Ptr(2, p)]
    case SetAllowThirdPartyTailCall(b) => [Data(4, BoolBit(b))]
    case SetNoPromisePipelining(b) => [Data(5, BoolBit(b))]
    case SetOnlyPromisePipeline(b) => [Data(6, BoolBit(b))]
  }

  lemma CallStepRefines(s: Struct, op: CallOp)
    requires Shaped(CallLayout, s) && CallCallable(CallOf(s), op)
    ensures AllFit(CallLayout, CallWrites(op))
    ensures CallOf(PutAll(s, CallWrites(op))) == CallStep(CallOf(s), op)
  {
    hide PutAll, Pow2;
    Widths();
    var ws := CallWrites(op);
    PutTwo(s, ws[0], ws[|ws| - 1]);
    assert ws == [ws[0]] || ws == [ws[0], ws[|ws| - 1]];
  }

  const NewCall: Call := Call(0, Null, 0, 0, Null, Caller, false, false, false)

  const CallAccessors: Accessors<Call, CallOp> :=
    Accessors(CallLayout, CallOf, CallCallable, CallStep, CallWrites)

  /** A Call is its record; a zeroed one is all defaults. */
  lemma CallRefines()
    ensures Refines(CallAccessors) && CallOf(Default(CallLayout)) == NewCall
  {
    hide AllFit, PutAll, CallOf, CallStep, CallWrites;
    forall s, op | Shaped(CallLayout, s) && CallCallable(CallOf(s), op)
      ensures AllFit(CallLayout, CallWrites(op))
      ensures CallOf(PutAll(s, CallWrites(op))) == CallStep(CallOf(s), op)
    {
      CallStepRefines(s, op);
    }
    CallStarts();
    CallLayoutValid();
  }

  // What each Call call says of the words, by their place on the wire.

  function QuestionId(op: CallOp): Option<nat> {
    match op
    case SetQuestionId(id) => Some(id)
    case _ => None
  }

  function MethodId(op: CallOp): Option<nat> {
    match op
    case SetMethodId(m) => Some(m)
    case _ => None
  }

  function ResultsTag(op: CallOp): Option<nat> {
    match op
    case InitSendResultsTo => Some(0)
    case SetCaller => Some(0)
    case SetYourself => Some(1)
    case InitThirdParty => Some(2)
    case _ => None
  }

  function InterfaceId(op: CallOp): Option<nat> {
    match op
    case SetInterfaceId(iface) => Some(iface)
    case _ => None
  }

  function AllowTailCall(op: CallOp): Option<nat> {
    match op
    case SetAllowThirdPartyTailCall(b) => Some(BoolBit(b))
    case _ => None
  }

  function NoPipelining(op: CallOp): Option<nat> {
    match op
    case SetNoPromisePipelining(b) => Some(BoolBit(b))
    case _ => None
  }

  function OnlyPipeline(op: CallOp): Option<nat> {
    match op
    case SetOnlyPromisePipeline(b) => Some(BoolBit(b))
    case _ => None
  }

  function CallTarget(op: CallOp): Option<Pointer> {
    match op
    case SetTarget(p) => Some(p)
    case DisownTarget => Some(Null)
    case _ => None
  }

  function Params(op: CallOp): Option<Pointer> {
    match op
    case SetParams(p) => Some(p)
    case DisownParams => Some(Null)
    case _ => None
  }

  function ThirdPartyPointer(op: CallOp): Option<Pointer> {
    match op
    case InitSendResultsTo => Some(Null)
    case InitThirdParty => Some(Null)
    case FillThirdParty(p) => Some(p)
    case _ => None
  }

  /** Every field at its width, offset and mask, the discriminant as a number, and every pointer
      slot: as the last call that concerns it says, or at its default. */
  ghost predicate CallWords(d: seq<byte>, p: seq<Pointer>, ops: seq<CallOp>)
    requires |d| == 24 && |p| == 3
  {
    && GetField(d, 32, 0, 0) == Last(QuestionId, ops, 0)
    && GetField(d, 16, 2, 0) == Last(MethodId, ops, 0)
    && GetField(d, 16, 3, 0) == Last(ResultsTag, ops, 0)
    && GetField(d, 64, 1, 0) == Last(InterfaceId, ops, 0)
    && GetField(d, 1, 128, 0) == Last(AllowTailCall, ops, 0)
    && GetField(d, 1, 129, 0) == Last(NoPipelining, ops, 0)
    && GetField(d, 1, 130, 0) == Last(OnlyPipeline, ops, 0)
    && p[0] == Last(CallTarget, ops, Null)
    && p[1] == Last(Params, ops, Null)
    && p[2] == Last(ThirdPartyPointer, ops, Null)
  }

  lemma CallSays(op: CallOp, w: nat, p: Pointer)
    ensures LastData(CallWrites(op), 0, w) == OrElse(QuestionId(op), w)
    ensures LastData(CallWrites(op), 1, w) == OrElse(MethodId(op), w)
    ensures LastData(CallWrites(op), 2, w) == OrElse(ResultsTag(op), w)
    ensures LastData(CallWrites(op), 3, w) == OrElse(InterfaceId(op), w)
    ensures LastData(CallWrites(op), 4, w) == OrElse(AllowTailCall(op), w)
    ensures LastData(CallWrites(op), 5, w) == OrElse(NoPipelining(op), w)
    ensures LastData(CallWrites(op), 6, w) == OrElse(OnlyPipeline(op), w)
    ensures LastPointer(CallWrites(op), 0, p) == OrElse(CallTarget(op), p)
    ensures LastPointer(CallWrites(op), 1, p) == OrElse(Params(op), p)
    ensures LastPointer(CallWrites(op), 2, p) == OrElse(ThirdPartyPointer(op), p)
  {
    hide LastData, LastPointer;
    var ws := CallWrites(op);
    LastOfFew(ws[0], ws[1 % |ws|], ws[|ws| - 1], 0, w, 0, p);
    LastOfFew(ws[0], ws[1 % |ws|], ws[|ws| - 1], 1, w, 1, p);
    LastOfFew(ws[0], ws[1 % |ws|], ws[|ws| - 1], 2, w, 2, p);
    LastOfFew(ws[0], ws[1 % |ws|], ws[|ws| - 1], 3, w, 0, p);
    LastOfFew(ws[0], ws[1 % |ws|], ws[|ws| - 1], 4, w, 0, p);
    LastOfFew(ws[0], ws[1 % |ws|], ws[|ws| - 1], 5, w, 0, p);
    LastOfFew(ws[0], ws[1 % |ws|], ws[|ws| - 1], 6, w, 0, p);
    assert ws == [ws[0]] || ws == [ws[0], ws[1 % |ws|]];
  }

  lemma {:induction false} CallLasts(ops: seq<CallOp>)
    ensures LastData(AllWrites(CallAccessors, ops), 0, 0) == Last(QuestionId, ops, 0)
    ensures LastData(AllWrites(CallAccessors, ops), 1, 0) == Last(MethodId, ops, 0)
    ensures LastData(AllWrites(CallAccessors, ops), 2, 0) == Last(ResultsTag, ops, 0)
    ensures LastData(AllWrites(CallAccessors, ops), 3, 0) == Last(InterfaceId, ops, 0)
    ensures LastData(AllWrites(CallAccessors, ops), 4, 0) == Last(AllowTailCall, ops, 0)
    ensures LastData(AllWrites(CallAccessors, ops), 5, 0) == Last(NoPipelining, ops, 0)
    ensures LastData(AllWrites(CallAccessors, ops), 6, 0) == Last(OnlyPipeline, ops, 0)
    ensures LastPointer(AllWrites(CallAccessors, ops), 0, Null) == Last(CallTarget, ops, Null)
    ensures LastPointer(AllWrites(CallAccessors, ops), 1, Null) == Last(Params, ops, Null)
    ensures LastPointer(AllWrites(CallAccessors, ops), 2, Null) == Last(ThirdPartyPointer, ops, Null)
  {
    hide LastData, LastPointer, Last, AllWrites, CallWrites;
    LastStep(QuestionId, ops, 0);
    StoredStep(CallAccessors, ops, 0, 0, 0);
    LastStep(MethodId, ops, 0);
    StoredStep(CallAccessors, ops, 1, 0, 1);
    LastStep(ResultsTag, ops, 0);
    StoredStep(CallAccessors, ops, 2, 0, 2);
    LastStep(InterfaceId, ops, 0);
    StoredStep(CallAccessors, ops, 3, 0, 0);
    LastStep(AllowTailCall, ops, 0);
    StoredStep(CallAccessors, ops, 4, 0, 0);
    LastStep(NoPipelining, ops, 0);
    StoredStep(CallAccessors, ops, 5, 0, 0);
    LastStep(OnlyPipeline, ops, 0);
    StoredStep(CallAccessors, ops, 6, 0, 0);
    LastStep(CallTarget, ops, Null);
    LastStep(Params, ops, Null);
    LastStep(ThirdPartyPointer, ops, Null);
    if ops == [] {
    } else {
      var m := |ops| - 1;
      CallLasts(ops[..m]);
      CallSays(ops[m], Last(QuestionId, ops[..m], 0), Last(CallTarget, ops[..m], Null));
      CallSays(ops[m], Last(MethodId, ops[..m], 0), Last(Params, ops[..m], Null));
      CallSays(ops[m], Last(ResultsTag, ops[..m], 0), Last(ThirdPartyPointer, ops[..m], Null));
      CallSays(ops[m], Last(InterfaceId, ops[..m], 0), Null);
      CallSays(ops[m], Last(AllowTailCall, ops[..m], 0), Null);
      CallSays(ops[m], Last(NoPipelining, ops[..m], 0), Null);
      CallSays(ops[m], Last(OnlyPipeline, ops[..m], 0), Null);
    }
  }

  lemma CallOnTheWire(d: seq<byte>, p: seq<Pointer>, ops: seq<CallOp>)
    requires |d| == 24 && |p| == 3 && ValidLayout(CallLayout)
    requires EachLast(CallLayout, Observe(CallLayout, Section(d, 192), p),
                      AllWrites(CallAccessors, ops))
    ensures CallWords(d, p, ops)
  {
    hide LastData, LastPointer, Last, AllWrites, GetField, ValidLayout;
    CallLasts(ops);
    ObservedField(CallLayout, d, p, 0);
    ObservedField(CallLayout, d, p, 1);
    ObservedField(CallLayout, d, p, 2);
    ObservedField(CallLayout, d, p, 3);
    ObservedField(CallLayout, d, p, 4);
    ObservedField(CallLayout, d, p, 5);
    ObservedField(CallLayout, d, p, 6);
  }

  /** Any builder calls on a zeroed Call leave the words of the record that they describe. */
  method BuildCall(ops: seq<CallOp>) returns (b: StructBuilder)
    requires CallableRun(CallAccessors, NewCall, ops)
    ensures ValidLayout(CallLayout) && Holds(CallLayout, b) && fresh(b.data) && fresh(b.pointers)
    ensures CallOf(View(CallLayout, b)) == Run(CallAccessors, NewCall, ops)
    ensures CallWords(b.data[..], b.pointers[..], ops)
  {
    hide CallOf, CallStep, CallWrites, ValidLayout, AllFit, PutAll, EachLast, CallWords;
    CallLayoutValid();
    CallRefines();
    b := Build(CallAccessors, ops);
    CallOnTheWire(b.data[..], b.pointers[..], ops);
  }

  lemma CallLayoutValid()
    ensures ValidLayout(CallLayout)
  {
    hide Pow2;
    Widths();
  }

  lemma CallStarts()
    ensures CallOf(Default(CallLayout)) == NewCall
  {
  }

  // ---------------------------------------------------------------------------------------
  // Return

  datatype Outcome =
    | Results(p: Pointer)
    | Exception(p: Pointer)
    | Canceled
    | ResultsSentElsewhere
    | TakeFromOtherQuestion(id: nat)
    | AwaitFromThirdParty(p: Pointer)
    | UnknownOutcome(which: nat)

  datatype Return = Return(answerId: nat, releaseParamCaps: bool, noFinishNeeded: bool, outcome: Outcome)

  datatype ReturnOp =
    | SetAnswerId(id: u32)
    | SetReleaseParamCaps(b: bool)
    | SetNoFinishNeeded(b: bool)
    | SetResults(p: Pointer)
    | DisownResults
    | SetException(p: Pointer)
    | DisownException
    | SetCanceled
    | SetResultsSentElsewhere
    | SetTakeFromOtherQuestion(id: u32)
    | InitAwaitFromThirdParty
    | FillAwaitFromThirdParty(p: Pointer)

  const ReturnLayout: Layout := Layout(
    [Field(32, 0, 0), Field(1, 32, 1), Field(1, 33, 0), Field(16, 3, 0), Field(32, 2, 0)], 2, 1)

  /** Three members of the union share the pointer. */
  function ReturnOf(s: Struct): Return {
    Return(Value(s, 0), Value(s, 1) == 1, Value(s, 2) == 1,
           match Value(s, 3)
           case 0 => Results(Slot(s, 0))
           case 1 => Exception(Slot(s, 0))
           case 2 => Canceled
           case 3 => ResultsSentElsewhere
           case 4 => TakeFromOtherQuestion(Value(s, 4))
           case 5 => AwaitFromThirdParty(Slot(s, 0))
           case n => UnknownOutcome(n))
  }

  predicate ReturnCallable(r: Return, op: ReturnOp) {
    && (op.DisownResults? ==> r.outcome.Results?)
    && (op.DisownException? ==> r.outcome.Exception?)
    && (op.FillAwaitFromThirdParty? ==> r.outcome.AwaitFromThirdParty?)
  }

  function ReturnStep(r: Return, op: ReturnOp): Return {
    match op
    case SetAnswerId(id) => r.(answerId := id)
    case SetReleaseParamCaps(b) => r.(releaseParamCaps := b)
    case SetNoFinishNeeded(b) => r.(noFinishNeeded := b)
    case SetResults(p) => r.(outcome := Results(p))
    case DisownResults => r.(outcome := Results(Null))
    case SetException(p) => r.(outcome := Exception(p))
    case DisownException => r.(outcome := Exception(Null))
    case SetCanceled => r.(outcome := Canceled)
    case SetResultsSentElsewhere => r.(outcome := ResultsSentElsewhere)
    case SetTakeFromOtherQuestion(id) => r.(outcome := TakeFromOtherQuestion(id))
    case InitAwaitFromThirdParty => r.(outcome := AwaitFromThirdParty(Null))
    case FillAwaitFromThirdParty(p) => r.(outcome := AwaitFromThirdParty(p))
  }

  function ReturnWrites(op: ReturnOp): seq<Write> {
    match op
    case SetAnswerId(id) => [Data(0, id)]
    case SetReleaseParamCaps(b) => [Data(1, BoolBit(b))]
    case SetNoFinishNeeded(b) => [Data(2, BoolBit(b))]
    case SetResults(p) => [Data(3, 0), Ptr(0, p)]
    case DisownResults => [Ptr(0, Null)]
    case SetException(p) => [Data(3, 1), Ptr(0, p)]
    case DisownException => [Ptr(0, Null)]
    case SetCanceled => [Data(3, 2)]
    case SetResultsSentElsewhere => [Data(3, 3)]
    case SetTakeFromOtherQuestion(id) => [Data(3, 4), Data(4, id)]
    case InitAwaitFromThirdParty => [Data(3, 5), Ptr(0, Null)]
    case FillAwaitFromThirdParty(p) => [Ptr(0, p)]
  }

  lemma ReturnStepRefines(s: Struct, op: ReturnOp)
    requires Shaped(ReturnLayout, s) && ReturnCallable(ReturnOf(s), op)
    ensures AllFit(ReturnLayout, ReturnWrites(op))
    ensures ReturnOf(PutAll(s, ReturnWrites(op))) == ReturnStep(ReturnOf(s), op)
  {
    hide PutAll, Pow2;
    Widths();
    var ws := ReturnWrites(op);
    PutTwo(s, ws[0], ws[|ws| - 1]);
    assert ws == [ws[0]] || ws == [ws[0], ws[|ws| - 1]];
  }

  const NewReturn: Return := Return(0, true, false, Results(Null))

  const ReturnAccessors: Accessors<Return, ReturnOp> :=
    Accessors(ReturnLayout, ReturnOf, ReturnCallable, ReturnStep, ReturnWrites)

  /** A Return is its record; parameter capabilities are released by default. */
  lemma ReturnRefines()
    ensures Refines(ReturnAccessors) && ReturnOf(Default(ReturnLayout)) == NewReturn
  {
    hide AllFit, PutAll, ReturnOf, ReturnStep, ReturnWrites;
    forall s, op | Shaped(ReturnLayout, s) && ReturnCallable(ReturnOf(s), op)
      ensures AllFit(ReturnLayout, ReturnWrites(op))
      ensures ReturnOf(PutAll(s, ReturnWrites(op))) == ReturnStep(ReturnOf(s), op)
    {
      ReturnStepRefines(s, op);
    }
    ReturnStarts();
    ReturnLayoutValid();
  }

  // What each Return call says of the words, by their place on the wire.

  function AnswerId(op: ReturnOp): Option<nat> {
    match op
    case SetAnswerId(id) => Some(id)
    case _ => None
  }

  function ReleaseParamCaps(op: ReturnOp): Option<nat> {
    match op
    case SetReleaseParamCaps(b) => Some(BoolBit(b))
    case _ => None
  }

  function NoFinishNeeded(op: ReturnOp): Option<nat> {
    match op
    case SetNoFinishNeeded(b) => Some(BoolBit(b))
    case _ => None
  }

  function OutcomeTag(op: ReturnOp): Option<nat> {
    match op
    case SetResults(_) => Some(0)
    case SetException(_) => Some(1)
    case SetCanceled => Some(2)
    case SetResultsSentElsewhere => Some(3)
    case SetTakeFromOtherQuestion(_) => Some(4)
    case InitAwaitFromThirdParty => Some(5)
    case _ => None
  }

  function OtherQuestion(op: ReturnOp): Option<nat> {
    match op
    case SetTakeFromOtherQuestion(id) => Some(id)
    case _ => None
  }

  function OutcomePointer(op: ReturnOp): Option<Pointer> {
    match op
    case SetResults(p) => Some(p)
    case DisownResults => Some(Null)
    case SetException(p) => Some(p)
    case DisownException => Some(Null)
    case InitAwaitFromThirdParty => Some(Null)
    case FillAwaitFromThirdParty(p) => Some(p)
    case _ => None
  }

  /** Every field at its width, offset and mask, the discriminant as a number, and every pointer
      slot: as the last call that concerns it says, or at its default. */
  ghost predicate ReturnWords(d: seq<byte>, p: seq<Pointer>, ops: seq<ReturnOp>)
    requires |d| == 16 && |p| == 1
  {
    && GetField(d, 32, 0, 0) == Last(AnswerId, ops, 0)
    && GetField(d, 1, 32, 1) == Last(ReleaseParamCaps, ops, 1)
    && GetField(d, 1, 33, 0) == Last(NoFinishNeeded, ops, 0)
    && GetField(d, 16, 3, 0) == Last(OutcomeTag, ops, 0)
    && GetField(d, 32, 2, 0) == Last(OtherQuestion, ops, 0)
    && p[0] == Last(OutcomePointer, ops, Null)
  }

  lemma ReturnSays(op: ReturnOp, w: nat, p: Pointer)
    ensures LastData(ReturnWrites(op), 0, w) == OrElse(AnswerId(op), w)
    ensures LastData(ReturnWrites(op), 1, w) == OrElse(ReleaseParamCaps(op), w)
    ensures LastData(ReturnWrites(op), 2, w) == OrElse(NoFinishNeeded(op), w)
    ensures LastData(ReturnWrites(op), 3, w) == OrElse(OutcomeTag(op), w)
    ensures LastData(ReturnWrites(op), 4, w) == OrElse(OtherQuestion(op), w)
    ensures LastPointer(ReturnWrites(op), 0, p) == OrElse(OutcomePointer(op), p)
  {
    hide LastData, LastPointer;
    var ws := ReturnWrites(op);
    LastOfFew(ws[0], ws[1 % |ws|], ws[|ws| - 1], 0, w, 0, p);
    LastOfFew(ws[0], ws[1 % |ws|], ws[|ws| - 1], 1, w, 0, p);
    LastOfFew(ws[0], ws[1 % |ws|], ws[|ws| - 1], 2, w, 0, p);
    LastOfFew(ws[0], ws[1 % |ws|], ws[|ws| - 1], 3, w, 0, p);
    LastOfFew(ws[0], ws[1 % |ws|], ws[|ws| - 1], 4, w, 0, p);
    assert ws == [ws[0]] || ws == [ws[0], ws[1 % |ws|]];
  }

  lemma {:induction false} ReturnLasts(ops: seq<ReturnOp>)
    ensures LastData(AllWrites(ReturnAccessors, ops), 0, 0) == Last(AnswerId, ops, 0)
    ensures LastData(AllWrites(ReturnAccessors, ops), 1, 1) == Last(ReleaseParamCaps, ops, 1)
    ensures LastData(AllWrites(ReturnAccessors, ops), 2, 0) == Last(NoFinishNeeded, ops, 0)
    ensures LastData(AllWrites(ReturnAccessors, ops), 3, 0) == Last(OutcomeTag, ops, 0)
    ensures LastData(AllWrites(ReturnAccessors, ops), 4, 0) == Last(OtherQuestion, ops, 0)
    ensures LastPointer(AllWrites(ReturnAccessors, ops), 0, Null) == Last(OutcomePointer, ops, Null)
  {
    hide LastData, LastPointer, Last, AllWrites, ReturnWrites;
    LastStep(AnswerId, ops, 0);
    StoredStep(ReturnAccessors, ops, 0, 0, 0);
    LastStep(ReleaseParamCaps, ops, 1);
    StoredStep(ReturnAccessors, ops, 1, 1, 0);
    LastStep(NoFinishNeeded, ops, 0);
    StoredStep(ReturnAccessors, ops, 2, 0, 0);
    LastStep(OutcomeTag, ops, 0);
    StoredStep(ReturnAccessors, ops, 3, 0, 0);
    LastStep(OtherQuestion, ops, 0);
    StoredStep(ReturnAccessors, ops, 4, 0, 0);
    LastStep(OutcomePointer, ops, Null);
    if ops == [] {
    } else {
      var m := |ops| - 1;
      ReturnLasts(ops[..m]);
      ReturnSays(ops[m], Last(AnswerId, ops[..m], 0), Last(OutcomePointer, ops[..m], Null));
      ReturnSays(ops[m], Last(ReleaseParamCaps, ops[..m], 1), Null);
      ReturnSays(ops[m], Last(NoFinishNeeded, ops[..m], 0), Null);
      ReturnSays(ops[m], Last(OutcomeTag, ops[..m], 0), Null);
      ReturnSays(ops[m], Last(OtherQuestion, ops[..m], 0), Null);
    }
  }

  lemma ReturnOnTheWire(d: seq<byte>, p: seq<Pointer>, ops: seq<ReturnOp>)
    requires |d| == 16 && |p| == 1 && ValidLayout(ReturnLayout)
    requires EachLast(ReturnLayout, Observe(ReturnLayout, Section(d, 128), p),
                      AllWrites(ReturnAccessors, ops))
    ensures ReturnWords(d, p, ops)
  {
    hide LastData, LastPointer, Last, AllWrites, GetField, ValidLayout;
    ReturnLasts(ops);
    ObservedField(ReturnLayout, d, p, 0);
    ObservedField(ReturnLayout, d, p, 1);
    ObservedField(ReturnLayout, d, p, 2);
    ObservedField(ReturnLayout, d, p, 3);
    ObservedField(ReturnLayout, d, p, 4);
  }

  /** Any builder calls on a zeroed Return leave the words of the record that they describe. */
  method BuildReturn(ops: seq<ReturnOp>) returns (b: StructBuilder)
    requires CallableRun(ReturnAccessors, NewReturn, ops)
    ensures ValidLayout(ReturnLayout) && Holds(ReturnLayout, b) && fresh(b.data) && fresh(b.pointers)
    ensures ReturnOf(View(ReturnLayout, b)) == Run(ReturnAccessors, NewReturn, ops)
    ensures ReturnWords(b.data[..], b.pointers[..], ops)
  {
    hide ReturnOf, ReturnStep, ReturnWrites, ValidLayout, AllFit, PutAll, EachLast, ReturnWords;
    ReturnLayoutValid();
    ReturnRefines();
    b := Build(ReturnAccessors, ops);
    ReturnOnTheWire(b.data[..], b.pointers[..], ops);
  }

  lemma ReturnLayoutValid()
    ensures ValidLayout(ReturnLayout)
  {
    hide Pow2;
    Widths();
  }

  lemma ReturnStarts()
    ensures ReturnOf(Default(ReturnLayout)) == NewReturn
  {
  }

  // ---------------------------------------------------------------------------------------
  // Finish

  datatype Finish = Finish(questionId: nat, releaseResultCaps: bool, requireEarlyCancellationWorkaround: bool)

  datatype FinishOp =
    | SetFinishedId(id: u32)
    | SetReleaseResultCaps(b: bool)
    | SetRequireEarlyCancellationWorkaround(b: bool)

  const FinishLayout: Layout := Layout([Field(32, 0, 0), Field(1, 32, 1), Field(1, 33, 1)], 1, 0)

  function FinishOf(s: Struct): Finish {
    Finish(Value(s, 0), Value(s, 1) == 1, Value(s, 2) == 1)
  }

  predicate FinishCallable(r: Finish, op: FinishOp) {
    true
  }

  function FinishStep(r: Finish, op: FinishOp): Finish {
    match op
    case SetFinishedId(id) => r.(questionId := id)
    case SetReleaseResultCaps(b) => r.(releaseResultCaps := b)
    case SetRequireEarlyCancellationWorkaround(b) => r.(requireEarlyCancellationWorkaround := b)
  }

  function FinishWrites(op: FinishOp): seq<Write> {
    match op
    case SetFinishedId(id) => [Data(0, id)]
    case SetReleaseResultCaps(b) => [Data(1, BoolBit(b))]
    case SetRequireEarlyCancellationWorkaround(b) => [Data(2, BoolBit(b))]
  }

  lemma FinishStepRefines(s: Struct, op: FinishOp)
    requires Shaped(FinishLayout, s) && FinishCallable(FinishOf(s), op)
    ensures AllFit(FinishLayout, FinishWrites(op))
    ensures FinishOf(PutAll(s, FinishWrites(op))) == FinishStep(FinishOf(s), op)
  {
    hide PutAll, Pow2;
    Widths();
    var ws := FinishWrites(op);
    PutTwo(s, ws[0], ws[0]);
    assert ws == [ws[0]];
  }

  const NewFinish: Finish := Finish(0, true, true)

  const FinishAccessors: Accessors<Finish, FinishOp> :=
    Accessors(FinishLayout, FinishOf, FinishCallable, FinishStep, FinishWrites)

  /** A Finish is its record; both flags are set by default. */
  lemma FinishRefines()
    ensures Refines(FinishAccessors) && FinishOf(Default(FinishLayout)) == NewFinish
  {
    hide AllFit, PutAll, FinishOf, FinishStep, FinishWrites;
    forall s, op | Shaped(FinishLayout, s) && FinishCallable(FinishOf(s), op)
      ensures AllFit(FinishLayout, FinishWrites(op))
      ensures FinishOf(PutAll(s, FinishWrites(op))) == FinishStep(FinishOf(s), op)
    {
      FinishStepRefines(s, op);
    }
    FinishStarts();
    FinishLayoutValid();
  }

  // What each Finish call says of the words, by their place on the wire.

  function FinishedId(op: FinishOp): Option<nat> {
    match op
    case SetFinishedId(id) => Some(id)
    case _ => None
  }

  function ReleaseResultCaps(op: FinishOp): Option<nat> {
    match op
    case SetReleaseResultCaps(b) => Some(BoolBit(b))
    case _ => None
  }

  function Workaround(op: FinishOp): Option<nat> {
    match op
    case SetRequireEarlyCancellationWorkaround(b) => Some(BoolBit(b))
    case _ => None
  }

  /** Every field at its width, offset and mask, the discriminant as a number, and every pointer
      slot: as the last call that concerns it says, or at its default. */
  ghost predicate FinishWords(d: seq<byte>, p: seq<Pointer>, ops: seq<FinishOp>)
    requires |d| == 8 && |p| == 0
  {
    && GetField(d, 32, 0, 0) == Last(FinishedId, ops, 0)
    && GetField(d, 1, 32, 1) == Last(ReleaseResultCaps, ops, 1)
    && GetField(d, 1, 33, 1) == Last(Workaround, ops, 1)
  }

  lemma FinishSays(op: FinishOp, w: nat, p: Pointer)
    ensures LastData(FinishWrites(op), 0, w) == OrElse(FinishedId(op), w)
    ensures LastData(FinishWrites(op), 1, w) == OrElse(ReleaseResultCaps(op), w)
    ensures LastData(FinishWrites(op), 2, w) == OrElse(Workaround(op), w)
  {
    hide LastData, LastPointer;
    var ws := FinishWrites(op);
    LastOfFew(ws[0], ws[0], ws[|ws| - 1], 0, w, 0, p);
    LastOfFew(ws[0], ws[0], ws[|ws| - 1], 1, w, 0, p);
    LastOfFew(ws[0], ws[0], ws[|ws| - 1], 2, w, 0, p);
    assert ws == [ws[0]];
  }

  lemma {:induction false} FinishLasts(ops: seq<FinishOp>)
    ensures LastData(AllWrites(FinishAccessors, ops), 0, 0) == Last(FinishedId, ops, 0)
    ensures LastData(AllWrites(FinishAccessors, ops), 1, 1) == Last(ReleaseResultCaps, ops, 1)
    ensures LastData(AllWrites(FinishAccessors, ops), 2, 1) == Last(Workaround, ops, 1)
  {
    hide LastData, LastPointer, Last, AllWrites, FinishWrites;
    LastStep(FinishedId, ops, 0);
    StoredStep(FinishAccessors, ops, 0, 0, 0);
    LastStep(ReleaseResultCaps, ops, 1);
    StoredStep(FinishAccessors, ops, 1, 1, 0);
    LastStep(Workaround, ops, 1);
    StoredStep(FinishAccessors, ops, 2, 1, 0);
    if ops == [] {
    } else {
      var m := |ops| - 1;
      FinishLasts(ops[..m]);
      FinishSays(ops[m], Last(FinishedId, ops[..m], 0), Null);
      FinishSays(ops[m], Last(ReleaseResultCaps, ops[..m], 1), Null);
      FinishSays(ops[m], Last(Workaround, ops[..m], 1), Null);
    }
  }

  lemma FinishOnTheWire(d: seq<byte>, p: seq<Pointer>, ops: seq<FinishOp>)
    requires |d| == 8 && |p| == 0 && ValidLayout(FinishLayout)
    requires EachLast(FinishLayout, Observe(FinishLayout, Section(d, 64), p),
                      AllWrites(FinishAccessors, ops))
    ensures FinishWords(d, p, ops)
  {
    hide LastData, LastPointer, Last, AllWrites, GetField, ValidLayout;
    FinishLasts(ops);
    ObservedField(FinishLayout, d, p, 0);
    ObservedField(FinishLayout, d, p, 1);
    ObservedField(FinishLayout, d, p, 2);
  }

  /** Any builder calls on a zeroed Finish leave the words of the record that they describe. */
  method BuildFinish(ops: seq<FinishOp>) returns (b: StructBuilder)
    requires CallableRun(FinishAccessors, NewFinish, ops)
    ensures ValidLayout(FinishLayout) && Holds(FinishLayout, b) && fresh(b.data) && fresh(b.pointers)
    ensures FinishOf(View(FinishLayout, b)) == Run(FinishAccessors, NewFinish, ops)
    ensures FinishWords(b.data[..], b.pointers[..], ops)
  {
    hide FinishOf, FinishStep, FinishWrites, ValidLayout, AllFit, PutAll, EachLast, FinishWords;
    FinishLayoutValid();
    FinishRefines();
    b := Build(FinishAccessors, ops);
    FinishOnTheWire(b.data[..], b.pointers[..], ops);
  }

  lemma FinishLayoutValid()
    ensures ValidLayout(FinishLayout)
  {
    hide Pow2;
    Widths();
  }

  lemma FinishStarts()
    ensures FinishOf(Default(FinishLayout)) == NewFinish
  {
  }

  // ---------------------------------------------------------------------------------------
  // Disembargo

  datatype Context =
    | SenderLoopback(id: nat)
    | ReceiverLoopback(id: nat)
    | Accept(p: Pointer)
    | UnknownContext(which: nat)

  datatype Disembargo = Disembargo(target: Pointer, context: Context)

  datatype DisembargoOp =
    | SetDisembargoTarget(p: Pointer)
    | DisownDisembargoTarget
    | InitContext
    | SetSenderLoopback(id: u32)
    | SetReceiverLoopback(id: u32)
    | SetAccept(p: Pointer)
    | DisownAccept

  const DisembargoLayout: Layout := Layout([Field(32, 0, 0), Field(16, 2, 0)], 1, 2)

  /** Both kinds of loopback share the id. */
  function DisembargoOf(s: Struct): Disembargo {
    Disembargo(Slot(s, 0),
               match Value(s, 1)
               case 0 => SenderLoopback(Value(s, 0))
               case 1 => ReceiverLoopback(Value(s, 0))
               case 2 => Accept(Slot(s, 1))
               case n => UnknownContext(n))
  }

  predicate DisembargoCallable(r: Disembargo, op: DisembargoOp) {
    op.DisownAccept? ==> r.context.Accept?
  }

  function DisembargoStep(r: Disembargo, op: DisembargoOp): Disembargo {
    match op
    case SetDisembargoTarget(p) => r.(target := p)
    case DisownDisembargoTarget => r.(target := Null)
    case InitContext => r.(context := SenderLoopback(0))
    case SetSenderLoopback(id) => r.(context := SenderLoopback(id))
    case SetReceiverLoopback(id) => r.(context := ReceiverLoopback(id))
    case SetAccept(p) => r.(context := Accept(p))
    case DisownAccept => r.(context := Accept(Null))
  }

  function DisembargoWrites(op: DisembargoOp): seq<Write> {
    match op
    case SetDisembargoTarget(p) => [Ptr(0, p)]
    case DisownDisembargoTarget => [Ptr(0, Null)]
    case InitContext => [Data(0, 0), Data(1, 0), Ptr(1, Null)]
    case SetSenderLoopback(id) => [Data(1, 0), Data(0, id)]
    case SetReceiverLoopback(id) => [Data(1, 1), Data(0, id)]
    case SetAccept(p) => [Data(1, 2), Ptr(1, p)]
    case DisownAccept => [Ptr(1, Null)]
  }

  lemma DisembargoStepRefines(s: Struct, op: DisembargoOp)
    requires Shaped(DisembargoLayout, s) && DisembargoCallable(DisembargoOf(s), op)
    ensures AllFit(DisembargoLayout, DisembargoWrites(op))
    ensures DisembargoOf(PutAll(s, DisembargoWrites(op))) == DisembargoStep(DisembargoOf(s), op)
  {
    hide PutAll, Pow2;
    Widths();
    var ws := DisembargoWrites(op);
    PutTwo(s, ws[0], ws[|ws| - 1]);
    PutThree(s, ws[0], ws[1 % |ws|], ws[|ws| - 1]);
    assert ws == [ws[0]] || ws == [ws[0], ws[|ws| - 1]] || ws == [ws[0], ws[1 % |ws|], ws[|ws| - 1]];
  }

  const NewDisembargo: Disembargo := Disembargo(Null, SenderLoopback(0))

  const DisembargoAccessors: Accessors<Disembargo, DisembargoOp> :=
    Accessors(DisembargoLayout, DisembargoOf, DisembargoCallable, DisembargoStep, DisembargoWrites)

  /** A Disembargo is its record. */
  lemma DisembargoRefines()
    ensures Refines(DisembargoAccessors) && DisembargoOf(Default(DisembargoLayout)) == NewDisembargo
  {
    hide AllFit, PutAll, DisembargoOf, DisembargoStep, DisembargoWrites;
    forall s, op | Shaped(DisembargoLayout, s) && DisembargoCallable(DisembargoOf(s), op)
      ensures AllFit(DisembargoLayout, DisembargoWrites(op))
      ensures DisembargoOf(PutAll(s, DisembargoWrites(op))) == DisembargoStep(DisembargoOf(s), op)
    {
      DisembargoStepRefines(s, op);
    }
    DisembargoStarts();
    DisembargoLayoutValid();
  }

  // What each Disembargo call says of the words, by their place on the wire.

  function LoopbackId(op: DisembargoOp): Option<nat> {
    match op
    case InitContext => Some(0)
    case SetSenderLoopback(id) => Some(id)
    case SetReceiverLoopback(id) => Some(id)
    case _ => None
  }

  function ContextTag(op: DisembargoOp): Option<nat> {
    match op
    case InitContext => Some(0)
    case SetSenderLoopback(_) => Some(0)
    case SetReceiverLoopback(_) => Some(1)
    case SetAccept(_) => Some(2)
    case _ => None
  }

  function DisembargoTarget(op: DisembargoOp): Option<Pointer> {
    match op
    case SetDisembargoTarget(p) => Some(p)
    case DisownDisembargoTarget => Some(Null)
    case _ => None
  }

  function AcceptPointer(op: DisembargoOp): Option<Pointer> {
    match op
    case InitContext => Some(Null)
    case SetAccept(p) => Some(p)
    case DisownAccept => Some(Null)
    case _ => None
  }

  /** Every field at its width, offset and mask, the discriminant as a number, and every pointer
      slot: as the last call that concerns it says, or at its default. */
  ghost predicate DisembargoWords(d: seq<byte>, p: seq<Pointer>, ops: seq<DisembargoOp>)
    requires |d| == 8 && |p| == 2
  {
    && GetField(d, 32, 0, 0) == Last(LoopbackId, ops, 0)
    && GetField(d, 16, 2, 0) == Last(ContextTag, ops, 0)
    && p[0] == Last(DisembargoTarget, ops, Null)
    && p[1] == Last(AcceptPointer, ops, Null)
  }

  lemma DisembargoSays(op: DisembargoOp, w: nat, p: Pointer)
    ensures LastData(DisembargoWrites(op), 0, w) == OrElse(LoopbackId(op), w)
    ensures LastData(DisembargoWrites(op), 1, w) == OrElse(ContextTag(op), w)
    ensures LastPointer(DisembargoWrites(op), 0, p) == OrElse(DisembargoTarget(op), p)
    ensures LastPointer(DisembargoWrites(op), 1, p) == OrElse(AcceptPointer(op), p)
  {
    hide LastData, LastPointer;
    var ws := DisembargoWrites(op);
    LastOfFew(ws[0], ws[1 % |ws|], ws[|ws| - 1], 0, w, 0, p);
    LastOfFew(ws[0], ws[1 % |ws|], ws[|ws| - 1], 1, w, 1, p);
    assert ws == [ws[0]] || ws == [ws[0], ws[1 % |ws|]] || ws == [ws[0], ws[1 % |ws|], ws[|ws| - 1]];
  }

  lemma {:induction false} DisembargoLasts(ops: seq<DisembargoOp>)
    ensures LastData(AllWrites(DisembargoAccessors, ops), 0, 0) == Last(LoopbackId, ops, 0)
    ensures LastData(AllWrites(DisembargoAccessors, ops), 1, 0) == Last(ContextTag, ops, 0)
    ensures LastPointer(AllWrites(DisembargoAccessors, ops), 0, Null) == Last(DisembargoTarget, ops, Null)
    ensures LastPointer(AllWrites(DisembargoAccessors, ops), 1, Null) == Last(AcceptPointer, ops, Null)
  {
    hide LastData, LastPointer, Last, AllWrites, DisembargoWrites;
    LastStep(LoopbackId, ops, 0);
    StoredStep(DisembargoAccessors, ops, 0, 0, 0);
    LastStep(ContextTag, ops, 0);
    StoredStep(DisembargoAccessors, ops, 1, 0, 1);
    LastStep(DisembargoTarget, ops, Null);
    LastStep(AcceptPointer, ops, Null);
    if ops == [] {
    } else {
      var m := |ops| - 1;
      DisembargoLasts(ops[..m]);
      DisembargoSays(ops[m], Last(LoopbackId, ops[..m], 0), Last(DisembargoTarget, ops[..m], Null));
      DisembargoSays(ops[m], Last(ContextTag, ops[..m], 0), Last(AcceptPointer, ops[..m], Null));
    }
  }

  lemma DisembargoOnTheWire(d: seq<byte>, p: seq<Pointer>, ops: seq<DisembargoOp>)
    requires |d| == 8 && |p| == 2 && ValidLayout(DisembargoLayout)
    requires EachLast(DisembargoLayout, Observe(DisembargoLayout, Section(d, 64), p),
                      AllWrites(DisembargoAccessors, ops))
    ensures DisembargoWords(d, p, ops)
  {
    hide LastData, LastPointer, Last, AllWrites, GetField, ValidLayout;
    DisembargoLasts(ops);
    ObservedField(DisembargoLayout, d, p, 0);
    ObservedField(DisembargoLayout, d, p, 1);
  }

  /** Any builder calls on a zeroed Disembargo leave the words of the record that they describe. */
  method BuildDisembargo(ops: seq<DisembargoOp>) returns (b: StructBuilder)
    requires CallableRun(DisembargoAccessors, NewDisembargo, ops)
    ensures ValidLayout(DisembargoLayout) && Holds(DisembargoLayout, b) && fresh(b.data) && fresh(b.pointers)
    ensures DisembargoOf(View(DisembargoLayout, b)) == Run(DisembargoAccessors, NewDisembargo, ops)
    ensures DisembargoWords(b.data[..], b.pointers[..], ops)
  {
    hide DisembargoOf, DisembargoStep, DisembargoWrites, ValidLayout, AllFit, PutAll, EachLast, DisembargoWords;
    DisembargoLayoutValid();
    DisembargoRefines();
    b := Build(DisembargoAccessors, ops);
    DisembargoOnTheWire(b.data[..], b.pointers[..], ops);
  }

  lemma DisembargoLayoutValid()
    ensures ValidLayout(DisembargoLayout)
  {
    hide Pow2;
    Widths();
  }

  lemma DisembargoStarts()
    ensures DisembargoOf(Default(DisembargoLayout)) == NewDisembargo
  {
  }

  // ---------------------------------------------------------------------------------------
  // MessageTarget

  datatype MessageTarget = ImportedCap(id: nat) | PromisedAnswer(p: Pointer) | UnknownTarget(which: nat)

  datatype MessageTargetOp = SetImportedCap(id: u32) | SetPromisedAnswer(p: Pointer) | DisownPromisedAnswer

  const MessageTargetLayout: Layout := Layout([Field(32, 0, 0), Field(16, 2, 0)], 1, 1)

  function MessageTargetOf(s: Struct): MessageTarget {
    match Value(s, 1)
    case 0 => ImportedCap(Value(s, 0))
    case 1 => PromisedAnswer(Slot(s, 0))
    case n => UnknownTarget(n)
  }

  predicate MessageTargetCallable(r: MessageTarget, op: MessageTargetOp) {
    op.DisownPromisedAnswer? ==> r.PromisedAnswer?
  }

  function MessageTargetStep(r: MessageTarget, op: MessageTargetOp): MessageTarget {
    match op
    case SetImportedCap(id) => ImportedCap(id)
    case SetPromisedAnswer(p) => PromisedAnswer(p)
    case DisownPromisedAnswer => PromisedAnswer(Null)
  }

  function MessageTargetWrites(op: MessageTargetOp): seq<Write> {
    match op
    case SetImportedCap(id) => [Data(1, 0), Data(0, id)]
    case SetPromisedAnswer(p) => [Data(1, 1), Ptr(0, p)]
    case DisownPromisedAnswer => [Ptr(0, Null)]
  }

  lemma MessageTargetStepRefines(s: Struct, op: MessageTargetOp)
    requires Shaped(MessageTargetLayout, s) && MessageTargetCallable(MessageTargetOf(s), op)
    ensures AllFit(MessageTargetLayout, MessageTargetWrites(op))
    ensures MessageTargetOf(PutAll(s, MessageTargetWrites(op))) == MessageTargetStep(MessageTargetOf(s), op)
  {
    hide PutAll, Pow2;
    Widths();
    var ws := MessageTargetWrites(op);
    PutTwo(s, ws[0], ws[|ws| - 1]);
    assert ws == [ws[0]] || ws == [ws[0], ws[|ws| - 1]];
  }

  const NewMessageTarget: MessageTarget := ImportedCap(0)

  const MessageTargetAccessors: Accessors<MessageTarget, MessageTargetOp> :=
    Accessors(MessageTargetLayout, MessageTargetOf, MessageTargetCallable, MessageTargetStep, MessageTargetWrites)

  /** A MessageTarget is its record. */
  lemma MessageTargetRefines()
    ensures Refines(MessageTargetAccessors) && MessageTargetOf(Default(MessageTargetLayout)) == NewMessageTarget
  {
    hide AllFit, PutAll, MessageTargetOf, MessageTargetStep, MessageTargetWrites;
    forall s, op | Shaped(MessageTargetLayout, s) && MessageTargetCallable(MessageTargetOf(s), op)
      ensures AllFit(MessageTargetLayout, MessageTargetWrites(op))
      ensures MessageTargetOf(PutAll(s, MessageTargetWrites(op))) == MessageTargetStep(MessageTargetOf(s), op)
    {
      MessageTargetStepRefines(s, op);
    }
    MessageTargetStarts();
    MessageTargetLayoutValid();
  }

  // What each MessageTarget call says of the words, by their place on the wire.

  function ImportId(op: MessageTargetOp): Option<nat> {
    match op
    case SetImportedCap(id) => Some(id)
    case _ => None
  }

  function TargetTag(op: MessageTargetOp): Option<nat> {
    match op
    case SetImportedCap(_) => Some(0)
    case SetPromisedAnswer(_) => Some(1)
    case _ => None
  }

  function AnswerPointer(op: MessageTargetOp): Option<Pointer> {
    match op
    case SetPromisedAnswer(p) => Some(p)
    case DisownPromisedAnswer => Some(Null)
    case _ => None
  }

  /** Every field at its width, offset and mask, the discriminant as a number, and every pointer
      slot: as the last call that concerns it says, or at its default. */
  ghost predicate MessageTargetWords(d: seq<byte>, p: seq<Pointer>, ops: seq<MessageTargetOp>)
    requires |d| == 8 && |p| == 1
  {
    && GetField(d, 32, 0, 0) == Last(ImportId, ops, 0)
    && GetField(d, 16, 2, 0) == Last(TargetTag, ops, 0)
    && p[0] == Last(AnswerPointer, ops, Null)
  }

  lemma MessageTargetSays(op: MessageTargetOp, w: nat, p: Pointer)
    ensures LastData(MessageTargetWrites(op), 0, w) == OrElse(ImportId(op), w)
    ensures LastData(MessageTargetWrites(op), 1, w) == OrElse(TargetTag(op), w)
    ensures LastPointer(MessageTargetWrites(op), 0, p) == OrElse(AnswerPointer(op), p)
  {
    hide LastData, LastPointer;
    var ws := MessageTargetWrites(op);
    LastOfFew(ws[0], ws[1 % |ws|], ws[|ws| - 1], 0, w, 0, p);
    LastOfFew(ws[0], ws[1 % |ws|], ws[|ws| - 1], 1, w, 0, p);
    assert ws == [ws[0]] || ws == [ws[0], ws[1 % |ws|]];
  }

  lemma {:induction false} MessageTargetLasts(ops: seq<MessageTargetOp>)
    ensures LastData(AllWrites(MessageTargetAccessors, ops), 0, 0) == Last(ImportId, ops, 0)
    ensures LastData(AllWrites(MessageTargetAccessors, ops), 1, 0) == Last(TargetTag, ops, 0)
    ensures LastPointer(AllWrites(MessageTargetAccessors, ops), 0, Null) == Last(AnswerPointer, ops, Null)
  {
    hide LastData, LastPointer, Last, AllWrites, MessageTargetWrites;
    LastStep(ImportId, ops, 0);
    StoredStep(MessageTargetAccessors, ops, 0, 0, 0);
    LastStep(TargetTag, ops, 0);
    StoredStep(MessageTargetAccessors, ops, 1, 0, 0);
    LastStep(AnswerPointer, ops, Null);
    if ops == [] {
    } else {
      var m := |ops| - 1;
      MessageTargetLasts(ops[..m]);
      MessageTargetSays(ops[m], Last(ImportId, ops[..m], 0), Last(AnswerPointer, ops[..m], Null));
      MessageTargetSays(ops[m], Last(TargetTag, ops[..m], 0), Null);
    }
  }

  lemma MessageTargetOnTheWire(d: seq<byte>, p: seq<Pointer>, ops: seq<MessageTargetOp>)
    requires |d| == 8 && |p| == 1 && ValidLayout(MessageTargetLayout)
    requires EachLast(MessageTargetLayout, Observe(MessageTargetLayout, Section(d, 64), p),
                      AllWrites(MessageTargetAccessors, ops))
    ensures MessageTargetWords(d, p, ops)
  {
    hide LastData, LastPointer, Last, AllWrites, GetField, ValidLayout;
    MessageTargetLasts(ops);
    ObservedField(MessageTargetLayout, d, p, 0);
    ObservedField(MessageTargetLayout, d, p, 1);
  }

  /** Any builder calls on a zeroed MessageTarget leave the words of the record that they describe. */
  method BuildMessageTarget(ops: seq<MessageTargetOp>) returns (b: StructBuilder)
    requires CallableRun(MessageTargetAccessors, NewMessageTarget, ops)
    ensures ValidLayout(MessageTargetLayout) && Holds(MessageTargetLayout, b) && fresh(b.data) && fresh(b.pointers)
    ensures MessageTargetOf(View(MessageTargetLayout, b)) == Run(MessageTargetAccessors, NewMessageTarget, ops)
    ensures MessageTargetWords(b.data[..], b.pointers[..], ops)
  {
    hide MessageTargetOf, MessageTargetStep, MessageTargetWrites, ValidLayout, AllFit, PutAll, EachLast;
    hide MessageTargetWords;
    MessageTargetLayoutValid();
    MessageTargetRefines();
    b := Build(MessageTargetAccessors, ops);
    MessageTargetOnTheWire(b.data[..], b.pointers[..], ops);
  }

  lemma MessageTargetLayoutValid()
    ensures ValidLayout(MessageTargetLayout)
  {
    hide Pow2;
    Widths();
  }

  lemma MessageTargetStarts()
    ensures MessageTargetOf(Default(MessageTargetLayout)) == NewMessageTarget
  {
  }

  // ---------------------------------------------------------------------------------------
  // CapDescriptor

  datatype Host =
    | NoCap
    | SenderHosted(id: nat)
    | SenderPromise(id: nat)
    | ReceiverHosted(id: nat)
    | ReceiverAnswer(p: Pointer)
    | ThirdPartyHosted(p: Pointer)
    | UnknownHost(which: nat)

  datatype CapDescriptor = CapDescriptor(host: Host, attachedFd: nat)

  datatype CapDescriptorOp =
    | SetNone
    | SetSenderHosted(id: u32)
    | SetSenderPromise(id: u32)
    | SetReceiverHosted(id: u32)
    | SetReceiverAnswer(p: Pointer)
    | DisownReceiverAnswer
    | SetThirdPartyHosted(p: Pointer)
    | DisownThirdPartyHosted
    | SetAttachedFd(fd: u8)

  const CapDescriptorLayout: Layout := Layout([Field(16, 0, 0), Field(8, 2, 255), Field(32, 1, 0)], 1, 1)

  /** Three members share the id and two the pointer. */
  function CapDescriptorOf(s: Struct): CapDescriptor {
    CapDescriptor(match Value(s, 0)
                  case 0 => NoCap
                  case 1 => SenderHosted(Value(s, 2))
                  case 2 => SenderPromise(Value(s, 2))
                  case 3 => ReceiverHosted(Value(s, 2))
                  case 4 => ReceiverAnswer(Slot(s, 0))
                  case 5 => ThirdPartyHosted(Slot(s, 0))
                  case n => UnknownHost(n),
                  Value(s, 1))
  }

  predicate CapDescriptorCallable(r: CapDescriptor, op: CapDescriptorOp) {
    && (op.DisownReceiverAnswer? ==> r.host.ReceiverAnswer?)
    && (op.DisownThirdPartyHosted? ==> r.host.ThirdPartyHosted?)
  }

  function CapDescriptorStep(r: CapDescriptor, op: CapDescriptorOp): CapDescriptor {
    match op
    case SetNone => r.(host := NoCap)
    case SetSenderHosted(id) => r.(host := SenderHosted(id))
    case SetSenderPromise(id) => r.(host := SenderPromise(id))
    case SetReceiverHosted(id) => r.(host := ReceiverHosted(id))
    case SetReceiverAnswer(p) => r.(host := ReceiverAnswer(p))
    case DisownReceiverAnswer => r.(host := ReceiverAnswer(Null))
    case SetThirdPartyHosted(p) => r.(host := ThirdPartyHosted(p))
    case DisownThirdPartyHosted => r.(host := ThirdPartyHosted(Null))
    case SetAttachedFd(fd) => r.(attachedFd := fd)
  }

  function CapDescriptorWrites(op: CapDescriptorOp): seq<Write> {
    match op
    case SetNone => [Data(0, 0)]
    case SetSenderHosted(id) => [Data(0, 1), Data(2, id)]
    case SetSenderPromise(id) => [Data(0, 2), Data(2, id)]
    case SetReceiverHosted(id) => [Data(0, 3), Data(2, id)]
    case SetReceiverAnswer(p) => [Data(0, 4), Ptr(0, p)]
    case DisownReceiverAnswer => [Ptr(0, Null)]
    case SetThirdPartyHosted(p) => [Data(0, 5), Ptr(0, p)]
    case DisownThirdPartyHosted => [Ptr(0, Null)]
    case SetAttachedFd(fd) => [Data(1, fd)]
  }

  lemma CapDescriptorStepRefines(s: Struct, op: CapDescriptorOp)
    requires Shaped(CapDescriptorLayout, s) && CapDescriptorCallable(CapDescriptorOf(s), op)
    ensures AllFit(CapDescriptorLayout, CapDescriptorWrites(op))
    ensures CapDescriptorOf(PutAll(s, CapDescriptorWrites(op))) == CapDescriptorStep(CapDescriptorOf(s), op)
  {
    hide PutAll, Pow2;
    Widths();
    var ws := CapDescriptorWrites(op);
    PutTwo(s, ws[0], ws[|ws| - 1]);
    assert ws == [ws[0]] || ws == [ws[0], ws[|ws| - 1]];
  }

  const NewCapDescriptor: CapDescriptor := CapDescriptor(NoCap, 255)

  const CapDescriptorAccessors: Accessors<CapDescriptor, CapDescriptorOp> :=
    Accessors(CapDescriptorLayout, CapDescriptorOf, CapDescriptorCallable, CapDescriptorStep, CapDescriptorWrites)

  /** A CapDescriptor is its record; no file descriptor is attached by default. */
  lemma CapDescriptorRefines()
    ensures Refines(CapDescriptorAccessors) && CapDescriptorOf(Default(CapDescriptorLayout)) == NewCapDescriptor
  {
    hide AllFit, PutAll, CapDescriptorOf, CapDescriptorStep, CapDescriptorWrites;
    forall s, op | Shaped(CapDescriptorLayout, s) && CapDescriptorCallable(CapDescriptorOf(s), op)
      ensures AllFit(CapDescriptorLayout, CapDescriptorWrites(op))
      ensures CapDescriptorOf(PutAll(s, CapDescriptorWrites(op))) == CapDescriptorStep(CapDescriptorOf(s), op)
    {
      CapDescriptorStepRefines(s, op);
    }
    CapDescriptorStarts();
    CapDescriptorLayoutValid();
  }

  // What each CapDescriptor call says of the words, by their place on the wire.

  function HostTag(op: CapDescriptorOp): Option<nat> {
    match op
    case SetNone => Some(0)
    case SetSenderHosted(_) => Some(1)
    case SetSenderPromise(_) => Some(2)
    case SetReceiverHosted(_) => Some(3)
    case SetReceiverAnswer(_) => Some(4)
    case SetThirdPartyHosted(_) => Some(5)
    case _ => None
  }

  function AttachedFd(op: CapDescriptorOp): Option<nat> {
    match op
    case SetAttachedFd(fd) => Some(fd)
    case _ => None
  }

  function CapId(op: CapDescriptorOp): Option<nat> {
    match op
    case SetSenderHosted(id) => Some(id)
    case SetSenderPromise(id) => Some(id)
    case SetReceiverHosted(id) => Some(id)
    case _ => None
  }

  function HostPointer(op: CapDescriptorOp): Option<Pointer> {
    match op
    case SetReceiverAnswer(p) => Some(p)
    case DisownReceiverAnswer => Some(Null)
    case SetThirdPartyHosted(p) => Some(p)
    case DisownThirdPartyHosted => Some(Null)
    case _ => None
  }

  /** Every field at its width, offset and mask, the discriminant as a number, and every pointer
      slot: as the last call that concerns it says, or at its default. */
  ghost predicate CapDescriptorWords(d: seq<byte>, p: seq<Pointer>, ops: seq<CapDescriptorOp>)
    requires |d| == 8 && |p| == 1
  {
    && GetField(d, 16, 0, 0) == Last(HostTag, ops, 0)
    && GetField(d, 8, 2, 255) == Last(AttachedFd, ops, 255)
    && GetField(d, 32, 1, 0) == Last(CapId, ops, 0)
    && p[0] == Last(HostPointer, ops, Null)
  }

  lemma CapDescriptorSays(op: CapDescriptorOp, w: nat, p: Pointer)
    ensures LastData(CapDescriptorWrites(op), 0, w) == OrElse(HostTag(op), w)
    ensures LastData(CapDescriptorWrites(op), 1, w) == OrElse(AttachedFd(op), w)
    ensures LastData(CapDescriptorWrites(op), 2, w) == OrElse(CapId(op), w)
    ensures LastPointer(CapDescriptorWrites(op), 0, p) == OrElse(HostPointer(op), p)
  {
    hide LastData, LastPointer;
    var ws := CapDescriptorWrites(op);
    LastOfFew(ws[0], ws[1 % |ws|], ws[|ws| - 1], 0, w, 0, p);
    LastOfFew(ws[0], ws[1 % |ws|], ws[|ws| - 1], 1, w, 0, p);
    LastOfFew(ws[0], ws[1 % |ws|], ws[|ws| - 1], 2, w, 0, p);
    assert ws == [ws[0]] || ws == [ws[0], ws[1 % |ws|]];
  }

  lemma {:induction false} CapDescriptorLasts(ops: seq<CapDescriptorOp>)
    ensures LastData(AllWrites(CapDescriptorAccessors, ops), 0, 0) == Last(HostTag, ops, 0)
    ensures LastData(AllWrites(CapDescriptorAccessors, ops), 1, 255) == Last(AttachedFd, ops, 255)
    ensures LastData(AllWrites(CapDescriptorAccessors, ops), 2, 0) == Last(CapId, ops, 0)
    ensures LastPointer(AllWrites(CapDescriptorAccessors, ops), 0, Null) == Last(HostPointer, ops, Null)
  {
    hide LastData, LastPointer, Last, AllWrites, CapDescriptorWrites;
    LastStep(HostTag, ops, 0);
    StoredStep(CapDescriptorAccessors, ops, 0, 0, 0);
    LastStep(AttachedFd, ops, 255);
    StoredStep(CapDescriptorAccessors, ops, 1, 255, 0);
    LastStep(CapId, ops, 0);
    StoredStep(CapDescriptorAccessors, ops, 2, 0, 0);
    LastStep(HostPointer, ops, Null);
    if ops == [] {
    } else {
      var m := |ops| - 1;
      CapDescriptorLasts(ops[..m]);
      CapDescriptorSays(ops[m], Last(HostTag, ops[..m], 0), Last(HostPointer, ops[..m], Null));
      CapDescriptorSays(ops[m], Last(AttachedFd, ops[..m], 255), Null);
      CapDescriptorSays(ops[m], Last(CapId, ops[..m], 0), Null);
    }
  }

  lemma CapDescriptorOnTheWire(d: seq<byte>, p: seq<Pointer>, ops: seq<CapDescriptorOp>)
    requires |d| == 8 && |p| == 1 && ValidLayout(CapDescriptorLayout)
    requires EachLast(CapDescriptorLayout, Observe(CapDescriptorLayout, Section(d, 64), p),
                      AllWrites(CapDescriptorAccessors, ops))
    ensures CapDescriptorWords(d, p, ops)
  {
    hide LastData, LastPointer, Last, AllWrites, GetField, ValidLayout;
    CapDescriptorLasts(ops);
    ObservedField(CapDescriptorLayout, d, p, 0);
    ObservedField(CapDescriptorLayout, d, p, 1);
    ObservedField(CapDescriptorLayout, d, p, 2);
  }

  /** Any builder calls on a zeroed CapDescriptor leave the words of the record that they describe. */
  method BuildCapDescriptor(ops: seq<CapDescriptorOp>) returns (b: StructBuilder)
    requires CallableRun(CapDescriptorAccessors, NewCapDescriptor, ops)
    ensures ValidLayout(CapDescriptorLayout) && Holds(CapDescriptorLayout, b) && fresh(b.data) && fresh(b.pointers)
    ensures CapDescriptorOf(View(CapDescriptorLayout, b)) == Run(CapDescriptorAccessors, NewCapDescriptor, ops)
    ensures CapDescriptorWords(b.data[..], b.pointers[..], ops)
  {
    hide CapDescriptorOf, CapDescriptorStep, CapDescriptorWrites, ValidLayout, AllFit, PutAll, EachLast;
    hide CapDescriptorWords;
    CapDescriptorLayoutValid();
    CapDescriptorRefines();
    b := Build(CapDescriptorAccessors, ops);
    CapDescriptorOnTheWire(b.data[..], b.pointers[..], ops);
  }

  lemma CapDescriptorLayoutValid()
    ensures ValidLayout(CapDescriptorLayout)
  {
    hide Pow2;
    Widths();
  }

  lemma CapDescriptorStarts()
    ensures CapDescriptorOf(Default(CapDescriptorLayout)) == NewCapDescriptor
  {
  }
}
