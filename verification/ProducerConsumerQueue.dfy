/**
 The queue of c++/src/benchmark/common.h between one producer and one consumer thread.

 Every access to a field of a shared node, to `front`, to `back` or to the semaphore is a
 step of its own, and the steps of the two threads interleave in every possible order.
 Touching a node that was deleted, following a null pointer and deleting twice are faults.
 Nodes are named by the order of their allocation, so a name is never reused.
 */
module ProducerConsumerQueue {
  import opened Basics

  type Ptr = Option<nat>

  /** The default-constructed first node has no value. */
  datatype Node<T> = Node(value: Option<T>, next: Ptr)

  /** Where the producer is in `post`. */
  datatype Producer = PIdle | PAllocated(node: nat) | PLinked | PLoaded(node: nat) | PMoved

  /** Where the consumer is in `next`. */
  datatype Consumer =
    | CIdle
    | CWaited
    | CFront(oldFront: nat)
    | CLoaded(oldFront: nat, next: Ptr)
    | CMoved(oldFront: nat)
    | CDeleted

  datatype State<T> = State(
    live: map<nat, Node<T>>,
    count: nat,
    freed: seq<nat>,
    front: Ptr,
    back: nat,
    semaphore: nat,
    producer: Producer,
    consumer: Consumer,
    posted: seq<T>,
    returned: seq<T>)

  datatype Action<T> =
    | New(value: T)   // post: new Node(t)
    | Link            //       back->next = ...
    | LoadNext        //       ... back->next
    | MoveBack        //       back = ...
    | SemPost         //       sem_post
    | SemWait         // next: sem_wait
    | TakeFront       //       oldFront = front
    | LoadFrontNext   //       ... front->next
    | MoveFront       //       front = ...
    | Delete          //       delete oldFront
    | Return          //       return front->value

  datatype Result<T> = Ok(state: State<T>) | Fault

  function Init<T>(): State<T> {
    State(map[0 := Node(None, None)], 1, [], Some(0), 0, 0, PIdle, CIdle, [], [])
  }

  /** Can a thread take this step now?  Only `sem_wait` ever blocks. */
  predicate Enabled<T>(s: State<T>, a: Action<T>) {
    match a
    case New(_) => s.producer.PIdle?
    case Link => s.producer.PAllocated?
    case LoadNext => s.producer.PLinked?
    case MoveBack => s.producer.PLoaded?
    case SemPost => s.producer.PMoved?
    case SemWait => s.consumer.CIdle? && s.semaphore > 0
    case TakeFront => s.consumer.CWaited?
    case LoadFrontNext => s.consumer.CFront?
    case MoveFront => s.consumer.CLoaded?
    case Delete => s.consumer.CMoved?
    case Return => s.consumer.CDeleted?
  }

  function Step<T>(s: State<T>, a: Action<T>): Result<T>
    requires Enabled(s, a)
  {
    match a
    case New(v) =>
      Ok(s.(live := s.live[s.count := Node(Some(v), None)], count := s.count + 1,
            producer := PAllocated(s.count), posted := s.posted + [v]))
    case Link =>
      if s.back !in s.live then Fault
      else Ok(s.(live := s.live[s.back := s.live[s.back].(next := Some(s.producer.node))], producer := PLinked))
    case LoadNext =>
      if s.back !in s.live || s.live[s.back].next.None? then Fault
      else Ok(s.(producer := PLoaded(s.live[s.back].next.value)))
    case MoveBack => Ok(s.(back := s.producer.node, producer := PMoved))
    case SemPost => Ok(s.(semaphore := s.semaphore + 1, producer := PIdle))
    case SemWait => Ok(s.(semaphore := s.semaphore - 1, consumer := CWaited))
    case TakeFront => if s.front.None? then Fault else Ok(s.(consumer := CFront(s.front.value)))
    case LoadFrontNext =>
      if s.front.None? || s.front.value !in s.live then Fault
      else Ok(s.(consumer := CLoaded(s.consumer.oldFront, s.live[s.front.value].next)))
    case MoveFront => Ok(s.(front := s.consumer.next, consumer := CMoved(s.consumer.oldFront)))
    case Delete =>
      if s.consumer.oldFront !in s.live then Fault
      else Ok(s.(live := s.live - {s.consumer.oldFront}, freed := s.freed + [s.consumer.oldFront],
                 consumer := CDeleted))
    case Return =>
      if s.front.None? || s.front.value !in s.live || s.live[s.front.value].value.None? then Fault
      else Ok(s.(returned := s.returned + [s.live[s.front.value].value.value], consumer := CIdle))
  }

  // ---------------------------------------------------------------------------------------
  // The invariant

  /** Posts whose `sem_post` has been done. */
  function Completed<T>(s: State<T>): int {
    if s.producer.PIdle? then s.count - 1 else s.count - 2
  }

  /** Values taken by `sem_wait`, including one being fetched. */
  function Taken<T>(s: State<T>): nat {
    |s.returned| + if s.consumer.CIdle? then 0 else 1
  }

  /** Is node `i + 1` reachable from node `i` yet? */
  predicate Linked<T>(s: State<T>, i: nat) {
    i + 1 < s.count && !(s.producer.PAllocated? && i + 2 == s.count)
  }

  ghost predicate ProducerOk<T>(s: State<T>) {
    match s.producer
    case PIdle => s.back + 1 == s.count
    case PAllocated(n) => s.back + 2 == s.count && n + 1 == s.count
    case PLinked => s.back + 2 == s.count
    case PLoaded(n) => s.back + 2 == s.count && n + 1 == s.count
    case PMoved => s.back + 1 == s.count
  }

  ghost predicate ConsumerOk<T>(s: State<T>) {
    var c := |s.returned|;
    match s.consumer
    case CIdle => s.front == Some(c) && |s.freed| == c
    case CWaited => s.front == Some(c) && |s.freed| == c
    case CFront(o) => s.front == Some(c) && |s.freed| == c && o == c
    case CLoaded(o, next) => s.front == Some(c) && |s.freed| == c && o == c && next == Some(c + 1)
    case CMoved(o) => s.front == Some(c + 1) && |s.freed| == c && o == c
    case CDeleted => s.front == Some(c + 1) && |s.freed| == c + 1
  }

  ghost predicate HeapOk<T>(s: State<T>) {
    s.count == |s.posted| + 1
    && (forall i :: i in s.live <==> |s.freed| <= i < s.count)
    && (forall i :: i in s.live ==> s.live[i].next == if Linked(s, i) then Some(i + 1) else None)
    && (forall i :: i in s.live && i > 0 ==> s.live[i].value == Some(s.posted[i - 1]))
  }

  ghost predicate Inv<T>(s: State<T>) {
    (forall i :: 0 <= i < |s.freed| ==> s.freed[i] == i)
    && s.semaphore + Taken(s) == Completed(s)
    && |s.returned| <= |s.posted| && s.returned == s.posted[..|s.returned|]
    && HeapOk(s) && ProducerOk(s) && ConsumerOk(s)
  }

  lemma InitInv<T>()
    ensures Inv(Init<T>())
  {
  }

  lemma NewStep<T>(s: State<T>, v: T)
    requires Inv(s) && Enabled(s, New(v))
    ensures Inv(Step(s, New(v)).state)
  {
    var s' := Step(s, New(v)).state;
    assert forall i :: 0 <= i < |s.posted| ==> s'.posted[i] == s.posted[i];
  }

  lemma LinkStep<T>(s: State<T>)
    requires Inv(s) && Enabled(s, Link)
    ensures Step(s, Link).Ok? && Inv(Step(s, Link).state)
  {
    assert s.back in s.live;
  }

  lemma OtherProducerStep<T>(s: State<T>, a: Action<T>)
    requires Inv(s) && Enabled(s, a) && (a.LoadNext? || a.MoveBack? || a.SemPost?)
    ensures Step(s, a).Ok? && Inv(Step(s, a).state)
  {
    if a.LoadNext? {
      assert s.back in s.live && Linked(s, s.back);
    }
    SameHeap(s, Step(s, a).state);
  }

  /** Steps that leave nodes and values alone keep the heap part of the invariant. */
  lemma SameHeap<T>(s: State<T>, s': State<T>)
    requires HeapOk(s)
    requires s'.live == s.live && s'.count == s.count && s'.freed == s.freed && s'.posted == s.posted
    requires s'.producer.PAllocated? == s.producer.PAllocated?
    ensures HeapOk(s')
  {
    assert forall i :: 0 <= i ==> Linked(s', i) == Linked(s, i);
  }

  lemma FrontStep<T>(s: State<T>, a: Action<T>)
    requires Inv(s) && Enabled(s, a) && (a.SemWait? || a.TakeFront? || a.LoadFrontNext? || a.MoveFront?)
    ensures Step(s, a).Ok? && Inv(Step(s, a).state)
  {
    if a.LoadFrontNext? {
      assert |s.returned| in s.live && Linked(s, |s.returned|);
    }
    SameHeap(s, Step(s, a).state);
  }

  lemma DeleteStep<T>(s: State<T>)
    requires Inv(s) && Enabled(s, Delete)
    ensures Step(s, Delete).Ok? && Inv(Step(s, Delete).state)
  {
    assert |s.returned| in s.live;
    var s' := Step(s, Delete).state;
    assert forall i :: 0 <= i ==> Linked(s', i) == Linked(s, i);
  }

  lemma ReturnStep<T>(s: State<T>)
    requires Inv(s) && Enabled(s, Return)
    ensures Step(s, Return).Ok? && Inv(Step(s, Return).state)
  {
    var c := |s.returned|;
    assert c + 1 in s.live;
    assert s.posted[..c + 1] == s.posted[..c] + [s.posted[c]];
    SameHeap(s, Step(s, Return).state);
  }

  /** Whichever thread moves, nothing faults and the invariant stays. */
  lemma StepKeepsInv<T>(s: State<T>, a: Action<T>)
    requires Inv(s) && Enabled(s, a)
    ensures Step(s, a).Ok? && Inv(Step(s, a).state)
  {
    hide Inv, HeapOk;
    match a {
      case New(v) => NewStep(s, v);
      case Link => LinkStep(s);
      case LoadNext => OtherProducerStep(s, a);
      case MoveBack => OtherProducerStep(s, a);
      case SemPost => OtherProducerStep(s, a);
      case SemWait => FrontStep(s, a);
      case TakeFront => FrontStep(s, a);
      case LoadFrontNext => FrontStep(s, a);
      case MoveFront => FrontStep(s, a);
      case Delete => DeleteStep(s);
      case Return => ReturnStep(s);
    }
  }

  // ---------------------------------------------------------------------------------------
  // Whole runs

  /** The schedule can be taken step by step, as long as nothing faults. */
  predicate ValidRun<T>(s: State<T>, run: seq<Action<T>>)
    decreases run
  {
    run == [] || (Enabled(s, run[0]) && (Step(s, run[0]).Ok? ==> ValidRun(Step(s, run[0]).state, run[1..])))
  }

  function After<T>(s: State<T>, run: seq<Action<T>>): Result<T>
    requires ValidRun(s, run)
    decreases run
  {
    if run == [] then Ok(s)
    else if Step(s, run[0]).Fault? then Fault
    else After(Step(s, run[0]).state, run[1..])
  }

  lemma {:induction false} RunKeepsInv<T>(s: State<T>, run: seq<Action<T>>)
    requires Inv(s) && ValidRun(s, run)
    ensures After(s, run).Ok? && Inv(After(s, run).state)
    decreases run
  {
    hide Inv, Step;
    if run == [] {
    } else {
      StepKeepsInv(s, run[0]);
      RunKeepsInv(Step(s, run[0]).state, run[1..]);
    }
  }

  /** The values that the run posts, in order. */
  function PostedBy<T>(run: seq<Action<T>>): seq<T> {
    if run == [] then [] else (if run[0].New? then [run[0].value] else []) + PostedBy(run[1..])
  }

  /** What was posted is what the calls of `post` were given. */
  lemma {:induction false} PostedIs<T>(s: State<T>, run: seq<Action<T>>)
    requires ValidRun(s, run) && After(s, run).Ok?
    ensures After(s, run).state.posted == s.posted + PostedBy(run)
    decreases run
  {
    if run == [] {
      assert s.posted + [] == s.posted;
    } else {
      PostedIs(Step(s, run[0]).state, run[1..]);
      PostedStep(s, run[0], PostedBy(run[1..]));
    }
  }

  lemma PostedStep<T>(s: State<T>, a: Action<T>, rest: seq<T>)
    requires Enabled(s, a) && Step(s, a).Ok?
    ensures Step(s, a).state.posted + rest == s.posted + ((if a.New? then [a.value] else []) + rest)
  {
    if a.New? {
      assert s.posted + [a.value] + rest == s.posted + ([a.value] + rest);
    } else {
      assert [] + rest == rest;
    }
  }

  /** Received a prefix, deleted each node before the front once, deleted nothing still live. */
  ghost predicate Safe<T>(s: State<T>) {
    s.returned <= s.posted
    && (forall i :: 0 <= i < |s.freed| ==> s.freed[i] == i)
    && (forall n :: n in s.live ==> n !in s.freed)
  }

  /** An idle consumer is blocked exactly when it has received everything whose post has
      completed, and every post has completed when the producer is idle. */
  ghost predicate Prompt<T>(s: State<T>) {
    (s.consumer.CIdle? ==> (Enabled(s, SemWait) <==> |s.returned| < Completed(s)))
    && (s.producer.PIdle? ==> Completed(s) == |s.posted|)
  }

  lemma InvMeans<T>(s: State<T>)
    requires Inv(s)
    ensures Safe(s) && Prompt(s)
  {
  }

  /** In every interleaving nothing faults, the consumer has received exactly a prefix of what
      the calls of `post` were given and has deleted each node before it once, and no wake-up is
      lost. */
  lemma QueueSafe<T>(run: seq<Action<T>>)
    requires ValidRun(Init<T>(), run)
    ensures var r := After(Init<T>(), run); r.Ok? && Inv(r.state) && Safe(r.state) && Prompt(r.state)
    ensures var s := After(Init<T>(), run).state; s.returned <= s.posted == PostedBy(run)
  {
    hide Step, After, ValidRun, Inv, Prompt;
    InitInv<T>();
    RunKeepsInv(Init<T>(), run);
    InvMeans(After(Init<T>(), run).state);
    PostedIs(Init<T>(), run);
    assert [] + PostedBy(run) == PostedBy(run);
  }

  // ---------------------------------------------------------------------------------------
  // Delivery

  /** Steps left in the current `post`. */
  function ProducerWork<T>(s: State<T>): nat {
    match s.producer
    case PIdle => 0
    case PAllocated(_) => 4
    case PLinked => 3
    case PLoaded(_) => 2
    case PMoved => 1
  }

  /** Steps taken in the current `next`. */
  function ConsumerSteps<T>(s: State<T>): nat {
    match s.consumer
    case CIdle => 0
    case CWaited => 1
    case CFront(_) => 2
    case CLoaded(_, _) => 3
    case CMoved(_) => 4
    case CDeleted => 5
  }

  /** Steps left until everything posted is received: a `next` takes six. */
  function Work<T>(s: State<T>): int {
    ProducerWork(s) + 6 * (|s.posted| - |s.returned|) - ConsumerSteps(s)
  }

  /** What is left to do is never negative, and nothing exactly when all was received. */
  lemma WorkMeans<T>(s: State<T>)
    requires Inv(s)
    ensures Work(s) >= 0
    ensures Work(s) == 0 <==> s.returned == s.posted && s.producer.PIdle? && s.consumer.CIdle?
  {
    hide HeapOk;
    CountKept(s);
  }

  /** Every step but a new post does one unit of work. */
  lemma WorkStep<T>(s: State<T>, a: Action<T>)
    requires Inv(s) && Enabled(s, a) && !a.New?
    ensures Step(s, a).Ok? && Work(Step(s, a).state) == Work(s) - 1 && Step(s, a).state.posted == s.posted
  {
    hide Inv;
    StepKeepsInv(s, a);
  }

  /** As long as work is left, some thread can do some: there is no deadlock. */
  lemma NoDeadlock<T>(s: State<T>) returns (a: Action<T>)
    requires Inv(s) && Work(s) > 0
    ensures Enabled(s, a) && !a.New?
  {
    hide HeapOk;
    CountKept(s);
    a := match s.producer
      case PAllocated(_) => Link
      case PLinked => LoadNext
      case PLoaded(_) => MoveBack
      case PMoved => SemPost
      case PIdle =>
        match s.consumer
        case CIdle => SemWait
        case CWaited => TakeFront
        case CFront(_) => LoadFrontNext
        case CLoaded(_, _) => MoveFront
        case CMoved(_) => Delete
        case CDeleted => Return;
  }

  lemma {:induction false} WorkRun<T>(s: State<T>, run: seq<Action<T>>)
    requires Inv(s) && ValidRun(s, run) && forall i :: 0 <= i < |run| ==> !run[i].New?
    ensures After(s, run).Ok? && Inv(After(s, run).state)
    ensures Work(After(s, run).state) == Work(s) - |run| && After(s, run).state.posted == s.posted
    decreases run
  {
    hide Inv, Step, Enabled, Work;
    if run == [] {
    } else {
      StepKeepsInv(s, run[0]);
      WorkStep(s, run[0]);
      WorkRun(Step(s, run[0]).state, run[1..]);
    }
  }

  /** Once nothing new is posted, in whatever order the threads go on: they can go on until
      everything posted was received, and that takes the same number of steps in every order. */
  lemma Delivery<T>(before: seq<Action<T>>, run: seq<Action<T>>)
    requires ValidRun(Init<T>(), before) && After(Init<T>(), before).Ok?
    requires ValidRun(After(Init<T>(), before).state, run) && forall i :: 0 <= i < |run| ==> !run[i].New?
    ensures var s := After(Init<T>(), before).state;
            var r := After(s, run);
            r.Ok? && |run| <= Work(s) && r.state.posted == s.posted
            && (|run| == Work(s) <==>
                  r.state.returned == PostedBy(before) && r.state.producer.PIdle? && r.state.consumer.CIdle?)
            && (|run| < Work(s) <==> exists a :: Enabled(r.state, a) && !a.New?)
  {
    hide Inv, Step, ValidRun, After, Work;
    InitInv<T>();
    RunKeepsInv(Init<T>(), before);
    PostedIs(Init<T>(), before);
    assert [] + PostedBy(before) == PostedBy(before);
    var s := After(Init<T>(), before).state;
    WorkRun(s, run);
    var s' := After(s, run).state;
    WorkMeans(s');
    if |run| < Work(s) {
      var a := NoDeadlock(s');
    } else if a :| Enabled(s', a) && !a.New? {
      StepKeepsInv(s', a);
      WorkStep(s', a);
      WorkMeans(Step(s', a).state);
      assert false;
    }
  }

  // ---------------------------------------------------------------------------------------
  // Races

  datatype Part = Next | Value | Whole

  /** Which part of which node a step reads or writes. */
  datatype Access = NoNode | Access(node: nat, part: Part, write: bool)

  function AccessOf<T>(s: State<T>, a: Action<T>): Access
    requires Enabled(s, a)
  {
    match a
    case New(_) => Access(s.count, Whole, true)
    case Link => Access(s.back, Next, true)
    case LoadNext => Access(s.back, Next, false)
    case LoadFrontNext => if s.front.Some? then Access(s.front.value, Next, false) else NoNode
    case Delete => Access(s.consumer.oldFront, Whole, true)
    case Return => if s.front.Some? then Access(s.front.value, Value, false) else NoNode
    case _ => NoNode
  }

  /** A step changes no node but the one it is said to write. */
  lemma AccessWrites<T>(s: State<T>, a: Action<T>, n: nat)
    requires Enabled(s, a) && Step(s, a).Ok? && n < s.count
    requires AccessOf(s, a).Access? ==> AccessOf(s, a).node != n || !AccessOf(s, a).write
    ensures n in s.live <==> n in Step(s, a).state.live
    ensures n in s.live ==> Step(s, a).state.live[n] == s.live[n]
  {
  }

  /** May `x` stand in for node `n`, as far as this access goes? */
  ghost predicate Unseen<T>(access: Access, n: nat, was: Node<T>, x: Node<T>) {
    access.NoNode? || access.node != n
    || (access.part.Next? && x.next == was.next) || (access.part.Value? && x.value == was.value)
  }

  /** A step looks at no part of a node but the one it is said to access: with anything else in
      place of the rest it does the same. */
  lemma AccessReads<T>(s: State<T>, a: Action<T>, n: nat, x: Node<T>)
    requires Enabled(s, a) && n in s.live && Unseen(AccessOf(s, a), n, s.live[n], x)
    ensures var r, r' := Step(s, a), Step(s.(live := s.live[n := x]), a);
            (r'.Ok? <==> r.Ok?)
            && (r.Ok? ==> r'.state.(live := r.state.live) == r.state
                          && forall m :: m != n ==> (m in r'.state.live <==> m in r.state.live)
                                                    && (m in r.state.live ==> r'.state.live[m] == r.state.live[m]))
  {
  }

  predicate OfProducer<T>(a: Action<T>) {
    a.New? || a.Link? || a.LoadNext? || a.MoveBack? || a.SemPost?
  }

  predicate Conflict(a: Access, b: Access) {
    a.Access? && b.Access? && a.node == b.node && (a.write || b.write)
    && (a.part == b.part || a.part.Whole? || b.part.Whole?)
  }

  lemma RaceFreeState<T>(s: State<T>, p: Action<T>, c: Action<T>)
    requires Inv(s) && OfProducer(p) && Enabled(s, p) && !OfProducer(c) && Enabled(s, c)
    ensures !Conflict(AccessOf(s, p), AccessOf(s, c))
  {
    hide HeapOk;
    CountKept(s);
  }

  lemma CountKept<T>(s: State<T>)
    requires HeapOk(s)
    ensures s.count == |s.posted| + 1
  {
  }

  /** The two threads never get to access the same part of a node at the same time unless both
      only read it.  As `front` and `back` each belong to one thread, the plain fields are free
      of data races, which is what makes it sound to take the steps in some single order. */
  lemma RaceFree<T>(run: seq<Action<T>>, p: Action<T>, c: Action<T>)
    requires ValidRun(Init<T>(), run) && After(Init<T>(), run).Ok?
    requires OfProducer(p) && Enabled(After(Init<T>(), run).state, p)
    requires !OfProducer(c) && Enabled(After(Init<T>(), run).state, c)
    ensures var s := After(Init<T>(), run).state; !Conflict(AccessOf(s, p), AccessOf(s, c))
  {
    hide Step, After, ValidRun, Inv, Enabled, OfProducer, AccessOf;
    InitInv<T>();
    RunKeepsInv(Init<T>(), run);
    RaceFreeState(After(Init<T>(), run).state, p, c);
  }

  // ---------------------------------------------------------------------------------------
  // The destructor

  /** ~ProducerConsumerQueue, once both threads are done with the queue: walks the remaining
      list.  Together with the consumer's deletes every node ever allocated is deleted once,
      in the order of allocation. */
  method Destroy<T>(s: State<T>) returns (live: map<nat, Node<T>>, freed: seq<nat>)
    requires Inv(s) && s.producer.PIdle? && s.consumer.CIdle?
    ensures live == map[]
    ensures freed == seq(s.count, i => i)
  {
    live, freed := s.live, s.freed;
    var front := s.front;
    while front.Some?
      invariant |s.freed| <= |freed| <= s.count && forall i :: 0 <= i < |freed| ==> freed[i] == i
      invariant forall i :: i in live <==> |freed| <= i < s.count
      invariant forall i :: i in live ==> live[i] == s.live[i]
      invariant front == if |freed| < s.count then Some(|freed|) else None
      decreases s.count - |freed|
    {
      var oldFront := front.value;
      assert oldFront in live && oldFront in s.live;
      front := live[oldFront].next;
      live := live - {oldFront};
      freed := freed + [oldFront];
    }
    assert live.Keys == {};
  }
}
