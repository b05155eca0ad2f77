/**
The lock-free stack (src/cols/stack.c) under arbitrary interleaving.

Every atomic access of the C code is one action of one thread, so a run of the
program is a sequence of actions.  Nodes are never unmapped: after a pop the
popping thread owns the node, may overwrite its link, may hand it to another
thread, and may push it again.  The counter in the head pair is unbounded; the
element count wraps like a 64-bit size_t.
*/
module LockFreeStack {
  import opened Options

  type Node = nat
  type Thread = nat

  const WORD := 0x1_0000_0000_0000_0000

  datatype Head = Head(aba: nat, node: Option<Node>)

  /** Where a thread stands inside ft_stack_push or ft_stack_pop. */
  datatype Control =
    | Idle
    | PushLoad(node: Node)
    | PushLink(node: Node, orig: Head)
    | PushSwap(node: Node, orig: Head)
    | PushCount(node: Node)
    | PushReturn
    | PopLoad
    | PopRead(orig: Head)
    | PopSwap(orig: Head, next: Option<Node>)
    | PopCount(node: Node)
    | PopReturn(result: Option<Node>)

  /** Shared memory, the nodes each thread owns, and the threads. */
  datatype State = State(
    head: Head,
    size: nat,
    next: map<Node, Option<Node>>,
    owner: map<Node, Thread>,
    pc: map<Thread, Control>)

  const INITIAL := State(Head(0, None), 0, map[], map[], map[])

  datatype Action =
    | Spawn(t: Thread)
    | Alloc(t: Thread, node: Node, junk: Option<Node>)
    | Scribble(t: Thread, node: Node, junk: Option<Node>)
    | Give(t: Thread, node: Node, receiver: Thread)
    | CallPush(t: Thread, node: Node)
    | CallPop(t: Thread)
    | Load(t: Thread)
    | Link(t: Thread)
    | Read(t: Thread)
    | Swap(t: Thread, spurious: bool)
    | Count(t: Thread)
    | Return(t: Thread)

  predicate Owns(s: State, t: Thread, n: Node) {
    n in s.next && n in s.owner && s.owner[n] == t
  }

  /** The actions thread a.t can take next. */
  predicate Enabled(s: State, a: Action) {
    if a.Spawn? then a.t !in s.pc else
    && a.t in s.pc
    && var pc := s.pc[a.t];
       match a
       case Alloc(_, n, _) => pc.Idle? && n !in s.next
       case Scribble(t, n, _) => pc.Idle? && Owns(s, t, n)
       case Give(t, n, u) => pc.Idle? && Owns(s, t, n) && u in s.pc
       case CallPush(t, n) => pc.Idle? && Owns(s, t, n)
       case CallPop(_) => pc.Idle?
       case Load(_) => pc.PushLoad? || pc.PopLoad?
       case Link(_) => pc.PushLink?
       case Read(_) => pc.PopRead? && (pc.orig.node.Some? ==> pc.orig.node.value in s.next)
       case Swap(_, _) => pc.PushSwap? || (pc.PopSwap? && pc.orig.node.Some?)
       case Count(_) => pc.PushCount? || pc.PopCount?
       case Return(_) => pc.PushReturn? || pc.PopReturn?
  }

  /** A weak compare-exchange that succeeds. */
  predicate Succeeds(s: State, a: Action)
    requires Enabled(s, a)
  {
    a.Swap? && !a.spurious && s.pc[a.t].orig == s.head
  }

  function At(s: State, t: Thread, pc: Control): State {
    s.(pc := s.pc[t := pc])
  }

  function Apply(s: State, a: Action): State
    requires Enabled(s, a)
  {
    match a
    case Spawn(t) => At(s, t, Idle)
    case Alloc(t, n, junk) => s.(next := s.next[n := junk], owner := s.owner[n := t])
    case Scribble(_, n, junk) => s.(next := s.next[n := junk])
    case Give(_, n, u) => s.(owner := s.owner[n := u])
    case CallPush(t, n) => At(s, t, PushLoad(n))
    case CallPop(t) => At(s, t, PopLoad)
    case Load(t) =>
      At(s, t, if s.pc[t].PushLoad? then PushLink(s.pc[t].node, s.head) else PopRead(s.head))
    case Link(t) =>
      var PushLink(n, orig) := s.pc[t];
      At(s.(next := s.next[n := orig.node]), t, PushSwap(n, orig))
    case Read(t) =>
      var orig := s.pc[t].orig;
      At(s, t, if orig.node.None? then PopReturn(None) else PopSwap(orig, s.next[orig.node.value]))
    case Swap(t, _) => ApplySwap(s, t, Succeeds(s, a))
    case Count(t) =>
      if s.pc[t].PushCount? then At(s.(size := (s.size + 1) % WORD), t, PushReturn)
      else At(s.(size := (s.size + WORD - 1) % WORD), t, PopReturn(Some(s.pc[t].node)))
    case Return(t) => At(s, t, Idle)
  }

  function ApplySwap(s: State, t: Thread, success: bool): State
    requires t in s.pc
    requires s.pc[t].PushSwap? || (s.pc[t].PopSwap? && s.pc[t].orig.node.Some?)
  {
    match s.pc[t]
    case PushSwap(n, orig) =>
      if success then
        At(s.(head := Head(orig.aba + 1, Some(n)), owner := s.owner - {n}), t, PushCount(n))
      else
        At(s, t, PushLink(n, s.head))
    case PopSwap(orig, next) =>
      var n := orig.node.value;
      if success then
        At(s.(head := Head(orig.aba + 1, next), owner := s.owner[n := t]), t, PopCount(n))
      else
        At(s, t, PopRead(s.head))
  }

  /** A run: states[0] is the initial state and acts[i] leads from states[i] to states[i + 1]. */
  predicate IsRun(states: seq<State>, acts: seq<Action>) {
    && |states| == |acts| + 1
    && states[0] == INITIAL
    && forall i :: 0 <= i < |acts| ==> Enabled(states[i], acts[i]) && states[i + 1] == Apply(states[i], acts[i])
  }

  // ---------------------------------------------------------------------------
  // The sequential stack the concurrent one has to look like
  // ---------------------------------------------------------------------------

  datatype Op = Push(node: Node) | Pop

  datatype Event =
    | Call(t: Thread, op: Op)
    | Takes(t: Thread, op: Op, result: Option<Node>)  // the moment the operation takes effect
    | Reply(t: Thread, result: Option<Node>)

  /** What action a shows of the operations: their calls, the single instant each takes effect, their replies. */
  function Events(s: State, a: Action): seq<Event>
    requires Enabled(s, a)
  {
    match a
    case CallPush(t, n) => [Call(t, Push(n))]
    case CallPop(t) => [Call(t, Pop)]
    case Load(t) => if s.pc[t].PopLoad? && s.head.node.None? then [Takes(t, Pop, None)] else []
    case Swap(t, _) =>
      if s.pc[t].PushSwap? then
        if Succeeds(s, a) then [Takes(t, Push(s.pc[t].node), None)] else []
      else if Succeeds(s, a) then [Takes(t, Pop, s.pc[t].orig.node)]
      else if s.head.node.None? then [Takes(t, Pop, None)] else []
    case Return(t) => [Reply(t, if s.pc[t].PushReturn? then None else s.pc[t].result)]
    case _ => []
  }

  /** The events of the first k actions. */
  function History(states: seq<State>, acts: seq<Action>, k: nat): seq<Event>
    requires IsRun(states, acts) && k <= |acts|
  {
    if k == 0 then [] else History(states, acts, k - 1) + Events(states[k - 1], acts[k - 1])
  }

  /** The sequential specification; None when a result is not what a stack would give. */
  function Specified(stack: Option<seq<Node>>, e: Event): Option<seq<Node>> {
    if stack.None? || !e.Takes? then stack else
    var c := stack.value;
    match e.op
    case Push(n) => if n in c then None else Some([n] + c)
    case Pop =>
      if c == [] then (if e.result == None then Some([]) else None)
      else if e.result == Some(c[0]) then Some(c[1..]) else None
  }

  function Replay(h: seq<Event>): Option<seq<Node>> {
    if h == [] then Some([]) else Specified(Replay(h[..|h| - 1]), h[|h| - 1])
  }

  /** The life of one thread as its callers see it. */
  datatype View =
    | Outside
    | Called(op: Op)
    | Took(result: Option<Node>)
    | Broken

  function Follow(v: View, t: Thread, e: Event): View {
    if e.t != t then v else
    match e
    case Call(_, op) => if v == Outside then Called(op) else Broken
    case Takes(_, op, r) => if v == Called(op) then Took(r) else Broken
    case Reply(_, r) => if v == Took(r) then Outside else Broken
  }

  function ViewOf(h: seq<Event>, t: Thread): View {
    if h == [] then Outside else Follow(ViewOf(h[..|h| - 1], t), t, h[|h| - 1])
  }

  /** Where a thread is in its current operation, read off its control point. */
  function ViewAt(s: State, t: Thread): View {
    if t !in s.pc then Outside else
    match s.pc[t]
    case Idle => Outside
    case PushLoad(n) => Called(Push(n))
    case PushLink(n, _) => Called(Push(n))
    case PushSwap(n, _) => Called(Push(n))
    case PushCount(_) => Took(None)
    case PushReturn => Took(None)
    case PopLoad => Called(Pop)
    case PopRead(orig) => if orig.node.None? then Took(None) else Called(Pop)
    case PopSwap(_, _) => Called(Pop)
    case PopCount(n) => Took(Some(n))
    case PopReturn(r) => Took(r)
  }

  // ---------------------------------------------------------------------------
  // The invariant
  // ---------------------------------------------------------------------------

  function Follower(c: seq<Node>, i: nat): Option<Node> {
    if i + 1 < |c| then Some(c[i + 1]) else None
  }

  /** c is the chain of nodes reached from start, without repetition, ending in NULL. */
  ghost predicate IsChain(next: map<Node, Option<Node>>, start: Option<Node>, c: seq<Node>) {
    && start == (if c == [] then None else Some(c[0]))
    && (forall i :: 0 <= i < |c| ==> c[i] in next)
    && (forall i :: 0 <= i < |c| ==> next[c[i]] == Follower(c, i))
    && (forall i, j :: 0 <= i < j < |c| ==> c[i] != c[j])
  }

  /** A node is either in the chain or owned by one thread. */
  ghost predicate Partitioned(s: State, c: seq<Node>) {
    && (forall n :: n in s.next <==> (n in c || n in s.owner))
    && (forall n :: n in c ==> n !in s.owner)
  }

  /** A remembered head is older than the head, or is the head. */
  predicate Remembers(s: State, orig: Head) {
    && (orig.node.Some? ==> orig.node.value in s.next)
    && orig.aba <= s.head.aba
    && (orig.aba == s.head.aba ==> orig == s.head)
  }

  /** What each control point relies on. */
  predicate PcOk(s: State, t: Thread)
    requires t in s.pc
  {
    match s.pc[t]
    case PushLoad(n) => Owns(s, t, n)
    case PushLink(n, orig) => Owns(s, t, n) && Remembers(s, orig)
    case PushSwap(n, orig) => Owns(s, t, n) && Remembers(s, orig) && s.next[n] == orig.node
    case PopRead(orig) => Remembers(s, orig)
    case PopSwap(orig, next) =>
      && Remembers(s, orig)
      && orig.node.Some?
      && (orig.aba == s.head.aba ==> s.next[orig.node.value] == next)
    case _ => true
  }

  ghost predicate Inv(s: State, c: seq<Node>) {
    && IsChain(s.next, s.head.node, c)
    && Partitioned(s, c)
    && (forall t :: t in s.pc ==> PcOk(s, t))
  }

  /** What one action does to the chain. */
  ghost function Effect(s: State, a: Action, c: seq<Node>): seq<Node>
    requires Enabled(s, a)
  {
    if !Succeeds(s, a) then c
    else if s.pc[a.t].PushSwap? then [s.pc[a.t].node] + c
    else if c == [] then [] else c[1..]
  }

  /** The chain changes only at a successful compare-exchange, by exactly that push or pop. */
  lemma StepKeepsInv(s: State, a: Action, c: seq<Node>)
    requires Inv(s, c) && Enabled(s, a)
    ensures Inv(Apply(s, a), Effect(s, a, c))
  {
    if Succeeds(s, a) {
      SwapKeepsInv(s, a, c);
    } else {
      LinksOutsideChain(s, a, c);
      OthersKeepPartition(s, a, c);
      forall t | t in Apply(s, a).pc ensures PcOk(Apply(s, a), t) {
        OthersKeepPc(s, a, c, t);
      }
    }
  }

  lemma OthersKeepPartition(s: State, a: Action, c: seq<Node>)
    requires Inv(s, c) && Enabled(s, a) && !Succeeds(s, a)
    ensures Partitioned(Apply(s, a), c)
  {
    if a.t in s.pc { assert PcOk(s, a.t); }
  }

  lemma OthersKeepPc(s: State, a: Action, c: seq<Node>, t: Thread)
    requires Inv(s, c) && Enabled(s, a) && !Succeeds(s, a)
    requires t in Apply(s, a).pc
    ensures PcOk(Apply(s, a), t)
  {
    hide Inv, Enabled, Apply, Succeeds, PcOk;
    if t == a.t { OwnPc(s, a, c); } else { BystanderPc(s, a, c, t); }
  }

  lemma OwnPc(s: State, a: Action, c: seq<Node>)
    requires Inv(s, c) && Enabled(s, a) && !Succeeds(s, a)
    requires a.t in Apply(s, a).pc
    ensures PcOk(Apply(s, a), a.t)
  {
    hide Partitioned;
    if a.t in s.pc { assert PcOk(s, a.t); }
    HeadIsKnown(s, c);
  }

  lemma HeadIsKnown(s: State, c: seq<Node>)
    requires Inv(s, c)
    ensures s.head.node.Some? ==> s.head.node.value in s.next && s.head.node.value !in s.owner
  {
    if c != [] { assert c[0] in c; }
  }

  lemma BystanderPc(s: State, a: Action, c: seq<Node>, t: Thread)
    requires Inv(s, c) && Enabled(s, a) && !Succeeds(s, a)
    requires t in Apply(s, a).pc && t != a.t
    ensures PcOk(Apply(s, a), t)
  {
    hide Inv, Enabled, Succeeds, Apply;
    BystanderSees(s, a, c, t);
    BystanderWasOk(s, c, t);
    HeadIsKnown(s, c);
    OwnersAreKnown(s, c);
  }

  lemma BystanderWasOk(s: State, c: seq<Node>, t: Thread)
    requires Inv(s, c) && t in s.pc
    ensures PcOk(s, t)
  {
  }

  /** What a step leaves alone: other threads, their nodes, and the nodes nobody owns. */
  lemma BystanderSees(s: State, a: Action, c: seq<Node>, t: Thread)
    requires Inv(s, c) && Enabled(s, a) && !Succeeds(s, a)
    requires t in Apply(s, a).pc && t != a.t
    ensures var s' := Apply(s, a);
            && t in s.pc && s'.pc[t] == s.pc[t] && s'.head == s.head
            && (forall n :: n in s.next ==> n in s'.next)
            && (forall n :: n in s.next && (n !in s.owner || s.owner[n] == t) ==> s'.next[n] == s.next[n])
            && (forall n :: n in s.owner && s.owner[n] == t ==> n in s'.owner && s'.owner[n] == t)
  {
    hide Partitioned, IsChain;
    if a.t in s.pc { assert PcOk(s, a.t); }
    OwnersAreKnown(s, c);
  }

  lemma OwnersAreKnown(s: State, c: seq<Node>)
    requires Inv(s, c)
    ensures forall n :: n in s.owner ==> n in s.next
  {
  }

  /** Only an owner writes a link, and an owned node is not in the chain. */
  lemma LinksOutsideChain(s: State, a: Action, c: seq<Node>)
    requires Inv(s, c) && Enabled(s, a) && !Succeeds(s, a)
    ensures IsChain(Apply(s, a).next, Apply(s, a).head.node, c)
  {
    var s' := Apply(s, a);
    if a.t in s.pc { assert PcOk(s, a.t); }
    forall i | 0 <= i < |c| ensures c[i] in s'.next && s'.next[c[i]] == s.next[c[i]] {
      assert c[i] in c;
    }
  }

  lemma SwapKeepsInv(s: State, a: Action, c: seq<Node>)
    requires Inv(s, c) && Enabled(s, a) && a.Swap? && Succeeds(s, a)
    ensures Inv(Apply(s, a), Effect(s, a, c))
  {
    hide PcOk, IsChain, Partitioned, Apply, Effect, Succeeds;
    SwapChain(s, a, c);
    SwapPartition(s, a, c);
    forall t | t in Apply(s, a).pc ensures PcOk(Apply(s, a), t) {
      SwapPc(s, a, c, t);
    }
  }

  lemma SwapChain(s: State, a: Action, c: seq<Node>)
    requires Inv(s, c) && Enabled(s, a) && a.Swap? && Succeeds(s, a)
    ensures IsChain(Apply(s, a).next, Apply(s, a).head.node, Effect(s, a, c))
  {
    assert PcOk(s, a.t);
    if s.pc[a.t].PopSwap? {
      assert s.next[c[0]] == Follower(c, 0);
      TailIsChain(s.next, c);
    }
  }

  lemma SwapPartition(s: State, a: Action, c: seq<Node>)
    requires Inv(s, c) && Enabled(s, a) && a.Swap? && Succeeds(s, a)
    ensures Partitioned(Apply(s, a), Effect(s, a, c))
  {
    hide IsChain, Partitioned;
    var s' := Apply(s, a);
    assert PcOk(s, a.t);
    if s.pc[a.t].PopSwap? {
      PoppedIsTop(s, a.t, c);
      assert s'.owner == s.owner[c[0] := a.t];
      TopLeaves(s, s', c, a.t);
    } else {
      assert s'.owner == s.owner - {s.pc[a.t].node};
      NodeArrives(s, s', c, s.pc[a.t].node);
    }
  }

  /** An owned node that is given up joins the chain. */
  lemma NodeArrives(s: State, s': State, c: seq<Node>, n: Node)
    requires Partitioned(s, c) && n in s.owner && s'.next == s.next && s'.owner == s.owner - {n}
    ensures Partitioned(s', [n] + c)
  {
  }

  /** The first node of the chain is taken by a thread. */
  lemma TopLeaves(s: State, s': State, c: seq<Node>, t: Thread)
    requires Partitioned(s, c) && c != [] && (forall i :: 1 <= i < |c| ==> c[i] != c[0])
    requires s'.next == s.next && s'.owner == s.owner[c[0] := t]
    ensures Partitioned(s', c[1..])
  {
    assert c == [c[0]] + c[1..];
  }

  lemma SwapPc(s: State, a: Action, c: seq<Node>, t: Thread)
    requires Inv(s, c) && Enabled(s, a) && a.Swap? && Succeeds(s, a) && t in Apply(s, a).pc
    ensures PcOk(Apply(s, a), t)
  {
    hide IsChain;
    assert PcOk(s, a.t);
    if t != a.t { assert PcOk(s, t); }
    if s.pc[a.t].PopSwap? { PoppedIsTop(s, a.t, c); }
  }

  lemma PoppedIsTop(s: State, t: Thread, c: seq<Node>)
    requires Inv(s, c) && t in s.pc && s.pc[t].PopSwap? && s.pc[t].orig == s.head
    ensures c != [] && s.head.node == Some(c[0]) && c[0] in c
    ensures forall i :: 1 <= i < |c| ==> c[i] != c[0]
  {
    assert PcOk(s, t);
  }

  /** A chain is determined by its links, so "the" contents of the stack are well defined. */
  lemma {:induction false} ChainIsUnique(next: map<Node, Option<Node>>, start: Option<Node>, c: seq<Node>, d: seq<Node>)
    requires IsChain(next, start, c) && IsChain(next, start, d)
    ensures c == d
    decreases |c|
  {
    if c != [] {
      TailIsChain(next, c);
      TailIsChain(next, d);
      ChainIsUnique(next, next[c[0]], c[1..], d[1..]);
      assert c == [c[0]] + c[1..] && d == [d[0]] + d[1..];
    }
  }

  lemma TailIsChain(next: map<Node, Option<Node>>, c: seq<Node>)
    requires c != [] && IsChain(next, Some(c[0]), c)
    ensures IsChain(next, next[c[0]], c[1..])
  {
    assert next[c[0]] == Follower(c, 0);
    forall i | 0 <= i < |c[1..]| ensures next[c[1..][i]] == Follower(c[1..], i) {
      assert next[c[i + 1]] == Follower(c, i + 1);
    }
  }

  // ---------------------------------------------------------------------------
  // Linearizability
  // ---------------------------------------------------------------------------

  lemma ReplayExtend(h: seq<Event>, more: seq<Event>, t: Thread)
    requires |more| <= 1
    ensures Replay(h + more) == if more == [] then Replay(h) else Specified(Replay(h), more[0])
    ensures ViewOf(h + more, t) == if more == [] then ViewOf(h, t) else Follow(ViewOf(h, t), t, more[0])
  {
    if more == [] {
      assert h + more == h;
    } else {
      assert (h + more)[..|h + more| - 1] == h;
    }
  }

  /** The specification takes the same step as the chain, at the event of the action. */
  lemma TakesEffect(s: State, a: Action, c: seq<Node>)
    requires Inv(s, c) && Enabled(s, a)
    ensures |Events(s, a)| <= 1
    ensures Some(Effect(s, a, c)) == if Events(s, a) == [] then Some(c) else Specified(Some(c), Events(s, a)[0])
  {
    hide IsChain, Partitioned;
    HeadIsTop(s, c);
    if Succeeds(s, a) {
      assert PcOk(s, a.t);
      if s.pc[a.t].PopSwap? {
        PoppedIsTop(s, a.t, c);
      } else {
        OwnedIsOutside(s, a.t, c, s.pc[a.t].node);
      }
    }
  }

  lemma OwnedIsOutside(s: State, t: Thread, c: seq<Node>, n: Node)
    requires Inv(s, c) && Owns(s, t, n)
    ensures n !in c
  {
  }

  /** Each thread's control point moves as its events say. */
  lemma ViewFollows(s: State, a: Action, t: Thread)
    requires Enabled(s, a) && (a.t in s.pc ==> PcOk(s, a.t))
    ensures |Events(s, a)| <= 1
    ensures ViewAt(Apply(s, a), t) == if Events(s, a) == [] then ViewAt(s, t)
        else Follow(ViewAt(s, t), t, Events(s, a)[0])
  {
  }

  /**
  Linearizability.  In every run the chain from the head is acyclic and holds
  exactly what a sequential stack holds after the operations took effect in
  order; and every thread's operations take effect once, between call and reply,
  with the result they reply.
  */
  lemma {:induction false} Linearizable(states: seq<State>, acts: seq<Action>, k: nat)
    requires IsRun(states, acts) && k <= |acts|
    ensures Replay(History(states, acts, k)).Some?
    ensures Inv(states[k], Replay(History(states, acts, k)).value)
    ensures forall t :: ViewOf(History(states, acts, k), t) == ViewAt(states[k], t)
  {
    if k != 0 {
      Linearizable(states, acts, k - 1);
      var s, a, h := states[k - 1], acts[k - 1], History(states, acts, k - 1);
      var c := Replay(h).value;
      StepKeepsInv(s, a, c);
      TakesEffect(s, a, c);
      ReplayExtend(h, Events(s, a), a.t);
      forall t ensures ViewOf(h + Events(s, a), t) == ViewAt(states[k], t) {
        ViewFollows(s, a, t);
        ReplayExtend(h, Events(s, a), t);
      }
    }
  }

  // ---------------------------------------------------------------------------
  // The counter and re-used nodes
  // ---------------------------------------------------------------------------

  /** Actions that set the head thread t remembers. */
  predicate Remembered(a: Action, t: Thread) {
    (a.Load? || a.Swap?) && a.t == t
  }

  lemma CounterStep(s: State, a: Action)
    requires Enabled(s, a)
    ensures if Succeeds(s, a) then Apply(s, a).head.aba == s.head.aba + 1 else Apply(s, a).head == s.head
  {
  }

  /** The counter never decreases, and stays the same only while the head does. */
  lemma CounterGrows(states: seq<State>, acts: seq<Action>, i: nat, j: nat)
    requires IsRun(states, acts) && i <= j <= |acts|
    ensures states[i].head.aba <= states[j].head.aba
    ensures states[i].head.aba == states[j].head.aba ==> states[i].head == states[j].head
    decreases j - i
  {
    if i < j {
      CounterGrows(states, acts, i + 1, j);
      CounterStep(states[i], acts[i]);
    }
  }

  predicate HoldsOrig(pc: Control) {
    pc.PushLink? || pc.PushSwap? || pc.PopRead? || pc.PopSwap?
  }

  lemma OrigStep(s: State, a: Action, t: Thread)
    requires Enabled(s, a) && t in s.pc
    ensures t in Apply(s, a).pc
    ensures var pc' := Apply(s, a).pc[t];
            HoldsOrig(pc') ==>
              if Remembered(a, t) then pc'.orig == s.head else HoldsOrig(s.pc[t]) && pc'.orig == s.pc[t].orig
  {
  }

  /** Between loads, a thread keeps the head it loaded. */
  lemma KeepsOrig(states: seq<State>, acts: seq<Action>, i: nat, j: nat, t: Thread)
    requires IsRun(states, acts) && i < j <= |acts| && Remembered(acts[i], t)
    requires forall k :: i < k < j ==> !Remembered(acts[k], t)
    ensures t in states[j].pc
    ensures HoldsOrig(states[j].pc[t]) ==> states[j].pc[t].orig == states[i].head
    decreases j
  {
    if i + 1 < j {
      KeepsOrig(states, acts, i, j - 1, t);
    }
    OrigStep(states[j - 1], acts[j - 1], t);
  }

  /**
  A compare-exchange succeeds only if no other one succeeded since the thread
  loaded the head it compares with: between load i and swap j the head never
  changes, so no node can be popped and pushed back unnoticed.
  */
  lemma NoSwapInBetween(states: seq<State>, acts: seq<Action>, i: nat, j: nat, k: nat, t: Thread)
    requires IsRun(states, acts) && i <= k < j < |acts|
    requires Remembered(acts[i], t)
    requires forall m :: i < m < j ==> !Remembered(acts[m], t)
    requires acts[j].t == t && Succeeds(states[j], acts[j])
    requires i < k
    ensures !Succeeds(states[k], acts[k])
    ensures states[k].head == states[j].head
  {
    KeepsOrig(states, acts, i, j, t);
    CounterGrows(states, acts, i, k);
    CounterGrows(states, acts, k, j);
    CounterGrows(states, acts, k + 1, j);
    CounterStep(states[k], acts[k]);
  }

  /**
  When a pop's compare-exchange can succeed, the link it read earlier is the current one: the
  chain loses its top.
  */
  lemma PopReadIsCurrent(states: seq<State>, acts: seq<Action>, k: nat, t: Thread)
    requires IsRun(states, acts) && k <= |acts|
    requires t in states[k].pc && states[k].pc[t].PopSwap? && states[k].pc[t].orig == states[k].head
    ensures Replay(History(states, acts, k)).Some?
    ensures var c := Replay(History(states, acts, k)).value;
            && c != []
            && states[k].pc[t].orig.node == Some(c[0])
            && states[k].pc[t].next == (if |c| == 1 then None else Some(c[1]))
  {
    Linearizable(states, acts, k);
    ReadLinkIsTop(states[k], t, Replay(History(states, acts, k)).value);
  }

  lemma ReadLinkIsTop(s: State, t: Thread, c: seq<Node>)
    requires Inv(s, c) && t in s.pc && s.pc[t].PopSwap? && s.pc[t].orig == s.head
    ensures c != [] && s.head.node == Some(c[0]) && s.pc[t].next == (if |c| == 1 then None else Some(c[1]))
  {
    assert PcOk(s, t);
    assert s.next[c[0]] == Follower(c, 0);
  }

  // ---------------------------------------------------------------------------
  // Progress
  // ---------------------------------------------------------------------------

  /** Some compare-exchange between actions i and j has changed the head. */
  ghost predicate Overtaken(states: seq<State>, i: nat, j: nat)
    requires i <= j < |states|
  {
    exists k :: i < k < j && states[k].head != states[k + 1].head
  }

  /** As long as the head does not change it is the same. */
  lemma HeadStays(states: seq<State>, acts: seq<Action>, i: nat, j: nat)
    requires IsRun(states, acts) && i < j <= |acts| && !Overtaken(states, i, j)
    ensures states[i + 1].head == states[j].head
    decreases j
  {
    if i + 1 < j {
      assert forall k :: i < k < j - 1 ==> states[k].head == states[k + 1].head;
      HeadStays(states, acts, i, j - 1);
      assert states[j - 1].head == states[j].head;
    }
  }

  /** A load leaves the head alone; so does a compare-exchange that has failed. */
  lemma LoadStays(s: State, a: Action, t: Thread)
    requires Enabled(s, a) && Remembered(a, t) && HoldsOrig(Apply(s, a).pc[t])
    ensures Apply(s, a).head == s.head
  {
  }

  /**
  The stack is lock-free: a compare-exchange that does not fail spuriously either changes the
  head, and its thread goes on to count, or since its thread loaded the head another one has.
  */
  lemma LockFree(states: seq<State>, acts: seq<Action>, i: nat, j: nat, t: Thread)
    requires IsRun(states, acts) && i < j < |acts| && Remembered(acts[i], t) && acts[j] == Swap(t, false)
    requires forall k :: i < k < j ==> !Remembered(acts[k], t)
    ensures t in states[j].pc && t in states[j + 1].pc
    ensures Overtaken(states, i, j)
         || (&& states[j + 1].head.aba == states[j].head.aba + 1
             && (states[j].pc[t].PushSwap? ==>
                   && states[j + 1].head.node == Some(states[j].pc[t].node)
                   && states[j + 1].pc[t] == PushCount(states[j].pc[t].node))
             && (states[j].pc[t].PopSwap? ==>
                   && states[j + 1].head.node == states[j].pc[t].next && states[j].head.node.Some?
                   && states[j + 1].pc[t] == PopCount(states[j].head.node.value)))
  {
    KeepsOrig(states, acts, i, j, t);
    StillHolds(states, acts, i, j, t);
    if !Overtaken(states, i, j) {
      HeadStays(states, acts, i, j);
      LoadStays(states[i], acts[i], t);
    }
  }

  lemma StillHolds(states: seq<State>, acts: seq<Action>, i: nat, j: nat, t: Thread)
    requires IsRun(states, acts) && i < j <= |acts| && Remembered(acts[i], t)
    requires forall k :: i < k < j ==> !Remembered(acts[k], t)
    ensures t in states[i + 1].pc && t in states[j].pc
    ensures HoldsOrig(states[j].pc[t]) ==> HoldsOrig(states[i + 1].pc[t])
    decreases j
  {
    if i + 1 < j {
      StillHolds(states, acts, i, j - 1, t);
      OrigStep(states[j - 1], acts[j - 1], t);
    }
  }

  /** The states of actions taken one after the other; None when one of them cannot be taken. */
  function Perform(s: State, acts: seq<Action>): Option<State>
    decreases |acts|
  {
    if acts == [] then Some(s)
    else if !Enabled(s, acts[0]) then None
    else Perform(Apply(s, acts[0]), acts[1..])
  }

  /** Three actions, each of which can be taken. */
  lemma PerformThree(s: State, a: Action, b: Action, c: Action, s1: State, s2: State, s3: State)
    requires Enabled(s, a) && Apply(s, a) == s1 && Enabled(s1, b) && Apply(s1, b) == s2
    requires Enabled(s2, c) && Apply(s2, c) == s3
    ensures Perform(s, [a, b, c]) == Some(s3)
  {
    hide Enabled, Apply;
    assert [a, b, c][1..] == [b, c] && [b, c][1..] == [c] && [c][1..] == [];
    assert Perform(s3, []) == Some(s3);
    assert Perform(s2, [c]) == Some(s3);
    assert Perform(s1, [b, c]) == Some(s3);
  }

  lemma {:induction false} PerformConcat(s: State, a: seq<Action>, b: seq<Action>)
    ensures Perform(s, a + b) == if Perform(s, a).None? then None else Perform(Perform(s, a).value, b)
    decreases |a|
  {
    hide Enabled, Apply;
    if a == [] {
      assert a + b == b;
    } else {
      assert (a + b)[0] == a[0] && (a + b)[1..] == a[1..] + b;
      if Enabled(s, a[0]) { PerformConcat(Apply(s, a[0]), a[1..], b); }
    }
  }

  /** The C code of a push, undisturbed. */
  function PushAlone(t: Thread, n: Node): seq<Action> {
    [CallPush(t, n), Load(t), Link(t)] + [Swap(t, false), Count(t), Return(t)]
  }

  /** The node is linked, and the head remembered. */
  function Linked(s: State, t: Thread, n: Node): State {
    At(s.(next := s.next[n := s.head.node]), t, PushSwap(n, s.head))
  }

  lemma PushLinks(s: State, c: seq<Node>, t: Thread, n: Node)
    requires Inv(s, c) && t in s.pc && s.pc[t].Idle? && Owns(s, t, n)
    ensures Perform(s, [CallPush(t, n), Load(t), Link(t)]) == Some(Linked(s, t, n)) && Inv(Linked(s, t, n), c)
  {
    hide Inv, Perform;
    var s1 := At(s, t, PushLoad(n));
    var s2 := At(s1, t, PushLink(n, s.head));
    StepKeepsInv(s, CallPush(t, n), c);
    StepKeepsInv(s1, Load(t), c);
    StepKeepsInv(s2, Link(t), c);
    assert Apply(s2, Link(t)) == Linked(s, t, n);
    PerformThree(s, CallPush(t, n), Load(t), Link(t), s1, s2, Linked(s, t, n));
  }

  /** A thread that is not disturbed pushes its node in six steps. */
  lemma SoloPush(s: State, c: seq<Node>, t: Thread, n: Node)
    requires Inv(s, c) && t in s.pc && s.pc[t].Idle? && Owns(s, t, n)
    ensures var r := Perform(s, PushAlone(t, n));
            && r.Some? && Inv(r.value, [n] + c) && r.value.pc == s.pc
            && r.value.size == (s.size + 1) % WORD && r.value.head == Head(s.head.aba + 1, Some(n))
  {
    hide Inv, Perform;
    PushLinks(s, c, t, n);
    var s3 := Linked(s, t, n);
    var s4 := At(s3.(head := Head(s.head.aba + 1, Some(n)), owner := s.owner - {n}), t, PushCount(n));
    var s5 := At(s4.(size := (s.size + 1) % WORD), t, PushReturn);
    var s6 := At(s5, t, Idle);
    StepKeepsInv(s3, Swap(t, false), c);
    StepKeepsInv(s4, Count(t), [n] + c);
    StepKeepsInv(s5, Return(t), [n] + c);
    PerformThree(s3, Swap(t, false), Count(t), Return(t), s4, s5, s6);
    PerformConcat(s, [CallPush(t, n), Load(t), Link(t)], [Swap(t, false), Count(t), Return(t)]);
    assert s6.pc == s.pc;
  }

  /** The C code of a pop, undisturbed; it ends with the read of an empty stack's head. */
  function PopAlone(t: Thread, empty: bool): seq<Action> {
    [CallPop(t), Load(t), Read(t)] + if empty then [] else [Swap(t, false), Count(t), Return(t)]
  }

  /** The head is remembered, and what is behind it. */
  function ReadTop(s: State, t: Thread, c: seq<Node>): State {
    At(s, t, if c == [] then PopReturn(None) else PopSwap(s.head, if |c| == 1 then None else Some(c[1])))
  }

  lemma PopReads(s: State, c: seq<Node>, t: Thread)
    requires Inv(s, c) && t in s.pc && s.pc[t].Idle?
    ensures Perform(s, [CallPop(t), Load(t), Read(t)]) == Some(ReadTop(s, t, c)) && Inv(ReadTop(s, t, c), c)
  {
    hide Inv, Perform;
    HeadIsTop(s, c);
    var s1 := At(s, t, PopLoad);
    var s2 := At(s1, t, PopRead(s.head));
    StepKeepsInv(s, CallPop(t), c);
    StepKeepsInv(s1, Load(t), c);
    StepKeepsInv(s2, Read(t), c);
    assert Apply(s2, Read(t)) == ReadTop(s, t, c);
    PerformThree(s, CallPop(t), Load(t), Read(t), s1, s2, ReadTop(s, t, c));
  }

  lemma PerformNothing(s: State)
    ensures Perform(s, []) == Some(s)
  {
  }

  /**
  A thread that is not disturbed pops the top node, and owns it; from an empty stack it is about
  to return NULL.
  */
  lemma SoloPop(s: State, c: seq<Node>, t: Thread)
    requires Inv(s, c) && t in s.pc && s.pc[t].Idle?
    ensures var r := Perform(s, PopAlone(t, c == []));
            && r.Some?
            && if c == [] then r.value == At(s, t, PopReturn(None))
               else
                 && Inv(r.value, c[1..]) && r.value.pc == s.pc && Owns(r.value, t, c[0])
                 && r.value.size == (s.size + WORD - 1) % WORD
  {
    hide Inv, Perform;
    HeadIsTop(s, c);
    PopReads(s, c, t);
    var s3 := ReadTop(s, t, c);
    if c == [] {
      PerformNothing(s3);
      PerformConcat(s, [CallPop(t), Load(t), Read(t)], []);
    } else {
      PopSwaps(s, c, t);
      PerformConcat(s, [CallPop(t), Load(t), Read(t)], [Swap(t, false), Count(t), Return(t)]);
    }
  }

  lemma PopSwaps(s: State, c: seq<Node>, t: Thread)
    requires Inv(ReadTop(s, t, c), c) && t in s.pc && s.pc[t].Idle? && c != [] && s.head.node == Some(c[0])
    requires c[0] in s.next
    ensures var r := Perform(ReadTop(s, t, c), [Swap(t, false), Count(t), Return(t)]);
            && r.Some? && Inv(r.value, c[1..]) && r.value.pc == s.pc && Owns(r.value, t, c[0])
            && r.value.size == (s.size + WORD - 1) % WORD
  {
    hide Inv, Perform;
    var s3 := ReadTop(s, t, c);
    var next := s3.pc[t].next;
    var s4 := At(s3.(head := Head(s.head.aba + 1, next), owner := s.owner[c[0] := t]), t, PopCount(c[0]));
    var s5 := At(s4.(size := (s.size + WORD - 1) % WORD), t, PopReturn(Some(c[0])));
    var s6 := At(s5, t, Idle);
    StepKeepsInv(s3, Swap(t, false), c);
    StepKeepsInv(s4, Count(t), c[1..]);
    StepKeepsInv(s5, Return(t), c[1..]);
    PerformThree(s3, Swap(t, false), Count(t), Return(t), s4, s5, s6);
    assert s6.pc == s.pc;
  }

  lemma HeadIsTop(s: State, c: seq<Node>)
    requires Inv(s, c)
    ensures s.head.node == if c == [] then None else Some(c[0])
    ensures c != [] ==> c[0] in s.next && s.next[c[0]] == if |c| == 1 then None else Some(c[1])
  {
    if c != [] { assert s.next[c[0]] == Follower(c, 0); }
  }

  // ---------------------------------------------------------------------------
  // Size accounting
  // ---------------------------------------------------------------------------

  ghost function Pushing(s: State): set<Thread> {
    set t | t in s.pc && s.pc[t].PushCount?
  }

  ghost function Popping(s: State): set<Thread> {
    set t | t in s.pc && s.pc[t].PopCount?
  }

  /** size plus the pushes not yet counted, less the pops not yet counted, is the chain length (modulo the word). */
  ghost predicate Accounted(s: State, length: nat) {
    s.size < WORD && Congruent(s.size, length - |Pushing(s)| + |Popping(s)|)
  }

  function Words(k: int): int { k * WORD }

  ghost predicate Congruent(x: int, y: int) {
    exists k :: x - y == Words(k)
  }

  lemma CongruentStep(x: nat, y: int)
    requires Congruent(x, y) && x < WORD
    ensures Congruent((x + 1) % WORD, y + 1)
    ensures Congruent((x + WORD - 1) % WORD, y - 1)
  {
    var k :| x - y == Words(k);
    if x + 1 == WORD {
      assert 0 - (y + 1) == Words(k - 1);
    } else {
      assert x + 1 - (y + 1) == Words(k);
    }
    if x == 0 {
      assert WORD - 1 - (y - 1) == Words(k + 1);
    } else {
      assert x - 1 - (y - 1) == Words(k);
    }
  }

  lemma CongruentSmall(x: nat, y: nat)
    requires Congruent(x, y) && x < WORD
    ensures x == y <==> y < WORD
  {
    var k :| x - y == Words(k);
  }

  /** How one action changes who still has to count. */
  lemma CountsStep(s: State, a: Action)
    requires Enabled(s, a)
    ensures var s' := Apply(s, a);
            && Pushing(s') == (if Succeeds(s, a) && s.pc[a.t].PushSwap? then Pushing(s) + {a.t}
                               else if a.Count? then Pushing(s) - {a.t} else Pushing(s))
            && Popping(s') == (if Succeeds(s, a) && s.pc[a.t].PopSwap? then Popping(s) + {a.t}
                               else if a.Count? then Popping(s) - {a.t} else Popping(s))
  {
  }

  lemma CountsSwap(s: State, a: Action, c: seq<Node>)
    requires Inv(s, c) && Enabled(s, a)
    ensures !a.Count? ==> Apply(s, a).size == s.size
    ensures Succeeds(s, a) ==> a.t !in Pushing(s) && a.t !in Popping(s)
    ensures |Effect(s, a, c)| == |c| + if !Succeeds(s, a) then 0 else if s.pc[a.t].PushSwap? then 1 else -1
  {
    if a.t in s.pc { assert PcOk(s, a.t); }
  }

  lemma StepKeepsAccount(s: State, a: Action, c: seq<Node>)
    requires Inv(s, c) && Enabled(s, a) && Accounted(s, |c|)
    ensures Accounted(Apply(s, a), |Effect(s, a, c)|)
  {
    hide Inv, Pushing, Popping, Effect, Succeeds, Congruent, Apply;
    var s', y := Apply(s, a), |c| - |Pushing(s)| + |Popping(s)|;
    CongruentStep(s.size, y);
    PendingStep(s, a, c);
    if a.Count? { CountedSize(s, a); }
    assert s'.size < WORD && Congruent(s'.size, |Effect(s, a, c)| - |Pushing(s')| + |Popping(s')|) by {
      if a.Count? && s.pc[a.t].PushCount? {
        assert s'.size == (s.size + 1) % WORD;
      } else if a.Count? {
        assert s'.size == (s.size + WORD - 1) % WORD;
      } else {
        assert s'.size == s.size;
      }
    }
  }

  lemma CountedSize(s: State, a: Action)
    requires Enabled(s, a) && a.Count?
    ensures Apply(s, a).size == if s.pc[a.t].PushCount? then (s.size + 1) % WORD else (s.size + WORD - 1) % WORD
  {
  }

  /** Chain length minus pending pushes plus pending pops moves only when something is counted. */
  lemma PendingStep(s: State, a: Action, c: seq<Node>)
    requires Inv(s, c) && Enabled(s, a)
    ensures |Effect(s, a, c)| - |Pushing(Apply(s, a))| + |Popping(Apply(s, a))|
         == |c| - |Pushing(s)| + |Popping(s)| + if !a.Count? then 0 else if s.pc[a.t].PushCount? then 1 else -1
    ensures !a.Count? ==> Apply(s, a).size == s.size
  {
    hide Inv, Pushing, Popping, Apply, Effect;
    CountsStep(s, a);
    CountsSwap(s, a, c);
    var pushing, popping := Pushing(s), Popping(s);
    if a.Count? {
      CountsCount(s, a);
      assert a.t !in pushing ==> pushing - {a.t} == pushing;
      assert a.t !in popping ==> popping - {a.t} == popping;
    }
  }

  lemma CountsCount(s: State, a: Action)
    requires Enabled(s, a) && a.Count?
    ensures a.t in Pushing(s) <==> a.t !in Popping(s)
    ensures a.t in Pushing(s) <==> s.pc[a.t].PushCount?
  {
  }

  /** The accounting holds in every reachable state. */
  lemma {:induction false} SizeAccounting(states: seq<State>, acts: seq<Action>, k: nat, c: seq<Node>)
    requires IsRun(states, acts) && k <= |acts|
    requires Inv(states[k], c)
    ensures Accounted(states[k], |c|)
  {
    if k == 0 {
      assert Pushing(INITIAL) == {} && Popping(INITIAL) == {} && c == [];
      assert 0 - 0 == Words(0);
    } else {
      Linearizable(states, acts, k - 1);
      var d := Replay(History(states, acts, k - 1)).value;
      var s, a := states[k - 1], acts[k - 1];
      SizeAccounting(states, acts, k - 1, d);
      StepKeepsAccount(s, a, d);
      StepKeepsInv(s, a, d);
      ChainIsUnique(Apply(s, a).next, Apply(s, a).head.node, Effect(s, a, d), c);
    }
  }

  /** With nothing left to count, ft_stack_size is the number of elements exactly when that number fits the word. */
  lemma QuiescentSizeIsExact(states: seq<State>, acts: seq<Action>, k: nat)
    requires IsRun(states, acts) && k <= |acts|
    requires Pushing(states[k]) == {} && Popping(states[k]) == {}
    ensures Replay(History(states, acts, k)).Some?
    ensures var length := |Replay(History(states, acts, k)).value|;
            states[k].size == length <==> length < WORD
  {
    Linearizable(states, acts, k);
    var c := Replay(History(states, acts, k)).value;
    SizeAccounting(states, acts, k, c);
    CongruentSmall(states[k].size, |c|);
  }

  /**
  Outside quiescence the count can be anything: a pop counted before the push it
  undoes wraps the count of an empty stack to 2^64 - 1.
  */
  lemma SizeCanWrap() returns (states: seq<State>, acts: seq<Action>)
    ensures IsRun(states, acts)
    ensures states[|acts|].head.node == None && states[|acts|].size == WORD - 1
  {
    states, acts := PushUncounted();
    var top, s := Head(1, Some(7)), UNCOUNTED;
    states, acts := Extend(states, acts, CallPop(1), At(s, 1, PopLoad));
    states, acts := Extend(states, acts, Load(1), At(s, 1, PopRead(top)));
    states, acts := Extend(states, acts, Read(1), At(s, 1, PopSwap(top, None)));
    s := At(s.(head := Head(2, None), owner := map[7 := 1]), 1, PopCount(7));
    states, acts := Extend(states, acts, Swap(1, false), s);
    states, acts := Extend(states, acts, Count(1), At(s.(size := WORD - 1), 1, PopReturn(Some(7))));
  }

  const UNCOUNTED := State(Head(1, Some(7)), 0, map[7 := None], map[], map[0 := PushCount(7), 1 := Idle])

  lemma PushUncounted() returns (states: seq<State>, acts: seq<Action>)
    ensures IsRun(states, acts) && states[|acts|] == UNCOUNTED
  {
    states, acts := [INITIAL], [];
    states, acts := Extend(states, acts, Spawn(1), At(INITIAL, 1, Idle));
    var s := INITIAL.(pc := map[0 := Idle, 1 := Idle]);
    states, acts := Extend(states, acts, Spawn(0), s);
    s := s.(next := map[7 := None], owner := map[7 := 0]);
    states, acts := Extend(states, acts, Alloc(0, 7, None), s);
    states, acts := Extend(states, acts, CallPush(0, 7), At(s, 0, PushLoad(7)));
    states, acts := Extend(states, acts, Load(0), At(s, 0, PushLink(7, Head(0, None))));
    states, acts := Extend(states, acts, Link(0), At(s, 0, PushSwap(7, Head(0, None))));
    states, acts := Extend(states, acts, Swap(0, false), UNCOUNTED);
  }

  lemma Extend(states: seq<State>, acts: seq<Action>, a: Action, s: State)
    returns (states': seq<State>, acts': seq<Action>)
    requires IsRun(states, acts) && Enabled(states[|acts|], a) && s == Apply(states[|acts|], a)
    ensures acts' == acts + [a] && states' == states + [s] && IsRun(states', acts')
  {
    acts' := acts + [a];
    states' := states + [s];
  }
}
