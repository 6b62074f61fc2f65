/** Composite executors: trees of sequential, pipe and set executors over leaves that keep the
    contract of an executor, under every interleaving of what the leaves and the runner do. */
module Executors {
  import opened Bytes

  datatype Control = Next | Return

  /** An invocation of onFinish_ or of onError_. */
  datatype Signal = Finish(control: Control) | Error

  datatype Kind = Leaf | Seq | Pipe | Set

  /** An executor tree at run time: starts counts the calls of execute(), and out holds every
      callback the executor has invoked. For a sequence, resp is the position its response
      comes from. For a set, refused says that no space is chosen or input was fed, the queued
      counts are launches still on the runner, and waiting counts the callbacks registered for
      both promises. */
  datatype Node = Node(kind: Kind, kids: seq<Node>, starts: nat, out: seq<Signal>, resp: nat,
                       refused: bool, queuedLeft: nat, queuedRight: nat, waiting: nat)

  /** What can happen next somewhere in the tree. */
  datatype Event =
    | Fire(signal: Signal)
    | LaunchLeft
    | LaunchRight
      /** The set operation, with its own outcome. */
    | Combine(ok: bool)

  function Emit(n: Node, s: Signal): (Node, Option<Signal>) {
    (n.(out := n.out + [s]), Some(s))
  }

  /** How many parts each kind of executor has. */
  predicate Proper(n: Node) {
    match n.kind
    case Leaf => n.kids == []
    case Seq => n.kids != []
    case Pipe => |n.kids| == 2
    case Set => |n.kids| == 2
  }

  // ----- execute() -----

  /** execute(): the new tree and the callback invoked before it returns, if any. */
  function Start(n: Node): (Node, Option<Signal>)
    decreases n, 0
  {
    var n' := n.(starts := n.starts + 1);
    if !Proper(n) then (n', None)
    else
      match n.kind
      case Leaf => (n', None)
      case Seq =>
        var (started, at, s) := RunSeq(n.kids);
        SeqAfter(n'.(kids := started), at, s)
      case Pipe =>
        var (left, s) := Start(n.kids[0]);
        var n'' := n'.(kids := [left, n.kids[1]]);
        (match s
         case None => (n'', None)
         case Some(sig) => OnSide(n'', 0, sig))
      case Set =>
        if n.refused then Emit(n', Error)
        else
          (n'.(queuedLeft := n.queuedLeft + 1, queuedRight := n.queuedRight + 1, waiting := n.waiting + 1), None)
  }

  /** Executes the first of the executors, and the next one as long as one finishes at once:
      the executors, the position reached, and the signal there if it ended the sequence. */
  function RunSeq(kids: seq<Node>): (r: (seq<Node>, nat, Option<Signal>))
    requires kids != []
    decreases kids, 0
  {
    var (kid, s) := Start(kids[0]);
    if s == Some(Finish(Next)) && |kids| > 1 then
      var (others, at, s') := RunSeq(kids[1..]);
      ([kid] + others, at + 1, s')
    else ([kid] + kids[1..], 0, s)
  }

  /** The sequential executor once the executors up to position at have been run. */
  function SeqAfter(n: Node, at: nat, s: Option<Signal>): (Node, Option<Signal>) {
    match s
    case None => (n, None)
    case Some(Error) => Emit(n, Error)
    case Some(Finish(c)) => Emit(n.(resp := at), Finish(c))
  }

  // ----- callbacks -----

  /** Lines 54-82 of SequentialExecutor: executor i has signalled. */
  function OnKid(n: Node, i: nat, s: Signal): (Node, Option<Signal>)
    requires i < |n.kids|
  {
    if s == Finish(Next) && i < |n.kids| - 1 then
      var (others, at, s') := RunSeq(n.kids[i + 1..]);
      SeqAfter(n.(kids := n.kids[..i + 1] + others), i + 1 + at, s')
    else SeqAfter(n, i, Some(s))
  }

  /** Lines 30-48, 60-64 of PipeExecutor. */
  function OnSide(n: Node, i: nat, s: Signal): (Node, Option<Signal>)
    requires |n.kids| == 2
    decreases n.kids[1], 1
  {
    if i == 0 && s.Finish? then
      var (right, s') := Start(n.kids[1]);
      var n' := n.(kids := [n.kids[0], right]);
      if s' == None then (n', None) else Emit(n', s'.value)
    else Emit(n, s)
  }

  /** The callback of part i of n, invoked with s. Lines 56-102 of SetExecutor: a side of a set
      only sets its promise. */
  function Deliver(n: Node, i: nat, s: Signal): (Node, Option<Signal>)
    requires i < |n.kids| && Proper(n)
  {
    match n.kind
    case Seq => OnKid(n, i, s)
    case Pipe => OnSide(n, i, s)
    case _ => (n, None)
  }

  /** An event of the executor itself. A leaf invokes one callback per execute(). */
  function StepHere(n: Node, ev: Event): Option<(Node, Option<Signal>)>
    requires Proper(n)
  {
    match (n.kind, ev)
    case (Leaf, Fire(s)) =>
      if |n.out| < n.starts then Some(Emit(n, s)) else None
    case (Set, LaunchLeft) =>
      if n.queuedLeft == 0 then None
      else Some((n.(kids := [Start(n.kids[0]).0, n.kids[1]], queuedLeft := n.queuedLeft - 1), None))
    case (Set, LaunchRight) =>
      if n.queuedRight == 0 then None
      else Some((n.(kids := [n.kids[0], Start(n.kids[1]).0], queuedRight := n.queuedRight - 1), None))
    case (Set, Combine(ok)) =>
      if n.waiting == 0 || n.kids[0].out == [] || n.kids[1].out == [] then None
      else
        var failed := Error in n.kids[0].out || Error in n.kids[1].out || !ok;
        Some(Emit(n.(waiting := n.waiting - 1), if failed then Error else Finish(Next)))
    case _ => None
  }

  /** The tree after an event at the end of a path, and the callback its root invokes; None
      when the event cannot happen there. */
  function Step(n: Node, path: seq<nat>, ev: Event): Option<(Node, Option<Signal>)>
    decreases path
  {
    if !Proper(n) then None
    else if path == [] then StepHere(n, ev)
    else if path[0] >= |n.kids| then None
    else
      var i := path[0];
      match Step(n.kids[i], path[1..], ev)
      case None => None
      case Some((kid, s)) =>
        var n' := n.(kids := n.kids[i := kid]);
        match s
        case None => Some((n', None))
        case Some(sig) => Some(Deliver(n', i, sig))
  }

  // ----- the invariant -----

  /** Not executed yet, anywhere. */
  ghost predicate Fresh(n: Node) {
    Proper(n) && n.starts == 0 && n.out == [] && n.queuedLeft == n.queuedRight == n.waiting == 0 &&
    forall j :: 0 <= j < |n.kids| ==> Fresh(n.kids[j])
  }

  /** The sequence has come to position cur. */
  ghost predicate SeqAt(kids: seq<Node>, out: seq<Signal>, resp: nat, cur: nat) {
    cur < |kids| && kids[cur].starts == 1 && out == kids[cur].out &&
    (forall j :: 0 <= j < cur ==> kids[j].starts == 1 && kids[j].out == [Finish(Next)]) &&
    (forall j :: cur < j < |kids| ==> Fresh(kids[j])) &&
    (out != [] && out[0] == Finish(Next) ==> cur == |kids| - 1) &&
    (out != [] && out[0].Finish? ==> resp == cur)
  }

  ghost predicate PipeAt(left: Node, right: Node, out: seq<Signal>) {
    left.starts == 1 &&
    if left.out != [] && left.out[0].Finish? then right.starts == 1 && out == right.out
    else Fresh(right) && out == left.out
  }

  ghost predicate SetAt(n: Node, left: Node, right: Node) {
    if n.refused then
      Fresh(left) && Fresh(right) && n.queuedLeft == n.queuedRight == n.waiting == 0 && n.out == [Error]
    else
      n.queuedLeft + left.starts == 1 && n.queuedRight + right.starts == 1 &&
      n.waiting + |n.out| == 1 &&
      (n.out != [] ==> left.out != [] && right.out != []) &&
      (n.out != [] && n.out[0] == Finish(Next) ==> Error !in left.out && Error !in right.out) &&
      (n.out != [] ==> n.out[0] != Finish(Return))
  }

  /** How the parts of an executed executor stand. */
  ghost predicate PartsAt(n: Node)
    requires Proper(n)
  {
    match n.kind
    case Leaf => true
    case Seq => exists cur :: SeqAt(n.kids, n.out, n.resp, cur)
    case Pipe => PipeAt(n.kids[0], n.kids[1], n.out)
    case Set => SetAt(n, n.kids[0], n.kids[1])
  }

  /** What every reachable tree looks like. */
  ghost predicate Inv(n: Node) {
    if n.starts == 0 then Fresh(n)
    else
      Proper(n) && n.starts == 1 && |n.out| <= 1 && PartsAt(n) &&
      forall j :: 0 <= j < |n.kids| ==> Inv(n.kids[j])
  }

  lemma FreshInv(n: Node)
    requires Fresh(n)
    ensures Inv(n)
  {
  }

  // ----- how much can still happen -----

  /** An upper bound of the events still to come: one for each leaf, three for each set. */
  function Work(n: Node): nat
    decreases n, 0
  {
    WorkAll(n.kids) +
    match n.kind
    case Leaf => Open(n.out)
    case Set => if |n.kids| == 2 then Unstarted(n.kids[0]) + Unstarted(n.kids[1]) + Open(n.out) else 0
    case _ => 0
  }

  function Open(out: seq<Signal>): nat {
    if out == [] then 1 else 0
  }

  function Unstarted(n: Node): nat {
    if n.starts == 0 then 1 else 0
  }

  function WorkAll(kids: seq<Node>): nat
    decreases kids, 0
  {
    if kids == [] then 0 else Work(kids[0]) + WorkAll(kids[1..])
  }

  lemma {:induction false} WorkConcat(a: seq<Node>, b: seq<Node>)
    ensures WorkAll(a + b) == WorkAll(a) + WorkAll(b)
  {
    if a == [] {
      assert a + b == b;
    } else {
      assert (a + b)[1..] == a[1..] + b;
      WorkConcat(a[1..], b);
    }
  }

  lemma WorkUpdate(kids: seq<Node>, i: nat, kid: Node)
    requires i < |kids|
    ensures WorkAll(kids[i := kid]) == WorkAll(kids) - Work(kids[i]) + Work(kid)
  {
    assert kids == kids[..i] + ([kids[i]] + kids[i + 1..]);
    assert kids[i := kid] == kids[..i] + ([kid] + kids[i + 1..]);
    WorkConcat(kids[..i], [kids[i]] + kids[i + 1..]);
    WorkConcat(kids[..i], [kid] + kids[i + 1..]);
    WorkConcat([kids[i]], kids[i + 1..]);
    WorkConcat([kid], kids[i + 1..]);
  }

  // ----- execute() on a fresh tree -----

  function Emitted(s: Option<Signal>): seq<Signal> {
    if s == None then [] else [s.value]
  }

  /** A tree just executed: it has invoked what execute() reports. */
  ghost predicate Started(n: Node, n': Node, s: Option<Signal>) {
    Inv(n') && n'.starts == 1 && n'.out == Emitted(s) && Work(n') <= Work(n)
  }

  lemma {:induction false} StartKeeps(n: Node)
    requires Fresh(n)
    ensures Started(n, Start(n).0, Start(n).1)
    decreases n, 0
  {
    hide RunSeq, SeqAfter, SeqAt, OnSide, PipeAt, SetAt;
    forall j | 0 <= j < |n.kids| ensures Inv(n.kids[j]) { FreshInv(n.kids[j]); }
    match n.kind
    case Leaf =>
    case Seq =>
      RunSeqKeeps(n.kids);
      StartSeq(n);
    case Pipe =>
      StartKeeps(n.kids[0]);
      StartKeeps(n.kids[1]);
      StartPipe(n);
    case Set =>
      StartSet(n);
  }

  lemma StartSeq(n: Node)
    requires Fresh(n) && n.kind == Seq && SeqStarted(n.kids, RunSeq(n.kids))
    ensures Started(n, Start(n).0, Start(n).1)
  {
    hide RunSeq, Fresh, Inv, WorkAll, SeqAt, SeqAfter;
    ProperFresh(n);
    var (started, at, s) := RunSeq(n.kids);
    SeqAfterAt(n.(kids := started, starts := 1), at, s);
    SeqInv(Start(n).0, at);
  }

  /** Reporting the signal at the position reached. */
  lemma SeqAfterAt(n: Node, at: nat, s: Option<Signal>)
    requires n.out == [] && SeqAt(n.kids, Emitted(s), at, at)
    ensures var (n', s') := SeqAfter(n, at, s);
      s' == s && n'.out == Emitted(s) && SeqAt(n'.kids, n'.out, n'.resp, at) &&
      n'.kind == n.kind && n'.kids == n.kids && n'.starts == n.starts
  {
    hide Fresh;
  }

  lemma ProperFresh(n: Node)
    requires Fresh(n)
    ensures Proper(n) && n.starts == 0 && n.out == []
  {
  }

  lemma StartPipe(n: Node)
    requires Fresh(n) && n.kind == Pipe && Proper(n) && Fresh(n.kids[1]) && Inv(n.kids[1])
    requires Started(n.kids[0], Start(n.kids[0]).0, Start(n.kids[0]).1)
    requires Started(n.kids[1], Start(n.kids[1]).0, Start(n.kids[1]).1)
    ensures Started(n, Start(n).0, Start(n).1)
  {
    hide WorkAll, Inv, Fresh, OnSide;
    ProperFresh(n);
    var (left, s) := Start(n.kids[0]);
    var n' := n.(kids := [left, n.kids[1]], starts := 1);
    WorkPair(n.kids);
    WorkPair(n'.kids);
    if s == None {
      PipeInv(n');
    } else {
      SideSignals(n', 0, s.value);
    }
  }

  /** A side of a pipe has signalled. */
  lemma SideSignals(n: Node, i: nat, sig: Signal)
    requires n.kind == Pipe && |n.kids| == 2 && n.starts == 1 && n.out == []
    requires Inv(n.kids[0]) && Inv(n.kids[1]) && n.kids[0].starts == 1
    requires i == 0 ==> n.kids[0].out == [sig] && Fresh(n.kids[1])
    requires i == 0 ==> Started(n.kids[1], Start(n.kids[1]).0, Start(n.kids[1]).1)
    requires i == 1 ==> n.kids[1].starts == 1 && n.kids[1].out == [sig]
    requires i == 1 ==> n.kids[0].out != [] && n.kids[0].out[0].Finish?
    requires i < 2
    ensures var (n', s) := OnSide(n, i, sig);
      Inv(n') && n'.starts == 1 && n'.out == Emitted(s) && Work(n') <= Work(n)
  {
    hide WorkAll, Inv, Fresh, Start;
    var n' := OnSide(n, i, sig).0;
    WorkPair(n.kids);
    WorkPair(n'.kids);
    PipeInv(n');
  }

  lemma PipeInv(n: Node)
    requires n.kind == Pipe && |n.kids| == 2 && n.starts == 1 && |n.out| <= 1
    requires PipeAt(n.kids[0], n.kids[1], n.out) && Inv(n.kids[0]) && Inv(n.kids[1])
    ensures Inv(n)
  {
  }

  lemma StartSet(n: Node)
    requires Fresh(n) && n.kind == Set && forall j :: 0 <= j < |n.kids| ==> Inv(n.kids[j])
    ensures Started(n, Start(n).0, Start(n).1)
  {
    hide WorkAll;
  }

  lemma WorkPair(kids: seq<Node>)
    requires |kids| == 2
    ensures WorkAll(kids) == Work(kids[0]) + Work(kids[1])
  {
    assert WorkAll(kids[1..]) == Work(kids[1]);
  }

  ghost predicate SeqStarted(kids: seq<Node>, r: (seq<Node>, nat, Option<Signal>)) {
    |r.0| == |kids| && (forall j :: 0 <= j < |kids| ==> Inv(r.0[j])) &&
    SeqAt(r.0, Emitted(r.2), r.1, r.1) && WorkAll(r.0) <= WorkAll(kids)
  }

  lemma {:induction false} RunSeqKeeps(kids: seq<Node>)
    requires kids != [] && forall j :: 0 <= j < |kids| ==> Fresh(kids[j])
    ensures SeqStarted(kids, RunSeq(kids))
    decreases kids, 0
  {
    hide Fresh, Inv, Start, Work;
    StartKeeps(kids[0]);
    var (kid, s) := Start(kids[0]);
    forall j | 0 <= j < |kids| ensures Inv(kids[j]) { FreshInv(kids[j]); }
    if s == Some(Finish(Next)) && |kids| > 1 {
      RunSeqKeeps(kids[1..]);
      var (others, at, s') := RunSeq(kids[1..]);
      SeqCons(kids, kid, others, at, s');
    } else {
      var started := [kid] + kids[1..];
      assert started[1..] == kids[1..];
    }
  }

  lemma SeqCons(kids: seq<Node>, kid: Node, others: seq<Node>, at: nat, s: Option<Signal>)
    requires kids != [] && Inv(kid) && kid.starts == 1 && kid.out == [Finish(Next)]
    requires Work(kid) <= Work(kids[0]) && SeqStarted(kids[1..], (others, at, s))
    ensures SeqStarted(kids, ([kid] + others, at + 1, s))
  {
    hide Inv, Fresh, Work;
    var started := [kid] + others;
    assert started[1..] == others;
    assert forall j :: 0 < j < |kids| ==> started[j] == others[j - 1];
  }

  // ----- one event -----

  /** What a step keeps. */
  ghost predicate Stepped(n: Node, n': Node, s: Option<Signal>) {
    Inv(n') && n'.starts == n.starts && n'.out == n.out + Emitted(s) && Work(n') < Work(n)
  }

  lemma {:induction false} StepKeeps(n: Node, path: seq<nat>, ev: Event)
    requires Inv(n) && Step(n, path, ev).Some?
    ensures Stepped(n, Step(n, path, ev).value.0, Step(n, path, ev).value.1)
    decreases path
  {
    Awake(n, path, ev);
    if path == [] {
      StepHereKeeps(n, ev);
    } else {
      var i := path[0];
      StepKeeps(n.kids[i], path[1..], ev);
      Awake(n.kids[i], path[1..], ev);
      var (kid, s) := Step(n.kids[i], path[1..], ev).value;
      WorkUpdate(n.kids, i, kid);
      match n.kind
      case Seq => SeqKid(n, i, kid, s);
      case Pipe => PipeKid(n, i, kid, s);
      case Set => SetKid(n, i, kid, s);
    }
  }

  lemma StepHereKeeps(n: Node, ev: Event)
    requires Inv(n) && Proper(n) && StepHere(n, ev).Some? && n.starts == 1 && n.out == []
    ensures Stepped(n, StepHere(n, ev).value.0, StepHere(n, ev).value.1)
  {
    if n.kind == Set {
      SetHere(n, ev);
    }
  }

  lemma SetHere(n: Node, ev: Event)
    requires n.kind == Set && |n.kids| == 2 && StepHere(n, ev).Some? && n.starts == 1 && n.out == []
    requires Inv(n.kids[0]) && Inv(n.kids[1]) && SetAt(n, n.kids[0], n.kids[1])
    ensures Stepped(n, StepHere(n, ev).value.0, StepHere(n, ev).value.1)
  {
    hide Inv, Fresh, Start, WorkAll;
    var n' := StepHere(n, ev).value.0;
    if ev == LaunchLeft {
      StartUnstarted(n.kids[0]);
    } else if ev == LaunchRight {
      StartUnstarted(n.kids[1]);
    }
    WorkPair(n.kids);
    WorkPair(n'.kids);
    SetInv(n');
  }

  lemma StartUnstarted(n: Node)
    requires Inv(n) && n.starts == 0
    ensures Started(n, Start(n).0, Start(n).1) && n.out == []
  {
    StartKeeps(n);
  }

  lemma SetInv(n: Node)
    requires n.kind == Set && |n.kids| == 2 && n.starts == 1 && |n.out| <= 1
    requires SetAt(n, n.kids[0], n.kids[1]) && Inv(n.kids[0]) && Inv(n.kids[1])
    ensures Inv(n)
  {
  }

  /** Nothing can happen in a tree that is not executed yet, or has invoked its callback. */
  lemma {:induction false} Awake(n: Node, path: seq<nat>, ev: Event)
    requires Inv(n) && Step(n, path, ev).Some?
    ensures n.starts == 1 && n.out == []
    decreases path
  {
    if path != [] {
      KidsInv(n);
      Awake(n.kids[path[0]], path[1..], ev);
      if n.starts == 1 {
        InFlight(n, path[0]);
      }
    }
  }

  /** While a part is in flight, so is the whole. */
  lemma InFlight(n: Node, i: nat)
    requires Inv(n) && n.starts == 1 && i < |n.kids| && n.kids[i].starts == 1 && n.kids[i].out == []
    ensures n.out == []
    ensures n.kind == Seq ==> SeqAt(n.kids, n.out, n.resp, i)
  {
    if n.kind == Seq {
      var cur :| SeqAt(n.kids, n.out, n.resp, cur);
      assert cur == i by {
        if i > cur {
          ProperFresh(n.kids[i]);
        }
      }
    }
  }

  lemma KidsInv(n: Node)
    requires Inv(n)
    ensures forall j :: 0 <= j < |n.kids| ==> Inv(n.kids[j])
    ensures n.starts == 0 ==> forall j :: 0 <= j < |n.kids| ==> n.kids[j].starts == 0
  {
    if n.starts == 0 {
      forall j | 0 <= j < |n.kids| ensures Inv(n.kids[j]) && n.kids[j].starts == 0 {
        FreshInv(n.kids[j]);
        ProperFresh(n.kids[j]);
      }
    }
  }

  /** Part i, in flight, has made a step that lowered the work of the parts. */
  ghost predicate KidStepped(n: Node, i: nat, kid: Node, s: Option<Signal>) {
    Inv(n) && n.starts == 1 && n.out == [] && i < |n.kids| &&
    n.kids[i].starts == 1 && n.kids[i].out == [] && Stepped(n.kids[i], kid, s) &&
    WorkAll(n.kids[i := kid]) < WorkAll(n.kids)
  }

  ghost predicate Delivered(n: Node, n': Node, i: nat, s: Option<Signal>)
    requires i < |n'.kids| && Proper(n')
  {
    match s
    case None => Stepped(n, n', None)
    case Some(sig) => Stepped(n, Deliver(n', i, sig).0, Deliver(n', i, sig).1)
  }

  lemma SeqKid(n: Node, i: nat, kid: Node, s: Option<Signal>)
    requires KidStepped(n, i, kid, s) && n.kind == Seq
    ensures Proper(n) && Delivered(n, n.(kids := n.kids[i := kid]), i, s)
  {
    hide Inv, Fresh, WorkAll, OnKid;
    InFlight(n, i);
    KidsInv(n);
    var kids := n.kids[i := kid];
    var n' := n.(kids := kids);
    if s == None {
      SeqInv(n', i);
    } else if s.value == Finish(Next) && i < |kids| - 1 {
      SeqAdvances(n', i);
    } else {
      SeqStops(n', i, s.value);
    }
  }

  lemma SeqStops(n: Node, i: nat, sig: Signal)
    requires n.kind == Seq && n.starts == 1 && n.out == [] && SeqAt(n.kids, [sig], i, i)
    requires forall j :: 0 <= j < |n.kids| ==> Inv(n.kids[j])
    ensures var (n', s) := OnKid(n, i, sig);
      Inv(n') && n'.starts == 1 && n'.out == Emitted(s) && Work(n') == Work(n)
  {
    hide Inv, Fresh, WorkAll;
    SeqAfterAt(n, i, Some(sig));
    SeqInv(OnKid(n, i, sig).0, i);
  }

  lemma SeqAdvances(n: Node, i: nat)
    requires n.kind == Seq && i < |n.kids| - 1 && n.starts == 1 && n.out == []
    requires forall j :: 0 <= j <= i ==> Inv(n.kids[j]) && n.kids[j].starts == 1 && n.kids[j].out == [Finish(Next)]
    requires forall j :: i < j < |n.kids| ==> Fresh(n.kids[j])
    ensures var (n', s) := OnKid(n, i, Finish(Next));
      Inv(n') && n'.starts == 1 && n'.out == Emitted(s) && Work(n') <= Work(n)
  {
    hide Inv, Fresh, RunSeq, WorkAll, SeqAt, SeqAfter;
    var rest := n.kids[i + 1..];
    RunSeqKeeps(rest);
    var (others, at, s) := RunSeq(rest);
    var kids := n.kids[..i + 1] + others;
    WorkConcat(n.kids[..i + 1], others);
    WorkConcat(n.kids[..i + 1], rest);
    assert n.kids == n.kids[..i + 1] + rest;
    SeqShifts(n.kids[..i + 1], others, at, s);
    SeqAfterAt(n.(kids := kids), i + 1 + at, s);
    var (n', s') := OnKid(n, i, Finish(Next));
    forall j | 0 <= j < |kids|
      ensures Inv(kids[j])
    {
      assert j > i ==> kids[j] == others[j - i - 1];
    }
    SeqInv(n', i + 1 + at);
  }

  lemma SeqShifts(done: seq<Node>, others: seq<Node>, at: nat, s: Option<Signal>)
    requires forall j :: 0 <= j < |done| ==> done[j].starts == 1 && done[j].out == [Finish(Next)]
    requires SeqAt(others, Emitted(s), at, at)
    ensures SeqAt(done + others, Emitted(s), |done| + at, |done| + at)
  {
    hide Fresh;
    var kids := done + others;
    assert forall j :: |done| <= j < |kids| ==> kids[j] == others[j - |done|];
  }

  lemma SeqInv(n: Node, cur: nat)
    requires n.kind == Seq && n.starts == 1 && |n.out| <= 1 && SeqAt(n.kids, n.out, n.resp, cur)
    requires forall j :: 0 <= j < |n.kids| ==> Inv(n.kids[j])
    ensures Inv(n)
  {
  }

  lemma PipeKid(n: Node, i: nat, kid: Node, s: Option<Signal>)
    requires KidStepped(n, i, kid, s) && n.kind == Pipe
    ensures Proper(n) && Delivered(n, n.(kids := n.kids[i := kid]), i, s)
  {
    KidsInv(n);
    PipeKidAt(n, i, kid, s);
  }

  lemma PipeKidAt(n: Node, i: nat, kid: Node, s: Option<Signal>)
    requires KidStepped(n, i, kid, s) && n.kind == Pipe && |n.kids| == 2
    requires PipeAt(n.kids[0], n.kids[1], n.out) && Inv(n.kids[0]) && Inv(n.kids[1])
    ensures Delivered(n, n.(kids := n.kids[i := kid]), i, s)
  {
    hide Inv, Fresh, WorkAll, Start, OnSide;
    var n' := n.(kids := n.kids[i := kid]);
    if i == 1 {
      FreshUnstarted(n.kids[1]);
    } else {
      StartKeeps(n.kids[1]);
    }
    if s == None {
      PipeInv(n');
    } else {
      SideSignals(n', i, s.value);
    }
  }

  lemma FreshUnstarted(n: Node)
    requires n.starts != 0
    ensures !Fresh(n)
  {
  }

  lemma SetKid(n: Node, i: nat, kid: Node, s: Option<Signal>)
    requires KidStepped(n, i, kid, s) && n.kind == Set
    ensures Proper(n) && Delivered(n, n.(kids := n.kids[i := kid]), i, s)
  {
  }

  // ----- progress -----

  /** A tree that was executed and has not invoked its callback can go on. */
  lemma {:induction false} Progress(n: Node) returns (path: seq<nat>, ev: Event)
    requires Inv(n) && n.starts == 1 && n.out == []
    ensures Step(n, path, ev).Some?
    decreases n
  {
    match n.kind
    case Leaf =>
      path, ev := [], Fire(Error);
    case Seq =>
      var cur :| SeqAt(n.kids, n.out, n.resp, cur);
      path, ev := ProgressKid(n, cur);
    case Pipe =>
      path, ev := ProgressKid(n, if n.kids[0].out == [] then 0 else 1);
    case Set =>
      if n.queuedLeft > 0 {
        path, ev := [], LaunchLeft;
      } else if n.queuedRight > 0 {
        path, ev := [], LaunchRight;
      } else if n.kids[0].out == [] {
        path, ev := ProgressKid(n, 0);
      } else if n.kids[1].out == [] {
        path, ev := ProgressKid(n, 1);
      } else {
        path, ev := [], Combine(true);
      }
  }

  lemma {:induction false} ProgressKid(n: Node, i: nat) returns (path: seq<nat>, ev: Event)
    requires Proper(n) && i < |n.kids| && Inv(n.kids[i]) && n.kids[i].starts == 1 && n.kids[i].out == []
    ensures Step(n, path, ev).Some?
    decreases n, 0
  {
    var p;
    p, ev := Progress(n.kids[i]);
    path := [i] + p;
    assert path[1..] == p;
  }

  // ----- whole runs -----

  datatype Action = Action(path: seq<nat>, event: Event)

  /** The tree after execute() and then the actions, None if one of them cannot happen. */
  function Run(n: Node, actions: seq<Action>): Option<Node> {
    if actions == [] then Some(Start(n).0)
    else
      var a := actions[|actions| - 1];
      match Run(n, actions[..|actions| - 1])
      case None => None
      case Some(m) =>
        match Step(m, a.path, a.event)
        case None => None
        case Some((m', _)) => Some(m')
  }

  lemma {:induction false} RunKeeps(n: Node, actions: seq<Action>)
    requires Fresh(n) && Run(n, actions).Some?
    ensures var m := Run(n, actions).value; Inv(m) && m.starts == 1 && Work(m) + |actions| <= Work(n)
  {
    StartKeeps(n);
    if actions != [] {
      RunKeeps(n, actions[..|actions| - 1]);
      var a := actions[|actions| - 1];
      StepKeeps(Run(n, actions[..|actions| - 1]).value, a.path, a.event);
    }
  }

  ghost predicate Enabled(n: Node) {
    exists path, ev :: Step(n, path, ev).Some?
  }

  /** Over every run from a fresh tree: runs are bounded; the root invokes at most one callback;
      and it has invoked exactly one exactly when nothing is left to happen. */
  lemma ExactlyOne(n: Node, actions: seq<Action>)
    requires Fresh(n) && Run(n, actions).Some?
    ensures var m := Run(n, actions).value;
      |actions| <= Work(n) && |m.out| <= 1 && (|m.out| == 1 <==> !Enabled(m))
  {
    RunKeeps(n, actions);
    var m := Run(n, actions).value;
    if m.out == [] {
      var path, ev := Progress(m);
    } else {
      forall path, ev
        ensures Step(m, path, ev) == None
      {
        if Step(m, path, ev).Some? {
          Awake(m, path, ev);
        }
      }
    }
  }

  /** The subtree at the end of a path. */
  function At(n: Node, path: seq<nat>): Option<Node>
    decreases path
  {
    if path == [] then Some(n)
    else if path[0] < |n.kids| then At(n.kids[path[0]], path[1..])
    else None
  }

  lemma {:induction false} InvAt(n: Node, path: seq<nat>)
    requires Inv(n) && At(n, path).Some?
    ensures Inv(At(n, path).value)
    decreases path
  {
    if path != [] {
      KidsInv(n);
      InvAt(n.kids[path[0]], path[1..]);
    }
  }

  /** In every run every executor of the tree is executed at most once, and invokes at most one
      callback, never without having been executed. */
  lemma EachOnce(n: Node, actions: seq<Action>, path: seq<nat>)
    requires Fresh(n) && Run(n, actions).Some? && At(Run(n, actions).value, path).Some?
    ensures var m := At(Run(n, actions).value, path).value; |m.out| <= m.starts <= 1
  {
    RunKeeps(n, actions);
    InvAt(Run(n, actions).value, path);
  }

  /** A set operation runs only after both sides have signalled, and only if neither failed. */
  lemma SetAfterBoth(n: Node, actions: seq<Action>, path: seq<nat>)
    requires Fresh(n) && Run(n, actions).Some? && At(Run(n, actions).value, path).Some?
    requires At(Run(n, actions).value, path).value.kind == Set
    ensures var m := At(Run(n, actions).value, path).value;
      |m.kids| == 2 &&
      (m.out != [] && !m.refused ==> |m.kids[0].out| == 1 && |m.kids[1].out| == 1) &&
      (m.out != [] && m.refused ==> m.out == [Error] && m.kids[0].starts == m.kids[1].starts == 0) &&
      (m.out == [Finish(Next)] ==> m.kids[0].out[0].Finish? && m.kids[1].out[0].Finish?)
  {
    RunKeeps(n, actions);
    InvAt(Run(n, actions).value, path);
  }

  lemma DeliverKeeps(n: Node, i: nat, s: Signal)
    requires i < |n.kids| && Proper(n)
    ensures var n' := Deliver(n, i, s).0; i < |n'.kids| && n'.kids[i] == n.kids[i]
  {
    hide RunSeq, Start;
  }

  /** An event changes the executor it happens at as if that stood alone. */
  lemma {:induction false} StepAt(n: Node, path: seq<nat>, ev: Event)
    requires Step(n, path, ev).Some?
    ensures At(n, path).Some? && Proper(At(n, path).value) && StepHere(At(n, path).value, ev).Some?
    ensures At(Step(n, path, ev).value.0, path) == Some(StepHere(At(n, path).value, ev).value.0)
    decreases path
  {
    hide StepHere, Deliver;
    if path != [] {
      var i := path[0];
      StepAt(n.kids[i], path[1..], ev);
      var (kid, s) := Step(n.kids[i], path[1..], ev).value;
      if s.Some? {
        DeliverKeeps(n.(kids := n.kids[i := kid]), i, s.value);
      }
    }
  }

  /** The executor a run has come to when its last event happens there: reached before it, in its
      invariant, and changed by it alone. */
  lemma LastEvent(n: Node, actions: seq<Action>) returns (before: Node)
    requires Fresh(n) && actions != [] && Run(n, actions).Some?
    ensures var a := actions[|actions| - 1];
      Inv(before) && Proper(before) && StepHere(before, a.event).Some? &&
      At(Run(n, actions).value, a.path) == Some(StepHere(before, a.event).value.0)
  {
    hide StepHere, Inv, Step;
    var front, a := actions[..|actions| - 1], actions[|actions| - 1];
    var m := Run(n, front).value;
    RunKeeps(n, front);
    StepAt(m, a.path, a.event);
    InvAt(m, a.path);
    before := At(m, a.path).value;
  }

  /** What a set operation reports: when it runs both sides have signalled, and it succeeds exactly
      if both finished and the operation itself succeeds. */
  lemma CombineOutcome(n: Node, actions: seq<Action>, ok: bool)
    requires Fresh(n) && actions != [] && Run(n, actions).Some?
    requires actions[|actions| - 1].event == Combine(ok)
    ensures var m := At(Run(n, actions).value, actions[|actions| - 1].path);
      m.Some? && m.value.kind == Set && !m.value.refused && |m.value.kids| == 2 &&
      |m.value.kids[0].out| == 1 && |m.value.kids[1].out| == 1 &&
      m.value.out ==
        [if m.value.kids[0].out[0].Finish? && m.value.kids[1].out[0].Finish? && ok then Finish(Next) else Error]
  {
    hide Inv, StepHere, Run;
    var before := LastEvent(n, actions);
    CombineHere(before, ok);
  }

  lemma CombineHere(n: Node, ok: bool)
    requires Inv(n) && Proper(n) && StepHere(n, Combine(ok)).Some?
    ensures var m := StepHere(n, Combine(ok)).value.0;
      m.kind == Set && !m.refused && |m.kids| == 2 && |m.kids[0].out| == 1 && |m.kids[1].out| == 1 &&
      m.out == [if m.kids[0].out[0].Finish? && m.kids[1].out[0].Finish? && ok then Finish(Next) else Error]
  {
    KidsInv(n);
    hide Fresh;
    NothingWaits(n);
  }

  lemma NothingWaits(n: Node)
    requires Inv(n)
    ensures n.starts == 0 ==> n.waiting == 0
  {
  }

  /** What a leaf reports is what it invoked its callback with. */
  lemma FireOutcome(n: Node, actions: seq<Action>, s: Signal)
    requires Fresh(n) && actions != [] && Run(n, actions).Some?
    requires actions[|actions| - 1].event == Fire(s)
    ensures var m := At(Run(n, actions).value, actions[|actions| - 1].path);
      m.Some? && m.value.kind == Leaf && m.value.out == [s]
  {
    var before := LastEvent(n, actions);
  }

  /** A pipe reports what its right side does, which is executed exactly if the left one finished;
      an error of the left side is reported at once. */
  lemma PipeResponse(n: Node, actions: seq<Action>, path: seq<nat>)
    requires Fresh(n) && Run(n, actions).Some? && At(Run(n, actions).value, path).Some?
    requires At(Run(n, actions).value, path).value.kind == Pipe
    ensures var m := At(Run(n, actions).value, path).value;
      |m.kids| == 2 &&
      (m.starts == 1 ==>
        m.kids[0].starts == 1 && (m.kids[1].starts == 1 <==> m.kids[0].out != [] && m.kids[0].out[0].Finish?) &&
        m.out == if m.kids[0].out == [Error] then [Error] else m.kids[1].out)
  {
    RunKeeps(n, actions);
    InvAt(Run(n, actions).value, path);
    PipeEnds(At(Run(n, actions).value, path).value);
  }

  lemma PipeEnds(m: Node)
    requires Inv(m) && m.kind == Pipe
    ensures |m.kids| == 2
    ensures m.starts == 1 ==>
      m.kids[0].starts == 1 && (m.kids[1].starts == 1 <==> m.kids[0].out != [] && m.kids[0].out[0].Finish?) &&
      m.out == if m.kids[0].out == [Error] then [Error] else m.kids[1].out
  {
    KidsInv(m);
    if m.starts == 1 && Fresh(m.kids[1]) {
      ProperFresh(m.kids[1]);
    }
  }

  /** The response of a sequential executor comes from the first executor that finished with
      kReturn, or else from the last; those behind it were never executed. */
  ghost predicate RespondsFirst(m: Node) {
    m.resp < |m.kids| && m.kids[m.resp].out == m.out &&
    (forall j :: 0 <= j < m.resp ==> m.kids[j].out == [Finish(Next)]) &&
    (forall j :: m.resp < j < |m.kids| ==> m.kids[j].starts == 0) &&
    (m.out == [Finish(Return)] || m.resp == |m.kids| - 1)
  }

  lemma SeqResponse(n: Node, actions: seq<Action>, path: seq<nat>)
    requires Fresh(n) && Run(n, actions).Some? && At(Run(n, actions).value, path).Some?
    requires At(Run(n, actions).value, path).value.kind == Seq
    ensures var m := At(Run(n, actions).value, path).value;
      (m.out == [Finish(Next)] || m.out == [Finish(Return)] ==> RespondsFirst(m)) &&
      (m.out == [Error] <==> exists j :: 0 <= j < |m.kids| && m.kids[j].out == [Error])
  {
    RunKeeps(n, actions);
    InvAt(Run(n, actions).value, path);
    SeqEnds(At(Run(n, actions).value, path).value);
  }

  lemma SeqEnds(m: Node)
    requires Inv(m) && m.kind == Seq
    ensures m.out == [Finish(Next)] || m.out == [Finish(Return)] ==> RespondsFirst(m)
    ensures m.out == [Error] <==> exists j :: 0 <= j < |m.kids| && m.kids[j].out == [Error]
  {
    if m.starts == 0 {
      forall j | 0 <= j < |m.kids| ensures m.kids[j].out == [] { ProperFresh(m.kids[j]); }
    } else {
      var cur: nat :| SeqAt(m.kids, m.out, m.resp, cur);
      SeqEndsAt(m, cur);
    }
  }

  lemma SeqEndsAt(m: Node, cur: nat)
    requires SeqAt(m.kids, m.out, m.resp, cur)
    ensures m.out == [Finish(Next)] || m.out == [Finish(Return)] ==> RespondsFirst(m)
    ensures m.out == [Error] <==> exists j :: 0 <= j < |m.kids| && m.kids[j].out == [Error]
  {
    hide Fresh;
    forall j | cur < j < |m.kids| ensures m.kids[j].starts == 0 && m.kids[j].out == [] { ProperFresh(m.kids[j]); }
  }
}
