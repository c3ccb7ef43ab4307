/** A queue that hands its items to one runner at a time: who pushes into an empty
    queue starts the runner, and who pops the last item ends it. */
module ActionQueues {
  import opened Common

  class QueueSafe<T> {
    var items: seq<T>

    constructor ()
      ensures items == []
    {
      items := [];
    }

    method PushAndIsFirst(item: T) returns (first: bool)
      modifies this
      ensures items == old(items) + [item] && first == (old(items) == [])
    {
      first := items == [];
      items := items + [item];
    }

    /** Moves the first item out; its place stays taken until it is popped. */
    method TakeFront(empty: T) returns (item: T)
      requires items != []
      modifies this
      ensures item == old(items)[0] && items == old(items)[0 := empty]
    {
      item := items[0];
      items := items[0 := empty];
    }

    method PopAndMore() returns (more: bool)
      requires items != []
      modifies this
      ensures items == old(items)[1..] && more == (items != [])
    {
      items := items[1..];
      more := items != [];
    }
  }

  /** The runner when nobody pushes meanwhile. */
  method RunActions<T>(actions: QueueSafe<Option<T>>) returns (handled: seq<T>)
    requires actions.items != [] && forall k :: 0 <= k < |actions.items| ==> actions.items[k].Some?
    modifies actions
    ensures actions.items == [] && |handled| == |old(actions.items)|
    ensures forall k :: 0 <= k < |handled| ==> old(actions.items)[k] == Some(handled[k])
  {
    handled := [];
    var more := true;
    while more
      invariant |handled| <= |old(actions.items)| && more == (actions.items != [])
      invariant actions.items == old(actions.items)[|handled|..]
      invariant forall k :: 0 <= k < |handled| ==> old(actions.items)[k] == Some(handled[k])
      decreases |actions.items|
    {
      var request := actions.TakeFront(None);
      handled := handled + [request.value];
      more := actions.PopAndMore();
    }
  }

  // ----- every interleaving of the pushes with the runner

  /** The queue, where a request that was moved out leaves None; how many are about
      to post a runner, how many runners are posted, at the front, and at the pop;
      and which requests were pushed and handled. */
  datatype State<T> = State(queue: seq<Option<T>>, posting: nat, posted: nat, atFront: nat, atPop: nat,
                            pushed: seq<T>, handled: seq<T>)

  datatype Event<T> = Push(request: T) | Post | Start | Handle | Pop

  function Initial<T>(): State<T> { State([], 0, 0, 0, 0, [], []) }

  /** Pushing and popping lock the queue; posting, starting and handling do not. */
  ghost predicate Next<T>(s: State<T>, e: Event<T>, t: State<T>)
  {
    match e
    case Push(request) =>
      t == s.(queue := s.queue + [Some(request)], pushed := s.pushed + [request],
              posting := s.posting + if s.queue == [] then 1 else 0)
    case Post => s.posting > 0 && t == s.(posting := s.posting - 1, posted := s.posted + 1)
    case Start => s.posted > 0 && t == s.(posted := s.posted - 1, atFront := s.atFront + 1)
    case Handle =>
      && s.atFront > 0
      && (CanTake(s) ==> t == s.(queue := s.queue[0 := None], handled := s.handled + [s.queue[0].value],
                                 atFront := s.atFront - 1, atPop := s.atPop + 1))
    case Pop =>
      && s.atPop > 0
      && (s.queue != [] ==> t == s.(queue := s.queue[1..], atPop := s.atPop - 1,
                                    atFront := s.atFront + if |s.queue| > 1 then 1 else 0))
  }

  /** There is a request to move out.  What happens when there is none is left open. */
  predicate CanTake<T>(s: State<T>)
  {
    s.queue != [] && s.queue[0].Some?
  }

  function Runners<T>(s: State<T>): nat { s.posting + s.posted + s.atFront + s.atPop }

  ghost predicate Sound<T>(s: State<T>)
  {
    && Runners(s) == (if s.queue == [] then 0 else 1)
    && |s.pushed| == |s.handled| + |s.queue| - s.atPop
    && s.handled <= s.pushed
    && (forall k :: 0 <= k < |s.queue| ==>
          s.queue[k] == if k < s.atPop then None else Some(s.pushed[|s.handled| + k - s.atPop]))
  }

  ghost predicate IsRun<T>(events: seq<Event<T>>, run: seq<State<T>>)
  {
    && |run| == |events| + 1 && run[0] == Initial()
    && (forall i :: 0 <= i < |events| ==> Next(run[i], events[i], run[i + 1]))
  }

  lemma PushSound<T>(s: State<T>, request: T, t: State<T>)
    requires Sound(s) && Next(s, Push(request), t)
    ensures Sound(t)
  {
    assert t.handled <= t.pushed by { assert t.handled == t.pushed[..|t.handled|]; }
  }

  lemma HandleSound<T>(s: State<T>, t: State<T>)
    requires Sound(s) && Next(s, Handle, t)
    ensures Sound(t)
  {
    assert s.queue[0] == Some(s.pushed[|s.handled|]) && CanTake(s);
    assert t.handled == s.pushed[..|s.handled| + 1];
  }

  lemma PopSound<T>(s: State<T>, t: State<T>)
    requires Sound(s) && Next(s, Pop, t)
    ensures Sound(t)
  {
    forall k | 0 <= k < |t.queue| ensures t.queue[k] == Some(t.pushed[|t.handled| + k]) {
      assert t.queue[k] == s.queue[k + 1];
    }
  }

  lemma NextSound<T>(s: State<T>, e: Event<T>, t: State<T>)
    requires Sound(s) && Next(s, e, t)
    ensures Sound(t)
  {
    match e
    case Push(request) => PushSound(s, request, t);
    case Post =>
    case Start =>
    case Handle => HandleSound(s, t);
    case Pop => PopSound(s, t);
  }

  /** However pushes and the runner interleave: a runner is there exactly while the
      queue is not empty, and never two; it never finds the front gone; and the
      requests are handled each once, in the order they were pushed. */
  lemma {:induction false} RunSound<T>(events: seq<Event<T>>, run: seq<State<T>>, n: nat)
    requires IsRun(events, run) && n < |run|
    ensures Sound(run[n])
    ensures run[n].atFront > 0 ==> CanTake(run[n])
    ensures run[n].atPop > 0 ==> run[n].queue != []
  {
    if n > 0 {
      RunSound(events, run, n - 1);
      NextSound(run[n - 1], events[n - 1], run[n]);
    }
  }

  /** Once nothing is left to run, all that was pushed has been handled. */
  lemma AllHandled<T>(events: seq<Event<T>>, run: seq<State<T>>, n: nat)
    requires IsRun(events, run) && n < |run|
    ensures Runners(run[n]) == 0 <==> run[n].handled == run[n].pushed && run[n].atPop == 0
  {
    RunSound(events, run, n);
  }

  /** The steps that a runner takes until the queue is empty, if nobody pushes any more. */
  function StepsLeft<T>(s: State<T>): int
  {
    2 * |s.queue| + 2 * s.posting + s.posted - s.atPop
  }

  /** While the queue is not empty a runner can go on, and every step it takes brings it nearer
      to the end; so, however slow it is, all that was pushed is handled. */
  lemma RunnerGoesOn<T>(s: State<T>)
    requires Sound(s)
    ensures s.queue != [] <==> exists e, t :: Next(s, e, t) && !e.Push?
    ensures s.queue != [] <==> StepsLeft(s) > 0
  {
    if s.atFront > 0 {
      assert CanTake(s);
      assert Next(s, Handle, s.(queue := s.queue[0 := None], handled := s.handled + [s.queue[0].value],
                                atFront := s.atFront - 1, atPop := s.atPop + 1));
    }
    if s.posting > 0 { assert Next(s, Post, s.(posting := s.posting - 1, posted := s.posted + 1)); }
    if s.posted > 0 { assert Next(s, Start, s.(posted := s.posted - 1, atFront := s.atFront + 1)); }
    if s.atPop > 0 {
      assert Next(s, Pop, s.(queue := s.queue[1..], atPop := s.atPop - 1,
                             atFront := s.atFront + if |s.queue| > 1 then 1 else 0));
    }
  }

  lemma RunnerNearer<T>(s: State<T>, e: Event<T>, t: State<T>)
    requires Sound(s) && Next(s, e, t) && !e.Push?
    ensures StepsLeft(t) == StepsLeft(s) - 1
  {
    if e.Handle? { assert CanTake(s); }
  }
}
