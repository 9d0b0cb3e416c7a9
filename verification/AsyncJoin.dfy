/** The fan-in of asynchronous generators into one stream: every generator has a producer
    that puts its items into a shared queue and then acquires a semaphore that counts
    the unfinished producers; the consumer drains the queue until the semaphore is locked
    and the queue is empty.  A schedule is any interleaving of what the producers and the
    consumer do between two suspension points. */
module AsyncJoin {
  datatype Producer<T> = Producer(input: seq<T>, taken: nat, finished: bool)

  /** After its loop the consumer gathers the producers without waiting, and fails if one
      of them is not done. */
  datatype Phase = Checking | Waiting | Exited | Gathered | Failed

  /** Items travel with the number of their generator; the code does not see it. */
  datatype Tagged<T> = Tagged(from: nat, item: T)

  datatype State<T> = State(producers: seq<Producer<T>>, sem: nat, queue: seq<Tagged<T>>, output: seq<Tagged<T>>, phase: Phase)

  datatype Event =
    | Put(i: nat)     // producer i puts its next item
    | Finish(i: nat)  // producer i acquires the semaphore
    | Check           // the consumer evaluates the loop condition
    | Get             // the consumer receives and yields an item
    | Timeout         // the consumer gives up waiting and loops
    | Gather          // the consumer gathers the producers

  function Start<T>(inputs: seq<seq<T>>): State<T> {
    State(seq(|inputs|, i requires 0 <= i < |inputs| => Producer(inputs[i], 0, false)), |inputs|, [], [], Checking)
  }

  predicate Enabled<T>(s: State<T>, e: Event) {
    match e
    case Put(i) => i < |s.producers| && s.producers[i].taken < |s.producers[i].input|
    case Finish(i) => i < |s.producers| && s.producers[i].taken == |s.producers[i].input| && !s.producers[i].finished && s.sem > 0
    case Check => s.phase == Checking
    case Get => s.phase == Waiting && s.queue != []
    case Timeout => s.phase == Waiting
    case Gather => s.phase == Exited
  }

  function Step<T>(s: State<T>, e: Event): State<T>
    requires Enabled(s, e)
  {
    match e
    case Put(i) =>
      var t := s.producers[i];
      s.(producers := s.producers[i := t.(taken := t.taken + 1)], queue := s.queue + [Tagged(i, t.input[t.taken])])
    case Finish(i) =>
      s.(producers := s.producers[i := s.producers[i].(finished := true)], sem := s.sem - 1)
    case Check =>
      s.(phase := if s.sem != 0 || s.queue != [] then Waiting else Exited)
    case Get =>
      s.(queue := s.queue[1..], output := s.output + [s.queue[0]], phase := Checking)
    case Timeout =>
      s.(phase := Checking)
    case Gather =>
      s.(phase := if forall i :: 0 <= i < |s.producers| ==> s.producers[i].finished then Gathered else Failed)
  }

  /** A schedule that the producers and the consumer can follow. */
  predicate Follows<T>(s: State<T>, es: seq<Event>)
    decreases |es|
  {
    es == [] || (Enabled(s, es[0]) && Follows(Step(s, es[0]), es[1..]))
  }

  function Run<T>(s: State<T>, es: seq<Event>): State<T>
    requires Follows(s, es)
    decreases |es|
  {
    if es == [] then s else Run(Step(s, es[0]), es[1..])
  }

  /** The items of one generator, in stream order. */
  function ItemsOf<T>(stream: seq<Tagged<T>>, i: nat): seq<T> {
    if stream == [] then []
    else ItemsOf(stream[..|stream| - 1], i)
         + if stream[|stream| - 1].from == i then [stream[|stream| - 1].item] else []
  }

  // ---------- the invariant ----------

  function Unfinished<T>(producers: seq<Producer<T>>): nat {
    if producers == [] then 0 else Unfinished(producers[1..]) + if producers[0].finished then 0 else 1
  }

  ghost predicate ProducerOk<T>(s: State<T>, i: nat)
    requires i < |s.producers|
  {
    var t := s.producers[i];
    && t.taken <= |t.input|
    && (t.finished ==> t.taken == |t.input|)
    && ItemsOf(s.output + s.queue, i) == t.input[..t.taken]
  }

  predicate LoopEnded<T>(s: State<T>) {
    s.phase == Exited || s.phase == Gathered || s.phase == Failed
  }

  ghost predicate Inv<T>(s: State<T>) {
    && s.sem == Unfinished(s.producers)
    && (forall i :: 0 <= i < |s.producers| ==> ProducerOk(s, i))
    && (forall k :: 0 <= k < |s.output + s.queue| ==> (s.output + s.queue)[k].from < |s.producers|)
    && (LoopEnded(s) ==> s.sem == 0 && s.queue == [])
    && s.phase != Failed
  }

  lemma {:induction false} UnfinishedUpdate<T>(producers: seq<Producer<T>>, i: nat, t: Producer<T>)
    requires i < |producers|
    ensures Unfinished(producers[i := t]) == Unfinished(producers) - (if producers[i].finished then 0 else 1)
                                         + if t.finished then 0 else 1
    decreases |producers|
  {
    if i > 0 {
      assert producers[i := t][1..] == producers[1..][i - 1 := t];
      UnfinishedUpdate(producers[1..], i - 1, t);
    } else {
      assert producers[i := t][1..] == producers[1..];
    }
  }

  /** The semaphore is locked exactly when every producer has finished. */
  lemma {:induction false} LockedIffFinished<T>(producers: seq<Producer<T>>)
    ensures Unfinished(producers) == 0 <==> forall i :: 0 <= i < |producers| ==> producers[i].finished
    decreases |producers|
  {
    if producers != [] {
      LockedIffFinished(producers[1..]);
      assert forall i :: 1 <= i < |producers| ==> producers[i] == producers[1..][i - 1];
      assert (forall i :: 0 <= i < |producers| ==> producers[i].finished)
             <==> producers[0].finished && forall i :: 0 <= i < |producers[1..]| ==> producers[1..][i].finished;
    }
  }

  lemma ItemsSnoc<T>(stream: seq<Tagged<T>>, x: Tagged<T>, i: nat)
    ensures ItemsOf(stream + [x], i) == ItemsOf(stream, i) + if x.from == i then [x.item] else []
  {
  }

  lemma {:induction false} AllUnfinished<T>(producers: seq<Producer<T>>)
    requires forall i :: 0 <= i < |producers| ==> !producers[i].finished
    ensures Unfinished(producers) == |producers|
    decreases |producers|
  {
    if producers != [] {
      AllUnfinished(producers[1..]);
    }
  }

  lemma {:induction false} StartOk<T>(inputs: seq<seq<T>>)
    ensures Inv(Start(inputs))
  {
    var s := Start(inputs);
    AllUnfinished(s.producers);
    assert s.output + s.queue == [];
  }

  lemma PutOk<T>(s: State<T>, i: nat)
    requires Inv(s) && Enabled(s, Put(i))
    ensures Inv(Step(s, Put(i)))
  {
    hide Unfinished, ItemsOf;
    var t := Step(s, Put(i));
    var x := Tagged(i, s.producers[i].input[s.producers[i].taken]);
    assert t.output + t.queue == (s.output + s.queue) + [x];
    UnfinishedUpdate(s.producers, i, t.producers[i]);
    forall k | 0 <= k < |t.producers|
      ensures ProducerOk(t, k)
    {
      assert ProducerOk(s, k);
      ItemsSnoc(s.output + s.queue, x, k);
    }
    assert ProducerOk(s, i);
    LockedIffFinished(s.producers);
  }

  lemma FinishOk<T>(s: State<T>, i: nat)
    requires Inv(s) && Enabled(s, Finish(i))
    ensures Inv(Step(s, Finish(i)))
  {
    var t := Step(s, Finish(i));
    UnfinishedUpdate(s.producers, i, t.producers[i]);
    forall k | 0 <= k < |t.producers|
      ensures ProducerOk(t, k)
    {
      assert ProducerOk(s, k);
    }
  }

  lemma ConsumerOk<T>(s: State<T>, e: Event)
    requires Inv(s) && Enabled(s, e) && (e.Check? || e.Get? || e.Timeout? || e.Gather?)
    ensures Inv(Step(s, e))
  {
    var t := Step(s, e);
    LockedIffFinished(s.producers);
    assert t.output + t.queue == s.output + s.queue;
    forall k | 0 <= k < |t.producers|
      ensures ProducerOk(t, k)
    {
      assert ProducerOk(s, k);
    }
  }

  lemma StepOk<T>(s: State<T>, e: Event)
    requires Inv(s) && Enabled(s, e)
    ensures Inv(Step(s, e)) && |Step(s, e).producers| == |s.producers|
    ensures forall i :: 0 <= i < |s.producers| ==> Step(s, e).producers[i].input == s.producers[i].input
  {
    hide Inv;
    match e
    case Put(i) => PutOk(s, i);
    case Finish(i) => FinishOk(s, i);
    case _ => ConsumerOk(s, e);
  }

  lemma {:induction false} RunOk<T>(s: State<T>, es: seq<Event>)
    requires Inv(s) && Follows(s, es)
    ensures Inv(Run(s, es)) && |Run(s, es).producers| == |s.producers|
    ensures forall i :: 0 <= i < |s.producers| ==> Run(s, es).producers[i].input == s.producers[i].input
    decreases |es|
  {
    hide Inv, Step;
    if es != [] {
      StepOk(s, es[0]);
      RunOk(Step(s, es[0]), es[1..]);
    }
  }

  // ---------- lossless fan-in ----------

  /** At every moment, what has been delivered or queued of a generator is exactly what
      its producer has taken from it, in order. */
  lemma NothingLostOnTheWay<T>(inputs: seq<seq<T>>, es: seq<Event>, i: nat)
    requires Follows(Start(inputs), es) && i < |inputs|
    ensures var s := Run(Start(inputs), es);
            && i < |s.producers| && s.producers[i].taken <= |inputs[i]|
            && ItemsOf(s.output + s.queue, i) == inputs[i][..s.producers[i].taken]
  {
    StartOk(inputs);
    RunOk(Start(inputs), es);
    assert ProducerOk(Run(Start(inputs), es), i);
  }

  /** When the consumer's loop has ended, under whatever interleaving, it has delivered
      every item of every generator exactly once and in the generator's order. */
  lemma JoinIsLossless<T>(inputs: seq<seq<T>>, es: seq<Event>, i: nat)
    requires Follows(Start(inputs), es) && LoopEnded(Run(Start(inputs), es)) && i < |inputs|
    ensures var s := Run(Start(inputs), es);
            && ItemsOf(s.output, i) == inputs[i]
            && forall k :: 0 <= k < |s.output| ==> s.output[k].from < |inputs|
  {
    StartOk(inputs);
    RunOk(Start(inputs), es);
    var s := Run(Start(inputs), es);
    LockedIffFinished(s.producers);
    assert ProducerOk(s, i);
    assert s.output + s.queue == s.output;
    assert inputs[i][..|inputs[i]|] == inputs[i];
  }

  /** The loop cannot end while a producer still has an item to put or has not finished;
      only the closing gather is left then, and it never fails. */
  lemma ExitMeansDone<T>(inputs: seq<seq<T>>, es: seq<Event>)
    requires Follows(Start(inputs), es) && LoopEnded(Run(Start(inputs), es))
    ensures var s := Run(Start(inputs), es);
            && (forall i :: 0 <= i < |s.producers| ==>
                              s.producers[i].finished && s.producers[i].taken == |s.producers[i].input|)
            && (forall e :: Enabled(s, e) <==> e == Gather && s.phase == Exited)
            && (s.phase == Exited ==> Step(s, Gather).phase == Gathered)
            && s.phase != Failed
  {
    StartOk(inputs);
    RunOk(Start(inputs), es);
    var s := Run(Start(inputs), es);
    LockedIffFinished(s.producers);
    forall i | 0 <= i < |s.producers|
      ensures s.producers[i].finished && s.producers[i].taken == |s.producers[i].input|
    {
      assert ProducerOk(s, i);
    }
  }

  // ---------- progress ----------

  /** Each item is put and got once, and each producer finishes once. */
  function Work<T>(producers: seq<Producer<T>>): nat {
    if producers == [] then 0
    else
      var t := producers[0];
      Work(producers[1..]) + 2 * (if t.taken < |t.input| then |t.input| - t.taken else 0) + if t.finished then 0 else 1
  }

  function Measure<T>(s: State<T>): nat {
    Work(s.producers) + |s.queue|
  }

  predicate Productive(e: Event) {
    e.Put? || e.Finish? || e.Get?
  }

  function ProductiveSteps(es: seq<Event>): nat {
    if es == [] then 0 else ProductiveSteps(es[1..]) + if Productive(es[0]) then 1 else 0
  }

  lemma {:induction false} WorkUpdate<T>(producers: seq<Producer<T>>, i: nat, t: Producer<T>)
    requires i < |producers| && t.input == producers[i].input
    ensures Work(producers[i := t]) + Work([producers[i]]) == Work(producers) + Work([t])
    decreases |producers|
  {
    if i > 0 {
      assert producers[i := t][1..] == producers[1..][i - 1 := t];
      WorkUpdate(producers[1..], i - 1, t);
    } else {
      assert producers[i := t][1..] == producers[1..];
      assert Work([producers[0]][1..]) == 0 && Work([t][1..]) == 0;
    }
  }

  lemma WorkOne<T>(t: Producer<T>)
    ensures Work([t]) == 2 * (if t.taken < |t.input| then |t.input| - t.taken else 0) + if t.finished then 0 else 1
  {
  }

  lemma MeasureStep<T>(s: State<T>, e: Event)
    requires Enabled(s, e)
    ensures Measure(Step(s, e)) + (if Productive(e) then 1 else 0) == Measure(s)
  {
    hide Work;
    match e
    case Put(i) =>
      var t := Step(s, e).producers[i];
      WorkUpdate(s.producers, i, t);
      WorkOne(t);
      WorkOne(s.producers[i]);
    case Finish(i) =>
      var t := Step(s, e).producers[i];
      WorkUpdate(s.producers, i, t);
      WorkOne(t);
      WorkOne(s.producers[i]);
    case _ =>
  }

  /** Conservation: the productive steps of any schedule and the work left over always
      add up to the work there was, so no schedule works forever. */
  lemma {:induction false} WorkIsConserved<T>(s: State<T>, es: seq<Event>)
    requires Follows(s, es)
    ensures ProductiveSteps(es) + Measure(Run(s, es)) == Measure(s)
    decreases |es|
  {
    hide Step, Measure;
    if es != [] {
      MeasureStep(s, es[0]);
      WorkIsConserved(Step(s, es[0]), es[1..]);
    }
  }

  lemma {:induction false} NoWorkLeft<T>(producers: seq<Producer<T>>)
    ensures Work(producers) == 0 <==>
              forall i :: 0 <= i < |producers| ==> !(producers[i].taken < |producers[i].input| || !producers[i].finished)
    decreases |producers|
  {
    if producers != [] {
      NoWorkLeft(producers[1..]);
      assert forall i :: 1 <= i < |producers| ==> producers[i] == producers[1..][i - 1];
      assert (forall i :: 0 <= i < |producers| ==> !(producers[i].taken < |producers[i].input| || !producers[i].finished))
             <==> !(producers[0].taken < |producers[0].input| || !producers[0].finished)
                  && forall i :: 0 <= i < |producers[1..]| ==>
                                   !(producers[1..][i].taken < |producers[1..][i].input| || !producers[1..][i].finished);
    }
  }

  /** There is always a productive step to take, possibly after the consumer's check,
      until the work is done; and then the check ends the loop. */
  lemma NeverStuck<T>(s: State<T>)
    requires Inv(s) && !LoopEnded(s)
    ensures Measure(s) > 0 ==>
              || (exists e :: Productive(e) && Enabled(s, e))
              || (Enabled(s, Check) && Enabled(Step(s, Check), Get))
    ensures Measure(s) == 0 && s.phase == Checking ==> Step(s, Check).phase == Exited
  {
    NoWorkLeft(s.producers);
    LockedIffFinished(s.producers);
    if Work(s.producers) > 0 {
      var i :| 0 <= i < |s.producers| && (s.producers[i].taken < |s.producers[i].input| || !s.producers[i].finished);
      assert ProducerOk(s, i);
      if s.producers[i].taken < |s.producers[i].input| {
        assert Enabled(s, Put(i)) && Productive(Put(i));
      } else {
        assert Enabled(s, Finish(i)) && Productive(Finish(i));
      }
    } else if s.queue != [] {
      if s.phase == Waiting {
        assert Enabled(s, Get) && Productive(Get);
      }
    }
  }

  lemma FollowsCons<T>(s: State<T>, e: Event, es: seq<Event>)
    requires Enabled(s, e) && Follows(Step(s, e), es)
    ensures Follows(s, [e] + es) && Run(s, [e] + es) == Run(Step(s, e), es)
    ensures ProductiveSteps([e] + es) == ProductiveSteps(es) + if Productive(e) then 1 else 0
  {
    hide Step;
    assert ([e] + es)[1..] == es && ([e] + es)[0] == e;
  }

  /** When the work is done, the consumer leaves its loop within two steps of its own,
      even if it was waiting for an item. */
  lemma EndsSoon<T>(s: State<T>)
    requires Inv(s) && !LoopEnded(s) && Measure(s) == 0
    ensures exists es :: |es| <= 2 && Follows(s, es) && Run(s, es).phase == Exited && ProductiveSteps(es) == 0
                         && (s.phase == Checking ==> Timeout !in es)
  {
    NeverStuck(s);
    if s.phase == Checking {
      FollowsCons(s, Check, []);
      assert Run(s, [Check]).phase == Exited;
    } else {
      var t := Step(s, Timeout);
      StepOk(s, Timeout);
      NeverStuck(t);
      FollowsCons(t, Check, []);
      FollowsCons(s, Timeout, [Check]);
      assert Run(s, [Timeout] + [Check]).phase == Exited;
    }
  }

  /** The schedule ends the loop and does exactly the work that is left; a consumer about
      to test its loop condition never has to time out. */
  ghost predicate Finishes<T>(s: State<T>, es: seq<Event>) {
    && Follows(s, es) && Run(s, es).phase == Exited && ProductiveSteps(es) == Measure(s)
    && (s.phase == Checking ==> Timeout !in es)
  }

  lemma ProducerFirst<T>(s: State<T>, e: Event, es: seq<Event>)
    requires Enabled(s, e) && Productive(e) && Finishes(Step(s, e), es)
    ensures Finishes(s, [e] + es)
  {
    hide Measure, Follows, Run;
    FollowsCons(s, e, es);
    MeasureStep(s, e);
  }

  lemma CheckAndGet<T>(s: State<T>, es: seq<Event>)
    requires Enabled(s, Check) && Enabled(Step(s, Check), Get) && Finishes(Step(Step(s, Check), Get), es)
    ensures Finishes(s, [Check] + ([Get] + es))
  {
    hide Measure, Follows, Run;
    var t := Step(s, Check);
    FollowsCons(t, Get, es);
    FollowsCons(s, Check, [Get] + es);
    MeasureStep(t, Get);
    MeasureStep(s, Check);
  }

  lemma StaysInLoop<T>(s: State<T>, e: Event)
    requires !LoopEnded(s) && Enabled(s, e) && (e == Check ==> Enabled(Step(s, Check), Get))
    ensures !LoopEnded(Step(s, e))
  {
  }

  /** From every state of the loop that keeps the invariant, some schedule does exactly the
      work that is left and ends the loop. */
  lemma {:induction false} CanFinish<T>(s: State<T>)
    requires Inv(s) && !LoopEnded(s)
    ensures exists es :: Finishes(s, es)
    decreases Measure(s)
  {
    hide Inv, Step, Measure, LoopEnded, Run, Follows, Enabled;
    NeverStuck(s);
    if Measure(s) == 0 {
      EndsSoon(s);
      var es :| |es| <= 2 && Follows(s, es) && Run(s, es).phase == Exited && ProductiveSteps(es) == 0
                && (s.phase == Checking ==> Timeout !in es);
      assert Finishes(s, es);
    } else if exists e :: Productive(e) && Enabled(s, e) {
      var e :| Productive(e) && Enabled(s, e);
      StepOk(s, e);
      MeasureStep(s, e);
      StaysInLoop(s, e);
      CanFinish(Step(s, e));
      var es :| Finishes(Step(s, e), es);
      ProducerFirst(s, e, es);
    } else {
      var t := Step(s, Check);
      StepOk(s, Check);
      MeasureStep(s, Check);
      StaysInLoop(s, Check);
      StepOk(t, Get);
      MeasureStep(t, Get);
      StaysInLoop(t, Get);
      CanFinish(Step(t, Get));
      var es :| Finishes(Step(t, Get), es);
      CheckAndGet(s, es);
    }
  }

  /** Whatever the producers and the consumer have done so far, the join can end, with no
      other work than what is left. */
  lemma JoinCanEnd<T>(inputs: seq<seq<T>>, es: seq<Event>)
    requires Follows(Start(inputs), es) && !LoopEnded(Run(Start(inputs), es))
    ensures var s := Run(Start(inputs), es); exists more :: Finishes(s, more)
  {
    hide Inv, Step, Measure, LoopEnded, Run, Follows, Enabled;
    StartOk(inputs);
    RunOk(Start(inputs), es);
    CanFinish(Run(Start(inputs), es));
  }
}
