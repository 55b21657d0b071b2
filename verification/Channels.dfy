/** Synchronous channels between cooperative threads (basis/channels/channels.factor). A thread runs from one
    suspension to the next without interruption; which runnable thread runs next is arbitrary. */
module Channels {
  import opened Sequences

  // Where a thread stands in its current `to` or `from`
  datatype Status<V> =
    | Sending(value: V)
    | SendQueued(value: V)
    | SendWoken(value: V)
    | Sent(value: V, receiver: nat)
    | Receiving
    | ReceiveQueued
    | Received(value: V, sender: nat)

  predicate Handed<V>(s: Status<V>) { s.Sent? || s.Received? }

  // Senders that have been resumed and will try again
  ghost function Woken<V>(threads: map<nat, Status<V>>): set<nat> {
    set t | t in threads && threads[t].SendWoken?
  }

  // The queues hold exactly the suspended threads, each once.
  ghost predicate Queues<V>(threads: map<nat, Status<V>>, senders: seq<nat>, receivers: seq<nat>) {
    && Distinct(senders) && Distinct(receivers)
    && (forall t :: t in senders <==> t in threads && threads[t].SendQueued?)
    && (forall t :: t in receivers <==> t in threads && threads[t].ReceiveQueued?)
  }

  // A completed send and a completed receive name each other and agree on the value.
  ghost predicate Paired<V>(threads: map<nat, Status<V>>) {
    && (forall t :: t in threads && threads[t].Sent? ==>
          var r := threads[t].receiver; r in threads && threads[r] == Received(threads[t].value, t))
    && (forall r :: r in threads && threads[r].Received? ==>
          var t := threads[r].sender; t in threads && threads[t] == Sent(threads[r].value, r))
  }

  // No lost wake-up: while senders wait, every waiting receiver is owed a sender already on its way.
  ghost predicate Owed<V>(threads: map<nat, Status<V>>, senders: seq<nat>, receivers: seq<nat>) {
    senders != [] ==> |receivers| <= |Woken(threads)|
  }

  ghost predicate Good<V>(threads: map<nat, Status<V>>, senders: seq<nat>, receivers: seq<nat>) {
    Queues(threads, senders, receivers) && Paired(threads) && Owed(threads, senders, receivers)
  }

  // What every step keeps: calls go on, values never change, and a completed handover is final.
  ghost predicate Progresses<V>(before: map<nat, Status<V>>, after: map<nat, Status<V>>) {
    forall t :: t in before ==>
      t in after && (Handed(before[t]) ==> after[t] == before[t]) && SameCall(before[t], after[t])
  }

  predicate IsSend<V>(s: Status<V>) { s.Sending? || s.SendQueued? || s.SendWoken? || s.Sent? }

  ghost predicate SameCall<V>(x: Status<V>, y: Status<V>) {
    IsSend(x) == IsSend(y) && (IsSend(x) ==> x.value == y.value)
  }

  // A change of status outside the handover
  lemma Move<V>(threads: map<nat, Status<V>>, t: nat, s: Status<V>)
    requires t !in threads || (!Handed(threads[t]) && SameCall(threads[t], s))
    requires Paired(threads) && !Handed(s)
    ensures Paired(threads[t := s]) && Progresses(threads, threads[t := s])
  {}

  lemma Handover<V>(threads: map<nat, Status<V>>, t: nat, r: nat, v: V)
    requires t in threads && r in threads && t != r && Paired(threads)
    requires (threads[t].Sending? || threads[t].SendWoken?) && threads[t].value == v && threads[r].ReceiveQueued?
    ensures var after := threads[t := Sent(v, r)][r := Received(v, t)];
            Paired(after) && Progresses(threads, after) && Woken(after) == Woken(threads) - {t}
  {}

  // A sender finds no receiver and queues.
  lemma SenderWaits<V>(threads: map<nat, Status<V>>, senders: seq<nat>, t: nat)
    requires Good(threads, senders, []) && t in threads && (threads[t].Sending? || threads[t].SendWoken?)
    ensures var after := threads[t := SendQueued(threads[t].value)];
            Good(after, senders + [t], []) && Progresses(threads, after)
  {
    hide Distinct, Paired;
    SnocDistinct(senders, t);
    Move(threads, t, SendQueued(threads[t].value));
  }

  // A sender meets receiver number i.
  lemma SenderMeets<V>(threads: map<nat, Status<V>>, senders: seq<nat>, receivers: seq<nat>, t: nat, i: nat)
    requires Good(threads, senders, receivers) && t in threads && (threads[t].Sending? || threads[t].SendWoken?)
    requires i < |receivers|
    ensures var v, r := threads[t].value, receivers[i];
            var after := threads[t := Sent(v, r)][r := Received(v, t)];
            r != t && r in receivers && Good(after, senders, Without(receivers, i)) && Progresses(threads, after)
  {
    hide Distinct, Paired, Progresses, Woken;
    assert receivers[i] in receivers;
    var v, r := threads[t].value, receivers[i];
    WithoutMembers(receivers, i);
    Handover(threads, t, r, v);
    Fewer(Woken(threads), t);
    MeetQueues(threads, senders, receivers, t, i, threads[t := Sent(v, r)][r := Received(v, t)]);
  }

  lemma MeetQueues<V>(threads: map<nat, Status<V>>, senders: seq<nat>, receivers: seq<nat>, t: nat, i: nat,
                      after: map<nat, Status<V>>)
    requires Queues(threads, senders, receivers) && t in threads && (threads[t].Sending? || threads[t].SendWoken?)
    requires i < |receivers|
    requires after == threads[t := Sent(threads[t].value, receivers[i])][receivers[i] := Received(threads[t].value, t)]
    ensures Queues(after, senders, Without(receivers, i))
  {
    hide Distinct;
    assert receivers[i] in receivers;
    WithoutMembers(receivers, i);
  }

  // A receiver queues and no sender waits.
  lemma ReceiverWaits<V>(threads: map<nat, Status<V>>, receivers: seq<nat>, t: nat)
    requires Good(threads, [], receivers) && t in threads && threads[t].Receiving?
    ensures Good(threads[t := ReceiveQueued], [], receivers + [t]) && Progresses(threads, threads[t := ReceiveQueued])
  {
    hide Distinct, Paired;
    SnocDistinct(receivers, t);
    Move(threads, t, ReceiveQueued);
  }

  // A receiver queues and wakes sender number i.
  lemma ReceiverWakes<V>(threads: map<nat, Status<V>>, senders: seq<nat>, receivers: seq<nat>, t: nat, i: nat)
    requires Good(threads, senders, receivers) && t in threads && threads[t].Receiving? && i < |senders|
    ensures var s := senders[i];
            && s in senders && s in threads && threads[s].SendQueued? && s != t
            && var after := threads[t := ReceiveQueued][s := SendWoken(threads[s].value)];
               Good(after, Without(senders, i), receivers + [t]) && Progresses(threads, after)
  {
    hide Distinct, Paired, Progresses;
    var s := senders[i];
    assert s in senders;
    SnocDistinct(receivers, t);
    WithoutMembers(senders, i);
    var mid := threads[t := ReceiveQueued];
    Move(threads, t, ReceiveQueued);
    Move(mid, s, SendWoken(threads[s].value));
    ProgressesTrans(threads, mid, mid[s := SendWoken(threads[s].value)]);
    assert Woken(mid[s := SendWoken(threads[s].value)]) == Woken(threads) + {s};
  }

  lemma ProgressesTrans<V>(x: map<nat, Status<V>>, y: map<nat, Status<V>>, z: map<nat, Status<V>>)
    requires Progresses(x, y) && Progresses(y, z)
    ensures Progresses(x, z)
  {}

  // A channel and its threads as a value
  datatype State<V> = State(threads: map<nat, Status<V>>, senders: seq<nat>, receivers: seq<nat>)

  // One turn of a thread: its call if it is new, and the random number it would draw
  datatype Step<V> = Step(thread: nat, status: Status<V>, random: nat)

  // A sender with nobody to receive waits; otherwise the receiver drawn leaves the queue with the value.
  ghost function Sends<V>(x: State<V>, t: nat, random: nat): State<V>
    requires t in x.threads && IsSend(x.threads[t])
  {
    var v := x.threads[t].value;
    if x.receivers == [] then State(x.threads[t := SendQueued(v)], x.senders + [t], x.receivers)
    else
      var i := random % |x.receivers|;
      var r := x.receivers[i];
      State(x.threads[t := Sent(v, r)][r := Received(v, t)], x.senders, Without(x.receivers, i))
  }

  // A receiver always waits; the sender drawn, if any, leaves the queue to try again.
  ghost function Receives<V>(x: State<V>, t: nat, random: nat): State<V> {
    var queued := State(x.threads[t := ReceiveQueued], x.senders, x.receivers + [t]);
    if x.senders == [] then queued
    else
      var i := random % |x.senders|;
      var s := x.senders[i];
      if s in x.threads && IsSend(x.threads[s]) then
        queued.(threads := queued.threads[s := SendWoken(x.threads[s].value)], senders := Without(x.senders, i))
      else queued
  }

  // A turn that is not enabled changes nothing: a thread that waits or is done cannot run.
  ghost function Turn<V>(x: State<V>, step: Step<V>): State<V> {
    var t := step.thread;
    if t !in x.threads then
      if step.status.Sending? || step.status.Receiving? then x.(threads := x.threads[t := step.status]) else x
    else match x.threads[t]
      case Sending(_) => Sends(x, t, step.random)
      case SendWoken(_) => Sends(x, t, step.random)
      case Receiving => Receives(x, t, step.random)
      case _ => x
  }

  ghost function Turns<V>(x: State<V>, schedule: seq<Step<V>>): State<V> {
    if schedule == [] then x else Turn(Turns(x, schedule[..|schedule| - 1]), schedule[|schedule| - 1])
  }

  class Channel<V(0)> {
    var receivers: seq<nat>
    var senders: seq<nat>
    var threads: map<nat, Status<V>>

    constructor ()
      ensures Valid() && threads == map[]
    {
      receivers, senders, threads := [], [], map[];
    }

    ghost predicate Valid()
      reads this
    {
      Good(threads, senders, receivers)
    }

    ghost function Now(): State<V>
      reads this
    {
      State(threads, senders, receivers)
    }

    // A thread calls `to` or `from`
    method Call(t: nat, s: Status<V>)
      requires Valid() && t !in threads && (s.Sending? || s.Receiving?)
      modifies this
      ensures Valid() && Now() == old(Now()).(threads := old(threads)[t := s]) && Progresses(old(threads), threads)
    {
      Move(threads, t, s);
      assert Woken(threads[t := s]) == Woken(threads);
      threads := threads[t := s];
    }

    // `to`, up to its next suspension: hand the value to a random waiting receiver, or wait
    method To(t: nat, random: nat)
      requires Valid() && t in threads && (threads[t].Sending? || threads[t].SendWoken?)
      modifies this
      ensures Valid() && Progresses(old(threads), threads) && Now() == Sends(old(Now()), t, random)
      ensures old(receivers) == [] ==> threads == old(threads)[t := SendQueued(old(threads)[t].value)]
      ensures old(receivers) != [] ==> HandedTo(old(threads), old(receivers), t, threads)
    {
      hide Good, Progresses;
      var v := threads[t].value;
      if receivers == [] {
        SenderWaits(threads, senders, t);
        senders := senders + [t];
        threads := threads[t := SendQueued(v)];
      } else {
        var i := random % |receivers|;
        var r := receivers[i];
        SenderMeets(threads, senders, receivers, t, i);
        receivers := Without(receivers, i);
        threads := threads[t := Sent(v, r)][r := Received(v, t)];
      }
    }

    // `from`, up to its suspension: join the receivers and wake a random waiting sender
    method From(t: nat, random: nat)
      requires Valid() && t in threads && threads[t].Receiving?
      modifies this
      ensures Valid() && Progresses(old(threads), threads) && Now() == Receives(old(Now()), t, random)
      ensures threads[t].ReceiveQueued?
      ensures old(senders) == [] ==> threads == old(threads)[t := ReceiveQueued]
      ensures old(senders) != [] ==> WokeOne(old(threads), old(senders), t, threads)
    {
      hide Good, Progresses;
      if senders == [] {
        ReceiverWaits(threads, receivers, t);
        receivers := receivers + [t];
        threads := threads[t := ReceiveQueued];
      } else {
        var i := random % |senders|;
        var s := senders[i];
        ReceiverWakes(threads, senders, receivers, t, i);
        receivers, senders := receivers + [t], Without(senders, i);
        threads := threads[t := ReceiveQueued][s := SendWoken(threads[s].value)];
      }
    }

    // Any schedule of calls and resumptions; steps that are not enabled are skipped.
    method Run(schedule: seq<Step<V>>)
      requires Valid()
      modifies this
      ensures Valid() && Progresses(old(threads), threads) && Now() == Turns(old(Now()), schedule)
    {
      hide Good, Progresses, Sends, Receives;
      var i := 0;
      Unmoved(threads);
      while i < |schedule|
        invariant 0 <= i <= |schedule| && Valid() && Progresses(old(threads), threads)
        invariant Now() == Turns(old(Now()), schedule[..i])
      {
        assert schedule[..i + 1][..i] == schedule[..i];
        ghost var before := threads;
        var t := schedule[i].thread;
        if t !in threads {
          if schedule[i].status.Sending? || schedule[i].status.Receiving? {
            Call(t, schedule[i].status);
            ProgressesTrans(old(threads), before, threads);
          }
        } else if threads[t].Sending? || threads[t].SendWoken? {
          To(t, schedule[i].random);
          ProgressesTrans(old(threads), before, threads);
        } else if threads[t].Receiving? {
          From(t, schedule[i].random);
          ProgressesTrans(old(threads), before, threads);
        }
        i := i + 1;
      }
      assert schedule[..i] == schedule;
    }
  }

  ghost predicate HandedTo<V>(before: map<nat, Status<V>>, receivers: seq<nat>, t: nat, after: map<nat, Status<V>>) {
    && t in before && IsSend(before[t])
    && exists r :: r in receivers && after == before[t := Sent(before[t].value, r)][r := Received(before[t].value, t)]
  }

  ghost predicate WokeOne<V>(before: map<nat, Status<V>>, senders: seq<nat>, t: nat, after: map<nat, Status<V>>) {
    exists s ::
      && s in senders && s in before && IsSend(before[s])
      && after == before[t := ReceiveQueued][s := SendWoken(before[s].value)]
  }

  lemma Unmoved<V>(threads: map<nat, Status<V>>)
    ensures Progresses(threads, threads)
  {}

  // Two different senders never hand over to the same receiver, nor two receivers share a sender.
  lemma ExactlyOnce<V>(threads: map<nat, Status<V>>, t: nat, u: nat)
    requires Paired(threads) && t in threads && u in threads && t != u
    ensures threads[t].Sent? && threads[u].Sent? ==> threads[t].receiver != threads[u].receiver
    ensures threads[t].Received? && threads[u].Received? ==> threads[t].sender != threads[u].sender
  {}

  // A waiting sender and a waiting receiver never face each other with nobody about to run.
  lemma NoDeadlock<V>(threads: map<nat, Status<V>>, senders: seq<nat>, receivers: seq<nat>)
    requires Good(threads, senders, receivers) && senders != [] && receivers != []
    ensures exists t :: t in threads && threads[t].SendWoken?
  {
    assert |Woken(threads)| > 0;
    var t :| t in Woken(threads);
  }

  lemma Fewer(s: set<nat>, t: nat)
    ensures |s - {t}| >= |s| - 1 && (t in s ==> |s - {t}| == |s| - 1)
  {}
}
