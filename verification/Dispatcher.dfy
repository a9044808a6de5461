/** The dispatcher's loop: every anomaly taken from the channel is offered to the store and
    to the alert channel, whatever becomes of either. */
module Dispatchers {
  import opened Domain

  /** What the select yields; an anomaly comes with the outcomes of storing and alerting. */
  datatype Event =
    | Received(a: Anomaly, stored: bool, alerted: bool)
    | ChannelClosed
    | ContextDone

  datatype Exit = Clean | Cancelled | Running

  /** The anomalies received before the loop ends. */
  function Handled(events: seq<Event>): seq<Anomaly> {
    if |events| == 0 || !events[0].Received? then [] else [events[0].a] + Handled(events[1..])
  }

  function ExitOf(events: seq<Event>): Exit {
    if |events| == 0 then Running
    else
      match events[0]
      case Received(_, _, _) => ExitOf(events[1..])
      case ChannelClosed => Clean
      case ContextDone => Cancelled
  }

  class Dispatcher {
    const alertChannel: bool  // whether one is configured
    var storeAttempts: seq<Anomaly>
    var alertAttempts: seq<Anomaly>
    var errors: nat           // logged

    constructor (alertChannel: bool)
      ensures this.alertChannel == alertChannel
      ensures storeAttempts == [] && alertAttempts == [] && errors == 0
    {
      this.alertChannel := alertChannel;
      storeAttempts, alertAttempts, errors := [], [], 0;
    }

    method Dispatch(a: Anomaly, stored: bool, alerted: bool)
      modifies this
      ensures storeAttempts == old(storeAttempts) + [a]
      ensures alertAttempts == old(alertAttempts) + if alertChannel then [a] else []
      ensures errors == old(errors) + Failures(alertChannel, stored, alerted)
    {
      storeAttempts := storeAttempts + [a];
      if !stored {
        errors := errors + 1;
      }
      if alertChannel {
        alertAttempts := alertAttempts + [a];
        if !alerted {
          errors := errors + 1;
        }
      }
    }

    method Run(events: seq<Event>) returns (exit: Exit)
      modifies this
      ensures storeAttempts == old(storeAttempts) + Handled(events)
      ensures alertAttempts == old(alertAttempts) + if alertChannel then Handled(events) else []
      ensures errors == old(errors) + AllFailures(alertChannel, events)
      ensures exit == ExitOf(events)
    {
      ghost var done, failed := [], 0;
      for i := 0 to |events|
        invariant Handled(events) == done + Handled(events[i..])
        invariant AllFailures(alertChannel, events) == failed + AllFailures(alertChannel, events[i..])
        invariant ExitOf(events) == ExitOf(events[i..])
        invariant storeAttempts == old(storeAttempts) + done
        invariant alertAttempts == old(alertAttempts) + if alertChannel then done else []
        invariant errors == old(errors) + failed
      {
        assert events[i..][0] == events[i] && events[i..][1..] == events[i + 1..];
        match events[i]
        case ChannelClosed =>
          return Clean;
        case ContextDone =>
          return Cancelled;
        case Received(a, stored, alerted) =>
          Dispatch(a, stored, alerted);
          done, failed := done + [a], failed + Failures(alertChannel, stored, alerted);
      }
      exit := Running;
    }
  }

  function Failures(alerts: bool, stored: bool, alerted: bool): nat {
    (if stored then 0 else 1) + if alerts && !alerted then 1 else 0
  }

  function AllFailures(alerts: bool, events: seq<Event>): nat {
    if |events| == 0 || !events[0].Received? then 0
    else Failures(alerts, events[0].stored, events[0].alerted) + AllFailures(alerts, events[1..])
  }

  /** The same events but for the outcomes of storing and alerting. */
  ghost predicate SameArrivals(e1: seq<Event>, e2: seq<Event>) {
    |e1| == |e2| && forall i :: 0 <= i < |e1| ==> e1[i] == e2[i] || (e1[i].Received? && e2[i].Received? && e1[i].a == e2[i].a)
  }

  /** Failures of either output lose no attempt and do not stop the loop. */
  lemma {:induction false} OutcomesDoNotMatter(e1: seq<Event>, e2: seq<Event>)
    requires SameArrivals(e1, e2)
    ensures Handled(e1) == Handled(e2) && ExitOf(e1) == ExitOf(e2)
  {
    if |e1| > 0 && e1[0].Received? {
      OutcomesDoNotMatter(e1[1..], e2[1..]);
    }
  }

  /** The loop handles exactly what it receives before the channel is closed or the context
      cancelled, in order, and ends cleanly in the first case, with the context's error in
      the second. */
  lemma {:induction false} LoopEnds(events: seq<Event>, n: nat)
    requires n <= |events| && (forall j :: 0 <= j < n ==> events[j].Received?) && (n < |events| ==> !events[n].Received?)
    ensures |Handled(events)| == n && forall i :: 0 <= i < n ==> Handled(events)[i] == events[i].a
    ensures ExitOf(events) == if n == |events| then Running else if events[n] == ChannelClosed then Clean else Cancelled
  {
    if n == 0 {
    } else {
      LoopEnds(events[1..], n - 1);
    }
  }

  /** Nothing is logged as an error exactly when every attempt succeeded. */
  lemma {:induction false} NoFailuresIff(alerts: bool, events: seq<Event>, n: nat)
    requires n <= |events| && (forall j :: 0 <= j < n ==> events[j].Received?) && (n < |events| ==> !events[n].Received?)
    ensures AllFailures(alerts, events) == 0 <==> forall i :: 0 <= i < n ==> events[i].stored && (alerts ==> events[i].alerted)
  {
    if n == 0 {
    } else {
      NoFailuresIff(alerts, events[1..], n - 1);
      assert forall i :: 0 <= i < n - 1 ==> events[1..][i] == events[i + 1];
      if forall i :: 0 <= i < n - 1 ==> events[1..][i].stored && (alerts ==> events[1..][i].alerted) {
        forall i | 0 < i < n
          ensures events[i].stored && (alerts ==> events[i].alerted)
        {
          assert events[1..][i - 1] == events[i];
        }
      }
    }
  }
}
