/** The alarm state of the performance-alert plugin: the set of alarm ids
    currently raised, and the decision, on each check of a monitor, to
    raise or lower its alarm. The callbacks (which send e-mails) are
    outside the model; what the model records is which of them is called,
    and whether the one called throws is a parameter. */
module PerfAlert {
  import Strings

  /** `currentAlarms`: the ids mapped to `true`. */
  datatype Alarms = Alarms(current: set<string>)

  datatype Call = Raise(id: string) | Lower(id: string)

  /** The state after the call, the callbacks called in order, and whether
      the call ended by an exception from a callback. */
  datatype Outcome = Outcome(alarms: Alarms, calls: seq<Call>, threw: bool)

  /** `raiseOrLowerAlarm(alarmId, shouldRaise, raiseCallback, lowerCallback)`.
      The id is recorded before the raise callback runs and removed after
      the lower callback, in a `finally`, so a throwing callback never
      stops the state from changing. */
  function RaiseOrLower(alarms: Alarms, id: string, shouldRaise: bool, callbackThrows: bool): (r: Outcome)
    ensures shouldRaise && id !in alarms.current ==>
              r.alarms.current == alarms.current + {id} && r.calls == [Raise(id)] && r.threw == callbackThrows
    ensures shouldRaise && id in alarms.current ==> r == Outcome(alarms, [], false)
    ensures !shouldRaise && id in alarms.current ==>
              r.alarms.current == alarms.current - {id} && r.calls == [Lower(id)] && r.threw == callbackThrows
    ensures !shouldRaise && id !in alarms.current ==> r == Outcome(alarms, [], false)
  {
    var current := id in alarms.current;
    if shouldRaise then
      if !current then Outcome(Alarms(alarms.current + {id}), [Raise(id)], callbackThrows)
      else Outcome(alarms, [], false)
    else
      if current then Outcome(Alarms(alarms.current - {id}), [Lower(id)], callbackThrows)
      else Outcome(alarms, [], false)
  }

  /** Afterwards the alarm is raised exactly when it should be, and no
      other alarm has changed. */
  lemma RaiseOrLowerSettles(alarms: Alarms, id: string, shouldRaise: bool, callbackThrows: bool)
    ensures var r := RaiseOrLower(alarms, id, shouldRaise, callbackThrows);
            (id in r.alarms.current <==> shouldRaise)
            && (forall other :: other != id ==> (other in r.alarms.current <==> other in alarms.current))
            && (|r.calls| == 1 <==> (id in alarms.current) != shouldRaise)
  {
  }

  /** `clearCurrentAlarms()`. */
  function ClearCurrentAlarms(alarms: Alarms): (r: Alarms)
    ensures forall id :: id !in r.current
  {
    Alarms({})
  }

  datatype Plugin<C> = Plugin(configuration: C, alarms: Alarms)

  /** `configure(configuration)`: stores the configuration and forgets
      every raised alarm, so an alarm still over its threshold is raised,
      and notified, again at the next check. */
  function Configure<C>(plugin: Plugin<C>, configuration: C): (r: Plugin<C>)
    ensures r.configuration == configuration
    ensures forall id :: id !in r.alarms.current
  {
    Plugin(configuration, ClearCurrentAlarms(plugin.alarms))
  }

  lemma ConfigureThenRaise<C>(plugin: Plugin<C>, configuration: C, id: string)
    ensures RaiseOrLower(Configure(plugin, configuration).alarms, id, true, false).calls == [Raise(id)]
  {
  }

  /** The id `${objectType}|${variableName}|${alarmTriggerLevel}` of the
      alarm of one monitor definition, the level already written out. */
  function AlarmId(objectType: string, variableName: string, triggerLevel: string): string {
    objectType + "|" + variableName + "|" + triggerLevel
  }

  /** Object types and variable names hold no `|` (they are the keys
      `vm`, `host`, `cpuUsage`, `memoryUsage`), so two definitions share an
      alarm exactly when they agree on all three parts. */
  lemma AlarmIdInjective(t1: string, v1: string, l1: string, t2: string, v2: string, l2: string)
    requires Strings.Lacks(t1, '|') && Strings.Lacks(v1, '|')
    requires Strings.Lacks(t2, '|') && Strings.Lacks(v2, '|')
    ensures AlarmId(t1, v1, l1) == AlarmId(t2, v2, l2) <==> t1 == t2 && v1 == v2 && l1 == l2
  {
    if AlarmId(t1, v1, l1) == AlarmId(t2, v2, l2) {
      assert AlarmId(t1, v1, l1) == t1 + "|" + (v1 + "|" + l1);
      assert AlarmId(t2, v2, l2) == t2 + "|" + (v2 + "|" + l2);
      FirstBar(t1, v1 + "|" + l1, t2, v2 + "|" + l2);
      FirstBar(v1, l1, v2, l2);
    }
  }

  /** A `|`-free head is recovered from what follows it. */
  lemma FirstBar(a: string, rest: string, b: string, rest': string)
    requires Strings.Lacks(a, '|') && Strings.Lacks(b, '|')
    requires a + "|" + rest == b + "|" + rest'
    ensures a == b && rest == rest'
  {
    var s := a + "|" + rest;
    assert s[|a|] == '|';
    assert forall k :: 0 <= k < |a| ==> s[k] == a[k];
    Strings.FindFromIs(s, '|', 0, |a|);
    assert s[|b|] == '|';
    assert forall k :: 0 <= k < |b| ==> s[k] == b[k];
    Strings.FindFromIs(s, '|', 0, |b|);
    assert a == s[..|a|] && b == s[..|b|];
    assert rest == s[|a| + 1..] && rest' == s[|b| + 1..];
  }

  /** The checks of one monitor over time: one decision per check, none
      of the callbacks throwing. */
  function Run(alarms: Alarms, id: string, decisions: seq<bool>): (r: Outcome)
    decreases |decisions|
  {
    if |decisions| == 0 then Outcome(alarms, [], false)
    else
      var step := RaiseOrLower(alarms, id, decisions[0], false);
      var rest := Run(step.alarms, id, decisions[1..]);
      Outcome(rest.alarms, step.calls + rest.calls, false)
  }

  /** Starting from `raised`, the calls of `calls` raise and lower `id`
      in turn. */
  predicate Alternates(calls: seq<Call>, id: string, raised: bool) {
    forall k :: 0 <= k < |calls| ==>
      calls[k] == (if (k % 2 == 0) != raised then Raise(id) else Lower(id))
  }

  /** Whatever the decisions, a monitor's callbacks alternate: it is never
      raised twice, or lowered twice, in a row; and it ends raised exactly
      when the last decision was to raise. */
  lemma {:induction false} RunAlternates(alarms: Alarms, id: string, decisions: seq<bool>)
    ensures var r := Run(alarms, id, decisions);
            Alternates(r.calls, id, id in alarms.current)
            && (id in r.alarms.current <==>
                  if |decisions| == 0 then id in alarms.current else decisions[|decisions| - 1])
            && (id in r.alarms.current <==> (id in alarms.current) != (|r.calls| % 2 == 1))
    decreases |decisions|
  {
    if |decisions| > 0 {
      var raised := id in alarms.current;
      var step := RaiseOrLower(alarms, id, decisions[0], false);
      var rest := Run(step.alarms, id, decisions[1..]);
      RunAlternates(step.alarms, id, decisions[1..]);
      var calls := step.calls + rest.calls;
      if |step.calls| == 1 {
        assert (id in step.alarms.current) == !raised;
        forall k | 0 <= k < |calls|
          ensures calls[k] == (if (k % 2 == 0) != raised then Raise(id) else Lower(id))
        {
          if k > 0 {
            assert calls[k] == rest.calls[k - 1];
          }
        }
      } else {
        assert calls == rest.calls;
      }
      if |decisions| > 1 {
        assert decisions[1..][|decisions[1..]| - 1] == decisions[|decisions| - 1];
      }
    }
  }
}
