/**
 * The action engine of `robot.cc`: for each loop of a group a robot client
 * runs the group's actions in order. An action sends its requests, then waits
 * until every expected response type has come back or its timeout passes,
 * then sleeps out its minimum duration.
 *
 * The client is seen through the four calls the engine makes on it
 * (`send_msg`, `net_tcp_send`, `net_tcp_recv`, `recv_msg`, the interface the
 * project's mock client overrides), and time through `time(0)`. Their answers
 * are scripts (`Env`): one clock reading per `time(0)` call, one result per
 * `send_msg`, and one `Poll` per pass of the wait loop. A script that runs out
 * ends the run with `ScriptEnded`.
 */
module Robot {
  import opened Results
  import opened MessageRegistry
  import opened Codec
  import opened SockAddr
  import opened RobotConfig
  import Transport

  // ----- calc_timeout_responses / is_action_compleated -----

  /** The expected names that were not received, in configured order. */
  function Missing(expected: seq<string>, received: seq<string>): seq<string> {
    if |expected| == 0 then []
    else
      var last := expected[|expected| - 1];
      Missing(expected[..|expected| - 1], received) + (if last in received then [] else [last])
  }

  /** Every expected name occurs among the received ones. */
  predicate AllReceived(expected: seq<string>, received: seq<string>) {
    forall i :: 0 <= i < |expected| ==> expected[i] in received
  }

  /** A name is missing as often as it is expected when it never arrived, and not at all when it did. */
  lemma {:induction false} MissingCount(expected: seq<string>, received: seq<string>, x: string)
    ensures multiset(Missing(expected, received))[x] == if x in received then 0 else multiset(expected)[x]
  {
    if |expected| > 0 {
      var init := expected[..|expected| - 1];
      MissingCount(init, received, x);
      assert expected == init + [expected[|expected| - 1]];
    }
  }

  /** Nothing is missing exactly when everything expected was received, whatever the order or repeats. */
  lemma {:induction false} MissingEmptyIff(expected: seq<string>, received: seq<string>)
    ensures Missing(expected, received) == [] <==> AllReceived(expected, received)
  {
    if |expected| > 0 {
      var init := expected[..|expected| - 1];
      MissingEmptyIff(init, received);
      assert forall i :: 0 <= i < |init| ==> init[i] == expected[i];
    }
  }

  /**
   * `calc_timeout_responses`: appends to `timeoutResponses` each expected name
   * the received list lacks, scanning the received list with a `found` flag.
   */
  method CalcTimeoutResponses(expected: seq<string>, received: seq<string>, timeoutResponses: seq<string>)
    returns (out: seq<string>)
    ensures out == timeoutResponses + Missing(expected, received)
  {
    out := timeoutResponses;
    var i := 0;
    while i < |expected|
      invariant 0 <= i <= |expected|
      invariant out == timeoutResponses + Missing(expected[..i], received)
    {
      var found := 0;
      var want := expected[i];
      var r := 0;
      while r < |received|
        invariant 0 <= r <= |received|
        invariant found == 0 && want !in received[..r]
      {
        if received[r] == want {
          found := 1;
          break;
        }
        r := r + 1;
      }
      assert found == 0 ==> received[..r] == received;
      if found == 0 {
        out := out + [want];
      }
      assert expected[..i + 1][..i] == expected[..i];
      i := i + 1;
    }
    assert expected[..|expected|] == expected;
  }

  /** `is_action_compleated`: true exactly when no expected response is missing. */
  method IsActionCompleated(expected: seq<string>, received: seq<string>) returns (done: bool)
    ensures done <==> AllReceived(expected, received)
  {
    var timeoutResponses := CalcTimeoutResponses(expected, received, []);
    MissingEmptyIff(expected, received);
    done := |timeoutResponses| == 0;
  }

  // ----- the environment and the engine's observable state -----

  /** What `recv_msg` reported in one pass: nothing complete, a response of this type, or an error. */
  datatype RecvPoll = Pending | Got(typeName: string) | Broken

  /** One pass of the wait loop: did `net_tcp_send` and `net_tcp_recv` succeed, and what did `recv_msg` give. */
  datatype Poll = Poll(sendOk: bool, recvOk: bool, recv: RecvPoll)

  /** The scripted answers of `time(0)`, `send_msg` and the wait-loop calls, consumed from the front. */
  datatype Env = Env(clock: seq<int>, sendResults: seq<bool>, polls: seq<Poll>)

  /**
   * The engine's state between steps: the scripts left, the request head
   * (which keeps the last body type name set in it), every (head, body) handed
   * to `send_msg`, every `usleep` in microseconds, and for each action that
   * completed the response types it received.
   */
  datatype St = St(env: Env, head: Message, sent: seq<(Message, Message)>, sleeps: seq<int>, finished: seq<seq<string>>)

  /** Why `RunGroupOnce` returned false (the text it writes to `errmsg`, as data). */
  datatype RunError =
    | LoadTextFailed(typeName: string)
    | SendFailed(typeName: string)
    | NetSendFailed(requests: seq<string>)
    | NetRecvFailed(requests: seq<string>)
    | RecvMsgFailed(requests: seq<string>)
    | TimedOut(requests: seq<string>, missing: seq<string>)
    | ScriptEnded

  /** The wait loop sleeps 10 ms after a pass that completed no response. */
  const PollSleepUs: int := 10000

  /** Every head handed to `send_msg` names the type of the body sent with it. */
  predicate HeadsNameBodies(sent: seq<(Message, Message)>) {
    forall k :: 0 <= k < |sent| ==> StringField(sent[k].0, TypeNameField) == sent[k].1.typeName
  }

  // ----- the send phase -----

  /** One request: load its body from text, name its type in the head, and `send_msg` the pair. */
  function SendOne(reg: Registry, u: UniqRequest, st: St): (r: (Result<string, RunError>, St))
    ensures r.0.Success? ==> r.0.value == u.prototype.typeName
    ensures r.0.Failure? ==> !r.0.error.TimedOut?
    ensures r.1.env.clock == st.env.clock && r.1.env.polls == st.env.polls
    ensures r.1.sleeps == st.sleeps && r.1.finished == st.finished
  {
    var typeName := u.prototype.typeName;
    match reg.parseText(typeName, u.body.text)
    case None => (Failure(LoadTextFailed(typeName)), st)
    case Some(fields) =>
      var head := SetStringField(st.head, TypeNameField, typeName);
      if |st.env.sendResults| == 0 then (Failure(ScriptEnded), st.(head := head))
      else
        var st' := st.(env := st.env.(sendResults := st.env.sendResults[1..]), head := head,
                       sent := st.sent + [(head, Message(typeName, fields))]);
        if st.env.sendResults[0] then (Success(typeName), st') else (Failure(SendFailed(typeName)), st')
  }

  /** The send phase: the requests in order, stopping at the first failure; on success the type names sent. */
  function SendSpec(reg: Registry, uniqNameMap: map<string, UniqRequest>, names: seq<string>, st: St)
    : (r: (Result<seq<string>, RunError>, St))
    requires forall k :: 0 <= k < |names| ==> names[k] in uniqNameMap
    ensures r.0.Success? ==> |r.0.value| == |names|
    ensures r.0.Failure? ==> !r.0.error.TimedOut?
    ensures r.1.env.clock == st.env.clock && r.1.env.polls == st.env.polls
    ensures r.1.sleeps == st.sleeps && r.1.finished == st.finished
    decreases |names|
  {
    if |names| == 0 then (Success([]), st)
    else
      var one := SendOne(reg, uniqNameMap[names[0]], st);
      if one.0.Failure? then (Failure(one.0.error), one.1)
      else
        var rest := SendSpec(reg, uniqNameMap, names[1..], one.1);
        (if rest.0.Success? then Success([one.0.value] + rest.0.value) else rest.0, rest.1)
  }

  // ----- the wait phase -----

  /** How the wait loop ended: all responses in, the timeout passed (at this clock reading), or an error. */
  datatype WaitEnd =
    | Completed(received: seq<string>)
    | WaitTimedOut(at: int, received: seq<string>, missing: seq<string>)
    | WaitFailed(error: RunError)

  /**
   * The wait loop from a state where `received` has arrived so far: check the
   * timeout (only when one is set), then one pass of send, receive and
   * `recv_msg`; a complete response is recorded and ends the loop once
   * nothing is missing.
   */
  function WaitSpec(a: Action, requests: seq<string>, waitStart: int, received: seq<string>, st: St): (r: (WaitEnd, St))
    requires received == [] || !AllReceived(a.responses, received)
    ensures r.0.Completed? ==> AllReceived(a.responses, r.0.received) && received <= r.0.received
    ensures r.0.WaitTimedOut? ==>
      && a.timeout > 0 && r.0.at - waitStart > a.timeout
      && received <= r.0.received
      && r.0.missing == Missing(a.responses, r.0.received)
      && (|a.responses| > 0 ==> r.0.missing != [])
    ensures r.0.WaitFailed? ==> !r.0.error.TimedOut?
    ensures r.1.sent == st.sent && r.1.head == st.head && r.1.finished == st.finished
    ensures r.1.env.sendResults == st.env.sendResults
    decreases |st.env.polls|
  {
    if a.timeout > 0 && |st.env.clock| == 0 then (WaitFailed(ScriptEnded), st)
    else
      var now := if a.timeout > 0 then st.env.clock[0] else 0;
      var st1 := if a.timeout > 0 then st.(env := st.env.(clock := st.env.clock[1..])) else st;
      if a.timeout > 0 && now - waitStart > a.timeout then
        MissingEmptyIff(a.responses, received);
        (WaitTimedOut(now, received, Missing(a.responses, received)), st1)
      else if |st1.env.polls| == 0 then (WaitFailed(ScriptEnded), st1)
      else
        var p := st1.env.polls[0];
        var st2 := st1.(env := st1.env.(polls := st1.env.polls[1..]));
        if !p.sendOk then (WaitFailed(NetSendFailed(requests)), st2)
        else if !p.recvOk then (WaitFailed(NetRecvFailed(requests)), st2)
        else match p.recv
          case Broken => (WaitFailed(RecvMsgFailed(requests)), st2)
          case Pending => WaitSpec(a, requests, waitStart, received, st2.(sleeps := st2.sleeps + [PollSleepUs]))
          case Got(t) =>
            var received' := received + [t];
            if AllReceived(a.responses, received') then (Completed(received'), st2)
            else WaitSpec(a, requests, waitStart, received', st2)
  }

  // ----- one action and one group pass -----

  /** The `usleep` that pads an action to `min_duration` ms after `elapsed` seconds of waiting. */
  function PaceSleep(minDuration: int, elapsed: int): (s: seq<int>)
    ensures |s| <= 1
    ensures s != [] <==> minDuration > 0 && elapsed * 1000 < minDuration
    ensures s != [] ==> s[0] > 0 && elapsed * 1000 + s[0] / 1000 == minDuration
  {
    var dur := elapsed * 1000;
    if minDuration > 0 && dur < minDuration then [(minDuration - dur) * 1000] else []
  }

  /**
   * One action of `RunGroupOnce`: the send phase, a clock reading for
   * `wait_start`, the wait loop, a clock reading for the pacing sleep, then
   * false on a timeout.
   */
  function RunActionSpec(reg: Registry, uniqNameMap: map<string, UniqRequest>, a: Action, st: St)
    : (r: (Outcome<RunError>, St))
    requires forall k :: 0 <= k < |a.requestUniqNames| ==> a.requestUniqNames[k] in uniqNameMap
    ensures r.0.Pass? ==>
      && |r.1.finished| == |st.finished| + 1 && r.1.finished[..|st.finished|] == st.finished
      && AllReceived(a.responses, r.1.finished[|st.finished|])
    ensures r.0.Fail? ==> r.1.finished == st.finished
    ensures r.0.Fail? && r.0.error.TimedOut? ==> a.timeout > 0
  {
    var send := SendSpec(reg, uniqNameMap, a.requestUniqNames, st);
    if send.0.Failure? then (Fail(send.0.error), send.1)
    else
      var requests := send.0.value;
      var st1 := send.1;
      if |st1.env.clock| == 0 then (Fail(ScriptEnded), st1)
      else
        var waitStart := st1.env.clock[0];
        AfterWait(a, requests, waitStart, WaitSpec(a, requests, waitStart, [], st1.(env := st1.env.(clock := st1.env.clock[1..]))))
  }

  /** The end of an action once the wait is over: a wait error, or the pacing and then the timeout report or the completion. */
  function AfterWait(a: Action, requests: seq<string>, waitStart: int, wait: (WaitEnd, St)): (Outcome<RunError>, St) {
    if wait.0.WaitFailed? then (Fail(wait.0.error), wait.1)
    else
      var st3 := wait.1;
      if |st3.env.clock| == 0 then (Fail(ScriptEnded), st3)
      else
        var elapsed := st3.env.clock[0] - waitStart;
        var st4 := st3.(env := st3.env.(clock := st3.env.clock[1..]),
                        sleeps := st3.sleeps + PaceSleep(a.minDuration, elapsed));
        if wait.0.WaitTimedOut? then (Fail(TimedOut(requests, wait.0.missing)), st4)
        else (Pass, st4.(finished := st4.finished + [wait.0.received]))
  }

  /** An action is skipped on loop `count` once `stop_loop_count` (when set) has been reached. */
  predicate Skipped(a: Action, count: int) {
    a.stopLoopCount > 0 && count >= a.stopLoopCount
  }

  lemma NamesResolvedTail(actions: seq<Action>, uniqNameMap: map<string, UniqRequest>)
    requires |actions| > 0 && NamesResolved(actions, uniqNameMap)
    ensures NamesResolved(actions[1..], uniqNameMap)
    ensures forall k :: 0 <= k < |actions[0].requestUniqNames| ==> actions[0].requestUniqNames[k] in uniqNameMap
  {
    forall i, k | 0 <= i < |actions[1..]| && 0 <= k < |actions[1..][i].requestUniqNames|
      ensures actions[1..][i].requestUniqNames[k] in uniqNameMap
    {
      assert actions[1..][i] == actions[i + 1];
    }
  }

  /** `RunGroupOnce`: the group's actions in order, skipping the stopped ones, until one fails. */
  function RunGroupSpec(reg: Registry, uniqNameMap: map<string, UniqRequest>, count: int, actions: seq<Action>, st: St)
    : (r: (Outcome<RunError>, St))
    requires NamesResolved(actions, uniqNameMap)
    decreases |actions|
  {
    if |actions| == 0 then (Pass, st)
    else
      NamesResolvedTail(actions, uniqNameMap);
      if Skipped(actions[0], count) then RunGroupSpec(reg, uniqNameMap, count, actions[1..], st)
      else
        var one := RunActionSpec(reg, uniqNameMap, actions[0], st);
        if one.0.Fail? then one else RunGroupSpec(reg, uniqNameMap, count, actions[1..], one.1)
  }

  // ----- what a group pass promises -----

  /** The actions a pass with this `count` runs, in order. */
  function Active(actions: seq<Action>, count: int): (r: seq<Action>)
    ensures |r| <= |actions|
  {
    if |actions| == 0 then []
    else (if Skipped(actions[0], count) then [] else [actions[0]]) + Active(actions[1..], count)
  }

  lemma {:induction false} ActiveResolved(actions: seq<Action>, count: int, uniqNameMap: map<string, UniqRequest>)
    requires NamesResolved(actions, uniqNameMap)
    ensures NamesResolved(Active(actions, count), uniqNameMap)
  {
    if |actions| > 0 {
      NamesResolvedTail(actions, uniqNameMap);
      ActiveResolved(actions[1..], count, uniqNameMap);
      var r := Active(actions, count);
      var tail := Active(actions[1..], count);
      if !Skipped(actions[0], count) {
        assert r == [actions[0]] + tail;
        forall i, k | 0 <= i < |r| && 0 <= k < |r[i].requestUniqNames|
          ensures r[i].requestUniqNames[k] in uniqNameMap
        {
          if i > 0 { assert r[i] == tail[i - 1]; }
        }
      }
    }
  }

  /** Skipped actions have no effect at all: a pass behaves as if only the active actions were configured. */
  lemma {:induction false} SkippedActionsHaveNoEffect(reg: Registry, uniqNameMap: map<string, UniqRequest>,
                                                      count: int, actions: seq<Action>, st: St)
    requires NamesResolved(actions, uniqNameMap)
    ensures NamesResolved(Active(actions, count), uniqNameMap)
    ensures RunGroupSpec(reg, uniqNameMap, count, actions, st)
         == RunGroupSpec(reg, uniqNameMap, count, Active(actions, count), st)
    decreases |actions|
  {
    ActiveResolved(actions, count, uniqNameMap);
    if |actions| > 0 {
      NamesResolvedTail(actions, uniqNameMap);
      ActiveResolved(actions[1..], count, uniqNameMap);
      var tail := Active(actions[1..], count);
      if Skipped(actions[0], count) {
        assert Active(actions, count) == tail;
        SkippedActionsHaveNoEffect(reg, uniqNameMap, count, actions[1..], st);
      } else {
        var act := [actions[0]] + tail;
        assert Active(actions, count) == act;
        assert act[0] == actions[0] && act[1..] == tail;
        var one := RunActionSpec(reg, uniqNameMap, actions[0], st);
        if one.0.Pass? {
          SkippedActionsHaveNoEffect(reg, uniqNameMap, count, actions[1..], one.1);
        }
      }
    }
  }

  /** `m` still holds every field of `base` other than `msg_type_name`. */
  predicate KeepsFields(m: Message, base: Message) {
    forall f :: f in base.fields && f != TypeNameField ==> f in m.fields && m.fields[f] == base.fields[f]
  }

  /**
   * The head invariant of a worker: its head keeps the fields it started
   * with, and every (head, body) handed to `send_msg` keeps them too and has
   * the head naming the body's type.
   */
  predicate HeadsSound(st: St, base: Message) {
    && KeepsFields(st.head, base)
    && HeadsNameBodies(st.sent)
    && forall k :: 0 <= k < |st.sent| ==> KeepsFields(st.sent[k].0, base)
  }

  lemma SendOneKeepsHeads(reg: Registry, u: UniqRequest, st: St, base: Message)
    requires HeadsSound(st, base)
    ensures HeadsSound(SendOne(reg, u, st).1, base)
  {
    var r := SendOne(reg, u, st).1;
    if r != st {
      assert r.head == SetStringField(st.head, TypeNameField, u.prototype.typeName);
      if |r.sent| > |st.sent| {
        forall k | 0 <= k < |r.sent|
          ensures StringField(r.sent[k].0, TypeNameField) == r.sent[k].1.typeName
          ensures KeepsFields(r.sent[k].0, base)
        {
          if k < |st.sent| { assert r.sent[k] == st.sent[k]; }
        }
      }
    }
  }

  lemma {:induction false} SendSpecKeepsHeads(reg: Registry, uniqNameMap: map<string, UniqRequest>, names: seq<string>,
                                              st: St, base: Message)
    requires forall k :: 0 <= k < |names| ==> names[k] in uniqNameMap
    requires HeadsSound(st, base)
    ensures HeadsSound(SendSpec(reg, uniqNameMap, names, st).1, base)
    decreases |names|
  {
    if |names| > 0 {
      SendOneKeepsHeads(reg, uniqNameMap[names[0]], st, base);
      var one := SendOne(reg, uniqNameMap[names[0]], st);
      if one.0.Success? {
        SendSpecKeepsHeads(reg, uniqNameMap, names[1..], one.1, base);
      }
    }
  }

  lemma RunActionKeepsHeads(reg: Registry, uniqNameMap: map<string, UniqRequest>, a: Action, st: St, base: Message)
    requires forall k :: 0 <= k < |a.requestUniqNames| ==> a.requestUniqNames[k] in uniqNameMap
    requires HeadsSound(st, base)
    ensures HeadsSound(RunActionSpec(reg, uniqNameMap, a, st).1, base)
  {
    SendSpecKeepsHeads(reg, uniqNameMap, a.requestUniqNames, st, base);
  }

  /**
   * Across a group pass every request goes out with a head that names its
   * body's type and still carries the worker's `uid`, `role_tm` and `ret`.
   */
  lemma {:induction false} RunGroupKeepsHeads(reg: Registry, uniqNameMap: map<string, UniqRequest>,
                                              count: int, actions: seq<Action>, st: St, base: Message)
    requires NamesResolved(actions, uniqNameMap)
    requires HeadsSound(st, base)
    ensures HeadsSound(RunGroupSpec(reg, uniqNameMap, count, actions, st).1, base)
    decreases |actions|
  {
    if |actions| > 0 {
      NamesResolvedTail(actions, uniqNameMap);
      if Skipped(actions[0], count) {
        RunGroupKeepsHeads(reg, uniqNameMap, count, actions[1..], st, base);
      } else {
        RunActionKeepsHeads(reg, uniqNameMap, actions[0], st, base);
        var one := RunActionSpec(reg, uniqNameMap, actions[0], st);
        if one.0.Pass? {
          RunGroupKeepsHeads(reg, uniqNameMap, count, actions[1..], one.1, base);
        }
      }
    }
  }

  /** `fin` extends `base` with one record per action of `act`, each holding all the action's responses. */
  predicate RecordsCompletion(act: seq<Action>, base: seq<seq<string>>, fin: seq<seq<string>>) {
    && |fin| == |base| + |act| && fin[..|base|] == base
    && forall k :: 0 <= k < |act| ==> AllReceived(act[k].responses, fin[|base| + k])
  }

  lemma ConsCompletion(a: Action, act: seq<Action>, base: seq<seq<string>>, mid: seq<seq<string>>, fin: seq<seq<string>>)
    requires |mid| == |base| + 1 && mid[..|base|] == base && AllReceived(a.responses, mid[|base|])
    requires RecordsCompletion(act, mid, fin)
    ensures RecordsCompletion([a] + act, base, fin)
  {
    var n := |base|;
    assert fin[..n] == fin[..n + 1][..n];
    forall k | 0 <= k < |[a] + act| ensures AllReceived(([a] + act)[k].responses, fin[n + k]) {
      if k == 0 {
        assert fin[n] == fin[..n + 1][n];
      } else {
        assert ([a] + act)[k] == act[k - 1];
        assert fin[n + k] == fin[|mid| + (k - 1)];
      }
    }
  }

  /**
   * A pass returns true only when every action it did not skip has completed:
   * one record per active action, in order, each holding all expected responses.
   */
  lemma {:induction false} PassCompletesEveryAction(reg: Registry, uniqNameMap: map<string, UniqRequest>,
                                                    count: int, actions: seq<Action>, st: St)
    requires NamesResolved(actions, uniqNameMap)
    requires RunGroupSpec(reg, uniqNameMap, count, actions, st).0.Pass?
    ensures RecordsCompletion(Active(actions, count), st.finished,
                              RunGroupSpec(reg, uniqNameMap, count, actions, st).1.finished)
    decreases |actions|
  {
    var r := RunGroupSpec(reg, uniqNameMap, count, actions, st);
    if |actions| == 0 {
      assert st.finished[..|st.finished|] == st.finished;
    } else {
      NamesResolvedTail(actions, uniqNameMap);
      var tail := Active(actions[1..], count);
      if Skipped(actions[0], count) {
        assert Active(actions, count) == tail;
        assert r == RunGroupSpec(reg, uniqNameMap, count, actions[1..], st);
        PassCompletesEveryAction(reg, uniqNameMap, count, actions[1..], st);
      } else {
        var one := RunActionSpec(reg, uniqNameMap, actions[0], st);
        assert Active(actions, count) == [actions[0]] + tail;
        assert one.0.Pass?;
        assert r == RunGroupSpec(reg, uniqNameMap, count, actions[1..], one.1);
        PassCompletesEveryAction(reg, uniqNameMap, count, actions[1..], one.1);
        ConsCompletion(actions[0], tail, st.finished, one.1.finished, r.1.finished);
      }
    }
  }

  /** A pass can only time out in an action it ran whose `timeout` is positive; `timeout` = 0 never times out. */
  lemma {:induction false} TimeoutNeedsPositiveTimeout(reg: Registry, uniqNameMap: map<string, UniqRequest>,
                                                       count: int, actions: seq<Action>, st: St)
    requires NamesResolved(actions, uniqNameMap)
    requires RunGroupSpec(reg, uniqNameMap, count, actions, st).0.Fail?
    requires RunGroupSpec(reg, uniqNameMap, count, actions, st).0.error.TimedOut?
    ensures exists k :: 0 <= k < |actions| && !Skipped(actions[k], count) && actions[k].timeout > 0
    decreases |actions|
  {
    NamesResolvedTail(actions, uniqNameMap);
    var one := RunActionSpec(reg, uniqNameMap, actions[0], st);
    if Skipped(actions[0], count) || one.0.Pass? {
      var next := if Skipped(actions[0], count) then st else one.1;
      TimeoutNeedsPositiveTimeout(reg, uniqNameMap, count, actions[1..], next);
      var k :| 0 <= k < |actions[1..]| && !Skipped(actions[1..][k], count) && actions[1..][k].timeout > 0;
      assert actions[k + 1] == actions[1..][k];
    } else {
      assert !Skipped(actions[0], count) && actions[0].timeout > 0;
    }
  }

  /**
   * The one-request, one-response scenario of the engine's test: the head is
   * sent once, the response completes the action within its one-second
   * timeout, and the pass returns true with no error.
   */
  lemma SingleResponseCompletes(reg: Registry, head: Message, t0: int, t1: int, t2: int)
    requires reg.parseText("google.protobuf.Empty", "").Some?
    requires t1 - t0 <= 1
    ensures var empty := Message("google.protobuf.Empty", map[]);
      var uniqNameMap := map["TestRequest1" := UniqRequest(Body("TestRequest1", "google.protobuf.Empty", ""), empty)];
      var action := Action(["TestRequest1"], ["google.protobuf.Empty"], 1, 0, 0);
      var env := Env([t0, t1, t2], [true], [Poll(true, true, Got("google.protobuf.Empty"))]);
      NamesResolved([action], uniqNameMap)
      && RunGroupSpec(reg, uniqNameMap, 0, [action], St(env, head, [], [], [])).0 == Pass
  {
    var empty := Message("google.protobuf.Empty", map[]);
    var uniqNameMap := map["TestRequest1" := UniqRequest(Body("TestRequest1", "google.protobuf.Empty", ""), empty)];
    var action := Action(["TestRequest1"], ["google.protobuf.Empty"], 1, 0, 0);
    var env := Env([t0, t1, t2], [true], [Poll(true, true, Got("google.protobuf.Empty"))]);
    var st := St(env, head, [], [], []);
    assert NamesResolved([action], uniqNameMap);
    var send := SendSpec(reg, uniqNameMap, action.requestUniqNames, st);
    var one := SendOne(reg, uniqNameMap["TestRequest1"], st);
    assert one.0 == Success("google.protobuf.Empty");
    assert action.requestUniqNames[1..] == [];
    assert SendSpec(reg, uniqNameMap, [], one.1) == (Success([]), one.1);
    assert send == (Success(["google.protobuf.Empty"] + []), one.1);
    assert ["google.protobuf.Empty"] + [] == ["google.protobuf.Empty"];
    assert send.1.env.clock == [t0, t1, t2];
    var st2 := send.1.(env := send.1.env.(clock := [t1, t2]));
    assert AllReceived(action.responses, ["google.protobuf.Empty"]);
    assert WaitSpec(action, ["google.protobuf.Empty"], t0, [], st2).0.Completed?;
  }

  // ----- the engine, step by step -----

  /** `done` sent before a send phase with outcome `r`. */
  function Prepend(done: seq<string>, r: (Result<seq<string>, RunError>, St)): (Result<seq<string>, RunError>, St) {
    (if r.0.Success? then Success(done + r.0.value) else r.0, r.1)
  }

  lemma PrependTwice(done: seq<string>, x: string, r: (Result<seq<string>, RunError>, St))
    ensures Prepend(done, Prepend([x], r)) == Prepend(done + [x], r)
  {
    if r.0.Success? {
      assert done + ([x] + r.0.value) == (done + [x]) + r.0.value;
    }
  }

  /** The send phase from the `r`-th name: that request, then the rest. */
  lemma SendSpecAt(reg: Registry, uniqNameMap: map<string, UniqRequest>, names: seq<string>, r: int, st: St)
    requires forall k :: 0 <= k < |names| ==> names[k] in uniqNameMap
    requires 0 <= r < |names|
    ensures var one := SendOne(reg, uniqNameMap[names[r]], st);
      SendSpec(reg, uniqNameMap, names[r..], st)
      == if one.0.Failure? then (Failure(one.0.error), one.1)
         else Prepend([one.0.value], SendSpec(reg, uniqNameMap, names[r + 1..], one.1))
  {
    assert names[r..][0] == names[r] && names[r..][1..] == names[r + 1..];
  }

  /**
   * One request of the send loop: load the body from its text, name its
   * type in the head, and hand both to `send_msg`.
   */
  method SendRequest(reg: Registry, uniqreq: UniqRequest, st0: St) returns (res: Result<string, RunError>, st: St)
    ensures (res, st) == SendOne(reg, uniqreq, st0)
  {
    st := st0;
    var typeName := uniqreq.prototype.typeName;
    var loaded := reg.parseText(typeName, uniqreq.body.text);
    if loaded.None? {
      return Failure(LoadTextFailed(typeName)), st;
    }
    st := st.(head := SetStringField(st.head, TypeNameField, typeName));
    if |st.env.sendResults| == 0 {
      return Failure(ScriptEnded), st;
    }
    var sendOk := st.env.sendResults[0];
    st := st.(env := st.env.(sendResults := st.env.sendResults[1..]),
              sent := st.sent + [(st.head, Message(typeName, loaded.value))]);
    if !sendOk {
      return Failure(SendFailed(typeName)), st;
    }
    res := Success(typeName);
  }

  /** The send loop of `RunGroupOnce` for one action's requests. */
  method SendRequests(reg: Registry, uniqNameMap: map<string, UniqRequest>, names: seq<string>, st0: St)
    returns (res: Result<seq<string>, RunError>, st: St)
    requires forall k :: 0 <= k < |names| ==> names[k] in uniqNameMap
    ensures (res, st) == SendSpec(reg, uniqNameMap, names, st0)
  {
    st := st0;
    var requests: seq<string> := [];
    var r := 0;
    assert names[0..] == names;
    ghost var whole := SendSpec(reg, uniqNameMap, names, st0);
    assert whole == Prepend([], whole) by {
      assert whole.0.Success? ==> [] + whole.0.value == whole.0.value;
    }
    while r < |names|
      invariant 0 <= r <= |names|
      invariant whole == Prepend(requests, SendSpec(reg, uniqNameMap, names[r..], st))
    {
      SendSpecAt(reg, uniqNameMap, names, r, st);
      var one;
      one, st := SendRequest(reg, uniqNameMap[names[r]], st);
      if one.Failure? {
        return Failure(one.error), st;
      }
      PrependTwice(requests, one.value, SendSpec(reg, uniqNameMap, names[r + 1..], st));
      requests := requests + [one.value];
      r := r + 1;
    }
    assert names[|names|..] == [];
    assert requests + [] == requests;
    res := Success(requests);
  }

  /** The wait loop of `RunGroupOnce`: poll until complete, timed out, or failed. */
  method WaitForResponses(a: Action, requests: seq<string>, waitStart: int, st0: St)
    returns (end: WaitEnd, st: St)
    ensures (end, st) == WaitSpec(a, requests, waitStart, [], st0)
  {
    st := st0;
    var received: seq<string> := [];
    while true
      invariant received == [] || !AllReceived(a.responses, received)
      invariant WaitSpec(a, requests, waitStart, [], st0) == WaitSpec(a, requests, waitStart, received, st)
      decreases |st.env.polls|
    {
      if a.timeout > 0 {
        if |st.env.clock| == 0 {
          return WaitFailed(ScriptEnded), st;
        }
        var now := st.env.clock[0];
        st := st.(env := st.env.(clock := st.env.clock[1..]));
        if now - waitStart > a.timeout {
          var timeoutResponses := CalcTimeoutResponses(a.responses, received, []);
          assert timeoutResponses == Missing(a.responses, received);
          return WaitTimedOut(now, received, timeoutResponses), st;
        }
      }
      if |st.env.polls| == 0 {
        return WaitFailed(ScriptEnded), st;
      }
      var p := st.env.polls[0];
      st := st.(env := st.env.(polls := st.env.polls[1..]));
      if !p.sendOk {
        return WaitFailed(NetSendFailed(requests)), st;
      }
      if !p.recvOk {
        return WaitFailed(NetRecvFailed(requests)), st;
      }
      if p.recv.Broken? {
        return WaitFailed(RecvMsgFailed(requests)), st;
      }
      if p.recv.Pending? {
        st := st.(sleeps := st.sleeps + [PollSleepUs]);
        continue;
      }
      received := received + [p.recv.typeName];
      var done := IsActionCompleated(a.responses, received);
      if done {
        return Completed(received), st;
      }
    }
  }

  /**
   * The pacing after the wait: read the clock and, when the action has a
   * `min_duration` the send-and-wait fell short of, sleep the difference.
   */
  method Pace(minDuration: int, waitStart: int, st0: St) returns (ok: bool, st: St)
    ensures ok <==> |st0.env.clock| > 0
    ensures !ok ==> st == st0
    ensures ok ==> st == st0.(env := st0.env.(clock := st0.env.clock[1..]),
                              sleeps := st0.sleeps + PaceSleep(minDuration, st0.env.clock[0] - waitStart))
  {
    st := st0;
    if |st.env.clock| == 0 {
      return false, st;
    }
    var dur := (st.env.clock[0] - waitStart) * 1000;
    st := st.(env := st.env.(clock := st.env.clock[1..]));
    if minDuration > 0 && dur < minDuration {
      st := st.(sleeps := st.sleeps + [(minDuration - dur) * 1000]);
    }
    ok := true;
  }

  /** One action of `RunGroupOnce`: send, wait, pace, and report a timeout. */
  method RunAction(reg: Registry, uniqNameMap: map<string, UniqRequest>, a: Action, st0: St)
    returns (r: Outcome<RunError>, st: St)
    requires forall k :: 0 <= k < |a.requestUniqNames| ==> a.requestUniqNames[k] in uniqNameMap
    ensures (r, st) == RunActionSpec(reg, uniqNameMap, a, st0)
  {
    var sent;
    sent, st := SendRequests(reg, uniqNameMap, a.requestUniqNames, st0);
    if sent.Failure? {
      return Fail(sent.error), st;
    }
    if |st.env.clock| == 0 {
      return Fail(ScriptEnded), st;
    }
    var waitStart := st.env.clock[0];
    st := st.(env := st.env.(clock := st.env.clock[1..]));
    var end;
    end, st := WaitForResponses(a, sent.value, waitStart, st);
    r, st := FinishAction(a, sent.value, waitStart, end, st);
  }

  /** After the wait: report a wait error, else pace, then report a timeout or record the completion. */
  method FinishAction(a: Action, requests: seq<string>, waitStart: int, end: WaitEnd, st0: St)
    returns (r: Outcome<RunError>, st: St)
    ensures (r, st) == AfterWait(a, requests, waitStart, (end, st0))
  {
    st := st0;
    if end.WaitFailed? {
      return Fail(end.error), st;
    }
    var paced;
    paced, st := Pace(a.minDuration, waitStart, st);
    if !paced {
      return Fail(ScriptEnded), st;
    }
    if end.WaitTimedOut? {
      return Fail(TimedOut(requests, end.missing)), st;
    }
    st := st.(finished := st.finished + [end.received]);
    r := Pass;
  }

  /** `RunGroupOnce(count, ...)`: true when every action that is not skipped completed. */
  method RunGroupOnce(reg: Registry, uniqNameMap: map<string, UniqRequest>, count: int, group: Group, st0: St)
    returns (r: Outcome<RunError>, st: St)
    requires NamesResolved(group.actions, uniqNameMap)
    ensures (r, st) == RunGroupSpec(reg, uniqNameMap, count, group.actions, st0)
  {
    st := st0;
    var i := 0;
    while i < |group.actions|
      invariant 0 <= i <= |group.actions|
      invariant NamesResolved(group.actions[i..], uniqNameMap)
      invariant RunGroupSpec(reg, uniqNameMap, count, group.actions, st0)
        == RunGroupSpec(reg, uniqNameMap, count, group.actions[i..], st)
    {
      RunGroupSpecAt(reg, uniqNameMap, count, group.actions, i, st);
      var actioncfg := group.actions[i];
      if actioncfg.stopLoopCount > 0 && count >= actioncfg.stopLoopCount {
        i := i + 1;
        continue;
      }
      r, st := RunAction(reg, uniqNameMap, actioncfg, st);
      if r.Fail? {
        return;
      }
      i := i + 1;
    }
    assert group.actions[i..] == [];
    r := Pass;
  }

  /** The group pass from the `i`-th action: that action (unless skipped), then the rest. */
  lemma RunGroupSpecAt(reg: Registry, uniqNameMap: map<string, UniqRequest>, count: int, actions: seq<Action>, i: int, st: St)
    requires 0 <= i < |actions| && NamesResolved(actions[i..], uniqNameMap)
    ensures NamesResolved(actions[i + 1..], uniqNameMap)
    ensures forall k :: 0 <= k < |actions[i].requestUniqNames| ==> actions[i].requestUniqNames[k] in uniqNameMap
    ensures RunGroupSpec(reg, uniqNameMap, count, actions[i..], st)
      == if Skipped(actions[i], count) then RunGroupSpec(reg, uniqNameMap, count, actions[i + 1..], st)
         else
           var one := RunActionSpec(reg, uniqNameMap, actions[i], st);
           if one.0.Fail? then one else RunGroupSpec(reg, uniqNameMap, count, actions[i + 1..], one.1)
  {
    NamesResolvedTail(actions[i..], uniqNameMap);
    assert actions[i..][0] == actions[i] && actions[i..][1..] == actions[i + 1..];
  }

  // ----- RobotClientWorker -----

  /** `pbcfg::CsMsgHead`, the head type the robot sends. */
  const CsMsgHeadType: string := "pbcfg.CsMsgHead"

  /** The head a worker starts from: the client's uid and role time, `ret` = 0. */
  function InitialHead(c: ClientCfg): Message {
    Message(CsMsgHeadType, map["uid" := Int(c.uid), "role_tm" := Int(c.roleTime), "ret" := Int(0)])
  }

  /** How a worker ended: connected or not, how many group passes succeeded, the failure that stopped it. */
  datatype WorkerEnd = WorkerEnd(connected: bool, runs: int, failure: Option<RunError>, st: St)

  /** The loop of `RobotClientWorker` from pass `count` on. */
  function WorkerLoop(reg: Registry, uniqNameMap: map<string, UniqRequest>, actions: seq<Action>,
                      loopCount: int, count: int, st: St): (r: (int, Option<RunError>, St))
    requires NamesResolved(actions, uniqNameMap)
    ensures count <= r.0
    ensures r.1.None? <==> r.0 == (if count < loopCount then loopCount else count)
    ensures r.1.Some? ==> r.0 < loopCount
    decreases loopCount - count
  {
    if count >= loopCount then (count, None, st)
    else
      var pass := RunGroupSpec(reg, uniqNameMap, count, actions, st);
      if pass.0.Fail? then (count, Some(pass.0.error), pass.1)
      else WorkerLoop(reg, uniqNameMap, actions, loopCount, count + 1, pass.1)
  }

  /** `RobotClientWorker`: connect a fresh client, then run the group `loop_count` times. */
  function WorkerSpec(reg: Registry, uniqNameMap: map<string, UniqRequest>, group: Group, clientIndex: int,
                      pton: (Family, string) -> bool, sys: SocketOutcome, env: Env): WorkerEnd
    requires 0 <= clientIndex < |group.clients| && NamesResolved(group.actions, uniqNameMap)
  {
    var st := St(env, InitialHead(group.clients[clientIndex]), [], [], []);
    if TcpConnect(group.peerAddr, pton, sys) == -1 then WorkerEnd(false, 0, None, st)
    else
      var l := WorkerLoop(reg, uniqNameMap, group.actions, group.loopCount, 0, st);
      WorkerEnd(true, l.0, l.1, l.2)
  }

  lemma {:induction false} WorkerLoopKeepsHeads(reg: Registry, uniqNameMap: map<string, UniqRequest>, actions: seq<Action>,
                                                loopCount: int, count: int, st: St, base: Message)
    requires NamesResolved(actions, uniqNameMap)
    requires HeadsSound(st, base)
    ensures HeadsSound(WorkerLoop(reg, uniqNameMap, actions, loopCount, count, st).2, base)
    decreases loopCount - count
  {
    if count < loopCount {
      RunGroupKeepsHeads(reg, uniqNameMap, count, actions, st, base);
      var pass := RunGroupSpec(reg, uniqNameMap, count, actions, st);
      if pass.0.Pass? {
        WorkerLoopKeepsHeads(reg, uniqNameMap, actions, loopCount, count + 1, pass.1, base);
      }
    }
  }

  /**
   * What a worker does: without a connection it sends nothing; connected, it
   * runs the group `loop_count` times unless a pass fails first, and every
   * request it sends carries its client's `uid` and `role_tm` and names its
   * body's type.
   */
  lemma WorkerOutcome(reg: Registry, uniqNameMap: map<string, UniqRequest>, group: Group, clientIndex: int,
                      pton: (Family, string) -> bool, sys: SocketOutcome, env: Env)
    requires 0 <= clientIndex < |group.clients| && NamesResolved(group.actions, uniqNameMap)
    ensures var end := WorkerSpec(reg, uniqNameMap, group, clientIndex, pton, sys, env);
      && (end.connected <==> TcpConnect(group.peerAddr, pton, sys) != -1)
      && (!end.connected ==> end.runs == 0 && end.failure.None? && end.st.sent == [])
      && (end.connected && end.failure.None? ==> end.runs == (if group.loopCount < 0 then 0 else group.loopCount))
      && (end.failure.Some? ==> 0 <= end.runs < group.loopCount)
      && HeadsSound(end.st, InitialHead(group.clients[clientIndex]))
  {
    var base := InitialHead(group.clients[clientIndex]);
    var st := St(env, base, [], [], []);
    if TcpConnect(group.peerAddr, pton, sys) != -1 {
      WorkerLoopKeepsHeads(reg, uniqNameMap, group.actions, group.loopCount, 0, st, base);
    }
  }

  /**
   * `RobotClientWorker(data, group)`, for the client at `clientIndex`
   * (`data - 1`). `pton` and `sys` stand for the address conversion and the
   * socket calls of the connection attempt.
   */
  method RobotClientWorker(reg: Registry, uniqNameMap: map<string, UniqRequest>, group: Group, clientIndex: int,
                           pton: (Family, string) -> bool, sys: SocketOutcome, env: Env)
    returns (end: WorkerEnd)
    requires 0 <= clientIndex < |group.clients| && NamesResolved(group.actions, uniqNameMap)
    ensures end == WorkerSpec(reg, uniqNameMap, group, clientIndex, pton, sys, env)
  {
    var clientcfg := group.clients[clientIndex];
    var st := St(env, InitialHead(clientcfg), [], [], []);
    var client := new Transport.Client(group.maxPkgLen, group.hasChecksum);
    var connected := client.TryConnectToPeer(group.peerAddr, pton, sys);
    if !connected {
      return WorkerEnd(false, 0, None, st);
    }
    var count, err;
    count, err, st := RunLoops(reg, uniqNameMap, group, st);
    end := WorkerEnd(true, count, err, st);
  }

  /** The worker's `loop_count` loop: one group pass per round, stopping at the first that fails. */
  method RunLoops(reg: Registry, uniqNameMap: map<string, UniqRequest>, group: Group, st0: St)
    returns (count: int, err: Option<RunError>, st: St)
    requires NamesResolved(group.actions, uniqNameMap)
    ensures (count, err, st) == WorkerLoop(reg, uniqNameMap, group.actions, group.loopCount, 0, st0)
  {
    st := st0;
    count := 0;
    while count < group.loopCount
      invariant 0 <= count <= (if group.loopCount < 0 then 0 else group.loopCount)
      invariant WorkerLoop(reg, uniqNameMap, group.actions, group.loopCount, 0, st0)
        == WorkerLoop(reg, uniqNameMap, group.actions, group.loopCount, count, st)
    {
      ghost var before := st;
      var r;
      r, st := RunGroupOnce(reg, uniqNameMap, count, group, st);
      if r.Fail? {
        assert WorkerLoop(reg, uniqNameMap, group.actions, group.loopCount, count, before) == (count, Some(r.error), st);
        return count, Some(r.error), st;
      }
      assert WorkerLoop(reg, uniqNameMap, group.actions, group.loopCount, count, before)
          == WorkerLoop(reg, uniqNameMap, group.actions, group.loopCount, count + 1, st);
      count := count + 1;
    }
    assert WorkerLoop(reg, uniqNameMap, group.actions, group.loopCount, count, st) == (count, None, st);
    err := None;
  }
}
