/** The example application: a cyclic message cursor, the loop that
    prints messages until the first repeat, and an output service that
    forwards every message to its slaves. Writing to a file or to standard
    output is replaced by a log of deliveries. */
module Hello {
  import opened Wrappers
  import opened Dicts

  /** `Messages`: the list of messages and the cursor of the next one. */
  datatype Messages = Messages(messages: seq<string>, cursor: nat)

  datatype MessageError =
    | NoMessages   // `get_next` on an empty list raises
    | OutOfRange   // `messages[cursor]` with the cursor past the end

  /** The states `Messages` can be in: a fresh object has cursor 0, and
      `get_next` keeps the cursor inside the list. */
  predicate Valid(m: Messages) {
    m.cursor == 0 || m.cursor < |m.messages|
  }

  /** The step `get_next` takes once its checks pass: the message under
      the cursor, and the cursor moved on, wrapping to 0 at the end. */
  function Advance(m: Messages): (r: (string, Messages))
    requires m.cursor < |m.messages|
    ensures r.0 == m.messages[m.cursor]
    ensures r.1.messages == m.messages && r.1.cursor == (m.cursor + 1) % |m.messages|
  {
    var c := m.cursor + 1;
    (m.messages[m.cursor], m.(cursor := if c >= |m.messages| then 0 else c))
  }

  /** `get_next`: fails on an empty list; otherwise the message under the
      cursor, with the cursor moved on. */
  function GetNext(m: Messages): (r: Result<(string, Messages), MessageError>)
    ensures |m.messages| == 0 <==> r == Failure(NoMessages)
    ensures r.Success? <==> m.cursor < |m.messages|
    ensures Valid(m) && |m.messages| > 0 ==> r.Success?
    ensures r.Success? ==> r.value.0 == m.messages[m.cursor] && r.value.1.messages == m.messages
    ensures r.Success? ==> r.value.1.cursor == (m.cursor + 1) % |m.messages| && Valid(r.value.1)
  {
    if |m.messages| > 0 then
      if m.cursor >= |m.messages| then Failure(OutOfRange)
      else Success(Advance(m))
    else Failure(NoMessages)
  }

  /** The messages `k` successive calls return, and the state after them. */
  function Calls(m: Messages, k: nat): (r: (seq<string>, Messages))
    requires m.cursor < |m.messages|
    ensures |r.0| == k && r.1.messages == m.messages && r.1.cursor < |m.messages|
    decreases k
  {
    if k == 0 then ([], m)
    else
      var step := Advance(m);
      var rest := Calls(step.1, k - 1);
      ([step.0] + rest.0, rest.1)
  }

  /** One `get_next` call is the first of the successive calls `Calls`
      describes: same message, same state afterwards. */
  lemma GetNextIsOneCall(m: Messages)
    requires m.cursor < |m.messages|
    ensures GetNext(m) == Success((Calls(m, 1).0[0], Calls(m, 1).1))
  {
  }

  /** Calls that do not reach the end of the list return the next slice
      of it; the cursor wraps to 0 when they reach the end. */
  lemma {:induction false} CallsSlice(msgs: seq<string>, c: nat, j: nat)
    requires c < |msgs| && c + j <= |msgs|
    ensures Calls(Messages(msgs, c), j).0 == msgs[c..c + j]
    ensures c + j < |msgs| ==> Calls(Messages(msgs, c), j).1 == Messages(msgs, c + j)
    ensures c + j == |msgs| ==> Calls(Messages(msgs, c), j).1 == Messages(msgs, 0)
    decreases j
  {
    var m := Messages(msgs, c);
    if j > 0 {
      var m1 := Messages(msgs, if c + 1 == |msgs| then 0 else c + 1);
      assert Advance(m) == (msgs[c], m1);
      var r1 := Calls(m1, j - 1);
      assert Calls(m, j) == ([msgs[c]] + r1.0, r1.1);
      if c + 1 < |msgs| {
        CallsSlice(msgs, c + 1, j - 1);
      } else {
        assert r1 == ([], m1);
        assert msgs[c + 1..c + j] == [];
      }
      SliceCons(msgs, c, j);
    } else {
      assert Calls(m, 0) == ([], m);
      assert msgs[c..c] == [];
    }
  }

  lemma SliceCons<T>(s: seq<T>, c: nat, j: nat)
    requires 0 < j && c + j <= |s|
    ensures s[c..c + j] == [s[c]] + s[c + 1..c + j]
  {
    var whole, parts := s[c..c + j], [s[c]] + s[c + 1..c + j];
    forall i | 0 <= i < j ensures whole[i] == parts[i] {
      if i > 0 {
        assert parts[i] == s[c + 1..c + j][i - 1];
      }
    }
  }

  /** Calls compose: `a + b` calls are `a` calls followed by `b` more. */
  lemma {:induction false} CallsAppend(m: Messages, a: nat, b: nat)
    requires m.cursor < |m.messages|
    ensures var mid := Calls(m, a).1;
      Calls(m, a + b).0 == Calls(m, a).0 + Calls(mid, b).0 && Calls(m, a + b).1 == Calls(mid, b).1
    decreases a
  {
    if a > 0 {
      var step := Advance(m);
      CallsAppend(step.1, a - 1, b);
      var r := Calls(step.1, a - 1);
      assert Calls(m, a) == ([step.0] + r.0, r.1);
      assert Calls(m, a + b) == ([step.0] + Calls(step.1, a - 1 + b).0, Calls(step.1, a - 1 + b).1);
      assert [step.0] + (r.0 + Calls(r.1, b).0) == ([step.0] + r.0) + Calls(r.1, b).0;
    } else {
      assert Calls(m, a) == ([], m);
      assert [] + Calls(m, b).0 == Calls(m, b).0;
    }
  }

  /** Calls from a fresh cursor that stop short of the end return the head
      of the list and leave the cursor after it. */
  lemma CallsFromStart(msgs: seq<string>, c: nat)
    requires c < |msgs|
    ensures Calls(Messages(msgs, 0), c).0 == msgs[..c]
    ensures Calls(Messages(msgs, 0), c).1 == Messages(msgs, c)
  {
    CallsSlice(msgs, 0, c);
    assert msgs[0..0 + c] == msgs[..c];
  }

  /** `CallsAppend` at a given total. */
  lemma CallsSplit(m: Messages, a: nat, b: nat, n: nat)
    requires m.cursor < |m.messages| && n == a + b
    ensures var mid := Calls(m, a).1;
      Calls(m, n).0 == Calls(m, a).0 + Calls(mid, b).0 && Calls(m, n).1 == Calls(mid, b).1
  {
    CallsAppend(m, a, b);
  }

  /** One round of calls returns the list rotated to the cursor and leaves
      the cursor where it started. */
  lemma CallsRound(msgs: seq<string>, c: nat, j: nat)
    requires c < |msgs| && c + j == |msgs|
    ensures Calls(Messages(msgs, c), |msgs|).0 == msgs[c..] + msgs[..c]
    ensures Calls(Messages(msgs, c), |msgs|).1 == Messages(msgs, c)
  {
    var m := Messages(msgs, c);
    CallsSlice(msgs, c, j);
    assert msgs[c..c + j] == msgs[c..];
    CallsFromStart(msgs, c);
    CallsSplit(m, j, c, |msgs|);
  }

  /** `get_next` is periodic: after a full round the calls repeat. */
  lemma CallsPeriodic(msgs: seq<string>, c: nat, k: nat)
    requires c < |msgs|
    ensures var m := Messages(msgs, c);
      Calls(m, |msgs| + k).0 == Calls(m, |msgs|).0 + Calls(m, k).0 && Calls(m, |msgs| + k).1 == Calls(m, k).1
  {
    CallsAppend(Messages(msgs, c), |msgs|, k);
    CallsRound(msgs, c, |msgs| - c);
  }

  /** A fresh `Messages` returns its list in order, then starts over. */
  lemma FreshCursorCycles(msgs: seq<string>, k: nat)
    requires |msgs| > 0
    ensures k <= |msgs| ==> Calls(Messages(msgs, 0), k).0 == msgs[..k]
    ensures Calls(Messages(msgs, 0), |msgs| + k).0 == msgs + Calls(Messages(msgs, 0), k).0
  {
    if k <= |msgs| {
      CallsSlice(msgs, 0, k);
      assert msgs[0..0 + k] == msgs[..k];
    }
    CallsPeriodic(msgs, 0, k);
    CallsRound(msgs, 0, |msgs|);
    assert msgs[0..] + msgs[..0] == msgs;
  }

  /** `out` is what the loop of `Hello.run` outputs: the messages of
      successive calls, all different, up to the first one that repeats. */
  ghost predicate RunOutput(m: Messages, out: seq<string>)
    requires m.cursor < |m.messages|
  {
    && |out| > 0
    && Distinct(out)
    && out == Calls(m, |out|).0
    && Calls(m, |out| + 1).0[|out|] in out
  }

  /** `Hello.run`: output each message `get_next` returns until one comes
      back that was output already. Returns what was output, or the error
      of `get_next`. */
  method Run(m: Messages) returns (r: Result<seq<string>, MessageError>)
    requires Valid(m)
    ensures |m.messages| == 0 <==> r == Failure(NoMessages)
    ensures |m.messages| > 0 ==> r.Success?
    ensures r.Success? ==> |m.messages| > 0 && RunOutput(m, r.value)
  {
    if |m.messages| == 0 {
      return Failure(NoMessages);
    }
    var seen: set<string> := {};
    var out: seq<string> := [];
    var cur := m;
    while true
      invariant cur.messages == m.messages && cur.cursor < |m.messages|
      invariant Calls(m, |out|) == (out, cur)
      invariant seen == set x | x in out
      invariant seen <= set x | x in m.messages
      invariant Distinct(out)
      decreases |set x | x in m.messages| - |seen|
    {
      var (next, cur') := Advance(cur);
      assert GetNext(cur) == Success((next, cur'));
      CallsSnoc(m, |out|);
      if next !in seen {
        ExtendDistinct(out, seen, next);
        SubsetCard(seen + {next}, set x | x in m.messages);
        out, seen, cur := out + [next], seen + {next}, cur';
      } else {
        return Success(out);
      }
    }
  }

  /** Appending a message not seen yet keeps the output free of repeats. */
  lemma ExtendDistinct(out: seq<string>, seen: set<string>, next: string)
    requires Distinct(out) && seen == (set x | x in out) && next !in seen
    ensures Distinct(out + [next]) && seen + {next} == set x | x in out + [next]
  {
    var out' := out + [next];
    forall i, j | 0 <= i < j < |out'| ensures out'[i] != out'[j] {
      if j == |out| {
        assert out'[i] == out[i] && out[i] in seen;
      }
    }
  }

  /** Fewer calls than the list is long, from a fresh cursor, have not
      yet met a repeat when the messages are all different. */
  lemma FreshShortRunNoRepeat(msgs: seq<string>, k: nat)
    requires Distinct(msgs) && k < |msgs|
    ensures Calls(Messages(msgs, 0), k + 1).0[k] !in Calls(Messages(msgs, 0), k).0
  {
    FreshCursorCycles(msgs, k);
    FreshCursorCycles(msgs, k + 1);
    forall i | 0 <= i < k ensures msgs[..k][i] != msgs[k] {
      assert msgs[..k][i] == msgs[i];
    }
  }

  /** More calls than the list is long return its first message twice. */
  lemma FreshLongRunRepeats(msgs: seq<string>, k: nat)
    requires 0 < |msgs| < k
    ensures !Distinct(Calls(Messages(msgs, 0), k).0)
  {
    var n, m0 := |msgs|, Messages(msgs, 0);
    FreshCursorCycles(msgs, k - n);
    CallsAppend(m0, 1, k - n - 1);
    FreshCursorCycles(msgs, 1);
    var out := Calls(m0, k).0;
    assert out[n] == Calls(m0, k - n).0[0] == msgs[0] == out[0];
  }

  /** A fresh `Messages` whose messages are all different outputs exactly
      its list, once, in order. */
  lemma FreshRunOutputsList(msgs: seq<string>, out: seq<string>)
    requires |msgs| > 0 && Distinct(msgs)
    requires RunOutput(Messages(msgs, 0), out)
    ensures out == msgs
  {
    if |out| < |msgs| {
      FreshShortRunNoRepeat(msgs, |out|);
      assert false;
    } else if |out| > |msgs| {
      FreshLongRunRepeats(msgs, |out|);
      assert false;
    } else {
      FreshCursorCycles(msgs, |msgs|);
      assert msgs[..|msgs|] == msgs;
    }
  }

  /** One call more appends the next message to what the calls returned. */
  lemma CallsSnoc(m: Messages, k: nat)
    requires m.cursor < |m.messages|
    ensures var m' := Calls(m, k).1;
      Calls(m, k + 1) == (Calls(m, k).0 + [Advance(m').0], Advance(m').1)
  {
    CallsAppend(m, k, 1);
    var m' := Calls(m, k).1;
    var step := Advance(m');
    assert Calls(m', 1) == ([step.0] + Calls(step.1, 0).0, Calls(step.1, 0).1);
    assert [step.0] + [] == [step.0];
  }

  lemma SubsetCard<T>(a: set<T>, b: set<T>)
    requires a <= b
    ensures |a| <= |b|
  {
    assert b == a + (b - a);
  }

  // ---------------------------------------------------------------------
  // MasterOutputService
  // ---------------------------------------------------------------------

  /** One message handed to one output service. */
  datatype Delivery = Delivery(sink: nat, message: string)

  /** `MasterOutputService.output`: the message goes to every slave, in
      the order of the list. */
  function Fanout(slaves: seq<nat>, message: string): (log: seq<Delivery>)
    ensures |log| == |slaves|
    ensures forall i | 0 <= i < |slaves| :: log[i] == Delivery(slaves[i], message)
  {
    if slaves == [] then [] else [Delivery(slaves[0], message)] + Fanout(slaves[1..], message)
  }

  /** The deliveries of a run through a master service: each message in
      turn, fanned out to the slaves. */
  function Broadcast(slaves: seq<nat>, messages: seq<string>): (r: seq<Delivery>) {
    if messages == [] then [] else Fanout(slaves, messages[0]) + Broadcast(slaves, messages[1..])
  }

  /** What one output service received, in order. */
  function Received(log: seq<Delivery>, sink: nat): (r: seq<string>) {
    if log == [] then []
    else (if log[0].sink == sink then [log[0].message] else []) + Received(log[1..], sink)
  }

  lemma {:induction false} ReceivedAppend(a: seq<Delivery>, b: seq<Delivery>, sink: nat)
    ensures Received(a + b, sink) == Received(a, sink) + Received(b, sink)
    decreases |a|
  {
    if a != [] {
      assert (a + b)[1..] == a[1..] + b;
      ReceivedAppend(a[1..], b, sink);
    } else {
      assert a + b == b;
    }
  }

  /** A slave listed once receives the message once; a service not listed
      receives nothing. */
  lemma {:induction false} FanoutReceivedOnce(slaves: seq<nat>, message: string, sink: nat)
    requires Distinct(slaves)
    ensures sink !in slaves ==> Received(Fanout(slaves, message), sink) == []
    ensures sink in slaves ==> Received(Fanout(slaves, message), sink) == [message]
    decreases |slaves|
  {
    if slaves != [] {
      assert Fanout(slaves, message)[1..] == Fanout(slaves[1..], message);
      assert Distinct(slaves[1..]);
      FanoutReceivedOnce(slaves[1..], message, sink);
      if slaves[0] == sink {
        assert sink !in slaves[1..];
      }
    }
  }

  /** Every slave of a master service with distinct slaves receives
      exactly the messages the run output, in the same order; a service
      that is not a slave receives nothing. */
  lemma {:induction false} SlavesReceiveRun(slaves: seq<nat>, messages: seq<string>, sink: nat)
    requires Distinct(slaves)
    ensures sink in slaves ==> Received(Broadcast(slaves, messages), sink) == messages
    ensures sink !in slaves ==> Received(Broadcast(slaves, messages), sink) == []
    decreases |messages|
  {
    if messages != [] {
      var head, tail := Fanout(slaves, messages[0]), Broadcast(slaves, messages[1..]);
      assert Broadcast(slaves, messages) == head + tail;
      ReceivedAppend(head, tail, sink);
      FanoutReceivedOnce(slaves, messages[0], sink);
      SlavesReceiveRun(slaves, messages[1..], sink);
      if sink in slaves {
        assert [messages[0]] + messages[1..] == messages;
      } else {
        assert Received(head, sink) + Received(tail, sink) == [];
      }
    }
  }
}
