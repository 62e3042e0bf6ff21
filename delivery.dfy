/**
  The delivery loop: each part of the split response is stripped and, unless blank, sent as its
  own message, after a pause that grows with its length (from the second loop position on),
  with an optional typing pause, as a reply when a `[reply:...]` directive names a handle found
  in the history. Waiting and sending are recorded as actions; times are in hundredths of a
  second.
*/
module Delivery {
  import opened Wrappers
  import opened Text
  import opened Chat
  import opened Segmenter
  import opened Directives

  /** One observable step: wait, wait while showing "typing", reply to the history message at
      index `target`, or send to the channel. */
  datatype Action =
    | Delay(centis: nat)
    | Typing(centis: nat)
    | Reply(target: nat, text: string)
    | Send(text: string)

  /** The pause before the part at loop index `i`: none for the first index, otherwise half a
      second plus a hundredth per character, at most a second and a half. */
  function PauseBefore(i: nat, part: string): (pause: seq<Action>)
    ensures pause != [] <==> i > 0
    ensures |pause| <= 1
    ensures forall a :: a in pause ==>
      a.Delay? && 50 <= a.centis <= 150 &&
      (|part| <= 100 ==> a.centis == 50 + |part|) && (|part| >= 100 ==> a.centis == 150)
  {
    if i > 0 then [Delay(Min(50 + |part|, 150))] else []
  }

  /** The typing pause: a hundredth per character up to two seconds, taken only when the
      indicator is enabled and the pause exceeds 0.3 seconds. */
  function TypingFor(text: string, showTyping: bool): (typing: seq<Action>)
    ensures typing != [] <==> showTyping && |text| > 30
    ensures |typing| <= 1
    ensures forall a :: a in typing ==>
      a.Typing? && 30 < a.centis <= 200 &&
      (|text| <= 200 ==> a.centis == |text|) && (|text| >= 200 ==> a.centis == 200)
  {
    var t := Min(|text|, 200);
    if showTyping && t > 30 then [Typing(t)] else []
  }

  function MessageOf(out: Outgoing): Action
  {
    match out.replyTo
    case Some(k) => Reply(k, out.text)
    case None => Send(out.text)
  }

  /** Sending the stripped part `s` at loop index `i` as `out`: the pause, the typing pause,
      then the message. */
  function Emit(i: nat, s: string, out: Outgoing, showTyping: bool): seq<Action>
  {
    PauseBefore(i, s) + TypingFor(out.text, showTyping) + [MessageOf(out)]
  }

  /** What the loop does for the part at index `i`. */
  function PartActions(i: nat, part: string, history: seq<Event>, showTyping: bool): (acts: seq<Action>)
    ensures acts == [] <==> Strip(part) == []
    ensures acts != [] ==> acts[|acts| - 1] == MessageOf(ProcessPart(Strip(part), history))
  {
    var s := Strip(part);
    if s == [] then [] else Emit(i, s, ProcessPart(s, history), showTyping)
  }

  /** Everything the loop does for `parts`, in order. */
  function Plan(parts: seq<string>, history: seq<Event>, showTyping: bool): seq<Action>
    decreases |parts|
  {
    if parts == [] then []
    else
      var n := |parts| - 1;
      Plan(parts[..n], history, showTyping) + PartActions(n, parts[n], history, showTyping)
  }

  lemma PlanSnoc(parts: seq<string>, i: nat, history: seq<Event>, showTyping: bool)
    requires i < |parts|
    ensures Plan(parts[..i + 1], history, showTyping) ==
      Plan(parts[..i], history, showTyping) + PartActions(i, parts[i], history, showTyping)
  {
    assert parts[..i + 1][..i] == parts[..i];
  }

  /** The handler's loop over the parts. */
  method Deliver(parts: seq<string>, history: seq<Event>, showTyping: bool) returns (actions: seq<Action>)
    ensures actions == Plan(parts, history, showTyping)
  {
    actions := [];
    var i := 0;
    while i < |parts|
      invariant 0 <= i <= |parts|
      invariant actions == Plan(parts[..i], history, showTyping)
    {
      var step := ActOnPart(i, parts[i], history, showTyping);
      PlanSnoc(parts, i, history, showTyping);
      actions := actions + step;
      i := i + 1;
    }
    assert parts[..i] == parts;
  }

  /** The body of the loop for the part at index `i`: strip it and skip it when blank; pause
      unless it is the first index; take off a reply directive and look up its target; rewrite
      the mentions; show typing when enabled and long enough; then reply or send. */
  method ActOnPart(i: nat, part: string, history: seq<Event>, showTyping: bool) returns (step: seq<Action>)
    ensures step == PartActions(i, part, history, showTyping)
  {
    var stripped := Strip(part);
    if stripped == [] {
      return [];
    }
    var pause: seq<Action> := [];
    if i > 0 {
      pause := [Delay(Min(50 + |stripped|, 150))];
    }
    var target: Option<nat> := None;
    var directive := ParseReply(stripped);
    var body := stripped;
    if directive.Some? {
      body := directive.value.body;
      target := FindReplyTarget(history, directive.value.handle);
    }
    var text := ResolveMentions(body, history);
    assert Outgoing(target, text) == ProcessPart(stripped, history);
    var typing: seq<Action> := [];
    if showTyping {
      var t := Min(|text|, 200);
      if t > 30 {
        typing := [Typing(t)];
      }
    }
    var message := if target.Some? then Reply(target.value, text) else Send(text);
    step := pause + typing + [message];
  }

  /** The texts that go out, in order. */
  function Sent(actions: seq<Action>): seq<string>
    decreases |actions|
  {
    if actions == [] then []
    else
      var a := actions[|actions| - 1];
      Sent(actions[..|actions| - 1]) + (if a.Reply? || a.Send? then [a.text] else [])
  }

  lemma {:induction false} SentConcat(a: seq<Action>, b: seq<Action>)
    ensures Sent(a + b) == Sent(a) + Sent(b)
    decreases |b|
  {
    if b == [] {
      assert a + b == a;
    } else {
      var b', last := b[..|b| - 1], b[|b| - 1];
      assert a + b == (a + b') + [last];
      assert (a + b)[..|a + b| - 1] == a + b';
      SentConcat(a, b');
    }
  }

  /** The rewritten texts of stripped, non-blank parts. */
  function Rewritten(sent: seq<string>, history: seq<Event>): (texts: seq<string>)
    ensures |texts| == |sent|
  {
    seq(|sent|, k requires 0 <= k < |sent| => ProcessPart(sent[k], history).text)
  }

  lemma PartSends(i: nat, part: string, history: seq<Event>, showTyping: bool)
    ensures Sent(PartActions(i, part, history, showTyping)) == Rewritten(Kept(part), history)
  {
    var s := Strip(part);
    if s != [] {
      var out := ProcessPart(s, history);
      EmitSends(i, s, out, showTyping);
      assert Kept(part) == [s];
    }
  }

  /** The pause and the typing indicator send nothing: only the message itself is sent. */
  lemma EmitSends(i: nat, s: string, out: Outgoing, showTyping: bool)
    ensures Sent(Emit(i, s, out, showTyping)) == [out.text]
  {
    var pause, typing := PauseBefore(i, s), TypingFor(out.text, showTyping);
    var pre := pause + typing;
    assert Sent(pre) == [] by {
      forall k | 0 <= k < |pre| ensures pre[k].Delay? || pre[k].Typing? {
        if k < |pause| { assert pre[k] == pause[k]; } else { assert pre[k] == typing[k - |pause|]; }
      }
      NothingSent(pre);
    }
    var acts := pre + [MessageOf(out)];
    assert acts[..|acts| - 1] == pre;
  }

  lemma {:induction false} NothingSent(actions: seq<Action>)
    requires forall k :: 0 <= k < |actions| ==> actions[k].Delay? || actions[k].Typing?
    ensures Sent(actions) == []
    decreases |actions|
  {
    if actions != [] {
      NothingSent(actions[..|actions| - 1]);
    }
  }

  lemma RewrittenConcat(a: seq<string>, b: seq<string>, history: seq<Event>)
    ensures Rewritten(a + b, history) == Rewritten(a, history) + Rewritten(b, history)
  {
    var r, ra, rb := Rewritten(a + b, history), Rewritten(a, history), Rewritten(b, history);
    forall k | 0 <= k < |r| ensures r[k] == (ra + rb)[k] {
      if k < |a| {
        assert (a + b)[k] == a[k];
      } else {
        assert (a + b)[k] == b[k - |a|];
      }
    }
  }

  /** The messages the loop sends are, in order, the stripped non-blank parts with their reply
      directive removed and their mentions rewritten: one message per such part. */
  lemma {:induction false} PlanSendsDeliverable(parts: seq<string>, history: seq<Event>, showTyping: bool)
    ensures Sent(Plan(parts, history, showTyping)) == Rewritten(Deliverable(parts), history)
    decreases |parts|
  {
    if parts != [] {
      var n := |parts| - 1;
      var init := parts[..n];
      PlanSendsDeliverable(init, history, showTyping);
      SentConcat(Plan(init, history, showTyping), PartActions(n, parts[n], history, showTyping));
      PartSends(n, parts[n], history, showTyping);
      RewrittenConcat(Deliverable(init), Kept(parts[n]), history);
    }
  }

  /** The bounds PlanBounds states, for one action. */
  predicate WithinBounds(a: Action, historySize: nat, showTyping: bool)
  {
    (a.Delay? ==> 51 <= a.centis <= 150) &&
    (a.Typing? ==> showTyping && 31 <= a.centis <= 200) &&
    (a.Reply? ==> a.target < historySize)
  }

  lemma PartBounds(i: nat, part: string, history: seq<Event>, showTyping: bool)
    ensures forall a :: a in PartActions(i, part, history, showTyping) ==> WithinBounds(a, |history|, showTyping)
  {
    var s := Strip(part);
    if s != [] {
      EmitBounds(i, s, ProcessPart(s, history), showTyping, |history|);
    }
  }

  lemma EmitBounds(i: nat, s: string, out: Outgoing, showTyping: bool, historySize: nat)
    requires s != []
    requires out.replyTo.Some? ==> out.replyTo.value < historySize
    ensures forall a :: a in Emit(i, s, out, showTyping) ==> WithinBounds(a, historySize, showTyping)
  {
    var p, t, m := PauseBefore(i, s), TypingFor(out.text, showTyping), MessageOf(out);
    assert Emit(i, s, out, showTyping) == p + t + [m];
    assert forall a :: a in p ==> WithinBounds(a, historySize, showTyping);
    assert forall a :: a in t ==> WithinBounds(a, historySize, showTyping);
    assert WithinBounds(m, historySize, showTyping);
  }

  /** Pauses between messages last from just over half a second to a second and a half;
      typing pauses from just over 0.3 to 2 seconds, and only when the indicator is enabled.
      Every reply goes to a message of the history. */
  lemma {:induction false} PlanBounds(parts: seq<string>, history: seq<Event>, showTyping: bool)
    ensures forall a :: a in Plan(parts, history, showTyping) ==> WithinBounds(a, |history|, showTyping)
    decreases |parts|
  {
    if parts != [] {
      var n := |parts| - 1;
      PlanBounds(parts[..n], history, showTyping);
      PartBounds(n, parts[n], history, showTyping);
    }
  }

  /** Nothing is sent exactly when every part is blank. */
  lemma PlanEmptyIff(parts: seq<string>, history: seq<Event>, showTyping: bool)
    ensures Plan(parts, history, showTyping) == [] <==> Deliverable(parts) == []
  {
    PlanSendsDeliverable(parts, history, showTyping);
    if Plan(parts, history, showTyping) == [] {
      assert Sent([]) == [];
    } else {
      PlanNonEmptySends(parts, history, showTyping);
    }
  }

  /** A non-empty plan sends something: every part that acts ends with a message. */
  lemma {:induction false} PlanNonEmptySends(parts: seq<string>, history: seq<Event>, showTyping: bool)
    requires Plan(parts, history, showTyping) != []
    ensures Sent(Plan(parts, history, showTyping)) != []
    decreases |parts|
  {
    var n := |parts| - 1;
    var init := parts[..n];
    var step := PartActions(n, parts[n], history, showTyping);
    assert Plan(parts, history, showTyping) == Plan(init, history, showTyping) + step;
    SentConcat(Plan(init, history, showTyping), step);
    if step == [] {
      PlanNonEmptySends(init, history, showTyping);
    } else {
      assert Sent(step) != [] by {
        var last := step[|step| - 1];
        assert last.Reply? || last.Send?;
      }
    }
  }

  /** The loop index counts blank parts too: the first action is a pause exactly when the
      first part is blank, even though nothing was sent before it. */
  lemma PlanStartsWithPauseIff(parts: seq<string>, history: seq<Event>, showTyping: bool)
    requires Plan(parts, history, showTyping) != []
    ensures parts != []
    ensures Plan(parts, history, showTyping)[0].Delay? <==> Strip(parts[0]) == []
  {
    if Strip(parts[0]) == [] {
      BlankFirstPauses(parts, history, showTyping);
    } else {
      FirstPartLeads(parts, |parts|, history, showTyping);
      assert parts[..|parts|] == parts;
    }
  }

  /** The actions of the first part lead the plan of every longer prefix. */
  lemma {:induction false} FirstPartLeads(parts: seq<string>, n: nat, history: seq<Event>, showTyping: bool)
    requires 1 <= n <= |parts| && Strip(parts[0]) != []
    ensures Plan(parts[..n], history, showTyping) != []
    ensures !Plan(parts[..n], history, showTyping)[0].Delay?
    decreases n
  {
    var whole := Plan(parts[..n], history, showTyping);
    var before := Plan(parts[..n - 1], history, showTyping);
    var step := PartActions(n - 1, parts[n - 1], history, showTyping);
    assert whole == before + step by {
      PlanSnoc(parts, n - 1, history, showTyping);
    }
    if n == 1 {
      assert before == [] by {
        assert parts[..0] == [];
      }
      FirstPartNoPause(parts[0], history, showTyping);
      assert whole == step;
    } else {
      FirstPartLeads(parts, n - 1, history, showTyping);
      assert |whole| >= |before| > 0;
      assert whole[0] == before[0];
    }
  }

  lemma FirstPartNoPause(part: string, history: seq<Event>, showTyping: bool)
    requires Strip(part) != []
    ensures PartActions(0, part, history, showTyping) != []
    ensures !PartActions(0, part, history, showTyping)[0].Delay?
  {
    EmitFirst(0, Strip(part), ProcessPart(Strip(part), history), showTyping);
  }

  /** What one sent part starts with: a pause exactly when it is not at the first index. */
  lemma EmitFirst(i: nat, s: string, out: Outgoing, showTyping: bool)
    ensures Emit(i, s, out, showTyping) != []
    ensures Emit(i, s, out, showTyping)[0].Delay? <==> i > 0
  {
    var t := TypingFor(out.text, showTyping);
    assert t == [] || t[0].Typing?;
    if i == 0 {
      assert Emit(i, s, out, showTyping) == t + [MessageOf(out)];
    }
  }

  lemma {:induction false} BlankFirstPauses(parts: seq<string>, history: seq<Event>, showTyping: bool)
    requires parts != [] && Strip(parts[0]) == []
    ensures Plan(parts, history, showTyping) == [] || Plan(parts, history, showTyping)[0].Delay?
    decreases |parts|
  {
    var n := |parts| - 1;
    var init := parts[..n];
    var before := Plan(init, history, showTyping);
    var step := PartActions(n, parts[n], history, showTyping);
    assert Plan(parts, history, showTyping) == before + step;
    if n > 0 {
      assert init[0] == parts[0];
      BlankFirstPauses(init, history, showTyping);
      if before == [] && step != [] {
        var s := Strip(parts[n]);
        EmitFirst(n, s, ProcessPart(s, history), showTyping);
      }
    }
  }

  /** A part that is nothing but a reply directive still sends a message, with empty text. */
  lemma DirectiveAloneSendsEmpty(handle: string, history: seq<Event>)
    requires ']' !in handle && Strip(handle) == handle
    ensures ProcessPart("[reply:" + handle + "]", history).text == []
  {
    assert Strip([]) == [] by {
      StripShape([]);
    }
    assert "[reply:" + handle + "]" == "[reply:" + handle + "]" + [];
    ReplyRoundTrip(handle, []);
  }
}
