/**
  The transcript builder: chronological message events become role-tagged turns, user turns
  carry an attribution header, and consecutive turns of the same role are merged with "\n".
*/
module Transcript {
  import opened Wrappers
  import opened Text
  import opened Chat

  /** The reply part of the attribution header: empty unless the message's reference resolved
      to a message that has an author. */
  function ReplySuffix(r: Reference, botId: nat): (suffix: string)
    ensures r.Resolved? && r.target.Some? && r.target.value.id == botId ==> suffix == ", replying to you"
    ensures r.Resolved? && r.target.Some? && r.target.value.id != botId ==>
      suffix == ", replying to " + r.target.value.displayName + " (@" + r.target.value.name + ")"
    ensures !(r.Resolved? && r.target.Some?) ==> suffix == ""
  {
    match r
    case Resolved(Some(a)) =>
      if a.id == botId then ", replying to you"
      else ", replying to " + a.displayName + " (@" + a.name + ")"
    case _ => ""
  }

  /** The header prefixed to a user message: `[Display (@handle)<suffix>]: `. */
  function Attribution(e: Event, botId: nat): string
  {
    "[" + e.author.displayName + " (@" + e.author.name + ")" + ReplySuffix(e.reference, botId) + "]: "
  }

  /** The turn one event contributes before merging. */
  function TurnOf(e: Event, botId: nat): (t: Turn)
    ensures t.role == Assistant <==> e.author.id == botId
    ensures t.role == Assistant ==> t.content == ContentText(e)
    ensures t.role == User ==> t.content == Attribution(e, botId) + ContentText(e)
  {
    if e.author.id == botId then Turn(Assistant, ContentText(e))
    else Turn(User, Attribution(e, botId) + ContentText(e))
  }

  function TurnsOf(history: seq<Event>, botId: nat): (ts: seq<Turn>)
    ensures |ts| == |history|
  {
    seq(|history|, k requires 0 <= k < |history| => TurnOf(history[k], botId))
  }

  /** The partition of `ts` into runs of consecutive turns with the same role. */
  function Runs(ts: seq<Turn>): (rs: seq<seq<Turn>>)
    ensures forall k :: 0 <= k < |rs| ==> rs[k] != []
    decreases |ts|
  {
    if ts == [] then []
    else
      var rs := Runs(ts[..|ts| - 1]);
      var t := ts[|ts| - 1];
      if rs != [] && rs[|rs| - 1][0].role == t.role then rs[..|rs| - 1] + [rs[|rs| - 1] + [t]]
      else rs + [[t]]
  }

  function Contents(run: seq<Turn>): seq<string>
  {
    seq(|run|, k requires 0 <= k < |run| => run[k].content)
  }

  /** One run merged into one turn: its role, and its contents joined with "\n" in order. */
  function Combine(run: seq<Turn>): Turn
    requires run != []
  {
    Turn(run[0].role, Join(Contents(run), "\n"))
  }

  /** The merged conversation: one turn per run. */
  function Merge(ts: seq<Turn>): (conv: seq<Turn>)
  {
    var rs := Runs(ts);
    seq(|rs|, k requires 0 <= k < |rs| => Combine(rs[k]))
  }

  /** The conversation built from a chronological history. */
  function Conversation(history: seq<Event>, botId: nat): seq<Turn>
  {
    Merge(TurnsOf(history, botId))
  }

  function Flatten<T>(xss: seq<seq<T>>): seq<T>
    decreases |xss|
  {
    if xss == [] then [] else Flatten(xss[..|xss| - 1]) + xss[|xss| - 1]
  }

  predicate SameRole(run: seq<Turn>)
  {
    forall k :: 0 <= k < |run| ==> run[k].role == run[0].role
  }

  lemma FlattenSnoc<T>(xss: seq<seq<T>>, xs: seq<T>)
    ensures Flatten(xss + [xs]) == Flatten(xss) + xs
  {
    assert (xss + [xs])[..|xss|] == xss;
  }

  /** One step of the partition: the last turn either extends the last run or opens a new one. */
  lemma RunsStep(init: seq<Turn>, t: Turn)
    ensures var rs := Runs(init);
      Runs(init + [t]) ==
        if rs != [] && rs[|rs| - 1][0].role == t.role then rs[..|rs| - 1] + [rs[|rs| - 1] + [t]]
        else rs + [[t]]
  {
    var ts := init + [t];
    assert ts[..|ts| - 1] == init;
    assert ts[|ts| - 1] == t;
  }

  /** The runs, laid end to end, are the turns themselves. */
  lemma {:induction false} RunsFlatten(ts: seq<Turn>)
    ensures Flatten(Runs(ts)) == ts
    decreases |ts|
  {
    if ts != [] {
      var init: seq<Turn>, t: Turn := ts[..|ts| - 1], ts[|ts| - 1];
      assert init + [t] == ts;
      var rs: seq<seq<Turn>> := Runs(init);
      RunsFlatten(init);
      RunsStep(init, t);
      if rs != [] && rs[|rs| - 1][0].role == t.role {
        var pre, last := rs[..|rs| - 1], rs[|rs| - 1];
        assert rs == pre + [last];
        FlattenSnoc(pre, last);
        FlattenSnoc(pre, last + [t]);
      } else {
        FlattenSnoc(rs, [t]);
      }
    }
  }

  /** Every run holds turns of one role only. */
  lemma {:induction false} RunsSameRole(ts: seq<Turn>)
    ensures forall k :: 0 <= k < |Runs(ts)| ==> SameRole(Runs(ts)[k])
    decreases |ts|
  {
    if ts != [] {
      var init: seq<Turn>, t: Turn := ts[..|ts| - 1], ts[|ts| - 1];
      assert init + [t] == ts;
      var rs: seq<seq<Turn>> := Runs(init);
      RunsSameRole(init);
      RunsStep(init, t);
      var rs' := Runs(ts);
      forall k | 0 <= k < |rs'| ensures SameRole(rs'[k]) {
        if k < |rs| - 1 {
          assert rs'[k] == rs[k];
        } else if k == |rs| - 1 && rs[|rs| - 1][0].role == t.role {
          var last := rs[k];
          assert SameRole(last);
          assert rs'[k] == last + [t];
        } else if k == |rs| - 1 {
          assert rs'[k] == rs[k];
        } else {
          assert rs'[k] == [t];
        }
      }
    }
  }

  /** Runs are maximal: two neighbouring runs never share a role. */
  lemma {:induction false} RunsAlternate(ts: seq<Turn>)
    ensures forall k :: 0 <= k < |Runs(ts)| - 1 ==> Runs(ts)[k][0].role != Runs(ts)[k + 1][0].role
    decreases |ts|
  {
    if ts != [] {
      var init: seq<Turn>, t: Turn := ts[..|ts| - 1], ts[|ts| - 1];
      assert init + [t] == ts;
      RunsAlternate(init);
      RunsStep(init, t);
    }
  }

  /** Adding a turn either extends the last merged turn, when the roles agree, or starts a new
      one: the step the builder performs for each message. */
  lemma MergeSnoc(ts: seq<Turn>, t: Turn)
    ensures var m := Merge(ts);
      Merge(ts + [t]) ==
        if m != [] && m[|m| - 1].role == t.role
        then m[..|m| - 1] + [Turn(t.role, m[|m| - 1].content + "\n" + t.content)]
        else m + [t]
  {
    var all := ts + [t];
    assert all[..|all| - 1] == ts;
    var rs: seq<seq<Turn>> := Runs(ts);
    var m := Merge(ts);
    if rs != [] && rs[|rs| - 1][0].role == t.role {
      var last := rs[|rs| - 1];
      assert Contents(last + [t]) == Contents(last) + [t.content];
      JoinSnoc(Contents(last), t.content, "\n");
    } else {
      assert Contents([t]) == [t.content];
    }
  }

  /** The builder's loop: walk the history oldest first, append a turn when the role changes and
      extend the last turn otherwise. */
  method BuildConversation(history: seq<Event>, botId: nat) returns (conv: seq<Turn>)
    ensures conv == Conversation(history, botId)
  {
    conv := [];
    var i := 0;
    while i < |history|
      invariant 0 <= i <= |history|
      invariant conv == Merge(TurnsOf(history[..i], botId))
    {
      var t := TurnOf(history[i], botId);
      assert TurnsOf(history[..i + 1], botId) == TurnsOf(history[..i], botId) + [t];
      MergeSnoc(TurnsOf(history[..i], botId), t);
      if conv != [] && conv[|conv| - 1].role == t.role {
        conv := conv[..|conv| - 1] + [Turn(t.role, conv[|conv| - 1].content + "\n" + t.content)];
      } else {
        conv := conv + [t];
      }
      i := i + 1;
    }
    assert history[..i] == history;
  }

  /** No two adjacent turns of the conversation share a role. */
  lemma ConversationAlternates(history: seq<Event>, botId: nat)
    ensures var conv := Conversation(history, botId);
      forall k :: 0 <= k < |conv| - 1 ==> conv[k].role != conv[k + 1].role
  {
    RunsAlternate(TurnsOf(history, botId));
  }

  /** Each turn of the conversation is the "\n"-join, in order, of a maximal run of same-role
      turns, and those runs laid end to end are exactly the per-message turns. */
  lemma ConversationIsMergedRuns(history: seq<Event>, botId: nat)
    ensures var ts, rs := TurnsOf(history, botId), Runs(TurnsOf(history, botId));
      Flatten(rs) == ts &&
      (forall k :: 0 <= k < |rs| ==> SameRole(rs[k])) &&
      (forall k :: 0 <= k < |rs| - 1 ==> rs[k][0].role != rs[k + 1][0].role) &&
      Conversation(history, botId) ==
        seq(|rs|, k requires 0 <= k < |rs| => Turn(rs[k][0].role, Join(Contents(rs[k]), "\n")))
  {
    var ts := TurnsOf(history, botId);
    RunsFlatten(ts);
    RunsSameRole(ts);
    RunsAlternate(ts);
  }

  /** The conversation is empty exactly when the history is: an empty message still yields a
      turn. */
  lemma {:induction false} ConversationEmptyIff(history: seq<Event>, botId: nat)
    ensures Conversation(history, botId) == [] <==> history == []
  {
    var ts := TurnsOf(history, botId);
    RunsFlatten(ts);
    if Runs(ts) == [] {
      assert Flatten(Runs(ts)) == [];
    }
  }
}
