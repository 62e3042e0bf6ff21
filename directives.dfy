/**
  The two directives the bot may write into a reply: a leading `[reply:<handle>]`, which makes
  the part a reply to the most recent message by that handle, and `[@<handle>]` mentions, which
  become `<@id>` for the first author (oldest first) with that handle and `@<handle>` otherwise.
  Handles are compared case-insensitively.
*/
module Directives {
  import opened Wrappers
  import opened Text
  import opened Chat

  /** The event was written by an author whose handle is `handle`, ignoring case. */
  predicate ByHandle(e: Event, handle: string)
  {
    SameIgnoringCase(e.author.name, handle)
  }

  /** The index of the most recent event by `handle`. */
  function LastByHandle(history: seq<Event>, handle: string): (r: Option<nat>)
    ensures r.Some? ==> r.value < |history| && ByHandle(history[r.value], handle)
    ensures r.Some? ==> forall k :: r.value < k < |history| ==> !ByHandle(history[k], handle)
    ensures r.None? ==> forall k :: 0 <= k < |history| ==> !ByHandle(history[k], handle)
    decreases |history|
  {
    if history == [] then None
    else if ByHandle(history[|history| - 1], handle) then Some(|history| - 1)
    else LastByHandle(history[..|history| - 1], handle)
  }

  /** The index of the oldest event at or after `from` by `handle`. */
  function FirstByHandleFrom(history: seq<Event>, handle: string, from: nat): (r: Option<nat>)
    requires from <= |history|
    ensures r.Some? ==> from <= r.value < |history| && ByHandle(history[r.value], handle)
    ensures r.Some? ==> forall k :: from <= k < r.value ==> !ByHandle(history[k], handle)
    ensures r.None? ==> forall k :: from <= k < |history| ==> !ByHandle(history[k], handle)
    decreases |history| - from
  {
    if from == |history| then None
    else if ByHandle(history[from], handle) then Some(from)
    else FirstByHandleFrom(history, handle, from + 1)
  }

  /** The id of the oldest author in the history with handle `handle`. */
  function AuthorIdByHandle(history: seq<Event>, handle: string): (id: Option<nat>)
    ensures id.None? <==> forall k :: 0 <= k < |history| ==> !ByHandle(history[k], handle)
  {
    match FirstByHandleFrom(history, handle, 0)
    case Some(k) => Some(history[k].author.id)
    case None => None
  }

  /** The reply search: newest message first, stop at the first one by the handle. */
  method FindReplyTarget(history: seq<Event>, handle: string) returns (target: Option<nat>)
    ensures target == LastByHandle(history, handle)
  {
    target := None;
    var k := |history|;
    while k > 0
      invariant 0 <= k <= |history|
      invariant forall j :: k <= j < |history| ==> !ByHandle(history[j], handle)
    {
      k := k - 1;
      if ByHandle(history[k], handle) {
        target := Some(k);
        return;
      }
    }
  }

  /** The mention search: oldest message first, stop at the first one by the handle. */
  method FindAuthorId(history: seq<Event>, handle: string) returns (id: Option<nat>)
    ensures id == AuthorIdByHandle(history, handle)
  {
    id := None;
    var k := 0;
    while k < |history|
      invariant 0 <= k <= |history|
      invariant forall j :: 0 <= j < k ==> !ByHandle(history[j], handle)
    {
      if ByHandle(history[k], handle) {
        id := Some(history[k].author.id);
        return;
      }
      k := k + 1;
    }
  }

  /** A parsed `[reply:<handle>]` directive and the text after it, both stripped. */
  datatype ReplyDirective = ReplyDirective(handle: string, body: string)

  /** The reply directive of an already stripped part: it must start with "[reply:" and contain
      a "]"; the handle is what lies between the prefix and the first "]". */
  function ParseReply(part: string): (d: Option<ReplyDirective>)
    ensures d.Some? <==> StartsWith(part, "[reply:") && ']' in part
    ensures d.Some? ==>
      var e := Find(part, "]");
      7 <= e < |part| && part[e] == ']' && ']' !in part[7..e] &&
      d.value.handle == Strip(part[7..e]) && d.value.body == Strip(part[e + 1..])
  {
    ContainsChar(part, ']');
    if StartsWith(part, "[reply:") && Find(part, "]") != -1 then
      var e := Find(part, "]");
      FindCharCut(part, ']');
      PrefixHasNoBracket(part);
      assert ']' !in part[7..e] by {
        forall m | 7 <= m < e ensures part[m] != ']' {
          assert part[..e][m] == part[m];
        }
      }
      Some(ReplyDirective(Strip(part[7..e]), Strip(part[e + 1..])))
    else
      None
  }

  lemma PrefixHasNoBracket(part: string)
    requires StartsWith(part, "[reply:")
    ensures forall m :: 0 <= m < 7 ==> part[m] != ']'
  {
    forall m | 0 <= m < 7 ensures part[m] != ']' {
      assert part[m] == part[..7][m];
    }
  }

  /** Writing a directive and reading it back gives the same handle and text. */
  lemma ReplyRoundTrip(handle: string, body: string)
    requires ']' !in handle && Strip(handle) == handle && Strip(body) == body
    ensures ParseReply("[reply:" + handle + "]" + body) == Some(ReplyDirective(handle, body))
  {
    var head := "[reply:" + handle;
    var part := head + "]" + body;
    assert Find(part, "]") == |head| by {
      FirstBracketAfter(head, handle, body);
    }
    DirectiveSlices(handle, body);
    ParseReplyAt(part, |head|);
  }

  /** Where the pieces of a written directive lie. */
  lemma DirectiveSlices(handle: string, body: string)
    ensures var part := "[reply:" + handle + "]" + body;
      |part| == 8 + |handle| + |body| &&
      part[..7] == "[reply:" && part[7..7 + |handle|] == handle && part[8 + |handle|..] == body
  {
    var part := "[reply:" + handle + "]" + body;
    assert part[..7] == "[reply:";
    assert part[7..7 + |handle|] == handle;
    assert part[8 + |handle|..] == body;
  }

  /** A part that starts with the directive prefix and has its first "]" at `e`. */
  lemma ParseReplyAt(part: string, e: int)
    requires StartsWith(part, "[reply:") && Find(part, "]") == e && 7 <= e < |part|
    ensures ParseReply(part) == Some(ReplyDirective(Strip(part[7..e]), Strip(part[e + 1..])))
  {
    assert ']' in part by {
      ContainsChar(part, ']');
    }
  }

  lemma FirstBracketAfter(head: string, handle: string, body: string)
    requires ']' !in handle && head == "[reply:" + handle
    ensures Find(head + "]" + body, "]") == |head|
  {
    assert ']' !in head by {
      forall m | 0 <= m < |head| ensures head[m] != ']' {
        if m >= 7 {
          assert head[m] == handle[m - 7];
        }
      }
    }
    NoCharNoOccurrence(head, ']');
    FindCharAfter(head, ']', body);
    assert head + "]" + body == head + [']'] + body;
  }

  /** Python's `re.findall(r'\[@([^\]]+)\]', s)`: the handles of the `[@...]` mentions, left to
      right, without overlap. */
  function Mentions(s: string): (found: seq<string>)
    ensures forall k :: 0 <= k < |found| ==> found[k] != [] && ']' !in found[k]
    decreases |s|
  {
    if |s| < 2 then []
    else if s[0] == '[' && s[1] == '@' then
      var e := Find(s[2..], "]");
      if e > 0 then
        FindCharCut(s[2..], ']');
        assert s[2..][..e] == s[2..2 + e];
        [s[2..2 + e]] + Mentions(s[3 + e..])
      else Mentions(s[1..])
    else Mentions(s[1..])
  }

  /** Text without "[" in front of the rest adds no mention and hides none. */
  lemma {:induction false} MentionsSkip(a: string, t: string)
    requires '[' !in a
    ensures Mentions(a + t) == Mentions(t)
    decreases |a|
  {
    if a == [] {
      assert a + t == t;
    } else {
      var s := a + t;
      assert s[0] == a[0];
      assert s[1..] == a[1..] + t;
      MentionsSkip(a[1..], t);
    }
  }

  /** A mention at the head of the text is found first, and the search resumes after its "]". */
  lemma MentionAtHead(h: string, b: string)
    requires h != [] && ']' !in h
    ensures Mentions("[@" + h + "]" + b) == [h] + Mentions(b)
  {
    var s := "[@" + h + "]" + b;
    NoCharNoOccurrence(h, ']');
    FindCharAfter(h, ']', b);
    assert s[2..] == h + [']'] + b;
    assert s[2..2 + |h|] == h;
    assert s[3 + |h|..] == b;
  }

  /** Every written `[@h]` is captured: after text without "[", it is the next mention found. */
  lemma MentionFound(a: string, h: string, b: string)
    requires '[' !in a && h != [] && ']' !in h
    ensures Mentions(a + "[@" + h + "]" + b) == [h] + Mentions(b)
  {
    assert a + "[@" + h + "]" + b == a + ("[@" + h + "]" + b);
    MentionsSkip(a, "[@" + h + "]" + b);
    MentionAtHead(h, b);
  }

  /** Text without "[" holds no marker that starts with "[". */
  lemma NoBracketNoMarker(x: string, marker: string)
    requires '[' !in x && marker != [] && marker[0] == '['
    ensures forall k :: !OccursAt(x, marker, k)
    ensures !Contains(x, marker)
  {
    forall k ensures !OccursAt(x, marker, k) {
      if 0 <= k && k + |marker| <= |x| {
        assert x[k..k + |marker|][0] == x[k];
      }
    }
  }

  /** `[@` + handle + `]` is written somewhere in `s`. */
  ghost predicate Written(s: string, handle: string)
  {
    exists p :: OccursAt(s, "[@" + handle + "]", p)
  }

  lemma WrittenInTail(s: string, j: nat, handle: string)
    requires j <= |s| && Written(s[j..], handle)
    ensures Written(s, handle)
  {
    var sub := "[@" + handle + "]";
    var p :| OccursAt(s[j..], sub, p);
    assert s[j..][p..p + |sub|] == s[p + j..p + j + |sub|];
    assert OccursAt(s, sub, p + j);
  }

  /** Every mention found is written in the text as `[@` + handle + `]`. */
  lemma {:induction false} MentionsAreWritten(s: string)
    ensures forall k :: 0 <= k < |Mentions(s)| ==> Written(s, Mentions(s)[k])
    decreases |s|
  {
    if |s| >= 2 {
      var ms := Mentions(s);
      if s[0] == '[' && s[1] == '@' && Find(s[2..], "]") > 0 {
        var e := Find(s[2..], "]");
        var rest := s[3 + e..];
        MentionsAreWritten(rest);
        assert ms == [s[2..2 + e]] + Mentions(rest);
        forall k | 0 <= k < |ms| ensures Written(s, ms[k]) {
          if k == 0 {
            MentionHeadWritten(s, e);
          } else {
            assert ms[k] == Mentions(rest)[k - 1];
            WrittenInTail(s, 3 + e, ms[k]);
          }
        }
      } else {
        assert ms == Mentions(s[1..]);
        MentionsAreWritten(s[1..]);
        forall k | 0 <= k < |ms| ensures Written(s, ms[k]) {
          WrittenInTail(s, 1, ms[k]);
        }
      }
    }
  }

  lemma MentionHeadWritten(s: string, e: int)
    requires |s| >= 2 && s[0] == '[' && s[1] == '@' && e == Find(s[2..], "]") && e > 0
    ensures Written(s, s[2..2 + e])
  {
    FindCharCut(s[2..], ']');
    assert s[0..e + 3] == "[@" + s[2..2 + e] + "]";
    assert OccursAt(s, "[@" + s[2..2 + e] + "]", 0);
  }

  /** A text in which "[@" never occurs has no mentions. */
  lemma {:induction false} NoMarkerNoMentions(s: string)
    requires !Contains(s, "[@")
    ensures Mentions(s) == []
    decreases |s|
  {
    if |s| >= 2 {
      assert !(s[0] == '[' && s[1] == '@') by {
        assert !OccursAt(s, "[@", 0);
        assert s[0..2] == [s[0], s[1]];
      }
      forall k | 0 <= k ensures !OccursAt(s[1..], "[@", k) {
        OccursAtTail(s, "[@", k);
      }
      NoMarkerNoMentions(s[1..]);
    }
  }

  /** What `[@handle]` becomes: the author's mention when the handle resolves to a truthy id,
      the plain `@handle` otherwise. */
  function MentionText(history: seq<Event>, handle: string): string
  {
    match AuthorIdByHandle(history, handle)
    case Some(id) => if id != 0 then "<@" + NatToString(id) + ">" else "@" + handle
    case None => "@" + handle
  }

  /** A resolved mention carries the oldest matching author's id, which reads back from its
      digits; an unresolved one is the handle behind "@". */
  lemma MentionTextMeaning(history: seq<Event>, handle: string)
    ensures var t := MentionText(history, handle);
      match FirstByHandleFrom(history, handle, 0)
      case Some(k) =>
        if history[k].author.id != 0 then
          |t| >= 4 && t[..2] == "<@" && t[|t| - 1] == '>' &&
          (forall m :: 2 <= m < |t| - 1 ==> IsDigit(t[m])) &&
          DecimalValue(t[2..|t| - 1]) == history[k].author.id
        else t == "@" + handle
      case None => t == "@" + handle
  {
    match FirstByHandleFrom(history, handle, 0)
    case Some(k) =>
      var id := history[k].author.id;
      if id != 0 {
        MentionDigits(id);
      }
    case None =>
  }

  /** The mention written for a non-zero id: "<@", the id's digits, ">". */
  lemma MentionDigits(id: nat)
    ensures var t := "<@" + NatToString(id) + ">";
      |t| >= 4 && t[..2] == "<@" && t[|t| - 1] == '>' &&
      (forall m :: 2 <= m < |t| - 1 ==> IsDigit(t[m])) &&
      DecimalValue(t[2..|t| - 1]) == id
  {
    var digits := NatToString(id);
    var t := "<@" + digits + ">";
    assert t[2..|t| - 1] == digits;
    DecimalRoundTrip(id);
  }

  /** One mention's rewrite: strip the captured handle and replace every `[@handle]`. */
  function MentionStep(s: string, captured: string, history: seq<Event>): string
  {
    var handle := Strip(captured);
    Replace(s, "[@" + handle + "]", MentionText(history, handle))
  }

  /** All occurrences of the same `[@handle]` become the same text, so a handle mentioned twice
      resolves identically both times. */
  lemma MentionStepEveryOccurrence(s: string, captured: string, history: seq<Event>)
    ensures var handle := Strip(captured);
      MentionStep(s, captured, history) ==
        Join(Split(s, "[@" + handle + "]"), MentionText(history, handle))
  {
    ReplaceIsSplitJoin(s, "[@" + Strip(captured) + "]", MentionText(history, Strip(captured)));
  }

  /** The rewrites, applied one after the other in the order the mentions were found. */
  function ApplyMentions(s: string, found: seq<string>, history: seq<Event>): string
    decreases |found|
  {
    if found == [] then s
    else MentionStep(ApplyMentions(s, found[..|found| - 1], history), found[|found| - 1], history)
  }

  /** The body of the mention loop: strip the captured handle, look up its author, and replace
      every `[@handle]` by the author's mention or by `@handle`. */
  method RewriteMention(text: string, captured: string, history: seq<Event>) returns (result: string)
    ensures result == MentionStep(text, captured, history)
  {
    var handle := Strip(captured);
    var id := FindAuthorId(history, handle);
    var replacement: string;
    if id.Some? && id.value != 0 {
      replacement := "<@" + NatToString(id.value) + ">";
    } else {
      replacement := "@" + handle;
    }
    result := Replace(text, "[@" + handle + "]", replacement);
  }

  lemma ApplyMentionsSnoc(s: string, found: seq<string>, i: nat, history: seq<Event>)
    requires i < |found|
    ensures ApplyMentions(s, found[..i + 1], history) ==
      MentionStep(ApplyMentions(s, found[..i], history), found[i], history)
  {
    assert found[..i + 1][..i] == found[..i];
  }

  /** The handler's mention loop. */
  method ResolveMentions(part: string, history: seq<Event>) returns (text: string)
    ensures text == ApplyMentions(part, Mentions(part), history)
  {
    var found := Mentions(part);
    text := part;
    var i := 0;
    while i < |found|
      invariant 0 <= i <= |found|
      invariant text == ApplyMentions(part, found[..i], history)
    {
      ApplyMentionsSnoc(part, found, i, history);
      text := RewriteMention(text, found[i], history);
      i := i + 1;
    }
    assert found[..i] == found;
  }

  /** A text without "[@" goes out as it is. */
  lemma NoMarkerUnchanged(s: string, history: seq<Event>)
    requires !Contains(s, "[@")
    ensures ApplyMentions(s, Mentions(s), history) == s
  {
    NoMarkerNoMentions(s);
  }

  /** A part with one mention, `[@h]`, between texts without "[": the mention, and nothing
      else, is rewritten. */
  lemma MentionRewritten(a: string, h: string, b: string, history: seq<Event>)
    requires '[' !in a && '[' !in b && h != [] && ']' !in h && Strip(h) == h
    ensures var part := a + "[@" + h + "]" + b;
      Mentions(part) == [h] &&
      ApplyMentions(part, Mentions(part), history) == a + MentionText(history, h) + b
  {
    var target := "[@" + h + "]";
    var part := a + target + b;
    assert part == a + "[@" + h + "]" + b;
    MentionFound(a, h, b);
    MentionsSkip(b, []);
    assert b + [] == b;
    assert Mentions(part) == [h];
    assert [h][..0] == [];
    var mt := MentionText(history, h);
    assert ApplyMentions(part, [h], history) == Replace(part, target, mt);
    ReplaceOnce(a, target, b, mt);
  }

  /** Replacing a `[`-led target that occurs once, between texts without "[". */
  lemma ReplaceOnce(a: string, target: string, b: string, replacement: string)
    requires '[' !in a && '[' !in b && target != [] && target[0] == '['
    ensures Replace(a + target + b, target, replacement) == a + replacement + b
  {
    var s := a + target + b;
    assert s[|a|..|a| + |target|] == target;
    forall k | 0 <= k < |a| ensures !OccursAt(s, target, k) {
      assert s[k] == a[k];
      if k + |target| <= |s| {
        assert s[k..k + |target|][0] == s[k];
      }
    }
    FindIs(s, target, |a|);
    assert s[..|a|] == a;
    assert s[|a| + |target|..] == b;
    NoBracketNoMarker(b, target);
    ReplaceAbsent(b, target, replacement);
  }

  lemma ReplaceAbsent(s: string, target: string, replacement: string)
    requires target != [] && !Contains(s, target)
    ensures Replace(s, target, replacement) == s
  {
  }

  /** A mention written with spaces inside the brackets, `[@ handle ]`, is found, but the
      rewrite looks for `[@handle]`, so the text goes out unchanged. */
  lemma PaddedMentionUntouched(handle: string, history: seq<Event>)
    requires handle != [] && Strip(handle) == handle && '[' !in handle && ']' !in handle
    ensures var part := "[@ " + handle + " ]";
      Mentions(part) == [" " + handle + " "] &&
      ApplyMentions(part, Mentions(part), history) == part
  {
    var part := "[@ " + handle + " ]";
    var inner := " " + handle + " ";
    assert Mentions(part) == [inner] by {
      PaddedMentionFound(part, handle, inner);
    }
    assert Strip(inner) == handle by {
      StripPadded(handle);
    }
    var target := "[@" + handle + "]";
    assert !Contains(part, target) by {
      PaddedTargetAbsent(part, handle, target);
    }
    ReplaceAbsent(part, target, MentionText(history, handle));
    assert [inner][..0] == [];
  }

  lemma StripPadded(handle: string)
    requires Strip(handle) == handle
    ensures Strip(" " + handle + " ") == handle
  {
    assert AllSpace(" ") && AllSpace(" ");
    StripSpacePrefix(" ", handle);
    assert " " + handle + " " == " " + (handle + " ");
    StripSpaceSuffix(handle, " ");
    StripSpacePrefix(" ", handle + " ");
  }

  lemma PaddedMentionFound(part: string, handle: string, inner: string)
    requires ']' !in handle && part == "[@ " + handle + " ]" && inner == " " + handle + " "
    ensures Mentions(part) == [inner]
  {
    var tail := part[2..];
    assert tail == inner + [']'] + [];
    assert ']' !in inner by {
      forall m | 0 <= m < |inner| ensures inner[m] != ']' {
        if 0 < m < |inner| - 1 {
          assert inner[m] == handle[m - 1];
        }
      }
    }
    NoCharNoOccurrence(inner, ']');
    FindCharAfter(inner, ']', []);
    assert part[2..2 + |inner|] == inner;
    assert part[3 + |inner|..] == [];
  }

  lemma PaddedTargetAbsent(part: string, handle: string, target: string)
    requires handle != [] && Strip(handle) == handle && '[' !in handle
    requires part == "[@ " + handle + " ]" && target == "[@" + handle + "]"
    ensures !Contains(part, target)
  {
    StripShape(handle);
    forall k | 0 <= k ensures !OccursAt(part, target, k) {
      if k + |target| <= |part| {
        var window := part[k..k + |target|];
        if k == 0 {
          assert window[2] == ' ' && target[2] == handle[0];
        } else {
          assert window[0] == part[k];
        }
      }
    }
  }

  /** What one non-blank, stripped part becomes: the message it replies to, if any, and the
      text that goes out after the directive is removed and the mentions are rewritten. */
  datatype Outgoing = Outgoing(replyTo: Option<nat>, text: string)

  function ProcessPart(part: string, history: seq<Event>): (out: Outgoing)
    ensures out.replyTo.Some? ==>
      var k := out.replyTo.value;
      ParseReply(part).Some? && k < |history| && ByHandle(history[k], ParseReply(part).value.handle) &&
      forall j :: k < j < |history| ==> !ByHandle(history[j], ParseReply(part).value.handle)
    ensures ParseReply(part).Some? ==>
      var d := ParseReply(part).value;
      out == Outgoing(LastByHandle(history, d.handle), ApplyMentions(d.body, Mentions(d.body), history))
    ensures (ParseReply(part).Some? &&
             exists k :: 0 <= k < |history| && ByHandle(history[k], ParseReply(part).value.handle)) ==>
      out.replyTo.Some?
    ensures ParseReply(part).None? ==> out == Outgoing(None, ApplyMentions(part, Mentions(part), history))
  {
    var directive := ParseReply(part);
    var body := if directive.Some? then directive.value.body else part;
    var target := if directive.Some? then LastByHandle(history, directive.value.handle) else None;
    Outgoing(target, ApplyMentions(body, Mentions(body), history))
  }

  /** A part that opens with a reply directive replies to the handle's latest message and sends
      the stripped text after the "]". */
  lemma DirectivePart(handle: string, rest: string, history: seq<Event>)
    requires ']' !in handle && Strip(handle) == handle && !Contains(Strip(rest), "[@")
    ensures ProcessPart("[reply:" + handle + "]" + rest, history) ==
      Outgoing(LastByHandle(history, handle), Strip(rest))
  {
    var head := "[reply:" + handle;
    var part := head + "]" + rest;
    FirstBracketAfter(head, handle, rest);
    DirectiveSlices(handle, rest);
    ParseReplyAt(part, |head|);
    NoMarkerUnchanged(Strip(rest), history);
  }

  /** "[reply:alice] got it" is a reply to alice's latest message that says "got it". */
  lemma ReplyToAliceExample(history: seq<Event>)
    ensures ProcessPart("[reply:alice] got it", history) ==
      Outgoing(LastByHandle(history, "alice"), "got it")
  {
    var handle, rest := "alice", " got it";
    assert "[reply:alice] got it" == "[reply:" + handle + "]" + rest;
    assert Strip(handle) == handle by {
      StripUnique(handle, 0, 5);
    }
    assert ']' !in handle;
    var body := "got it";
    assert Strip(rest) == body by {
      StripUnique(rest, 1, 7);
      assert rest[1..7] == body;
    }
    assert !Contains(body, "[@") by {
      NoBracketNoMarker(body, "[@");
    }
    DirectivePart(handle, rest, history);
  }
}
