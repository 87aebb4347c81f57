/**
 * The small helpers of the backend around the chat pipeline: the history the
 * final-generation request rebuilds from its ledger, the fence slicing before
 * `json.loads`, the scene-prompt cleaning, the role detection and the choice
 * of voice.
 */
module Helpers {
  import opened Wrappers
  import opened Json
  import opened Faults
  import Text
  import Phase

  // ----- FinalGenerationRequest.to_history -----

  /** A ledger item the history takes over: it has both "role" and "content". */
  predicate IsMessageItem(o: Object) {
    "role" in o && "content" in o
  }

  /** A taken item the `Message` model accepts: its role and content are strings. */
  predicate Accepted(o: Object) {
    IsMessageItem(o) ==> o["role"].Str? && o["content"].Str?
  }

  predicate AllAccepted(items: seq<Object>) {
    forall k | 0 <= k < |items| :: Accepted(items[k])
  }

  /** The messages of the taken items, in ledger order. */
  function Taken(items: seq<Object>): (r: seq<Phase.Message>)
    requires AllAccepted(items)
    ensures |r| <= |items|
  {
    if items == [] then []
    else
      var o := items[|items| - 1];
      Taken(items[..|items| - 1]) + (if IsMessageItem(o) then [Phase.Message(o["role"].s, o["content"].s)] else [])
  }

  /** The number of items with both keys. */
  function CountMessageItems(items: seq<Object>): nat {
    if items == [] then 0
    else CountMessageItems(items[..|items| - 1]) + (if IsMessageItem(items[|items| - 1]) then 1 else 0)
  }

  const SummaryPrefix := "[日记摘要] "

  /** The message the refined summary becomes. */
  function SummaryMessage(summary: string): Phase.Message {
    Phase.Message("user", SummaryPrefix + summary)
  }

  /**
   * The history of a final-generation request: the taken items, then the
   * summary as a user message when it is non-empty. None when the `Message`
   * model rejects a taken item.
   */
  function ToHistory(items: seq<Object>, summary: string): Option<seq<Phase.Message>> {
    if !AllAccepted(items) then None
    else Some(Taken(items) + (if summary != "" then [SummaryMessage(summary)] else []))
  }

  /** The conversion loop, appending one message per taken item and then the summary. */
  method BuildHistory(items: seq<Object>, summary: string) returns (r: Option<seq<Phase.Message>>)
    ensures r == ToHistory(items, summary)
  {
    var history: seq<Phase.Message> := [];
    var i := 0;
    while i < |items|
      invariant 0 <= i <= |items|
      invariant AllAccepted(items[..i]) && history == Taken(items[..i])
    {
      var o := items[i];
      assert items[..i + 1][..i] == items[..i];
      if IsMessageItem(o) {
        if !(o["role"].Str? && o["content"].Str?) {
          assert !Accepted(items[i]);
          return None;
        }
        history := history + [Phase.Message(o["role"].s, o["content"].s)];
      }
      i := i + 1;
    }
    assert items[..i] == items;
    assert AllAccepted(items) && history == Taken(items);
    assert ToHistory(items, summary) == Some(Taken(items) + (if summary != "" then [SummaryMessage(summary)] else []));
    if summary != "" {
      history := history + [SummaryMessage(summary)];
    } else {
      assert history + [] == history;
    }
    r := Some(history);
  }

  /** Exactly the items with both keys become messages, and the summary adds one message iff it is non-empty. */
  lemma {:induction false} HistoryLength(items: seq<Object>, summary: string)
    requires AllAccepted(items)
    ensures |ToHistory(items, summary).value| == CountMessageItems(items) + (if summary != "" then 1 else 0)
  {
    TakenCount(items);
  }

  lemma {:induction false} TakenCount(items: seq<Object>)
    requires AllAccepted(items)
    ensures |Taken(items)| == CountMessageItems(items)
  {
    if items != [] {
      TakenCount(items[..|items| - 1]);
    }
  }

  /** Taking is compatible with splitting the ledger: the order of the items is kept. */
  lemma {:induction false} TakenConcat(a: seq<Object>, b: seq<Object>)
    requires AllAccepted(a) && AllAccepted(b)
    ensures AllAccepted(a + b)
    ensures Taken(a + b) == Taken(a) + Taken(b)
    decreases |b|
  {
    if b == [] {
      assert a + b == a;
    } else {
      var b' := b[..|b| - 1];
      assert (a + b)[..|a + b| - 1] == a + b';
      TakenConcat(a, b');
    }
  }

  /** One item with both keys gives one message with its role and content. */
  lemma TakenOne(o: Object)
    requires IsMessageItem(o) && Accepted(o)
    ensures Taken([o]) == [Phase.Message(o["role"].s, o["content"].s)]
  {
    assert [o][..0] == [];
  }

  /** An item without both keys contributes nothing. */
  lemma TakenNone(o: Object)
    requires !IsMessageItem(o)
    ensures Taken([o]) == []
  {
    assert [o][..0] == [];
  }

  /** The summary, when non-empty, is the last message and counts as one more user message. */
  lemma SummaryIsLastUserMessage(items: seq<Object>, summary: string)
    requires AllAccepted(items) && summary != ""
    ensures var h := ToHistory(items, summary).value;
      && h[|h| - 1] == Phase.Message("user", SummaryPrefix + summary)
      && Phase.CountUser(h) == Phase.CountUser(Taken(items)) + 1
  {
    var h := ToHistory(items, summary).value;
    assert h[..|h| - 1] == Taken(items);
  }

  // ----- clean_json_content -----

  const JsonFence := "```json"
  const Fence := "```"

  /**
   * The text `clean_json_content` hands to `json.loads`. After a json fence
   * the text runs to the next json fence (`split("```json")[1]`), then to the
   * next plain fence.
   */
  function FenceBody(content: string): string {
    if Text.Contains(content, JsonFence) then
      Text.Strip(Text.Before(Text.Before(Text.After(content, JsonFence), JsonFence), Fence))
    else if Text.Contains(content, Fence) then Text.Strip(Text.Before(Text.After(content, Fence), Fence))
    else content
  }

  /** `clean_json_content`: the fence slicing, then the JSON parse. */
  function CleanJsonContent(content: string, parse: string -> Result<Value, string>): Result<Value, string> {
    parse(FenceBody(content))
  }

  /** Text without any backquote is parsed as it is. */
  lemma UnfencedIsParsedWhole(content: string)
    requires '`' !in content
    ensures FenceBody(content) == content
  {
    Text.NotContainsByChar(content, JsonFence, 0);
    Text.NotContainsByChar(content, Fence, 0);
  }

  /**
   * Whatever precedes a json fence, the fenced body, stripped, is what is
   * parsed, as long as no backquote follows the closing fence at once.
   */
  lemma JsonFencedBody(pre: string, body: string, post: string)
    requires '`' !in pre && '`' !in body && (post == [] || post[0] != '`')
    ensures FenceBody(pre + JsonFence + body + Fence + post) == Text.Strip(body)
  {
    var c := pre + JsonFence + body + Fence + post;
    FirstOccurrence(pre, JsonFence, body + Fence + post);
    assert c == pre + JsonFence + (body + Fence + post);
    assert Text.After(c, JsonFence) == body + Fence + post;
    JsonPieceEndsAtFence(body, post);
  }

  /** The piece before the next json fence ends at the first plain fence after a backquote-free body. */
  lemma JsonPieceEndsAtFence(body: string, post: string)
    requires '`' !in body && (post == [] || post[0] != '`')
    ensures Text.Before(Text.Before(body + Fence + post, JsonFence), Fence) == body
  {
    var x := body + Fence + post;
    match Text.Find(x, JsonFence)
    case None =>
      FirstOccurrence(body, Fence, post);
    case Some(i) =>
      Text.OccursChar(x, JsonFence, i, 0);
      assert i >= |body| by {
        if i < |body| {
          assert false;
        }
      }
      if i == |body| {
        assert x[..i] == body;
        Text.NotContainsByChar(body, Fence, 0);
      } else {
        assert i >= |body| + 3 by {
          if i < |body| + 3 {
            Text.OccursChar(x, JsonFence, i, |body| + 3 - i);
          }
        }
        assert x[..i] == body + Fence + post[..i - |body| - 3];
        FirstOccurrence(body, Fence, post[..i - |body| - 3]);
      }
  }

  /**
   * A backquote right before a second json fence stays in the parsed text:
   * the json fence, not the plain one inside it, ends the first piece.
   */
  lemma BackquoteBeforeSecondJsonFence(pre: string, body: string, rest: string)
    requires '`' !in pre && '`' !in body
    ensures FenceBody(pre + JsonFence + body + "`" + JsonFence + rest) == Text.Strip(body + "`")
  {
    var c := pre + JsonFence + body + "`" + JsonFence + rest;
    var x := body + "`" + JsonFence + rest;
    FirstOccurrence(pre, JsonFence, x);
    assert c == pre + JsonFence + x;
    assert Text.After(c, JsonFence) == x;
    JsonPieceKeepsBackquote(body, rest);
  }

  /** Before a json fence preceded by one backquote, the piece keeps that backquote. */
  lemma JsonPieceKeepsBackquote(body: string, rest: string)
    requires '`' !in body
    ensures Text.Before(Text.Before(body + "`" + JsonFence + rest, JsonFence), Fence) == body + "`"
  {
    var x := body + "`" + JsonFence + rest;
    var k := |body| + 1;
    assert Text.OccursAt(x, JsonFence, k) by {
      assert x[k..k + |JsonFence|] == JsonFence;
    }
    forall j | 0 <= j < k ensures !Text.OccursAt(x, JsonFence, j) {
      if Text.OccursAt(x, JsonFence, j) {
        if j < |body| {
          Text.OccursChar(x, JsonFence, j, 0);
        } else {
          Text.OccursChar(x, JsonFence, j, 3);
        }
      }
    }
    FindFirst(x, JsonFence, 0, k);
    var y := body + "`";
    assert x[..k] == y;
    forall j | 0 <= j <= |y| ensures !Text.OccursAt(y, Fence, j) {
      if Text.OccursAt(y, Fence, j) {
        Text.OccursChar(y, Fence, j, 0);
      }
    }
  }

  /** A pattern starting with a backquote is first found right after a text without backquotes. */
  lemma FirstOccurrence(pre: string, p: string, rest: string)
    requires p != [] && p[0] == '`' && '`' !in pre
    ensures Text.Find(pre + p + rest, p) == Some(|pre|)
  {
    var s := pre + p + rest;
    assert s[|pre|..|pre| + |p|] == p;
    assert Text.OccursAt(s, p, |pre|);
    forall j | 0 <= j < |pre| ensures !Text.OccursAt(s, p, j) {
      assert s[j] == pre[j];
    }
    FindFirst(s, p, 0, |pre|);
  }

  lemma {:induction false} FindFirst(s: string, p: string, i: nat, k: nat)
    requires i <= k && Text.OccursAt(s, p, k)
    requires forall j :: i <= j < k ==> !Text.OccursAt(s, p, j)
    ensures Text.FindFrom(s, p, i) == Some(k)
    decreases k - i
  {
    if i < k {
      FindFirst(s, p, i + 1, k);
    }
  }

  // ----- scene prompts -----

  const WideColon := "："
  const Colon := ":"

  /** One scene prompt with the label before the first full-width, else ASCII, colon removed. */
  function CleanPrompt(p: string): (r: string)
    ensures |r| <= |p|
  {
    if Text.Contains(p, WideColon) then Text.Strip(Text.After(p, WideColon))
    else if Text.Contains(p, Colon) then Text.Strip(Text.After(p, Colon))
    else p
  }

  /** `f` applied to every element, in order. */
  function MapAll(f: string -> string, xs: seq<string>): (r: seq<string>)
    ensures |r| == |xs|
  {
    if xs == [] then [] else MapAll(f, xs[..|xs| - 1]) + [f(xs[|xs| - 1])]
  }

  /** The k-th element of the mapped sequence is `f` of the k-th element. */
  lemma {:induction false} MapAllPointwise(f: string -> string, xs: seq<string>)
    ensures forall k :: 0 <= k < |xs| ==> MapAll(f, xs)[k] == f(xs[k])
  {
    if xs != [] {
      MapAllPointwise(f, xs[..|xs| - 1]);
    }
  }

  /** The cleaning loop over the extracted prompts. */
  method CleanPrompts(raw: seq<string>) returns (prompts: seq<string>)
    ensures prompts == MapAll(CleanPrompt, raw)
    ensures forall k :: 0 <= k < |raw| ==> prompts[k] == CleanPrompt(raw[k])
  {
    prompts := [];
    var i := 0;
    while i < |raw|
      invariant 0 <= i <= |raw|
      invariant prompts == MapAll(CleanPrompt, raw[..i])
    {
      assert raw[..i + 1][..i] == raw[..i];
      prompts := prompts + [CleanPrompt(raw[i])];
      i := i + 1;
    }
    assert raw[..i] == raw;
    MapAllPointwise(CleanPrompt, raw);
  }

  /** `prompts[:2]`: at most the first two prompts are drawn. */
  function FirstTwo(prompts: seq<string>): (r: seq<string>)
    ensures |r| == (if |prompts| < 2 then |prompts| else 2)
    ensures r == prompts[..|r|]
  {
    if |prompts| < 2 then prompts else prompts[..2]
  }

  /** A labelled prompt loses exactly its label and colon. */
  lemma LabelRemoved(name: string, body: string)
    requires '：' !in name
    requires body != [] && !Text.IsPySpace(body[0]) && !Text.IsPySpace(body[|body| - 1])
    ensures CleanPrompt(name + WideColon + body) == body
  {
    var p := name + WideColon + body;
    assert p[|name|..|name| + 1] == WideColon;
    assert Text.Contains(p, WideColon) by {
      assert Text.OccursAt(p, WideColon, |name|);
    }
    forall j | 0 <= j < |name| ensures !Text.OccursAt(p, WideColon, j) {
      assert p[j] == name[j];
    }
    FindFirst(p, WideColon, 0, |name|);
    assert p[|name| + 1..] == body;
    Text.StripUnchanged(body);
  }

  /** A prompt without either colon is drawn as it is. */
  lemma UnlabelledKept(p: string)
    requires '：' !in p && ':' !in p
    ensures CleanPrompt(p) == p
  {
    Text.NotContainsByChar(p, WideColon, 0);
    Text.NotContainsByChar(p, Colon, 0);
  }

  // ----- detect_roles -----

  /** The answer of the role-detection endpoint. */
  datatype RolesAnswer = RolesAnswer(status: string, roles: seq<Value>, error: Option<string>)

  /**
   * The span `re.search(r'\[.*?\]', s, re.DOTALL)` matches: from the first
   * "[" to the first "]" after it.
   */
  function BracketSpan(s: string): (r: Option<(nat, nat)>)
    ensures r.Some? ==> var (i, j) := r.value;
      && i < j < |s| && s[i] == '[' && s[j] == ']'
      && (forall k :: 0 <= k < i ==> s[k] != '[')
      && (forall k :: i < k < j ==> s[k] != ']')
    ensures r.None? <==> forall i, j :: 0 <= i < j < |s| && s[i] == '[' ==> s[j] != ']'
  {
    match Text.Find(s, "[")
    case None =>
      NoCharBefore(s, '[');
      None
    case Some(i) =>
      assert s[i] == '[' by { assert s[i..i + 1] == "["; }
      FirstChar(s, '[', i);
      match Text.FindFrom(s, "]", i + 1)
      case None =>
        NoCharAfter(s, ']', i + 1);
        None
      case Some(j) =>
        assert s[j] == ']' by { assert s[j..j + 1] == "]"; }
        FirstCharFrom(s, ']', i + 1, j);
        Some((i, j))
  }

  lemma NoCharBefore(s: string, c: char)
    requires Text.Find(s, [c]).None?
    ensures forall k :: 0 <= k < |s| ==> s[k] != c
  {
    forall k | 0 <= k < |s| ensures s[k] != c {
      if s[k] == c {
        assert s[k..k + 1] == [c];
        assert Text.OccursAt(s, [c], k);
      }
    }
  }

  lemma FirstChar(s: string, c: char, i: nat)
    requires Text.Find(s, [c]) == Some(i)
    ensures forall k :: 0 <= k < i ==> s[k] != c
  {
    FirstCharFrom(s, c, 0, i);
  }

  lemma FirstCharFrom(s: string, c: char, from: nat, i: nat)
    requires Text.FindFrom(s, [c], from) == Some(i)
    ensures forall k :: from <= k < i ==> s[k] != c
  {
    forall k | from <= k < i ensures s[k] != c {
      if s[k] == c {
        assert s[k..k + 1] == [c];
        assert Text.OccursAt(s, [c], k);
      }
    }
  }

  lemma NoCharAfter(s: string, c: char, from: nat)
    requires Text.FindFrom(s, [c], from).None?
    ensures forall k :: from <= k < |s| ==> s[k] != c
  {
    forall k | from <= k < |s| ensures s[k] != c {
      if s[k] == c {
        assert s[k..k + 1] == [c];
        assert Text.OccursAt(s, [c], k);
      }
    }
  }

  /** A stripped line the fallback keeps: non-empty and no comment. */
  predicate IsRoleLine(t: string) {
    t != "" && !Text.StartsWith(t, "#") && !Text.StartsWith(t, "//")
  }

  /** A stripped non-empty text: it neither starts nor ends with a space. */
  predicate CleanEnds(t: string) {
    t != [] && !Text.IsPySpace(t[0]) && !Text.IsPySpace(t[|t| - 1])
  }

  /** `f` of every element, keeping the results that satisfy `keep`, in order. */
  function FilterMap(f: string -> string, keep: string -> bool, xs: seq<string>): (r: seq<string>)
    ensures |r| <= |xs|
    ensures forall t | t in r :: keep(t)
  {
    if xs == [] then []
    else
      var t := f(xs[0]);
      (if keep(t) then [t] else []) + FilterMap(f, keep, xs[1..])
  }

  /** A result is kept exactly when it is `f` of some element and satisfies `keep`. */
  lemma {:induction false} FilterMapExact(f: string -> string, keep: string -> bool, xs: seq<string>)
    ensures forall t :: t in FilterMap(f, keep, xs) <==> exists k :: 0 <= k < |xs| && t == f(xs[k]) && keep(t)
  {
    if xs != [] {
      FilterMapExact(f, keep, xs[1..]);
      forall t ensures t in FilterMap(f, keep, xs) <==> exists k :: 0 <= k < |xs| && t == f(xs[k]) && keep(t) {
        if exists k :: 0 <= k < |xs| && t == f(xs[k]) && keep(t) {
          var k :| 0 <= k < |xs| && t == f(xs[k]) && keep(t);
          if k > 0 {
            assert xs[1..][k - 1] == xs[k];
          }
        }
        if t in FilterMap(f, keep, xs[1..]) {
          var k :| 0 <= k < |xs[1..]| && t == f(xs[1..][k]) && keep(t);
          assert xs[k + 1] == xs[1..][k];
        }
      }
    }
  }

  /** The stripped lines that are neither blank nor a comment, in order. */
  function RoleLines(lines: seq<string>): seq<string> {
    FilterMap(Text.Strip, IsRoleLine, lines)
  }

  /** Every role line is a stripped line that is neither blank nor a comment. */
  lemma RoleLinesClean(lines: seq<string>)
    ensures forall t | t in RoleLines(lines) :: IsRoleLine(t) && CleanEnds(t)
  {
    FilterMapExact(Text.Strip, IsRoleLine, lines);
    forall t | t in RoleLines(lines) ensures CleanEnds(t) {
      var k :| 0 <= k < |lines| && t == Text.Strip(lines[k]) && IsRoleLine(t);
      Text.StripStartsClean(lines[k]);
    }
  }

  /** The fallback when the answer holds no bracketed list: the first ten role lines. */
  function FallbackRoles(text: string): (r: seq<string>)
    ensures |r| <= 10
    ensures |r| <= |RoleLines(Text.Split(text, '\n'))| && r == RoleLines(Text.Split(text, '\n'))[..|r|]
    ensures |r| < 10 ==> r == RoleLines(Text.Split(text, '\n'))
  {
    var roles := RoleLines(Text.Split(text, '\n'));
    if |roles| <= 10 then roles else roles[..10]
  }

  function AsValues(roles: seq<string>): (r: seq<Value>)
    ensures |r| == |roles| && forall k :: 0 <= k < |roles| ==> r[k] == Str(roles[k])
  {
    seq(|roles|, k requires 0 <= k < |roles| => Str(roles[k]))
  }

  /** The error answer of the endpoint's exception handler. */
  function RolesError(message: string): RolesAnswer {
    RolesAnswer("ERROR", [], Some(message))
  }

  /**
   * The roles read from the stripped model answer: the first bracketed span
   * parsed as JSON when there is one, else the fallback lines. `parse` is
   * `json.loads`; the print of `len(roles)` fails for a parsed value without
   * a length.
   */
  function RolesOf(answer: string, parse: string -> Result<Value, string>): (r: RolesAnswer)
    ensures r.status == "ERROR" <==> r.error.Some?
    ensures r.status == "ERROR" ==> r.roles == []
    ensures r.status != "ERROR" ==> r.status == "SUCCESS"
  {
    match BracketSpan(answer)
    case Some((i, j)) =>
      (match parse(answer[i..j + 1])
       case Err(msg) => RolesError(msg)
       case Ok(v) =>
         if !(v.Str? || v.List? || v.Dict?) then
           RolesError("object of type '" + PyTypeName(v) + "' has no len()")
         else RolesAnswer("SUCCESS", if v.List? then v.items else [], None))
    case None => RolesAnswer("SUCCESS", AsValues(FallbackRoles(answer)), None)
  }

  /**
   * `detect_roles`: no roles for a blank text, the error of a failed model
   * call, else the roles read from the stripped answer.
   */
  function DetectRoles(text: string, reply: ModelReply, parse: string -> Result<Value, string>): (r: RolesAnswer)
    ensures Text.Strip(text) == "" ==> r == RolesAnswer("SUCCESS", [], None)
    ensures Text.Strip(text) != "" && !reply.Text? ==>
      r.status == "ERROR" && r.roles == [] && r.error == Some(reply.message)
    ensures Text.Strip(text) != "" && reply.Text? ==> r == RolesOf(Text.Strip(reply.raw), parse)
    ensures r.status == "ERROR" <==> r.error.Some?
  {
    if text == "" || Text.Strip(text) == "" then RolesAnswer("SUCCESS", [], None)
    else
      match reply
      case SetupFailed(_, msg) => RolesError(msg)
      case Failed(_, msg) => RolesError(msg)
      case Text(raw) => RolesOf(Text.Strip(raw), parse)
  }

  /** Without a bracketed span the answer succeeds with at most ten stripped, non-comment lines. */
  lemma FallbackAnswerBounded(answer: string, parse: string -> Result<Value, string>)
    requires BracketSpan(answer).None?
    ensures var r := RolesOf(answer, parse);
      && r.status == "SUCCESS" && |r.roles| <= 10
      && forall k :: 0 <= k < |r.roles| ==> r.roles[k].Str? && IsRoleLine(r.roles[k].s) && CleanEnds(r.roles[k].s)
  {
    var roles := FallbackRoles(answer);
    RoleLinesClean(Text.Split(answer, '\n'));
    forall k | 0 <= k < |roles| ensures IsRoleLine(roles[k]) && CleanEnds(roles[k]) {
      assert roles[k] in RoleLines(Text.Split(answer, '\n'));
    }
  }

  /** A bracketed list is passed through whole; any other bracketed JSON gives no roles or an error. */
  lemma BracketedListPassedThrough(answer: string, parse: string -> Result<Value, string>)
    requires BracketSpan(answer).Some?
    ensures var (i, j) := BracketSpan(answer).value;
      var v := parse(answer[i..j + 1]);
      var r := RolesOf(answer, parse);
      && (v.Ok? && v.value.List? ==> r == RolesAnswer("SUCCESS", v.value.items, None))
      && (v.Ok? && (v.value.Str? || v.value.Dict?) ==> r == RolesAnswer("SUCCESS", [], None))
      && (r.status == "ERROR" <==> v.Err? || !(v.value.Str? || v.value.List? || v.value.Dict?))
  {
  }

  // ----- voices -----

  const MaleVoice := "ja-JP-Neural2-B"
  const FemaleVoice := "ja-JP-Neural2-C"

  /** The voice of a chat reply: the male voice for the mentor ("model"), the female voice otherwise. */
  function ChatVoice(speaker: string): (v: string)
    ensures v == MaleVoice <==> speaker == "model"
    ensures v == MaleVoice || v == FemaleVoice
  {
    if speaker == "model" then MaleVoice else FemaleVoice
  }

  /** The podcast speakers voiced as the user or guest. */
  predicate IsGuestSpeaker(speaker: string) {
    || Text.Contains(speaker, "用户") || Text.Contains(speaker, "ユーザー")
    || Text.Contains(speaker, "嘉宾") || Text.Contains(speaker, "私")
    || Text.AsciiLower(speaker) == "user" || Text.Contains(Text.AsciiLower(speaker), "guest")
  }

  /** The voice of a podcast line: the female voice for the user or guest, the male voice for the host. */
  function PodcastVoice(speaker: string): (v: string)
    ensures v == FemaleVoice <==> IsGuestSpeaker(speaker)
    ensures v == MaleVoice || v == FemaleVoice
  {
    if IsGuestSpeaker(speaker) then FemaleVoice else MaleVoice
  }
}
