/**
 * The last-round rewrite: once the user has answered `turn` times the reply
 * must close the conversation, so the status becomes FINISHED and the reply
 * is kept, truncated before its first question, or extended with the closing
 * sentence.
 */
module Termination {
  import opened Wrappers
  import opened Json
  import opened Faults
  import Text
  import Recovery

  /** The phrases `has_ending` looks for. */
  const Thanks := "ありがとう"
  const Diary := "日記"
  const Together := "一緒"

  /** The Japanese closing sentence, written in pieces around the phrases it must hold. */
  const EndingJa := Thanks + "ございます。今日は私と話してくれて、" + Together + "に今日の日記を書きましょう。"
  const EndingZh := "谢谢你和我说这些，让我们来一起写作今天的日记吧。"
  const FallbackJa := "素晴らしいですね。"
  const AckZh := "太好了。"
  const Period: char := '。'

  /** What `has_question` looks for anywhere in the reply. */
  const QuestionMarkers: seq<string> := ["？", "?", "ですか", "どう", "何", "いつ", "どこ", "誰", "なぜ", "どのように"]

  /** The narrower set the truncation loop tests each sentence against. */
  const LineMarkers: seq<string> := ["？", "?", "ですか", "どう"]

  predicate HasAny(s: string, markers: seq<string>) {
    exists i | 0 <= i < |markers| :: Text.Contains(s, markers[i])
  }

  /** `has_ending`: a thank-you together with the diary or together-phrase. */
  predicate HasEnding(s: string) {
    Text.Contains(s, Thanks) && (Text.Contains(s, Diary) || Text.Contains(s, Together))
  }

  predicate HasQuestion(s: string) {
    HasAny(s, QuestionMarkers)
  }

  predicate IsQuestionLine(line: string) {
    HasAny(line, LineMarkers)
  }

  /** The branch that appends the closing sentence to a non-empty reply. */
  predicate Appends(s: string) {
    s != "" && !HasEnding(s) && !HasQuestion(s)
  }

  /** The text the truncation loop keeps: each sentence before the first question line, with "。" put back. */
  function KeepUntilQuestion(lines: seq<string>): string {
    if lines == [] || IsQuestionLine(lines[0]) then ""
    else lines[0] + "。" + KeepUntilQuestion(lines[1..])
  }

  /** The truncation loop of the question branch. */
  method KeepLeadingStatements(lines: seq<string>) returns (part: string)
    ensures part == KeepUntilQuestion(lines)
  {
    part := "";
    var i := 0;
    while i < |lines|
      invariant 0 <= i <= |lines|
      invariant part + KeepUntilQuestion(lines[i..]) == KeepUntilQuestion(lines)
    {
      if IsQuestionLine(lines[i]) {
        break;
      }
      assert lines[i..][1..] == lines[i + 1..];
      part := part + lines[i] + "。";
      i := i + 1;
    }
  }

  /** The reply built in the question branch. */
  function Truncated(s: string): string {
    var kept := Text.Strip(KeepUntilQuestion(Text.Split(s, Period)));
    (if kept != "" then kept else FallbackJa) + " " + EndingJa
  }

  /** Python's message for `v + " "` when `v` is not a str. */
  function ConcatError(v: Value): Fault {
    if v.List? then TypeError("can only concatenate list (not \"str\") to list")
    else TypeError("unsupported operand type(s) for +: '" + PyTypeName(v) + "' and 'str'")
  }

  /**
   * The last-round rewrite of a normalised dict. A reply that is an empty
   * dict fails on the diagnostic slice; a truthy translation that is not a
   * str fails on the concatenation.
   */
  function Enforce(m: Object): (r: Result<Object, Fault>)
    requires Recovery.Normalized(m)
    ensures r.Ok? ==> "status" in r.value && r.value["status"] == Str("FINISHED")
    ensures r.Err? ==> r.error.TypeError?
    ensures r.Err? <==> m["reply"].Dict? || (m["reply"].Str? && Appends(m["reply"].s) && PyTruthy(m["translation"]) && !m["translation"].Str?)
  {
    var finished := m["status" := Str("FINISHED")];
    match m["reply"]
    case Dict(_) => Err(TypeError("unhashable type: 'slice'"))
    case List(_) => Ok(Closed(finished, EndingJa, EndingZh))
    case Str(s) =>
      if HasEnding(s) && !HasQuestion(s) then Ok(finished)
      else
        match ClosingTranslation(s, m["translation"])
        case Err(e) => Err(e)
        case Ok(z) => Ok(Closed(finished, ClosingReply(s), z))
  }

  /** The reply a str reply is rewritten to: kept, truncated, extended, or replaced when empty. */
  function ClosingReply(s: string): string {
    if HasEnding(s) && !HasQuestion(s) then s
    else if HasQuestion(s) then Truncated(s)
    else if s != "" then s + " " + EndingJa
    else EndingJa
  }

  /**
   * The translation written with a rewritten str reply, or the error of
   * appending to a truthy translation that is not a str.
   */
  function ClosingTranslation(s: string, t: Value): (r: Result<string, Fault>)
    ensures r.Err? <==> Appends(s) && PyTruthy(t) && !t.Str?
    ensures r.Err? ==> r.error.TypeError?
  {
    if HasQuestion(s) then Ok(AckZh + " " + EndingZh)
    else if s != "" && !HasEnding(s) then
      if !PyTruthy(t) then Ok(EndingZh)
      else if t.Str? then Ok(t.s + " " + EndingZh)
      else Err(ConcatError(t))
    else Ok(EndingZh)
  }

  /** The dict with a new reply and translation, every other key as it was. */
  function Closed(finished: Object, reply: string, translation: string): (r: Object)
    ensures r.Keys == finished.Keys + {"reply", "translation"}
    ensures r["reply"] == Str(reply) && r["translation"] == Str(translation)
    ensures forall k :: k in finished && k != "reply" && k != "translation" ==> r[k] == finished[k]
  {
    finished["reply" := Str(reply)]["translation" := Str(translation)]
  }

  // ----- lemmas -----

  /** The rewrite adds only "status" and changes no key but the reply, the translation and the status. */
  lemma EnforceFrame(m: Object)
    requires Recovery.Normalized(m) && Enforce(m).Ok?
    ensures Enforce(m).value.Keys == m.Keys + {"status"}
    ensures forall k :: k in m && k != "reply" && k != "translation" && k != "status" ==> Enforce(m).value[k] == m[k]
  {
    var finished := m["status" := Str("FINISHED")];
    assert "reply" in m && "translation" in m;
    match m["reply"]
    case List(_) =>
      ClosedFrame(m, EndingJa, EndingZh);
    case Str(s) =>
      if !(HasEnding(s) && !HasQuestion(s)) {
        ClosedFrame(m, ClosingReply(s), ClosingTranslation(s, m["translation"]).value);
      }
  }

  lemma ClosedFrame(m: Object, reply: string, translation: string)
    requires "reply" in m && "translation" in m
    ensures Closed(m["status" := Str("FINISHED")], reply, translation).Keys == m.Keys + {"status"}
    ensures forall k :: k in m && k != "reply" && k != "translation" && k != "status" ==>
      Closed(m["status" := Str("FINISHED")], reply, translation)[k] == m[k]
  {
  }

  /** A text free of every marker stays free when joined to another by a character no marker holds. */
  lemma JoinClean(x: string, c: char, y: string, markers: seq<string>)
    requires forall i :: 0 <= i < |markers| ==> c !in markers[i]
    requires !HasAny(x, markers) && !HasAny(y, markers)
    ensures !HasAny(x + [c] + y, markers)
  {
    forall i | 0 <= i < |markers| ensures !Text.Contains(x + [c] + y, markers[i]) {
      if Text.Contains(x + [c] + y, markers[i]) {
        Text.ContainsAroundSeparator(x, c, y, markers[i]);
      }
    }
  }

  /** A marker found in a piece of a stripped text is found in the text. */
  lemma StripWithin(s: string, p: string)
    requires Text.Contains(Text.Strip(s), p)
    ensures Text.Contains(s, p)
  {
    Text.StripIsSlice(s);
    Text.ContainsInSlice(s, |s| - |Text.TrimStart(s, Text.IsPySpace)|, |Text.Strip(s)|, p);
  }

  /** One character of each marker of `has_question`, in marker order. */
  const KeyChars: string := "？?かど何つ誰ぜ"

  predicate Avoids(s: string, chars: string) {
    forall k | 0 <= k < |s| :: s[k] !in chars
  }

  /** A text without any key character asks no question. */
  lemma QuestionFreeByChars(s: string)
    requires Avoids(s, KeyChars)
    ensures !HasQuestion(s)
  {
    forall i | 0 <= i < |QuestionMarkers| ensures !Text.Contains(s, QuestionMarkers[i]) {
      var p := QuestionMarkers[i];
      var k := if i == 2 then 2 else if i == 5 || i == 8 then 1 else 0;
      assert p[k] in KeyChars;
      Text.NotContainsByChar(s, p, k);
    }
  }

  lemma AvoidsConcat(a: string, b: string, chars: string)
    requires Avoids(a, chars) && Avoids(b, chars)
    ensures Avoids(a + b, chars)
  {
  }

  /** The closing sentence holds none of the key characters, piece by piece. */
  lemma EndingJaAvoidsKeys()
    ensures Avoids(EndingJa, KeyChars)
  {
    var a := "ございます。今日は私と話してくれて、";
    var b := "に今日の日記を書きましょう。";
    assert Avoids(Thanks, KeyChars);
    assert Avoids(a, KeyChars);
    AvoidsConcat(Thanks, a, KeyChars);
    assert Avoids(Together, KeyChars);
    AvoidsConcat(Thanks + a, Together, KeyChars);
    assert Avoids(b, KeyChars);
    AvoidsConcat(Thanks + a + Together, b, KeyChars);
  }

  /** The fixed sentences hold no question marker. */
  lemma FixedTextsQuestionFree()
    ensures !HasQuestion(EndingJa) && !HasQuestion(FallbackJa) && !HasQuestion(" ")
  {
    EndingJaAvoidsKeys();
    QuestionFreeByChars(EndingJa);
    assert Avoids(FallbackJa, KeyChars);
    QuestionFreeByChars(FallbackJa);
    QuestionFreeByChars(" ");
  }

  /** The narrow markers are among the markers of `has_question`. */
  lemma LineMarkersAreQuestions(s: string)
    requires IsQuestionLine(s)
    ensures HasQuestion(s)
  {
    var i :| 0 <= i < |LineMarkers| && Text.Contains(s, LineMarkers[i]);
    assert LineMarkers[i] == QuestionMarkers[i];
  }

  /** The kept text holds none of the narrow markers. */
  lemma {:induction false} KeptHasNoLineMarker(lines: seq<string>)
    ensures !HasAny(KeepUntilQuestion(lines), LineMarkers)
  {
    if lines == [] || IsQuestionLine(lines[0]) {
      assert KeepUntilQuestion(lines) == "";
    } else {
      KeptHasNoLineMarker(lines[1..]);
      JoinClean(lines[0], Period, KeepUntilQuestion(lines[1..]), LineMarkers);
      assert KeepUntilQuestion(lines) == lines[0] + [Period] + KeepUntilQuestion(lines[1..]);
    }
  }

  /** With no question line at all, every sentence is kept. */
  lemma {:induction false} KeptAll(lines: seq<string>)
    requires forall j :: 0 <= j < |lines| ==> !IsQuestionLine(lines[j])
    ensures KeepUntilQuestion(lines) == Text.Terminated(lines, Period)
  {
    if lines != [] {
      KeptAll(lines[1..]);
    }
  }

  /** Whatever a piece contains, the pieces joined by the separator contain. */
  lemma {:induction false} PieceWithin(lines: seq<string>, sep: char, j: nat, p: string)
    requires j < |lines| && Text.Contains(lines[j], p)
    ensures Text.Contains(Text.Terminated(lines, sep), p)
  {
    var t := Text.Terminated(lines, sep);
    var rest := Text.Terminated(lines[1..], sep);
    assert t == lines[0] + ([sep] + rest);
    if j == 0 {
      assert t[..|lines[0]|] == lines[0];
      Text.ContainsInPrefix(t, |lines[0]|, p);
    } else {
      PieceWithin(lines[1..], sep, j - 1, p);
      assert t[|lines[0]| + 1..] == rest;
      Text.ContainsInSuffix(t, |lines[0]| + 1, p);
    }
  }

  /** Pieces free of `p` stay free of it when joined by a separator `p` does not hold. */
  lemma {:induction false} TerminatedClean(lines: seq<string>, sep: char, p: string)
    requires sep !in p && p != []
    requires forall j :: 0 <= j < |lines| ==> !Text.Contains(lines[j], p)
    ensures !Text.Contains(Text.Terminated(lines, sep), p)
  {
    if lines != [] {
      TerminatedClean(lines[1..], sep, p);
      var rest := Text.Terminated(lines[1..], sep);
      if Text.Contains(lines[0] + [sep] + rest, p) {
        Text.ContainsAroundSeparator(lines[0], sep, rest, p);
      }
    }
  }

  /** The fallback answer of the question branch asks nothing. */
  lemma FallbackReplyAsksNothing()
    ensures !HasQuestion(FallbackJa + " " + EndingJa)
  {
    FixedTextsQuestionFree();
    forall i | 0 <= i < |QuestionMarkers| ensures ' ' !in QuestionMarkers[i] { }
    JoinClean(FallbackJa, ' ', EndingJa, QuestionMarkers);
    assert FallbackJa + " " + EndingJa == FallbackJa + [' '] + EndingJa;
  }

  /** When nothing is kept, the question branch answers with the fallback sentence and asks nothing. */
  lemma FallbackAsksNothing(s: string)
    requires Text.Strip(KeepUntilQuestion(Text.Split(s, Period))) == ""
    ensures !HasQuestion(Truncated(s))
  {
    FallbackReplyAsksNothing();
  }

  /** A sentence asking with a narrow marker loses that marker to the truncation. */
  lemma QuestionLineDropped(s: string, j: nat)
    requires j < |Text.Split(s, Period)| && IsQuestionLine(Text.Split(s, Period)[j])
    ensures Truncated(s) != s
  {
    var lines := Text.Split(s, Period);
    var i :| 0 <= i < |LineMarkers| && Text.Contains(lines[j], LineMarkers[i]);
    var p := LineMarkers[i];
    PieceWithin(lines, Period, j, p);
    assert Text.Terminated(lines, Period) == s + [Period] + [];
    assert Period !in p;
    Text.ContainsAroundSeparator(s, Period, [], p);
    TruncatedHasNoLineMarker(s);
    assert Text.Contains(s, p) && !Text.Contains(Truncated(s), p);
  }

  /** With no question sentence the whole reply is kept and the closing sentence still follows it. */
  lemma AllKeptChanges(s: string)
    requires forall j :: 0 <= j < |Text.Split(s, Period)| ==> !IsQuestionLine(Text.Split(s, Period)[j])
    requires Text.Strip(KeepUntilQuestion(Text.Split(s, Period))) != ""
    ensures Truncated(s) != s
  {
    KeptAll(Text.Split(s, Period));
    TerminatedChanges(s, KeepUntilQuestion(Text.Split(s, Period)));
  }

  /** The reply with "。" put back, stripped and followed by the closing sentence, differs from the reply. */
  lemma TerminatedChanges(s: string, part: string)
    requires part == s + [Period] && Text.Strip(part) != ""
    ensures Text.Strip(part) + " " + EndingJa != s
  {
    if s != [] && Text.IsPySpace(s[0]) {
      Text.StripStartsClean(part);
      DiffersFromReply(Text.Strip(part), s);
    } else {
      PeriodEndedKept(s, part);
      DiffersFromReply(part, s);
    }
  }

  /** A reply that does not start with a space is kept whole once "。" is put back. */
  lemma PeriodEndedKept(s: string, part: string)
    requires part == s + [Period]
    requires s == [] || !Text.IsPySpace(s[0])
    ensures Text.Strip(part) == part
  {
    assert part[0] == Period || part[0] == s[0];
    assert part[|part| - 1] == Period;
    Text.StripUnchanged(part);
  }

  /** A text that is longer than the reply or starts differently stays different once the closing sentence follows. */
  lemma DiffersFromReply(kept: string, s: string)
    requires kept != []
    requires |kept| > |s| || (s != [] && kept[0] != s[0])
    ensures kept + " " + EndingJa != s
  {
    if |kept| <= |s| {
      assert (kept + " " + EndingJa)[0] == kept[0];
    }
  }

  /** A reply with a question is never left as it was by the question branch. */
  lemma TruncationChanges(s: string)
    requires HasQuestion(s)
    ensures Truncated(s) != s
  {
    var lines := Text.Split(s, Period);
    if Text.Strip(KeepUntilQuestion(lines)) == "" {
      FallbackAsksNothing(s);
    } else if j :| 0 <= j < |lines| && IsQuestionLine(lines[j]) {
      QuestionLineDropped(s, j);
    } else {
      AllKeptChanges(s);
    }
  }

  lemma EnforceStrReply(m: Object)
    requires Recovery.Normalized(m) && m["reply"].Str? && Enforce(m).Ok?
    ensures Enforce(m).value["reply"] == Str(ClosingReply(m["reply"].s))
  {
  }

  /** An empty reply is replaced by the closing sentence. */
  lemma ClosingReplyOfEmpty()
    ensures ClosingReply("") == EndingJa
  {
    QuestionFreeByChars("");
    Text.NotContainsByChar("", Thanks, 0);
  }

  /** A successful rewrite leaves `ClosingReply` of the reply; an empty list reply counts as "". */
  lemma EnforceReply(m: Object)
    requires Recovery.Normalized(m) && Enforce(m).Ok?
    ensures Enforce(m).value["reply"] == Str(ClosingReply(if m["reply"].Str? then m["reply"].s else ""))
  {
    if m["reply"].Str? {
      EnforceStrReply(m);
    } else {
      ClosingReplyOfEmpty();
    }
  }

  /** A reply that already closes and asks nothing only gets the FINISHED status. */
  lemma EnforceKeeps(m: Object)
    requires Recovery.Normalized(m) && m["reply"].Str?
    requires HasEnding(m["reply"].s) && !HasQuestion(m["reply"].s)
    ensures Enforce(m) == Ok(m["status" := Str("FINISHED")])
  {
  }

  /** Only the keep branch leaves a str reply as it was. */
  lemma ClosingReplyKeepsIff(s: string)
    ensures ClosingReply(s) == s <==> HasEnding(s) && !HasQuestion(s)
  {
    if HasQuestion(s) {
      TruncationChanges(s);
    } else if !HasEnding(s) && s != "" {
      assert |s + " " + EndingJa| > |s|;
    } else if !HasEnding(s) {
      assert |EndingJa| > 0;
    }
  }

  /**
   * The reply survives the rewrite exactly when it already closes the
   * conversation and asks nothing.
   */
  lemma ReplyKeptIff(m: Object)
    requires Recovery.Normalized(m) && m["reply"].Str?
    ensures Enforce(m).Ok? && Enforce(m).value["reply"] == m["reply"]
        <==> HasEnding(m["reply"].s) && !HasQuestion(m["reply"].s)
  {
    ClosingReplyKeepsIff(m["reply"].s);
    if Enforce(m).Ok? {
      EnforceReply(m);
    }
  }

  /** Stripping a text free of the narrow markers keeps it free of them. */
  lemma StripKeepsLineClean(part: string)
    requires !HasAny(part, LineMarkers)
    ensures !HasAny(Text.Strip(part), LineMarkers)
  {
    forall i | 0 <= i < |LineMarkers| ensures !Text.Contains(Text.Strip(part), LineMarkers[i]) {
      if Text.Contains(Text.Strip(part), LineMarkers[i]) {
        StripWithin(part, LineMarkers[i]);
      }
    }
  }

  /** The fixed sentences hold no narrow marker, and no narrow marker holds a space. */
  lemma FixedTextsLineClean()
    ensures !HasAny(EndingJa, LineMarkers) && !HasAny(FallbackJa, LineMarkers)
    ensures forall i :: 0 <= i < |LineMarkers| ==> ' ' !in LineMarkers[i]
  {
    FixedTextsQuestionFree();
    forall i | 0 <= i < |LineMarkers|
      ensures !Text.Contains(EndingJa, LineMarkers[i]) && !Text.Contains(FallbackJa, LineMarkers[i])
    {
      assert LineMarkers[i] == QuestionMarkers[i];
    }
  }

  /** After the question branch no sentence of the reply asks with one of the narrow markers. */
  lemma TruncatedHasNoLineMarker(s: string)
    ensures !HasAny(Truncated(s), LineMarkers)
  {
    var part := KeepUntilQuestion(Text.Split(s, Period));
    var kept := Text.Strip(part);
    KeptHasNoLineMarker(Text.Split(s, Period));
    StripKeepsLineClean(part);
    FixedTextsLineClean();
    var head := if kept != "" then kept else FallbackJa;
    JoinClean(head, ' ', EndingJa, LineMarkers);
    assert Truncated(s) == head + [' '] + EndingJa;
  }

  /** A sentence without the key characters of the narrow markers is not a question line. */
  lemma NotQuestionLineByChars(s: string)
    requires Avoids(s, "？?かど")
    ensures !IsQuestionLine(s)
  {
    forall i | 0 <= i < |LineMarkers| ensures !Text.Contains(s, LineMarkers[i]) {
      var p := LineMarkers[i];
      var k := if i == 2 then 2 else 0;
      assert p[k] in "？?かど";
      Text.NotContainsByChar(s, p, k);
    }
  }

  /** A single sentence that is no question line is kept whole, with "。" put back. */
  lemma SingleSentenceKept(s: string)
    requires s != [] && Period !in s && !Text.IsPySpace(s[0]) && !IsQuestionLine(s)
    ensures Truncated(s) == s + "。" + " " + EndingJa
  {
    Text.SplitWhole(s, Period);
    var part := KeepUntilQuestion([s]);
    assert [s][0] == s && [s][1..] == [];
    assert KeepUntilQuestion([s][1..]) == "";
    assert part == s + "。";
    assert part[0] == s[0] && part[|part| - 1] == Period;
    assert Text.TrimStart(part, Text.IsPySpace) == part;
    assert Text.TrimEnd(part, Text.IsPySpace) == part;
  }

  /**
   * The truncation tests only the narrow markers: a reply that asks with
   * いつ and no question mark keeps its question.
   */
  lemma WideQuestionSurvives()
    ensures HasQuestion("いつ行くの")
    ensures HasQuestion(Truncated("いつ行くの"))
  {
    var s := "いつ行くの";
    WideSentenceFacts();
    SingleSentenceKept(s);
    var t := Truncated(s);
    Text.ContainsLeft(s, "。", "いつ");
    Text.ContainsLeft(s + "。", " ", "いつ");
    Text.ContainsLeft(s + "。" + " ", EndingJa, "いつ");
    AsksWhen(s);
    AsksWhen(t);
  }

  /** A text holding いつ asks a question in the sense of `has_question`. */
  lemma AsksWhen(t: string)
    requires Text.Contains(t, "いつ")
    ensures HasQuestion(t)
  {
    assert QuestionMarkers[5] == "いつ";
  }

  /** The sentence of the example: no full stop, no leading space, no narrow marker, but いつ. */
  lemma WideSentenceFacts()
    ensures Period !in "いつ行くの" && !Text.IsPySpace("いつ行くの"[0])
    ensures !IsQuestionLine("いつ行くの")
    ensures Text.Contains("いつ行くの", "いつ")
  {
    var s := "いつ行くの";
    assert Avoids(s, "？?かど");
    NotQuestionLineByChars(s);
    assert Text.OccursAt(s, "いつ", 0);
  }

  /** Every rewritten reply ends with the Japanese closing sentence. */
  lemma ClosingReplyEnds(s: string)
    requires !(HasEnding(s) && !HasQuestion(s))
    ensures Text.EndsWith(ClosingReply(s), EndingJa)
  {
    var r := ClosingReply(s);
    var x := r[..|r| - |EndingJa|];
    if HasQuestion(s) {
      var kept := Text.Strip(KeepUntilQuestion(Text.Split(s, Period)));
      assert r == (if kept != "" then kept else FallbackJa) + " " + EndingJa;
    }
    assert r[|r| - |EndingJa|..] == EndingJa;
  }

  /** A reply ending with the closing sentence is no "error" text, so it passes normalisation again. */
  lemma ClosedReplyNotError(r: string)
    requires Text.EndsWith(r, EndingJa)
    ensures !Recovery.IsErrorText(r)
  {
    EndingJaEndsWithPeriod();
    assert r[|r| - 1] == r[|r| - |EndingJa|..][|EndingJa| - 1];
    Recovery.NotErrorByLastChar(r);
  }

  lemma EndingJaEndsWithPeriod()
    ensures |EndingJa| > 0 && EndingJa[|EndingJa| - 1] == Period
  {
    var tail := "に今日の日記を書きましょう。";
    assert EndingJa[|EndingJa| - 1] == tail[|tail| - 1];
  }

  /** The closing sentence itself closes the conversation. */
  lemma EndingJaCloses()
    ensures HasEnding(EndingJa) && !HasQuestion(EndingJa)
    ensures Text.Contains(EndingJa, Thanks) && Text.Contains(EndingJa, Together)
  {
    FixedTextsQuestionFree();
    var head := "ございます。今日は私と話してくれて、";
    var tail := "に今日の日記を書きましょう。";
    OccursInMiddle([], Thanks, head);
    assert [] + Thanks + head == Thanks + head;
    Text.ContainsLeft(Thanks + head, Together, Thanks);
    Text.ContainsLeft(Thanks + head + Together, tail, Thanks);
    OccursInMiddle(Thanks + head, Together, tail);
  }

  lemma OccursInMiddle(a: string, p: string, b: string)
    ensures Text.Contains(a + p + b, p)
  {
    assert (a + p + b)[|a|..|a| + |p|] == p;
    assert Text.OccursAt(a + p + b, p, |a|);
  }

  /** A rewritten reply that started without a question is kept by a second rewrite. */
  lemma ClosingReplySettles(s: string)
    requires !HasQuestion(s)
    ensures HasEnding(ClosingReply(s)) && !HasQuestion(ClosingReply(s))
    ensures ClosingReply(ClosingReply(s)) == ClosingReply(s)
  {
    EndingJaCloses();
    if !HasEnding(s) && s != "" {
      var r := s + " " + EndingJa;
      FixedTextsQuestionFree();
      forall i | 0 <= i < |QuestionMarkers| ensures ' ' !in QuestionMarkers[i] { }
      JoinClean(s, ' ', EndingJa, QuestionMarkers);
      assert r == s + [' '] + EndingJa;
      assert r[|s| + 1..] == EndingJa;
      Text.ContainsInSuffix(r, |s| + 1, Thanks);
      Text.ContainsInSuffix(r, |s| + 1, Together);
    }
  }

  /** A successful rewrite yields a dict that is still normalised. */
  lemma EnforceKeepsNormalized(m: Object)
    requires Recovery.Normalized(m) && Enforce(m).Ok?
    ensures Recovery.Normalized(Enforce(m).value)
  {
    var m' := Enforce(m).value;
    EnforceFrame(m);
    assert m'["user_ja"] == m["user_ja"];
    EnforceReply(m);
    var s := if m["reply"].Str? then m["reply"].s else "";
    if !m["reply"].Str? {
      ClosingReplyOfEmpty();
      ClosedReplyNotError(EndingJa) by {
        EndsWithAppended([], EndingJa);
        assert [] + EndingJa == EndingJa;
      }
    } else if !(HasEnding(s) && !HasQuestion(s)) {
      ClosingReplyEnds(s);
      ClosedReplyNotError(ClosingReply(s));
    }
  }

  /** A successful rewrite is FINISHED and its reply either already closed and asked nothing or ends with the closing sentence. */
  lemma EnforceFinishes(m: Object)
    requires Recovery.Normalized(m) && Enforce(m).Ok?
    ensures "status" in Enforce(m).value && Enforce(m).value["status"] == Str("FINISHED")
    ensures "reply" in Enforce(m).value && Enforce(m).value["reply"].Str?
    ensures var s := Enforce(m).value["reply"].s;
      Text.EndsWith(s, EndingJa) || (HasEnding(s) && !HasQuestion(s))
  {
    EnforceFrame(m);
    EnforceReply(m);
    var s := if m["reply"].Str? then m["reply"].s else "";
    if !(HasEnding(s) && !HasQuestion(s)) {
      ClosingReplyEnds(s);
    }
  }

  /**
   * Enforcing an already-enforced reply changes nothing further, unless the
   * question branch ran (whose result may still ask, see `WideQuestionSurvives`).
   */
  lemma EnforceSettles(m: Object)
    requires Recovery.Normalized(m) && Enforce(m).Ok?
    requires !(m["reply"].Str? && HasQuestion(m["reply"].s))
    ensures Recovery.Normalized(Enforce(m).value)
    ensures Enforce(Enforce(m).value) == Enforce(m)
  {
    EnforceKeepsNormalized(m);
    EnforceReply(m);
    var s := if m["reply"].Str? then m["reply"].s else "";
    if !m["reply"].Str? {
      QuestionFreeByChars("");
    }
    ClosingReplySettles(s);
    FinishedAgain(Enforce(m).value);
  }

  /** A normalised FINISHED dict whose reply closes and asks nothing is a fixed point of the rewrite. */
  lemma FinishedAgain(m': Object)
    requires Recovery.Normalized(m') && m'["reply"].Str? && "status" in m' && m'["status"] == Str("FINISHED")
    requires HasEnding(m'["reply"].s) && !HasQuestion(m'["reply"].s)
    ensures Enforce(m') == Ok(m')
  {
    EnforceKeeps(m');
    assert m'["status" := Str("FINISHED")] == m';
  }

  /** A suffix that ends a concatenation. */
  lemma EndsWithAppended(x: string, e: string)
    ensures Text.EndsWith(x + e, e)
  {
    assert (x + e)[|x + e| - |e|..] == e;
  }

  /** Whenever the reply is rewritten, the translation is rewritten to end with the Chinese closing sentence. */
  lemma EnforceTranslation(m: Object)
    requires Recovery.Normalized(m) && Enforce(m).Ok?
    requires !(m["reply"].Str? && HasEnding(m["reply"].s) && !HasQuestion(m["reply"].s))
    ensures Enforce(m).value["translation"].Str?
    ensures Text.EndsWith(Enforce(m).value["translation"].s, EndingZh)
  {
    var t := Enforce(m).value["translation"].s;
    if m["reply"].Str? && HasQuestion(m["reply"].s) {
      EndsWithAppended(AckZh + " ", EndingZh);
      assert t == AckZh + " " + EndingZh;
    } else if m["reply"].Str? && m["reply"].s != "" && PyTruthy(m["translation"]) {
      EndsWithAppended(m["translation"].s + " ", EndingZh);
      assert t == m["translation"].s + " " + EndingZh;
    } else {
      EndsWithAppended([], EndingZh);
      assert t == [] + EndingZh;
    }
  }

  /**
   * A rewritten reply closes the conversation in both languages: the reply
   * ends with the Japanese and the translation with the Chinese closing
   * sentence.
   */
  lemma EnforceCloses(m: Object)
    requires Recovery.Normalized(m) && Enforce(m).Ok? && Enforce(m).value["reply"] != m["reply"]
    ensures Enforce(m).value["reply"].Str? && Text.EndsWith(Enforce(m).value["reply"].s, EndingJa)
    ensures Enforce(m).value["translation"].Str? && Text.EndsWith(Enforce(m).value["translation"].s, EndingZh)
  {
    EnforceReply(m);
    var s := if m["reply"].Str? then m["reply"].s else "";
    if !m["reply"].Str? {
      QuestionFreeByChars("");
      Text.NotContainsByChar("", Thanks, 0);
    }
    ClosingReplyEnds(s);
    EnforceTranslation(m);
  }
}
