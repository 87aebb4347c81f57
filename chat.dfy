/**
 * The chat endpoint: one request, the model's answer, the last-round rewrite,
 * speech synthesis and the ledger, with every exception caught and turned into
 * an ERROR answer by one of the two handlers.
 */
module Chat {
  import opened Wrappers
  import opened Json
  import opened Faults
  import Text
  import Phase
  import Recovery
  import Termination
  import Ledger

  /** The fields of a chat request the handler's logic depends on. */
  datatype ChatRequest = ChatRequest(
    context: string,
    mentorRole: string,
    turn: int,
    history: seq<Phase.Message>,
    previous: seq<Object>)

  /** What the speech-synthesis helper did with a non-empty reply. */
  datatype TtsOutcome =
      /** A result without "error"; `audio` is its "audio_base64" (None when absent). */
    | Audio(audio: Value)
      /** A result carrying "error". */
    | Refused(error: Value)
      /** The helper raised; `message` is `str` of the exception. */
    | Crashed(message: string)

  const EmptyText := "模型未返回有效文本（candidates 为空或被屏蔽）"
  const OuterText := "抱歉，回复生成时出了点问题，请稍后再试。"
  const TtsCrashPrefix := "TTS 调用异常: "

  /** The apology in the mentor's name: the answer of the inner handler. */
  function InnerError(mentorRole: string, typeName: string, message: string): (r: Object)
    ensures r.Keys == {"reply", "translation", "status", "suggestion", "communication_raw", "user_ja", "error"}
    ensures r["status"] == Str("ERROR") && r["communication_raw"] == List([])
    ensures r["error"] == Str(message) && r["user_ja"] == Str("")
    ensures r["reply"].Str? && Text.StartsWith(r["reply"].s, "抱歉，作为" + mentorRole)
    ensures r["reply"].Str? && Text.EndsWith(r["reply"].s, "（" + typeName + "）")
  {
    var apology := "抱歉，作为" + mentorRole + "，我现在无法回复。请稍后再试。";
    var reply := apology + "（" + typeName + "）";
    assert reply[..|"抱歉，作为" + mentorRole|] == "抱歉，作为" + mentorRole;
    assert reply[|reply| - |"（" + typeName + "）"|..] == "（" + typeName + "）";
    map["reply" := Str(reply), "translation" := Str(apology), "status" := Str("ERROR"),
        "suggestion" := Null, "communication_raw" := List([]), "user_ja" := Str(""),
        "error" := Str(message)]
  }

  /** The generic apology of the outer handler; it has no "user_ja". */
  function OuterError(typeName: string, message: string): (r: Object)
    ensures r.Keys == {"reply", "translation", "status", "suggestion", "communication_raw", "error"}
    ensures r["status"] == Str("ERROR") && r["communication_raw"] == List([])
    ensures r["error"] == Str(message) && "user_ja" !in r
    ensures r["translation"] == Str(OuterText)
  {
    map["reply" := Str(OuterText + "（" + typeName + "）"), "translation" := Str(OuterText),
        "status" := Str("ERROR"), "suggestion" := Null, "communication_raw" := List([]),
        "error" := Str(message)]
  }

  /**
   * The part of the inner handler after the model call: an empty text is an
   * error, otherwise the text is recovered and normalised.
   */
  function Parsed(raw: string, parse: string -> Result<Value, string>): (r: Result<Object, Fault>)
    ensures raw == "" ==> r == Err(ValueError(EmptyText))
    ensures r.Ok? ==> Recovery.Normalized(r.value)
  {
    if raw == "" then Err(ValueError(EmptyText))
    else
      match Recovery.Decode(raw, parse)
      case Err(f) => Err(f)
      case Ok(v) => Recovery.Normalize(v)
  }

  /**
   * Round trip: when the model's text for a normalised result `n` parses
   * directly to `n` (as the JSON the endpoint returns would), handling that
   * text again gives back `n` unchanged.
   */
  lemma ParsedRoundTrip(s: string, s2: string, parse: string -> Result<Value, string>, n: Object)
    requires Parsed(s, parse) == Ok(n)
    requires s2 != "" && parse(Recovery.StripFence(s2)) == Ok(Dict(n))
    ensures Parsed(s2, parse) == Ok(n)
  {
    Recovery.NormalizeKeepsNormalized(n);
    assert Recovery.Decode(s2, parse) == Ok(Dict(n));
  }

  /**
   * Speech synthesis of a truthy reply: on success the audio, when the helper
   * reports or raises an error no audio and the error; a falsy reply adds
   * nothing.
   */
  function WithSpeech(m: Object, tts: TtsOutcome): (r: Object)
    ensures !PyTruthy(Get(m, "reply", Str(""))) ==> r == m
    ensures PyTruthy(Get(m, "reply", Str(""))) ==> "reply_audio" in r
    ensures r.Keys <= m.Keys + {"reply_audio", "tts_error"}
    ensures forall k :: k in m && k != "reply_audio" && k != "tts_error" ==> k in r && r[k] == m[k]
    ensures PyTruthy(Get(m, "reply", Str(""))) ==>
      (r["reply_audio"] != Null <==> tts.Audio? && PyTruthy(tts.audio))
      && (r["reply_audio"] != Null ==> r["reply_audio"] == tts.audio)
      && ("tts_error" in r && r["tts_error"] != Get(m, "tts_error", Null) ==> !tts.Audio?)
    ensures PyTruthy(Get(m, "reply", Str(""))) && tts.Refused? ==> "tts_error" in r && r["tts_error"] == tts.error
    ensures PyTruthy(Get(m, "reply", Str(""))) && tts.Crashed? ==>
      "tts_error" in r && r["tts_error"] == Str(TtsCrashPrefix + tts.message)
  {
    if !PyTruthy(Get(m, "reply", Str(""))) then m
    else
      match tts
      case Audio(a) => m["reply_audio" := if PyTruthy(a) then a else Null]
      case Refused(e) => m["reply_audio" := Null]["tts_error" := e]
      case Crashed(msg) => m["reply_audio" := Null]["tts_error" := Str(TtsCrashPrefix + msg)]
  }

  /** The ledger as the list value stored under "communication_raw". */
  function LedgerValue(ledger: seq<Object>): (r: Value)
    ensures r.List? && |r.items| == |ledger|
    ensures forall k :: 0 <= k < |ledger| ==> r.items[k] == Dict(ledger[k])
  {
    List(seq(|ledger|, k requires 0 <= k < |ledger| => Dict(ledger[k])))
  }

  /** The answer once a normalised dict exists: the last-round rewrite, then delivery. */
  function Finish(req: ChatRequest, m: Object, tts: TtsOutcome): Object
    requires Recovery.Normalized(m)
  {
    var enforced := if Phase.CountUser(req.history) >= req.turn then Termination.Enforce(m) else Ok(m);
    match enforced
    case Err(f) => OuterError(TypeName(f), Message(f))
    case Ok(m1) => Deliver(req, m1, tts)
  }

  /** Speech, the ledger, and the role check an unfinished conversation makes when it counts rounds. */
  function Deliver(req: ChatRequest, m1: Object, tts: TtsOutcome): Object {
    var m2 := WithSpeech(m1, tts);
    var ledger := Ledger.BuildLedger(req.context, req.history, req.previous, m2);
    if Get(m2, "status", Null) != Str("FINISHED") && !Ledger.HasRoles(ledger) then
      OuterError("KeyError", Message(KeyError("role")))
    else m2["communication_raw" := LedgerValue(ledger)]
  }

  /**
   * The whole handler. An exception while setting up the model, in the
   * last-round rewrite or after it reaches the outer handler; one from the
   * model call, the recovery or the checks reaches the inner handler.
   */
  function Respond(req: ChatRequest, reply: ModelReply, tts: TtsOutcome, parse: string -> Result<Value, string>): Object {
    match reply
    case SetupFailed(t, msg) => OuterError(t, msg)
    case Failed(t, msg) => InnerError(req.mentorRole, t, msg)
    case Text(raw) => AfterModel(req, Parsed(raw, parse), tts)
  }

  /** The inner handler's verdict on the model text, then the rest of the handler. */
  function AfterModel(req: ChatRequest, parsed: Result<Object, Fault>, tts: TtsOutcome): Object
    requires parsed.Ok? ==> Recovery.Normalized(parsed.value)
  {
    match parsed
    case Err(f) => InnerError(req.mentorRole, TypeName(f), Message(f))
    case Ok(m) => Finish(req, m, tts)
  }

  /** The handler as it runs: each step updates the response dict in turn. */
  method HandleChat(req: ChatRequest, reply: ModelReply, tts: TtsOutcome, parse: string -> Result<Value, string>)
    returns (response: Object)
    ensures response == Respond(req, reply, tts, parse)
  {
    if reply.SetupFailed? {
      return OuterError(reply.typeName, reply.message);
    }
    if reply.Failed? {
      return InnerError(req.mentorRole, reply.typeName, reply.message);
    }
    var parsed := Parsed(reply.raw, parse);
    if parsed.Err? {
      return InnerError(req.mentorRole, TypeName(parsed.error), Message(parsed.error));
    }
    response := FinishChat(req, parsed.value, tts);
  }

  /** The steps after a dict is recovered: the rewrite, then delivery. */
  method FinishChat(req: ChatRequest, m: Object, tts: TtsOutcome) returns (response: Object)
    requires Recovery.Normalized(m)
    ensures response == Finish(req, m, tts)
  {
    var res := m;
    if Phase.CountUser(req.history) >= req.turn {
      var enforced := Termination.Enforce(res);
      if enforced.Err? {
        return OuterError(TypeName(enforced.error), Message(enforced.error));
      }
      res := enforced.value;
    }
    response := DeliverChat(req, res, tts);
  }

  /** Speech, the ledger built by its loop, and the round count over the ledger. */
  method DeliverChat(req: ChatRequest, m1: Object, tts: TtsOutcome) returns (response: Object)
    ensures response == Deliver(req, m1, tts)
  {
    var res := WithSpeech(m1, tts);
    var ledger := Ledger.AssembleLedger(req.context, req.history, req.previous, res);
    var status := Get(res, "status", Null);
    ghost var answer := res["communication_raw" := LedgerValue(ledger)];
    assert status != Str("FINISHED") && !Ledger.HasRoles(ledger) ==>
      Deliver(req, m1, tts) == OuterError("KeyError", Message(KeyError("role")));
    assert status == Str("FINISHED") || Ledger.HasRoles(ledger) ==> Deliver(req, m1, tts) == answer;
    res := res["communication_raw" := LedgerValue(ledger)];
    if status != Str("FINISHED") {
      var count := Ledger.CountLedgerUsers(ledger);
      if count.Err? {
        return OuterError(TypeName(count.error), Message(count.error));
      }
    }
    return res;
  }

  // ----- lemmas -----

  /** Is this an answer with a ledger, rather than one of the two apologies? */
  predicate Answered(r: Object) {
    "communication_raw" in r && r["communication_raw"] != List([])
  }

  /**
   * The shape every answer has: "communication_raw" is present; it is empty
   * exactly on the two apologies, which have status ERROR and an "error"
   * text; otherwise it ends with the model entry holding the reply.
   */
  predicate WellFormedAnswer(r: Object) {
    && "communication_raw" in r
    && (!Answered(r) ==> "status" in r && r["status"] == Str("ERROR") && "error" in r)
    && (Answered(r) ==>
          var l := r["communication_raw"];
          && l.List? && |l.items| >= 1
          && l.items[|l.items| - 1].Dict?
          && "role" in l.items[|l.items| - 1].fields && l.items[|l.items| - 1].fields["role"] == Str("model")
          && "content" in l.items[|l.items| - 1].fields
          && l.items[|l.items| - 1].fields["content"] == Get(r, "reply", Str("")))
  }

  lemma DeliverShape(req: ChatRequest, m1: Object, tts: TtsOutcome)
    ensures WellFormedAnswer(Deliver(req, m1, tts))
  {
    Ledger.LedgerShape(req.context, req.history, req.previous, WithSpeech(m1, tts));
  }

  lemma FinishShape(req: ChatRequest, m: Object, tts: TtsOutcome)
    requires Recovery.Normalized(m)
    ensures WellFormedAnswer(Finish(req, m, tts))
  {
    var enforced := if Phase.CountUser(req.history) >= req.turn then Termination.Enforce(m) else Ok(m);
    if enforced.Ok? {
      DeliverShape(req, enforced.value, tts);
    }
  }

  /** Every answer of the handler, apology or not, has the shape of `WellFormedAnswer`. */
  lemma ResponseShape(req: ChatRequest, reply: ModelReply, tts: TtsOutcome, parse: string -> Result<Value, string>)
    ensures WellFormedAnswer(Respond(req, reply, tts, parse))
  {
    if reply.Text? {
      var parsed := Parsed(reply.raw, parse);
      if parsed.Ok? {
        FinishShape(req, parsed.value, tts);
      }
    }
  }

  /**
   * In the last round an answer is always FINISHED and its reply closes the
   * conversation: it either already said thank you with the diary or together
   * phrase and asks nothing, or it ends with the closing sentence.
   */
  lemma LastRoundFinishes(req: ChatRequest, m: Object, tts: TtsOutcome)
    requires Recovery.Normalized(m) && Phase.CountUser(req.history) >= req.turn
    requires Answered(Finish(req, m, tts))
    ensures var r := Finish(req, m, tts);
      && r["status"] == Str("FINISHED")
      && r["reply"].Str?
      && (Text.EndsWith(r["reply"].s, Termination.EndingJa)
          || (Termination.HasEnding(r["reply"].s) && !Termination.HasQuestion(r["reply"].s)))
  {
    assert Termination.Enforce(m).Ok?;
    Termination.EnforceFinishes(m);
    DeliverKeeps(req, Termination.Enforce(m).value, tts);
  }

  /** An answered delivery keeps every key of the dict but the speech keys and the ledger. */
  lemma DeliverKeeps(req: ChatRequest, m1: Object, tts: TtsOutcome)
    requires Answered(Deliver(req, m1, tts))
    ensures forall k :: k in m1 && k != "reply_audio" && k != "tts_error" && k != "communication_raw" ==>
      k in Deliver(req, m1, tts) && Deliver(req, m1, tts)[k] == m1[k]
    ensures forall k :: k in Deliver(req, m1, tts) && k != "reply_audio" && k != "tts_error" && k != "communication_raw" ==>
      k in m1
  {
  }

  /** Before the last round nothing is enforced: the recovered dict goes straight to delivery. */
  lemma FinishEarly(req: ChatRequest, m: Object, tts: TtsOutcome)
    requires Recovery.Normalized(m) && Phase.CountUser(req.history) < req.turn
    ensures Finish(req, m, tts) == Deliver(req, m, tts)
  {
  }

  /** Before the last round the handler passes the model's status and reply through untouched. */
  lemma EarlierRoundsKeepStatus(req: ChatRequest, m: Object, tts: TtsOutcome)
    requires Recovery.Normalized(m) && Phase.CountUser(req.history) < req.turn
    requires Answered(Finish(req, m, tts))
    ensures Get(Finish(req, m, tts), "status", Null) == Get(m, "status", Null)
    ensures "reply" in Finish(req, m, tts) && Finish(req, m, tts)["reply"] == m["reply"]
  {
    FinishEarly(req, m, tts);
    DeliverKeeps(req, m, tts);
    var d := Deliver(req, m, tts);
    assert "reply" in m;
    if "status" in m {
      assert d["status"] == m["status"];
    } else {
      assert "status" !in d;
    }
  }

  /**
   * Before the last round, a dict recovered from the model is always
   * answered unless the ledger the client sent back has an entry without a
   * role and the model's status is not FINISHED.
   */
  lemma RoleFailureNeedsClientLedger(req: ChatRequest, m: Object, tts: TtsOutcome)
    requires Recovery.Normalized(m) && Phase.CountUser(req.history) < req.turn
    ensures !Answered(Finish(req, m, tts)) <==>
      && req.history != [] && req.previous != [] && !Ledger.HasRoles(req.previous)
      && Get(m, "status", Null) != Str("FINISHED")
  {
    FinishEarly(req, m, tts);
    DeliverFailsIff(req, m, tts);
  }

  /** Delivery gives an apology exactly when the status is not FINISHED and the client's ledger lacks a role. */
  lemma DeliverFailsIff(req: ChatRequest, m1: Object, tts: TtsOutcome)
    ensures !Answered(Deliver(req, m1, tts)) <==>
      && req.history != [] && req.previous != [] && !Ledger.HasRoles(req.previous)
      && Get(m1, "status", Null) != Str("FINISHED")
  {
    var m2 := WithSpeech(m1, tts);
    assert Get(m2, "status", Null) == Get(m1, "status", Null);
    Ledger.MissingRoleComesFromClient(req.context, req.history, req.previous, m2);
    Ledger.LedgerShape(req.context, req.history, req.previous, m2);
  }

  /**
   * A model text that is a fenced JSON object with str text fields and no
   * "error" reply is answered with that object, defaults filled in.
   */
  lemma FencedObjectParses(body: string, d: Object, parse: string -> Result<Value, string>)
    requires body != [] && !Text.IsPySpace(body[0])
    requires parse(body) == Ok(Dict(d))
    requires Recovery.TextsAreStrings(d)
    requires !Recovery.IsErrorText(Get(d, "reply", Str("")).s)
    ensures Parsed("```json\n" + body + "\n```", parse) == Ok(Recovery.WithDefaults(d))
  {
    Recovery.FenceRoundTrip(body);
  }
}
