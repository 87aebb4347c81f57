/**
 * The chat page of the web client: how it turns the answers of the chat
 * endpoint into displayed turns, when it treats an answer as failed, how it
 * advances the rounds, and the small display rules of the journal page.
 * JavaScript property reads on a ledger entry give `undefined` for a missing
 * key, written `Null` here: both are falsy and neither is `===` a string.
 */
module ChatPage {
  import opened Wrappers
  import opened Json
  import Text
  import Ledger
  import Recovery
  import Helpers

  /** A displayed turn; each field holds whatever value the answer carried. */
  datatype ChatTurn = ChatTurn(userRawText: Value, userJa: Value, reply: Value, translation: Value, suggestion: Value)

  /** `v.key` on a ledger entry. */
  function Field(v: Value, key: string): Value {
    if v.Dict? then Get(v.fields, key, Null) else Null
  }

  /** `v.role === role`. */
  predicate HasRole(v: Value, role: string) {
    Field(v, "role") == Str(role)
  }

  // ----- the ledger-to-turns pairing -----

  /** `raw.find(item => item.role === 'model')`. */
  function FirstModel(raw: seq<Value>): (r: Option<Value>)
    ensures r.Some? ==> exists k :: 0 <= k < |raw| && raw[k] == r.value && HasRole(raw[k], "model")
                                    && (forall j :: 0 <= j < k ==> !HasRole(raw[j], "model"))
    ensures r.None? <==> forall k :: 0 <= k < |raw| ==> !HasRole(raw[k], "model")
  {
    if raw == [] then None
    else if HasRole(raw[0], "model") then Some(raw[0])
    else
      var r := FirstModel(raw[1..]);
      if r.Some? then
        var k :| 0 <= k < |raw[1..]| && raw[1..][k] == r.value && HasRole(raw[1..][k], "model")
                 && (forall j :: 0 <= j < k ==> !HasRole(raw[1..][j], "model"));
        assert raw[k + 1] == r.value;
        r
      else r
  }

  /** The turn built from a model entry, with the given user texts. */
  function TurnFrom(userRawText: Value, userJa: Value, ai: Value): ChatTurn {
    ChatTurn(userRawText, userJa, JsOr(JsOr(Field(ai, "reply"), Field(ai, "content")), Str("")),
             JsOr(Field(ai, "translation"), Str("")), JsOr(Field(ai, "suggestion"), Null))
  }

  /** The turn of a user entry and the model entry right after it. */
  function PairTurn(user: Value, ai: Value): ChatTurn {
    TurnFrom(JsOr(JsOr(Field(user, "user_raw_text"), Field(user, "content")), Str("")),
             JsOr(Field(user, "user_ja"), Str("")), ai)
  }

  /**
   * The first entry is the seed topic without a transcription: the page shows
   * it with the first model reply and starts pairing after it.
   */
  predicate SkipsSeed(raw: seq<Value>, entry: string) {
    && |raw| > 0 && HasRole(raw[0], "user") && !JsTruthy(Field(raw[0], "user_raw_text"))
    && Field(raw[0], "content") == Str(entry)
  }

  /** A user entry the loop pairs: it is not the seed topic, or it carries a transcription. */
  predicate PairedUser(v: Value, entry: string) {
    HasRole(v, "user") && (Field(v, "content") != Str(entry) || JsTruthy(Field(v, "user_raw_text")))
  }

  /** The loop emits a turn at index `i`: a model entry right after a paired user entry. */
  predicate PairsAt(raw: seq<Value>, entry: string, i: nat)
    requires i < |raw|
  {
    HasRole(raw[i], "model") && i > 0 && PairedUser(raw[i - 1], entry)
  }

  /** The indices in [lo, hi) at which the loop emits a turn, in increasing order. */
  function PairIndices(raw: seq<Value>, entry: string, lo: nat, hi: nat): (r: seq<nat>)
    requires lo <= hi <= |raw|
    ensures forall k :: 0 <= k < |r| ==> lo <= r[k] < hi && PairsAt(raw, entry, r[k])
    decreases hi - lo
  {
    if hi == lo then []
    else PairIndices(raw, entry, lo, hi - 1) + (if PairsAt(raw, entry, hi - 1) then [hi - 1] else [])
  }

  /** The pairing indices are increasing, and every index in [lo, hi) that pairs is among them. */
  lemma {:induction false} PairIndicesComplete(raw: seq<Value>, entry: string, lo: nat, hi: nat)
    requires lo <= hi <= |raw|
    ensures var r := PairIndices(raw, entry, lo, hi);
      && (forall k, l :: 0 <= k < l < |r| ==> r[k] < r[l])
      && (forall i :: lo <= i < hi && PairsAt(raw, entry, i) ==> i in r)
    decreases hi - lo
  {
    if hi > lo {
      PairIndicesComplete(raw, entry, lo, hi - 1);
    }
  }

  /** The turns the loop emits over [lo, hi), in ledger order. */
  function Pairs(raw: seq<Value>, entry: string, lo: nat, hi: nat): (r: seq<ChatTurn>)
    requires lo <= hi <= |raw|
    decreases hi - lo
  {
    if hi == lo then []
    else Pairs(raw, entry, lo, hi - 1) + (if PairsAt(raw, entry, hi - 1) then [PairTurn(raw[hi - 2], raw[hi - 1])] else [])
  }

  /** The k-th turn comes from the k-th pairing index: the model entry there and the user entry before it. */
  lemma {:induction false} PairsInLedgerOrder(raw: seq<Value>, entry: string, lo: nat, hi: nat)
    requires lo <= hi <= |raw|
    ensures var ix := PairIndices(raw, entry, lo, hi);
      && |Pairs(raw, entry, lo, hi)| == |ix|
      && forall k :: 0 <= k < |ix| ==> Pairs(raw, entry, lo, hi)[k] == PairTurn(raw[ix[k] - 1], raw[ix[k]])
    decreases hi - lo
  {
    if hi > lo {
      PairsInLedgerOrder(raw, entry, lo, hi - 1);
    }
  }

  /** Where the loop starts. */
  function ScanStart(raw: seq<Value>, entry: string): nat {
    if SkipsSeed(raw, entry) then 1 else 0
  }

  /** The turn the seed topic gets before the loop, when it is skipped and a model entry exists. */
  function SeedTurns(raw: seq<Value>, entry: string): (r: seq<ChatTurn>)
    ensures |r| <= 1
  {
    if !SkipsSeed(raw, entry) then []
    else
      match FirstModel(raw)
      case None => []
      case Some(ai) => [TurnFrom(Str(entry), JsOr(Field(raw[0], "user_ja"), Str(entry)), ai)]
  }

  /** The turns the page displays for a ledger after a spoken reply. */
  function Pairing(raw: seq<Value>, entry: string): seq<ChatTurn> {
    SeedTurns(raw, entry) + Pairs(raw, entry, ScanStart(raw, entry), |raw|)
  }

  /** The seed-topic step before the pairing loop: the turn it adds and where the loop starts. */
  method PairSeed(raw: seq<Value>, entry: string) returns (processed: seq<ChatTurn>, start: nat)
    ensures processed == SeedTurns(raw, entry) && start == ScanStart(raw, entry) && start <= |raw|
  {
    processed := [];
    start := 0;
    if SkipsSeed(raw, entry) {
      var first := FirstModel(raw);
      if first.Some? {
        processed := [TurnFrom(Str(entry), JsOr(Field(raw[0], "user_ja"), Str(entry)), first.value)];
      }
      start := 1;
    }
  }

  /** The pairing loop of the spoken-reply handler. */
  method PairLedger(raw: seq<Value>, entry: string) returns (processed: seq<ChatTurn>)
    ensures processed == Pairing(raw, entry)
  {
    var start;
    processed, start := PairSeed(raw, entry);
    var i := start;
    while i < |raw|
      invariant start == ScanStart(raw, entry) <= i <= |raw|
      invariant processed == SeedTurns(raw, entry) + Pairs(raw, entry, start, i)
    {
      if PairsAt(raw, entry, i) {
        processed := processed + [PairTurn(raw[i - 1], raw[i])];
      }
      i := i + 1;
    }
  }

  /** The number of model entries in [lo, hi). */
  function ModelsIn(raw: seq<Value>, lo: nat, hi: nat): (n: nat)
    requires lo <= hi <= |raw|
    decreases hi - lo
  {
    if hi == lo then 0 else ModelsIn(raw, lo, hi - 1) + (if HasRole(raw[hi - 1], "model") then 1 else 0)
  }

  /** The loop emits at most one turn per model entry. */
  lemma {:induction false} PairsBounded(raw: seq<Value>, entry: string, lo: nat, hi: nat)
    requires lo <= hi <= |raw|
    ensures |Pairs(raw, entry, lo, hi)| <= ModelsIn(raw, lo, hi)
    decreases hi - lo
  {
    if hi > lo {
      PairsBounded(raw, entry, lo, hi - 1);
    }
  }

  /**
   * The page shows at most one turn more than the ledger has model entries,
   * and no more turns than model entries unless the seed topic is skipped.
   */
  lemma PairingBounded(raw: seq<Value>, entry: string)
    ensures |Pairing(raw, entry)| <= ModelsIn(raw, 0, |raw|) + 1
    ensures !SkipsSeed(raw, entry) ==> |Pairing(raw, entry)| <= ModelsIn(raw, 0, |raw|)
  {
    var start := ScanStart(raw, entry);
    PairsBounded(raw, entry, start, |raw|);
    ModelsSuffix(raw, start, |raw|);
  }

  lemma {:induction false} ModelsSuffix(raw: seq<Value>, lo: nat, hi: nat)
    requires lo <= hi <= |raw|
    ensures ModelsIn(raw, lo, hi) <= ModelsIn(raw, 0, hi)
    decreases hi - lo
  {
    if hi > lo {
      ModelsSuffix(raw, lo, hi - 1);
    }
  }

  /**
   * The extra turn does happen: a seed entry without a transcription followed
   * by a user entry and one model entry shows two turns, both with that
   * model entry's reply.
   */
  lemma SkippedSeedShowsOneModelTwice()
    ensures var seed := Dict(map["role" := Str("user"), "content" := Str("x")]);
      var user := Dict(map["role" := Str("user"), "content" := Str("y")]);
      var ai := Dict(map["role" := Str("model"), "content" := Str("z")]);
      && ModelsIn([seed, user, ai], 0, 3) == 1
      && |Pairing([seed, user, ai], "x")| == 2
  {
    var seed := Dict(map["role" := Str("user"), "content" := Str("x")]);
    var user := Dict(map["role" := Str("user"), "content" := Str("y")]);
    var ai := Dict(map["role" := Str("model"), "content" := Str("z")]);
    var raw := [seed, user, ai];
    assert HasRole(seed, "user") && !HasRole(seed, "model") && !HasRole(user, "model") && HasRole(ai, "model");
    assert SkipsSeed(raw, "x");
    assert FirstModel(raw).Some? by {
      assert raw[2] == ai;
    }
    assert PairedUser(user, "x");
  }

  /**
   * A ledger of alternating paired user entries and model entries: the
   * shape the chat endpoint builds from a seed topic and transcribed turns.
   */
  predicate Alternating(raw: seq<Value>, entry: string) {
    && |raw| % 2 == 0
    && (forall k :: 0 <= k < |raw| / 2 ==> PairedUser(raw[2 * k], entry) && HasRole(raw[2 * k + 1], "model"))
  }

  /** On an alternating ledger every model entry gets exactly one turn, built from it and the user entry before it. */
  lemma AlternatingPairsEveryModel(raw: seq<Value>, entry: string)
    requires Alternating(raw, entry)
    ensures |Pairing(raw, entry)| == |raw| / 2 == ModelsIn(raw, 0, |raw|)
    ensures forall k :: 0 <= k < |raw| / 2 ==> Pairing(raw, entry)[k] == PairTurn(raw[2 * k], raw[2 * k + 1])
  {
    if |raw| > 0 {
      var k := 0;
      assert PairedUser(raw[2 * k], entry);
    }
    assert !SkipsSeed(raw, entry);
    AlternatingIndices(raw, entry, |raw| / 2);
    PairsInLedgerOrder(raw, entry, 0, |raw|);
  }

  lemma {:induction false} AlternatingIndices(raw: seq<Value>, entry: string, n: nat)
    requires Alternating(raw, entry) && 2 * n <= |raw|
    ensures var ix := PairIndices(raw, entry, 0, 2 * n);
      |ix| == n == ModelsIn(raw, 0, 2 * n) && forall k :: 0 <= k < n ==> ix[k] == 2 * k + 1
  {
    if n > 0 {
      var k := n - 1;
      var prev := PairIndices(raw, entry, 0, 2 * k);
      assert |prev| == k == ModelsIn(raw, 0, 2 * k) && forall j :: 0 <= j < k ==> prev[j] == 2 * j + 1 by {
        AlternatingIndices(raw, entry, k);
      }
      assert PairIndices(raw, entry, 0, 2 * n) == prev + [2 * k + 1]
        && ModelsIn(raw, 0, 2 * n) == ModelsIn(raw, 0, 2 * k) + 1 by {
        AlternatingStep(raw, entry, k);
        assert 2 * n == 2 * k + 2;
        assert PairIndices(raw, entry, 0, 2 * k + 1) == prev;
        assert ModelsIn(raw, 0, 2 * k + 1) == ModelsIn(raw, 0, 2 * k);
      }
    }
  }

  /** In the k-th user/model pair of an alternating ledger, only the model entry emits a turn. */
  lemma AlternatingStep(raw: seq<Value>, entry: string, k: nat)
    requires Alternating(raw, entry) && 2 * k + 1 < |raw|
    ensures HasRole(raw[2 * k + 1], "model") && !HasRole(raw[2 * k], "model")
    ensures PairsAt(raw, entry, 2 * k + 1) && !PairsAt(raw, entry, 2 * k)
  {
    assert PairedUser(raw[2 * k], entry) && HasRole(raw[2 * k + 1], "model");
  }

  /** A seed entry written by the chat endpoint carries the seed as its transcription, so it is paired, never skipped. */
  lemma EndpointSeedIsPaired(context: string, res: Object)
    requires context != ""
    ensures PairedUser(Dict(Ledger.SeedEntry(context, res)), context)
  {
  }

  // ----- failed answers -----

  /** The first round's test for a failed answer: status ERROR, or a reply reading "Error" once trimmed. */
  predicate IsErrorResponse(data: Object) {
    || Get(data, "status", Null) == Str("ERROR")
    || (Get(data, "reply", Null).Str? && Text.JsTrim(Get(data, "reply", Null).s) == "Error")
  }

  /** Every JavaScript space but the byte order mark is a Python space. */
  lemma JsSpaceIsPySpace(c: char)
    requires Text.IsJsSpace(c) && c != '\U{FEFF}'
    ensures Text.IsPySpace(c)
  {
  }

  lemma PySpacesAround(s: string, lead: nat, n: nat)
    requires lead + n <= |s| && '\U{FEFF}' !in s
    requires forall i :: 0 <= i < lead ==> Text.IsJsSpace(s[i])
    requires forall i :: lead + n <= i < |s| ==> Text.IsJsSpace(s[i])
    ensures forall i :: 0 <= i < lead ==> Text.IsPySpace(s[i])
    ensures forall i :: lead + n <= i < |s| ==> Text.IsPySpace(s[i])
  {
    forall i | 0 <= i < |s| && (i < lead || lead + n <= i) ensures Text.IsPySpace(s[i]) {
      JsSpaceIsPySpace(s[i]);
    }
  }

  /**
   * A reply the page takes for "Error" is one the endpoint refuses as an
   * error text, unless it carries a byte order mark: JavaScript trims U+FEFF
   * and Python does not.
   */
  lemma PageErrorIsEndpointError(s: string)
    requires Text.JsTrim(s) == "Error" && '\U{FEFF}' !in s
    ensures Recovery.IsErrorText(s)
  {
    var lead := Text.TrimParts(s, Text.IsJsSpace);
    PySpacesAround(s, lead, 5);
    StripOfError(s, lead);
  }

  lemma StripOfError(s: string, lead: nat)
    requires lead + 5 <= |s| && s[lead..lead + 5] == "Error"
    requires forall i :: 0 <= i < lead ==> Text.IsPySpace(s[i])
    requires forall i :: lead + 5 <= i < |s| ==> Text.IsPySpace(s[i])
    ensures Recovery.IsErrorText(s)
  {
    ErrorEnds(s[lead..lead + 5]);
    StripIsCore(s, lead, s[lead..lead + 5]);
    ErrorWord(s);
  }

  lemma ErrorEnds(core: string)
    requires core == "Error"
    ensures |core| == 5 && !Text.IsPySpace(core[0]) && !Text.IsPySpace(core[4])
  {
  }

  lemma ErrorWord(s: string)
    requires Text.Strip(s) == "Error"
    ensures Recovery.IsErrorText(s)
  {
    assert Text.AsciiLower("Error") == "error";
  }

  /** Python's `strip` of a text that is Python spaces around `core` is `core`. */
  lemma StripIsCore(s: string, lead: nat, core: string)
    requires lead + |core| <= |s| && s[lead..lead + |core|] == core && core != []
    requires !Text.IsPySpace(core[0]) && !Text.IsPySpace(core[|core| - 1])
    requires forall i :: 0 <= i < lead ==> Text.IsPySpace(s[i])
    requires forall i :: lead + |core| <= i < |s| ==> Text.IsPySpace(s[i])
    ensures Text.Strip(s) == core
  {
    Text.TrimAround(s, Text.IsPySpace, lead, core);
  }

  const MarkedError := "\U{FEFF}Error"

  /** With a byte order mark the page takes for "Error" a reply the endpoint lets through. */
  lemma MarkedErrorSlipsThrough()
    ensures !Recovery.IsErrorText(MarkedError)
    ensures Text.JsTrim(MarkedError) == "Error"
  {
    MarkedNotStripped(MarkedError);
    MarkedTrimmed(MarkedError);
  }

  lemma MarkedNotStripped(s: string)
    requires |s| == 6 && s[0] == '\U{FEFF}' && s[5] == 'r'
    ensures !Recovery.IsErrorText(s)
  {
    Text.StripUnchanged(s);
    assert Text.AsciiLower(s)[0] != 'e';
  }

  lemma MarkedTrimmed(s: string)
    requires |s| == 6 && s[0] == '\U{FEFF}' && s[1..] == "Error"
    ensures Text.JsTrim(s) == "Error"
  {
    Text.TrimAround(s, Text.IsJsSpace, 1, "Error");
  }

  // ----- the page state -----

  datatype Stage = Chatting | Summarizing | Final

  /** An item of the conversation history the page sends back: a role and whatever content came with it. */
  datatype HistoryItem = HistoryItem(role: string, content: Value)

  /** The state the chat handlers change. */
  datatype PageState = PageState(
    turns: seq<ChatTurn>, history: seq<HistoryItem>, ledger: Value, round: int, stage: Stage,
    started: bool, apiError: Option<string>, voiceError: Option<string>)

  const MissingReply := "Network error: API返回数据格式错误：缺少reply字段"
  const FirstRoundFailed := "First round failed. Please click Start to retry. If it still fails, check if the backend is running."
  const TrimOfNonString := "Network error: data.reply.trim is not a function"
  const ReplyFailed := "AI回复失败，请再说一遍"
  const NetworkError := "Network error, please check if backend is running"
  const VoiceInput := "[voice input]"

  /** The single turn the first round shows for a ledger `raw` taken from the answer. */
  function FirstTurn(data: Object, entry: string): (t: ChatTurn)
    ensures t.userRawText == Str(entry)
  {
    var raw := Get(data, "communication_raw", Null);
    var dataJa := JsOr(Get(data, "user_ja", Null), Str(""));
    var fallback := ChatTurn(Str(entry), dataJa, Get(data, "reply", Null),
      JsOr(Get(data, "translation", Null), Str("")), JsOr(Get(data, "suggestion", Null), Null));
    if !(raw.List? && |raw.items| > 0) then fallback
    else
      var items := raw.items;
      var userJa := if HasRole(items[0], "user") && Field(items[0], "content") == Str(entry)
        then JsOr(JsOr(Field(items[0], "user_ja"), Get(data, "user_ja", Null)), Str(""))
        else dataJa;
      match FirstModel(items)
      case Some(ai) => TurnFrom(Str(entry), userJa, ai)
      case None => fallback.(userJa := userJa)
  }

  /**
   * The first-round handler once the endpoint answered: a missing reply and a
   * failed answer are refused with a message and leave the turns alone;
   * otherwise exactly one turn is shown and the history holds the reply.
   * A blank topic or role is refused before any request.
   */
  function AfterFirstRound(s: PageState, data: Object, entry: string, role: string): (r: PageState)
    ensures r.turns != s.turns ==> r.started && |r.turns| == 1 && r.turns[0].userRawText == Str(entry)
  {
    if Text.JsTrim(entry) == "" || Text.JsTrim(role) == "" then s
    else
      var reply := Get(data, "reply", Null);
      if !JsTruthy(reply) then s.(apiError := Some(MissingReply), started := false)
      else if IsErrorResponse(data) then
        var message := if !reply.Str? then TrimOfNonString
          else if Text.JsTrim(reply.s) != "Error" then reply.s else FirstRoundFailed;
        s.(apiError := Some(message), started := false)
      else
        var raw := Get(data, "communication_raw", Null);
        s.(turns := [FirstTurn(data, entry)],
           ledger := if raw.List? && |raw.items| > 0 then raw else s.ledger,
           history := [HistoryItem("model", reply)], round := 0, started := true, apiError := None)
  }

  /** `nextStep`: the next round while fewer than five have passed, else the summary. */
  function AfterNextStep(s: PageState): (r: PageState)
    ensures s.round < 5 ==> r == s.(round := s.round + 1)
    ensures s.round >= 5 ==> r == s.(stage := Summarizing)
  {
    if s.round < 5 then s.(round := s.round + 1) else s.(stage := Summarizing)
  }

  /**
   * The spoken-reply handler once the endpoint answered. An ERROR answer only
   * sets the voice hint; a missing reply only sets the error; otherwise the
   * history grows by the transcription and the reply, the turns are rebuilt
   * from a returned ledger, and the conversation finishes or advances.
   */
  function AfterMicReply(s: PageState, data: Object, entry: string): PageState {
    var s0 := s.(apiError := None);
    if Get(data, "status", Null) == Str("ERROR") then s0.(voiceError := Some(ReplyFailed))
    else if !JsTruthy(Get(data, "reply", Null)) then s0.(apiError := Some(NetworkError))
    else Advanced(Recorded(s0, data, entry), |s.turns|, data)
  }

  /** The accepted reply recorded: the history grows, and a returned ledger replaces the ledger and the turns. */
  function Recorded(s: PageState, data: Object, entry: string): PageState {
    var history := s.history + [HistoryItem("user", JsOr(Get(data, "user_raw_text", Null), Str(VoiceInput))),
                                HistoryItem("model", Get(data, "reply", Null))];
    var raw := Get(data, "communication_raw", Null);
    if !JsTruthy(raw) then s.(history := history)
    else s.(history := history, ledger := raw, turns := if raw.List? then Pairing(raw.items, entry) else [])
  }

  /**
   * After an accepted reply: FINISHED moves to the summary at a round past
   * both the current one and the number of turns shown before the reply less
   * one; anything else takes the next step.
   */
  function Advanced(s: PageState, shownBefore: int, data: Object): PageState {
    if Get(data, "status", Null) == Str("FINISHED") then
      s.(round := if s.round + 1 >= shownBefore - 1 then s.round + 1 else shownBefore - 1, stage := Summarizing)
    else AfterNextStep(s)
  }

  /** The microphone opens only on a started conversation with at least one turn. */
  predicate MicOpen(s: PageState) {
    s.turns != [] && s.started
  }

  /**
   * Once a topic and a role are given, the first round opens the microphone
   * exactly when the endpoint's answer is accepted, whatever the state before.
   */
  lemma FirstRoundOpensMic(s: PageState, data: Object, entry: string, role: string)
    requires Text.JsTrim(entry) != "" && Text.JsTrim(role) != ""
    ensures MicOpen(AfterFirstRound(s, data, entry, role)) <==>
      JsTruthy(Get(data, "reply", Null)) && !IsErrorResponse(data)
  {
  }

  /** A blank topic or role leaves the microphone as it was. */
  lemma BlankStartKeepsMic(s: PageState, data: Object, entry: string, role: string)
    requires Text.JsTrim(entry) == "" || Text.JsTrim(role) == ""
    ensures MicOpen(AfterFirstRound(s, data, entry, role)) == MicOpen(s)
  {
  }

  /** A first round refused by the page shows no new turn and does not open the conversation. */
  lemma FirstRoundRefusal(s: PageState, data: Object, entry: string, role: string)
    requires Text.JsTrim(entry) != "" && Text.JsTrim(role) != ""
    ensures var r := AfterFirstRound(s, data, entry, role);
      (!JsTruthy(Get(data, "reply", Null)) || IsErrorResponse(data)) <==> (r.turns == s.turns && !r.started && r.apiError.Some?)
  {
  }

  /** An accepted first round shows exactly one turn, for the topic, and starts at round 0 with the reply as history. */
  lemma FirstRoundOpensOneTurn(s: PageState, data: Object, entry: string, role: string)
    requires Text.JsTrim(entry) != "" && Text.JsTrim(role) != ""
    requires JsTruthy(Get(data, "reply", Null)) && !IsErrorResponse(data)
    ensures var r := AfterFirstRound(s, data, entry, role);
      && |r.turns| == 1 && r.turns[0].userRawText == Str(entry) && r.started && r.round == 0
      && r.history == [HistoryItem("model", Get(data, "reply", Null))]
  {
  }

  /** A mid-conversation ERROR answer keeps the turns, history, ledger, round and stage. */
  lemma MicErrorKeepsConversation(s: PageState, data: Object, entry: string)
    requires Get(data, "status", Null) == Str("ERROR")
    ensures var r := AfterMicReply(s, data, entry);
      && r.turns == s.turns && r.history == s.history && r.ledger == s.ledger
      && r.round == s.round && r.stage == s.stage && r.voiceError == Some(ReplyFailed)
  {
  }

  /** An accepted spoken reply appends exactly the user's transcription and the reply to the history. */
  lemma MicReplyExtendsHistory(s: PageState, data: Object, entry: string)
    requires Get(data, "status", Null) != Str("ERROR") && JsTruthy(Get(data, "reply", Null))
    ensures var r := AfterMicReply(s, data, entry);
      && |r.history| == |s.history| + 2 && r.history[..|s.history|] == s.history
      && r.history[|s.history|].role == "user" && r.history[|s.history| + 1] == HistoryItem("model", Get(data, "reply", Null))
  {
    var r := AfterMicReply(s, data, entry);
    assert r.history[..|s.history|] == s.history;
  }

  /** A FINISHED reply moves to the summary, at a later round; any other accepted reply advances by one step. */
  lemma MicReplyAdvances(s: PageState, data: Object, entry: string)
    requires Get(data, "status", Null) != Str("ERROR") && JsTruthy(Get(data, "reply", Null))
    ensures var r := AfterMicReply(s, data, entry);
      && (Get(data, "status", Null) == Str("FINISHED") ==> r.stage == Summarizing && r.round > s.round)
      && (Get(data, "status", Null) != Str("FINISHED") ==>
            (if s.round < 5 then r.round == s.round + 1 && r.stage == s.stage else r.round == s.round && r.stage == Summarizing))
  {
  }

  /** `n` calls of `nextStep`. */
  function Steps(s: PageState, n: nat): PageState
    decreases n
  {
    if n == 0 then s else Steps(AfterNextStep(s), n - 1)
  }

  /** From a round below six, the chat stays in the chatting stage for the remaining rounds. */
  lemma {:induction false} StepsStayChatting(s: PageState, n: nat)
    requires 0 <= s.round && s.stage == Chatting && s.round + n <= 5
    ensures Steps(s, n) == s.(round := s.round + n)
    decreases n
  {
    if n > 0 {
      StepsStayChatting(AfterNextStep(s), n - 1);
    }
  }

  /** From any round up to five, the chat reaches the summary after 6 - round steps, at round five. */
  lemma {:induction false} StepsReachSummary(s: PageState)
    requires 0 <= s.round <= 5 && s.stage == Chatting
    ensures Steps(s, 6 - s.round) == s.(round := 5, stage := Summarizing)
    decreases 5 - s.round
  {
    if s.round < 5 {
      StepsReachSummary(AfterNextStep(s));
    }
  }

  /** The page's chat handlers over mutable state. */
  class Page {
    var turns: seq<ChatTurn>
    var history: seq<HistoryItem>
    var ledger: Value
    var round: int
    var stage: Stage
    var started: bool
    var apiError: Option<string>
    var voiceError: Option<string>

    function State(): PageState
      reads this
    {
      PageState(turns, history, ledger, round, stage, started, apiError, voiceError)
    }

    /** The state of a freshly opened chat page. */
    constructor ()
      ensures State() == PageState([], [], List([]), 0, Chatting, false, None, None)
    {
      turns, history, ledger, round, stage := [], [], List([]), 0, Chatting;
      started, apiError, voiceError := false, None, None;
    }

    method Load(s: PageState)
      modifies this
      ensures State() == s
    {
      turns, history, ledger, round, stage := s.turns, s.history, s.ledger, s.round, s.stage;
      started, apiError, voiceError := s.started, s.apiError, s.voiceError;
    }

    /** The guard of the microphone action, on the current state. */
    predicate CanRecord()
      reads this
    {
      MicOpen(State())
    }

    method NextStep()
      modifies this
      ensures State() == AfterNextStep(old(State()))
    {
      if round < 5 {
        round := round + 1;
      } else {
        stage := Summarizing;
      }
    }

    method ApplyFirstRound(data: Object, entry: string, role: string)
      modifies this
      ensures State() == AfterFirstRound(old(State()), data, entry, role)
    {
      Load(AfterFirstRound(State(), data, entry, role));
    }

    /** The spoken-reply handler, with its pairing loop. */
    method ApplyMicReply(data: Object, entry: string)
      modifies this
      ensures State() == AfterMicReply(old(State()), data, entry)
    {
      var shownBefore := |turns|;
      apiError := None;
      if Get(data, "status", Null) == Str("ERROR") {
        voiceError := Some(ReplyFailed);
        return;
      }
      if !JsTruthy(Get(data, "reply", Null)) {
        apiError := Some(NetworkError);
        return;
      }
      Record(data, entry);
      Advance(shownBefore, data);
    }

    /** Records an accepted reply in the history, and a returned ledger with the turns paired from it. */
    method Record(data: Object, entry: string)
      modifies this
      ensures State() == Recorded(old(State()), data, entry)
    {
      history := history + [HistoryItem("user", JsOr(Get(data, "user_raw_text", Null), Str(VoiceInput))),
                            HistoryItem("model", Get(data, "reply", Null))];
      var raw := Get(data, "communication_raw", Null);
      if JsTruthy(raw) {
        ledger := raw;
        if raw.List? {
          turns := PairLedger(raw.items, entry);
        } else {
          turns := [];
        }
      }
    }

    /** Finishes the conversation on FINISHED, else takes the next step. */
    method Advance(shownBefore: int, data: Object)
      modifies this
      ensures State() == Advanced(old(State()), shownBefore, data)
    {
      if Get(data, "status", Null) == Str("FINISHED") {
        round := if round + 1 >= shownBefore - 1 then round + 1 else shownBefore - 1;
        stage := Summarizing;
      } else {
        NextStep();
      }
    }
  }

  // ----- display rules -----

  /** The suggestion tip is shown for a non-empty string naming neither an index error nor an error. */
  predicate ShowTip(suggestion: Value) {
    && JsTruthy(suggestion) && suggestion.Str?
    && !Text.Contains(suggestion.s, "index out of range") && !Text.Contains(suggestion.s, "Error")
  }

  /** The "" the endpoint writes for a missing suggestion after the first round shows no tip. */
  lemma BlankSuggestionHidden()
    ensures !ShowTip(Ledger.LedgerSuggestion(Null, false))
    ensures !ShowTip(Ledger.LedgerSuggestion(Null, true))
  {
  }

  /** No tip ever shows a Python IndexError message. */
  lemma TipHidesIndexErrors(pre: string, post: string)
    ensures !ShowTip(Str(pre + "list index out of range" + post))
  {
    var s := pre + "list index out of range" + post;
    var p := "index out of range";
    assert s[|pre| + 5..|pre| + 5 + |p|] == p;
    assert Text.OccursAt(s, p, |pre| + 5);
  }

  /** `(line.speaker || '').toLowerCase()`; None where the value has no `toLowerCase`. */
  function SpeakerLower(speaker: Value): Option<string> {
    var v := JsOr(speaker, Str(""));
    if v.Str? then Some(Text.AsciiLower(v.s)) else None
  }

  /** Whether a podcast line is the user's own; None where lower-casing fails. */
  function IsMe(speaker: Value): Option<bool> {
    match SpeakerLower(speaker)
    case None => None
    case Some(l) => Some(l == "用户" || l == "user" || Text.Contains(l, "ユーザー"))
  }

  /** The name shown on a podcast line: "Me" for the user's own, else the mentor role, the speaker, or "AI". */
  function DisplaySpeaker(speaker: Value, role: string): (r: Option<Value>)
    ensures r.Some? <==> IsMe(speaker).Some?
    ensures r == Some(Str("Me")) <== IsMe(speaker) == Some(true)
    ensures IsMe(speaker) == Some(false) && role != "" ==> r == Some(Str(role))
  {
    match IsMe(speaker)
    case None => None
    case Some(me) => Some(if me then Str("Me") else JsOr(JsOr(Str(role), speaker), Str("AI")))
  }

  /** A line the page shows as "Me" is voiced by the endpoint with the user's (female) voice. */
  lemma MeIsVoicedAsUser(speaker: string)
    requires IsMe(Str(speaker)) == Some(true)
    ensures Helpers.PodcastVoice(speaker) == Helpers.FemaleVoice
  {
    var l := Text.AsciiLower(speaker);
    assert speaker != "";
    assert SpeakerLower(Str(speaker)) == Some(l);
    if l == "用户" {
      assert Text.OccursAt(l, "用户", 0);
      Text.ContainsUnderLower(speaker, "用户");
    } else if l != "user" {
      Text.ContainsUnderLower(speaker, "ユーザー");
    }
  }

  // ----- role colours -----

  const Palette := ["#B54C62", "#4C7AB5", "#6B4CB5", "#B5874C", "#4CB59A", "#B54C90", "#7A4CB5", "#4C6BB5"]

  const TwoTo31: int := 0x8000_0000
  const TwoTo32: int := 0x1_0000_0000

  /** The UTF-16 code units of one character, as `charCodeAt` reads them. */
  function CodeUnits(c: char): (r: seq<int>)
    ensures 1 <= |r| <= 2 && (|r| == 1 <==> c as int < 0x1_0000)
    ensures forall k :: 0 <= k < |r| ==> 0 <= r[k] < 0x1_0000
  {
    var v := c as int;
    if v < 0x1_0000 then [v] else [0xD800 + (v - 0x1_0000) / 0x400, 0xDC00 + (v - 0x1_0000) % 0x400]
  }

  /** The UTF-16 code units of a string. */
  function Utf16(s: string): (r: seq<int>)
    ensures |r| >= |s|
    ensures forall k :: 0 <= k < |r| ==> 0 <= r[k] < 0x1_0000
  {
    if s == [] then [] else Utf16(s[..|s| - 1]) + CodeUnits(s[|s| - 1])
  }

  /** ECMAScript ToInt32 of an integral number. */
  function ToInt32(x: int): (r: int)
    ensures -TwoTo31 <= r < TwoTo31
    ensures (x - r) % TwoTo32 == 0
  {
    var m := x % TwoTo32;
    if m >= TwoTo31 then m - TwoTo32 else m
  }

  /** One step of the colour hash: `code + ((hash << 5) - hash)`. */
  function HashStep(hash: int, code: int): int {
    code + (ToInt32(ToInt32(hash) * 32) - hash)
  }

  /** The colour hash of a sequence of code units. */
  function Hash(units: seq<int>): int {
    if units == [] then 0 else HashStep(Hash(units[..|units| - 1]), units[|units| - 1])
  }

  /** `Math.abs(hash) % colors.length`: the palette index of a hash. */
  function ColorIndex(hash: int): (k: nat)
    ensures k < |Palette|
  {
    (if hash < 0 then -hash else hash) % |Palette|
  }

  /** `getRoleColor`: the palette entry the hash of the name selects. */
  method RoleColor(name: string) returns (color: string)
    ensures color == Palette[ColorIndex(Hash(Utf16(name)))]
    ensures color in Palette
  {
    var units := Utf16(name);
    var hash := 0;
    for i := 0 to |units|
      invariant hash == Hash(units[..i])
    {
      assert units[..i + 1][..i] == units[..i];
      hash := HashStep(hash, units[i]);
    }
    assert units[..|units|] == units;
    color := Palette[ColorIndex(hash)];
  }

  /** The hash grows by less than 2^32 per code unit. */
  lemma {:induction false} HashBounded(units: seq<int>)
    requires forall k :: 0 <= k < |units| ==> 0 <= units[k] < 0x1_0000
    ensures -|units| * TwoTo32 <= Hash(units) <= |units| * TwoTo32
  {
    if units != [] {
      HashBounded(units[..|units| - 1]);
    }
  }

  /**
   * For names under 2^21 code units the hash after every code unit stays
   * within 2^53, where the page's floating-point arithmetic is exact: every
   * step the page computes equals the integer one, and so does the result.
   */
  lemma HashIsExact(name: string)
    requires |Utf16(name)| < 0x20_0000
    ensures forall i :: 0 <= i <= |Utf16(name)| ==>
      -0x20_0000_0000_0000 <= Hash(Utf16(name)[..i]) <= 0x20_0000_0000_0000
    ensures -0x20_0000_0000_0000 <= Hash(Utf16(name)) <= 0x20_0000_0000_0000
  {
    var units := Utf16(name);
    forall i | 0 <= i <= |units|
      ensures -0x20_0000_0000_0000 <= Hash(units[..i]) <= 0x20_0000_0000_0000
    {
      HashBounded(units[..i]);
      assert i * TwoTo32 <= 0x20_0000 * TwoTo32;
    }
    assert units[..|units|] == units;
  }
}
