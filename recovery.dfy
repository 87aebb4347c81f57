/**
 * Turning the generative model's reply text into the response dict: fence
 * stripping, the direct parse, the brace-count scan for the first balanced
 * `{...}` span, the per-field salvage, and the checks and defaults applied to
 * whatever was recovered.
 */
module Recovery {
  import opened Wrappers
  import opened Json
  import opened Faults
  import Text

  const Fence := "```"

  const NoObjectPrefix := "模型返回文本中找不到JSON对象: "
  const UnbalancedPrefix := "JSON 大括号不匹配: "
  const NoFieldsPrefix := "无法从模型返回文本中提取JSON: "
  const NotAnObject := "模型返回格式不是有效的JSON对象"
  const ErrorReply := "模型返回了 Error，请重试"

  /** Python `s[:n]`. */
  function Take<T>(s: seq<T>, n: nat): (r: seq<T>)
    ensures |r| == if n < |s| then n else |s|
    ensures r == s[..|r|]
  {
    if n < |s| then s[..n] else s
  }

  // ----- fences -----

  /** The leading-fence substitution: "```", an optional "json", then every whitespace character. */
  function DropLeadingFence(s: string): (r: string)
    requires Text.StartsWith(s, Fence)
    ensures |r| <= |s| - 3 && r == s[|s| - |r|..]
    ensures r == [] || !Text.IsPySpace(r[0])
  {
    var rest := s[3..];
    var rest' := if Text.StartsWith(rest, "json") then rest[4..] else rest;
    Text.TrimStart(rest', Text.IsPySpace)
  }

  /**
   * The trailing-fence substitution: a closing "```" followed only by
   * whitespace is removed together with that whitespace and one newline
   * just before it; any other text is left as it is.
   */
  function DropTrailingFence(s: string): (r: string)
    ensures |r| <= |s| && r == s[..|r|]
    ensures r != s ==> Text.EndsWith(Text.TrimEnd(s, Text.IsPySpace), Fence)
  {
    var body := Text.TrimEnd(s, Text.IsPySpace);
    if Text.EndsWith(body, Fence) then
      var b := body[..|body| - 3];
      if b != [] && b[|b| - 1] == '\n' then b[..|b| - 1] else b
    else s
  }

  /** `cleaned`: the stripped reply text, with a surrounding code fence removed. */
  function StripFence(raw: string): string {
    var c := Text.Strip(raw);
    if Text.StartsWith(c, Fence) then DropTrailingFence(DropLeadingFence(c)) else c
  }

  /** Stripping leaves alone a text that starts and ends with non-whitespace. */
  lemma StripKeeps(s: string)
    requires s != [] && !Text.IsPySpace(s[0]) && !Text.IsPySpace(s[|s| - 1])
    ensures Text.Strip(s) == s
  {
  }

  lemma DropLeadingOfTagged(tail: string)
    requires tail != [] && !Text.IsPySpace(tail[0])
    ensures DropLeadingFence("```json\n" + tail) == tail
  {
    var raw := "```json\n" + tail;
    assert raw[3..] == "json\n" + tail;
    assert raw[3..][4..] == "\n" + tail;
    assert ("\n" + tail)[1..] == tail;
  }

  lemma DropTrailingOfFenced(body: string)
    ensures DropTrailingFence(body + "\n```") == body
  {
    var s := body + "\n```";
    assert Text.TrimEnd(s, Text.IsPySpace) == s;
    assert s[|s| - 3..] == Fence;
    assert s[..|s| - 3] == body + "\n";
    assert (body + "\n")[..|body|] == body;
  }

  /** A JSON body wrapped in a json-tagged fence comes out unchanged. */
  lemma FenceRoundTrip(body: string)
    requires body != [] && !Text.IsPySpace(body[0])
    ensures StripFence("```json\n" + body + "\n```") == body
  {
    var tail := body + "\n```";
    var raw := "```json\n" + tail;
    assert raw == "```json\n" + body + "\n```";
    StripKeeps(raw);
    assert raw[..3] == Fence;
    DropLeadingOfTagged(tail);
    DropTrailingOfFenced(body);
  }

  // ----- brace scan -----

  function Delta(c: char): int {
    if c == '{' then 1 else if c == '}' then -1 else 0
  }

  /** The running brace count after `t`: its '{' minus its '}'. */
  function Depth(t: string): int {
    if t == [] then 0 else Depth(t[..|t| - 1]) + Delta(t[|t| - 1])
  }

  /** The running count over the span from `start` through `j`. */
  function SpanDepth(s: string, start: nat, j: nat): int
    requires start <= j < |s|
  {
    Depth(s[start..j + 1])
  }

  /** The count closes at `j`: `s[j]` is '}' and the span from `start` through `j` is balanced. */
  predicate ClosesAt(s: string, start: nat, j: nat)
    requires start <= j < |s|
  {
    s[j] == '}' && SpanDepth(s, start, j) == 0
  }

  /** The first index at or after `i` at which the count from `start` closes. */
  function CloseFrom(s: string, start: nat, i: nat): (r: Option<nat>)
    requires start <= i <= |s|
    decreases |s| - i
    ensures r.Some? ==> i <= r.value < |s| && ClosesAt(s, start, r.value)
    ensures r.Some? ==> forall j :: i <= j < r.value ==> !ClosesAt(s, start, j)
    ensures r.None? ==> forall j :: i <= j < |s| ==> !ClosesAt(s, start, j)
  {
    if i == |s| then None
    else if ClosesAt(s, start, i) then Some(i)
    else CloseFrom(s, start, i + 1)
  }

  /** The end of the first balanced span opened at `start`. */
  function BalancedEnd(s: string, start: nat): Option<nat>
    requires start <= |s|
  {
    CloseFrom(s, start, start)
  }

  lemma DepthStep(s: string, start: nat, j: nat)
    requires start <= j < |s|
    ensures SpanDepth(s, start, j) == Depth(s[start..j]) + Delta(s[j])
    ensures j == start ==> SpanDepth(s, start, j) == Delta(s[j])
    ensures j > start ==> SpanDepth(s, start, j) == SpanDepth(s, start, j - 1) + Delta(s[j])
  {
    assert s[start..j + 1][..j - start] == s[start..j];
    assert j == start ==> s[start..j] == [];
  }

  /** Before the span closes, the count from an opening '{' stays positive. */
  lemma {:induction false} OpenBefore(s: string, start: nat, j: nat)
    requires start <= j < |s| && s[start] == '{'
    requires forall k :: start <= k <= j ==> !ClosesAt(s, start, k)
    ensures SpanDepth(s, start, j) > 0
  {
    DepthStep(s, start, j);
    assert !ClosesAt(s, start, j);
    if j > start {
      OpenBefore(s, start, j - 1);
      assert SpanDepth(s, start, j - 1) > 0;
    }
  }

  /**
   * The span found is the first place the count returns to zero at all: every
   * shorter span from the opening '{' still has more '{' than '}'.
   */
  lemma FirstReturnToZero(s: string, start: nat)
    requires start < |s| && s[start] == '{'
    ensures BalancedEnd(s, start).Some? ==>
      var e := BalancedEnd(s, start).value;
      start < e && SpanDepth(s, start, e) == 0 && forall j :: start <= j < e ==> SpanDepth(s, start, j) > 0
    ensures BalancedEnd(s, start).None? ==> forall j :: start <= j < |s| ==> SpanDepth(s, start, j) > 0
  {
    var r := BalancedEnd(s, start);
    var bound := if r.Some? then r.value else |s|;
    forall j | start <= j < bound ensures SpanDepth(s, start, j) > 0 {
      OpenBefore(s, start, j);
    }
    if r.Some? {
      DepthStep(s, start, start);
    }
  }

  /** The scan loop: `end_idx` is the first closing index, or -1. */
  method ScanBalancedEnd(s: string, start: nat) returns (endIdx: int)
    requires start < |s|
    ensures endIdx == match BalancedEnd(s, start) case Some(e) => e case None => -1
  {
    var braceCount := 0;
    endIdx := -1;
    var i := start;
    while i < |s|
      invariant start <= i <= |s|
      invariant braceCount == Depth(s[start..i])
      invariant BalancedEnd(s, start) == CloseFrom(s, start, i)
      invariant endIdx == -1
      decreases |s| - i
    {
      DepthStep(s, start, i);
      if s[i] == '{' {
        braceCount := braceCount + 1;
      } else if s[i] == '}' {
        braceCount := braceCount - 1;
        if braceCount == 0 {
          endIdx := i;
          break;
        }
      }
      i := i + 1;
    }
  }

  // ----- field salvage -----

  /** The first index at or after `i` that is not whitespace (regex `\s*`). */
  function SkipSpace(s: string, i: nat): (r: nat)
    requires i <= |s|
    decreases |s| - i
    ensures i <= r <= |s|
    ensures forall k :: i <= k < r ==> Text.IsPySpace(s[k])
    ensures r < |s| ==> !Text.IsPySpace(s[r])
  {
    if i < |s| && Text.IsPySpace(s[i]) then SkipSpace(s, i + 1) else i
  }

  /** The index of the quote that closes a value whose text starts at `i`; a backslash escapes the next character. */
  function CloseQuote(s: string, i: nat): (r: Option<nat>)
    decreases |s| - i
    ensures r.Some? ==> i <= r.value < |s| && s[r.value] == '"'
  {
    if i >= |s| then None
    else if s[i] == '"' then Some(i)
    else if s[i] == '\\' then (if i + 1 < |s| then CloseQuote(s, i + 2) else None)
    else CloseQuote(s, i + 1)
  }

  /** The end of the run of word characters starting at `i`. */
  function WordEnd(s: string, i: nat): (r: nat)
    requires i <= |s|
    decreases |s| - i
    ensures i <= r <= |s|
    ensures forall k :: i <= k < r ==> Text.IsWordChar(s[k])
  {
    if i < |s| && Text.IsWordChar(s[i]) then WordEnd(s, i + 1) else i
  }

  /**
   * Where the value of `"key"\s*:\s*"` starts when that prefix occurs at `p`:
   * the index just after the opening quote of the value.
   */
  function ValueStart(s: string, key: string, p: nat): (r: Option<nat>)
    ensures r.Some? ==> p < r.value <= |s| && s[p] == '"' && s[r.value - 1] == '"'
  {
    var open := "\"" + key + "\"";
    if !Text.OccursAt(s, open, p) then None
    else
      assert s[p..p + |open|][0] == s[p];
      var j := SkipSpace(s, p + |open|);
      if j < |s| && s[j] == ':' then
        var k := SkipSpace(s, j + 1);
        if k < |s| && s[k] == '"' then Some(k + 1) else None
      else None
  }

  /** The captured group when the field pattern matches at `p`: quoted text, or for `word` a run of `\w+`. */
  function FieldAt(s: string, key: string, word: bool, p: nat): Option<string> {
    match ValueStart(s, key, p)
    case None => None
    case Some(k) =>
      if word then
        var w := WordEnd(s, k);
        if k < w < |s| && s[w] == '"' then Some(s[k..w]) else None
      else
        match CloseQuote(s, k)
        case None => None
        case Some(e) => Some(s[k..e])
  }

  /** Where `re.search` of the field pattern matches: the leftmost match at or after `p`. */
  function SearchMatch(s: string, key: string, word: bool, p: nat): (r: Option<nat>)
    decreases |s| - p
    ensures r.Some? ==> p <= r.value < |s| && FieldAt(s, key, word, r.value).Some?
    ensures r.Some? ==> forall q :: p <= q < r.value ==> FieldAt(s, key, word, q).None?
    ensures r.None? ==> forall q :: p <= q < |s| ==> FieldAt(s, key, word, q).None?
  {
    if p >= |s| then None
    else if FieldAt(s, key, word, p).Some? then Some(p)
    else SearchMatch(s, key, word, p + 1)
  }

  /** `re.search(...).group(1)` of the field pattern, or None when nothing matches. */
  function SearchField(s: string, key: string, word: bool, p: nat): (r: Option<string>)
    ensures r.Some? <==> SearchMatch(s, key, word, p).Some?
    ensures r.Some? ==> var q := SearchMatch(s, key, word, p).value;
      && p <= q < |s| && FieldAt(s, key, word, q) == r
      && forall q' :: p <= q' < q ==> FieldAt(s, key, word, q').None?
    ensures r.None? ==> forall q :: p <= q < |s| ==> FieldAt(s, key, word, q).None?
  {
    match SearchMatch(s, key, word, p)
    case None => None
    case Some(q) => FieldAt(s, key, word, q)
  }

  function Found(m: Option<string>, default: Value): Value {
    match m
    case Some(v) => Str(v)
    case None => default
  }

  /**
   * The per-field salvage over the whole cleaned text: it yields a dict only
   * when a quoted "reply" is found; missing text fields become "", a missing
   * status "CONTINUE" and a missing suggestion None. Captured text keeps its
   * escapes as written.
   */
  function Salvage(s: string): (r: Option<Object>)
    ensures r.Some? <==> SearchField(s, "reply", false, 0).Some?
    ensures r.Some? ==> r.value == SalvagedFields(s, SearchField(s, "reply", false, 0).value)
  {
    match SearchField(s, "reply", false, 0)
    case None => None
    case Some(reply) => Some(SalvagedFields(s, reply))
  }

  /** The salvaged dict around a found reply. */
  function SalvagedFields(s: string, reply: string): (r: Object)
    ensures r.Keys == {"reply", "translation", "user_raw_text", "user_ja", "status", "suggestion"}
    ensures r["reply"] == Str(reply)
  {
    map[
      "reply" := Str(reply),
      "translation" := Found(SearchField(s, "translation", false, 0), Str("")),
      "user_raw_text" := Found(SearchField(s, "user_raw_text", false, 0), Str("")),
      "user_ja" := Found(SearchField(s, "user_ja", false, 0), Str("")),
      "status" := Found(SearchField(s, "status", true, 0), Str("CONTINUE")),
      "suggestion" := Found(SearchField(s, "suggestion", false, 0), Null)
    ]
  }

  /** No match can start where there is no quote character. */
  lemma {:induction false} SearchSkipsUnquoted(s: string, key: string, word: bool, p: nat, q: nat)
    requires p <= q <= |s|
    requires forall j :: p <= j < q ==> s[j] != '"'
    ensures SearchMatch(s, key, word, p) == SearchMatch(s, key, word, q)
    decreases q - p
  {
    if p < q {
      assert FieldAt(s, key, word, p).None?;
      assert SearchMatch(s, key, word, p) == SearchMatch(s, key, word, p + 1);
      SearchSkipsUnquoted(s, key, word, p + 1, q);
    }
  }

  /**
   * A reply written as a plain quoted value, after text that holds no quote
   * character, is what the salvage recovers.
   */
  lemma SalvagePlainReply(pre: string, body: string, post: string)
    requires '"' !in pre && '"' !in body && '\\' !in body
    ensures Salvage(pre + "\"reply\": \"" + body + "\"" + post).Some?
    ensures Salvage(pre + "\"reply\": \"" + body + "\"" + post).value["reply"] == Str(body)
  {
    var s := pre + "\"reply\": \"" + body + "\"" + post;
    var p := |pre|;
    SearchSkipsUnquoted(s, "reply", false, 0, p);
    PlainReplyAt(pre, body, post);
  }

  lemma PlainReplyAt(pre: string, body: string, post: string)
    requires '"' !in body && '\\' !in body
    ensures FieldAt(pre + "\"reply\": \"" + body + "\"" + post, "reply", false, |pre|) == Some(body)
  {
    var lit := "\"reply\": \"";
    var s := pre + lit + body + "\"" + post;
    var p := |pre|;
    var k := p + 10;
    assert s[p..k] == lit;
    ReplyValueStart(s, p);
    assert s[k..k + |body|] == body;
    assert s[k + |body|] == '"';
    CloseQuoteOverPlain(s, k, k + |body|);
  }

  lemma ReplyValueStart(s: string, p: nat)
    requires p + 10 <= |s| && s[p..p + 10] == "\"reply\": \""
    ensures ValueStart(s, "reply", p) == Some(p + 10)
  {
    assert s[p..p + 7] == s[p..p + 10][..7];
    assert Text.OccursAt(s, "\"reply\"", p);
    assert s[p + 7] == s[p..p + 10][7] == ':';
    assert s[p + 8] == s[p..p + 10][8] == ' ';
    assert s[p + 9] == s[p..p + 10][9] == '"';
    assert SkipSpace(s, p + 7) == p + 7;
    assert SkipSpace(s, p + 9) == p + 9;
    assert SkipSpace(s, p + 8) == p + 9;
  }

  lemma {:induction false} CloseQuoteOverPlain(s: string, i: nat, e: nat)
    requires i <= e < |s| && s[e] == '"'
    requires forall j :: i <= j < e ==> s[j] != '"' && s[j] != '\\'
    ensures CloseQuote(s, i) == Some(e)
    decreases e - i
  {
    if i < e {
      CloseQuoteOverPlain(s, i + 1, e);
    }
  }

  // ----- the cascade -----

  /** How a dict was recovered from the cleaned text. */
  datatype Recovered =
    | Direct(v: Value)
    | Span(start: nat, end: nat, v: Value)
    | Salvaged(fields: Object)

  function ValueOf(r: Recovered): Value {
    match r
    case Direct(v) => v
    case Span(_, _, v) => v
    case Salvaged(fields) => Dict(fields)
  }

  /**
   * The cascade once the direct parse has failed and the first '{' is at
   * `start`: the first balanced span if it parses; else, and only then, the
   * field salvage. A span that never balances is an error without salvage.
   */
  function FromBrace(cleaned: string, start: nat, parse: string -> Result<Value, string>): (r: Result<Recovered, Fault>)
    requires start < |cleaned| && cleaned[start] == '{'
    ensures r.Ok? ==> r.value.Span? || r.value.Salvaged?
    ensures r.Ok? && r.value.Span? ==>
      var end := r.value.end;
      && r.value.start == start
      && start < end < |cleaned| && cleaned[end] == '}'
      && SpanDepth(cleaned, start, end) == 0
      && (forall j :: start <= j < end ==> SpanDepth(cleaned, start, j) > 0)
      && parse(cleaned[start..end + 1]) == Ok(r.value.v)
    ensures r.Ok? && r.value.Salvaged? ==>
      && BalancedEnd(cleaned, start).Some?
      && parse(cleaned[start..BalancedEnd(cleaned, start).value + 1]).Err?
      && Salvage(cleaned) == Some(r.value.fields)
    ensures BalancedEnd(cleaned, start).None? ==> r == Err(ValueError(UnbalancedPrefix + Take(cleaned, 200)))
    ensures BalancedEnd(cleaned, start).Some? ==>
      var end := BalancedEnd(cleaned, start).value;
      var span := cleaned[start..end + 1];
      && (parse(span).Ok? ==> r == Ok(Span(start, end, parse(span).value)))
      && (parse(span).Err? ==> r == SalvageOutcome(cleaned))
    ensures r.Err? ==> r.error.ValueError?
  {
    match BalancedEnd(cleaned, start)
    case None => Err(ValueError(UnbalancedPrefix + Take(cleaned, 200)))
    case Some(end) =>
      FirstReturnToZero(cleaned, start);
      match parse(cleaned[start..end + 1])
      case Ok(v) => Ok(Span(start, end, v))
      case Err(_) => SalvageOutcome(cleaned)
  }

  /** The last step of the cascade: the salvaged fields, or the error that none were found. */
  function SalvageOutcome(cleaned: string): (r: Result<Recovered, Fault>)
    ensures Salvage(cleaned).Some? ==> r == Ok(Salvaged(Salvage(cleaned).value))
    ensures Salvage(cleaned).None? ==> r == Err(ValueError(NoFieldsPrefix + Take(cleaned, 200)))
    ensures r.Ok? ==> r.value.Salvaged? && Salvage(cleaned) == Some(r.value.fields)
    ensures r.Err? ==> r.error.ValueError?
  {
    match Salvage(cleaned)
    case Some(fields) => Ok(Salvaged(fields))
    case None => Err(ValueError(NoFieldsPrefix + Take(cleaned, 200)))
  }

  /**
   * The recovery cascade over `cleaned`: the direct parse; else, from the
   * first '{', the balanced span and the salvage. No '{' is an error that
   * does not try the salvage.
   */
  function Recover(cleaned: string, parse: string -> Result<Value, string>): (r: Result<Recovered, Fault>)
    ensures r.Ok? && r.value.Direct? <==> parse(cleaned).Ok?
    ensures parse(cleaned).Ok? ==> r == Ok(Direct(parse(cleaned).value))
    ensures parse(cleaned).Err? && !Text.Contains(cleaned, "{") ==>
      r == Err(ValueError(NoObjectPrefix + Take(cleaned, 100)))
    ensures parse(cleaned).Err? && Text.Contains(cleaned, "{") ==>
      var start := Text.Find(cleaned, "{").value;
      start < |cleaned| && cleaned[start] == '{' && r == FromBrace(cleaned, start, parse)
  {
    match parse(cleaned)
    case Ok(v) => Ok(Direct(v))
    case Err(_) =>
      match Text.Find(cleaned, "{")
      case None => Err(ValueError(NoObjectPrefix + Take(cleaned, 100)))
      case Some(start) =>
        assert Text.OccursAt(cleaned, "{", start);
        assert cleaned[start..start + 1][0] == cleaned[start];
        FromBrace(cleaned, start, parse)
  }

  /** The value recovered from the model's reply text, fence removed first. */
  function Decode(raw: string, parse: string -> Result<Value, string>): Result<Value, Fault> {
    match Recover(StripFence(raw), parse)
    case Ok(r) => Ok(ValueOf(r))
    case Err(f) => Err(f)
  }

  // ----- checks and defaults -----

  const TextKeys: set<string> := {"reply", "translation", "user_raw_text", "user_ja"}

  /** Python `len(v)` succeeds. */
  predicate HasLen(v: Value) {
    v.Str? || v.List? || v.Dict?
  }

  /** Python `v[:30]` succeeds. */
  predicate Sliceable(v: Value) {
    v.Str? || v.List?
  }

  /** Every text field that is present holds a string. */
  predicate TextsAreStrings(d: Object) {
    && Get(d, "reply", Str("")).Str? && Get(d, "translation", Str("")).Str?
    && Get(d, "user_raw_text", Str("")).Str? && Get(d, "user_ja", Str("")).Str?
  }

  /** A reply whose stripped, lower-cased text is "error". */
  predicate IsErrorText(s: string) {
    Text.AsciiLower(Text.Strip(s)) == "error"
  }

  /** The shape every recovered dict has once its checks and defaults are applied. */
  predicate Normalized(m: Object) {
    && TextKeys <= m.Keys && "suggestion" in m
    && (m["reply"].Str? || m["reply"] == List([]) || m["reply"] == Dict(map[]))
    && (m["reply"].Str? ==> !IsErrorText(m["reply"].s))
    && Sliceable(m["user_ja"])
  }

  /** The values the four `setdefault` calls supply. */
  const TextDefaults: Object :=
    map["reply" := Str(""), "translation" := Str(""), "user_raw_text" := Str(""), "user_ja" := Str("")]

  /**
   * The four `setdefault` calls and the suggestion assignment. `setdefault`
   * fills only an absent key, so the four calls together are the defaults
   * overridden by the dict. Absent text keys become "", an absent suggestion
   * becomes None, every present key keeps its value.
   */
  function WithDefaults(d: Object): (r: Object)
    ensures r.Keys == d.Keys + TextKeys + {"suggestion"}
    ensures forall k :: k in d ==> r[k] == d[k]
    ensures "reply" !in d ==> r["reply"] == Str("")
    ensures "translation" !in d ==> r["translation"] == Str("")
    ensures "user_raw_text" !in d ==> r["user_raw_text"] == Str("")
    ensures "user_ja" !in d ==> r["user_ja"] == Str("")
    ensures "suggestion" !in d ==> r["suggestion"] == Null
  {
    var m := TextDefaults + d;
    if Get(m, "suggestion", Null) == Null then m["suggestion" := Null] else m
  }

  /** The reply value the error check looks at: `res_json.get("reply") or ""`. */
  function ReplyText(d: Object): Value {
    PyOr(Get(d, "reply", Null), Str(""))
  }

  /**
   * The checks and defaults after recovery, including the diagnostic line
   * that takes `len` of the reply and slices `user_ja`.
   */
  function Normalize(v: Value): (r: Result<Object, Fault>)
    ensures !v.Dict? ==> r == Err(ValueError(NotAnObject))
    ensures v.Dict? && ReplyText(v.fields).Str? && IsErrorText(ReplyText(v.fields).s) ==>
      r == Err(ValueError(ErrorReply))
    ensures r.Ok? ==> v.Dict? && r.value == WithDefaults(v.fields) && Normalized(r.value)
  {
    if !v.Dict? then Err(ValueError(NotAnObject))
    else
      var replyText := ReplyText(v.fields);
      if !replyText.Str? then
        Err(AttributeError("'" + PyTypeName(replyText) + "' object has no attribute 'strip'"))
      else if IsErrorText(replyText.s) then Err(ValueError(ErrorReply))
      else Checked(v.fields)
  }

  /**
   * The defaults and the diagnostic line once the reply has passed the error
   * check: `len` of the reply and the slice of `user_ja` must succeed.
   */
  function Checked(d: Object): (r: Result<Object, Fault>)
    requires ReplyText(d).Str? && !IsErrorText(ReplyText(d).s)
    ensures r.Ok? ==> r.value == WithDefaults(d) && Normalized(r.value)
    ensures r.Err? ==> r.error.TypeError?
  {
    var m := WithDefaults(d);
    if !HasLen(m["reply"]) then
      Err(TypeError("object of type '" + PyTypeName(m["reply"]) + "' has no len()"))
    else if m["user_ja"].Dict? then Err(TypeError("unhashable type: 'slice'"))
    else if !Sliceable(m["user_ja"]) then
      Err(TypeError("'" + PyTypeName(m["user_ja"]) + "' object is not subscriptable"))
    else
      DefaultsNormalized(d);
      Ok(m)
  }

  /** The defaulted dict whose checks all pass is in normal form. */
  lemma DefaultsNormalized(d: Object)
    requires ReplyText(d).Str? && !IsErrorText(ReplyText(d).s)
    requires HasLen(WithDefaults(d)["reply"]) && Sliceable(WithDefaults(d)["user_ja"])
    ensures Normalized(WithDefaults(d))
  {
    DefaultReplyChecked(d);
    DefaultReplyShape(d);
  }

  /** A reply the error check read as a string and `len` accepts is a string or an empty container. */
  lemma DefaultReplyShape(d: Object)
    requires ReplyText(d).Str? && HasLen(WithDefaults(d)["reply"])
    ensures var v := WithDefaults(d)["reply"]; v.Str? || v == List([]) || v == Dict(map[])
  {
    if "reply" in d {
      assert WithDefaults(d)["reply"] == d["reply"];
    }
  }

  /** A dict whose text fields are strings and whose reply is no "error" text passes every check. */
  lemma NormalizeAcceptsStrings(d: Object)
    requires TextsAreStrings(d) && !IsErrorText(Get(d, "reply", Str("")).s)
    ensures Normalize(Dict(d)).Ok?
  {
    ReplyTextOfString(d);
    DefaultsOfStrings(d);
    assert Checked(d) == Ok(WithDefaults(d));
  }

  /** A string reply, or none, is checked as itself, or as "" when falsy. */
  lemma ReplyTextOfString(d: Object)
    requires Get(d, "reply", Str("")).Str?
    ensures ReplyText(d).Str? && ReplyText(d).s == Get(d, "reply", Str("")).s
  {
  }

  /** With string text fields the defaulted reply and `user_ja` are strings. */
  lemma DefaultsOfStrings(d: Object)
    requires TextsAreStrings(d)
    ensures WithDefaults(d)["reply"].Str? && WithDefaults(d)["user_ja"].Str?
  {
  }

  /**
   * The reply the error check passed is the reply the defaults leave: absent
   * or falsy it is checked as "", which is no "error" text.
   */
  lemma DefaultReplyChecked(d: Object)
    requires ReplyText(d).Str? && !IsErrorText(ReplyText(d).s)
    ensures WithDefaults(d)["reply"].Str? ==> !IsErrorText(WithDefaults(d)["reply"].s)
  {
    assert !IsErrorText("") by {
      assert Text.Strip("") == "";
    }
  }

  /** A reply whose last character is neither a space nor a letter r is no "error" text. */
  lemma NotErrorByLastChar(s: string)
    requires s != [] && !Text.IsPySpace(s[|s| - 1]) && Text.LowerChar(s[|s| - 1]) != 'r'
    ensures !IsErrorText(s)
  {
    Text.StripKeepsLast(s);
    var t := Text.Strip(s);
    assert Text.AsciiLower(t)[|t| - 1] == Text.LowerChar(s[|s| - 1]);
  }

  /** A dict already in normal form passes the checks unchanged. */
  lemma NormalizeKeepsNormalized(m: Object)
    requires Normalized(m)
    ensures Normalize(Dict(m)) == Ok(m)
  {
    DefaultsKeepComplete(m);
    assert !IsErrorText("") by {
      assert Text.Strip("") == "";
    }
    var rt := ReplyText(m);
    assert rt == m["reply"] || rt == Str("");
    assert rt.Str? && !IsErrorText(rt.s);
    assert HasLen(m["reply"]) && Sliceable(m["user_ja"]) && !m["user_ja"].Dict?;
  }

  /** A dict holding every text key and a suggestion is left as it is by the defaults. */
  lemma DefaultsKeepComplete(m: Object)
    requires TextKeys <= m.Keys && "suggestion" in m
    ensures WithDefaults(m) == m
  {
    assert TextDefaults.Keys == TextKeys;
    assert TextDefaults + m == m;
    if m["suggestion"] == Null {
      assert m["suggestion" := Null] == m;
    }
  }

  /** Applying the checks and defaults twice is the same as once. */
  lemma NormalizeIdempotent(v: Value)
    requires Normalize(v).Ok?
    ensures Normalize(Dict(Normalize(v).value)) == Normalize(v)
  {
    NormalizeKeepsNormalized(Normalize(v).value);
  }
}
