/**
 * The conversation ledger (`communication_raw`) the chat handler returns with
 * every successful answer: the earlier turns, the user's current turn with its
 * transcription, and the model entry that was just generated.
 */
module Ledger {
  import opened Json
  import opened Wrappers
  import opened Faults
  import Text
  import Phase

  /** The file endings that mark the last history message as an uploaded audio file. */
  predicate IsAudioName(s: string) {
    Text.EndsWith(s, ".m4a") || Text.EndsWith(s, ".mp3") || Text.EndsWith(s, ".wav")
  }

  /**
   * The suggestion written to the model entry: the first item of a non-empty
   * list, nothing for a value of an unexpected type, and, after the first
   * round only, "" in place of None.
   */
  function LedgerSuggestion(v: Value, firstRound: bool): (r: Value)
    ensures r.List? ==> v.List? && v.items != [] && r == v.items[0]
    ensures r.Other? ==> v.List? && v.items != [] && r == v.items[0]
    ensures v.Str? || v.Dict? ==> r == v
    ensures v.Other? || v == List([]) ==> r == Null
    ensures v.Null? ==> (r == Null <==> firstRound)
    ensures v.Null? && !firstRound ==> r == Str("")
  {
    if v.List? && |v.items| > 0 then v.items[0]
    else if !(v.Str? || v.Dict? || v.Null?) then Null
    else if v.Null? && !firstRound then Str("")
    else v
  }

  /** The entry recording the seed topic in the first round. */
  function SeedEntry(context: string, res: Object): Object {
    map["role" := Str("user"), "content" := Str(context), "user_raw_text" := Str(context),
        "user_ja" := PyOr(Get(res, "user_ja", Str("")), Str(context))]
  }

  /** The entry recording the reply just generated; `content` and `reply` hold the same value. */
  function ModelEntry(res: Object, firstRound: bool): Object {
    var reply := Get(res, "reply", Str(""));
    map["role" := Str("model"), "content" := reply, "reply" := reply,
        "translation" := Get(res, "translation", Str("")),
        "suggestion" := LedgerSuggestion(Get(res, "suggestion", Null), firstRound)]
  }

  /** The entry recording the user's current message together with the model's transcription of it. */
  function UserEntry(last: string, res: Object): Object {
    map["role" := Str("user"),
        "content" := Str(if IsAudioName(last) then "[音频文件: " + last + "]" else last),
        "user_raw_text" := Get(res, "user_raw_text", Str("")),
        "user_ja" := Get(res, "user_ja", Str(""))]
  }

  /** An earlier history message copied with its role and content only. */
  function ReplayEntry(m: Phase.Message): Object {
    map["role" := Str(m.role), "content" := Str(m.content)]
  }

  /** The earlier messages, one entry each. */
  function Replay(history: seq<Phase.Message>): (r: seq<Object>)
    ensures |r| == |history|
    ensures forall k :: 0 <= k < |r| ==> r[k] == ReplayEntry(history[k])
  {
    seq(|history|, k requires 0 <= k < |history| => ReplayEntry(history[k]))
  }

  /**
   * The ledger of a successful answer. In the first round it is the seed entry
   * (only for a non-empty seed) and the model entry. Later, a non-empty ledger
   * sent back by the client is continued; otherwise the earlier messages are
   * replayed; then come the user's current entry and the model entry.
   */
  function BuildLedger(context: string, history: seq<Phase.Message>, previous: seq<Object>, res: Object): seq<Object> {
    if history == [] then
      (if context != "" then [SeedEntry(context, res)] else []) + [ModelEntry(res, true)]
    else
      var earlier := if previous != [] then previous else Replay(history[..|history| - 1]);
      earlier + [UserEntry(history[|history| - 1].content, res), ModelEntry(res, false)]
  }

  /** Every entry has a "role" key: what `m['role']` needs. */
  predicate HasRoles(ledger: seq<Object>) {
    forall k | 0 <= k < |ledger| :: "role" in ledger[k]
  }

  /** The number of entries whose role is "user". */
  function CountUserEntries(ledger: seq<Object>): (n: nat)
    requires HasRoles(ledger)
    ensures n <= |ledger|
  {
    if ledger == [] then 0
    else CountUserEntries(ledger[..|ledger| - 1]) + (if ledger[|ledger| - 1]["role"] == Str("user") then 1 else 0)
  }

  /**
   * The round count printed for an unfinished conversation: a KeyError on
   * "role" when an entry has none, otherwise the number of user entries.
   */
  method CountLedgerUsers(ledger: seq<Object>) returns (r: Result<nat, Fault>)
    ensures r.Err? <==> !HasRoles(ledger)
    ensures r.Err? ==> r.error == KeyError("role")
    ensures r.Ok? ==> r.value == CountUserEntries(ledger)
  {
    var n := 0;
    var i := 0;
    while i < |ledger|
      invariant 0 <= i <= |ledger|
      invariant HasRoles(ledger[..i]) && n == CountUserEntries(ledger[..i])
    {
      if "role" !in ledger[i] {
        return Err(KeyError("role"));
      }
      assert ledger[..i + 1][..i] == ledger[..i];
      if ledger[i]["role"] == Str("user") {
        n := n + 1;
      }
      i := i + 1;
    }
    assert ledger[..i] == ledger;
    return Ok(n);
  }

  /** The replay loop and the two appended entries, as the handler builds them. */
  method AssembleLedger(context: string, history: seq<Phase.Message>, previous: seq<Object>, res: Object)
    returns (ledger: seq<Object>)
    ensures ledger == BuildLedger(context, history, previous, res)
  {
    ledger := [];
    if history == [] {
      if context != "" {
        ledger := ledger + [SeedEntry(context, res)];
      }
      ledger := ledger + [ModelEntry(res, true)];
      return;
    }
    if |previous| > 0 {
      ledger := previous;
    } else {
      var i := 0;
      while i < |history| - 1
        invariant 0 <= i <= |history| - 1
        invariant ledger == Replay(history[..i])
      {
        ledger := ledger + [ReplayEntry(history[i])];
        i := i + 1;
      }
    }
    ledger := ledger + [UserEntry(history[|history| - 1].content, res)];
    ledger := ledger + [ModelEntry(res, false)];
  }

  // ----- lemmas -----

  /**
   * The shape of the ledger: its size, that a ledger sent back by the client
   * is kept as a prefix, and that it ends with the user's current entry and
   * the model entry holding the reply.
   */
  lemma LedgerShape(context: string, history: seq<Phase.Message>, previous: seq<Object>, res: Object)
    ensures var l := BuildLedger(context, history, previous, res);
      && |l| >= 1
      && l[|l| - 1] == ModelEntry(res, history == [])
      && l[|l| - 1]["content"] == Get(res, "reply", Str(""))
      && (history == [] ==> |l| == (if context != "" then 2 else 1))
      && (history != [] && previous != [] ==> |l| == |previous| + 2 && l[..|previous|] == previous)
      && (history != [] && previous == [] ==> |l| == |history| + 1)
      && (history != [] ==> l[|l| - 2] == UserEntry(history[|history| - 1].content, res))
  {
    var l := BuildLedger(context, history, previous, res);
    if history != [] && previous != [] {
      assert l[..|previous|] == previous;
    }
  }

  /** A ledger built by the handler itself always carries roles. */
  lemma {:induction false} ReplayHasRoles(history: seq<Phase.Message>)
    ensures HasRoles(Replay(history))
    ensures CountUserEntries(Replay(history)) == Phase.CountUser(history)
    decreases |history|
  {
    if history != [] {
      var h := history[..|history| - 1];
      ReplayHasRoles(h);
      assert Replay(history)[..|history| - 1] == Replay(h);
    }
  }

  /** Counting user entries is additive over concatenation. */
  lemma {:induction false} CountUserEntriesConcat(a: seq<Object>, b: seq<Object>)
    requires HasRoles(a) && HasRoles(b)
    ensures HasRoles(a + b)
    ensures CountUserEntries(a + b) == CountUserEntries(a) + CountUserEntries(b)
    decreases |b|
  {
    if b == [] {
      assert a + b == a;
    } else {
      var b' := b[..|b| - 1];
      assert (a + b)[..|a + b| - 1] == a + b';
      CountUserEntriesConcat(a, b');
    }
  }

  /**
   * When the ledger is rebuilt from the history and the last history message
   * is the user's, it counts exactly the current round: the user messages of
   * the history.
   */
  lemma RebuiltLedgerCountsRound(context: string, history: seq<Phase.Message>, res: Object)
    requires history != [] && history[|history| - 1].role == "user"
    ensures HasRoles(BuildLedger(context, history, [], res))
    ensures CountUserEntries(BuildLedger(context, history, [], res)) == Phase.CountUser(history)
  {
    var h := history[..|history| - 1];
    var tail := [UserEntry(history[|history| - 1].content, res), ModelEntry(res, false)];
    ReplayHasRoles(h);
    CurrentTurnCountsOne(history[|history| - 1].content, res);
    CountUserEntriesConcat(Replay(h), tail);
    assert BuildLedger(context, history, [], res) == Replay(h) + tail;
    assert Phase.CountUser(history) == Phase.CountUser(h) + 1 by {
      assert history[..|history| - 1] == h;
    }
  }

  /** The two entries appended after the first round hold one user entry. */
  lemma CurrentTurnCountsOne(last: string, res: Object)
    ensures HasRoles([UserEntry(last, res), ModelEntry(res, false)])
    ensures CountUserEntries([UserEntry(last, res), ModelEntry(res, false)]) == 1
  {
    var tail := [UserEntry(last, res), ModelEntry(res, false)];
    assert tail[..1] == [tail[0]];
    assert [tail[0]][..0] == [];
  }

  /** Only a ledger sent back by the client can lack a role. */
  lemma MissingRoleComesFromClient(context: string, history: seq<Phase.Message>, previous: seq<Object>, res: Object)
    ensures HasRoles(BuildLedger(context, history, previous, res)) <==> (history == [] || previous == [] || HasRoles(previous))
  {
    var l := BuildLedger(context, history, previous, res);
    if history != [] && previous == [] {
      ReplayHasRoles(history[..|history| - 1]);
    }
    if history != [] && previous != [] && !HasRoles(previous) {
      var k :| 0 <= k < |previous| && "role" !in previous[k];
      assert l[k] == previous[k];
    }
  }
}
