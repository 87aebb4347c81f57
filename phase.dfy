/**
 * Which kind of turn a chat request is: the opening question, an ordinary
 * round, or the round that must close the conversation.
 */
module Phase {
  /** One message of the request history (`Message` in the backend). */
  datatype Message = Message(role: string, content: string)

  datatype Phase = First | Middle | Last

  /** The number of messages whose role is exactly "user". */
  function CountUser(history: seq<Message>): (n: nat)
    ensures n <= |history|
    ensures n == 0 <== history == []
  {
    if history == [] then 0
    else CountUser(history[..|history| - 1]) + (if history[|history| - 1].role == "user" then 1 else 0)
  }

  /**
   * The current round counts the user messages, the current one included; an
   * empty history is the first round, checked before the last-round test.
   */
  function Classify(history: seq<Message>, turn: int): (p: Phase)
    ensures p == First <==> history == []
    ensures p == Last <==> history != [] && CountUser(history) >= turn
    ensures p == Middle <==> history != [] && CountUser(history) < turn
  {
    if history == [] then First
    else if CountUser(history) >= turn then Last
    else Middle
  }

  /** Counting is additive over concatenation. */
  lemma {:induction false} CountUserConcat(a: seq<Message>, b: seq<Message>)
    ensures CountUser(a + b) == CountUser(a) + CountUser(b)
    decreases |b|
  {
    if b == [] {
      assert a + b == a;
    } else {
      var b' := b[..|b| - 1];
      assert (a + b)[..|a + b| - 1] == a + b';
      CountUserConcat(a, b');
    }
  }

  /** A history made only of user messages counts every one of its messages. */
  lemma {:induction false} CountUserAllUsers(history: seq<Message>)
    requires forall k :: 0 <= k < |history| ==> history[k].role == "user"
    ensures CountUser(history) == |history|
  {
    if history != [] {
      CountUserAllUsers(history[..|history| - 1]);
    }
  }

  /**
   * A follow-up request is the history so far plus one new user message: it is
   * the last round exactly when the earlier user messages already reach
   * `turn - 1`.
   */
  lemma RoundOfNewUserMessage(earlier: seq<Message>, content: string, turn: int)
    ensures Classify(earlier + [Message("user", content)], turn) == Last
        <==> CountUser(earlier) + 1 >= turn
  {
    var h := earlier + [Message("user", content)];
    assert h[..|h| - 1] == earlier;
  }
}
