/** The user-visible transcript: an append-only list of turns, each spoken
    by the user or by the assistant. */
module Transcript {

  datatype Role = User | Assistant

  datatype Turn = Turn(role: Role, content: string)

  /** The transcript ends with a user turn answered by an assistant turn. */
  predicate EndsWithExchange(ts: seq<Turn>) {
    |ts| >= 2 && ts[|ts| - 2].role == User && ts[|ts| - 1].role == Assistant
  }

  /** `ts` alternates user and assistant turns, starting with a user turn and
      ending with an assistant turn: a log of completed exchanges. */
  ghost predicate Exchanges(ts: seq<Turn>)
    decreases |ts|
  {
    |ts| == 0 || (EndsWithExchange(ts) && Exchanges(ts[..|ts| - 2]))
  }

  /** A log of exchanges followed by one more completed exchange is a log of
      exchanges. */
  lemma AppendExchange(log: seq<Turn>, pair: seq<Turn>)
    requires Exchanges(log)
    requires |pair| == 2 && pair[0].role == User && pair[1].role == Assistant
    ensures Exchanges(log + pair)
  {
    assert (log + pair)[..|log|] == log;
  }

  /** The completed exchanges of a transcript: every user turn immediately
      answered by an assistant turn, together with that answer. A user turn
      whose request failed has no answer and is dropped. Read from the end:
      a final answered pair is kept as the last exchange, any other final
      turn is dropped. */
  function Answered(ts: seq<Turn>): (r: seq<Turn>)
    ensures Exchanges(r)
    ensures |r| <= |ts|
    ensures EndsWithExchange(ts) ==>
      |r| >= 2 && r[|r| - 2] == ts[|ts| - 2] && r[|r| - 1] == ts[|ts| - 1]
    decreases |ts|
  {
    if |ts| == 0 then []
    else if EndsWithExchange(ts) then
      var earlier := Answered(ts[..|ts| - 2]);
      AppendExchange(earlier, ts[|ts| - 2..]);
      earlier + ts[|ts| - 2..]
    else
      Answered(ts[..|ts| - 1])
  }

  /** The completed exchanges use only turns of the transcript, each at most
      as often as it occurs there. */
  lemma {:induction false} AnsweredUsesTranscriptTurns(ts: seq<Turn>)
    ensures multiset(Answered(ts)) <= multiset(ts)
    decreases |ts|
  {
    if |ts| > 0 {
      if EndsWithExchange(ts) {
        AnsweredUsesTranscriptTurns(ts[..|ts| - 2]);
        assert ts == ts[..|ts| - 2] + ts[|ts| - 2..];
      } else {
        AnsweredUsesTranscriptTurns(ts[..|ts| - 1]);
        assert ts == ts[..|ts| - 1] + [ts[|ts| - 1]];
      }
    }
  }

  /** Appending an answered user turn adds exactly that exchange to the
      completed ones and changes none of the earlier ones. */
  lemma AnsweredAfterExchange(ts: seq<Turn>, prompt: string, reply: string)
    ensures Answered(ts + [Turn(User, prompt), Turn(Assistant, reply)])
      == Answered(ts) + [Turn(User, prompt), Turn(Assistant, reply)]
  {
    var whole := ts + [Turn(User, prompt), Turn(Assistant, reply)];
    assert whole[..|whole| - 2] == ts;
  }

  /** Appending an unanswered user turn completes no exchange. */
  lemma AnsweredAfterUserTurn(ts: seq<Turn>, prompt: string)
    ensures Answered(ts + [Turn(User, prompt)]) == Answered(ts)
  {
    var whole := ts + [Turn(User, prompt)];
    assert whole[..|whole| - 1] == ts;
  }
}
