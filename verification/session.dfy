/** The session state of the chat front-end: at most one remote chat bound to
    one model, and the user-visible transcript kept beside it. The two are
    separate containers that are always reset together. */
module Session {
  import opened Wrappers
  import opened Transcript

  /** The remote chat handle: the model it was started for and the history
      the remote side keeps for it. */
  datatype Chat = Chat(model: string, history: seq<Turn>)

  /** No chat (`chat == None`) or a chat bound to one model, plus the
      transcript shown to the user. */
  datatype State = State(chat: Option<Chat>, messages: seq<Turn>)

  /** The state of a fresh page: no chat, nothing shown. */
  const Initial: State := State(None, [])

  /** The model the current chat is bound to, if any. */
  function BoundModel(s: State): Option<string> {
    match s.chat
    case None => None
    case Some(c) => Some(c.model)
  }

  /** The remote history is exactly the completed exchanges of the transcript. */
  ghost predicate Consistent(s: State) {
    s.chat.Some? ==> s.chat.value.history == Answered(s.messages)
  }

  /** Make sure a chat exists for model `m`: keep the state when the chat is
      already bound to `m`, otherwise start a new chat for `m` with an empty
      history and empty the transcript. */
  function EnsureChat(s: State, m: string): (r: State)
    ensures BoundModel(r) == Some(m)
    ensures BoundModel(s) == Some(m) ==> r == s
    ensures BoundModel(s) != Some(m) ==> r.chat.value.history == [] && r.messages == []
  {
    if s.chat.None? || s.chat.value.model != m then State(Some(Chat(m, [])), [])
    else s
  }

  /** The Clear command: empty the transcript and, when a chat exists,
      restart it for the same model with an empty history. */
  function Clear(s: State): (r: State)
    ensures r.messages == []
    ensures BoundModel(r) == BoundModel(s)
    ensures r.chat.Some? ==> r.chat.value.history == []
  {
    match s.chat
    case None => State(None, [])
    case Some(c) => State(Some(Chat(c.model, [])), [])
  }

  /** Ensuring the chat twice for the same model is ensuring it once. */
  lemma EnsureChatIdempotent(s: State, m: string)
    ensures EnsureChat(EnsureChat(s, m), m) == EnsureChat(s, m)
  {
  }

  /** Clearing a state bound to `m` gives the state a model change to `m`
      would have given; clearing twice is clearing once. */
  lemma ClearIsFreshSession(s: State, m: string)
    requires BoundModel(s) == Some(m)
    ensures Clear(s) == EnsureChat(Initial, m)
    ensures Clear(Clear(s)) == Clear(s)
  {
  }

  /** Every transition of this module keeps the remote history equal to the
      completed exchanges of the transcript. */
  lemma SessionKeepsConsistent(s: State, m: string)
    ensures Consistent(Initial)
    ensures Consistent(EnsureChat(s, m)) <== Consistent(s)
    ensures Consistent(Clear(s))
  {
  }
}
