/** One prompt submission: the user turn is shown at once, the prompt is sent
    to the bound chat, and the reply is shown and recorded, or an error is
    shown and nothing more is recorded. The remote send is an input: its
    outcome is the reply text or the description of the exception. */
module Conversation {
  import opened Wrappers
  import opened Transcript
  import opened Session

  /** The output-length cap sent with every request. */
  const MaxOutputTokens: nat := 2048

  /** A message request to the bound chat (the sampling temperature, a
      float passed through unchanged, is not modelled). */
  datatype Request = Request(prompt: string, maxOutputTokens: nat)

  /** What the page shows for the assistant's turn. */
  datatype Feedback = NoFeedback | ShowReply(reply: string) | ShowError(message: string)

  /** The result of a submission: the new state, the request sent (if one
      was) and what was shown. */
  datatype Step = Step(state: State, sent: Option<Request>, feedback: Feedback)

  const ErrorPrefix: string := "An error occurred: "
  const ErrorHint: string := "\n\nTip: try switching to another model in the sidebar."

  /** Stands for the description of the attribute error raised, and caught
      by the same handler as a failed send, when the state holds no chat to
      send to; its exact wording belongs to the UI library. */
  const NoChatError: string := "st.session_state has no attribute \"chat\""

  /** The error shown for a failed send: the raw description and a static
      hint to try another model. */
  function ErrorMessage(e: string): (msg: string)
    ensures |msg| == |ErrorPrefix| + |e| + |ErrorHint|
    ensures msg[..|ErrorPrefix|] == ErrorPrefix
    ensures msg[|ErrorPrefix|..|ErrorPrefix| + |e|] == e
    ensures msg[|ErrorPrefix| + |e|..] == ErrorHint
  {
    ErrorPrefix + e + ErrorHint
  }

  /** The raw description inside an error message. */
  function ErrorDetail(msg: string): string
    requires |msg| >= |ErrorPrefix| + |ErrorHint|
  {
    msg[|ErrorPrefix|..|msg| - |ErrorHint|]
  }

  /** The shown error always carries the raw description unchanged. */
  lemma ErrorDetailRoundTrip(e: string)
    ensures ErrorDetail(ErrorMessage(e)) == e
  {
  }

  /** Submit `prompt` with send outcome `outcome`. An empty prompt does
      nothing. Otherwise the user turn is appended first; on a successful
      send the reply is appended to the transcript and recorded in the chat,
      on a failed send (or with no chat to send to) an error is shown and
      nothing else changes. */
  function Submit(s: State, prompt: string, outcome: Result<string, string>): (r: Step)
    ensures prompt == "" ==> r == Step(s, None, NoFeedback)
    ensures BoundModel(r.state) == BoundModel(s)
    ensures r.sent.Some? ==> r.sent.value == Request(prompt, 2048)
    ensures prompt != "" ==> (r.sent.Some? <==> s.chat.Some?)
    ensures prompt != "" && s.chat.Some? && outcome.Success? ==>
      && r.state.messages == s.messages + [Turn(User, prompt), Turn(Assistant, outcome.value)]
      && r.feedback == ShowReply(outcome.value)
    ensures prompt != "" && s.chat.Some? && outcome.Failure? ==>
      && r.state == State(s.chat, s.messages + [Turn(User, prompt)])
      && r.feedback == ShowError(ErrorMessage(outcome.error))
    ensures prompt != "" && s.chat.None? ==>
      && r.state == State(None, s.messages + [Turn(User, prompt)])
      && r.feedback.ShowError?
  {
    if prompt == "" then Step(s, None, NoFeedback)
    else
      var shown := s.messages + [Turn(User, prompt)];
      match s.chat
      case None => Step(State(None, shown), None, ShowError(ErrorMessage(NoChatError)))
      case Some(c) =>
        var request := Request(prompt, MaxOutputTokens);
        match outcome
        case Success(reply) =>
          var exchange := [Turn(User, prompt), Turn(Assistant, reply)];
          Step(State(Some(Chat(c.model, c.history + exchange)), s.messages + exchange),
               Some(request), ShowReply(reply))
        case Failure(e) =>
          Step(State(s.chat, shown), Some(request), ShowError(ErrorMessage(e)))
  }

  /** A submission keeps the remote history equal to the completed exchanges
      of the transcript: a failed request leaves an unanswered user turn
      that the remote side never recorded. */
  lemma SubmitKeepsConsistent(s: State, prompt: string, outcome: Result<string, string>)
    requires Consistent(s)
    ensures Consistent(Submit(s, prompt, outcome).state)
  {
    if prompt != "" && s.chat.Some? {
      match outcome
      case Success(reply) =>
        AnsweredAfterExchange(s.messages, prompt, reply);
      case Failure(_) =>
        AnsweredAfterUserTurn(s.messages, prompt);
    }
  }

  /** Selecting "gemini-2.5-flash" on a fresh page and asking "2+2?", answered
      by "4", shows exactly that exchange. */
  lemma FirstExchange()
    ensures Submit(EnsureChat(Initial, "gemini-2.5-flash"), "2+2?", Success("4")).state.messages
      == [Turn(User, "2+2?"), Turn(Assistant, "4")]
  {
  }
}
