# Chat front-end session model

A Dafny model of the logic in `simplechatbox.py`, a single-page chat front-end
that sends user prompts to the hosted Gemini API. The page itself is UI code.
What this project models is the small amount of list logic and state
bookkeeping around the two remote calls:

- **Model catalog** (`Catalog`). The remote listing is an input of type
  `Option<seq<ModelRecord>>`, where `None` means the listing raised.
  `ListAvailableModels` keeps the records that advertise `generateContent`.
  It takes the text after the last `/` of each name. It puts the four
  preferred ids first, in preference order, and then every other capable id
  in API order. When the listing raised or offered nothing, it returns the
  hard-coded fallback list.
- **Session lifecycle** (`Session`). The state holds an optional remote chat,
  `Chat(model, history)`, and the user-visible transcript. `EnsureChat(s, m)`
  keeps the state when the chat is already bound to `m`. Otherwise it starts
  a new chat for `m` with an empty history and empties the transcript.
  `Clear` empties the transcript and restarts the chat for the same model.
- **Conversation step** (`Conversation`). `Submit` does nothing for an empty
  prompt. Otherwise it first appends the user turn. It then sends a request
  capped at 2048 output tokens. The outcome of the send is an input of type
  `Result<string, string>`. On success the reply is appended and shown; on
  failure an error message with the raw description and a hint is shown.
- **Transcript** (`Transcript`). `Answered` is the part of a transcript made
  of completed exchanges: each user turn immediately followed by its reply.
  The invariant `Session.Consistent` says that the remote chat history equals
  `Answered(messages)`. `EnsureChat` and `Clear` preserve it. `Submit`
  preserves it for every send that either returns reply text or fails inside
  `send_message` itself (see "## Left out" for a failure after that call).

The remote chat history is modelled as the client library's chat object keeps
it. A successful send appends the user turn and the reply. A failed send
leaves it unchanged. That library is not part of this model, so this
behaviour is an assumption, and `Consistent` depends on it.

## Model

| member | source | states |
|---|---|---|
| Catalog.Methods | simplechatbox.py:49 | a record with no method list, or a None one, reads as advertising no method; otherwise its own list is used |
| Catalog.Capable | simplechatbox.py:49-50 | a record is kept exactly when it has a method list containing "generateContent"; a missing or None list never qualifies |
| Catalog.LastSegment | simplechatbox.py:52 | the id taken from a name is never longer than the name; its exact text is stated by LastSegmentIsSlashFreeSuffix and LastSegmentUnique |
| Catalog.LastSegmentIsSlashFreeSuffix | simplechatbox.py:51-52 | the id taken from a name is its longest suffix without '/': the whole name when it has no '/', otherwise the text after the last '/' |
| Catalog.LastSegmentOfQualified | simplechatbox.py:51-52 | an API name of the form "models/<id>" is offered as exactly `<id>` |
| Catalog.LastSegmentUnique | simplechatbox.py:52 | any slash-free suffix that is the whole name or follows a '/' is the id taken, so the id is uniquely determined |
| Catalog.CapableIds | simplechatbox.py:47-52 | the loop collects at most one id per listed record |
| Catalog.CapableIdsAppend | simplechatbox.py:48-52 | collecting over two listings one after the other gives the ids of the first followed by those of the second, so API order is kept |
| Catalog.CapableIdsMultiplicity | simplechatbox.py:48-52 | each id is collected exactly as many times as there are capable records offering it, so duplicates in the listing are kept |
| Catalog.CapableIdsHead | simplechatbox.py:48-52 | the first id collected is the id of the first capable record |
| Catalog.CapableIdsOffers | simplechatbox.py:47-52 | an id is collected exactly when some listed record advertises generateContent (a missing or None method list counts as empty) and has that id after its last '/'; nothing is collected exactly when no record is capable |
| Catalog.PresentIn | simplechatbox.py:55 | the first part of the order holds exactly the preferred ids that the capable names contain, and there are at most as many as there are preferences |
| Catalog.NotIn | simplechatbox.py:55 | the second part holds exactly the non-preferred names, each as many times as the API listed it, and no preferred id |
| Catalog.Reorder | simplechatbox.py:53-55 | the reordered list holds the same ids as the capable names, and it is empty exactly when there are no capable names |
| Catalog.ListAvailableModels | simplechatbox.py:34-58 | the result is never empty; a listing that raised or offered no capable model gives the fallback list; otherwise an id is in the result exactly when some capable listed record offers it |
| Catalog.FallbackIsPrefs | simplechatbox.py:39-44 | the fallback list equals the preference list and repeats no id |
| Catalog.PresentInFollowsOrder | simplechatbox.py:54-55 | the preferred ids kept follow the order of the preference list strictly, so none of them is kept twice even when the API lists it twice |
| Catalog.NotInAppend | simplechatbox.py:55 | keeping only the non-preferred names distributes over concatenation |
| Catalog.NotInIdempotent | simplechatbox.py:55 | keeping only the non-preferred names a second time changes nothing |
| Catalog.NotInOfPreferred | simplechatbox.py:54-55 | a list of preferred ids has no non-preferred names |
| Catalog.PreferredFirst | simplechatbox.py:54-56 | in every offered list, each preferred id comes before every non-preferred id |
| Catalog.PreferredInOrder | simplechatbox.py:54-56 | in every offered list, the preferred ids appear in strictly increasing preference rank, so each appears at most once |
| Catalog.OthersKeepApiOrder | simplechatbox.py:47-56 | removing the preferred ids from the offered list leaves exactly the capable non-preferred names in API order, with their repetitions |
| Catalog.DefaultChoice | simplechatbox.py:54-58 | the head of the offered list is the best-ranked preferred id the listing offers; when it offers none, it is the id of the first capable record; when nothing usable was listed, it is the head of the fallback list |
| Catalog.DefaultModel | simplechatbox.py:77-79 | the model preselected in the selector is the head of the fallback list when nothing usable was listed; otherwise it is a capable listed id that ranks no lower than any offered preferred id, and when no preferred id is offered it is the id of the first capable record |
| Transcript.Answered | simplechatbox.py:130-147 | the completed exchanges of a transcript alternate user and assistant turns, start with a user turn and end with a reply, and are no longer than the transcript; a transcript that ends with an answered user turn keeps that pair as its last exchange |
| Transcript.AnsweredUsesTranscriptTurns | simplechatbox.py:130-147 | the completed exchanges use only turns of the transcript, each at most as often as it occurs there |
| Transcript.AnsweredAfterExchange | simplechatbox.py:130-147 | appending a user turn and its reply adds exactly that exchange and changes none of the earlier ones |
| Transcript.AnsweredAfterUserTurn | simplechatbox.py:130-149 | appending a user turn that gets no reply completes no exchange |
| Session.EnsureChat | simplechatbox.py:60-69 | afterwards the chat is bound to the requested model; if it already was, nothing changes; otherwise the chat history and the transcript are both empty |
| Session.EnsureChatIdempotent | simplechatbox.py:64 | ensuring the chat twice for the same model is the same as ensuring it once |
| Session.Clear | simplechatbox.py:85-89 | the transcript is empty whatever its length was; the bound model, or the absence of a chat, is unchanged; a remaining chat has an empty history |
| Session.ClearIsFreshSession | simplechatbox.py:85-89 | clearing a chat bound to m gives the same state as a fresh chat for m with an empty transcript, and clearing twice is clearing once |
| Session.SessionKeepsConsistent | simplechatbox.py:64-89 | the initial state, a model change and Clear all keep the remote history equal to the completed exchanges of the transcript |
| Conversation.ErrorMessage | simplechatbox.py:148-149 | the shown error is the fixed prefix, then the raw error description unchanged, then the fixed hint to switch models |
| Conversation.ErrorDetailRoundTrip | simplechatbox.py:149 | the raw error description can be recovered exactly from the shown error |
| Conversation.Submit | simplechatbox.py:128-149 | an empty prompt changes nothing; otherwise the transcript grows by exactly the user turn and the reply on success, and by exactly the user turn on failure, with the error shown; every request sent carries the prompt and a 2048-token cap; the bound model never changes |
| Conversation.SubmitKeepsConsistent | simplechatbox.py:130-149 | a submission keeps the remote history equal to the completed exchanges of the transcript, even when the send fails and leaves an unanswered user turn |
| Conversation.FirstExchange | simplechatbox.py:128-147 | selecting "gemini-2.5-flash" on a fresh page and asking "2+2?", answered by "4", leaves exactly that user turn and reply in the transcript |

## Left out

- Page configuration, sidebar widgets, CSS, title, chat bubbles, spinner, footer and `st.rerun` (simplechatbox.py:14-18, 74-84, 90-92, 100-117, 121-124, 131-136, 146, 154-155) are rendering only. The model selector is kept only as far as its default choice, `DefaultModel`.
- Loading the API key from `.env` and halting when it is missing (simplechatbox.py:23-29) is environment I/O.
- The gRPC log-silencing environment variables (simplechatbox.py:6-7) are process configuration.
- The client library calls (`list_models`, `GenerativeModel`, `start_chat`, `send_message`) are remote calls. Their results are inputs: the listing is an `Option` and the send outcome is a `Result`. Starting a chat is `Chat(model, [])`.
- The sampling temperature and its `float()` conversion (simplechatbox.py:81, 141) are a floating-point value passed through to the remote API, so `Request` carries only the prompt and the output cap.
- A listing that raises part-way through its iteration is treated like one that raises at once (`None`). The source discards partial results in both cases.
- Conversation.SubmitKeepsConsistent: the page can also take the error path after `send_message` has returned, when reading `response.text` raises (simplechatbox.py:145). The remote chat would then have recorded the exchange, but the transcript holds only the user turn. The send outcome here has two cases, reply or failure, so such a failure is modelled as a failed send that leaves the remote history unchanged, and `Consistent` is not promised for it.
- Conversation.Submit: when no chat exists, the source raises an attribute error inside the same handler and shows it. The model shows an error built from a fixed stand-in description, because the exact wording comes from the UI library. In the script this case cannot arise, since `ensure_chat` always runs before a prompt is handled.
