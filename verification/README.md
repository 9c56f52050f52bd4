# Chat panel message list and compose form, in Dafny

A model of the logic inside the `ChatBox` React component of a Next.js chat
application built on the Ably chat SDK. It covers four pieces of logic:

- **The inbound-message listener** (`MessageList.Receive`). A delivered message
  already matched by `isSameAs` leaves the list unchanged. Any other message is
  spliced in front of the first shown message that is `after` it, or appended
  when there is none. The searches are `Array.prototype.some` and
  `Array.prototype.findIndex` (`ArraySearch`). Folding the listener over any
  arrival sequence (`MessageHistory`) keeps the list sorted and free of
  duplicates. Under identity and a strict total order, the shown order does not
  depend on the arrival order.
- **The compose form** (`Compose`). It models the draft, the submit button's
  `disabled` flag (set when the trimmed draft is empty), the send routine, and
  the form-submit and key-press handlers.
- **The author label** (`Author`). The label is the client id, or "匿名" when
  the id is absent or empty. A message gets the administrator styling exactly
  when its id is `taiga3537`.
- **The component state** (`ChatBox`). This is the draft plus the message list,
  changed by typing, deliveries and submissions. Each submission records
  whether the SDK's send function is available at that moment. The list is
  exactly the listener's fold over the delivered messages, and the list
  invariant holds over any event sequence.

The SDK's message type is the type parameter `M`. Its `isSameAs` and `after`
methods are uninterpreted function parameters `sameAs` and `after`. Both are
applied with the list element as receiver and the incoming message as argument.
Each lemma states, in its `requires`, only the algebraic facts it needs:
reflexivity or symmetry of `isSameAs`, or that `isSameAs` is identity (for the
exact-contents and order-independence lemmas), and irreflexivity,
transitivity or connectedness of `after`.

Two facts about the code shape the compose model:

- Neither `handleFormSubmission` nor `handleKeyPress` checks the draft. Both
  pass the raw, untrimmed draft to `sendChatMessage`. The only emptiness guard
  is the submit button's `disabled` flag, so the button cannot submit a blank
  draft (`ChatBox.BlankDraftButtonNeverSends`), but Enter still sends one
  (`Compose.BlankDraftSentByEnter`).
- `clientId || "匿名"` also falls back on an empty client id, not only on an
  absent one.

## Model

| member | source | states |
|---|---|---|
| ArraySearch.AnyMatch | components/ChatBox.jsx:17 | `some` is true exactly when some existing message satisfies the predicate |
| ArraySearch.FindIndex | components/ChatBox.jsx:21 | `findIndex` gives -1 exactly when no element satisfies the predicate; otherwise it gives an index whose element satisfies it and no earlier element does |
| MessageList.Receive | components/ChatBox.jsx:16-30 | a known message leaves the list unchanged; otherwise the result is the old list with the message spliced in at its insertion point (no earlier element is after it, the element at that point is), one longer and containing it |
| MessageList.InsertionPointUnique | components/ChatBox.jsx:21-28 | the position where a new message belongs is unique |
| MessageList.ReceiveRemoveInserted | components/ChatBox.jsx:23-28 | the new message sits at its insertion point, and removing it gives back the previous list, so the other messages keep their order |
| MessageList.ReceiveMembers | components/ChatBox.jsx:17-29 | the messages shown afterwards are the previous ones plus the new one exactly when it was not known |
| MessageList.ReceiveIdempotent | components/ChatBox.jsx:17-29 | delivering the same message twice gives the same list as delivering it once, when the message is the same as itself |
| MessageList.ReceivePreservesSorted | components/ChatBox.jsx:21-28 | if `after` is irreflexive and transitive, a sorted list stays sorted |
| MessageList.ReceivePreservesNoDuplicates | components/ChatBox.jsx:17-29 | if `isSameAs` is symmetric, a duplicate-free list stays duplicate-free |
| MessageHistory.DeliverAll | components/ChatBox.jsx:14-30 | the list after any arrival sequence grows by at most one message per delivery and never shrinks |
| MessageHistory.DeliverAllSorted | components/ChatBox.jsx:14-30 | whatever the arrival order, the list stays sorted |
| MessageHistory.DeliverAllNoDuplicates | components/ChatBox.jsx:14-30 | however often messages are redelivered, the list has no duplicates |
| MessageHistory.DeliverAllCovers | components/ChatBox.jsx:14-30 | no message is lost, every shown message was shown before or delivered, and every delivered message is matched by a shown one |
| MessageHistory.DeliverAllContents | components/ChatBox.jsx:14-30 | when `isSameAs` is identity, the shown messages are exactly the old ones plus the delivered ones |
| MessageHistory.SortedUnique | components/ChatBox.jsx:21-28 | two repetition-free lists that are sorted by a connected `after` and hold the same messages are equal |
| MessageHistory.DeliveryOrderIrrelevant | components/ChatBox.jsx:14-30 | from an empty list, any two arrival orders of the same messages give the same shown list (identity `isSameAs`, strict total order `after`) |
| MessageHistory.ArrivalScenario | components/ChatBox.jsx:16-30 | serials 1, 3, 2 arriving in that order are shown as 1, 2, 3 |
| Compose.WhitespaceIsTrimSet | components/ChatBox.jsx:11 | the characters `trim` removes are exactly ECMAScript's WhiteSpace and LineTerminator code points |
| Compose.TrimStart | components/ChatBox.jsx:11 | the result is a suffix of the text that does not start with whitespace, and everything dropped is whitespace |
| Compose.TrimEnd | components/ChatBox.jsx:11 | the result is a prefix of the text that does not end with whitespace, and everything dropped is whitespace |
| Compose.Trim | components/ChatBox.jsx:11 | `trim` returns a contiguous slice cut only at whitespace, with no whitespace at either end |
| Compose.TrimEmptyIffBlank | components/ChatBox.jsx:11 | the trimmed draft is empty exactly when the draft is all whitespace |
| Compose.SubmitDisabled | components/ChatBox.jsx:133 | the send button is disabled exactly when the draft is all whitespace |
| Compose.SendChatMessage | components/ChatBox.jsx:34-45 | with no send function nothing happens; otherwise `send` gets the given text; the draft is cleared only by a resolved send and kept after a rejection, which is caught |
| Compose.HandleFormSubmission | components/ChatBox.jsx:47-50 | the form submit always prevents the default action and sends the draft unmodified |
| Compose.HandleKeyPress | components/ChatBox.jsx:52-58 | a key submits, and prevents the default action, exactly when it is Enter without Shift, and then it behaves like the form submit |
| Compose.SubmitKeepsOrClearsDraft | components/ChatBox.jsx:34-58 | after any submission the draft is either unchanged or empty, and it is empty exactly after a resolved send (or if it was already empty) |
| Compose.BlankDraftSentByEnter | components/ChatBox.jsx:52-58 | a blank draft, for which the button is disabled, still reaches `send` untrimmed by Enter |
| Compose.RetryAfterRejection | components/ChatBox.jsx:38-44 | after a rejected send the draft is kept, so submitting again sends the same text |
| Author.AuthorLabel | components/ChatBox.jsx:65 | the label is never empty; it is the client id when that is present and non-empty, and the placeholder otherwise |
| Author.IsAdmin | components/ChatBox.jsx:68 | a message gets the administrator styling exactly when its client id is `taiga3537` |
| Author.LabelIsAdminExactly | components/ChatBox.jsx:65-68 | the label equals `taiga3537` exactly when the client id does; the placeholder never does |
| ChatBox.Mount | components/ChatBox.jsx:9-11 | the panel mounts with no messages and with the send button disabled |
| ChatBox.Step | components/ChatBox.jsx:9-135 | only deliveries change the list; deliveries leave the draft alone; typing sets the draft; a submission empties the draft exactly when it sends and the send resolves, and otherwise keeps it; `send` receives the current raw draft, exactly on an Enter without Shift or a click of the enabled button while a send function exists |
| ChatBox.Run | components/ChatBox.jsx:9-58 | a sequence of events with no delivery leaves the list unchanged |
| ChatBox.RunDeliversInbound | components/ChatBox.jsx:13-58 | after any events the list is exactly what the listener makes of the messages delivered among them, in arrival order |
| ChatBox.RunOrderIrrelevant | components/ChatBox.jsx:13-58 | from any states with an empty list, as at mount, two runs delivering the same messages in any order and interleaving show the same list (identity `isSameAs`, strict total order `after`) |
| ChatBox.RunPreservesInvariant | components/ChatBox.jsx:9-58 | over any sequence of events the list stays sorted and duplicate-free |
| ChatBox.MountedRunInvariant | components/ChatBox.jsx:9-58 | starting from the mounted panel (empty draft, empty list), any sequence of events leaves the list sorted and duplicate-free |
| ChatBox.BlankDraftButtonNeverSends | components/ChatBox.jsx:124-133 | clicking the submit button on a blank draft sends nothing and changes nothing |
| ChatBox.RejectedSendKeepsState | components/ChatBox.jsx:38-44 | a rejected send changes neither the draft nor the list |
| ChatBox.ResolvedSendClearsDraft | components/ChatBox.jsx:38-41 | a resolved send by Enter, or by the enabled button, clears the draft and hands `send` the old draft, without adding to the list itself |

## Left out

- Rendering is left out because it is presentation only. This covers the JSX, inline styles, CSS module classes, the OFFICIAL badge markup and the React `key` (`serial ?? index`). Only the label text and the administrator test are modelled.
- `scrollIntoView` and `focus()` are left out because they are DOM side effects.
- The `useMessages` hook and the SDK's own `isSameAs`/`after` are left out because they are foreign code. They are parameters here, and their properties are hypotheses of individual lemmas.
- Async interleaving is left out because it is concurrency. Each send is one atomic step whose outcome the environment picks. The real code can clear a draft that changed while a send was pending; this model cannot.
- `console.error` logging of a rejected send is left out because it is I/O. The rejection is absorbed, which is all the caller sees.
- The whitespace set of `trim` is written out from ECMAScript's WhiteSpace and LineTerminator productions for the Unicode version in use. Later Unicode additions to the space separators are not tracked.
- A form submit not caused by the submit button, such as a script calling `requestSubmit()`, is left out. The component never does this, and its form has no single-line input that could submit implicitly.
