/**
 The chat panel as a whole: its two pieces of state (the draft and the message
 list) and the events that change them. Typing edits the draft, the SDK's
 listener delivers messages, and the submit button and the key handler submit.
 A message the user sends shows up only when the SDK echoes it back through the
 listener.
 */
module ChatBox {
  import opened Wrappers
  import opened MessageList
  import opened MessageHistory
  import opened Compose

  datatype State<M> = State(draft: string, messages: seq<M>)

  /** The state when the panel mounts: an empty draft and no messages. */
  function Mount<M>(): (s: State<M>)
    ensures |s.messages| == 0
    ensures SubmitDisabled(s.draft)
  {
    State("", [])
  }

  /**
   What can happen to the panel. A submission carries whether the SDK's send
   function is available at that moment and how the send settles.

   The form holds only a text area and a submit button, so `onSubmit` fires only
   through that button, and only while it is enabled: `ButtonSubmit` is a click
   that the browser turns into a submit event when the button is not disabled.
   */
  datatype Event<M> =
    | Typed(text: string)
    | Inbound(message: M)
    | KeyPress(ev: KeyEvent, canSend: bool, result: SendResult)
    | ButtonSubmit(canSend: bool, result: SendResult)

  /** The state after an event, and the text handed to the SDK's `send` during it, if any. */
  datatype Stepped<M> = Stepped(state: State<M>, sent: Option<string>)

  function Step<M>(s: State<M>, e: Event<M>, sameAs: (M, M) -> bool, after: (M, M) -> bool): (r: Stepped<M>)
    ensures !e.Inbound? ==> r.state.messages == s.messages
    ensures e.Inbound? ==> r.state.draft == s.draft
    ensures e.Typed? ==> r.state.draft == e.text
    ensures r.sent.Some? ==> r.sent == Some(s.draft)
    ensures e.KeyPress? || e.ButtonSubmit? ==>
              r.state.draft == (if r.sent.Some? && e.result == Resolved then "" else s.draft)
    ensures r.sent.Some? <==>
              || (e.KeyPress? && e.canSend && e.ev.key == "Enter" && !e.ev.shiftKey)
              || (e.ButtonSubmit? && e.canSend && !SubmitDisabled(s.draft))
  {
    match e
    case Typed(text) => Stepped(State(text, s.messages), None)
    case Inbound(m) => Stepped(State(s.draft, Receive(s.messages, m, sameAs, after)), None)
    case KeyPress(ev, canSend, result) =>
      var h := HandleKeyPress(s.draft, ev, canSend, result);
      Stepped(State(h.submission.draft, s.messages), h.submission.sent)
    case ButtonSubmit(canSend, result) =>
      if SubmitDisabled(s.draft) then Stepped(s, None)
      else
        var h := HandleFormSubmission(s.draft, canSend, result);
        Stepped(State(h.submission.draft, s.messages), h.submission.sent)
  }

  /** The state after a sequence of events. */
  function Run<M>(s: State<M>, events: seq<Event<M>>, sameAs: (M, M) -> bool, after: (M, M) -> bool): (r: State<M>)
    ensures (forall i :: 0 <= i < |events| ==> !events[i].Inbound?) ==> r.messages == s.messages
    decreases |events|
  {
    if |events| == 0 then s
    else Run(Step(s, events[0], sameAs, after).state, events[1..], sameAs, after)
  }

  /** The messages the SDK delivered during `events`, in arrival order. */
  function InboundMessages<M>(events: seq<Event<M>>): seq<M>
    decreases |events|
  {
    if |events| == 0 then []
    else if events[0].Inbound? then [events[0].message] + InboundMessages(events[1..])
    else InboundMessages(events[1..])
  }

  /**
   Typing and submitting never touch the list: after any events, the list is
   what the listener alone makes of the messages delivered among them.
   */
  lemma {:induction false} RunDeliversInbound<M>(s: State<M>, events: seq<Event<M>>,
                                                sameAs: (M, M) -> bool, after: (M, M) -> bool)
    ensures Run(s, events, sameAs, after).messages == DeliverAll(s.messages, InboundMessages(events), sameAs, after)
    decreases |events|
  {
    if |events| > 0 {
      var e := events[0];
      var s' := Step(s, e, sameAs, after).state;
      var rest := InboundMessages(events[1..]);
      RunDeliversInbound(s', events[1..], sameAs, after);
      if e.Inbound? {
        assert InboundMessages(events) == [e.message] + rest;
        assert ([e.message] + rest)[0] == e.message;
        assert ([e.message] + rest)[1..] == rest;
      }
    }
  }

  /**
   Starting from an empty list, as at mount, two runs in which the same messages
   arrive, in whatever order and interleaved with whatever typing and
   submitting, show the same list, provided `isSameAs` is identity and `after`
   a strict total order.
   */
  lemma RunOrderIrrelevant<M(!new)>(s: State<M>, t: State<M>, xs: seq<Event<M>>, ys: seq<Event<M>>,
                                    sameAs: (M, M) -> bool, after: (M, M) -> bool)
    requires |s.messages| == 0 && |t.messages| == 0
    requires SameAsIsIdentity(sameAs) && Chronological(after)
    requires forall m :: m in InboundMessages(xs) <==> m in InboundMessages(ys)
    ensures Run(s, xs, sameAs, after).messages == Run(t, ys, sameAs, after).messages
  {
    RunDeliversInbound(s, xs, sameAs, after);
    RunDeliversInbound(t, ys, sameAs, after);
    assert s.messages == [] && t.messages == [];
    DeliveryOrderIrrelevant(InboundMessages(xs), InboundMessages(ys), sameAs, after);
  }

  /** The list is ordered and free of duplicates. */
  ghost predicate Invariant<M>(s: State<M>, sameAs: (M, M) -> bool, after: (M, M) -> bool) {
    Sorted(s.messages, after) && NoDuplicates(s.messages, sameAs)
  }

  /**
   Whatever the user types or submits and whatever the SDK delivers, the list
   stays ordered and free of duplicates, provided `after` is a strict order and
   `isSameAs` is symmetric.
   */
  lemma {:induction false} RunPreservesInvariant<M(!new)>(s: State<M>, events: seq<Event<M>>,
                                                          sameAs: (M, M) -> bool, after: (M, M) -> bool)
    requires NeverAfterItself(after) && AfterChains(after) && SameAsSymmetric(sameAs)
    requires Invariant(s, sameAs, after)
    ensures Invariant(Run(s, events, sameAs, after), sameAs, after)
    decreases |events|
  {
    if |events| > 0 {
      var e := events[0];
      if e.Inbound? {
        ReceivePreservesSorted(s.messages, e.message, sameAs, after);
        ReceivePreservesNoDuplicates(s.messages, e.message, sameAs, after);
      }
      RunPreservesInvariant(Step(s, e, sameAs, after).state, events[1..], sameAs, after);
    }
  }

  /**
   From mount onwards, whatever happens, the panel shows an ordered list
   without duplicates.
   */
  lemma MountedRunInvariant<M(!new)>(events: seq<Event<M>>, sameAs: (M, M) -> bool, after: (M, M) -> bool)
    requires NeverAfterItself(after) && AfterChains(after) && SameAsSymmetric(sameAs)
    ensures Sorted(Run(Mount(), events, sameAs, after).messages, after)
    ensures NoDuplicates(Run(Mount(), events, sameAs, after).messages, sameAs)
  {
    RunPreservesInvariant(Mount(), events, sameAs, after);
  }

  /** The disabled button is the one emptiness guard: clicking it on a blank draft sends nothing and changes nothing. */
  lemma BlankDraftButtonNeverSends<M>(s: State<M>, canSend: bool, result: SendResult,
                                     sameAs: (M, M) -> bool, after: (M, M) -> bool)
    requires AllWhitespace(s.draft)
    ensures Step(s, ButtonSubmit(canSend, result), sameAs, after) == Stepped(s, None)
  {
  }

  /** A failed send leaves the draft as typed and adds nothing to the list. */
  lemma RejectedSendKeepsState<M>(s: State<M>, canSend: bool, sameAs: (M, M) -> bool, after: (M, M) -> bool)
    ensures Step(s, ButtonSubmit(canSend, Rejected), sameAs, after).state == s
    ensures Step(s, KeyPress(KeyEvent("Enter", false), canSend, Rejected), sameAs, after).state == s
  {
  }

  /**
   A resolved send clears the draft and, by itself, adds nothing to the list:
   always by Enter, and by the button whenever it is enabled.
   */
  lemma ResolvedSendClearsDraft<M>(s: State<M>, sameAs: (M, M) -> bool, after: (M, M) -> bool)
    ensures Step(s, KeyPress(KeyEvent("Enter", false), true, Resolved), sameAs, after)
              == Stepped(State("", s.messages), Some(s.draft))
    ensures !AllWhitespace(s.draft) ==>
              Step(s, ButtonSubmit(true, Resolved), sameAs, after) == Stepped(State("", s.messages), Some(s.draft))
  {
  }
}
