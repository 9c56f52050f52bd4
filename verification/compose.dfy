/**
 The compose form of the chat panel: the draft text, the submit button's
 enabled state, and the two ways of submitting (the form's submit event and a
 key press). The asynchronous send is modelled as an atomic step whose outcome,
 `Resolved` or `Rejected`, is chosen by the environment.
 */
module Compose {
  import opened Wrappers

  // ---------------------------------------------------------------------------
  // String.prototype.trim

  /** ECMAScript's LineTerminator production: LF, CR, line separator, paragraph separator. */
  const LineTerminators: set<char> := {'\n', '\r', '\U{2028}', '\U{2029}'}

  /** The Unicode space separators (general category Zs). */
  const SpaceSeparators: set<char> :=
    {' ', '\U{00A0}', '\U{1680}',
     '\U{2000}', '\U{2001}', '\U{2002}', '\U{2003}', '\U{2004}', '\U{2005}',
     '\U{2006}', '\U{2007}', '\U{2008}', '\U{2009}', '\U{200A}',
     '\U{202F}', '\U{205F}', '\U{3000}'}

  /** ECMAScript's WhiteSpace production: tab, vertical tab, form feed, zero-width no-break space and the space separators. */
  const WhiteSpace: set<char> := {'\t', '\U{000B}', '\U{000C}', '\U{FEFF}'} + SpaceSeparators

  /** Whether `trim` removes `c`, decided by code-point ranges. */
  predicate IsWhitespace(c: char) {
    || c == '\t' || c == '\U{000B}' || c == '\U{000C}' || c == ' '
    || c == '\U{00A0}' || c == '\U{FEFF}' || c == '\U{1680}'
    || ('\U{2000}' <= c <= '\U{200A}')
    || c == '\U{202F}' || c == '\U{205F}' || c == '\U{3000}'
    || c == '\n' || c == '\r' || c == '\U{2028}' || c == '\U{2029}'
  }

  /** The range test picks out exactly the WhiteSpace and LineTerminator code points. */
  lemma WhitespaceIsTrimSet(c: char)
    ensures IsWhitespace(c) <==> c in WhiteSpace || c in LineTerminators
  {
  }

  ghost predicate AllWhitespace(s: string) {
    forall i :: 0 <= i < |s| ==> IsWhitespace(s[i])
  }

  /** Drops leading whitespace: the result is a suffix not starting with whitespace. */
  function TrimStart(s: string): (r: string)
    ensures |r| <= |s| && r == s[|s| - |r|..]
    ensures forall k :: 0 <= k < |s| - |r| ==> IsWhitespace(s[k])
    ensures |r| > 0 ==> !IsWhitespace(r[0])
  {
    if |s| > 0 && IsWhitespace(s[0]) then TrimStart(s[1..]) else s
  }

  /** Drops trailing whitespace: the result is a prefix not ending with whitespace. */
  function TrimEnd(s: string): (r: string)
    ensures |r| <= |s| && r == s[..|r|]
    ensures forall k :: |r| <= k < |s| ==> IsWhitespace(s[k])
    ensures |r| > 0 ==> !IsWhitespace(r[|r| - 1])
  {
    if |s| > 0 && IsWhitespace(s[|s| - 1]) then TrimEnd(s[..|s| - 1]) else s
  }

  /**
   A prefix `r` of a suffix `t` of `s` is a slice of `s`, cut only at
   whitespace when whatever was cut off on either side is whitespace, and it
   starts with what `t` starts with.
   */
  lemma SliceOfSuffix(s: string, t: string, r: string)
    requires |t| <= |s| && t == s[|s| - |t|..]
    requires |r| <= |t| && r == t[..|r|]
    requires forall k :: 0 <= k < |s| - |t| ==> IsWhitespace(s[k])
    requires forall k :: |r| <= k < |t| ==> IsWhitespace(t[k])
    requires |t| > 0 ==> !IsWhitespace(t[0])
    ensures exists i, j :: && 0 <= i <= j <= |s| && r == s[i..j]
                           && (forall k :: 0 <= k < i ==> IsWhitespace(s[k]))
                           && (forall k :: j <= k < |s| ==> IsWhitespace(s[k]))
    ensures |r| > 0 ==> !IsWhitespace(r[0])
  {
    var i := |s| - |t|;
    var j := i + |r|;
    forall k | j <= k < |s|
      ensures IsWhitespace(s[k])
    {
      assert s[k] == t[k - i];
    }
    assert r == s[i..j];
    if |r| > 0 {
      assert r[0] == t[0];
    }
  }

  /** `s.trim()`: a contiguous piece of `s`, cut only at whitespace, with no whitespace at either end. */
  function Trim(s: string): (r: string)
    ensures exists i, j :: && 0 <= i <= j <= |s| && r == s[i..j]
                           && (forall k :: 0 <= k < i ==> IsWhitespace(s[k]))
                           && (forall k :: j <= k < |s| ==> IsWhitespace(s[k]))
    ensures |r| > 0 ==> !IsWhitespace(r[0]) && !IsWhitespace(r[|r| - 1])
  {
    var t := TrimStart(s);
    var r := TrimEnd(t);
    SliceOfSuffix(s, t, r);
    r
  }

  /** The trimmed text is empty exactly when the text is nothing but whitespace. */
  lemma {:induction false} TrimEmptyIffBlank(s: string)
    ensures |Trim(s)| == 0 <==> AllWhitespace(s)
  {
  }

  /** The submit button is disabled exactly when the draft is blank. */
  function SubmitDisabled(draft: string): (disabled: bool)
    ensures disabled <==> AllWhitespace(draft)
  {
    TrimEmptyIffBlank(draft);
    |Trim(draft)| == 0
  }

  // ---------------------------------------------------------------------------
  // Sending

  /** How the SDK's `send` promise settles. */
  datatype SendResult = Resolved | Rejected

  /**
   The effect of one call of the send routine: the draft afterwards, and the
   text handed to the SDK's `send`, if it was called at all. The routine catches
   a rejection, so a call never ends in an error.
   */
  datatype Submission = Submission(draft: string, sent: Option<string>)

  /**
   The send routine with `text` while the draft is `draft`. `canSend` says
   whether the SDK has supplied its send function yet.
   */
  function SendChatMessage(draft: string, text: string, canSend: bool, result: SendResult): (s: Submission)
    ensures !canSend ==> s == Submission(draft, None)
    ensures canSend ==> s.sent == Some(text)
    ensures s.draft == (if canSend && result == Resolved then "" else draft)
  {
    if !canSend then Submission(draft, None)
    else match result
      case Resolved => Submission("", Some(text))
      case Rejected => Submission(draft, Some(text))
  }

  /** A key press: the key's name and whether Shift was held. */
  datatype KeyEvent = KeyEvent(key: string, shiftKey: bool)

  /** Whether a handler cancelled the browser's default action, and what the submission did. */
  datatype Handled = Handled(defaultPrevented: bool, submission: Submission)

  /** The form's submit handler: always cancels the page reload and sends the draft as it is. */
  function HandleFormSubmission(draft: string, canSend: bool, result: SendResult): (h: Handled)
    ensures h.defaultPrevented
    ensures canSend ==> h.submission.sent == Some(draft)
    ensures !canSend ==> h.submission == Submission(draft, None)
  {
    Handled(true, SendChatMessage(draft, draft, canSend, result))
  }

  /** The text area's key handler: only Enter without Shift submits; anything else is left to the browser. */
  function HandleKeyPress(draft: string, ev: KeyEvent, canSend: bool, result: SendResult): (h: Handled)
    ensures h.defaultPrevented <==> ev.key == "Enter" && !ev.shiftKey
    ensures !h.defaultPrevented ==> h.submission == Submission(draft, None)
    ensures h.defaultPrevented ==> h.submission == HandleFormSubmission(draft, canSend, result).submission
  {
    if ev.key != "Enter" || ev.shiftKey then Handled(false, Submission(draft, None))
    else Handled(true, SendChatMessage(draft, draft, canSend, result))
  }

  // ---------------------------------------------------------------------------
  // Properties of submission

  /**
   Whatever the trigger and outcome, the draft afterwards is either cleared
   (after a send that resolved) or exactly as before; it is never trimmed or
   otherwise rewritten.
   */
  lemma SubmitKeepsOrClearsDraft(draft: string, ev: KeyEvent, canSend: bool, result: SendResult)
    ensures HandleKeyPress(draft, ev, canSend, result).submission.draft in {draft, ""}
    ensures HandleFormSubmission(draft, canSend, result).submission.draft in {draft, ""}
    ensures (HandleFormSubmission(draft, canSend, result).submission.draft == "")
            <==> (draft == "" || (canSend && result == Resolved))
  {
  }

  /**
   Neither submit path looks at the draft's content: a blank draft, for which
   the submit button is disabled, still reaches `send` by Enter, untrimmed.
   */
  lemma BlankDraftSentByEnter(draft: string)
    requires SubmitDisabled(draft)
    ensures HandleKeyPress(draft, KeyEvent("Enter", false), true, Rejected).submission.sent == Some(draft)
    ensures HandleKeyPress(draft, KeyEvent("Enter", false), true, Resolved).submission.sent == Some(draft)
  {
  }

  /** A rejected send can be retried as is: submitting again hands `send` the same text. */
  lemma RetryAfterRejection(draft: string)
    ensures var first := HandleFormSubmission(draft, true, Rejected).submission;
            first.draft == draft
            && HandleFormSubmission(first.draft, true, Resolved).submission.sent == first.sent
  {
  }
}
