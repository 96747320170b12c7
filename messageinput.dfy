/** The link generator of components/MessageInput.tsx: the form's state
    fields, the validation `handleGenerate` applies before encoding, and the
    word count shown under the text box. */
module MessageInput {
  import opened Wrappers
  import JsText
  import UrlEncoder

  const EMPTY_ERROR := "Please enter a message"
  const TOO_SHORT_ERROR := "Message should have at least 3 words"
  const MIN_WORDS := 3

  /** The count under the text box: 0 for a blank message, otherwise the
      number of words of the trimmed message, which is the number of maximal
      runs of non-white-space code points of the message. */
  function DisplayedWordCount(message: string): (n: nat)
    ensures n == 0 <==> JsText.AllSpace(message)
    ensures n > 0 ==> n == |JsText.Words(message)| && forall k :: 0 <= k < n ==> JsText.Words(message)[k] != ""
    ensures n == JsText.WordRuns(message)
  {
    JsText.WordsCountsWordRuns(message);
    if JsText.Trim(message) != "" then |JsText.Words(message)| else 0
  }

  /** The trimmed text of a non-blank message encodes, and its token decodes
      back to it. */
  lemma TrimmedRoundTrip(message: string)
    requires !JsText.AllSpace(message)
    ensures var trimmed := JsText.Trim(message);
      && UrlEncoder.EncodeMessage(trimmed).Success?
      && UrlEncoder.Decoded(UrlEncoder.EncodeMessage(trimmed).value) == Some(trimmed)
  {
    var trimmed := JsText.Trim(message);
    assert !JsText.AllSpace(trimmed) by {
      assert !JsText.IsSpace(trimmed[0]);
    }
    UrlEncoder.RoundTrip(trimmed);
  }

  /** What `handleGenerate` produces for a message: the error it shows for a
      blank message or one of fewer than three words, otherwise the token
      `encodeMessage` gives the trimmed message. */
  function Generate(message: string): Result<string, string> {
    var trimmed := JsText.Trim(message);
    if trimmed == "" then Failure(EMPTY_ERROR)
    else if |JsText.Words(message)| < MIN_WORDS then Failure(TOO_SHORT_ERROR)
    else
      // A trimmed non-blank message always encodes, so the source's catch
      // branch ("Failed to generate link. Please try again.") is never taken.
      assert !JsText.IsSpace(trimmed[0]);
      Success(UrlEncoder.EncodeMessage(trimmed).value)
  }

  /** The errors come in the source's order; a message is accepted exactly
      when it has at least three words, and then its link token is
      `encodeMessage` of the trimmed message, path-safe, and decodes back to
      the trimmed message. */
  lemma GenerateSpec(message: string)
    ensures var r := Generate(message);
      && (JsText.AllSpace(message) ==> r == Failure(EMPTY_ERROR))
      && (!JsText.AllSpace(message) && |JsText.Words(message)| < MIN_WORDS ==> r == Failure(TOO_SHORT_ERROR))
      && (r.Success? <==> !JsText.AllSpace(message) && |JsText.Words(message)| >= MIN_WORDS)
      && (r.Success? <==> JsText.WordRuns(message) >= MIN_WORDS)
      && (r.Success? ==> UrlEncoder.EncodeMessage(JsText.Trim(message)) == Success(r.value))
      && (r.Success? ==> r.value != "" && forall i :: 0 <= i < |r.value| ==> UrlEncoder.IsUrlSafeChar(r.value[i]))
      && (r.Success? ==> UrlEncoder.Decoded(r.value) == Some(JsText.Trim(message)))
  {
    JsText.WordsCountsWordRuns(message);
    if !JsText.AllSpace(message) {
      TrimmedRoundTrip(message);
    }
  }

  /** The form. `origin` is `window.location.origin` (the empty string when
      there is no window). */
  class Form {
    const origin: string
    var message: string
    var generatedLink: string
    var copied: bool
    var error: string

    constructor(origin: string)
      ensures this.origin == origin
      ensures message == "" && generatedLink == "" && !copied && error == ""
    {
      this.origin := origin;
      message := "";
      generatedLink := "";
      copied := false;
      error := "";
    }

    /** The text box's `onChange`. */
    method Edit(text: string)
      modifies this
      ensures message == text
      ensures generatedLink == old(generatedLink) && copied == old(copied) && error == old(error)
    {
      message := text;
    }

    /** `handleGenerate`: clear the error and the copied flag, then either
        show the error of `Generate` or set the link to the origin, a slash
        and the token. */
    method HandleGenerate()
      modifies this
      ensures message == old(message) && !copied
      ensures Generate(message).Failure? ==>
        error == Generate(message).error && generatedLink == old(generatedLink)
      ensures Generate(message).Success? ==>
        error == "" && generatedLink == origin + "/" + Generate(message).value
    {
      error := "";
      copied := false;
      var outcome := Generate(message);
      if outcome.Failure? {
        error := outcome.error;
        return;
      }
      generatedLink := origin + "/" + outcome.value;
    }

    /** `handleKeyPress`: Enter without Shift generates the link; any other
        key changes nothing. */
    method HandleKeyPress(key: string, shiftKey: bool)
      modifies this
      ensures key == "Enter" && !shiftKey ==> !copied && message == old(message)
      ensures key == "Enter" && !shiftKey && Generate(message).Failure? ==>
        error == Generate(message).error && generatedLink == old(generatedLink)
      ensures key == "Enter" && !shiftKey && Generate(message).Success? ==>
        error == "" && generatedLink == origin + "/" + Generate(message).value
      ensures !(key == "Enter" && !shiftKey) ==>
        message == old(message) && generatedLink == old(generatedLink) && copied == old(copied) && error == old(error)
    {
      if key == "Enter" && !shiftKey {
        HandleGenerate();
      }
    }
  }
}
