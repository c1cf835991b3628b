/**
 * The API token the upload action and the tool window need before anything
 * else: a blank stored token makes them ask for one, and a blank or
 * cancelled answer ends them with an error dialog.
 */
module ApiToken {
  import opened Base
  import opened Text

  /** The dialog is shown only when the stored token is null or blank. */
  predicate Prompts(stored: Option<string>)
  {
    stored.None? || IsBlank(stored.value)
  }

  /**
   * The token the action goes on with: the stored one when it is not blank,
   * else the text entered in the dialog when that is not blank; none means
   * the action stops. The entered text is taken as it is, untrimmed.
   */
  function ResolveToken(stored: Option<string>, input: Option<string>): (r: Option<string>)
    ensures r.Some? ==> !IsBlank(r.value)
    ensures !Prompts(stored) ==> r == stored
    ensures Prompts(stored) ==> (r.Some? <==> input.Some? && !IsBlank(input.value))
    ensures Prompts(stored) && r.Some? ==> r == input
  {
    if !Prompts(stored) then stored
    else if input.Some? && !IsBlank(input.value) then input
    else None
  }

  /** Once a token has been resolved and stored, the next action does not ask again and uses it. */
  lemma ResolveTokenStable(stored: Option<string>, input: Option<string>, later: Option<string>)
    requires ResolveToken(stored, input).Some?
    ensures !Prompts(ResolveToken(stored, input))
    ensures ResolveToken(ResolveToken(stored, input), later) == ResolveToken(stored, input)
  {
  }
}
