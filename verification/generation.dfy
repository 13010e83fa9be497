/** The boundary to the hosted generation service, seen from a view.
    The provider and the JSON decoder are outside the model: what they
    produced for one call is given as a `Reply`, and the view only ever sees
    the `Outcome` that the service function turns it into. */
module Generation {
  import opened Types

  /** What one awaited generation call yields to its caller: the decoded list
      (possibly empty), or a thrown error. */
  datatype Outcome<T> = Generated(items: seq<T>) | Failed

  /** What the provider call produced: it threw, or it answered with a
      response text (absent or present) whose decoding either gave a list or
      failed. */
  datatype Reply<T> = ProviderError | Answered(text: Option<string>, decoded: Option<seq<T>>)

  /** JavaScript truthiness of `response.text`: absent and empty are falsy. */
  predicate Truthy(text: Option<string>)
  {
    text.Some? && text.value != ""
  }

  /** The tail shared by the flashcard and quiz service functions: a falsy
      response text is a soft failure that yields the empty list, a decoding
      failure or a provider error is rethrown, and otherwise the decoded list
      is returned as it is. */
  function Receive<T>(reply: Reply<T>): (r: Outcome<T>)
    ensures r.Failed? <==> reply.ProviderError? || (Truthy(reply.text) && reply.decoded.None?)
    ensures reply.Answered? && !Truthy(reply.text) ==> r == Generated([])
    ensures r.Generated? && r.items != [] ==> reply.Answered? && reply.decoded == Some(r.items)
    ensures reply.Answered? && Truthy(reply.text) && reply.decoded.Some? ==> r == Generated(reply.decoded.value)
  {
    match reply
    case ProviderError => Failed
    case Answered(text, decoded) =>
      if !Truthy(text) then Generated([])
      else if decoded.Some? then Generated(decoded.value)
      else Failed
  }

  /** A well-decoded non-empty answer reaches the caller unchanged, in the
      provider's order. */
  lemma ReceiveKeepsDecodedList<T>(text: string, items: seq<T>)
    requires text != ""
    ensures Receive(Answered(Some(text), Some(items))) == Generated(items)
  {
  }
}
