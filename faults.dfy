/** The exceptions the chat handler catches and turns into an ERROR response. */
module Faults {
  datatype Fault =
      /** Raised by the generative-model call or its SDK; name and text are opaque. */
    | Raised(typeName: string, message: string)
    | ValueError(message: string)
    | TypeError(message: string)
    | AttributeError(message: string)
    | KeyError(key: string)

  /** `type(e).__name__` */
  function TypeName(f: Fault): string {
    match f
    case Raised(t, _) => t
    case ValueError(_) => "ValueError"
    case TypeError(_) => "TypeError"
    case AttributeError(_) => "AttributeError"
    case KeyError(_) => "KeyError"
  }

  /** `str(e)`; a KeyError prints the quoted key. */
  function Message(f: Fault): string {
    match f
    case Raised(_, m) => m
    case ValueError(m) => m
    case TypeError(m) => m
    case AttributeError(m) => m
    case KeyError(k) => "'" + k + "'"
  }

  /**
   * What the generative-model step produced: an exception raised while the
   * model, its chat session or its input was being set up, an exception from
   * the call itself, or the response text. `Text("")` stands for both an empty
   * text and a missing one.
   */
  datatype ModelReply =
    | SetupFailed(typeName: string, message: string)
    | Failed(typeName: string, message: string)
    | Text(raw: string)
}
