/** An optional value: here, the content of one streamed chunk (the API may
    send none) and the OPENAI_API_KEY environment variable (it may be unset). */
module Wrappers {
  datatype Option<T> = None | Some(value: T)
}
