/** Option and Result, and the exceptions the library can raise while encoding. */
module Wrappers {
  datatype Option<T> = None | Some(value: T)

  /** The .NET exceptions an encoder can throw, named after where they arise. */
  datatype Error =
    | PhoneNumberNotSet      // ArgumentException from SMSSubmit.WritePhoneNumber
    | NegativeArrayLength    // OverflowException from `new byte[bytesCount]` with a negative count
    | CopyPastEnd            // ArgumentException from Array.Copy reading beyond the source array
    | EmptyText              // IndexOutOfRangeException from text[0] in Wsp.WriteTextString
    | NullValue              // NullReferenceException / ArgumentNullException on an unset field
    | NotSupported           // NotSupportedException for the USERPINMAC security method
    | SubstringOutOfRange    // ArgumentOutOfRangeException from String.Substring
    | InvalidImsi            // Exception thrown by WapPushMessage.ImsitoKey on a non-hex pair
    | IndexOutOfRange        // IndexOutOfRangeException from an array store

  datatype Result<T> = Ok(value: T) | Err(error: Error)
  {
    predicate IsOk() { Ok? }
  }

  /** A stream extended by a part that may have failed: the failure, or the stream and the part. */
  function Appended<T>(stream: seq<T>, part: Result<seq<T>>): (r: Result<seq<T>>)
    ensures r.Ok? <==> part.Ok?
    ensures r.Ok? ==> r.value == stream + part.value
    ensures r.Err? ==> r.error == part.error
  {
    match part
    case Ok(p) => Ok(stream + p)
    case Err(e) => Err(e)
  }

  /** Moving one element from the front of a part onto the stream changes nothing. */
  lemma AppendedStep<T>(stream: seq<T>, x: T, rest: Result<seq<T>>)
    ensures Appended(stream, Appended([x], rest)) == Appended(stream + [x], rest)
  {
    if rest.Ok? {
      assert stream + ([x] + rest.value) == stream + [x] + rest.value;
    }
  }
}
