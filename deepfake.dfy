/**
 * The client side of the deepfake check in main.py (`send_to_deepfake_server`).
 * Encoding the crop and posting it are left out; what remains is the mapping
 * from the server's reply to the (status, confidence) pair the frame loop uses,
 * which fails open: every failure reads as a real face with confidence 0.0.
 */
module Deepfake {

  /** A JSON value found in the reply, as far as the client looks at it. */
  datatype Value = Str(s: string) | Num(r: real) | Other

  /**
   * What the request produced. `Raised` stands for every exception on the way:
   * a transport error, a body that is not JSON, or JSON that is not an object
   * (indexing it by a key then raises too).
   */
  datatype Reply = Raised | Object(fields: map<string, Value>)

  datatype Verdict = Verdict(status: Value, confidence: Value)

  /** The fail-open answer: real, with confidence 0.0. */
  const FailOpen: Verdict := Verdict(Str("Real"), Num(0.0))

  /** True when the reply carries an answer the client passes on unchanged. */
  predicate WellFormed(reply: Reply)
  {
    && reply.Object?
    && "error" !in reply.fields
    && "label" in reply.fields
    && "confidence" in reply.fields
  }

  /**
   * A reply with an `error` key, or one whose `label` or `confidence` is
   * missing (a `KeyError`, caught), or an exception maps to `FailOpen`; any
   * other reply is passed on as it is.
   */
  function MapReply(reply: Reply): (v: Verdict)
    ensures !WellFormed(reply) ==> v == FailOpen
    ensures WellFormed(reply) ==>
              v == Verdict(reply.fields["label"], reply.fields["confidence"])
  {
    match reply
    case Raised => FailOpen
    case Object(fields) =>
      if "error" in fields then FailOpen
      else if "label" !in fields || "confidence" !in fields then FailOpen
      else Verdict(fields["label"], fields["confidence"])
  }

  /** Only a well-formed reply whose own label is not "Real" can reject a face. */
  lemma NotRealOnlyFromServer(reply: Reply)
    requires MapReply(reply).status != Str("Real")
    ensures WellFormed(reply)
    ensures reply.fields["label"] == MapReply(reply).status
  {
  }
}
