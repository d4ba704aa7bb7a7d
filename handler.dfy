/**
 * One connection's request/response cycle, with the socket taken out: the
 * outcome of the single read decides whether anything is written back, and a
 * received request goes through body extraction, trimming and the responder
 * into the envelope whose serialization is framed as the HTTP response.
 */
module Handler {
  import opened Text
  import BodyExtractor
  import Responder
  import Framing

  /** The record the server serializes as the response body. */
  datatype Envelope = Envelope(input: string, output: string, timestamp: string)

  /** What the one read on a connection produced. A read of zero bytes is
      `Closed`, so a `Received` request is never empty on the server; the
      type does not enforce that, and `Handle` answers an empty one too. */
  datatype ReadOutcome =
    | Closed                     // the peer closed before sending anything
    | Received(request: string)  // the bytes read (at least one), already decoded as text
    | Failed                     // the read reported an error

  /** The envelope for `request`, stamped with `timestamp`: the input is the
      trimmed body, the output the responder's reply to it. */
  function MakeEnvelope(request: string, timestamp: string): (e: Envelope)
    ensures e.input == [] || (!IsWhitespace(e.input[0]) && !IsWhitespace(e.input[|e.input| - 1]))
    ensures e.timestamp == timestamp
  {
    var message := Trim(BodyExtractor.ExtractBody(request));
    Envelope(message, Responder.Respond(message), timestamp)
  }

  /** The bytes written back for a read outcome, if any: nothing after a
      disconnect or a failed read, else the framed serialized envelope.
      `serialize` stands for the JSON serializer. */
  function Handle(outcome: ReadOutcome, timestamp: string, serialize: Envelope -> string)
    : (reply: Option<seq<byte>>)
    ensures reply.Some? <==> outcome.Received?
  {
    match outcome
    case Received(request) =>
      Some(Framing.WireResponse(serialize(MakeEnvelope(request, timestamp))))
    case _ => None
  }

  /** What a received request gets back is the framed serialization of its
      envelope: the JSON text follows the first CR LF CR LF, and the head's
      Content-Length counts its bytes. */
  lemma HandleFramesEnvelope(request: string, timestamp: string, serialize: Envelope -> string)
    ensures FramedReply(Handle(Received(request), timestamp, serialize), serialize(MakeEnvelope(request, timestamp)))
  {
    SerializedFraming(MakeEnvelope(request, timestamp), serialize);
  }

  /** `reply` is some bytes that frame `json` under the server's head. */
  ghost predicate FramedReply(reply: Option<seq<byte>>, json: string)
  {
    reply.Some? && Framing.Framed(Framing.ResponseHead(|Utf8(json)|), json, reply.value)
  }

  /** The framing of any serialized envelope. */
  lemma SerializedFraming(e: Envelope, serialize: Envelope -> string)
    ensures FramedReply(Some(Framing.WireResponse(serialize(e))), serialize(e))
  {
    Framing.WireFraming(serialize(e));
  }

  /** A request of header lines, a blank line and a payload: the envelope's
      input is the trimmed payload and its output the reply to it. */
  lemma EnvelopeOfRequest(headers: seq<string>, payload: string, timestamp: string)
    requires headers != [] && HeaderLines(headers, '\r')
    ensures var e := MakeEnvelope(Terminated(headers, "\r\n") + "\r\n" + payload, timestamp);
      e.input == Trim(payload) && e.output == Responder.Respond(e.input)
  {
    BodyExtractor.ExtractAfterHeaderBlock(headers, payload);
  }

  /** A text sent without any line feed is taken whole as the message. */
  lemma HandleBareMessage(request: string, timestamp: string)
    requires '\n' !in request
    ensures MakeEnvelope(request, timestamp).input == Trim(request)
  {
    BodyExtractor.ExtractSingleLine(request);
  }

  /** Example exchange: a request whose body is "PONG" is answered "ping". */
  lemma UpperPongScenario(headers: seq<string>, timestamp: string)
    requires headers != [] && HeaderLines(headers, '\r')
    ensures MakeEnvelope(Terminated(headers, "\r\n") + "\r\n" + "PONG", timestamp).output == "ping"
  {
    Responder.ReplyToUpperPong();
    Scenario(headers, "PONG", "ping", timestamp);
  }

  /** Example exchange: a request whose body is "banana" is answered
      "Echo: banana". */
  lemma BananaScenario(headers: seq<string>, timestamp: string)
    requires headers != [] && HeaderLines(headers, '\r')
    ensures MakeEnvelope(Terminated(headers, "\r\n") + "\r\n" + "banana", timestamp).output == "Echo: banana"
  {
    Responder.ReplyToBanana();
    Scenario(headers, "banana", "Echo: banana", timestamp);
  }

  /** One exchange: a payload that is already trimmed is answered with the
      responder's reply to it. */
  lemma Scenario(headers: seq<string>, payload: string, reply: string, timestamp: string)
    requires headers != [] && HeaderLines(headers, '\r')
    requires payload == [] || (!IsWhitespace(payload[0]) && !IsWhitespace(payload[|payload| - 1]))
    requires Responder.Respond(payload) == reply
    ensures MakeEnvelope(Terminated(headers, "\r\n") + "\r\n" + payload, timestamp).output == reply
  {
    EnvelopeOfRequest(headers, payload, timestamp);
    TrimKeepsTrimmed(payload);
  }
}
