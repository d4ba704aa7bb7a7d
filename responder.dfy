/**
 * The responder of the ping-pong server: the reply to a trimmed message.
 * Four keywords, matched without regard to case, get fixed replies; any other
 * message is echoed back with its case kept.
 */
module Responder {
  import opened Text

  /** The reply to `message`. The keyword test compares the ASCII lower-case
      form; the echo carries the message as it was given. */
  function Respond(message: string): (reply: string)
  {
    var lower := AsciiLower(message);
    if lower == "ping" then "pong"
    else if lower == "pong" then "ping"
    else if lower == "hello" then "Hello there!"
    else if lower == "help" then "Commands: ping, pong, hello, help"
    else "Echo: " + message
  }

  /** The keywords and their replies, as a table. */
  const Replies: map<string, string> :=
    map["ping" := "pong", "pong" := "ping", "hello" := "Hello there!",
        "help" := "Commands: ping, pong, hello, help"]

  /** What an echo starts with. */
  const EchoPrefix: string := "Echo: "

  /** `message` spells the lower-case `word` with any mix of capitals. */
  predicate SpellsIgnoringCase(message: string, word: string)
  {
    |message| == |word| &&
    forall i :: 0 <= i < |message| ==>
      message[i] == word[i] || message[i] as int == word[i] as int - 32
  }

  /** The responder is the table lookup on the lower-cased message, with the
      echo for a message that is not in the table. */
  lemma RespondIsTableLookup(message: string)
    ensures AsciiLower(message) in Replies ==> Respond(message) == Replies[AsciiLower(message)]
    ensures AsciiLower(message) !in Replies ==> Respond(message) == EchoPrefix + message
  {
  }

  /** A keyword, written in any case, gets its fixed reply; e.g. "PONG" and
      "pOnG" get "ping". */
  lemma RespondKeyword(message: string)
    ensures SpellsIgnoringCase(message, "ping") ==> Respond(message) == "pong"
    ensures SpellsIgnoringCase(message, "pong") ==> Respond(message) == "ping"
    ensures SpellsIgnoringCase(message, "hello") ==> Respond(message) == "Hello there!"
    ensures SpellsIgnoringCase(message, "help") ==> Respond(message) == "Commands: ping, pong, hello, help"
  {
    AsciiLowerMatches(message, "ping");
    AsciiLowerMatches(message, "pong");
    AsciiLowerMatches(message, "hello");
    AsciiLowerMatches(message, "help");
  }

  /** Any message that is not a keyword in some case is echoed, and the echo
      holds the message exactly as given, case included. */
  lemma RespondEcho(message: string)
    requires !SpellsIgnoringCase(message, "ping") && !SpellsIgnoringCase(message, "pong")
    requires !SpellsIgnoringCase(message, "hello") && !SpellsIgnoringCase(message, "help")
    ensures Respond(message) == EchoPrefix + message
    ensures Respond(message)[|EchoPrefix|..] == message
  {
    AsciiLowerMatches(message, "ping");
    AsciiLowerMatches(message, "pong");
    AsciiLowerMatches(message, "hello");
    AsciiLowerMatches(message, "help");
  }

  /** An echo is never one of the fixed replies. */
  lemma EchoIsNoFixedReply(message: string)
    ensures forall word :: word in Replies ==> Replies[word] != EchoPrefix + message
  {
    var echo := EchoPrefix + message;
    assert echo[0] == 'E' && |echo| >= 6;
    assert "Hello there!"[0] == 'H' && "Commands: ping, pong, hello, help"[0] == 'C';
    forall word | word in Replies ensures Replies[word] != echo {
      assert word == "ping" || word == "pong" || word == "hello" || word == "help";
    }
  }

  /** The reply tells which case applied: each fixed reply comes only from its
      keyword, and an echo only from a message that is no keyword. */
  lemma ReplyIdentifiesKeyword(message: string)
    ensures Respond(message) == "pong" <==> AsciiLower(message) == "ping"
    ensures Respond(message) == "ping" <==> AsciiLower(message) == "pong"
    ensures Respond(message) == "Hello there!" <==> AsciiLower(message) == "hello"
    ensures Respond(message) == "Commands: ping, pong, hello, help" <==> AsciiLower(message) == "help"
    ensures Respond(message) == EchoPrefix + message <==> AsciiLower(message) !in Replies
  {
    EchoIsNoFixedReply(message);
    var lower := AsciiLower(message);
    if lower in Replies {
      assert Respond(message) == Replies[lower] != EchoPrefix + message;
    }
  }

  /** Messages that differ only in case get the same reply when they are
      keywords, and replies that differ in the same way when they are echoed. */
  lemma RespondCaseInsensitive(m1: string, m2: string)
    requires AsciiLower(m1) == AsciiLower(m2)
    ensures AsciiLower(m1) in Replies ==> Respond(m1) == Respond(m2)
    ensures AsciiLower(m1) !in Replies ==>
      Respond(m1) == EchoPrefix + m1 && Respond(m2) == EchoPrefix + m2
  {
  }

  /** The replies to "ping" and "pong" are each other: replying to a reply
      of either gets back to the keyword. */
  lemma PingPongSwap(message: string)
    requires SpellsIgnoringCase(message, "ping") || SpellsIgnoringCase(message, "pong")
    ensures Respond(Respond(message)) == AsciiLower(message)
  {
    AsciiLowerMatches(message, "ping");
    AsciiLowerMatches(message, "pong");
    if SpellsIgnoringCase(message, "ping") {
      assert Respond(message) == "pong";
      assert AsciiLower("pong") == "pong";
    } else {
      assert Respond(message) == "ping";
      assert AsciiLower("ping") == "ping";
    }
  }

  /** Example exchange: "PONG" gets "ping". */
  lemma ReplyToUpperPong()
    ensures Respond("PONG") == "ping"
  {
    assert AsciiLower("PONG") == "pong";
  }

  /** Example exchange: "banana" gets "Echo: banana". */
  lemma ReplyToBanana()
    ensures Respond("banana") == "Echo: banana"
  {
    assert AsciiLower("banana") == "banana";
  }
}
