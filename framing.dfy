/**
 * The HTTP/1.1 response the ping-pong server writes back: a fixed status line
 * and fixed header fields, a Content-Length computed from the serialized JSON
 * body, the blank line, and the body. The JSON text is opaque here; only its
 * UTF-8 length matters, because Content-Length counts octets (section 8.6 of
 * RFC 9110) and Rust's `String::len` counts the bytes of the UTF-8 encoding.
 */
module Framing {
  import opened Text
  import BodyExtractor

  const StatusLine: string := "HTTP/1.1 200 OK"
  const ContentLengthName: string := "Content-Length: "
  const ConnectionClose: string := "Connection: close"

  /** The status line and the header field lines, in the order the server
      writes them, for a body of `length` bytes. */
  function ResponseHead(length: nat): (lines: seq<string>)
  {
    [ StatusLine,
      "Content-Type: application/json",
      "Access-Control-Allow-Origin: *",
      "Access-Control-Allow-Methods: POST, GET, OPTIONS",
      "Access-Control-Allow-Headers: Content-Type",
      ContentLengthName + Decimal(length),
      ConnectionClose ]
  }

  /** The response as text: every head line ended by CRLF, the empty line,
      then the JSON text. */
  function HttpResponse(json: string): (response: string)
  {
    Terminated(ResponseHead(|Utf8(json)|), "\r\n") + "\r\n" + json
  }

  /** The bytes written to the connection. */
  function WireResponse(json: string): (wire: seq<byte>)
  {
    Utf8(HttpResponse(json))
  }

  /** Content-Length as a recipient reads it: the value of the first line named
      "Content-Length", read as a decimal number. */
  function ContentLength(lines: seq<string>): (r: Option<nat>)
    ensures r.Some? ==> exists i :: 0 <= i < |lines| && IsContentLengthLine(lines[i])
  {
    if lines == [] then None
    else if IsContentLengthLine(lines[0]) then
      ParseDecimal(lines[0][|ContentLengthName|..])
    else
      var r := ContentLength(lines[1..]);
      assert r.Some? ==> exists i :: 0 <= i < |lines| - 1 && IsContentLengthLine(lines[1..][i]);
      r
  }

  predicate IsContentLengthLine(line: string)
  {
    |ContentLengthName| <= |line| && line[..|ContentLengthName|] == ContentLengthName
  }

  /** Every head line is a proper header line: not empty and free of CR. */
  lemma ResponseHeadLines(length: nat)
    ensures HeaderLines(ResponseHead(length), '\r')
  {
    var head := ResponseHead(length);
    FixedLinesWithoutCr();
    CorsLinesWithoutCr();
    assert '\r' !in Decimal(length);
    assert '\r' !in ContentLengthName + Decimal(length);
  }

  /** No CR inside the status line, Content-Type and Connection lines. */
  lemma FixedLinesWithoutCr()
    ensures '\r' !in StatusLine && '\r' !in "Content-Type: application/json"
    ensures '\r' !in ConnectionClose
  {
  }

  /** No CR inside the CORS header lines. */
  lemma CorsLinesWithoutCr()
    ensures '\r' !in "Access-Control-Allow-Origin: *"
    ensures '\r' !in "Access-Control-Allow-Methods: POST, GET, OPTIONS"
    ensures '\r' !in "Access-Control-Allow-Headers: Content-Type"
  {
  }

  /** The response starts with the status line, carries "Connection: close",
      and is its head block, the blank line and the body, with the first
      CRLF CRLF sitting right before the body. */
  lemma ResponseLayout(json: string)
    ensures HttpResponse(json)[..|StatusLine| + 2] == StatusLine + "\r\n"
    ensures exists k :: OccursAt(HttpResponse(json), ConnectionClose + "\r\n", k)
    ensures var head := Terminated(ResponseHead(|Utf8(json)|), "\r\n") + "\r\n";
      HttpResponse(json) == head + json &&
      head[|head| - 4..] == "\r\n\r\n" &&
      Find(HttpResponse(json), "\r\n\r\n") == Some(|head| - 4)
  {
    var lines := ResponseHead(|Utf8(json)|);
    var block := Terminated(lines, "\r\n");
    var head := block + "\r\n";
    ResponseHeadLines(|Utf8(json)|);
    BlankLineEndsBlock(lines, '\r', '\n', json);
    // The block opens with the status line.
    assert block == StatusLine + "\r\n" + Terminated(lines[1..], "\r\n");
    assert HttpResponse(json)[..|StatusLine| + 2] == block[..|StatusLine| + 2];
    // The block closes with "Connection: close" and CRLF.
    var front := Terminated(lines[..6], "\r\n");
    TerminatedAppend(lines[..6], [ConnectionClose], "\r\n");
    assert lines[..6] + [ConnectionClose] == lines;
    assert Terminated([ConnectionClose], "\r\n") == ConnectionClose + "\r\n" + Terminated([], "\r\n");
    assert HttpResponse(json) == front + (ConnectionClose + "\r\n") + ("\r\n" + json);
    OccursAtShift(front, (ConnectionClose + "\r\n") + ("\r\n" + json), ConnectionClose + "\r\n", 0);
    assert OccursAt(HttpResponse(json), ConnectionClose + "\r\n", |front|);
    assert block[|block| - 2..] == "\r\n";
  }

  /** Terminating two runs of lines one after the other. */
  lemma {:induction false} TerminatedAppend<T>(a: seq<seq<T>>, b: seq<seq<T>>, eol: seq<T>)
    ensures Terminated(a + b, eol) == Terminated(a, eol) + Terminated(b, eol)
    decreases |a|
  {
    if a == [] {
      assert a + b == b;
    } else {
      assert (a + b)[0] == a[0] && (a + b)[1..] == a[1..] + b;
      TerminatedAppend(a[1..], b, eol);
    }
  }

  /** The server reads its own response back: the body it extracts is the
      JSON text. */
  lemma ExtractOwnResponse(json: string)
    ensures BodyExtractor.ExtractBody(HttpResponse(json)) == json
  {
    ResponseHeadLines(|Utf8(json)|);
    BodyExtractor.ExtractAfterHeaderBlock(ResponseHead(|Utf8(json)|), json);
  }

  /** The head names the length it was built for. */
  lemma ContentLengthOfHead(length: nat)
    ensures ContentLength(ResponseHead(length)) == Some(length)
  {
    var lines := ResponseHead(length);
    ParseDecimalOfDecimal(length);
    assert IsContentLengthLine(lines[5]) by {
      assert lines[5][..|ContentLengthName|] == ContentLengthName;
    }
    assert lines[5][|ContentLengthName|..] == Decimal(length);
    assert ContentLength(lines[5..]) == Some(length);
    assert lines[4][0] != ContentLengthName[0];
    assert ContentLength(lines[4..]) == ContentLength(lines[5..]) by {
      assert lines[4..][0] == lines[4] && lines[4..][1..] == lines[5..];
    }
    assert lines[3][0] != ContentLengthName[0];
    assert ContentLength(lines[3..]) == ContentLength(lines[4..]) by {
      assert lines[3..][0] == lines[3] && lines[3..][1..] == lines[4..];
    }
    assert lines[2][0] != ContentLengthName[0];
    assert ContentLength(lines[2..]) == ContentLength(lines[3..]) by {
      assert lines[2..][0] == lines[2] && lines[2..][1..] == lines[3..];
    }
    assert lines[1][8] != ContentLengthName[8];
    assert ContentLength(lines[1..]) == ContentLength(lines[2..]) by {
      assert lines[1..][0] == lines[1] && lines[1..][1..] == lines[2..];
    }
    assert lines[0][0] != ContentLengthName[0];
  }

  /** Encoding a header block, the blank line and a body: the blank line
      becomes the bytes CR LF, and the first CR LF CR LF in the bytes is the
      blank line. */
  lemma EncodedFraming(lines: seq<string>, body: string)
    requires lines != [] && HeaderLines(lines, '\r')
    ensures var head := Utf8(Terminated(lines, "\r\n"));
      var wire := Utf8(Terminated(lines, "\r\n") + "\r\n" + body);
      wire == head + [13, 10] + Utf8(body) && Find(wire, [13, 10, 13, 10]) == Some(|head| - 2)
  {
    var block := Terminated(lines, "\r\n");
    Utf8Append(block + "\r\n", body);
    Utf8Append(block, "\r\n");
    assert Utf8("\r\n") == [13, 10];
    var encoded := seq(|lines|, i requires 0 <= i < |lines| => Utf8(lines[i]));
    forall i | 0 <= i < |encoded| ensures encoded[i] != [] && 13 !in encoded[i] {
      Utf8Ascii(lines[i], '\r');
    }
    Utf8Terminated(lines);
    BlankLineEndsBlock(encoded, 13, 10, Utf8(body));
  }

  /** `wire` is the head `lines` (each ended by CR LF), the blank line and
      the UTF-8 bytes of `json`; the first CR LF CR LF in it is that blank
      line, and the Content-Length in the head is the number of bytes after
      it, which are exactly the bytes of `json`. */
  ghost predicate Framed(lines: seq<string>, json: string, wire: seq<byte>)
  {
    var head := Utf8(Terminated(lines, "\r\n"));
    && wire == head + [13, 10] + Utf8(json)
    && Find(wire, [13, 10, 13, 10]) == Some(|head| - 2)
    && wire[|head| + 2..] == Utf8(json)
    && ContentLength(lines) == Some(|wire| - (|head| + 2))
  }

  /** Encoding a header block whose Content-Length is the body's byte count,
      the blank line and the body frames the body. */
  lemma FramedBody(lines: seq<string>, json: string)
    requires lines != [] && HeaderLines(lines, '\r')
    requires ContentLength(lines) == Some(|Utf8(json)|)
    ensures Framed(lines, json, Utf8(Terminated(lines, "\r\n") + "\r\n" + json))
  {
    EncodedFraming(lines, json);
    var head := Utf8(Terminated(lines, "\r\n"));
    var wire := Utf8(Terminated(lines, "\r\n") + "\r\n" + json);
    assert wire[|head| + 2..] == Utf8(json);
  }

  /** The bytes the server writes frame the JSON text. */
  lemma WireFraming(json: string)
    ensures Framed(ResponseHead(|Utf8(json)|), json, WireResponse(json))
  {
    var lines := ResponseHead(|Utf8(json)|);
    ResponseHeadLines(|Utf8(json)|);
    ContentLengthOfHead(|Utf8(json)|);
    FramedBody(lines, json);
  }
}
