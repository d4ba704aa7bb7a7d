/**
 * The body extractor of the ping-pong server (`extract_http_body`): the
 * request text after the blank line that ends the header section of an
 * HTTP/1.1 message (section 2.1 of RFC 9112), with a bare "\n\n" accepted as
 * that blank line (section 2.2 of RFC 9112 lets a recipient take a lone LF as
 * a line terminator), and the last line of the text when there is neither.
 */
module BodyExtractor {
  import opened Text

  /** The canonical end of the header section: an empty line after CRLF. */
  const CrlfCrlf: string := "\r\n\r\n"

  /** The same blank line written with bare line feeds. */
  const LfLf: string := "\n\n"

  /** The payload of a request. Total: every text yields a body. */
  function ExtractBody(request: string): (body: string)
  {
    match Find(request, CrlfCrlf)
    case Some(i) => request[i + |CrlfCrlf|..]
    case None =>
      match Find(request, LfLf)
      case Some(i) => request[i + |LfLf|..]
      case None => LastLine(request)
  }

  /** With a CRLF blank line present, the body is everything after the first
      one. */
  lemma ExtractAfterFirstCrlfCrlf(request: string, k: nat)
    requires FirstAt(request, CrlfCrlf, k)
    ensures ExtractBody(request) == request[k + 4..]
  {
    FindIsFirst(request, CrlfCrlf, k);
  }

  /** Without a CRLF blank line but with a bare "\n\n", the body is everything
      after the first "\n\n". */
  lemma ExtractAfterFirstLfLf(request: string, k: nat)
    requires forall j :: !OccursAt(request, CrlfCrlf, j)
    requires FirstAt(request, LfLf, k)
    ensures ExtractBody(request) == request[k + 2..]
  {
    FindIsFirst(request, LfLf, k);
  }

  /** With neither separator the body is the last line, as `str::lines`
      splits: "" for an empty request, the text after the last "\n" when that
      is not empty, and otherwise the last terminated line without its "\n"
      and one "\r" before it. */
  lemma ExtractWithoutSeparator(request: string)
    requires forall j :: !OccursAt(request, CrlfCrlf, j) && !OccursAt(request, LfLf, j)
    ensures ExtractBody(request) == LastLine(request)
    ensures request == [] ==> ExtractBody(request) == ""
    ensures forall p, q :: request == p + "\n" + q && q != [] && '\n' !in q ==>
      ExtractBody(request) == q
    ensures forall p, q :: request == p + "\n" + q + "\n" && '\n' !in q ==>
      ExtractBody(request) == StripCr(q)
    ensures forall q :: request == q + "\n" && '\n' !in q ==>
      ExtractBody(request) == StripCr(q)
  {
    forall p, q | request == p + "\n" + q && q != [] && '\n' !in q
      ensures LastLine(request) == q
    {
      LastLineUnterminated(p, q);
    }
    forall p, q | request == p + "\n" + q + "\n" && '\n' !in q
      ensures LastLine(request) == StripCr(q)
    {
      LastLineTerminated(p, q);
    }
    forall q | request == q + "\n" && '\n' !in q
      ensures LastLine(request) == StripCr(q)
    {
      LastLineOfLine(q);
    }
  }

  /** Neither separator occurs in a text without a line feed. */
  lemma NoSeparatorWithoutNewline(s: string)
    requires '\n' !in s
    ensures forall j :: !OccursAt(s, CrlfCrlf, j) && !OccursAt(s, LfLf, j)
  {
    forall j ensures !OccursAt(s, CrlfCrlf, j) && !OccursAt(s, LfLf, j) {
      if 0 <= j && j + 1 < |s| {
        Mismatch(s, CrlfCrlf, j, 1);
        Mismatch(s, LfLf, j, 1);
      }
    }
  }

  /** A request without any line feed is its own body. */
  lemma ExtractSingleLine(request: string)
    requires '\n' !in request
    ensures ExtractBody(request) == request
  {
    NoSeparatorWithoutNewline(request);
    if request != [] {
      LinesOfOneLine(request);
    }
  }

  /** The body is a contiguous piece of the request, so never longer. */
  lemma ExtractBodyIsSlice(request: string) returns (i: nat, j: nat)
    ensures i <= j <= |request| && ExtractBody(request) == request[i..j]
    ensures |ExtractBody(request)| <= |request|
  {
    match Find(request, CrlfCrlf)
    case Some(k) =>
      i, j := k + 4, |request|;
    case None =>
      match Find(request, LfLf)
      case Some(k) =>
        i, j := k + 2, |request|;
      case None =>
        i, j := LastLineIsSlice(request);
  }

  /** Extracting again from a body taken as a last line gives it back: such a
      body holds no line feed. */
  lemma ExtractLastLineAgain(request: string)
    requires forall j :: !OccursAt(request, CrlfCrlf, j) && !OccursAt(request, LfLf, j)
    ensures ExtractBody(ExtractBody(request)) == ExtractBody(request)
  {
    var body := ExtractBody(request);
    if request != [] {
      var ls := Lines(request);
      assert body == ls[|ls| - 1];
      assert '\n' !in body;
    }
    ExtractSingleLine(body);
  }

  /** A request made of header lines (none empty, none holding "\r"), each
      ended by CRLF, then the blank line and a payload, has exactly that
      payload as its body, whatever the payload contains. */
  lemma ExtractAfterHeaderBlock(headers: seq<string>, payload: string)
    requires headers != [] && HeaderLines(headers, '\r')
    ensures ExtractBody(Terminated(headers, "\r\n") + "\r\n" + payload) == payload
  {
    var block := Terminated(headers, "\r\n");
    BlankLineEndsBlock(headers, '\r', '\n', payload);
    assert CrlfCrlf == ['\r', '\n', '\r', '\n'];
    assert (block + "\r\n" + payload)[|block| - 2 + 4..] == payload;
  }
}
