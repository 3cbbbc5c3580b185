/**
 * Command assembly of `Mail::getCommand` (Mail.php:148-167): the message blob
 * and the fixed nine-step SMTP dialogue, each step a wire string paired with
 * the reply code the client expects for it.
 *
 * The dialogue is the one of RFC 5321 (HELO in section 4.1.1.1, MAIL in
 * 4.1.1.2, RCPT in 4.1.1.3, DATA and its end-of-data marker in 4.1.1.4, QUIT
 * in 4.1.1.10) with an AUTH LOGIN exchange in the style of section 4 of
 * RFC 4954 between HELO and MAIL.
 */
module SmtpCommands {

  /** One step of the dialogue: what is written to the socket and the reply
      code the server is expected to answer with. */
  datatype Command = Command(text: string, code: nat)

  const Crlf: string := "\r\n"

  /** CRLF "." CRLF: a line holding a single period ends the DATA phase. */
  const EndOfDataMarker: string := "\r\n.\r\n"

  /** The reply codes expected for the nine steps, in order. */
  const ExpectedCodes: seq<nat> := [250, 334, 334, 235, 250, 250, 354, 250, 221]

  /** A command line: the text followed by CRLF. */
  function Line(s: string): (r: string)
    ensures |r| == |s| + 2 && r[..|s|] == s && r[|s|..] == Crlf
  {
    s + Crlf
  }

  predicate NoLineBreak(s: string) {
    forall k :: 0 <= k < |s| ==> s[k] != '\r' && s[k] != '\n'
  }

  predicate EndsWithCrlf(s: string) {
    |s| >= 2 && s[|s| - 2..] == Crlf
  }

  /** A single protocol line: CRLF at the end and no CR or LF before it. */
  predicate IsSingleLine(s: string) {
    EndsWithCrlf(s) && NoLineBreak(s[..|s| - 2])
  }

  /** The header part of the message: sender (display name then address),
      recipient and subject, then the blank line that separates the body. */
  function Header(username: string, from: string, to: string, subject: string): string {
    "FROM:" + username + "<" + from + ">\r\n"
    + "TO:<" + to + ">\r\n"
    + "Subject:" + subject + "\r\n\r\n"
  }

  /** The header starts with the sender line and ends with the empty line
      that separates it from the body. */
  lemma HeaderFraming(username: string, from: string, to: string, subject: string)
    ensures var h := Header(username, from, to, subject);
      && |h| >= 5 + 4 && h[..5] == "FROM:" && h[|h| - 4..] == "\r\n\r\n"
  {
    var h := Header(username, from, to, subject);
    var rest := username + "<" + from + ">\r\n" + "TO:<" + to + ">\r\n" + "Subject:" + subject;
    assert h == "FROM:" + rest + "\r\n\r\n";
  }

  /** The text sent after DATA: header, body, and the end-of-data marker.
      The body is sent as it is: no dot-stuffing. */
  function MessageBlob(username: string, from: string, to: string, subject: string, body: string): (blob: string)
    ensures |blob| >= 5 && blob[|blob| - 5..] == EndOfDataMarker
    ensures blob[..|blob| - 5] == Header(username, from, to, subject) + body
  {
    Header(username, from, to, subject) + body + EndOfDataMarker
  }

  /** The dialogue `getCommand` returns. `encode` stands for PHP's
      `base64_encode`, which is not modelled. */
  function Commands(username: string, password: string, from: string, to: string,
                    subject: string, body: string, encode: string -> string): (cmds: seq<Command>)
    ensures |cmds| == |ExpectedCodes| == 9
    ensures forall i :: 0 <= i < |cmds| ==> cmds[i].code == ExpectedCodes[i]
    ensures forall i :: 0 <= i < |cmds| ==> EndsWithCrlf(cmds[i].text)
  {
    [ Command(Line("HELO sendmail"), 250),
      Command(Line("AUTH LOGIN"), 334),
      Command(Line(encode(username)), 334),
      Command(Line(encode(password)), 235),
      Command(Line("MAIL FROM:<" + from + ">"), 250),
      Command(Line("RCPT TO:<" + to + ">"), 250),
      Command(Line("DATA"), 354),
      Command(MessageBlob(username, from, to, subject, body), 250),
      Command(Line("QUIT"), 221) ]
  }

  lemma LineIsSingleLine(s: string)
    requires NoLineBreak(s)
    ensures IsSingleLine(Line(s))
  {
    assert Line(s)[..|Line(s)| - 2] == s;
  }

  /** Every step except the message blob is one protocol line, provided the
      addresses and the two encoded credentials hold no CR or LF (nothing in
      the client checks this). */
  lemma {:induction false} CommandsAreSingleLines(username: string, password: string, from: string, to: string,
                                subject: string, body: string, encode: string -> string)
    requires NoLineBreak(from) && NoLineBreak(to)
    requires NoLineBreak(encode(username)) && NoLineBreak(encode(password))
    ensures var cmds := Commands(username, password, from, to, subject, body, encode);
      forall i :: 0 <= i < |cmds| && i != 7 ==> IsSingleLine(cmds[i].text)
  {
    LineIsSingleLine("HELO sendmail");
    LineIsSingleLine("AUTH LOGIN");
    LineIsSingleLine(encode(username));
    LineIsSingleLine(encode(password));
    LineIsSingleLine("MAIL FROM:<" + from + ">");
    LineIsSingleLine("RCPT TO:<" + to + ">");
    LineIsSingleLine("DATA");
    LineIsSingleLine("QUIT");
  }

  /** A line break in the recipient splits the RCPT step into several lines:
      the client writes whatever follows it as further commands. */
  lemma RecipientLineBreakSplitsCommand(username: string, password: string, from: string, to: string,
                                        subject: string, body: string, encode: string -> string)
    requires !NoLineBreak(to)
    ensures !IsSingleLine(Commands(username, password, from, to, subject, body, encode)[5].text)
  {
    var k :| 0 <= k < |to| && (to[k] == '\r' || to[k] == '\n');
    var text := Line("RCPT TO:<" + to + ">");
    assert text[..|text| - 2][9 + k] == to[k];
  }

  // ---------------------------------------------------------------------------
  // Where the server's DATA phase ends

  /** The end-of-data marker starts at index `j` of `s`. */
  predicate MarkerAt(s: string, j: nat) {
    j + 5 <= |s| && s[j..j + 5] == EndOfDataMarker
  }

  /** Where a server reading `s` after DATA stops: the first end-of-data
      marker at or after `from`, or `|s|` if there is none. */
  function EndOfData(s: string, from: nat): (k: nat)
    requires from <= |s|
    ensures from <= k <= |s|
    ensures k == |s| || MarkerAt(s, k)
    ensures forall j :: from <= j < k ==> !MarkerAt(s, j)
    decreases |s| - from
  {
    if from == |s| then |s|
    else if MarkerAt(s, from) then from
    else EndOfData(s, from + 1)
  }

  /** No line of `s` after the first begins with a period. */
  predicate NoDotAfterLineFeed(s: string) {
    forall p :: 0 <= p < |s| - 1 ==> !(s[p] == '\n' && s[p + 1] == '.')
  }

  /** No line of `s` begins with a period: the condition under which sending
      `s` without dot-stuffing is harmless. */
  predicate NoLineStartsWithDot(s: string) {
    (s == [] || s[0] != '.') && NoDotAfterLineFeed(s)
  }

  lemma NoDotAfterLineFeedConcat(a: string, b: string)
    requires NoDotAfterLineFeed(a) && NoDotAfterLineFeed(b)
    requires a == [] || b == [] || a[|a| - 1] != '\n' || b[0] != '.'
    ensures NoDotAfterLineFeed(a + b)
  {
    var s := a + b;
    forall p | 0 <= p < |s| - 1
      ensures !(s[p] == '\n' && s[p + 1] == '.')
    {
      if p + 1 < |a| {
        assert s[p] == a[p] && s[p + 1] == a[p + 1];
      } else if p >= |a| {
        assert s[p] == b[p - |a|] && s[p + 1] == b[p + 1 - |a|];
      }
    }
  }

  lemma NoLineBreakNoDot(s: string)
    requires NoLineBreak(s)
    ensures NoDotAfterLineFeed(s)
  {
  }

  /** With single-line fields, no header line begins with a period. */
  lemma HeaderHasNoDotLine(username: string, from: string, to: string, subject: string)
    requires NoLineBreak(username) && NoLineBreak(from) && NoLineBreak(to) && NoLineBreak(subject)
    ensures NoDotAfterLineFeed(Header(username, from, to, subject))
  {
    NoLineBreakNoDot(username);
    NoLineBreakNoDot(from);
    NoLineBreakNoDot(to);
    NoLineBreakNoDot(subject);
    var h1 := "FROM:" + username;
    NoDotAfterLineFeedConcat("FROM:", username);
    var h2 := h1 + "<";
    NoDotAfterLineFeedConcat(h1, "<");
    var h3 := h2 + from;
    NoDotAfterLineFeedConcat(h2, from);
    var h4 := h3 + ">\r\n";
    NoDotAfterLineFeedConcat(h3, ">\r\n");
    var h5 := h4 + "TO:<";
    NoDotAfterLineFeedConcat(h4, "TO:<");
    var h6 := h5 + to;
    NoDotAfterLineFeedConcat(h5, to);
    var h7 := h6 + ">\r\n";
    NoDotAfterLineFeedConcat(h6, ">\r\n");
    var h8 := h7 + "Subject:";
    NoDotAfterLineFeedConcat(h7, "Subject:");
    var h9 := h8 + subject;
    NoDotAfterLineFeedConcat(h8, subject);
    NoDotAfterLineFeedConcat(h9, "\r\n\r\n");
    assert Header(username, from, to, subject) == h9 + "\r\n\r\n";
  }

  /** When the header fields are single lines and no line of the body begins
      with a period, the server's DATA phase ends exactly at the marker the
      client appends, so it reads the header and the whole body. */
  lemma DataEndsAtBlobEnd(username: string, from: string, to: string, subject: string, body: string)
    requires NoLineBreak(username) && NoLineBreak(from) && NoLineBreak(to) && NoLineBreak(subject)
    requires NoLineStartsWithDot(body)
    ensures var blob := MessageBlob(username, from, to, subject, body);
      && EndOfData(blob, 0) == |blob| - 5
      && blob[..EndOfData(blob, 0)] == Header(username, from, to, subject) + body
  {
    var h := Header(username, from, to, subject);
    var blob := MessageBlob(username, from, to, subject, body);
    HeaderHasNoDotLine(username, from, to, subject);
    NoDotAfterLineFeedConcat(h, body);
    NoDotAfterLineFeedConcat(h + body, Crlf);
    var prefix := h + body + Crlf;
    assert blob[..|blob| - 3] == prefix;
    forall j | 0 <= j < |blob| - 5
      ensures !MarkerAt(blob, j)
    {
      assert prefix[j + 1] == blob[j + 1] && prefix[j + 2] == blob[j + 2];
      assert !(prefix[j + 1] == '\n' && prefix[j + 2] == '.');
      assert blob[j..j + 5][1] == blob[j + 1] && blob[j..j + 5][2] == blob[j + 2];
    }
    assert MarkerAt(blob, |blob| - 5);
  }

  /** The client does no dot-stuffing: a body that holds the end-of-data
      marker ends the DATA phase before the body does. */
  lemma BodyMarkerEndsDataEarly(username: string, from: string, to: string, subject: string, body: string, p: nat)
    requires MarkerAt(body, p)
    ensures var blob := MessageBlob(username, from, to, subject, body);
      EndOfData(blob, 0) <= |Header(username, from, to, subject)| + p < |blob| - 5
  {
    var h := Header(username, from, to, subject);
    var blob := MessageBlob(username, from, to, subject, body);
    assert blob[|h| + p..|h| + p + 5] == body[p..p + 5];
    assert MarkerAt(blob, |h| + p);
  }
}
