/**
 * The reply check of `Mail::sendCommand` (Mail.php:176-202) with the socket
 * replaced by what one exchange on it yields: whether `socket_write`
 * succeeded, the raw text `socket_read` returned, and the text
 * `socket_strerror(socket_last_error())` would give at that moment.
 */
module SmtpReplies {
  import opened PhpText

  /** The outcome of writing one command and reading the server's answer. */
  datatype Exchange = Exchange(written: bool, reply: string, socketError: string)

  /** What `sendCommand` makes of an exchange: the reply is accepted, or the
      step fails with the message it stores in `errorMessage`. */
  datatype Reply = Acknowledged | Failed(message: string)

  /** The message stored when the server answers with an unexpected code. */
  function ProtocolErrorMessage(reply: string): string {
    "Error:" + reply + "|**| command:"
  }

  /** The message stored when the write fails or nothing is read back. */
  function TransportErrorMessage(socketError: string): string {
    "Error:" + socketError
  }

  /** The verdict of `sendCommand(command, code)` on one exchange. The reply
      is trimmed; an empty (or "0") reply is a transport failure; otherwise
      the pattern `/^code/` accepts any reply that starts with the decimal
      digits of `code`. */
  function Verdict(code: nat, x: Exchange): (r: Reply)
    ensures r.Failed? ==> StartsWith(r.message, "Error:")
    ensures !x.written ==> r == Failed(TransportErrorMessage(x.socketError))
  {
    if x.written then
      var data := Trim(x.reply);
      if !IsEmptyString(data) then
        if StartsWith(data, DecimalString(code)) then Acknowledged
        else Failed(ProtocolErrorMessage(data))
      else
        Failed(TransportErrorMessage(x.socketError))
    else
      Failed(TransportErrorMessage(x.socketError))
  }

  /** An acknowledged step was written and its trimmed reply starts with the
      digits of the code. */
  lemma AcknowledgedImpliesCodePrefix(code: nat, x: Exchange)
    requires Verdict(code, x).Acknowledged?
    ensures x.written && StartsWith(Trim(x.reply), DecimalString(code))
  {
  }

  /** The protocol message quotes the trimmed reply between "Error:" and
      "|**| command:", so the stored message determines the reply. */
  lemma ProtocolErrorMessageQuotesReply(reply: string, other: string)
    ensures var m := ProtocolErrorMessage(reply);
      && |m| == |reply| + 19
      && m[..6] == "Error:" && m[6..6 + |reply|] == reply && m[6 + |reply|..] == "|**| command:"
    ensures ProtocolErrorMessage(reply) == ProtocolErrorMessage(other) ==> reply == other
  {
    var m := ProtocolErrorMessage(reply);
    assert m == "Error:" + reply + "|**| command:";
    if ProtocolErrorMessage(reply) == ProtocolErrorMessage(other) {
      var n := ProtocolErrorMessage(other);
      assert |reply| == |other|;
      assert reply == m[6..6 + |reply|] == n[6..6 + |other|] == other;
    }
  }

  /** The transport message is "Error:" followed by the socket's error text,
      which it therefore determines. */
  lemma TransportErrorMessageQuotesError(socketError: string, other: string)
    ensures var m := TransportErrorMessage(socketError);
      m[..6] == "Error:" && m[6..] == socketError
    ensures TransportErrorMessage(socketError) == TransportErrorMessage(other) ==> socketError == other
  {
    var m := TransportErrorMessage(socketError);
    assert m[6..] == socketError;
    assert TransportErrorMessage(other)[6..] == other;
  }

  /** PHP reads a trimmed reply "0" as false: the step fails as if nothing had
      been read, with the socket's error text and not the reply. */
  lemma ZeroReplyIsTransportFailure(code: nat, x: Exchange)
    requires x.written && Trim(x.reply) == "0"
    ensures Verdict(code, x) == Failed(TransportErrorMessage(x.socketError))
  {
  }

  /** For a positive code the emptiness test adds nothing: a written command
      is acknowledged exactly when its trimmed reply starts with the code. */
  lemma AcknowledgedIffCodePrefix(code: nat, x: Exchange)
    requires code > 0
    ensures Verdict(code, x).Acknowledged? <==> x.written && StartsWith(Trim(x.reply), DecimalString(code))
  {
    var d := DecimalString(code);
    if x.written && StartsWith(Trim(x.reply), d) {
      assert Trim(x.reply)[0] == d[0];
    }
  }

  /** An acknowledged reply begins with digits that read back as the expected code. */
  lemma AcknowledgedReplyCarriesCode(code: nat, x: Exchange)
    requires Verdict(code, x).Acknowledged?
    ensures var t := Trim(x.reply); var n := |DecimalString(code)|;
      n <= |t| && AllDigits(t[..n]) && ParseDecimal(t[..n]) == code
  {
    var t := Trim(x.reply);
    var d := DecimalString(code);
    assert t[..|d|] == d;
    ParseDecimalString(code);
  }

  /** A reply that is the code, an optional text and CRLF is accepted. */
  lemma WellFormedReplyAccepted(code: nat, text: string, socketError: string)
    requires code > 0
    requires text == [] || !IsTrimmable(text[|text| - 1])
    ensures Verdict(code, Exchange(true, DecimalString(code) + text + "\r\n", socketError)) == Acknowledged
  {
    var d := DecimalString(code);
    var t := d + text;
    assert IsDigit(d[0]) && IsDigit(d[|d| - 1]);
    assert t[0] == d[0] && t[0] != '0';
    assert t[|t| - 1] == if text == [] then d[|d| - 1] else text[|text| - 1];
    var reply := d + text + "\r\n";
    assert reply == [] + t + "\r\n";
    assert AllTrimmable("\r\n");
    TrimPadded([], t, "\r\n");
    assert Trim(reply) == t;
    assert !IsEmptyString(t);
    assert t[..|d|] == d;
    assert StartsWith(t, d);
  }

  /** The check is a prefix test, not a code comparison: a reply whose
      leading number is longer than the code still passes. */
  lemma LongerCodeAccepted(code: nat, digit: char, text: string, socketError: string)
    requires code > 0 && IsDigit(digit)
    requires text == [] || !IsTrimmable(text[|text| - 1])
    ensures Verdict(code, Exchange(true, DecimalString(code) + [digit] + text + "\r\n", socketError)) == Acknowledged
    ensures ParseDecimal(DecimalString(code) + [digit]) != code
  {
    var d := DecimalString(code);
    var rest := [digit] + text;
    assert rest == [] || !IsTrimmable(rest[|rest| - 1]);
    assert d + [digit] + text + "\r\n" == d + rest + "\r\n";
    WellFormedReplyAccepted(code, rest, socketError);
    LongerNumberDiffers(code, digit);
  }

  lemma LongerNumberDiffers(code: nat, digit: char)
    requires code > 0 && IsDigit(digit)
    ensures ParseDecimal(DecimalString(code) + [digit]) != code
  {
    var d := DecimalString(code);
    var s := d + [digit];
    assert s[..|s| - 1] == d;
    ParseDecimalString(code);
    assert ParseDecimal(s) == ParseDecimal(d) * 10 + (digit as int - '0' as int);
  }

  /** A reply made only of whitespace reads as nothing: the step fails with
      the socket's error text. */
  lemma BlankReplyFails(code: nat, blank: string, socketError: string)
    requires AllTrimmable(blank)
    ensures Verdict(code, Exchange(true, blank, socketError)) == Failed(TransportErrorMessage(socketError))
  {
    assert blank == blank + [] + [];
    TrimPadded(blank, [], []);
  }

  /** A written command whose trimmed reply is non-empty but lacks the code
      fails with a message that quotes the server's trimmed reply. */
  lemma RejectionQuotesReply(code: nat, x: Exchange)
    requires code > 0 && x.written
    requires !StartsWith(Trim(x.reply), DecimalString(code))
    requires !IsEmptyString(Trim(x.reply))
    ensures Verdict(code, x) == Failed(ProtocolErrorMessage(Trim(x.reply)))
    ensures var m := Verdict(code, x).message; m[6..6 + |Trim(x.reply)|] == Trim(x.reply)
  {
  }
}
