# Mail: a verified model of a minimal PHP SMTP client

`Mail.php` defines one class, `Mail`. Its setters fill in the server,
credentials, sender, recipient, subject and body. `getCommand` turns these
fields into a fixed nine-step SMTP dialogue: HELO, AUTH LOGIN, the encoded user
name and password, MAIL FROM, RCPT TO, DATA, the message itself, and QUIT. Each
step carries the reply code the client expects. `sendMail` opens a connection
and sends the steps in order through `sendCommand`. It stops at the first reply
that is refused. `sendCommand` trims the reply and treats an empty one as a
transport failure. Otherwise it accepts the reply exactly when it starts with
the decimal digits of the expected code, and on failure it stores a message
that `error()` hands back.

The Dafny project has five modules:

- `PhpText` (`php_text.dfy`): the PHP string behaviour the class relies on.
  - `empty()` and string truthiness, under which both "" and "0" are false.
  - `trim()` with its default character list: space, tab, LF, CR, NUL and
    vertical tab.
  - The decimal rendering of an integer, with a round-trip proof against
    decimal parsing.
  - The anchored prefix test that the pattern `/^code/` performs.
- `SmtpCommands` (`smtp_commands.dfy`): `getCommand` as a pure function.
  - It builds the message blob and the list of (wire text, expected code)
    pairs.
  - It includes where a server reading the blob after DATA stops.
- `SmtpReplies` (`smtp_replies.dfy`): the reply check of `sendCommand` as a
  function of one exchange on the socket.
  - The exchange is whether the write succeeded, the raw reply, and the
  socket's error text.
- `SmtpSession` (`smtp_session.dfy`): the lock-step run as a specification
  function.
  - It computes the index of the first step that is not acknowledged.
  - Scenario lemmas cover a server that echoes every code, a refused user name
    and a blank reply to DATA.
- `MailClient` (`mail.dfy`): the class itself.
  - A `Mail` class with the source's fields, setters that change only their
    own fields, and the lazily initialised `Error`.
  - `SendCommand`, which records the text handed to `socket_write` and the stored message.
  - `SendMail`, whose `foreach` loop (`SendAll`) is proved against
    `FirstUnacknowledged` with a loop invariant over the acknowledged prefix.

The socket is replaced by a `Peer`, a function from the index of a write on the
connection to the `Exchange` that write yields; it stands for the connection to
`server:port`. The field `wire` logs the texts handed to `socket_write` so far,
whether or not each write succeeded. `base64_encode` is the parameter `encode` of the functions that
need it, and it is not interpreted.

## Model

| member | source | states |
|---|---|---|
| MailClient.Mail.constructor | Mail.php:18-57 | A new object has every string field unset (read as ""), port 25, no stored error, nothing handed to `socket_write`, and no connection (every write would fail). |
| MailClient.Mail.SetServer | Mail.php:67-78 | Server and port are always replaced. User name and password are replaced only when the new value is not PHP-empty ("" or "0"); otherwise they keep their previous value. Returns true. |
| MailClient.Mail.SetFrom | Mail.php:85-89 | Replaces the sender and nothing else. Returns true. |
| MailClient.Mail.SetReceiver | Mail.php:96-100 | Replaces the recipient and nothing else. Returns true. |
| MailClient.Mail.SetMailInfo | Mail.php:108-113 | Replaces subject and body and nothing else. Returns true. |
| MailClient.Mail.GetCommand | Mail.php:148-167 | Reads only the six message fields and changes nothing. Its result is a nine-step dialogue with the codes 250, 334, 334, 235, 250, 250, 354, 250, 221 in that order. |
| MailClient.Mail.Error | Mail.php:136-142 | Returns the last stored message, or "" when none was stored, in which case the field becomes "". |
| MailClient.Mail.Socket | Mail.php:215-226 | The successful path of `socket()`: a fresh connection to `server:port`, answering as the given peer, with nothing handed to `socket_write` on it. |
| MailClient.Mail.SendCommand | Mail.php:176-198 | Appends the command to the texts handed to `socket_write`, even when the write fails. The result is the verdict on the reply to this write. On failure `errorMessage` becomes the verdict's message; on success it is unchanged. |
| MailClient.Mail.SendMail | Mail.php:119-130 | Takes the commands of `getCommand`, then opens the connection. Let k be the first refused step. The result is true exactly when there is none. The texts handed to `socket_write` are those of steps 0..k, so no command after the refused step is handed over. The stored error is the refused step's message, or unchanged on success. |
| MailClient.Mail.SendAll | Mail.php:123-129 | The `foreach` with early return, proved against `FirstUnacknowledged`. The invariant keeps every step sent so far acknowledged, the texts handed to `socket_write` equal to theirs, and `errorMessage` untouched. |
| MailClient.RunRefusedAt | Mail.php:124-125 | A run whose first i steps are acknowledged and whose step i is refused returns false. It has handed steps 0..i to `socket_write` and stores step i's message. |
| MailClient.RunCompleted | Mail.php:123-129 | A run whose every step is acknowledged returns true, has handed every step to `socket_write`, and leaves the stored message unchanged. |
| PhpText.TrimStart | Mail.php:182 | The leading half of `trim()`. The result is a suffix of the input, what it drops is all trimmable, and it does not start with a trimmable character. |
| PhpText.TrimEnd | Mail.php:182 | The trailing half of `trim()`. The result is a prefix of the input, what it drops is all trimmable, and it does not end with a trimmable character. |
| PhpText.Trim | Mail.php:182 | `trim()` never lengthens the reply and leaves no trimmable character at either end. |
| PhpText.TrimPadded | Mail.php:182 | `trim()` removes exactly the padding around a text with no trimmable character at its ends. |
| PhpText.TrimIdempotent | Mail.php:182 | Trimming twice equals trimming once. |
| PhpText.StartsWithLeadingCharacters | Mail.php:184-185 | The anchored pattern matches exactly when the reply is at least as long as the code and its leading characters are the code's digits, one by one. |
| PhpText.DecimalString | Mail.php:184 | The code as PHP writes it into the pattern: at least one digit, all digits, and no leading zero for a positive code. |
| PhpText.ParseDecimalString | Mail.php:184 | Reading the decimal string of n back gives n (round trip). |
| PhpText.DecimalStringInjective | Mail.php:184 | Different codes have different decimal strings. |
| SmtpCommands.Line | Mail.php:156-164 | A command line is its text followed by CRLF, and nothing else. |
| SmtpCommands.HeaderFraming | Mail.php:150-152 | The header starts with "FROM:" and ends with the empty line (CRLF CRLF) that separates it from the body. |
| SmtpCommands.MessageBlob | Mail.php:150-153 | The message ends with the marker CRLF "." CRLF. What precedes the marker is exactly the FROM/TO/Subject header, the blank line and the body. |
| SmtpCommands.Commands | Mail.php:155-165 | Exactly nine steps with the expected codes 250, 334, 334, 235, 250, 250, 354, 250, 221 in order, each text ending in CRLF. |
| SmtpCommands.LineIsSingleLine | Mail.php:156-164 | A text without CR or LF becomes a single protocol line. |
| SmtpCommands.CommandsAreSingleLines | Mail.php:156-164 | Steps 1-7 and 9 are single protocol lines when the addresses and the encoded credentials hold no CR or LF. |
| SmtpCommands.RecipientLineBreakSplitsCommand | Mail.php:161 | A recipient containing CR or LF makes the RCPT step more than one line: the address is not checked. |
| SmtpCommands.EndOfData | Mail.php:153 | Where a server reading after DATA stops: the first end-of-data marker at or after a position, or the end of the text. No marker occurs before it. |
| SmtpCommands.NoDotAfterLineFeedConcat | Mail.php:150-153 | Joining two texts creates no line starting with "." unless the join itself does. |
| SmtpCommands.HeaderHasNoDotLine | Mail.php:150-152 | With single-line fields, no header line starts with ".". |
| SmtpCommands.DataEndsAtBlobEnd | Mail.php:150-153 | When the fields are single lines and no body line starts with ".", the server's data ends exactly at the appended marker, and it has read header and body intact. |
| SmtpCommands.BodyMarkerEndsDataEarly | Mail.php:153 | The body is not dot-stuffed: a body that contains the marker ends the data before the body does. |
| SmtpReplies.Verdict | Mail.php:180-198 | The reply check of `sendCommand` on one exchange. Every message it stores starts with "Error:". A failed write is a transport failure whatever the server would have replied. |
| SmtpReplies.AcknowledgedImpliesCodePrefix | Mail.php:182-186 | An acknowledged step was written and its trimmed reply starts with the digits of the code. |
| SmtpReplies.ProtocolErrorMessageQuotesReply | Mail.php:188 | The protocol message is "Error:", then the trimmed reply, then "&#124;**&#124; command:". Equal messages mean equal replies. |
| SmtpReplies.TransportErrorMessageQuotesError | Mail.php:192-196 | The transport message is "Error:" followed by the socket's error text. Equal messages mean equal error texts. |
| SmtpReplies.ZeroReplyIsTransportFailure | Mail.php:182-193 | A trimmed reply "0" is false for `if ($data)`: the step fails with the socket's error text, not with the reply. |
| SmtpReplies.AcknowledgedIffCodePrefix | Mail.php:182-186 | For a positive code: acknowledged if and only if the write succeeded and the trimmed reply starts with the code's decimal digits. |
| SmtpReplies.AcknowledgedReplyCarriesCode | Mail.php:184-186 | An acknowledged reply begins with digits that parse back to the expected code. |
| SmtpReplies.WellFormedReplyAccepted | Mail.php:182-186 | A reply of the form code, optional text, CRLF is acknowledged. |
| SmtpReplies.LongerCodeAccepted | Mail.php:184-185 | The prefix test also accepts a reply whose leading number has an extra digit (for 250, "2501 x"), although that number differs from the code. |
| SmtpReplies.LongerNumberDiffers | Mail.php:184-185 | Appending a digit to a code's decimal string gives a number different from the code. |
| SmtpReplies.BlankReplyFails | Mail.php:182-183 | A reply made only of whitespace fails with "Error:" and the socket's error text. |
| SmtpReplies.RejectionQuotesReply | Mail.php:187-189 | A non-empty trimmed reply without the code fails with "Error:" + trimmed reply + "&#124;**&#124; command:", and the message quotes the reply. |
| SmtpSession.FirstUnacknowledged | Mail.php:123-127 | Where the run stops: every step before the result is acknowledged, and the step at the result is refused unless the result is the end of the list. |
| SmtpSession.FirstUnacknowledgedIsUnique | Mail.php:123-127 | The stopping index is k if and only if every step before k is acknowledged and step k is refused (or k is the end). |
| SmtpSession.Texts | Mail.php:123-124 | The texts the loop hands to `socket_write`, one per step and in step order. |
| SmtpSession.EchoingPeerAcknowledgesAll | Mail.php:123-129 | Against a server that answers each step with exactly its code, every step with a positive code is acknowledged, so the run reaches the end. |
| SmtpSession.EchoedCodeAcknowledged | Mail.php:182-186 | A reply made of the code and CRLF is acknowledged. |
| SmtpSession.MailDialogueWithEchoingPeer | Mail.php:119-129 | The mail dialogue against such a server runs through all nine steps. |
| SmtpSession.AuthRejectionStopsRun | Mail.php:124-125 | A "535 auth failed" reply to the user name stops the run at the third step. The stored message quotes that reply. |
| SmtpSession.UserNameRefused | Mail.php:158 | The user-name step (code 334) is refused by "535 auth failed". |
| SmtpSession.AuthFailedReplyRejected | Mail.php:182-189 | "535 auth failed" CRLF, checked against 334, fails with the protocol message quoting the trimmed reply. |
| SmtpSession.AuthFailedReplyTrimmed | Mail.php:182 | Trimming "535 auth failed" CRLF drops exactly the CRLF. |
| SmtpSession.BlankReplyToDataStopsRun | Mail.php:191-193 | A blank reply to DATA stops the run at the seventh step, before the message and QUIT are handed to `socket_write`, with the socket's error text stored. |

## Left out

- Opening the connection: checking for the sockets extension, `socket_create`, blocking mode, `socket_connect` and reading the greeting. `Socket` models only the successful path.
  - When `socket_connect` fails, the source stores the socket's error text, and `sendMail` ignores `socket()`'s result and goes on to `sendCommand`. The writes on the unconnected socket then fail. The model can express those failed writes with a peer that fails every write (`Unconnected`), but the message `socket()` stores is not modelled.
  - When the sockets extension is missing, or `socket_create` fails, there is no socket to write on. What the next `socket_write` call does then depends on the PHP version and is not modelled. A call to an undefined function, or a `TypeError` under PHP 8, is a fatal `Error` that `catch (Exception ...)` does not catch.
- The model follows PHP 7, where a socket is a resource. There `is_object($this->socket)` is false, so `close()` does nothing and a fully acknowledged `sendMail` returns true.
  - Under PHP 8 `socket_create` returns a `Socket` object, which has no `close` method. `$this->socket->close()` then throws an `Error`, so a fully acknowledged `sendMail` never reaches `return true`.
  - That PHP 8 behaviour is not modelled.
- The `catch` branch of `sendCommand`. It needs an exception from a foreign call; it stores the message and returns null, which `sendMail` treats as a refusal.
- `base64_encode` is the uninterpreted parameter `encode`. The encoding itself is not modelled.
- The socket calls are not modelled. The model takes their outcome as the `Exchange` of each write:
  - `written` is whether `socket_write` returned a truthy value.
  - `reply` is what `socket_read` returned; its 1024-byte limit is not modelled.
  - `socketError` is the text of `socket_strerror(socket_last_error())`.
- Strings are sequences of characters rather than bytes, and `trim()`'s character list is taken as characters.
- `preg_match` is modelled only for the patterns `sendCommand` builds: `^` followed by the digits of a non-negative code, which is a prefix test.
- PHP's loose types are not modelled: every field is a string except `port`. An unset (null) field reads as "" when interpolated, which is how the constructor starts.
- Dot-stuffing is absent from the source and from the model. `BodyMarkerEndsDataEarly` shows what happens without it.
- Recipient lists, Cc/Bcc, HTML content type, extra headers and a configuration check before sending are not in `Mail.php`. The model follows the code: one recipient, one RCPT step, and no check before the connection is opened.
