/**
 * The lock-step run of `Mail::sendMail` (Mail.php:119-130) as a function of
 * the command list and of the server's behaviour: the index of the first step
 * that is not acknowledged, and the scenarios that follow from it.
 */
module SmtpSession {
  import opened PhpText
  import opened SmtpCommands
  import opened SmtpReplies

  /** The server, exchange by exchange: `peer(i)` is what writing the i-th
      command of the connection and reading the answer yields. */
  type Peer = nat -> Exchange

  /** Step `j` of the run is acknowledged by the server. */
  predicate AcknowledgedAt(cmds: seq<Command>, peer: Peer, j: nat)
    requires j < |cmds|
  {
    Verdict(cmds[j].code, peer(j)).Acknowledged?
  }

  /** The index where the run starting at step `i` stops: the first step at
      or after `i` whose reply is not acknowledged, or `|cmds|` when every
      remaining step is. */
  function FirstUnacknowledged(cmds: seq<Command>, peer: Peer, i: nat): (k: nat)
    requires i <= |cmds|
    ensures i <= k <= |cmds|
    ensures forall j :: i <= j < k ==> AcknowledgedAt(cmds, peer, j)
    ensures k < |cmds| ==> !AcknowledgedAt(cmds, peer, k)
    decreases |cmds| - i
  {
    if i == |cmds| then i
    else if !AcknowledgedAt(cmds, peer, i) then i
    else
      var k := FirstUnacknowledged(cmds, peer, i + 1);
      AcknowledgedRangeExtendsDown(cmds, peer, i, k);
      k
  }

  /** An acknowledged step in front of an acknowledged range extends it downwards. */
  lemma AcknowledgedRangeExtendsDown(cmds: seq<Command>, peer: Peer, i: nat, k: nat)
    requires i < k <= |cmds|
    requires AcknowledgedAt(cmds, peer, i)
    requires forall j :: i + 1 <= j < k ==> AcknowledgedAt(cmds, peer, j)
    ensures forall j :: i <= j < k ==> AcknowledgedAt(cmds, peer, j)
  {
    forall j | i <= j < k
      ensures AcknowledgedAt(cmds, peer, j)
    {
      if j != i {
        assert i + 1 <= j;
      }
    }
  }

  /** One more acknowledged step extends the acknowledged prefix of the run. */
  lemma AcknowledgedPrefixExtends(cmds: seq<Command>, peer: Peer, i: nat)
    requires i < |cmds|
    requires forall j :: 0 <= j < i ==> AcknowledgedAt(cmds, peer, j)
    requires AcknowledgedAt(cmds, peer, i)
    ensures forall j :: 0 <= j < i + 1 ==> AcknowledgedAt(cmds, peer, j)
  {
  }

  /** The wire texts of a list of commands, in order. */
  function Texts(cmds: seq<Command>): (texts: seq<string>)
    ensures |texts| == |cmds|
    ensures forall i :: 0 <= i < |cmds| ==> texts[i] == cmds[i].text
  {
    seq(|cmds|, i requires 0 <= i < |cmds| => cmds[i].text)
  }

  /** The stopping index is determined by the replies: it is `k` exactly when
      every step before `k` is acknowledged and step `k` is not (or `k` is
      the end of the list). */
  lemma FirstUnacknowledgedIsUnique(cmds: seq<Command>, peer: Peer, k: nat)
    requires k <= |cmds|
    ensures FirstUnacknowledged(cmds, peer, 0) == k <==>
      (forall j :: 0 <= j < k ==> AcknowledgedAt(cmds, peer, j)) && (k < |cmds| ==> !AcknowledgedAt(cmds, peer, k))
  {
  }

  /** A server that answers every step with exactly its code and CRLF. */
  function CodeEchoingPeer(cmds: seq<Command>): Peer {
    (i: nat) => if i < |cmds| then Exchange(true, DecimalString(cmds[i].code) + "\r\n", "") else Exchange(false, "", "")
  }

  /** Against a server that echoes every expected (positive) code, the run
      goes through the whole list. */
  lemma {:induction false} EchoingPeerAcknowledgesAll(cmds: seq<Command>)
    requires forall i :: 0 <= i < |cmds| ==> cmds[i].code > 0
    ensures FirstUnacknowledged(cmds, CodeEchoingPeer(cmds), 0) == |cmds|
  {
    var peer := CodeEchoingPeer(cmds);
    forall j | 0 <= j < |cmds|
      ensures AcknowledgedAt(cmds, peer, j)
    {
      assert peer(j) == Exchange(true, DecimalString(cmds[j].code) + "\r\n", "");
      EchoedCodeAcknowledged(cmds[j]);
    }
  }

  lemma EchoedCodeAcknowledged(c: Command)
    requires c.code > 0
    ensures Verdict(c.code, Exchange(true, DecimalString(c.code) + "\r\n", "")).Acknowledged?
  {
    assert DecimalString(c.code) + [] + "\r\n" == DecimalString(c.code) + "\r\n";
    WellFormedReplyAccepted(c.code, [], "");
  }

  /** A nine-step dialogue with the reply codes of the mail client, as
      `Commands` builds it. */
  predicate IsMailDialogue(cmds: seq<Command>) {
    |cmds| == |ExpectedCodes| && forall i :: 0 <= i < |cmds| ==> cmds[i].code == ExpectedCodes[i]
  }

  /** Every expected code of the mail dialogue is positive, so an echoing
      server lets all nine steps through. */
  lemma MailDialogueWithEchoingPeer(cmds: seq<Command>)
    requires IsMailDialogue(cmds)
    ensures FirstUnacknowledged(cmds, CodeEchoingPeer(cmds), 0) == |cmds| == 9
  {
    ExpectedCodesPositive();
    EchoingPeerAcknowledgesAll(cmds);
  }

  lemma ExpectedCodesPositive()
    ensures forall i :: 0 <= i < |ExpectedCodes| ==> ExpectedCodes[i] > 0
  {
    forall i | 0 <= i < |ExpectedCodes|
      ensures ExpectedCodes[i] > 0
    {
      assert ExpectedCodes[i] in ExpectedCodes;
    }
  }

  /** A server that refuses the user name with "535 auth failed" stops the
      run at the third step; the stored message quotes that reply. */
  lemma AuthRejectionStopsRun(cmds: seq<Command>, peer: Peer, reply: string, socketError: string)
    requires IsMailDialogue(cmds)
    requires AcknowledgedAt(cmds, peer, 0) && AcknowledgedAt(cmds, peer, 1)
    requires reply == "535 auth failed\r\n"
    requires peer(2) == Exchange(true, reply, socketError)
    ensures FirstUnacknowledged(cmds, peer, 0) == 2
    ensures Verdict(cmds[2].code, peer(2)) == Failed(ProtocolErrorMessage("535 auth failed"))
  {
    UserNameRefused(cmds, peer, reply, socketError);
    FirstUnacknowledgedIsUnique(cmds, peer, 2);
  }

  lemma UserNameRefused(cmds: seq<Command>, peer: Peer, reply: string, socketError: string)
    requires IsMailDialogue(cmds)
    requires reply == "535 auth failed\r\n"
    requires peer(2) == Exchange(true, reply, socketError)
    ensures Verdict(cmds[2].code, peer(2)) == Failed(ProtocolErrorMessage("535 auth failed"))
  {
    assert cmds[2].code == 334;
    AuthFailedReplyRejected(reply, socketError);
  }

  /** "535 auth failed" does not start with 334. */
  lemma AuthFailedReplyRejected(reply: string, socketError: string)
    requires reply == "535 auth failed\r\n"
    ensures Verdict(334, Exchange(true, reply, socketError)) == Failed(ProtocolErrorMessage("535 auth failed"))
  {
    var text := "535 auth failed";
    AuthFailedReplyTrimmed(reply, text);
    LeadingDigitOf334();
    assert text[0] != DecimalString(334)[0];
    assert !StartsWith(text, DecimalString(334));
  }

  lemma AuthFailedReplyTrimmed(reply: string, text: string)
    requires reply == "535 auth failed\r\n" && text == "535 auth failed"
    ensures Trim(reply) == text
  {
    assert reply == [] + text + "\r\n";
    assert AllTrimmable("\r\n");
    TrimPadded([], text, "\r\n");
  }

  lemma LeadingDigitOf334()
    ensures DecimalString(334)[0] == '3'
  {
    assert DecimalString(334) == DecimalString(33) + [DigitChar(4)];
    assert DecimalString(33) == DecimalString(3) + [DigitChar(3)];
  }

  /** A blank reply to DATA stops the run at the seventh step with the
      socket's error text, before the message and QUIT are sent. */
  lemma BlankReplyToDataStopsRun(cmds: seq<Command>, peer: Peer, blank: string, socketError: string)
    requires IsMailDialogue(cmds)
    requires forall j :: 0 <= j < 6 ==> AcknowledgedAt(cmds, peer, j)
    requires AllTrimmable(blank)
    requires peer(6) == Exchange(true, blank, socketError)
    ensures FirstUnacknowledged(cmds, peer, 0) == 6
    ensures Verdict(cmds[6].code, peer(6)) == Failed(TransportErrorMessage(socketError))
  {
    BlankReplyFails(354, blank, socketError);
    FirstUnacknowledgedIsUnique(cmds, peer, 6);
  }
}
