/**
 * The `Mail` class of Mail.php: a builder whose setters fill its fields, and
 * `sendMail`, which sends the commands of `getCommand` one by one and stops
 * at the first reply it does not accept.
 *
 * The socket is abstract: `peer` is the server behind the connection and
 * `wire` the commands handed to `socket_write` on it so far. `base64_encode` is the parameter
 * `encode`.
 */
module MailClient {
  import opened PhpText
  import opened SmtpCommands
  import opened SmtpReplies
  import opened SmtpSession

  datatype Option<T> = None | Some(value: T)

  /** A connection on which every write fails: the socket before `socket()`
      has opened one. */
  function Unconnected(): Peer {
    (i: nat) => Exchange(false, "", "")
  }

  /** What a run of `cmds` against `peer` leaves behind: whether every step
      was acknowledged, the texts handed to `socket_write` (up to and
      including the refused step), and the stored message (`before` unless a step was refused). */
  predicate RunOutcome(cmds: seq<Command>, peer: Peer, ok: bool, wire: seq<string>,
                       before: Option<string>, after: Option<string>)
  {
    var k := FirstUnacknowledged(cmds, peer, 0);
    && ok == (k == |cmds|)
    && wire == Texts(cmds)[..if ok then k else k + 1]
    && after == if ok then before else Some(Verdict(cmds[k].code, peer(k)).message)
  }

  /** A run that is refused at step `i` after `i` acknowledged steps. */
  lemma RunRefusedAt(cmds: seq<Command>, peer: Peer, i: nat, wire: seq<string>, before: Option<string>, after: Option<string>)
    requires i < |cmds|
    requires forall j :: 0 <= j < i ==> AcknowledgedAt(cmds, peer, j)
    requires !AcknowledgedAt(cmds, peer, i)
    requires wire == Texts(cmds)[..i + 1]
    requires after == Some(Verdict(cmds[i].code, peer(i)).message)
    ensures RunOutcome(cmds, peer, false, wire, before, after)
  {
    FirstUnacknowledgedIsUnique(cmds, peer, i);
  }

  /** A run whose every step is acknowledged. */
  lemma RunCompleted(cmds: seq<Command>, peer: Peer, wire: seq<string>, before: Option<string>)
    requires forall j :: 0 <= j < |cmds| ==> AcknowledgedAt(cmds, peer, j)
    requires wire == Texts(cmds)[..|cmds|]
    ensures RunOutcome(cmds, peer, true, wire, before, before)
  {
    FirstUnacknowledgedIsUnique(cmds, peer, |cmds|);
  }

  class Mail {
    var username: string
    var password: string
    var server: string
    var port: int
    var from: string
    var to: string
    var subject: string
    var body: string
    /** `None` while `$errorMessage` is unset. */
    var errorMessage: Option<string>
    /** The connection to `server:port` as the server behind it answers:
        what the i-th write on the connection yields. */
    var peer: Peer
    /** The commands handed to `socket_write` on the connection, in order. */
    var wire: seq<string>

    /** A fresh object: every string field unset (read as ""), port 25, no error. */
    constructor ()
      ensures username == "" && password == "" && server == ""
      ensures from == "" && to == "" && subject == "" && body == ""
      ensures port == 25 && errorMessage == None && wire == []
      ensures peer == Unconnected()
    {
      username, password, server := "", "", "";
      from, to, subject, body := "", "", "", "";
      port := 25;
      errorMessage := None;
      peer := Unconnected();
      wire := [];
    }

    /** `setServer`: host and port are always replaced; a user name or
        password that PHP's `empty()` holds empty ("" or "0") leaves the
        stored one in place. */
    method SetServer(server: string, username: string := "", password: string := "", port: int := 25)
      returns (ok: bool)
      modifies this`server, this`port, this`username, this`password
      ensures this.server == server && this.port == port
      ensures this.username == if IsEmptyString(username) then old(this.username) else username
      ensures this.password == if IsEmptyString(password) then old(this.password) else password
      ensures ok
    {
      this.server := server;
      this.port := port;
      if !IsEmptyString(username) {
        this.username := username;
      }
      if !IsEmptyString(password) {
        this.password := password;
      }
      ok := true;
    }

    /** `setFrom`: replaces the sender and nothing else. */
    method SetFrom(from: string) returns (ok: bool)
      modifies this`from
      ensures this.from == from && ok
    {
      this.from := from;
      ok := true;
    }

    /** `setReceiver`: replaces the recipient and nothing else. */
    method SetReceiver(to: string) returns (ok: bool)
      modifies this`to
      ensures this.to == to && ok
    {
      this.to := to;
      ok := true;
    }

    /** `setMailInfo`: replaces subject and body and nothing else. */
    method SetMailInfo(subject: string, body: string) returns (ok: bool)
      modifies this`subject, this`body
      ensures this.subject == subject && this.body == body && ok
    {
      this.subject := subject;
      this.body := body;
      ok := true;
    }

    /** `getCommand`: the nine-step dialogue for the current fields; it reads
        the object and changes nothing. */
    function GetCommand(encode: string -> string): (cmds: seq<Command>)
      reads this`username, this`password, this`from, this`to, this`subject, this`body
      ensures IsMailDialogue(cmds)
    {
      Commands(username, password, from, to, subject, body, encode)
    }

    /** `error`: the last stored message, or "" when none was ever stored
        (in which case the field is set to ""). */
    method Error() returns (message: string)
      modifies this`errorMessage
      ensures message == if old(errorMessage).Some? then old(errorMessage).value else ""
      ensures errorMessage == Some(message)
    {
      if errorMessage.None? {
        errorMessage := Some("");
      }
      message := errorMessage.value;
    }

    /** The successful path of `socket()`: a new connection to
        `server:port`, answering as `connection`, with nothing handed to
        `socket_write` on it yet. */
    method Socket(connection: Peer)
      modifies this`peer, this`wire
      ensures peer == connection && wire == []
    {
      peer := connection;
      wire := [];
    }

    /** `sendCommand`: hand `command` to `socket_write` (logged in `wire`
        whether or not the write succeeds), read and check the reply against
        `code`; on failure store the message in `errorMessage`. */
    method SendCommand(command: string, code: nat) returns (ok: bool)
      modifies this`wire, this`errorMessage
      ensures var v := Verdict(code, peer(|old(wire)|));
        && ok == v.Acknowledged?
        && wire == old(wire) + [command]
        && errorMessage == if ok then old(errorMessage) else Some(v.message)
    {
      var x := peer(|wire|);
      wire := wire + [command];
      var v := Verdict(code, x);
      match v
      case Acknowledged =>
        ok := true;
      case Failed(message) =>
        errorMessage := Some(message);
        ok := false;
    }

    /** `sendMail`: open the connection, then send the commands of
        `getCommand` in order. */
    method SendMail(connection: Peer, encode: string -> string) returns (ok: bool)
      modifies this`peer, this`wire, this`errorMessage
      ensures peer == connection
      ensures RunOutcome(GetCommand(encode), connection, ok, wire, old(errorMessage), errorMessage)
    {
      var cmds := GetCommand(encode);
      Socket(connection);
      ok := SendAll(cmds);
    }

    /** The `foreach` of `sendMail`: send the commands in order and stop at
        the first one not acknowledged. The result is true exactly when all
        are acknowledged; on failure the commands handed to `socket_write`
        are those up to and including the refused one (whose write may
        itself have failed), and `errorMessage` holds its message;
        on success `errorMessage` is untouched. */
    method SendAll(cmds: seq<Command>) returns (ok: bool)
      requires wire == []
      modifies this`wire, this`errorMessage
      ensures RunOutcome(cmds, peer, ok, wire, old(errorMessage), errorMessage)
    {
      var connection := peer;
      var i := 0;
      while i < |cmds|
        invariant 0 <= i <= |cmds|
        invariant wire == Texts(cmds)[..i]
        invariant forall j :: 0 <= j < i ==> AcknowledgedAt(cmds, connection, j)
        invariant errorMessage == old(errorMessage)
        invariant peer == connection
      {
        ok := SendCommand(cmds[i].text, cmds[i].code);
        assert wire == Texts(cmds)[..i + 1];
        if !ok {
          RunRefusedAt(cmds, connection, i, wire, old(errorMessage), errorMessage);
          return;
        }
        AcknowledgedPrefixExtends(cmds, connection, i);
        i := i + 1;
      }
      RunCompleted(cmds, connection, wire, errorMessage);
      ok := true;
    }
  }
}
