/** `BasicClient`: one IRC session. The object keeps the channel and user
    tables, the client's own identity, the transport handle and the
    reconnection state, and its methods change them in place. The transport
    is reduced to where it connects and whether it is connected; sockets,
    logging and the wait before a reconnect are not modelled. */
module Client {
  import opened Wrappers
  import Text
  import Registry
  import Reconnect
  import Tag

  /** The nickname the client has before the server has accepted one. */
  const UNREGISTERED_NICKNAME := "<unregistered>"

  /** The protocol module's defaults, used when no port or encoding is given. */
  const DEFAULT_PORT := 6667
  const DEFAULT_ENCODING := "utf-8"

  /** The transport: the host and port it was made for, and whether it is
      connected. */
  datatype Transport = Transport(hostname: Option<string>, port: int, connected: bool)

  /** What `connect` raises: `ValueError` without a host or a port, and
      `TypeError` when the logger name is built from a `None` server tag. */
  datatype ConnectError = ValueError | TypeError

  /** The default `is_same_nick`: plain equality. */
  function SameNick(left: string, right: string): bool {
    left == right
  }

  /** `connect`'s guard: a host name and a (non-zero) port must both be given. */
  predicate MissingTarget(hostname: Option<string>, port: Option<int>) {
    !Text.Truthy(hostname) || !(port.Some? && port.value != 0)
  }

  /** `port or protocol.DEFAULT_PORT`. */
  function PortOr(port: Option<int>): int {
    if port.Some? && port.value != 0 then port.value else DEFAULT_PORT
  }

  /** Whether reconnecting `transport` after `decision` raises: a retry
      reconnects it, and a transport without a host name has no server tag. */
  predicate RetryRaises(transport: Transport, decision: Reconnect.Decision) {
    decision.Retry? && !Text.Truthy(transport.hostname)
  }

  /** The transport after `connect(reconnect=True)`: the existing one
      connected again, or, when there is none, a new one to the default port. */
  function Reopened(connection: Option<Transport>): Transport {
    if connection.Some? then connection.value.(connected := true)
    else Transport(None, DEFAULT_PORT, true)
  }

  class Client {
    /** The reconnection class attributes and the nickname-equality policy. */
    const policy: Reconnect.Policy
    const sameNick: (string, string) -> bool

    /** The nickname followed by the fallback nicknames. */
    const nicknames: seq<string>

    /** The client's own identity. */
    var username: Option<string>
    var realname: string
    var hostname: Option<string>
    var nickname: string
    var network: Option<string>

    /** The registry. */
    var channels: map<string, set<string>>
    var users: map<string, Registry.User>

    var receiveBuffer: seq<bv8>

    /** Connection attributes. */
    var connection: Option<Transport>
    var encoding: Option<string>
    var hasQuit: bool
    var autojoin: seq<string>
    var attempts: nat

    function Tables(): Registry.Tables
      reads this
    {
      Registry.Tables(channels, users)
    }

    /** The object invariant: the registry is consistent. */
    ghost predicate Valid()
      reads this
    {
      Registry.Consistent(Tables())
    }

    /** The `connected` property. */
    predicate Connected()
      reads this
      ensures Connected() ==> connection.Some?
    {
      connection.Some? && connection.value.connected
    }

    /** The `server_tag` property. */
    function ServerTag(): (r: Option<string>)
      reads this
      ensures r.Some? <==> Connected() && Text.Truthy(connection.value.hostname)
      ensures r.Some? ==> Text.IsLowerCase(r.value)
    {
      Tag.ServerTag(Connected(), if connection.Some? then connection.value.hostname else None, network)
    }

    /** `on_disconnect(expected)` can compute its delay without indexing past
        the schedule. */
    predicate DelaySafe(expected: bool)
      reads this
    {
      !expected && Reconnect.MayRetry(policy, attempts) ==> Reconnect.DelayDefined(policy, attempts)
    }

    /** `BasicClient(nickname, fallback_nicknames, username, realname)`: an
        empty username or realname falls back to the nickname (lower-cased for
        the username), and every other attribute starts from its reset value. */
    constructor (nick: string, fallbacks: seq<string> := [], userName: Option<string> := None,
                 realName: Option<string> := None, policy: Reconnect.Policy := Reconnect.DefaultPolicy,
                 sameNick: (string, string) -> bool := SameNick)
      ensures Valid()
      ensures nicknames == [nick] + fallbacks
      ensures username == Some(if Text.Truthy(userName) then userName.value else Text.Lower(nick))
      ensures realname == if Text.Truthy(realName) then realName.value else nick
      ensures this.policy == policy && this.sameNick == sameNick
      ensures connection == None && encoding == None && !hasQuit && autojoin == [] && attempts == 0
      ensures channels == map[] && users == map[] && receiveBuffer == []
      ensures nickname == UNREGISTERED_NICKNAME && network == None && hostname == None
    {
      this.policy := policy;
      this.sameNick := sameNick;
      nicknames := [nick] + fallbacks;
      username := Some(if Text.Truthy(userName) then userName.value else Text.Lower(nick));
      realname := if Text.Truthy(realName) then realName.value else nick;
      hostname := None;
      connection, encoding, hasQuit, autojoin, attempts := None, None, false, [], 0;
      channels, users, receiveBuffer := map[], map[], [];
      nickname, network := UNREGISTERED_NICKNAME, None;
    }

    /** `_reset_attributes`: empty registry and buffer, no nickname, no network. */
    method ResetAttributes()
      modifies this`channels, this`users, this`receiveBuffer, this`nickname, this`network
      ensures Valid()
      ensures channels == map[] && users == map[] && receiveBuffer == []
      ensures nickname == UNREGISTERED_NICKNAME && network == None
    {
      channels, users, receiveBuffer := map[], map[], [];
      nickname, network := UNREGISTERED_NICKNAME, None;
    }

    /** `_reset_connection_attributes`. */
    method ResetConnectionAttributes()
      modifies this`connection, this`encoding, this`hasQuit, this`autojoin, this`attempts
      ensures connection == None && encoding == None && !hasQuit && autojoin == [] && attempts == 0
    {
      connection, encoding, hasQuit, autojoin, attempts := None, None, false, [], 0;
    }

    // ---------------------------------------------------------------------
    // The registry.

    /** `_create_channel`. */
    method CreateChannel(c: string)
      requires Valid()
      modifies this`channels
      ensures Valid()
      ensures Tables() == Registry.CreateChannel(old(Tables()), c)
    {
      channels := channels[c := {}];
    }

    /** `_create_user`. */
    method CreateUser(nick: string)
      requires Valid()
      modifies this`users
      ensures Valid()
      ensures Tables() == Registry.CreateUser(old(Tables()), nick)
    {
      users := users[nick := Registry.NewUser(nick)];
    }

    /** `_sync_user`: besides the registry update, a patch about the client's
        own nickname (under `is_same_nick`) sets its own username and host. */
    method SyncUser(nick: string, patch: Registry.Patch)
      requires Valid()
      modifies this`users, this`username, this`hostname
      ensures Valid()
      ensures Tables() == Registry.SyncUser(old(Tables()), nick, patch)
      ensures username == if '.' !in nick && sameNick(nickname, nick) && Registry.Username in patch
                          then patch[Registry.Username] else old(username)
      ensures hostname == if '.' !in nick && sameNick(nickname, nick) && Registry.Hostname in patch
                          then patch[Registry.Hostname] else old(hostname)
    {
      if '.' in nick {
        return;
      }
      if nick !in users {
        CreateUser(nick);
      }
      var isSelf := sameNick(nickname, nick);
      if isSelf {
        if Registry.Username in patch {
          username := patch[Registry.Username];
        }
        if Registry.Hostname in patch {
          hostname := patch[Registry.Hostname];
        }
      }
      users := users[nick := Registry.Update(users[nick], patch)];
    }

    /** `_rename_user`, taking the record out before storing it under the new
        nickname so that a rename to the same nickname keeps it. */
    method RenameUser(oldNick: string, newNick: string)
      requires Valid()
      modifies this`users, this`channels
      ensures Valid()
      ensures Tables() == Registry.RenameUser(old(Tables()), oldNick, newNick)
    {
      ghost var t0 := Tables();
      if oldNick in users {
        var record := users[oldNick];
        users := users - {oldNick};
        users := users[newNick := record.(nickname := Some(newNick))];
      } else {
        users := users[newNick := Registry.NewUser(newNick)];
      }
      assert oldNick in t0.users ==>
        users == (t0.users - {oldNick})[newNick := t0.users[oldNick].(nickname := Some(newNick))];
      ghost var before, renamed := channels, users;
      var keys := channels.Keys;
      while keys != {}
        invariant keys <= before.Keys && channels.Keys == before.Keys && users == renamed
        invariant forall k :: k in before ==>
          channels[k] == if k in keys then before[k] else Registry.RenameMember(before[k], oldNick, newNick)
        decreases keys
      {
        var k :| k in keys;
        if oldNick in channels[k] {
          channels := channels[k := channels[k] - {oldNick} + {newNick}];
        }
        keys := keys - {k};
      }
      assert channels == map k | k in before :: Registry.RenameMember(before[k], oldNick, newNick);
      assert Tables() == Registry.RenameUser(t0, oldNick, newNick);
    }

    /** `_destroy_user(nick, channel)`. */
    method DestroyUser(nick: string, channel: Option<string>)
      requires Valid()
      requires Registry.Given(channel) ==> channel.value in channels
      requires nick in users
      modifies this`users, this`channels
      ensures Valid()
      ensures Tables() == Registry.DestroyUser(old(Tables()), nick, channel)
    {
      ghost var t0 := Tables();
      if Registry.Given(channel) {
        var c := channel.value;
        channels := channels[c := channels[c] - {nick}];
      } else {
        ghost var before := channels;
        var keys := channels.Keys;
        while keys != {}
          invariant keys <= before.Keys && channels.Keys == before.Keys && users == t0.users
          invariant forall k :: k in before ==> channels[k] == if k in keys then before[k] else before[k] - {nick}
          decreases keys
        {
          var k :| k in keys;
          channels := channels[k := channels[k] - {nick}];
          keys := keys - {k};
        }
        assert channels == map k | k in before :: before[k] - {nick};
      }
      if !Registry.Given(channel) || !Registry.InSomeChannel(channels, nick) {
        users := users - {nick};
      }
      assert Tables() == Registry.DestroyUser(t0, nick, channel);
    }

    /** `_destroy_channel(c)`: each member of a snapshot of the channel is
        passed to `_destroy_user(member, c)`, then the channel is deleted. */
    method DestroyChannel(c: string)
      requires Valid()
      requires c in channels
      modifies this`users, this`channels
      ensures Valid()
      ensures Tables() == Registry.DestroyChannel(old(Tables()), c)
    {
      ghost var t0 := Tables();
      Registry.DestroyMembersNone(t0, c);
      var todo := channels[c];
      ghost var done: set<string> := {};
      while todo != {}
        invariant todo <= t0.channels[c] && done == t0.channels[c] - todo
        invariant Tables() == Registry.DestroyMembers(t0, c, done)
        invariant Valid()
        decreases todo
      {
        var m :| m in todo;
        Registry.DestroyMemberStep(t0, c, done, m);
        DestroyUser(m, Some(c));
        todo := todo - {m};
        done := done + {m};
      }
      channels := channels - {c};
    }
  
    // ---------------------------------------------------------------------
    // The connection.

    /** `_connect`: a fresh connect records the channels to join and makes a
        new transport; a reconnect keeps them and reuses the transport it has.
        Either way the transport then connects. */
    method OpenTransport(host: Option<string>, port: Option<int>, reconnect: bool,
                         joinChannels: seq<string>, enc: string)
      modifies this`autojoin, this`connection, this`encoding
      ensures autojoin == if reconnect then old(autojoin) else joinChannels
      ensures !reconnect || old(connection).None? ==>
        connection == Some(Transport(host, PortOr(port), true)) && encoding == Some(enc)
      ensures reconnect && old(connection).Some? ==>
        connection == Some(old(connection).value.(connected := true)) && encoding == old(encoding)
    {
      if !reconnect {
        autojoin := joinChannels;
      }
      if !reconnect || connection.None? {
        connection := Some(Transport(host, PortOr(port), false));
        encoding := Some(enc);
      }
      connection := Some(connection.value.(connected := true));
    }

    /** `connect`: without a host and a port, and not reconnecting, it raises
        `ValueError` and changes nothing. Otherwise a live connection is first
        disconnected, a fresh connect resets the connection attributes, and
        the transport is opened. Naming the logger then raises `TypeError`
        when the server tag is `None`, that is when the transport has no host
        name; an exception from the inner `disconnect` propagates at once. */
    method Connect(host: Option<string>, port: Option<int>, reconnect: bool,
                   joinChannels: seq<string>, enc: string) returns (r: Outcome<ConnectError>)
      requires Valid()
      requires Connected() ==> DelaySafe(hasQuit)
      modifies this`connection, this`encoding, this`hasQuit, this`autojoin, this`attempts,
               this`channels, this`users, this`receiveBuffer, this`nickname, this`network
      decreases if Connected() then 1 else 0, 1
      ensures Valid()
      ensures r == Fail(ValueError) <==> MissingTarget(host, port) && !reconnect
      ensures r == Fail(ValueError) ==> unchanged(this)
      ensures r != Fail(ValueError) ==> Connected() && (r == Fail(TypeError) <==> ServerTag().None?)
      ensures !reconnect && r != Fail(ValueError) &&
              !(old(Connected()) &&
                RetryRaises(old(connection).value, Reconnect.Decide(policy, old(attempts), old(hasQuit)).0)) ==>
        r.Pass? &&
        connection == Some(Transport(host, PortOr(port), true)) && encoding == Some(enc) &&
        autojoin == joinChannels && attempts == 0 && !hasQuit
      ensures reconnect ==> autojoin == old(autojoin) && hasQuit == old(hasQuit)
      ensures reconnect ==>
        attempts == if old(Connected()) then Reconnect.Decide(policy, old(attempts), old(hasQuit)).1
                    else old(attempts)
      ensures reconnect && old(connection).None? ==>
        connection == Some(Transport(host, PortOr(port), true)) && encoding == Some(enc)
      ensures reconnect && old(connection).Some? ==>
        connection == Some(old(connection).value.(connected := true)) && encoding == old(encoding)
      ensures !old(Connected()) ==>
        Tables() == old(Tables()) && nickname == old(nickname) && network == old(network) &&
        receiveBuffer == old(receiveBuffer)
      ensures r != Fail(ValueError) && old(Connected()) &&
              RetryRaises(old(connection).value, Reconnect.Decide(policy, old(attempts), old(hasQuit)).0) ==>
        r == Fail(TypeError) && connection == Some(old(connection).value.(connected := true)) &&
        Tables() == old(Tables()) && nickname == old(nickname) && network == old(network) &&
        receiveBuffer == old(receiveBuffer)
      ensures r != Fail(ValueError) && old(Connected()) &&
              !RetryRaises(old(connection).value, Reconnect.Decide(policy, old(attempts), old(hasQuit)).0) ==>
        channels == map[] && users == map[] && receiveBuffer == [] &&
        nickname == UNREGISTERED_NICKNAME && network == None
      ensures old(Connected()) && r == Fail(TypeError) ==>
        attempts == Reconnect.Decide(policy, old(attempts), old(hasQuit)).1 &&
        autojoin == old(autojoin) && hasQuit == old(hasQuit) && encoding == old(encoding)
    {
      if MissingTarget(host, port) && !reconnect {
        return Fail(ValueError);
      }
      if Connected() {
        var _, raised := Disconnect();
        if raised.Fail? {
          return raised;
        }
      }
      if !reconnect {
        ResetConnectionAttributes();
      }
      OpenTransport(host, port, reconnect, joinChannels, enc);
      if ServerTag().None? {
        return Fail(TypeError);
      }
      r := Pass;
    }

    /** `disconnect`: when connected, the transport is closed, `on_disconnect`
        is told whether the client had quit, and the registry, buffer and
        nickname are reset, unless `on_disconnect` raised, which propagates
        before the reset. Returns `on_disconnect`'s decision; nothing happens
        when not connected. */
    method Disconnect() returns (d: Option<Reconnect.Decision>, e: Outcome<ConnectError>)
      requires Valid()
      requires Connected() ==> DelaySafe(hasQuit)
      modifies this`connection, this`encoding, this`hasQuit, this`autojoin, this`attempts,
               this`channels, this`users, this`receiveBuffer, this`nickname, this`network
      decreases if Connected() then 1 else 0, 0
      ensures Valid()
      ensures !old(Connected()) ==> d.None? && e.Pass? && unchanged(this)
      ensures old(Connected()) ==>
        d.Some? && (d.value, attempts) == Reconnect.Decide(policy, old(attempts), old(hasQuit))
      ensures e == (if old(Connected()) && RetryRaises(old(connection).value, d.value) then Fail(TypeError) else Pass)
      ensures old(Connected()) ==>
        connection == Some(old(connection).value.(connected := d.value.Retry?)) &&
        encoding == old(encoding) && autojoin == old(autojoin) && hasQuit == old(hasQuit)
      ensures old(Connected()) && e.Pass? ==>
        channels == map[] && users == map[] && receiveBuffer == [] &&
        nickname == UNREGISTERED_NICKNAME && network == None
      ensures e.Fail? ==>
        Tables() == old(Tables()) && nickname == old(nickname) && network == old(network) &&
        receiveBuffer == old(receiveBuffer)
    {
      if Connected() {
        connection := Some(connection.value.(connected := false));
        var decision, raised := OnDisconnect(hasQuit);
        d, e := Some(decision), raised;
        if raised.Fail? {
          return;
        }
        ResetAttributes();
      } else {
        d, e := None, Pass;
      }
    }

    /** `on_disconnect(expected)`, called once the transport is closed: after
        an unexpected disconnect, while the policy allows, compute the delay
        from the current count, count the attempt and reconnect (the wait
        itself is the returned delay); otherwise give up. The reconnect's
        `TypeError`, when the transport has no host name, propagates. */
    method OnDisconnect(expected: bool) returns (d: Reconnect.Decision, e: Outcome<ConnectError>)
      requires Valid()
      requires !Connected() && DelaySafe(expected)
      modifies this`connection, this`encoding, this`hasQuit, this`autojoin, this`attempts,
               this`channels, this`users, this`receiveBuffer, this`nickname, this`network
      decreases if Connected() then 1 else 0, 2
      ensures Valid()
      ensures (d, attempts) == Reconnect.Decide(policy, old(attempts), expected)
      ensures e == (if RetryRaises(Reopened(old(connection)), d) then Fail(TypeError) else Pass)
      ensures d.Retry? ==> connection == Some(Reopened(old(connection))) && Connected()
      ensures d.Retry? ==> encoding == if old(connection).Some? then old(encoding) else Some(DEFAULT_ENCODING)
      ensures !d.Retry? ==> connection == old(connection) && encoding == old(encoding)
      ensures autojoin == old(autojoin) && hasQuit == old(hasQuit)
      ensures Tables() == old(Tables()) && nickname == old(nickname) && network == old(network) &&
              receiveBuffer == old(receiveBuffer)
    {
      e := Pass;
      if !expected && Reconnect.MayRetry(policy, attempts) {
        var delay := Reconnect.ReconnectDelay(policy, attempts);
        attempts := attempts + 1;
        ghost var before := connection;
        e := Connect(None, None, true, [], DEFAULT_ENCODING);
        assert connection == Some(Reopened(before));
        assert e == Fail(TypeError) <==> !Text.Truthy(Reopened(before).hostname);
        assert e.Fail? ==> e == Fail(TypeError) by {
          if e.Fail? {
            assert e.error != ValueError;
          }
        }
        d := Reconnect.Retry(delay);
      } else if expected {
        d := Reconnect.Expected;
      } else {
        d := Reconnect.GiveUp;
      }
    }

    /** `on_connect`: the attempt count starts again from zero, and the
        auto-join channels are returned, in order, as the channels to join. */
    method OnConnect() returns (joins: seq<string>)
      modifies this`attempts
      ensures attempts == 0 && joins == autojoin
    {
      attempts := 0;
      joins := autojoin;
    }
  }

  /** A new client connects to `irc.example.com`; an unexpected disconnect
      then retries at once and counts one attempt. */
  method FreshConnectScenario() returns (r: Outcome<ConnectError>, d: Option<Reconnect.Decision>)
    ensures r == Pass && d == Some(Reconnect.Retry(0))
  {
    var c := new Client("bot");
    r := c.Connect(Some("irc.example.com"), Some(6667), false, ["#a"], "utf-8");
    assert c.connection == Some(Transport(Some("irc.example.com"), 6667, true));
    assert c.attempts == 0 && !c.hasQuit;
    var e;
    d, e := c.Disconnect();
    assert c.attempts == 1;
  }
}
