/** The client's record of the server-visible world: a table of channels,
    each with the set of nicknames in it, and a table of users keyed by
    nickname. Every operation is a function from the old tables to the new;
    the `Client` module's methods change the tables in place and are proved
    equal to these functions. */
module Registry {
  import opened Wrappers
  import Text

  /** The four keys of a user record. */
  datatype Field = Nickname | Username | Realname | Hostname

  /** A user record; any field may be unknown (`None`). */
  datatype User = User(nickname: Option<string>, username: Option<string>,
                       realname: Option<string>, hostname: Option<string>)

  /** A metadata update: the fields it sets and the values it sets them to. */
  type Patch = map<Field, Option<string>>

  /** The two tables: channel name to member nicknames, nickname to user. */
  datatype Tables = Tables(channels: map<string, set<string>>, users: map<string, User>)

  function Get(u: User, f: Field): Option<string> {
    match f
    case Nickname => u.nickname
    case Username => u.username
    case Realname => u.realname
    case Hostname => u.hostname
  }

  /** The record `_create_user` stores: the nickname and nothing else known. */
  function NewUser(nick: string): User {
    User(Some(nick), None, None, None)
  }

  /** `dict.update`: the fields in `patch` take its values, the others keep theirs. */
  function Update(u: User, patch: Patch): (r: User)
    ensures forall f :: Get(r, f) == if f in patch then patch[f] else Get(u, f)
  {
    User(if Nickname in patch then patch[Nickname] else u.nickname,
         if Username in patch then patch[Username] else u.username,
         if Realname in patch then patch[Realname] else u.realname,
         if Hostname in patch then patch[Hostname] else u.hostname)
  }

  /** The registry invariant: every member of every channel is a known user. */
  ghost predicate Consistent(t: Tables) {
    forall c, m :: c in t.channels && m in t.channels[c] ==> m in t.users
  }

  predicate InSomeChannel(channels: map<string, set<string>>, m: string) {
    exists k :: k in channels && m in channels[k]
  }

  predicate InOtherChannel(channels: map<string, set<string>>, c: string, m: string) {
    exists k :: k in channels && k != c && m in channels[k]
  }

  /** Python's `if channel:` — a channel argument counts only when it is
      present and not the empty string. */
  predicate Given(channel: Option<string>) {
    channel.Some? && channel.value != ""
  }

  /** `_create_channel`: an empty member set under `c`, replacing any old one. */
  function CreateChannel(t: Tables, c: string): (r: Tables)
    ensures c in r.channels && r.channels[c] == {}
    ensures r.channels.Keys == t.channels.Keys + {c}
    ensures forall k :: k in t.channels && k != c ==> r.channels[k] == t.channels[k]
    ensures r.users == t.users
    ensures Consistent(t) ==> Consistent(r)
  {
    t.(channels := t.channels[c := {}])
  }

  /** `_create_user`: a record holding only the nickname, replacing any old one. */
  function CreateUser(t: Tables, nick: string): (r: Tables)
    ensures nick in r.users && Get(r.users[nick], Nickname) == Some(nick)
    ensures forall f :: f != Nickname ==> Get(r.users[nick], f) == None
    ensures r.users.Keys == t.users.Keys + {nick}
    ensures forall n :: n in t.users && n != nick ==> r.users[n] == t.users[n]
    ensures r.channels == t.channels
    ensures Consistent(t) ==> Consistent(r)
  {
    t.(users := t.users[nick := NewUser(nick)])
  }

  /** The registry part of `_sync_user`: a nickname with a '.' names a server
      and is ignored; otherwise the user is created if unknown and the patch
      is merged into its record. */
  function SyncUser(t: Tables, nick: string, patch: Patch): (r: Tables)
    ensures '.' in nick ==> r == t
    ensures '.' !in nick ==> r.users.Keys == t.users.Keys + {nick}
    ensures '.' !in nick ==> forall f ::
      Get(r.users[nick], f) == if f in patch then patch[f]
                               else if nick in t.users then Get(t.users[nick], f)
                               else Get(NewUser(nick), f)
    ensures forall n :: n in t.users && n != nick ==> r.users[n] == t.users[n]
    ensures r.channels == t.channels
    ensures Consistent(t) ==> Consistent(r)
  {
    if '.' in nick then t
    else
      var u := if nick in t.users then t.users[nick] else NewUser(nick);
      t.(users := t.users[nick := Update(u, patch)])
  }

  /** A member set after `old` is renamed to `new` in it. */
  function RenameMember(members: set<string>, oldNick: string, newNick: string): set<string> {
    if oldNick in members then members - {oldNick} + {newNick} else members
  }

  /** `_rename_user` as written: the record is copied to `new`, its nickname
      set, and then `old` is deleted, so renaming a user to its own nickname
      deletes it. */
  function RenameUserAsWritten(t: Tables, oldNick: string, newNick: string): (r: Tables)
    ensures oldNick in t.users ==> oldNick !in r.users
    ensures oldNick != newNick ==> newNick in r.users && r.users[newNick].nickname == Some(newNick)
    ensures r.channels.Keys == t.channels.Keys
    ensures oldNick == newNick && oldNick in t.users ==> r.users == t.users - {oldNick}
    ensures forall k :: k in t.channels && oldNick in t.channels[k] ==> newNick in r.channels[k]
  {
    var users := if oldNick in t.users then t.users[newNick := t.users[oldNick].(nickname := Some(newNick))] - {oldNick}
                 else t.users[newNick := NewUser(newNick)];
    Tables(map k | k in t.channels :: RenameMember(t.channels[k], oldNick, newNick), users)
  }

  /** Renaming a user who is in a channel to its own nickname leaves the
      channel listing a nickname that has no record. */
  lemma RenameToSelfAsWritten(t: Tables, c: string, nick: string)
    requires nick in t.users && c in t.channels && nick in t.channels[c]
    ensures Consistent(t) ==> !Consistent(RenameUserAsWritten(t, nick, nick))
  {
    var r := RenameUserAsWritten(t, nick, nick);
    assert nick !in r.users;
    assert nick in r.channels[c];
  }

  /** `_rename_user(old, new)` as intended: the record moves to `new` (or a
      fresh one is made there) and every channel that held `old` holds `new`
      instead; renaming to the same nickname keeps the record. */
  function RenameUser(t: Tables, oldNick: string, newNick: string): (r: Tables)
    ensures newNick in r.users && Get(r.users[newNick], Nickname) == Some(newNick)
    ensures oldNick != newNick ==> oldNick !in r.users
    ensures oldNick in t.users ==> forall f :: f != Nickname ==> Get(r.users[newNick], f) == Get(t.users[oldNick], f)
    ensures oldNick !in t.users ==> r.users[newNick] == NewUser(newNick)
    ensures forall n :: n != oldNick && n != newNick ==>
      (n in r.users <==> n in t.users) && (n in t.users ==> r.users[n] == t.users[n])
    ensures r.channels.Keys == t.channels.Keys
    ensures forall k :: k in t.channels && oldNick in t.channels[k] ==>
      newNick in r.channels[k] && r.channels[k] - {newNick} == t.channels[k] - {oldNick, newNick}
    ensures oldNick != newNick ==> forall k :: k in r.channels ==> oldNick !in r.channels[k]
    ensures forall k :: k in t.channels && oldNick !in t.channels[k] ==> r.channels[k] == t.channels[k]
    ensures Consistent(t) ==> Consistent(r)
  {
    var users := if oldNick in t.users then (t.users - {oldNick})[newNick := t.users[oldNick].(nickname := Some(newNick))]
                 else t.users[newNick := NewUser(newNick)];
    var channels := map k | k in t.channels :: RenameMember(t.channels[k], oldNick, newNick);
    Tables(channels, users)
  }

  /** The two agree whenever the nicknames differ. */
  lemma RenameUserAgrees(t: Tables, oldNick: string, newNick: string)
    requires oldNick != newNick
    ensures RenameUserAsWritten(t, oldNick, newNick) == RenameUser(t, oldNick, newNick)
  {
    if oldNick in t.users {
      assert t.users[newNick := t.users[oldNick].(nickname := Some(newNick))] - {oldNick}
          == (t.users - {oldNick})[newNick := t.users[oldNick].(nickname := Some(newNick))];
    }
  }

  /** Renaming a user to its own nickname leaves both tables as they were, once
      the record's nickname field matches its key. */
  lemma RenameToSelf(t: Tables, nick: string)
    requires nick in t.users && t.users[nick].nickname == Some(nick)
    ensures RenameUser(t, nick, nick) == t
  {
    var r := RenameUser(t, nick, nick);
    assert r.users == t.users;
    assert r.channels == t.channels by {
      forall k | k in t.channels ensures r.channels[k] == t.channels[k] {
        assert RenameMember(t.channels[k], nick, nick) == t.channels[k];
      }
    }
  }

  /** `_destroy_user`: remove `nick` from the given channel (or, with no channel,
      from every channel), then drop its record unless some channel still
      holds it. Without a channel the record is always dropped. */
  function DestroyUser(t: Tables, nick: string, channel: Option<string>): (r: Tables)
    requires Given(channel) ==> channel.value in t.channels
    requires nick in t.users
    ensures r.channels.Keys == t.channels.Keys
    ensures Given(channel) ==> r.channels == t.channels[channel.value := t.channels[channel.value] - {nick}]
    ensures !Given(channel) ==> forall k :: k in t.channels ==> r.channels[k] == t.channels[k] - {nick}
    ensures nick in r.users <==> Given(channel) && InOtherChannel(t.channels, channel.value, nick)
    ensures forall n :: n != nick ==> (n in r.users <==> n in t.users)
    ensures forall n :: n in r.users ==> r.users[n] == t.users[n]
    ensures Consistent(t) ==> Consistent(r)
  {
    var channels := if Given(channel) then t.channels[channel.value := t.channels[channel.value] - {nick}]
                    else map k | k in t.channels :: t.channels[k] - {nick};
    var users := if Given(channel) && InSomeChannel(channels, nick) then t.users else t.users - {nick};
    assert Given(channel) ==> (InSomeChannel(channels, nick) <==> InOtherChannel(t.channels, channel.value, nick)) by {
      if Given(channel) {
        if InSomeChannel(channels, nick) {
          var k :| k in channels && nick in channels[k];
          assert k != channel.value;
        }
        if InOtherChannel(t.channels, channel.value, nick) {
          var k :| k in t.channels && k != channel.value && nick in t.channels[k];
          assert nick in channels[k];
        }
      }
    }
    Tables(channels, users)
  }

  /** The tables part-way through `_destroy_channel(c)`, once the members in
      `done` have each been passed to `_destroy_user(member, c)`. For a
      non-empty name each such member leaves `c` and its record goes unless
      another channel holds it; for the empty name `if channel:` fails, so
      each such member leaves every channel and its record goes. */
  function DestroyMembers(t: Tables, c: string, done: set<string>): Tables
    requires c in t.channels && done <= t.channels[c]
  {
    if c != "" then
      Tables(t.channels[c := t.channels[c] - done],
             t.users - set m | m in done && !InOtherChannel(t.channels, c, m))
    else
      Tables(map k | k in t.channels :: t.channels[k] - done, t.users - done)
  }

  /** `_destroy_channel(c)`, iterating a snapshot of the member set. */
  function DestroyChannel(t: Tables, c: string): (r: Tables)
    requires c in t.channels
    requires forall m :: m in t.channels[c] ==> m in t.users
    ensures c !in r.channels
    ensures c != "" ==> r.channels == t.channels - {c}
    ensures c != "" ==> forall n :: n in r.users <==>
      n in t.users && (n !in t.channels[c] || InOtherChannel(t.channels, c, n))
    ensures c == "" ==> r.channels.Keys == t.channels.Keys - {c}
    ensures c == "" ==> forall k :: k in r.channels ==> r.channels[k] == t.channels[k] - t.channels[c]
    ensures c == "" ==> r.users.Keys == t.users.Keys - t.channels[c]
    ensures forall n :: n in r.users ==> r.users[n] == t.users[n]
    ensures Consistent(t) ==> Consistent(r)
  {
    var p := DestroyMembers(t, c, t.channels[c]);
    Tables(p.channels - {c}, p.users)
  }

  /** The exceptions `_destroy_channel` can raise as written. */
  datatype RaisedError = KeyError | TypeError

  /** `_destroy_channel` as written: an unknown channel raises `KeyError`,
      and for a known one the copy `[:]` of its member set raises
      `TypeError`, since a set cannot be sliced; nothing is destroyed. */
  function DestroyChannelAsWritten(t: Tables, c: string): (r: Result<Tables, RaisedError>)
    ensures r.Err?
    ensures r.error == KeyError <==> c !in t.channels
  {
    if c !in t.channels then Err(KeyError) else Err(TypeError)
  }

  /** A channel just created, with nobody in it, still cannot be destroyed as
      written, while the snapshot version removes it. */
  lemma DestroyEmptyChannelAsWritten()
    ensures var t := CreateChannel(Tables(map[], map[]), "#a");
      DestroyChannelAsWritten(t, "#a") == Err(TypeError) &&
      DestroyChannel(t, "#a") == Tables(map[], map[])
  {
    var t := CreateChannel(Tables(map[], map[]), "#a");
    var r := DestroyChannel(t, "#a");
    assert r.channels == map[] by {
      assert r.channels.Keys == {};
    }
    assert r.users == map[];
  }

  /** One more iteration of `_destroy_channel`'s loop: destroying a member not
      yet handled moves the tables from one snapshot stage to the next. */
  lemma DestroyMemberStep(t: Tables, c: string, done: set<string>, m: string)
    requires c in t.channels && done <= t.channels[c]
    requires forall n :: n in t.channels[c] ==> n in t.users
    requires m in t.channels[c] && m !in done
    ensures c in DestroyMembers(t, c, done).channels && m in DestroyMembers(t, c, done).users
    ensures DestroyUser(DestroyMembers(t, c, done), m, Some(c)) == DestroyMembers(t, c, done + {m})
  {
    var p := DestroyMembers(t, c, done);
    var q := DestroyUser(p, m, Some(c));
    var e := DestroyMembers(t, c, done + {m});
    if c != "" {
      assert InOtherChannel(p.channels, c, m) <==> InOtherChannel(t.channels, c, m) by {
        if InOtherChannel(t.channels, c, m) {
          var k :| k in t.channels && k != c && m in t.channels[k];
          assert m in p.channels[k];
        }
        if InOtherChannel(p.channels, c, m) {
          var k :| k in p.channels && k != c && m in p.channels[k];
          assert m in t.channels[k];
        }
      }
      assert t.channels[c] - done - {m} == t.channels[c] - (done + {m});
      assert q.channels == e.channels;
      assert q.users.Keys == e.users.Keys;
      assert q.users == e.users;
    } else {
      assert forall k :: k in t.channels ==> t.channels[k] - done - {m} == t.channels[k] - (done + {m});
      assert q.channels == e.channels;
      assert q.users == e.users;
    }
  }

  /** Before the loop's first iteration the tables are untouched. */
  lemma DestroyMembersNone(t: Tables, c: string)
    requires c in t.channels
    ensures DestroyMembers(t, c, {}) == t
  {
    if c != "" {
      assert t.channels[c] - {} == t.channels[c];
      assert t.channels[c := t.channels[c] - {}] == t.channels;
    } else {
      assert forall k :: k in t.channels ==> t.channels[k] - {} == t.channels[k];
      assert (map k | k in t.channels :: t.channels[k] - {}) == t.channels;
    }
  }

  /** The members of a sequence, as a set. */
  function Elems(ms: seq<string>): set<string> {
    set x | x in ms
  }

  /** `_destroy_channel`'s loop run over the members in the order `ms`. */
  function DestroyInOrder(t: Tables, c: string, ms: seq<string>): Tables
    requires c in t.channels
    requires forall i, j :: 0 <= i < j < |ms| ==> ms[i] != ms[j]
    requires forall i :: 0 <= i < |ms| ==> ms[i] in t.users
    decreases |ms|
  {
    if ms == [] then t
    else DestroyInOrder(DestroyUser(t, ms[0], Some(c)), c, ms[1..])
  }

  /** Destroying the members one at a time, in any order, from any stage of the
      loop, reaches the stage where all of them are done. */
  lemma {:induction false} DestroyInOrderFrom(t: Tables, c: string, done: set<string>, ms: seq<string>)
    requires c in t.channels && done <= t.channels[c]
    requires forall n :: n in t.channels[c] ==> n in t.users
    requires forall i, j :: 0 <= i < j < |ms| ==> ms[i] != ms[j]
    requires forall i :: 0 <= i < |ms| ==> ms[i] in t.channels[c] && ms[i] !in done
    ensures c in DestroyMembers(t, c, done).channels
    ensures forall i :: 0 <= i < |ms| ==> ms[i] in DestroyMembers(t, c, done).users
    ensures DestroyInOrder(DestroyMembers(t, c, done), c, ms) == DestroyMembers(t, c, done + Elems(ms))
    decreases |ms|
  {
    var p := DestroyMembers(t, c, done);
    forall i | 0 <= i < |ms| ensures ms[i] in p.users {
      DestroyMemberStep(t, c, done, ms[i]);
    }
    if ms != [] {
      DestroyMemberStep(t, c, done, ms[0]);
      DestroyInOrderFrom(t, c, done + {ms[0]}, ms[1..]);
      assert Elems(ms) == {ms[0]} + Elems(ms[1..]) by {
        assert forall x :: x in ms <==> x == ms[0] || x in ms[1..];
      }
      assert done + {ms[0]} + Elems(ms[1..]) == done + Elems(ms);
    } else {
      assert done + Elems(ms) == done;
    }
  }

  /** The snapshot makes `_destroy_channel` independent of iteration order:
      destroying the members in any order, then deleting the key, gives
      `DestroyChannel`. */
  lemma SnapshotOrderIrrelevant(t: Tables, c: string, ms: seq<string>)
    requires c in t.channels
    requires forall n :: n in t.channels[c] ==> n in t.users
    requires forall i, j :: 0 <= i < j < |ms| ==> ms[i] != ms[j]
    requires Elems(ms) == t.channels[c]
    ensures var p := DestroyInOrder(t, c, ms); c in p.channels && DestroyChannel(t, c) == Tables(p.channels - {c}, p.users)
  {
    DestroyMembersNone(t, c);
    forall i | 0 <= i < |ms| ensures ms[i] in t.channels[c] {
      assert ms[i] in Elems(ms);
    }
    DestroyInOrderFrom(t, c, {}, ms);
    assert {} + Elems(ms) == t.channels[c];
  }
  /** Renaming a user away and back restores both tables, when the record's
      nickname field matched its key and the intermediate name was unused. */
  lemma RenameRoundTrip(t: Tables, a: string, b: string)
    requires a != b
    requires a in t.users && t.users[a].nickname == Some(a)
    requires b !in t.users && !InSomeChannel(t.channels, b)
    ensures RenameUser(RenameUser(t, a, b), b, a) == t
  {
    var r := RenameUser(RenameUser(t, a, b), b, a);
    assert r.users == t.users by {
      assert r.users.Keys == t.users.Keys;
    }
    assert r.channels == t.channels by {
      forall k | k in t.channels ensures r.channels[k] == t.channels[k] {
        assert b !in t.channels[k];
      }
    }
  }

  /** A field as `_format_hostmask` prints it: its value, or `*` when the
      value is unknown or empty. */
  function OrStar(v: Option<string>): (r: string)
    ensures r != ""
  {
    if v.Some? && v.value != "" then v.value else "*"
  }

  /** `_format_hostmask`: `nick!user@host`, with `*` for what is not known. */
  function FormatHostmask(t: Tables, nick: string): (r: string)
    ensures nick !in t.users ==> r == nick + "!*@*"
    ensures |r| >= |nick| + 4 && r[..|nick| + 1] == nick + "!"
  {
    var user := if nick in t.users then OrStar(t.users[nick].username) else "*";
    var host := if nick in t.users then OrStar(t.users[nick].hostname) else "*";
    nick + "!" + user + "@" + host
  }

  /** Reading a hostmask back: the text before the first '!', the text between
      it and the next '@', and the rest. */
  function SplitHostmask(s: string): Option<(string, string, string)>
  {
    match Text.IndexOf(s, '!')
    case None => None
    case Some(i) =>
      var rest := s[i + 1..];
      match Text.IndexOf(rest, '@')
      case None => None
      case Some(j) => Some((s[..i], rest[..j], rest[j + 1..]))
  }

  /** Splitting inverts joining with '!' and '@' when the first part has no
      '!' and the second no '@'. */
  lemma SplitJoined(n: string, u: string, h: string)
    requires '!' !in n && '@' !in u
    ensures SplitHostmask(n + "!" + u + "@" + h) == Some((n, u, h))
  {
    var s := n + "!" + u + "@" + h;
    assert s == n + ['!'] + (u + "@" + h);
    Text.IndexOfAfter(n, '!', u + "@" + h);
    var rest := s[|n| + 1..];
    assert rest == u + ['@'] + h;
    Text.IndexOfAfter(u, '@', h);
    assert s[..|n|] == n;
    assert rest[..|u|] == u && rest[|u| + 1..] == h;
  }

  /** A formatted hostmask reads back as the nickname and the two fields as
      printed, whenever the nickname has no '!' and the username no '@'. */
  lemma HostmaskRoundTrip(t: Tables, nick: string)
    requires '!' !in nick
    requires nick in t.users ==> '@' !in OrStar(t.users[nick].username)
    ensures SplitHostmask(FormatHostmask(t, nick)) == Some((nick,
      if nick in t.users then OrStar(t.users[nick].username) else "*",
      if nick in t.users then OrStar(t.users[nick].hostname) else "*"))
  {
    var user := if nick in t.users then OrStar(t.users[nick].username) else "*";
    var host := if nick in t.users then OrStar(t.users[nick].hostname) else "*";
    SplitJoined(nick, user, host);
  }
}
