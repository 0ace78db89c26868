# pydle client core in Dafny

This project models the core of pydle's `BasicClient` and `ClientPool` (`pydle/client.py`):

- **The registry.** These are the client's tables of channels (name to the set of member nicknames) and users (nickname to a record of nickname, username, realname and hostname). `_create_channel`, `_destroy_channel`, `_create_user`, `_sync_user`, `_rename_user` and `_destroy_user` change them in place, and `_format_hostmask` reads them.
- **The connection lifecycle and reconnect policy.** This covers `connect`, `_connect`, `disconnect`, `on_connect`, `on_disconnect`, `_reconnect_delay` and the two `_reset_*` methods.
- **Pure helpers.** These are the `server_tag` property, the handler-name logic of `on_raw`, and the constructor's defaults.
- **`ClientPool`.** This covers `add`, `remove` and the round-robin `handle_message`.

Modules:

- `Registry` gives every registry operation as a function on a pair of tables. It proves each function's effect and that it preserves the consistency invariant: every member of every channel has a user record.
- `Client.Client` is a class whose fields are the object's attributes. Its methods change them in place, with the same loops as the source, and each is proved equal to the corresponding `Registry` function.
- `Reconnect` gives the delay schedule and the decision `on_disconnect` takes.
- `Client.Client.Connect`, `Disconnect` and `OnDisconnect` are mutually recursive methods, as in the source. An unexpected disconnect reconnects from inside `disconnect`.
- `Tag` gives `server_tag`.
- `Dispatch` gives the handler lookup of `on_raw`.
- `Pool` gives the pool. The cycle over the client set is a fixed order plus a cursor.
- `Text` holds the character-level helpers: ASCII `lower()`, `str(n)`, `zfill`, `int()` acceptance, `rfind`.

Modelling choices:

- **Python truthiness is explicit.** `if channel:` treats the empty channel name like no channel. A host name or port counts only when it is present and non-empty (or non-zero).
- **`_destroy_channel("")` with a known channel `""`** removes the channel's members from every channel. The channel name is falsy, so `_destroy_user` is called without a channel. The model keeps that behaviour.
- **`_destroy_user`** needs the given channel to be a key of `channels`. It also needs the nickname to have a record. The source raises `KeyError` otherwise, so both are preconditions. Under the consistency invariant, the record is always there when a channel still lists the nickname.
- **`_destroy_channel`** needs the channel to be a key of `channels`. The source raises `KeyError` at pydle/client.py:132 otherwise, so `Registry.DestroyChannel` and `Client.Client.DestroyChannel` require a known channel. That error path is modelled by `Registry.DestroyChannelAsWritten`.
- **`_reconnect_delay`** indexes past the end of `RECONNECT_DELAYS` when the attempt count equals the schedule's length: the `>` at line 115 should be `>=`. That input is a precondition, `Reconnect.DelayDefined`. It is proved unreachable under every policy that does not consult the schedule, or whose attempt limit is at most the schedule's length, the declared values included. It is shown reachable when there is no limit. Since the declared configuration never reaches it, the model keeps the code as written.
- **`connect` while connected** first calls `disconnect`. If the client had not quit, that is an unexpected disconnect, so the reconnect policy decides, as in `Reconnect.Decide`. On a retry it reconnects the old transport and counts the attempt; when it gives up it does neither. Then `connect` goes on.
- **`connect` raises `TypeError`** at line 85 when the server tag is `None` after `_connect`. That happens when the transport has no host name, as after `connect(reconnect=True)` without a host on a client that has no transport yet. The transport is then already connected. The same exception escapes `on_disconnect` when its reconnect hits that case, and leaves `disconnect` before `_reset_attributes` runs. The model carries it through all three methods.
- **`on_disconnect`** is only called by `disconnect` after the transport is closed, so it requires a closed transport.
- **`self.hostname` is never set** by the constructor or the reset methods in the source. The model starts it at `None`.
- **Unseen protocol-module constants.** `protocol.DEFAULT_PORT` and `protocol.DEFAULT_ENCODING` belong to a protocol module that is not part of this model. They are taken as 6667 and `"utf-8"`.

## Model

| member | source | states |
|---|---|---|
| `Client.Client.constructor` | pydle/client.py:32-41 | the nickname list is the nickname followed by the fallbacks; a missing or empty username becomes the lower-cased nickname and a missing or empty realname the nickname; every other attribute starts at its reset value |
| `Client.Client.Connected` | pydle/client.py:221-224 | connected only with a transport |
| `Client.Client.ServerTag` | pydle/client.py:226-251 | the client has a tag exactly when connected to a transport with a non-empty host name, and the tag is lower-case |
| `Client.Client.ResetAttributes` | pydle/client.py:43-57 | empty channel and user tables, empty receive buffer, nickname `<unregistered>`, no network; nothing else changes |
| `Client.Client.ResetConnectionAttributes` | pydle/client.py:59-65 | no transport, no encoding, not quit, no auto-join channels, attempt count 0; nothing else changes |
| `Client.Client.CreateChannel` | pydle/client.py:125-128 | the in-place update equals `Registry.CreateChannel` and keeps the registry consistent |
| `Client.Client.DestroyChannel` | pydle/client.py:130-134 | the loop over a snapshot of the members, each passed to `DestroyUser`, ends in `Registry.DestroyChannel` and keeps the registry consistent |
| `Client.Client.CreateUser` | pydle/client.py:137-143 | the in-place update equals `Registry.CreateUser` |
| `Client.Client.SyncUser` | pydle/client.py:145-161 | the tables become `Registry.SyncUser`; the client's own username and hostname take the patch's values exactly when the nickname has no '.', is the client's own under `is_same_nick`, and the patch sets that field |
| `Client.Client.RenameUser` | pydle/client.py:163-175 | the record update and the loop over every channel end in `Registry.RenameUser` and keep the registry consistent |
| `Client.Client.DestroyUser` | pydle/client.py:177-190 | the removal from one or all channels and the conditional deletion of the record end in `Registry.DestroyUser` |
| `Client.Client.OpenTransport` | pydle/client.py:96-110 | a fresh connect stores the auto-join list and makes a transport to the host and `port or DEFAULT_PORT` with the encoding; a reconnect keeps the list and reuses an existing transport and its encoding; the transport ends connected |
| `Client.Client.Connect` | pydle/client.py:70-85 | `ValueError` exactly when the host or port is missing and it is not a reconnect, with nothing changed; otherwise connected afterwards, and `TypeError` exactly when the server tag is then `None`; a fresh connect succeeds unless the inner `disconnect`'s reconnect raised, and then has reset the connection attributes and made a transport to the host; a reconnect keeps the auto-join list and quit flag, reuses an existing transport and its encoding, and leaves the attempt count as it was, or as the inner `disconnect`'s reconnect decision set it when it was connected; the registry is untouched unless a live connection was first disconnected, in which case it is reset unless that disconnect's reconnect raised; a `TypeError` after a live connection leaves the attempt count as the reconnect decision set it and keeps the auto-join list, quit flag and encoding |
| `Client.Client.Disconnect` | pydle/client.py:87-94 | nothing happens when not connected; otherwise the decision and new attempt count are those of `Reconnect.Decide` for the old count and the quit flag, the transport is connected again exactly when that decision is a retry, `TypeError` propagates exactly when that retry meets a transport without a host name, and otherwise the registry, buffer, nickname and network are reset |
| `Client.FreshConnectScenario` | pydle/client.py:70-94 | a new client connecting to a named host succeeds; an unexpected disconnect then retries after the schedule's first delay, 0, with one attempt counted |
| `Client.Client.OnDisconnect` | pydle/client.py:277-294 | the decision and the new attempt count are `Reconnect.Decide`'s; a retry reconnects the existing transport (or a default one) and raises `TypeError` exactly when that transport has no host name; the registry and identity are unchanged |
| `Client.Client.OnConnect` | pydle/client.py:268-275 | the attempt count returns to 0 and the channels to join are the auto-join list, in order |
| `Registry.Update` | pydle/client.py:161 | `dict.update`: every field the patch names takes the patch's value and every other field keeps its value |
| `Registry.CreateChannel` | pydle/client.py:125-128 | the channel maps to an empty member set; other channels and all users unchanged; consistency preserved |
| `Registry.CreateUser` | pydle/client.py:137-143 | the nickname maps to a record with only its nickname known; other users and all channels unchanged; consistency preserved |
| `Registry.SyncUser` | pydle/client.py:145-161 | a nickname with '.' changes nothing; otherwise the user exists afterwards, each field is the patch's value, else the old record's, else unknown; other users and the channels unchanged; consistency preserved |
| `Registry.RenameUser` | pydle/client.py:163-175 | the new nickname has a record whose nickname is the new one and whose other fields are the old record's (or a fresh record); for distinct nicknames the old one has no record and is in no channel; every channel that held the old nickname holds the new one and is otherwise unchanged; other channels and users unchanged; consistency preserved |
| `Registry.RenameUserAsWritten` | pydle/client.py:163-175 | as written, a known old nickname never keeps a record, not even when it is also the new one; for distinct nicknames the new one has a record naming it; every channel that held the old nickname holds the new one |
| `Registry.RenameToSelfAsWritten` | pydle/client.py:163-167 | as written, renaming a user who is in a channel to its own nickname deletes the record while the channel still lists it, breaking consistency |
| `Registry.RenameUserAgrees` | pydle/client.py:163-175 | for distinct nicknames the corrected rename is exactly the code as written |
| `Registry.RenameToSelf` | pydle/client.py:163-175 | the corrected rename of a user to its own nickname changes nothing |
| `Registry.RenameRoundTrip` | pydle/client.py:163-175 | renaming `a` to an unused `b` and back restores both tables |
| `Registry.DestroyUser` | pydle/client.py:177-190 | with a channel: the nickname leaves only that channel, and its record is deleted if and only if no other channel holds it; without one: it leaves every channel and the record is deleted; other users' records unchanged; consistency preserved |
| `Registry.DestroyChannel` | pydle/client.py:130-134 | the channel is gone; for a non-empty name the other channels are unchanged and exactly the members in no other channel lose their records; for the empty name its members leave every channel and lose their records; consistency preserved |
| `Registry.DestroyMemberStep` | pydle/client.py:132-133 | one more `_destroy_user(member, channel)` on a member not yet handled advances the loop's closed form by that member |
| `Registry.DestroyInOrderFrom` | pydle/client.py:132-133 | destroying the remaining members one by one in any order reaches the closed form for all of them |
| `Registry.SnapshotOrderIrrelevant` | pydle/client.py:130-134 | whatever order the snapshot of the member set is iterated in, the result is `Registry.DestroyChannel` |
| `Registry.DestroyChannelAsWritten` | pydle/client.py:130-134 | as written, destroying a channel always raises: `KeyError` exactly when it is unknown, `TypeError` otherwise |
| `Registry.DestroyEmptyChannelAsWritten` | pydle/client.py:130-134 | as written, even a freshly created empty channel cannot be destroyed (slicing a set raises `TypeError`), whereas the snapshot version leaves empty tables |
| `Registry.OrStar` | pydle/client.py:198 | `value or '*'` is never empty |
| `Registry.FormatHostmask` | pydle/client.py:196-198 | an unknown nickname gives `nick!*@*`; every hostmask starts with `nick!` and has room for the user and host parts |
| `Registry.SplitJoined` | pydle/client.py:198 | a `n!u@h` string whose nickname has no '!' and whose username has no '@' splits back into its three parts |
| `Registry.HostmaskRoundTrip` | pydle/client.py:196-198 | the hostmask splits back into the nickname, the username or `*`, and the hostname or `*` |
| `Reconnect.ReconnectDelay` | pydle/client.py:112-120 | 0 when reconnecting or delaying is off; otherwise the schedule's entry at the attempt count while the count is inside the schedule, and the last entry once the count exceeds the schedule's length |
| `Reconnect.MayRetry` | pydle/client.py:280 | no retry when reconnecting is off; always when it is on without a limit; with a limit, exactly while the count is below it |
| `Reconnect.Decide` | pydle/client.py:277-294 | expected disconnects do nothing; a retry happens exactly when reconnecting is on and the limit, if any, is not reached; a retry's delay is computed from the count before it is raised by exactly 1; otherwise the count is unchanged |
| `Reconnect.BoundedIsSafe` | pydle/client.py:112-120 | for a policy that does not consult the schedule, or whose attempt limit is no larger than the schedule, the lookup never goes out of range |
| `Reconnect.DefaultIsBounded` | pydle/client.py:27-30 | the declared class attributes form such a policy |
| `Reconnect.FailuresAt` | pydle/client.py:277-294 | the i-th of k unexpected disconnects in a row retries with the schedule's delay while the limit is not reached, and gives up afterwards |
| `Reconnect.FailuresStayGivenUp` | pydle/client.py:280 | once the limit is reached every later unexpected disconnect gives up |
| `Reconnect.DefaultFailures` | pydle/client.py:27-30 | under the declared values four disconnects in a row retry after 0, 30 and 120 seconds and then give up |
| `Reconnect.TwoAttemptFailures` | pydle/client.py:277-294 | with a limit of 2 and schedule [0, 30], three disconnects retry after 0 and 30 seconds and then give up |
| `Reconnect.DelayMonotone` | pydle/client.py:112-120 | with a non-decreasing schedule the delay never shrinks as the count grows |
| `Reconnect.UnlimitedReachesScheduleEnd` | pydle/client.py:115-118 | without a limit the count reaches the schedule's length, where the lookup is out of range |
| `Tag.StripIrcPrefix` | pydle/client.py:235-236 | a name starting with `irc.` loses exactly that prefix; any other name is unchanged |
| `Tag.LastLabel` | pydle/client.py:241 | without a '.' it is the whole name; otherwise it is the text after the last '.', which contains no '.' |
| `Tag.CutSuffix` | pydle/client.py:239-247 | the name is kept exactly when it has no '.' or its last label parses as an integer; otherwise it is the result followed by '.' and the last label |
| `Tag.HostTag` | pydle/client.py:232-247 | the tag is the lower-cased host name without a leading `irc.`, kept whole when no '.' remains or the last label is numeric, and otherwise cut just before the last '.'; it is lower-case |
| `Tag.ServerTag` | pydle/client.py:226-251 | a tag exists exactly when connected to a non-empty host name; it is lower-case; a non-empty network name, lower-cased, wins over the host, and otherwise the tag is the host's tag |
| `Tag.NumericSuffixKept` | pydle/client.py:238-247 | a lower-case host not starting with `irc.` whose last label is numeric is its own tag |
| `Tag.Ipv4Kept` | pydle/client.py:238-247 | a dotted-quad IPv4 address is its own tag |
| `Tag.NetworkHostExample` | pydle/client.py:232-247 | `irc.Freenode.net` has tag `freenode` |
| `Tag.IrcHostTag` | pydle/client.py:232-247 | a lower-case `irc.` host with a non-numeric top-level label has the middle part as its tag |
| `Tag.HostTagCaseInsensitive` | pydle/client.py:232 | host names that differ only in case have the same tag |
| `Tag.PlainHostExample` | pydle/client.py:226-251 | `chat.example.org` has tag `chat.example` |
| `Tag.NetworkNameExample` | pydle/client.py:229-230 | with network `ExampleNet` the tag is `examplenet` whatever the host |
| `Dispatch.Resolve` | pydle/client.py:346-356 | the handler is `on_raw_` plus the lower-cased command exactly when the client has it, and `on_unknown` otherwise |
| `Dispatch.CommandText` | pydle/client.py:346-349 | a command word is used as is; a numeric code becomes digits that read back as the code, three of them below 1000 |
| `Dispatch.HandlerName` | pydle/client.py:352 | the handler name is lower-case, starts with `on_raw_` and is as long as the prefix and the command together |
| `Dispatch.OnRaw` | pydle/client.py:352-358 | the handler invoked is `on_raw_` plus the command exactly when the client has it, else `on_unknown`; a failure is logged exactly when the handler raises, or when neither handler is there to call, and never propagates |
| `Dispatch.DispatchAll` | pydle/client.py:340-358 | one report per message |
| `Dispatch.DispatchAllAt` | pydle/client.py:352-358 | a handler that raises never stops later dispatch: each message's report is its own `on_raw`, with the handler `Resolve` gives, whatever earlier handlers did |
| `Dispatch.RaisingHandlerExample` | pydle/client.py:352-358 | a raising `PRIVMSG` handler is logged and the `PING` after it is still handled |
| `Dispatch.NumericHandlerName` | pydle/client.py:346-352 | a numeric code's handler name is `on_raw_` followed by digits that read back as the code, exactly three of them below 1000 |
| `Dispatch.NumericNamesDistinct` | pydle/client.py:346-352 | different numeric codes reach different handlers |
| `Dispatch.VerbCaseInsensitive` | pydle/client.py:349-352 | command words that differ only in case reach the same handler |
| `Text.DecimalRoundTrip` | pydle/client.py:347 | `str(n)` is a non-empty run of digits without a leading zero that reads back as `n` |
| `Text.ZFillValue` | pydle/client.py:347 | `zfill` reaches the width and keeps the value |
| `Text.LastIndexOf` | pydle/client.py:241 | `rfind`: absent exactly when the character does not occur; otherwise the position of its last occurrence |
| `Text.LowerIdempotent` | pydle/client.py:230-232 | lower-casing twice is lower-casing once |
| `Pool.Pick` | pydle/client.py:398-408 | no client is served exactly when none is ready; otherwise the served client is ready and no ready client comes before it in cycle order from the cursor |
| `Pool.Serve` | pydle/client.py:398-408 | one client served per call, each having a message at its call |
| `Pool.ServedWithin` | pydle/client.py:398-408 | a client that has a message at every call is served within as many calls as it is steps after the cursor, plus one, whichever other clients have messages meanwhile |
| `Pool.EveryReadyClientServed` | pydle/client.py:398-408 | a client that has a message at every call is served within one round of the pool, whichever other clients have messages meanwhile |
| `Pool.NotServedTwiceInARow` | pydle/client.py:398-408 | while another client is ready, the client just served is not served again next |
| `Pool.ThreeClientExample` | pydle/client.py:398-408 | with A, B, C of which A and C are ready, two calls serve A and then C |
| `Pool.ClientPool.constructor` | pydle/client.py:372-378 | the pool holds each given client once and its cycle starts at the beginning |
| `Pool.ClientPool.Add` | pydle/client.py:380-384 | the client is added unless already present, and the cycle starts afresh |
| `Pool.ClientPool.Remove` | pydle/client.py:386-390 | removing an absent client raises and changes nothing; otherwise exactly that client leaves and the cycle starts afresh |
| `Pool.ClientPool.HasMessage` | pydle/client.py:395-396 | some client has a message exactly when `Pool.Pick` serves one |
| `Pool.ClientPool.HandleMessage` | pydle/client.py:398-408 | `NoMessageAvailable` exactly when no client is ready, with the cycle unmoved; otherwise the client served is `Pool.Pick`'s and the cycle resumes just after it |

## Left out

- **Sockets and transports.** `connection.Connection`, `ConnectionPool`, the read/error handler registration, `_send` and `handle_forever` are socket I/O. A transport is reduced to its host, its port and whether it is connected.
- **`poll_forever` and `poll_single`.** The first is an endless loop and the second waits on a socket. `Pool.ClientPool.HandleMessage` returns the position of the client it serves instead of that client's `poll_single()` result.
- **`has_message` and `_has_message`.** A client's "has a message" is an abstract set of ready clients, fixed for the duration of one call. `ClientPool.has_message` delegates to the connection pool and is taken as "some client is ready".
- **Waiting and logging.** `time.sleep` is replaced by the delay returned in the `Retry` decision. Logging and the logger's name (which uses `server_tag`) are not modelled.
- **Message parsing.** `on_data`, `on_data_error`, `_parse_user`, `_has_message`, `_parse_message` and `_create_message` belong to a codec that is not part of this model; `raw` and `rawmsg` only send. `on_data_error` is a `disconnect()`.
- **`on_connect`'s `join` calls.** `join` belongs to a subclass that is not part of this model. `Client.Client.OnConnect` returns the channels it would join.
- **The channel helpers `is_channel`, `in_channel` and `is_same_channel`.** These are one-line lookups that the core does not use. `is_same_nick` is taken as a parameter of the object, defaulting to equality.
- **Text approximations.** `int()` acceptance in `server_tag` is approximated as a non-empty run of ASCII digits, so signs, spaces, underscores and non-ASCII digits are not modelled. `lower()` folds ASCII letters only. Numeric command codes are naturals, so `zfill`'s handling of a sign is not modelled.
- **`on_raw`'s invalid-message warning and the bare `except:`.** The warning is logging only. The `except:` is modelled as "a raised handler is logged and swallowed".
- **Set iteration order.** The order of a Python set is not modelled. The pool's clients are a sequence in insertion order, and the registry loops are proved for any iteration order.
- **Auto-join aliasing.** `_connect` stores the caller's channel list itself, not a copy. A sequence value cannot model that aliasing.
- **Extra metadata keys.** `Registry.SyncUser` patches only the four record fields. Extra metadata keys that `dict.update` would also store are not modelled.
- **Transport failures.** The transport's own `connect()` is taken always to succeed.
- **Undefined `_reconnect_delay` input.** `Client.Client.Connect`, `Client.Client.Disconnect` and `Client.Client.OnDisconnect` require that the schedule lookup is defined for the current count. The source raises `IndexError` there instead (see above).

## Findings

| source | as written | input that shows it | evidently intended | confidence | as-written member | corrected member |
|---|---|---|---|---|---|---|
| pydle/client.py:163-167 | `_rename_user` stores the record under `new`, then deletes `users[user]` | `_rename_user('bob', 'bob')` with `bob` in a channel: `bob` loses its record while the channel still lists it | renaming to the same nickname keeps the record | high, not executed | `Registry.RenameToSelfAsWritten` | `Registry.RenameUser` |
| pydle/client.py:132 | `self.channels[channel]['users'][:]` slices the member set, which is a `set` | `_create_channel('#a')` then `_destroy_channel('#a')`: slicing a set raises `TypeError` | iterate over a copy of the member set | high, not executed | `Registry.DestroyEmptyChannelAsWritten` | `Registry.DestroyChannel` |
