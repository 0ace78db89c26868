/** How `on_raw` chooses the handler for a message: the handler name derived
    from the command, the fall-back to `on_unknown`, and the rule that a
    handler's failure is logged and never propagates. */
module Dispatch {
  import Text

  /** A message's command: a numeric reply code or a command word. */
  datatype Command = Numeric(code: nat) | Verb(word: string)

  /** The command as text; a numeric code is `str(code).zfill(3)`. */
  function CommandText(cmd: Command): (r: string)
    ensures cmd.Verb? ==> r == cmd.word
    ensures cmd.Numeric? ==>
      Text.Digits(r) && Text.Value(r) == cmd.code &&
      |r| == (if cmd.code < 1000 then 3 else |Text.Decimal(cmd.code)|)
  {
    match cmd
    case Numeric(n) =>
      Text.DecimalRoundTrip(n);
      Text.ZFillValue(Text.Decimal(n), 3);
      DecimalLength(n);
      Text.ZFill(Text.Decimal(n), 3)
    case Verb(w) => w
  }

  const HandlerPrefix := "on_raw_"
  const UnknownHandler := "on_unknown"

  /** `'on_raw_' + cmd.lower()`: a lower-case name that starts with `on_raw_`
      and is as long as the prefix and the command together. */
  function HandlerName(cmd: Command): (r: string)
    ensures |r| == |HandlerPrefix| + |CommandText(cmd)| && r[..|HandlerPrefix|] == HandlerPrefix
    ensures Text.IsLowerCase(r)
  {
    Text.LowerIsLowerCase(CommandText(cmd));
    HandlerPrefix + Text.Lower(CommandText(cmd))
  }

  /** The handler `on_raw` invokes, given the names the client object has. */
  function Resolve(handlers: set<string>, cmd: Command): (name: string)
    ensures name == HandlerName(cmd) <==> HandlerName(cmd) in handlers
    ensures name != HandlerName(cmd) ==> name == UnknownHandler
  {
    assert HandlerName(cmd)[3] != UnknownHandler[3];
    if HandlerName(cmd) in handlers then HandlerName(cmd) else UnknownHandler
  }

  /** How a handler invocation ended. */
  datatype HandlerOutcome = Returned | Raised

  /** What `on_raw` did: the handler it chose, and whether it logged a failure. */
  datatype Report = Report(handler: string, failureLogged: bool)

  /** `on_raw`: invoke the resolved handler; if it raises, or the resolved name
      is not there to call, log the failure and return normally. */
  function OnRaw(handlers: set<string>, cmd: Command, outcome: HandlerOutcome): (r: Report)
    ensures r.handler == HandlerName(cmd) <==> HandlerName(cmd) in handlers
    ensures r.handler != HandlerName(cmd) ==> r.handler == UnknownHandler
    ensures HandlerName(cmd) in handlers ==> (r.failureLogged <==> outcome == Raised)
    ensures HandlerName(cmd) !in handlers ==>
      (r.failureLogged <==> outcome == Raised || UnknownHandler !in handlers)
  {
    var name := Resolve(handlers, cmd);
    Report(name, name !in handlers || outcome == Raised)
  }

  /** `on_raw` applied to a stream of messages one after the other, each with
      the way its handler ends. */
  function DispatchAll(handlers: set<string>, msgs: seq<(Command, HandlerOutcome)>): (reports: seq<Report>)
    ensures |reports| == |msgs|
  {
    if msgs == [] then []
    else [OnRaw(handlers, msgs[0].0, msgs[0].1)] + DispatchAll(handlers, msgs[1..])
  }

  /** A handler that raises never stops later dispatch: the report for each
      message is that message's own `on_raw`, whatever the handlers of the
      earlier messages did. */
  lemma {:induction false} DispatchAllAt(handlers: set<string>, msgs: seq<(Command, HandlerOutcome)>, i: nat)
    requires i < |msgs|
    ensures DispatchAll(handlers, msgs)[i] == OnRaw(handlers, msgs[i].0, msgs[i].1)
    ensures DispatchAll(handlers, msgs)[i].handler == Resolve(handlers, msgs[i].0)
    decreases i
  {
    if i > 0 {
      DispatchAllAt(handlers, msgs[1..], i - 1);
    }
  }

  /** A `PRIVMSG` handler that raises is logged, and the `PING` after it is
      still handled. */
  lemma RaisingHandlerExample()
    ensures DispatchAll({"on_raw_privmsg", "on_raw_ping"},
                        [(Verb("PRIVMSG"), Raised), (Verb("PING"), Returned)]) ==
            [Report("on_raw_privmsg", true), Report("on_raw_ping", false)]
  {
    var handlers := {"on_raw_privmsg", "on_raw_ping"};
    assert Text.Lower("PRIVMSG") == "privmsg";
    assert Text.Lower("PING") == "ping";
    assert HandlerName(Verb("PRIVMSG")) == "on_raw_privmsg";
    assert HandlerName(Verb("PING")) == "on_raw_ping";
    var msgs := [(Verb("PRIVMSG"), Raised), (Verb("PING"), Returned)];
    DispatchAllAt(handlers, msgs, 0);
    DispatchAllAt(handlers, msgs, 1);
  }

  /** A numeric command's handler name ends in at least three digits that read
      back as the code, exactly three when the code is below 1000. */
  lemma NumericHandlerName(n: nat)
    ensures var name := HandlerName(Numeric(n));
      name[..7] == HandlerPrefix && Text.Digits(name[7..]) && Text.Value(name[7..]) == n &&
      |name| == 7 + (if n < 1000 then 3 else |Text.Decimal(n)|)
  {
    var z := CommandText(Numeric(n));
    assert Text.Lower(z) == z by {
      forall i | 0 <= i < |z| ensures Text.LowerChar(z[i]) == z[i] {
        assert Text.IsDigit(z[i]);
      }
    }
    assert HandlerName(Numeric(n))[7..] == z;
  }

  /** A decimal numeral of a number below 1000 has at most three digits, and of
      one at or above 1000 more than three. */
  lemma {:induction false} DecimalLength(n: nat)
    ensures n < 10 ==> |Text.Decimal(n)| == 1
    ensures n < 100 ==> |Text.Decimal(n)| <= 2
    ensures n < 1000 ==> |Text.Decimal(n)| <= 3
    ensures n >= 10 ==> |Text.Decimal(n)| > 1
    ensures n >= 100 ==> |Text.Decimal(n)| > 2
    ensures n >= 1000 ==> |Text.Decimal(n)| > 3
  {
    if n >= 10 {
      DecimalLength(n / 10);
    }
  }

  /** Different numeric codes reach different handlers. */
  lemma NumericNamesDistinct(m: nat, n: nat)
    requires m != n
    ensures HandlerName(Numeric(m)) != HandlerName(Numeric(n))
  {
    NumericHandlerName(m);
    NumericHandlerName(n);
  }

  /** Command words reach the same handler whatever their case. */
  lemma VerbCaseInsensitive(a: string, b: string)
    requires Text.Lower(a) == Text.Lower(b)
    ensures HandlerName(Verb(a)) == HandlerName(Verb(b))
  {
  }
}
