/** The `server_tag` property: a short lower-case name for the server the
    client is connected to. */
module Tag {
  import opened Wrappers
  import Text

  /** `s.startswith('irc.')`. */
  predicate HasIrcPrefix(s: string) {
    |s| >= 4 && s[..4] == "irc."
  }

  /** `tag[4:]` when `tag.startswith('irc.')`. */
  function StripIrcPrefix(s: string): (r: string)
    ensures HasIrcPrefix(s) ==> s == "irc." + r
    ensures !HasIrcPrefix(s) ==> r == s
  {
    if HasIrcPrefix(s) then s[4..] else s
  }

  /** The text after the last '.' of `s` (all of `s` when there is none):
      the second half of `s.rsplit('.', 1)`. */
  function LastLabel(s: string): (r: string)
    ensures '.' !in r
    ensures '.' !in s ==> r == s
    ensures '.' in s ==> |r| < |s| && s[|s| - |r| - 1..] == "." + r
  {
    match Text.LastIndexOf(s, '.')
    case None => s
    case Some(i) =>
      assert s[i..] == "." + s[i + 1..];
      s[i + 1..]
  }

  /** The TLD heuristic: cut `s` at its last '.', unless what follows parses
      as an integer (the last octet of an IPv4 address). */
  function CutSuffix(s: string): (r: string)
    ensures r == s <==> '.' !in s || Text.IsInteger(LastLabel(s))
    ensures r != s ==> s == r + "." + LastLabel(s)
  {
    match Text.LastIndexOf(s, '.')
    case None => s
    case Some(i) =>
      if Text.IsInteger(s[i + 1..]) then s
      else
        assert s == s[..i] + "." + s[i + 1..];
        s[..i]
  }

  /** The tag of a host name: the lower-cased name without a leading `irc.`,
      and without its last label unless there is no '.' left or that label
      is numeric. */
  function HostTag(hostname: string): (r: string)
    ensures Text.IsLowerCase(r)
    ensures var lowered := Text.Lower(hostname);
      var rest := if HasIrcPrefix(lowered) then lowered[4..] else lowered;
      if '.' !in rest || Text.IsInteger(LastLabel(rest)) then r == rest
      else rest == r + "." + LastLabel(rest)
  {
    var lowered := Text.Lower(hostname);
    Text.LowerIsLowerCase(hostname);
    var stripped := StripIrcPrefix(lowered);
    Text.SliceOfLowerCase(lowered, |lowered| - |stripped|, |lowered|);
    assert stripped == lowered[|lowered| - |stripped|..];
    var cut := CutSuffix(stripped);
    Text.SliceOfLowerCase(stripped, 0, |cut|);
    assert cut == stripped[..|cut|];
    cut
  }

  /** `server_tag`: `None` unless connected to a named host; the configured
      network name, lower-cased, if there is one; otherwise the host's tag. */
  function ServerTag(connected: bool, hostname: Option<string>, network: Option<string>): (r: Option<string>)
    ensures r.Some? <==> connected && Text.Truthy(hostname)
    ensures r.Some? ==> Text.IsLowerCase(r.value)
    ensures r.Some? && Text.Truthy(network) ==> r.value == Text.Lower(network.value)
    ensures r.Some? && !Text.Truthy(network) ==> r.value == HostTag(hostname.value)
  {
    if connected && Text.Truthy(hostname) then
      if Text.Truthy(network) then
        Text.LowerIsLowerCase(network.value);
        Some(Text.Lower(network.value))
      else Some(HostTag(hostname.value))
    else None
  }

  /** Every character is a digit or a '.'. */
  predicate DigitsAndDots(s: string) {
    forall i :: 0 <= i < |s| ==> s[i] == '.' || Text.IsDigit(s[i])
  }

  lemma {:induction false} JoinDigitsAndDots(x: string, y: string)
    requires DigitsAndDots(x) && DigitsAndDots(y)
    ensures DigitsAndDots(x + "." + y)
  {
    var s := x + "." + y;
    forall i | 0 <= i < |s| ensures s[i] == '.' || Text.IsDigit(s[i]) {
      if i < |x| { assert s[i] == x[i]; }
      else if i > |x| { assert s[i] == y[i - |x| - 1]; }
    }
  }

  lemma DigitsAndDotsLower(s: string)
    requires DigitsAndDots(s)
    ensures Text.IsLowerCase(s)
  {
    forall i | 0 <= i < |s| ensures !Text.IsUpper(s[i]) {
      assert s[i] == '.' || Text.IsDigit(s[i]);
    }
  }

  /** A lower-case name that does not start with `irc.` and whose last label is
      numeric is its own tag. */
  lemma {:induction false} NumericSuffixKept(front: string, last: string)
    requires Text.IsLowerCase(front + "." + last)
    requires !HasIrcPrefix(front + "." + last)
    requires Text.IsInteger(last)
    ensures ServerTag(true, Some(front + "." + last), None) == Some(front + "." + last)
  {
    var host := front + "." + last;
    Text.LowerOfLowerCase(host);
    assert '.' !in last by {
      assert forall i :: 0 <= i < |last| ==> Text.IsDigit(last[i]);
    }
    Text.LastIndexOfBefore(front, '.', last);
    assert host == front + ['.'] + last;
    assert host[|front| + 1..] == last;
  }

  /** A name that starts with a digit does not start with `irc.`. */
  lemma DigitFirstNoPrefix(s: string)
    requires |s| > 0 && Text.IsDigit(s[0])
    ensures !HasIrcPrefix(s)
  {
  }

  /** A dotted-quad IPv4 address is kept whole: its last octet is numeric and
      it cannot start with `irc.`. */
  lemma Ipv4Kept(a: nat, b: nat, c: nat, d: nat)
    ensures var host := Text.Decimal(a) + "." + Text.Decimal(b) + "." + Text.Decimal(c) + "." + Text.Decimal(d);
      ServerTag(true, Some(host), None) == Some(host)
  {
    var da, db, dc, dd := Text.Decimal(a), Text.Decimal(b), Text.Decimal(c), Text.Decimal(d);
    var front := da + "." + db + "." + dc;
    var host := front + "." + dd;
    assert DigitsAndDots(host) && Text.IsInteger(dd) && Text.IsDigit(host[0]) by {
      Text.DecimalRoundTrip(a);
      Text.DecimalRoundTrip(b);
      Text.DecimalRoundTrip(c);
      Text.DecimalRoundTrip(d);
      JoinDigitsAndDots(da, db);
      JoinDigitsAndDots(da + "." + db, dc);
      JoinDigitsAndDots(front, dd);
      assert host[0] == da[0];
    }
    DigitsAndDotsLower(host);
    DigitFirstNoPrefix(host);
    NumericSuffixKept(front, dd);
  }

  /** An `irc.` host name loses the prefix and a top-level label that is not
      numeric. */
  lemma {:induction false} IrcHostTag(name: string, tld: string)
    requires Text.IsLowerCase("irc." + name + "." + tld)
    requires '.' !in tld && !Text.IsInteger(tld)
    ensures HostTag("irc." + name + "." + tld) == name
  {
    var host := "irc." + name + "." + tld;
    var rest := name + "." + tld;
    assert Text.Lower(host) == host by { Text.LowerOfLowerCase(host); }
    assert HasIrcPrefix(host) && host[4..] == rest by {
      assert host[..4] == "irc." && host == "irc." + rest;
    }
    assert rest == name + ['.'] + tld;
    assert '.' in rest by { assert rest[|name|] == '.'; }
    assert LastLabel(rest) == tld by {
      Text.LastIndexOfBefore(name, '.', tld);
      assert rest[|name| + 1..] == tld;
    }
    var r := HostTag(host);
    assert rest == r + "." + tld;
    assert |r| == |name|;
    assert r == rest[..|r|] && name == rest[..|name|];
  }

  /** The tag does not depend on the host name's case. */
  lemma HostTagCaseInsensitive(hostname: string)
    ensures HostTag(Text.Lower(hostname)) == HostTag(hostname)
  {
    Text.LowerIdempotent(hostname);
  }

  /** `irc.Freenode.net` has the tag `freenode`. */
  lemma NetworkHostExample()
    ensures HostTag("irc.Freenode.net") == "freenode"
  {
    var lowered := "irc.freenode.net";
    assert Text.Lower("irc.Freenode.net") == lowered by {
      assert Text.LowerChar('F') == 'f';
    }
    assert HostTag(lowered) == "freenode" by {
      assert Text.IsLowerCase(lowered) by {
        Text.LowerIsLowerCase("irc.Freenode.net");
      }
      assert !Text.IsInteger("net") by {
        assert !Text.IsDigit("net"[0]);
      }
      assert lowered == "irc." + "freenode" + "." + "net";
      IrcHostTag("freenode", "net");
    }
    HostTagCaseInsensitive("irc.Freenode.net");
  }

  /** A host name without the prefix loses only its top-level label. */
  lemma PlainHostExample()
    ensures ServerTag(true, Some("chat.example.org"), None) == Some("chat.example")
  {
    assert Text.Lower("chat.example.org") == "chat.example.org";
    assert StripIrcPrefix("chat.example.org") == "chat.example.org" by {
      assert "chat.example.org"[..4][0] != "irc."[0];
    }
    assert CutSuffix("chat.example.org") == "chat.example" by {
      Text.LastIndexOfBefore("chat.example", '.', "org");
      assert "chat.example.org" == "chat.example" + ['.'] + "org";
      assert !Text.IsInteger("org") by { assert !Text.IsDigit("org"[0]); }
    }
  }

  /** A configured network name wins over the host name. */
  lemma NetworkNameExample()
    ensures ServerTag(true, Some("irc.example.com"), Some("ExampleNet")) == Some("examplenet")
  {
    assert Text.Lower("ExampleNet") == "examplenet";
  }
}
