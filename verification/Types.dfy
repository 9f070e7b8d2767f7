/** Node identity, its printed form, and the message vocabulary (dlstorage/types.py). */
module Types {

  datatype Option<+T> = None | Some(value: T)

  /** A Python object as the stores see it: `None`, or any other object. */
  datatype Value = Nil | Obj(id: int)

  // ---------------------------------------------------------------- printing and parsing ports

  predicate IsDigit(c: char) { '0' <= c <= '9' }

  function Digit(d: nat): (c: char)
    requires d < 10
    ensures IsDigit(c) && c as int - '0' as int == d
  {
    ('0' as int + d) as char
  }

  function Digits(n: nat): (s: string)
    ensures |s| > 0 && forall i :: 0 <= i < |s| ==> IsDigit(s[i])
  {
    if n < 10 then [Digit(n)] else Digits(n / 10) + [Digit(n % 10)]
  }

  /** `str(n)` for an integer of either sign. */
  function Decimal(n: int): string {
    if n < 0 then "-" + Digits(-n) else Digits(n)
  }

  predicate IsSpace(c: char) { c in " \t\n\r\U{000B}\U{000C}" }

  function Strip(s: string): string {
    if s == [] then []
    else if IsSpace(s[0]) then Strip(s[1..])
    else if IsSpace(s[|s| - 1]) then Strip(s[..|s| - 1])
    else s
  }

  function DigitValue(c: char): Option<nat> {
    if IsDigit(c) then Some(c as int - '0' as int) else None
  }

  /** What comes before the last digit, and before an underscore that sets it apart. */
  function Front(s: string): (front: string)
    requires |s| > 1
    ensures |front| < |s|
  {
    if s[|s| - 2] == '_' then s[..|s| - 2] else s[..|s| - 1]
  }

  /** Digits with single underscores allowed between them, as Python's `int()` reads them. */
  function ParseUnsigned(s: string): Option<nat>
    decreases |s|
  {
    if s == [] then None
    else
      var last := DigitValue(s[|s| - 1]);
      if last.None? then None
      else if |s| == 1 then last
      else
        var high := ParseUnsigned(Front(s));
        if high.None? then None else Some(10 * high.value + last.value)
  }

  /** Python's `int(text)`; `None` stands for ValueError. */
  function ParseInt(text: string): Option<int> {
    var s := Strip(text);
    var negative := s != [] && s[0] == '-';
    var body := if s != [] && (s[0] == '-' || s[0] == '+') then s[1..] else s;
    var n := ParseUnsigned(body);
    var magnitude: int := if n.None? then 0 else n.value;
    if n.None? then None else Some(if negative then -magnitude else magnitude)
  }

  /** Index of the last colon, or -1. */
  function LastColon(s: string): (i: int)
    ensures -1 <= i < |s|
  {
    if s == [] then -1
    else if s[|s| - 1] == ':' then |s| - 1
    else LastColon(s[..|s| - 1])
  }

  // ---------------------------------------------------------------- NodeInfo

  datatype NodeInfo = NodeInfo(host: string, port: int) {
    function Address(): string { host + ":" + Decimal(port) }

    /** `rsplit(":", 1)` then `int(port)`; `None` stands for ValueError. */
    static function FromAddress(address: string): Option<NodeInfo> {
      var i := LastColon(address);
      if i < 0 then None
      else
        var port := ParseInt(address[i + 1..]);
        if port.None? then None else Some(NodeInfo(address[..i], port.value))
    }
  }

  lemma {:induction false} ParseDigits(n: nat)
    ensures ParseUnsigned(Digits(n)) == Some(n)
  {
    var s := Digits(n);
    if n >= 10 {
      ParseDigits(n / 10);
      assert s[..|s| - 1] == Digits(n / 10);
      assert s[|s| - 2] == Digits(n / 10)[|s| - 2];
    }
  }

  lemma {:induction false} LastColonOfSuffix(host: string, tail: string)
    requires ':' !in tail
    ensures LastColon(host + ":" + tail) == |host|
  {
    var s := host + ":" + tail;
    if tail == [] {
      assert s[|s| - 1] == ':';
    } else {
      var shorter := tail[..|tail| - 1];
      assert s[..|s| - 1] == host + ":" + shorter;
      LastColonOfSuffix(host, shorter);
    }
  }

  lemma DecimalCharacters(port: int)
    ensures Decimal(port) != []
    ensures forall i :: 0 <= i < |Decimal(port)| ==> IsDigit(Decimal(port)[i]) || Decimal(port)[i] == '-'
  {
  }

  lemma StripNothing(s: string)
    requires s != [] && !IsSpace(s[0]) && !IsSpace(s[|s| - 1])
    ensures Strip(s) == s
  {
  }

  lemma ParseDecimal(port: int)
    ensures ParseInt(Decimal(port)) == Some(port)
  {
    var text := Decimal(port);
    var magnitude: nat := if port < 0 then -port else port;
    DecimalCharacters(port);
    StripNothing(text);
    ParseDigits(magnitude);
    assert Digits(magnitude) == if port < 0 then text[1..] else text;
  }

  predicate Blank(s: string) { forall i :: 0 <= i < |s| ==> IsSpace(s[i]) }

  lemma {:induction false} StripPadding(left: string, s: string, right: string)
    requires Blank(left) && Blank(right) && s != [] && !IsSpace(s[0]) && !IsSpace(s[|s| - 1])
    ensures Strip(left + s + right) == s
    decreases |left|, |right|
  {
    var text := left + s + right;
    if left != [] {
      assert text[1..] == left[1..] + s + right;
      StripPadding(left[1..], s, right);
    } else if right != [] {
      assert text[..|text| - 1] == left + s + right[..|right| - 1];
      StripPadding(left, s, right[..|right| - 1]);
    } else {
      assert text == s;
      StripNothing(s);
    }
  }

  lemma PlusSign(port: nat, left: string, right: string)
    requires Blank(left) && Blank(right)
    ensures ParseInt(left + ("+" + Decimal(port)) + right) == Some(port)
  {
    var text := "+" + Decimal(port);
    DecimalCharacters(port);
    StripPadding(left, text, right);
    ParseDigits(port);
    assert text[1..] == Digits(port);
  }

  /** Digits, with single underscores between them. */
  predicate IsNumeral(s: string) {
    && s != [] && IsDigit(s[0]) && IsDigit(s[|s| - 1])
    && (forall i :: 0 <= i < |s| ==> IsDigit(s[i]) || s[i] == '_')
    && (forall i :: 0 <= i < |s| - 1 ==> IsDigit(s[i]) || IsDigit(s[i + 1]))
  }

  lemma FrontIsNumeral(s: string)
    requires |s| > 1
    ensures IsNumeral(s) <==> IsDigit(s[|s| - 1]) && IsNumeral(Front(s))
  {
    if IsDigit(s[|s| - 1]) && IsNumeral(Front(s)) {
      forall i | 0 <= i < |s| - 1 ensures IsDigit(s[i]) || IsDigit(s[i + 1]) {
        if i < |Front(s)| - 1 {
          assert Front(s)[i] == s[i] && Front(s)[i + 1] == s[i + 1];
        } else if i < |Front(s)| {
          assert Front(s)[i] == s[i];
        }
      }
      forall i | 0 <= i < |s| ensures IsDigit(s[i]) || s[i] == '_' {
        assert i < |Front(s)| ==> Front(s)[i] == s[i];
      }
    }
  }

  lemma FrontParses(s: string)
    requires |s| > 1 && IsDigit(s[|s| - 1])
    ensures ParseUnsigned(s)
         == if ParseUnsigned(Front(s)).None? then None
            else Some(10 * ParseUnsigned(Front(s)).value + (s[|s| - 1] as int - '0' as int))
  {
  }

  /** Exactly the numerals are numbers. */
  lemma {:induction false} NumeralIff(s: string)
    ensures ParseUnsigned(s).Some? <==> IsNumeral(s)
    decreases |s|
  {
    if |s| > 1 {
      FrontIsNumeral(s);
      if IsDigit(s[|s| - 1]) {
        NumeralIff(Front(s));
        FrontParses(s);
      }
    }
  }

  function WithoutUnderscores(s: string): (r: string)
    ensures '_' !in r
  {
    if s == [] then []
    else WithoutUnderscores(s[..|s| - 1]) + if s[|s| - 1] == '_' then [] else [s[|s| - 1]]
  }

  lemma FrontOfAppended(front: string, c: char)
    requires front != [] && '_' !in front
    ensures Front(front + [c]) == front
  {
    assert (front + [c])[|front| - 1] in front;
  }

  lemma DigitAppended(front: string, c: char)
    requires front != [] && '_' !in front && IsDigit(c)
    ensures ParseUnsigned(front + [c])
         == if ParseUnsigned(front).None? then None
            else Some(10 * ParseUnsigned(front).value + (c as int - '0' as int))
  {
    FrontOfAppended(front, c);
    FrontParses(front + [c]);
  }

  lemma FrontWithout(s: string)
    requires |s| > 1 && IsDigit(s[|s| - 1])
    ensures WithoutUnderscores(s) == WithoutUnderscores(Front(s)) + [s[|s| - 1]]
  {
    if s[|s| - 2] == '_' {
      assert s[..|s| - 1][..|s| - 2] == Front(s);
      assert WithoutUnderscores(s[..|s| - 1]) == WithoutUnderscores(Front(s)) + [];
    }
  }

  lemma OneDigitWithout(s: string)
    requires |s| == 1 && IsDigit(s[0])
    ensures WithoutUnderscores(s) == s
  {
    assert s[..0] == [] && WithoutUnderscores(s[..0]) == [] && [] + [s[0]] == s;
  }

  /** Underscores between digits do not count. */
  lemma {:induction false} UnderscoresIgnored(s: string)
    requires IsNumeral(s)
    ensures WithoutUnderscores(s) != [] && ParseUnsigned(s) == ParseUnsigned(WithoutUnderscores(s))
    decreases |s|
  {
    if |s| == 1 {
      OneDigitWithout(s);
    } else {
      FrontIsNumeral(s);
      UnderscoresIgnored(Front(s));
      FrontParses(s);
      FrontWithout(s);
      DigitAppended(WithoutUnderscores(Front(s)), s[|s| - 1]);
    }
  }

  /** An address parses exactly if it has a colon and what follows the last one is a number. */
  lemma AddressParses(address: string, host: string, tail: string)
    requires ':' !in tail
    ensures NodeInfo.FromAddress(host + ":" + tail)
         == if ParseInt(tail).Some? then Some(NodeInfo(host, ParseInt(tail).value)) else None
    ensures ':' !in address ==> NodeInfo.FromAddress(address) == None
  {
    LastColonOfSuffix(host, tail);
    var text := host + ":" + tail;
    assert text[|host| + 1..] == tail && text[..|host|] == host;
    if ':' !in address {
      NoColon(address);
    }
  }

  lemma {:induction false} NoColon(s: string)
    requires ':' !in s
    ensures LastColon(s) == -1
  {
    if s != [] {
      NoColon(s[..|s| - 1]);
    }
  }

  /** A port may be written with spaces around it or with a plus sign. */
  lemma LenientPorts(port: int, left: string, right: string)
    requires Blank(left) && Blank(right)
    ensures ParseInt(left + Decimal(port) + right) == Some(port)
    ensures port >= 0 ==> ParseInt(left + ("+" + Decimal(port)) + right) == Some(port)
  {
    DecimalCharacters(port);
    ParseDecimal(port);
    StripNothing(Decimal(port));
    StripPadding(left, Decimal(port), right);
    if port >= 0 {
      PlusSign(port, left, right);
    }
  }

  /** Printing an address and parsing it back gives the same host and port, whatever the
      host contains (colons included) and whatever the sign of the port. */
  lemma FromAddressInvertsAddress(n: NodeInfo)
    ensures NodeInfo.FromAddress(n.Address()) == Some(n)
  {
    var text := Decimal(n.port);
    DecimalCharacters(n.port);
    LastColonOfSuffix(n.host, text);
    assert n.Address()[|n.host| + 1..] == text;
    assert n.Address()[..|n.host|] == n.host;
    ParseDecimal(n.port);
  }

  /** Equality by address is equality of host and port. */
  lemma SameAddressSameNode(a: NodeInfo, b: NodeInfo)
    ensures a.Address() == b.Address() <==> a == b
  {
    FromAddressInvertsAddress(a);
    FromAddressInvertsAddress(b);
  }

  // ---------------------------------------------------------------- messages

  datatype MessageType =
    | Ping | Pong | PeerList | PeerAnnounce | PeerLeave
    | Get | Set | Delete
    | Ok | NotFound | Error

  /** The payload dictionary; an absent field is an absent key. A node is itself a dictionary: `None` in
      `peers`, and likewise no `peer`, stands for one that cannot be read (KeyError). */
  datatype Payload = Payload(
    key: Option<string>, value: Option<Value>, ttl: Option<real>, ts: Option<int>, tombstone: Option<bool>,
    node: Option<NodeInfo>, peer: Option<NodeInfo>, peers: Option<seq<Option<NodeInfo>>>, error: Option<string>)

  const EMPTY := Payload(None, None, None, None, None, None, None, None, None)

  datatype Message = Message(kind: MessageType, payload: Payload)

  function Name(kind: MessageType): string {
    match kind
    case Ping => "PING"
    case Pong => "PONG"
    case PeerList => "PEER_LIST"
    case PeerAnnounce => "PEER_ANNOUNCE"
    case PeerLeave => "PEER_LEAVE"
    case Get => "GET"
    case Set => "SET"
    case Delete => "DELETE"
    case Ok => "OK"
    case NotFound => "NOT_FOUND"
    case Error => "ERROR"
  }

  /** The reply to a message that the component asked does not serve. */
  function Unserved(kind: MessageType): Message {
    Message(Error, EMPTY.(error := Some("unknown message type: MessageType." + Name(kind))))
  }
}
