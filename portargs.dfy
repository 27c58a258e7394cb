/**
 * The argument of the PORT command (section 4.1.2 of RFC 959): the data
 * socket's IPv4 address as four bytes, most significant first, then its
 * port as a high and a low byte, all in decimal and separated by commas.
 * Also the server's parser of that argument, the inverse of the encoder.
 */
module PortArgs {
  import opened Wrappers
  import opened Scan

  type uint32 = x: int | 0 <= x < 0x1_0000_0000
  type uint16 = x: int | 0 <= x < 0x1_0000

  /** The address and port `getsockname` reports for the data socket, in host byte order. */
  datatype Endpoint = Endpoint(addr: uint32, port: uint16)

  /**
   * `(ip >> 24) & 0xFF`, `(ip >> 16) & 0xFF`, `(ip >> 8) & 0xFF`, `ip & 0xFF`
   * on an unsigned 32-bit value, where a right shift by k is a division by
   * 2^k and the mask keeps the remainder modulo 256.
   */
  function Octets(ip: uint32): (o: seq<nat>)
    ensures |o| == 4 && forall i :: 0 <= i < 4 ==> o[i] <= 255
    ensures o[0] * 0x100_0000 + o[1] * 0x1_0000 + o[2] * 0x100 + o[3] == ip
  {
    var a, b, c := ip / 0x100_0000, ip / 0x1_0000, ip / 0x100;
    assert b == a * 256 + b % 256;
    assert c == b * 256 + c % 256;
    assert ip == c * 256 + ip % 256;
    [a % 256, b % 256, c % 256, ip % 256]
  }

  /** `port / 256` and `port % 256` of an unsigned 16-bit port. */
  function PortBytes(port: uint16): (b: (nat, nat))
    ensures b.0 <= 255 && b.1 <= 255
    ensures b.0 * 256 + b.1 == port
  {
    (port / 256, port % 256)
  }

  /** The six numbers of the PORT argument. */
  function HostPort(ep: Endpoint): (f: seq<nat>)
    ensures |f| == 6 && forall i :: 0 <= i < 6 ==> f[i] <= 255
  {
    var (hi, lo) := PortBytes(ep.port);
    Octets(ep.addr) + [hi, lo]
  }

  /** The parts separated by commas. */
  function Join(parts: seq<string>): string
    requires parts != []
  {
    if |parts| == 1 then parts[0] else parts[0] + "," + Join(parts[1..])
  }

  /** Each number in decimal, in order. */
  function Decimals(f: seq<nat>): (d: seq<string>)
    ensures |d| == |f|
  {
    if f == [] then [] else [Decimal(f[0])] + Decimals(f[1..])
  }

  /** `sprintf(portArgs, "%d,%d,%d,%d,%d,%d", ...)` of the six numbers. */
  function PortArgument(ep: Endpoint): (s: string)
    ensures |s| <= 23 && '\0' !in s
  {
    DecimalsShape(HostPort(ep));
    JoinLength(Decimals(HostPort(ep)));
    Join(Decimals(HostPort(ep)))
  }

  /** Parts of at most three characters, none a NUL, join into at most four characters per part, less one. */
  lemma {:induction false} JoinLength(parts: seq<string>)
    requires parts != []
    requires forall i :: 0 <= i < |parts| ==> |parts[i]| <= 3 && '\0' !in parts[i]
    ensures |Join(parts)| <= 4 * |parts| - 1 && '\0' !in Join(parts)
  {
    if |parts| > 1 {
      JoinLength(parts[1..]);
    }
  }

  /** Byte values print in at most three digits, none a NUL. */
  lemma {:induction false} DecimalsShape(f: seq<nat>)
    requires forall i :: 0 <= i < |f| ==> f[i] <= 255
    ensures forall i :: 0 <= i < |f| ==> |Decimals(f)[i]| <= 3 && '\0' !in Decimals(f)[i]
  {
    if f != [] {
      DecimalLength(f[0]);
      var d := Decimal(f[0]);
      assert forall i :: 0 <= i < |d| ==> IsDigit(d[i]);
      DecimalsShape(f[1..]);
    }
  }

  predicate NotComma(c: char) {
    c != ','
  }

  /** The fields of a comma-separated text. */
  function Split(s: string): (parts: seq<string>)
    ensures parts != []
    decreases |s|
  {
    var k := Span(s, NotComma);
    if k == |s| then [s] else [s[..k]] + Split(s[k + 1..])
  }

  /** Splitting at commas undoes joining parts that hold no comma. */
  lemma {:induction false} SplitJoin(parts: seq<string>)
    requires parts != []
    requires forall i :: 0 <= i < |parts| ==> ',' !in parts[i]
    ensures Split(Join(parts)) == parts
  {
    var p := parts[0];
    if |parts| == 1 {
      SpanOfPrefix(p, [], NotComma);
      assert p + [] == p;
    } else {
      var tail := Join(parts[1..]);
      var s := p + "," + tail;
      assert s == p + ("," + tail);
      SpanOfPrefix(p, "," + tail, NotComma);
      assert s[..|p|] == p;
      assert s[|p| + 1..] == tail;
      SplitJoin(parts[1..]);
      assert parts == [p] + parts[1..];
    }
  }

  /** A field of the argument read as one byte: decimal digits whose value is at most 255. */
  function ReadByte(field: string): (b: Option<nat>)
    ensures b.Some? ==> b.value <= 255
  {
    if field != [] && AllDigits(field) && Value(field) <= 255 then Some(Value(field)) else None
  }

  /** Every field read as a byte, or None if one of them is not one. */
  function ReadBytes(fields: seq<string>): (b: Option<seq<nat>>)
    ensures b.Some? ==> |b.value| == |fields| && forall i :: 0 <= i < |fields| ==> b.value[i] <= 255
  {
    if fields == [] then Some([])
    else
      match (ReadByte(fields[0]), ReadBytes(fields[1..]))
      case (Some(x), Some(xs)) => Some([x] + xs)
      case _ => None
  }

  /** The endpoint six byte values describe. */
  function FromHostPort(b: seq<nat>): Endpoint
    requires |b| == 6 && forall i :: 0 <= i < 6 ==> b[i] <= 255
  {
    Endpoint(b[0] * 0x100_0000 + b[1] * 0x1_0000 + b[2] * 0x100 + b[3], b[4] * 256 + b[5])
  }

  /** How the server reads the PORT argument: exactly six byte fields giving the address and the port. */
  function ParseHostPort(arg: string): Option<Endpoint> {
    var f := Split(arg);
    if |f| != 6 then None
    else
      match ReadBytes(f)
      case None => None
      case Some(b) => Some(FromHostPort(b))
  }

  /** Numbers up to 255 printed in decimal read back as themselves. */
  lemma {:induction false} ReadBytesOfDecimals(f: seq<nat>)
    requires forall i :: 0 <= i < |f| ==> f[i] <= 255
    ensures ReadBytes(Decimals(f)) == Some(f)
    ensures forall i :: 0 <= i < |f| ==> ',' !in Decimals(f)[i]
  {
    if f != [] {
      ValueOfDecimal(f[0]);
      assert AllDigits(Decimal(f[0]));
      ReadBytesOfDecimals(f[1..]);
      assert f == [f[0]] + f[1..];
    }
  }

  /** The six numbers of an endpoint describe that endpoint. */
  lemma FromHostPortOfHostPort(ep: Endpoint)
    ensures FromHostPort(HostPort(ep)) == ep
  {
  }

  /**
   * The server recovers exactly the advertised endpoint from the argument:
   * the four address bytes are the big-endian bytes of the address and the
   * last two are the port's high and low byte.
   */
  lemma ParseHostPortOfArgument(ep: Endpoint)
    ensures ParseHostPort(PortArgument(ep)) == Some(ep)
  {
    var f := HostPort(ep);
    ReadBytesOfDecimals(f);
    SplitJoin(Decimals(f));
    FromHostPortOfHostPort(ep);
  }

  /** An example: 203.0.113.5 port 4660 is advertised as `203,0,113,5,18,52`. */
  lemma ExampleArgument()
    ensures PortArgument(Endpoint(0xCB00_7105, 4660)) == "203,0,113,5,18,52"
  {
    ExampleHostPort();
    ExampleDecimals();
    ExampleJoin();
  }

  lemma ExampleHostPort()
    ensures HostPort(Endpoint(0xCB00_7105, 4660)) == [203, 0, 113, 5, 18, 52]
  {
    assert Octets(0xCB00_7105) == [203, 0, 113, 5];
    assert PortBytes(4660) == (18, 52);
  }

  lemma ExampleDecimals()
    ensures Decimals([203, 0, 113, 5, 18, 52]) == ["203", "0", "113", "5", "18", "52"]
  {
    assert Decimal(203) == "203" && Decimal(113) == "113";
    assert Decimal(18) == "18" && Decimal(52) == "52";
  }

  lemma ExampleJoin()
    ensures Join(["203", "0", "113", "5", "18", "52"]) == "203,0,113,5,18,52"
  {
    var p := ["203", "0", "113", "5", "18", "52"];
    assert p[5..] == ["52"];
    assert Join(p[4..]) == "18,52" by { assert p[4..][1..] == p[5..]; }
    assert Join(p[3..]) == "5,18,52" by { assert p[3..][1..] == p[4..]; }
    assert Join(p[2..]) == "113,5,18,52" by { assert p[2..][1..] == p[3..]; }
    assert Join(p[1..]) == "0,113,5,18,52" by { assert p[1..][1..] == p[2..]; }
  }
}
