/** `int_to_ip`: an unsigned 32-bit address, most significant octet first, rendered
    in the dotted-decimal form `socket.inet_ntoa` produces, with "0.0.0.0" for every
    input that is not a positive int or does not fit in 32 bits. */
module Ipv4 {
  import opened Wrappers
  import opened Text
  import opened PyValues

  newtype byte = x: int | 0 <= x < 256

  /** What `int_to_ip` answers for anything it cannot convert. */
  const Sentinel: string := "0.0.0.0"

  /** 2^32: `struct.pack('!L', n)` accepts exactly 0 <= n < 2^32. */
  const UnsignedLongLimit: int := 0x1_0000_0000

  /** The low `width` bytes of `n`, most significant first. */
  function BigEndian(n: nat, width: nat): (bytes: seq<byte>)
    ensures |bytes| == width
  {
    if width == 0 then [] else BigEndian(n / 256, width - 1) + [(n % 256) as byte]
  }

  /** `struct.pack('!L', n)`: four bytes in network order, or `None` where
      `struct.error` is raised because `n` is out of range. */
  function PackUnsignedLong(n: int): (r: Option<seq<byte>>)
    ensures r.Some? <==> 0 <= n < UnsignedLongLimit
    ensures r.Some? ==> |r.value| == 4
  {
    if 0 <= n < UnsignedLongLimit then Some(BigEndian(n, 4)) else None
  }

  /** `socket.inet_ntoa(packed)`: the four bytes in decimal joined by dots, or
      `None` where `OSError` is raised because `packed` is not four bytes long. */
  function InetNtoa(packed: seq<byte>): (r: Option<string>)
    ensures r.Some? <==> |packed| == 4
  {
    if |packed| != 4 then None
    else Some(Decimal(packed[0] as nat) + "." + Decimal(packed[1] as nat) + "."
              + Decimal(packed[2] as nat) + "." + Decimal(packed[3] as nat))
  }

  /** `int_to_ip(v)`: the guard `isinstance(v, int) and v > 0`, then pack and
      format, with every exception turned into the sentinel. */
  function IntToIp(v: Value): (r: string)
    ensures !Convertible(v) ==> r == Sentinel
    ensures Convertible(v) ==> InetNtoa(BigEndian(AsInt(v).value, 4)) == Some(r)
  {
    match AsInt(v)
    case None => Sentinel
    case Some(n) =>
      if n <= 0 then Sentinel
      else
        match PackUnsignedLong(n)
        case None => Sentinel
        case Some(packed) =>
          (match InetNtoa(packed)
           case None => Sentinel
           case Some(text) => text)
  }

  /** The inputs `int_to_ip` really converts: ints (or bools) in 0 < n < 2^32. */
  predicate Convertible(v: Value) {
    AsInt(v).Some? && 0 < AsInt(v).value < UnsignedLongLimit
  }

  /** The address `int_to_ip(v)` denotes: the input itself when it converts, else 0. */
  function AddressOf(v: Value): nat {
    if Convertible(v) then AsInt(v).value else 0
  }

  /** One decimal octet 0..255, as dotted-decimal text writes it. */
  function ParseOctet(s: string): Option<nat> {
    if s != [] && IsDigits(s) && DigitsValue(s) < 256 then Some(DigitsValue(s)) else None
  }

  /** The reading of dotted-decimal text: four octets separated by dots, the
      first most significant. This is the inverse `int_to_ip` is checked against. */
  function ParseDottedQuad(s: string): Option<nat> {
    var parts := Split(s, '.');
    if |parts| != 4 then None
    else
      match (ParseOctet(parts[0]), ParseOctet(parts[1]), ParseOctet(parts[2]), ParseOctet(parts[3]))
      case (Some(a), Some(b), Some(c), Some(d)) => Some(((a * 256 + b) * 256 + c) * 256 + d)
      case _ => None
  }

  /** Packing a 32-bit number gives its four octets, most significant first. */
  lemma BigEndianFour(n: nat)
    requires n < UnsignedLongLimit
    ensures BigEndian(n, 4) == [(n / 0x100_0000 % 256) as byte, (n / 0x1_0000 % 256) as byte,
                                (n / 0x100 % 256) as byte, (n % 256) as byte]
  {
    var q1, q2, q3 := n / 256, n / 0x1_0000, n / 0x100_0000;
    assert q1 / 256 == q2;
    assert q2 / 256 == q3;
    assert q3 < 256 && q3 % 256 == q3;
    assert BigEndian(n, 4) == BigEndian(q1, 3) + [(n % 256) as byte];
    assert BigEndian(q1, 3) == BigEndian(q2, 2) + [(q1 % 256) as byte];
    assert BigEndian(q2, 2) == BigEndian(q3, 1) + [(q2 % 256) as byte];
    assert BigEndian(q3, 1) == [(q3 % 256) as byte];
  }

  /** For 0 < n < 2^32, `int_to_ip(n)` is the four octets (n >> 24) % 256,
      (n >> 16) % 256, (n >> 8) % 256 and n % 256 in decimal, joined by dots. */
  lemma IntToIpOctets(n: int)
    requires 0 < n < UnsignedLongLimit
    ensures IntToIp(Int(n)) == Decimal(n / 0x100_0000 % 256) + "." + Decimal(n / 0x1_0000 % 256) + "."
                               + Decimal(n / 0x100 % 256) + "." + Decimal(n % 256)
  {
    BigEndianFour(n);
    var packed := BigEndian(n, 4);
    assert PackUnsignedLong(n) == Some(packed);
    var text := InetNtoa(packed).value;
    assert text == Decimal(packed[0] as nat) + "." + Decimal(packed[1] as nat) + "."
                   + Decimal(packed[2] as nat) + "." + Decimal(packed[3] as nat);
    assert IntToIp(Int(n)) == text;
  }

  /** Dotted-decimal text of four octets reads back as the number they make up. */
  lemma DottedQuadRoundTrip(a: nat, b: nat, c: nat, d: nat)
    requires a < 256 && b < 256 && c < 256 && d < 256
    ensures ParseDottedQuad(Decimal(a) + "." + Decimal(b) + "." + Decimal(c) + "." + Decimal(d))
            == Some(((a * 256 + b) * 256 + c) * 256 + d)
  {
    OctetRoundTrip(a);
    OctetRoundTrip(b);
    OctetRoundTrip(c);
    OctetRoundTrip(d);
    ParseJoined(Decimal(a), Decimal(b), Decimal(c), Decimal(d), a, b, c, d);
  }

  /** Four octet texts joined by dots read back as the number the octets make up. */
  lemma ParseJoined(da: string, db: string, dc: string, dd: string, a: nat, b: nat, c: nat, d: nat)
    requires ParseOctet(da) == Some(a) && ParseOctet(db) == Some(b)
    requires ParseOctet(dc) == Some(c) && ParseOctet(dd) == Some(d)
    ensures ParseDottedQuad(da + "." + db + "." + dc + "." + dd) == Some(((a * 256 + b) * 256 + c) * 256 + d)
  {
    DigitsExclude(da, '.');
    DigitsExclude(db, '.');
    DigitsExclude(dc, '.');
    DigitsExclude(dd, '.');
    SplitFour(da, db, dc, dd, '.');
  }

  /** The decimal text of an octet reads back as that octet. */
  lemma OctetRoundTrip(a: nat)
    requires a < 256
    ensures ParseOctet(Decimal(a)) == Some(a)
  {
    DecimalRoundTrip(a);
  }

  /** The four octets of a 32-bit number make the number up again. */
  lemma OctetsRecombine(n: nat)
    requires n < UnsignedLongLimit
    ensures ((n / 0x100_0000 % 256 * 256 + n / 0x1_0000 % 256) * 256 + n / 0x100 % 256) * 256 + n % 256 == n
  {
    assert n / 256 / 256 == n / 0x1_0000;
    assert n / 0x1_0000 / 256 == n / 0x100_0000;
    assert n / 0x100_0000 < 256;
  }

  /** The four octets of a convertible number, with the text `int_to_ip` makes of them. */
  lemma OctetsOf(n: int) returns (a: nat, b: nat, c: nat, d: nat)
    requires 0 < n < UnsignedLongLimit
    ensures a < 256 && b < 256 && c < 256 && d < 256
    ensures ((a * 256 + b) * 256 + c) * 256 + d == n
    ensures IntToIp(Int(n)) == Decimal(a) + "." + Decimal(b) + "." + Decimal(c) + "." + Decimal(d)
  {
    a, b, c, d := n / 0x100_0000 % 256, n / 0x1_0000 % 256, n / 0x100 % 256, n % 256;
    IntToIpOctets(n);
    OctetsRecombine(n);
  }

  /** int_to_ip round trip: its text always reads back, as the input when the
      input converts and as 0 (the sentinel) otherwise. */
  lemma IntToIpParsesBack(v: Value)
    ensures ParseDottedQuad(IntToIp(v)) == Some(AddressOf(v))
  {
    if Convertible(v) {
      var n := AsInt(v).value;
      assert IntToIp(v) == IntToIp(Int(n));
      NumberParsesBack(n);
    } else {
      assert IntToIp(v) == Sentinel;
      SentinelParses();
    }
  }

  /** The text of a convertible number reads back as that number. */
  lemma NumberParsesBack(n: int)
    requires 0 < n < UnsignedLongLimit
    ensures ParseDottedQuad(IntToIp(Int(n))) == Some(n)
  {
    var a, b, c, d := OctetsOf(n);
    DottedQuadRoundTrip(a, b, c, d);
  }

  /** The sentinel reads as the address 0. */
  lemma SentinelParses()
    ensures ParseDottedQuad(Sentinel) == Some(0)
  {
    assert Sentinel == Decimal(0) + "." + Decimal(0) + "." + Decimal(0) + "." + Decimal(0);
    DottedQuadRoundTrip(0, 0, 0, 0);
  }

  /** `int_to_ip` gives "0.0.0.0" exactly for the inputs that are no int, are
      <= 0, or are >= 2^32 (where `struct.pack` raises and the error is caught). */
  lemma IntToIpSentinelExactly(v: Value)
    ensures IntToIp(v) == Sentinel <==> !Convertible(v)
  {
    IntToIpParsesBack(v);
    IntToIpParsesBack(Int(0));
  }

  /** `int_to_ip` is one-to-one on the inputs it converts. */
  lemma IntToIpInjective(v: Value, w: Value)
    requires Convertible(v) && Convertible(w)
    requires IntToIp(v) == IntToIp(w)
    ensures AsInt(v) == AsInt(w)
  {
    IntToIpParsesBack(v);
    IntToIpParsesBack(w);
  }

  /** The text of `int_to_ip` holds only digits and dots (in particular no ':'). */
  lemma IntToIpAlphabet(v: Value)
    ensures forall i :: 0 <= i < |IntToIp(v)| ==> IsDigit(IntToIp(v)[i]) || IntToIp(v)[i] == '.'
  {
    if Convertible(v) {
      var n := AsInt(v).value;
      assert IntToIp(v) == InetNtoa(BigEndian(n, 4)).value;
      NtoaAlphabet(BigEndian(n, 4));
    }
  }

  /** The text of `inet_ntoa` holds only digits and dots. */
  lemma NtoaAlphabet(packed: seq<byte>)
    requires |packed| == 4
    ensures forall i :: 0 <= i < |InetNtoa(packed).value| ==>
              IsDigit(InetNtoa(packed).value[i]) || InetNtoa(packed).value[i] == '.'
  {
    var d0, d1, d2, d3 := Decimal(packed[0] as nat), Decimal(packed[1] as nat),
                          Decimal(packed[2] as nat), Decimal(packed[3] as nat);
    var text := d0 + "." + d1 + "." + d2 + "." + d3;
    assert InetNtoa(packed).value == text;
    forall i | 0 <= i < |text|
      ensures IsDigit(text[i]) || text[i] == '.'
    {
      if i < |d0| { assert text[i] == d0[i]; }
      else if i == |d0| { }
      else if i < |d0| + 1 + |d1| { assert text[i] == d1[i - |d0| - 1]; }
      else if i == |d0| + 1 + |d1| { }
      else if i < |d0| + |d1| + 2 + |d2| { assert text[i] == d2[i - |d0| - |d1| - 2]; }
      else if i == |d0| + |d1| + 2 + |d2| { }
      else { assert text[i] == d3[i - |d0| - |d1| - |d2| - 3]; }
    }
  }

  /** A worked case: 203.0.113.5, a documentation address, from its 32-bit form. */
  lemma IntToIpExample()
    ensures IntToIp(Int(0xCB00_7105)) == "203.0.113.5"
  {
    assert Decimal(2) == "2" && Decimal(20) == "20" && Decimal(203) == "203";
    assert Decimal(1) == "1" && Decimal(11) == "11" && Decimal(113) == "113";
    assert Decimal(0) == "0" && Decimal(5) == "5";
    assert BigEndian(0xCB, 1) == [203 as byte];
    assert BigEndian(0xCB00, 2) == [203 as byte, 0 as byte];
    assert BigEndian(0xCB_0071, 3) == [203 as byte, 0 as byte, 113 as byte];
    var packed := BigEndian(0xCB00_7105, 4);
    assert packed == [203 as byte, 0 as byte, 113 as byte, 5 as byte];
    assert IntToIp(Int(0xCB00_7105)) == InetNtoa(packed).value;
  }

  /** `True` is an int in Python, so it converts, to "0.0.0.1". */
  lemma IntToIpOfTrue()
    ensures IntToIp(Bool(true)) == "0.0.0.1"
  {
    IntToIpOctets(1);
    assert Decimal(0) == "0";
    assert Decimal(1) == "1";
  }
}
