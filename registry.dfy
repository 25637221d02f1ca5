/** How a node is addressed and which status pattern it is sent: the radio
    URI is a fixed prefix followed by the node number in decimal, padded
    with zeros to at least two characters, and the LED bitmask marks the
    leader. */
module Registry {
  import opened Topology

  const URI_PREFIX: string := "radio://0/80/2M/E7E7E7E7"

  /** 0b10110101: red and blue. */
  const LED_LEADER: int := 0xB5
  /** 0b10000000: all off. */
  const LED_FOLLOWER: int := 0x80

  /** The `led.bitmask` value `send_graph` writes for an entry. */
  function LedFor(e: Entry): (bits: int)
    ensures bits == LED_LEADER <==> e.node == e.parent
    ensures bits == LED_FOLLOWER <==> e.node != e.parent
  {
    if e.node == e.parent then LED_LEADER else LED_FOLLOWER
  }

  function DigitChar(d: nat): char
    requires d < 10
  {
    ('0' as int + d) as char
  }

  function DigitValue(c: char): Option<int> {
    if '0' <= c <= '9' then Some(c as int - '0' as int) else None
  }

  /** Decimal digits of `n`, most significant first, without leading zeros. */
  function Decimal(n: nat): (s: string)
    ensures 1 <= |s|
    ensures |s| == 1 <==> n < 10
    ensures forall i :: 0 <= i < |s| ==> '0' <= s[i] <= '9'
  {
    if n < 10 then [DigitChar(n)] else Decimal(n / 10) + [DigitChar(n % 10)]
  }

  /** Python's two-character, zero-padded decimal format: a minus sign for a
      negative number, and a leading zero for 0..9, so the text is never
      shorter than two characters. */
  function Format02d(n: int): (s: string)
    ensures |s| >= 2
    ensures 0 <= n < 100 ==> |s| == 2
  {
    if n < 0 then "-" + Decimal(-n)
    else if n < 10 then "0" + Decimal(n)
    else Decimal(n)
  }

  /** The radio URI of a node: the fixed prefix, then the padded number. */
  function Uri(node: int): string {
    URI_PREFIX + Format02d(node)
  }

  /** Reads back a non-empty run of decimal digits (leading zeros allowed). */
  function ParseDecimal(s: string): Option<int> {
    if |s| == 0 then None
    else match DigitValue(s[|s| - 1])
      case None => None
      case Some(d) =>
        if |s| == 1 then Some(d)
        else match ParseDecimal(s[..|s| - 1])
          case None => None
          case Some(v) => Some(10 * v + d)
  }

  function ParseNumber(s: string): Option<int> {
    if |s| > 0 && s[0] == '-' then
      match ParseDecimal(s[1..])
      case None => None
      case Some(v) => Some(-v)
    else ParseDecimal(s)
  }

  /** The node a radio URI addresses, or None for a URI of another form. */
  function NodeOfUri(uri: string): Option<int> {
    if |URI_PREFIX| <= |uri| && uri[..|URI_PREFIX|] == URI_PREFIX then ParseNumber(uri[|URI_PREFIX|..]) else None
  }

  lemma {:induction false} DecimalRoundTrip(n: nat)
    ensures ParseDecimal(Decimal(n)) == Some(n)
    decreases n
  {
    var s := Decimal(n);
    if n >= 10 {
      DecimalRoundTrip(n / 10);
      assert s[..|s| - 1] == Decimal(n / 10);
      assert DigitValue(s[|s| - 1]) == Some(n % 10);
    } else {
      assert DigitValue(s[0]) == Some(n);
    }
  }

  lemma DigitCharValue(d: nat)
    requires d < 10
    ensures DigitValue(DigitChar(d)) == Some(d)
  {
  }

  lemma ParsePadded(c: char)
    ensures ParseNumber(['0', c]) == DigitValue(c)
  {
    var s := ['0', c];
    assert s[..1] == ['0'] && s[1] == c;
    assert ParseDecimal(['0']) == Some(0);
  }

  /** A single digit is padded with a leading zero, which reads back as 0. */
  lemma PaddedRoundTrip(n: int)
    requires 0 <= n < 10
    ensures ParseNumber(Format02d(n)) == Some(n)
  {
    assert Format02d(n) == ['0', DigitChar(n)];
    ParsePadded(DigitChar(n));
    DigitCharValue(n);
  }

  lemma SignedDigits(n: int)
    requires n < 0
    ensures |Format02d(n)| > 0 && Format02d(n)[0] == '-' && Format02d(n)[1..] == Decimal(-n)
  {
  }

  lemma ParseSigned(n: int)
    requires n < 0 && ParseDecimal(Decimal(-n)) == Some(-n)
    ensures ParseNumber(Format02d(n)) == Some(n)
  {
    SignedDigits(n);
  }

  lemma SignedRoundTrip(n: int)
    requires n < 0
    ensures ParseNumber(Format02d(n)) == Some(n)
  {
    DecimalRoundTrip(-n);
    ParseSigned(n);
  }

  lemma UnsignedRoundTrip(n: int)
    requires n >= 10
    ensures ParseNumber(Format02d(n)) == Some(n)
  {
    var s := Decimal(n);
    assert Format02d(n) == s;
    assert '0' <= s[0] <= '9';
    DecimalRoundTrip(n);
  }

  /** Reading the two-digit field back gives the node number, negative
      numbers and numbers of three or more digits included. */
  lemma Format02dRoundTrip(n: int)
    ensures ParseNumber(Format02d(n)) == Some(n)
  {
    if n < 0 {
      SignedRoundTrip(n);
    } else if n < 10 {
      PaddedRoundTrip(n);
    } else {
      UnsignedRoundTrip(n);
    }
  }

  lemma UriRoundTrip(node: int)
    ensures NodeOfUri(Uri(node)) == Some(node)
  {
    var uri := Uri(node);
    assert uri[|URI_PREFIX|..] == Format02d(node);
    Format02dRoundTrip(node);
  }

  /** Distinct nodes are addressed by distinct URIs, so each lookup in the
      swarm's URI table reaches the intended vehicle. */
  lemma UriInjective(a: int, b: int)
    ensures Uri(a) == Uri(b) <==> a == b
  {
    UriRoundTrip(a);
    UriRoundTrip(b);
  }
}
