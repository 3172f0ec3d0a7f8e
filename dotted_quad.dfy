/**
 * Dotted-quad IPv4 address text ("a.b.c.d"), the format that `ipStringToInt`
 * (packet builders) and `stringToIP` (routing table) turn into a host-order 32-bit
 * address. The accepted language is strict: exactly four '.'-separated fields, each
 * a non-empty run of decimal digits whose value is at most 255.
 */
module DottedQuad {
  import opened Wrappers
  import opened Bytes

  /** The '.'-separated fields of `s`; a string without dots is a single field. */
  function Fields(s: string): (r: seq<string>)
    ensures |r| >= 1
  {
    if |s| == 0 then [""]
    else
      var rest := Fields(s[1..]);
      if s[0] == '.' then [""] + rest
      else [[s[0]] + rest[0]] + rest[1..]
  }

  /** The number of '.' characters in `s`. */
  function CountDots(s: string): nat
  {
    if |s| == 0 then 0 else (if s[0] == '.' then 1 else 0) + CountDots(s[1..])
  }

  /** Position of the first `c` at or after `from`, as `std::string::find` reports it. */
  function Find(s: string, c: char, from: nat): (r: Option<nat>)
    requires from <= |s|
    ensures r.Some? ==> from <= r.value < |s| && s[r.value] == c && c !in s[from..r.value]
    ensures r.None? ==> c !in s[from..]
    decreases |s| - from
  {
    if from == |s| then None
    else if s[from] == c then Some(from)
    else
      var r := Find(s, c, from + 1);
      assert r.Some? ==> s[from..r.value] == [s[from]] + s[from + 1..r.value];
      assert s[from..] == [s[from]] + s[from + 1..];
      r
  }

  predicate IsDigit(ch: char)
  {
    '0' <= ch <= '9'
  }

  predicate AllDigits(s: string)
  {
    forall i :: 0 <= i < |s| ==> IsDigit(s[i])
  }

  /** The value of a string of decimal digits, most significant first. */
  function DecimalValue(s: string): nat
    requires AllDigits(s)
    decreases |s|
  {
    if |s| == 0 then 0
    else DecimalValue(s[..|s| - 1]) * 10 + (s[|s| - 1] as int - '0' as int)
  }

  /**
   * A field read as a decimal number: it must be a non-empty run of digits. This is
   * `std::stoi` restricted to well-formed input.
   */
  function ParseDecimal(part: string): Option<nat>
  {
    if |part| > 0 && AllDigits(part) then Some(DecimalValue(part)) else None
  }

  /** A field read as one address byte: a decimal number of at most 255. */
  function OctetValue(part: string): Option<u8>
  {
    var v := ParseDecimal(part);
    if v.Some? && v.value <= 255 then Some(v.value) else None
  }

  /** The host-order address `a<<24 | b<<16 | c<<8 | d` (the bytes occupy disjoint bits). */
  function Address(a: u8, b: u8, c: u8, d: u8): u32
  {
    a as int * 0x100_0000 + b as int * 0x1_0000 + c as int * 0x100 + d
  }

  /** The address denoted by `s`, or `None` when `s` is not a dotted quad. */
  function Parse(s: string): Option<u32>
  {
    var f := Fields(s);
    if |f| == 4 && OctetValue(f[0]).Some? && OctetValue(f[1]).Some?
       && OctetValue(f[2]).Some? && OctetValue(f[3]).Some?
    then Some(Address(OctetValue(f[0]).value, OctetValue(f[1]).value,
                      OctetValue(f[2]).value, OctetValue(f[3]).value))
    else None
  }

  function DigitChar(d: nat): (ch: char)
    requires d < 10
    ensures IsDigit(ch) && ch as int - '0' as int == d
  {
    ('0' as int + d) as char
  }

  /** The shortest decimal spelling of `n`. */
  function Decimal(n: nat): string
    decreases n
  {
    if n < 10 then [DigitChar(n)] else Decimal(n / 10) + [DigitChar(n % 10)]
  }

  /** The canonical text of the address with bytes `a`, `b`, `c`, `d`. */
  function Format(a: u8, b: u8, c: u8, d: u8): string
  {
    Decimal(a) + "." + Decimal(b) + "." + Decimal(c) + "." + Decimal(d)
  }

  /** Reading back a decimal spelling gives the number spelled. */
  lemma {:induction false} DecimalRoundTrip(n: nat)
    ensures |Decimal(n)| > 0 && AllDigits(Decimal(n)) && '.' !in Decimal(n)
    ensures DecimalValue(Decimal(n)) == n
    decreases n
  {
    if n >= 10 {
      DecimalRoundTrip(n / 10);
      var s := Decimal(n);
      assert s[..|s| - 1] == Decimal(n / 10);
    }
  }

  /** A field without dots is the whole string. */
  lemma {:induction false} FieldsPlain(a: string)
    requires '.' !in a
    ensures Fields(a) == [a]
  {
    if |a| > 0 {
      assert '.' !in a[1..];
      FieldsPlain(a[1..]);
      assert [a[0]] + a[1..] == a;
    }
  }

  /** The first dot ends the first field. */
  lemma {:induction false} FieldsDot(a: string, rest: string)
    requires '.' !in a
    ensures Fields(a + "." + rest) == [a] + Fields(rest)
  {
    if |a| == 0 {
      assert (a + "." + rest)[1..] == rest;
    } else {
      assert '.' !in a[1..];
      FieldsDot(a[1..], rest);
      assert (a + "." + rest)[1..] == a[1..] + "." + rest;
      assert [a[0]] + a[1..] == a;
    }
  }

  /** Four dot-free strings joined with dots are split back into those four fields. */
  lemma FieldsOfFour(a: string, b: string, c: string, d: string)
    requires '.' !in a && '.' !in b && '.' !in c && '.' !in d
    ensures Fields(a + "." + b + "." + c + "." + d) == [a, b, c, d]
  {
    var cd := c + "." + d;
    var bcd := b + "." + cd;
    FieldsPlain(d);
    FieldsDot(c, d);
    FieldsDot(b, cd);
    FieldsDot(a, bcd);
    JoinedRight(a, b, c, d);
  }

  /** Dot-joining four strings does not depend on how the joins are grouped. */
  lemma JoinedRight(a: string, b: string, c: string, d: string)
    ensures a + "." + b + "." + c + "." + d == a + "." + (b + "." + (c + "." + d))
  {
    var cd := c + "." + d;
    assert c + "." + d == cd;
    assert b + "." + c + "." + d == b + "." + cd;
    assert a + "." + b + "." + c + "." + d == a + "." + (b + "." + cd);
  }

  /** There is one more field than there are dots. */
  lemma {:induction false} FieldCount(s: string)
    ensures |Fields(s)| == CountDots(s) + 1
  {
    if |s| > 0 {
      FieldCount(s[1..]);
    }
  }

  /**
   * Splitting at the dot that `Find` reports: the text up to it is the next field,
   * and the fields after it follow.
   */
  lemma SplitAtFound(s: string, from: nat)
    requires from <= |s|
    ensures Find(s, '.', from).Some? ==>
              var k := Find(s, '.', from).value;
              Fields(s[from..]) == [s[from..k]] + Fields(s[k + 1..])
    ensures Find(s, '.', from).None? ==> Fields(s[from..]) == [s[from..]]
  {
    match Find(s, '.', from)
    case Some(k) =>
      assert s[from..] == s[from..k] + "." + s[k + 1..];
      FieldsDot(s[from..k], s[k + 1..]);
    case None =>
      FieldsPlain(s[from..]);
  }

  /** Formatting an address and parsing it back gives `a<<24 | b<<16 | c<<8 | d`. */
  lemma FormatThenParse(a: u8, b: u8, c: u8, d: u8)
    ensures Parse(Format(a, b, c, d)) == Some(Address(a, b, c, d))
  {
    DecimalRoundTrip(a);
    DecimalRoundTrip(b);
    DecimalRoundTrip(c);
    DecimalRoundTrip(d);
    FieldsOfFour(Decimal(a), Decimal(b), Decimal(c), Decimal(d));
  }

  /** The canonical text holds only digits and dots. */
  lemma FormatCharacters(a: u8, b: u8, c: u8, d: u8)
    ensures forall i :: 0 <= i < |Format(a, b, c, d)| ==> IsDigit(Format(a, b, c, d)[i]) || Format(a, b, c, d)[i] == '.'
  {
    DecimalRoundTrip(a);
    DecimalRoundTrip(b);
    DecimalRoundTrip(c);
    DecimalRoundTrip(d);
  }

  /** The address's bytes, most significant first, are the four fields in order. */
  lemma AddressBytes(a: u8, b: u8, c: u8, d: u8)
    ensures Be32(Address(a, b, c, d)) == [a, b, c, d]
  {
    var s := [a, b, c, d];
    assert ReadBe32(s, 0) == Address(a, b, c, d);
    assert s[0..4] == s;
  }

  /** Text with fewer than three dots has fewer than four fields and is rejected. */
  lemma FewerThanThreeDotsRejected(s: string)
    requires CountDots(s) < 3
    ensures Parse(s) == None
  {
    FieldCount(s);
  }

  /** Text with other than four fields is rejected. */
  lemma WrongFieldCountRejected(s: string)
    requires |Fields(s)| != 4
    ensures Parse(s) == None
  {
  }

  /** A field that is not a decimal number of at most 255 makes the whole text invalid. */
  lemma BadFieldRejected(s: string, k: nat)
    requires k < |Fields(s)| && OctetValue(Fields(s)[k]).None?
    ensures Parse(s) == None
  {
  }

  /** Three fields are not an address. */
  lemma ThreeFieldsRejected()
    ensures Parse("1.2.3") == None
  {
    assert CountDots("1.2.3") == 2;
    FewerThanThreeDotsRejected("1.2.3");
  }

  /** A first byte of 999 is out of range. */
  lemma LargeOctetRejected()
    ensures Parse("999.1.1.1") == None
  {
    FieldsOfFour("999", "1", "1", "1");
    assert "999" + "." + "1" + "." + "1" + "." + "1" == "999.1.1.1";
    DecimalRoundTrip(999);
    assert Decimal(999) == "999";
  }

  /** "192.168.1.50" is the host-order address 0xC0A80132. */
  lemma HostAddressParsed()
    ensures Parse("192.168.1.50") == Some(0xC0A8_0132)
  {
    FormatThenParse(192, 168, 1, 50);
    HostAddressText();
  }

  /** The canonical text of the address 192.168.1.50. */
  lemma HostAddressText()
    ensures Format(192, 168, 1, 50) == "192.168.1.50"
  {
    assert Decimal(192) == "192" && Decimal(168) == "168" && Decimal(1) == "1" && Decimal(50) == "50" by {
      assert Decimal(19) == "19" && Decimal(16) == "16" && Decimal(5) == "5";
    }
  }
}
