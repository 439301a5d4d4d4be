/** The network address of a known host, standing in for Go's netip.Addr. Only IPv4 is
    modelled: an address is four octets, its text is the dotted-decimal form, and parsing
    accepts exactly what netip's IPv4 parser accepts. Text is a sequence of ASCII codes. */
module Ip {
  import opened Bytes
  import opened Wrappers

  type Addr = a: seq<byte> | |a| == 4 witness [0, 0, 0, 0]

  const Dot: byte := 46
  const Colon: byte := 58

  predicate IsDigit(c: byte) { 48 <= c <= 57 }

  /** Addr.Compare on two IPv4 addresses: octet by octet, as the 32-bit numbers compare. */
  function Compare(a: Addr, b: Addr): int {
    Bytes.Compare(a, b)
  }

  /** The decimal text of an octet, without leading zeros. */
  function Decimal(n: byte): (r: seq<byte>)
    ensures 1 <= |r| <= 3 && forall i :: 0 <= i < |r| ==> IsDigit(r[i])
  {
    if n < 10 then [48 + n]
    else if n < 100 then [48 + n / 10, 48 + n % 10]
    else [48 + n / 100, 48 + n / 10 % 10, 48 + n % 10]
  }

  /** Four fields joined by dots. */
  function Quad(f0: seq<byte>, f1: seq<byte>, f2: seq<byte>, f3: seq<byte>): seq<byte> {
    f0 + [Dot] + f1 + [Dot] + f2 + [Dot] + f3
  }

  /** Addr.String for an IPv4 address: "a.b.c.d". */
  function String(a: Addr): (r: seq<byte>)
    ensures |r| > 0 && forall i :: 0 <= i < |r| ==> IsDigit(r[i]) || r[i] == Dot
  {
    Quad(Decimal(a[0]), Decimal(a[1]), Decimal(a[2]), Decimal(a[3]))
  }

  /** The '.'-separated fields of s (an empty s has one empty field). */
  function Split(s: seq<byte>): (r: seq<seq<byte>>)
    ensures |r| >= 1
    ensures forall k, i :: 0 <= k < |r| && 0 <= i < |r[k]| ==> r[k][i] != Dot
  {
    if s == [] then [[]]
    else
      var t := Split(s[1..]);
      if s[0] == Dot then [[]] + t else [[s[0]] + t[0]] + t[1..]
  }

  /** The fields joined again with '.'. */
  function Join(fields: seq<seq<byte>>): seq<byte>
    requires |fields| >= 1
  {
    if |fields| == 1 then fields[0] else fields[0] + [Dot] + Join(fields[1..])
  }

  function DigitValue(c: byte): (v: nat)
    requires IsDigit(c)
    ensures v < 10
  {
    c as int - 48
  }

  /** The value of a run of decimal digits, most significant first. */
  function DecimalValue(f: seq<byte>): nat
    requires forall i :: 0 <= i < |f| ==> IsDigit(f[i])
  {
    if f == [] then 0 else 10 * DecimalValue(f[..|f| - 1]) + DigitValue(f[|f| - 1])
  }

  lemma ShortDecimalValue(f: seq<byte>)
    requires 1 <= |f| <= 3 && forall i :: 0 <= i < |f| ==> IsDigit(f[i])
    ensures |f| == 1 ==> DecimalValue(f) == DigitValue(f[0])
    ensures |f| == 2 ==> DecimalValue(f) == 10 * DigitValue(f[0]) + DigitValue(f[1])
    ensures |f| == 3 ==> DecimalValue(f) == 100 * DigitValue(f[0]) + 10 * DigitValue(f[1]) + DigitValue(f[2])
  {
    var p := f[..|f| - 1];
    if |f| >= 2 {
      ShortDecimalValue(p);
    } else {
      assert p == [];
    }
  }

  /** One field as netip's parseIPv4 accepts it: one to three digits, no leading zero
      unless the field is "0", and a value of at most 255. */
  function ParseOctet(f: seq<byte>): Option<byte>
  {
    if 1 <= |f| <= 3 && (forall i :: 0 <= i < |f| ==> IsDigit(f[i])) && (|f| == 1 || f[0] != 48)
       && DecimalValue(f) <= 255
    then Some(DecimalValue(f))
    else None
  }

  /** netip.ParseAddr on IPv4 text: exactly four fields, each a valid octet. */
  function ParseAddr(s: seq<byte>): (r: Result<Addr>)
    ensures r.Err? ==> r.error == BadAddr(s)
  {
    var f := Split(s);
    if |f| == 4 && ParseOctet(f[0]).Some? && ParseOctet(f[1]).Some? && ParseOctet(f[2]).Some?
       && ParseOctet(f[3]).Some?
    then Ok([ParseOctet(f[0]).value, ParseOctet(f[1]).value, ParseOctet(f[2]).value, ParseOctet(f[3]).value])
    else Err(BadAddr(s))
  }

  lemma OctetRoundTrip(n: byte)
    ensures ParseOctet(Decimal(n)) == Some(n)
  {
    var d := Decimal(n);
    ShortDecimalValue(d);
    if n < 10 {
      assert DecimalValue(d) == n;
    } else if n < 100 {
      assert DecimalValue(d) == 10 * (n / 10) + n % 10;
    } else {
      assert DecimalValue(d) == 100 * (n / 100) + 10 * (n / 10 % 10) + n % 10;
    }
  }

  /** A field that parses is the canonical decimal text of its value. */
  lemma OctetCanonical(f: seq<byte>)
    requires ParseOctet(f).Some?
    ensures f == Decimal(ParseOctet(f).value)
  {
    ShortDecimalValue(f);
    var v := DecimalValue(f);
    if |f| == 1 {
      assert Decimal(v) == [f[0]];
    } else if |f| == 2 {
      TwoDigits(DigitValue(f[0]), DigitValue(f[1]));
      assert Decimal(v) == [f[0], f[1]];
    } else {
      ThreeDigits(DigitValue(f[0]), DigitValue(f[1]), DigitValue(f[2]));
      assert Decimal(v) == [f[0], f[1], f[2]];
    }
  }

  lemma TwoDigits(a: nat, b: nat)
    requires 1 <= a < 10 && b < 10
    ensures var v := 10 * a + b; 10 <= v < 100 && v / 10 == a && v % 10 == b
  {
  }

  lemma ThreeDigits(a: nat, b: nat, c: nat)
    requires 1 <= a < 10 && b < 10 && c < 10
    ensures var v := 100 * a + 10 * b + c; 100 <= v && v / 100 == a && v / 10 % 10 == b && v % 10 == c
  {
    var v := 100 * a + 10 * b + c;
    assert v / 10 == 10 * a + b;
  }

  lemma {:induction false} SplitNoDot(f: seq<byte>)
    requires forall i :: 0 <= i < |f| ==> f[i] != Dot
    ensures Split(f) == [f]
  {
    if f != [] {
      SplitNoDot(f[1..]);
      assert f == [f[0]] + f[1..];
    }
  }

  lemma {:induction false} SplitField(f: seq<byte>, rest: seq<byte>)
    requires forall i :: 0 <= i < |f| ==> f[i] != Dot
    ensures Split(f + [Dot] + rest) == [f] + Split(rest)
  {
    if f == [] {
      assert [] + [Dot] + rest == [Dot] + rest;
      assert ([Dot] + rest)[1..] == rest;
    } else {
      SplitField(f[1..], rest);
      assert (f + [Dot] + rest)[1..] == f[1..] + [Dot] + rest;
      assert f == [f[0]] + f[1..];
    }
  }

  lemma {:induction false} JoinSplit(s: seq<byte>)
    ensures Join(Split(s)) == s
  {
    if s != [] {
      JoinSplit(s[1..]);
      var t := Split(s[1..]);
      if s[0] == Dot {
        assert Split(s)[1..] == t;
        assert s == [Dot] + s[1..];
      } else if |t| == 1 {
        assert s == [s[0]] + s[1..];
      } else {
        assert Split(s)[1..] == t[1..];
        assert Join(t) == t[0] + [Dot] + Join(t[1..]);
        assert s == [s[0]] + s[1..];
      }
    }
  }

  lemma SplitQuad(f0: seq<byte>, f1: seq<byte>, f2: seq<byte>, f3: seq<byte>)
    requires forall i :: 0 <= i < |f0| ==> f0[i] != Dot
    requires forall i :: 0 <= i < |f1| ==> f1[i] != Dot
    requires forall i :: 0 <= i < |f2| ==> f2[i] != Dot
    requires forall i :: 0 <= i < |f3| ==> f3[i] != Dot
    ensures Split(Quad(f0, f1, f2, f3)) == [f0, f1, f2, f3]
  {
    var t2 := f2 + [Dot] + f3;
    var t1 := f1 + [Dot] + t2;
    SplitNoDot(f3);
    SplitField(f2, f3);
    SplitField(f1, t2);
    SplitField(f0, t1);
    assert Quad(f0, f1, f2, f3) == f0 + [Dot] + t1;
  }

  lemma JoinFour(f: seq<seq<byte>>)
    requires |f| == 4
    ensures Join(f) == Quad(f[0], f[1], f[2], f[3])
  {
    assert Join(f[3..]) == f[3];
    assert Join(f[2..]) == f[2] + [Dot] + Join(f[3..]);
    assert Join(f[1..]) == f[1] + [Dot] + Join(f[2..]);
  }

  /** Printing then parsing an address gives it back. */
  lemma ParseString(a: Addr)
    ensures ParseAddr(String(a)) == Ok(a)
  {
    SplitQuad(Decimal(a[0]), Decimal(a[1]), Decimal(a[2]), Decimal(a[3]));
    OctetRoundTrip(a[0]);
    OctetRoundTrip(a[1]);
    OctetRoundTrip(a[2]);
    OctetRoundTrip(a[3]);
    assert a == [a[0], a[1], a[2], a[3]];
  }

  /** The only text that parses to an address is its canonical form. */
  lemma ParseCanonical(s: seq<byte>)
    requires ParseAddr(s).Ok?
    ensures s == String(ParseAddr(s).value)
  {
    var f := Split(s);
    JoinSplit(s);
    JoinFour(f);
    OctetCanonical(f[0]);
    OctetCanonical(f[1]);
    OctetCanonical(f[2]);
    OctetCanonical(f[3]);
  }

  /** In this IPv4-only model a text holding a ':' never parses: in particular not
      "host:port". (netip.ParseAddr accepts IPv6 text such as "::1", which is not modelled.) */
  lemma ColonNeverParses(s: seq<byte>, k: nat)
    requires k < |s| && s[k] == Colon
    ensures ParseAddr(s).Err?
  {
    if ParseAddr(s).Ok? {
      ParseCanonical(s);
      assert false;
    }
  }
}
