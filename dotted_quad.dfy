/**
 * IPv4 addresses as four octets, and their dotted-quad text: the string
 * net.IPv4(a, b, c, d).String() produces and the dotted-quad form that
 * net.ParseIP reads back.
 */
module DottedQuad {
  import opened Wrappers

  newtype byte = x: int | 0 <= x < 0x100

  /** Four octets in network order. */
  datatype IPv4 = IPv4(a: byte, b: byte, c: byte, d: byte)

  predicate IsDigit(ch: char) {
    '0' <= ch <= '9'
  }

  predicate AllDigits(s: string) {
    forall i :: 0 <= i < |s| ==> IsDigit(s[i])
  }

  function DigitValue(ch: char): (d: nat)
    requires IsDigit(ch)
    ensures d < 10
  {
    ch as int - '0' as int
  }

  function DigitChar(d: nat): (ch: char)
    requires d < 10
    ensures IsDigit(ch) && DigitValue(ch) == d
  {
    ('0' as int + d) as char
  }

  /** The shortest decimal numeral of n. */
  function Decimal(n: nat): (s: string)
    ensures |s| >= 1 && AllDigits(s)
    ensures |s| > 1 ==> s[0] != '0'
    ensures n < 10 <==> |s| == 1
  {
    if n < 10 then [DigitChar(n)] else Decimal(n / 10) + [DigitChar(n % 10)]
  }

  /** The value of a numeral, read most significant digit first. */
  function ParseDecimal(s: string): nat
    requires AllDigits(s)
  {
    if s == [] then 0 else 10 * ParseDecimal(s[..|s| - 1]) + DigitValue(s[|s| - 1])
  }

  /** A numeral of at most three digits, without leading zeros, whose value fits an octet. */
  predicate IsOctetNumeral(s: string) {
    1 <= |s| <= 3 && AllDigits(s) && (|s| > 1 ==> s[0] != '0') && ParseDecimal(s) < 0x100
  }

  /** One field of a dotted quad: it is rejected when empty, too long, with a leading zero or over 255. */
  function ParseOctet(s: string): (r: Option<byte>)
    ensures r.Some? <==> IsOctetNumeral(s)
    ensures r.Some? ==> s == Decimal(r.value as nat)
  {
    if IsOctetNumeral(s) then CanonicalNumeral(s); Some(ParseDecimal(s) as byte) else None
  }

  /** The text split at every '.', empty fields included. */
  function Split(s: string): (fields: seq<string>)
    ensures |fields| >= 1
    ensures forall i :: 0 <= i < |fields| ==> '.' !in fields[i]
  {
    if s == [] then [[]]
    else
      var rest := Split(s[1..]);
      if s[0] == '.' then [[]] + rest else [[s[0]] + rest[0]] + rest[1..]
  }

  /** The fields joined with '.' between consecutive ones. */
  function Join(fields: seq<string>): string
    requires |fields| >= 1
  {
    if |fields| == 1 then fields[0] else fields[0] + "." + Join(fields[1..])
  }

  /** net.IPv4(a, b, c, d).String(): "a.b.c.d" with each octet in decimal. */
  function Format(ip: IPv4): (s: string)
    ensures 7 <= |s| <= 15
    ensures forall i :: 0 <= i < |s| ==> IsDigit(s[i]) || s[i] == '.'
  {
    DecimalOfOctetIsShort(ip.a as nat);
    DecimalOfOctetIsShort(ip.b as nat);
    DecimalOfOctetIsShort(ip.c as nat);
    DecimalOfOctetIsShort(ip.d as nat);
    var f := [Decimal(ip.a as nat), Decimal(ip.b as nat), Decimal(ip.c as nat), Decimal(ip.d as nat)];
    JoinFour(f);
    Join(f)
  }

  lemma JoinFour(f: seq<string>)
    requires |f| == 4
    ensures Join(f) == f[0] + "." + f[1] + "." + f[2] + "." + f[3]
  {
    assert Join(f[1..][1..]) == f[2] + "." + f[3] by {
      assert f[1..][1..][1..] == [f[3]];
    }
    assert Join(f[1..]) == f[1] + "." + (f[2] + "." + f[3]);
  }

  /** The dotted-quad form of net.ParseIP: exactly four fields, each an octet numeral. */
  function Parse(s: string): (r: Option<IPv4>)
    ensures r.Some? ==> s == Format(r.value)
  {
    var f := Split(s);
    if |f| != 4 then None
    else match (ParseOctet(f[0]), ParseOctet(f[1]), ParseOctet(f[2]), ParseOctet(f[3]))
      case (Some(a), Some(b), Some(c), Some(d)) =>
        JoinSplit(s);
        assert f == [f[0], f[1], f[2], f[3]];
        Some(IPv4(a, b, c, d))
      case _ => None
  }

  // ---------------------------------------------------------------- numerals

  lemma {:induction false} DecimalRoundTrip(n: nat)
    ensures ParseDecimal(Decimal(n)) == n
  {
    if n >= 10 {
      var s := Decimal(n);
      assert s[..|s| - 1] == Decimal(n / 10);
      DecimalRoundTrip(n / 10);
    }
  }

  lemma DecimalOfOctetIsShort(n: nat)
    requires n < 0x100
    ensures |Decimal(n)| <= 3
  {
  }

  /** A numeral whose first digit is not zero is worth at least 10^(length - 1), so at least 10 when longer than one digit. */
  lemma {:induction false} LeadingDigitBound(s: string)
    requires |s| >= 2 && AllDigits(s) && s[0] != '0'
    ensures ParseDecimal(s) >= 10
  {
    var t := s[..|s| - 1];
    if |t| == 1 {
      assert DigitValue(t[0]) >= 1;
      assert ParseDecimal(t) == DigitValue(t[0]) by {
        assert t[..0] == [];
      }
    } else {
      LeadingDigitBound(t);
    }
  }

  /** Reading a numeral without leading zeros and writing its value back gives the same text. */
  lemma {:induction false} CanonicalNumeral(s: string)
    requires |s| >= 1 && AllDigits(s) && (|s| > 1 ==> s[0] != '0')
    ensures Decimal(ParseDecimal(s)) == s
  {
    if |s| == 1 {
      assert s[..0] == [];
    } else {
      var t := s[..|s| - 1];
      var n := ParseDecimal(s);
      LeadingDigitBound(s);
      CanonicalNumeral(t);
      assert n / 10 == ParseDecimal(t) && n % 10 == DigitValue(s[|s| - 1]);
      assert s == t + [s[|s| - 1]];
    }
  }

  /** The octet numerals are exactly the decimal numerals of octets. */
  lemma OctetNumeralIff(s: string, b: byte)
    ensures ParseOctet(s) == Some(b) <==> s == Decimal(b as nat)
  {
    if s == Decimal(b as nat) {
      DecimalRoundTrip(b as nat);
      DecimalOfOctetIsShort(b as nat);
    }
    if ParseOctet(s) == Some(b) {
      CanonicalNumeral(s);
    }
  }

  // ---------------------------------------------------------------- fields

  lemma {:induction false} JoinSplit(s: string)
    ensures Join(Split(s)) == s
  {
    if s != [] {
      var rest := Split(s[1..]);
      JoinSplit(s[1..]);
      if s[0] == '.' {
        assert Split(s) == [[]] + rest;
      } else {
        var fields := Split(s);
        assert fields[1..] == rest[1..];
        if |rest| > 1 {
          assert Join(fields) == ([s[0]] + rest[0]) + "." + Join(rest[1..]);
        }
        assert Join(fields) == [s[0]] + Join(rest);
      }
    }
  }

  lemma {:induction false} SplitDotless(x: string)
    requires '.' !in x
    ensures Split(x) == [x]
  {
    if x != [] {
      SplitDotless(x[1..]);
      assert [x[0]] + x[1..] == x;
    }
  }

  lemma {:induction false} SplitAtDot(x: string, y: string)
    requires '.' !in x
    ensures Split(x + "." + y) == [x] + Split(y)
  {
    if x == [] {
      assert x + "." + y == "." + y;
      assert ("." + y)[1..] == y;
    } else {
      SplitAtDot(x[1..], y);
      assert (x + "." + y)[1..] == x[1..] + "." + y;
      assert [x[0]] + x[1..] == x;
    }
  }

  /** Fields without dots survive a join followed by a split. */
  lemma {:induction false} SplitJoin(fields: seq<string>)
    requires |fields| >= 1
    requires forall i :: 0 <= i < |fields| ==> '.' !in fields[i]
    ensures Split(Join(fields)) == fields
  {
    if |fields| == 1 {
      SplitDotless(fields[0]);
    } else {
      SplitJoin(fields[1..]);
      SplitAtDot(fields[0], Join(fields[1..]));
      assert fields == [fields[0]] + fields[1..];
    }
  }

  // ---------------------------------------------------------------- dotted quad

  /** Parsing the text of an address gives back its four octets. */
  lemma ParseFormat(ip: IPv4)
    ensures Parse(Format(ip)) == Some(ip)
  {
    var f := [Decimal(ip.a as nat), Decimal(ip.b as nat), Decimal(ip.c as nat), Decimal(ip.d as nat)];
    forall i | 0 <= i < 4 ensures '.' !in f[i] {
      assert AllDigits(f[i]);
    }
    SplitJoin(f);
    OctetNumeralIff(f[0], ip.a);
    OctetNumeralIff(f[1], ip.b);
    OctetNumeralIff(f[2], ip.c);
    OctetNumeralIff(f[3], ip.d);
  }

  /** ParseIff, for every address at once. */
  lemma ParseIffAll(s: string)
    ensures forall ip :: Parse(s) == Some(ip) <==> s == Format(ip)
  {
    forall ip ensures Parse(s) == Some(ip) <==> s == Format(ip) {
      ParseIff(s, ip);
    }
  }

  /** The text an address formats to is the only text that parses to it. */
  lemma ParseIff(s: string, ip: IPv4)
    ensures Parse(s) == Some(ip) <==> s == Format(ip)
  {
    if s == Format(ip) {
      ParseFormat(ip);
    }
    if Parse(s) == Some(ip) {
      var f := Split(s);
      OctetNumeralIff(f[0], ip.a);
      OctetNumeralIff(f[1], ip.b);
      OctetNumeralIff(f[2], ip.c);
      OctetNumeralIff(f[3], ip.d);
      JoinSplit(s);
      assert f == [Decimal(ip.a as nat), Decimal(ip.b as nat), Decimal(ip.c as nat), Decimal(ip.d as nat)];
    }
  }

  /** Distinct addresses have distinct texts. */
  lemma FormatInjective(x: IPv4, y: IPv4)
    requires Format(x) == Format(y)
    ensures x == y
  {
    ParseFormat(x);
    ParseFormat(y);
  }
}
