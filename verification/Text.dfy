/** Splitting, joining and decimal numbers, as the Go string functions do them. */
module Text {
  import opened Common

  function Split(s: string, sep: char): (parts: seq<string>)
    ensures |parts| > 0
  {
    if s == "" then [""] else PutInFront(s[0], sep, Split(s[1..], sep))
  }

  function Join(parts: seq<string>, sep: char): string {
    if parts == [] then ""
    else if |parts| == 1 then parts[0]
    else parts[0] + [sep] + Join(parts[1..], sep)
  }

  lemma {:induction false} SplitWithoutSeparator(s: string, sep: char)
    requires sep !in s
    ensures Split(s, sep) == [s]
  {
    if s != "" {
      SplitWithoutSeparator(s[1..], sep);
      assert s == [s[0]] + s[1..];
    }
  }

  lemma {:induction false} SplitAtSeparator(a: string, b: string, sep: char)
    requires sep !in a
    ensures Split(a + [sep] + b, sep) == [a] + Split(b, sep)
  {
    var s := a + [sep] + b;
    if a == "" {
      assert s[1..] == b;
    } else {
      SplitAtSeparator(a[1..], b, sep);
      assert s[1..] == a[1..] + [sep] + b;
      assert a == [a[0]] + a[1..];
    }
  }

  /** One more character in front of parts. */
  function PutInFront(c: char, sep: char, parts: seq<string>): seq<string>
    requires |parts| > 0
  {
    if c == sep then [""] + parts else [[c] + parts[0]] + parts[1..]
  }

  lemma PutInFrontOfBoth(c: char, sep: char, p: seq<string>, q: seq<string>)
    requires |p| > 0
    ensures PutInFront(c, sep, p + q) == PutInFront(c, sep, p) + q
  {
    assert (p + q)[1..] == p[1..] + q;
  }

  /** Splitting a text that is put together at a separator. */
  lemma {:induction false} SplitConcat(a: string, b: string, sep: char)
    ensures Split(a + [sep] + b, sep) == Split(a, sep) + Split(b, sep)
  {
    var s := a + [sep] + b;
    if a == "" {
      assert s[1..] == b;
    } else {
      SplitConcat(a[1..], b, sep);
      assert s[1..] == a[1..] + [sep] + b && s[0] == a[0];
      PutInFrontOfBoth(a[0], sep, Split(a[1..], sep), Split(b, sep));
    }
  }

  /** Joining undoes splitting. */
  lemma {:induction false} JoinSplit(s: string, sep: char)
    ensures Join(Split(s, sep), sep) == s
  {
    if s != "" {
      JoinSplit(s[1..], sep);
      var rest := Split(s[1..], sep);
      if s[0] == sep {
        assert ([""] + rest)[1..] == rest;
      } else if |rest| > 1 {
        assert ([[s[0]] + rest[0]] + rest[1..])[1..] == rest[1..];
      }
      assert s == [s[0]] + s[1..];
    }
  }

  lemma {:induction false} JoinConcat(p: seq<string>, q: seq<string>, sep: char)
    requires p != [] && q != []
    ensures Join(p + q, sep) == Join(p, sep) + [sep] + Join(q, sep)
  {
    if |p| == 1 {
      assert (p + q)[1..] == q;
    } else {
      JoinConcat(p[1..], q, sep);
      assert (p + q)[1..] == p[1..] + q;
    }
  }

  /** What is left after the separators at the front. */
  lemma {:induction false} TrimLeftMeaning(s: string, c: char)
    ensures exists k: nat :: k <= |s| && TrimLeft(s, c) == s[k..] && (forall i | 0 <= i < k :: s[i] == c)
                             && (k < |s| ==> s[k] != c)
  {
    if s != "" && s[0] == c {
      TrimLeftMeaning(s[1..], c);
      var k: nat :| k <= |s[1..]| && TrimLeft(s[1..], c) == s[1..][k..] && (forall i | 0 <= i < k :: s[1..][i] == c)
                    && (k < |s[1..]| ==> s[1..][k] != c);
      assert s[1..][k..] == s[k + 1..];
      assert forall i | 1 <= i < k + 1 :: s[i] == s[1..][i - 1];
    } else {
      assert s[0..] == s;
    }
  }

  function TrimPrefix(s: string, prefix: string): string {
    if prefix <= s then s[|prefix|..] else s
  }

  function TrimLeft(s: string, c: char): string {
    if s != "" && s[0] == c then TrimLeft(s[1..], c) else s
  }

  // ---------- decimal ----------

  predicate IsDigit(c: char) { '0' <= c <= '9' }

  predicate AllDigits(s: string) { forall i | 0 <= i < |s| :: IsDigit(s[i]) }

  function Digit(d: nat): (c: char)
    requires d < 10
    ensures IsDigit(c) && c as int == '0' as int + d
  {
    '0' + d as char
  }

  function DigitValue(c: char): (d: nat)
    requires IsDigit(c)
    ensures c as int == '0' as int + d
  {
    (c - '0') as nat
  }

  function Format(n: nat): (s: string)
    ensures s != "" && AllDigits(s)
  {
    if n < 10 then [Digit(n)] else Format(n / 10) + [Digit(n % 10)]
  }

  function DecimalValue(s: string): nat
    requires AllDigits(s)
  {
    if s == "" then 0 else 10 * DecimalValue(s[..|s| - 1]) + DigitValue(s[|s| - 1])
  }

  lemma {:induction false} FormatValue(n: nat)
    ensures DecimalValue(Format(n)) == n
  {
    if n >= 10 {
      FormatValue(n / 10);
      assert Format(n)[..|Format(n)| - 1] == Format(n / 10);
    } else {
      assert Format(n)[..0] == "";
    }
  }

  /** A number has no leading zero, and it is longer than k digits only if it is that large. */
  lemma {:induction false} FormatShape(n: nat)
    ensures Format(n)[0] == '0' ==> n == 0
    ensures n == 0 ==> Format(n) == "0"
    ensures n < 1000 ==> |Format(n)| <= 3
  {
    if n >= 10 {
      FormatShape(n / 10);
      if n < 1000 {
        assert n / 10 < 100;
        assert n / 10 >= 10 ==> n / 10 / 10 < 10;
      }
    }
  }

  lemma {:induction false} PositiveValue(s: string)
    requires AllDigits(s) && s != "" && s[0] != '0'
    ensures DecimalValue(s) > 0
  {
    if |s| > 1 {
      PositiveValue(s[..|s| - 1]);
    }
  }

  /** A text of digits without a leading zero is the text of its value. */
  lemma {:induction false} CanonicalDecimal(s: string)
    requires AllDigits(s) && s != "" && (s[0] == '0' ==> |s| == 1)
    ensures Format(DecimalValue(s)) == s
  {
    var init, last := s[..|s| - 1], s[|s| - 1];
    assert s == init + [last];
    if init != "" {
      CanonicalDecimal(init);
      PositiveValue(init);
    }
  }

  const UINT32 := 0x1_0000_0000

  /** strconv.ParseUint(s, 10, 32) */
  function ParseUint32(s: string): Option<nat> {
    if s != "" && AllDigits(s) && DecimalValue(s) < UINT32 then Some(DecimalValue(s)) else None
  }

  /** Leading zeros do not count. */
  lemma {:induction false} ZerosInFront(s: string, k: nat)
    requires AllDigits(s) && k <= |s| && forall i | 0 <= i < k :: s[i] == '0'
    ensures DecimalValue(s) == DecimalValue(s[k..])
  {
    if k < |s| {
      var init := s[..|s| - 1];
      ZerosInFront(init, k);
      assert s[k..][..|s[k..]| - 1] == init[k..];
    } else if s != "" {
      ZerosInFront(s[..|s| - 1], k - 1);
      assert s[..|s| - 1][k - 1..] == "" && s[k..] == "";
    }
  }

  /** How many zeros stand in front of the decimal text of a number. */
  function Padding(s: string): (k: nat)
    ensures k <= |s| && (forall i | 0 <= i < k :: s[i] == '0')
    ensures s != "" ==> k < |s| && (s[k] == '0' ==> k == |s| - 1)
  {
    if |s| <= 1 || s[0] != '0' then 0 else 1 + Padding(s[1..])
  }

  /** The decimal text of n with k zeros in front. */
  predicate Padded(s: string, n: nat, k: nat) {
    k <= |s| && s[k..] == Format(n) && forall i | 0 <= i < k :: s[i] == '0'
  }

  /** A text is read as a number exactly if it is the decimal text of that number, which fits in 32
      bits, with any number of zeros in front. */
  lemma ParseUint32Iff(s: string, n: nat)
    ensures ParseUint32(s) == Some(n) <==> n < 0x1_0000_0000 && exists k: nat :: Padded(s, n, k)
  {
    if ParseUint32(s) == Some(n) {
      var k := Padding(s);
      ZerosInFront(s, k);
      CanonicalDecimal(s[k..]);
      assert Padded(s, n, k);
    }
    if n < 0x1_0000_0000 && exists k: nat :: Padded(s, n, k) {
      var k: nat :| Padded(s, n, k);
      assert forall i | k <= i < |s| :: s[i] == s[k..][i - k];
      ZerosInFront(s, k);
      FormatValue(n);
    }
  }

  lemma ParseFormat(n: nat)
    requires n < UINT32
    ensures ParseUint32(Format(n)) == Some(n)
  {
    FormatValue(n);
  }

  // ---------- dotted quads ----------

  type Byte = n: int | 0 <= n < 0x100

  type Ip = i: int | 0 <= i < 0x1_0000_0000

  function Octet(ip: Ip, i: nat): nat
    requires i < 4
  {
    if i == 0 then ip / 0x100_0000
    else if i == 1 then ip / 0x1_0000 % 0x100
    else if i == 2 then ip / 0x100 % 0x100
    else ip % 0x100
  }

  function FormatIp(ip: Ip): string {
    Format(Octet(ip, 0)) + "." + (Format(Octet(ip, 1)) + "." + (Format(Octet(ip, 2)) + "." + Format(Octet(ip, 3))))
  }

  /** One to three digits, no leading zero, at most 255. */
  function ParseOctet(s: string): Option<Byte> {
    if 0 < |s| <= 3 && AllDigits(s) && (s[0] == '0' ==> |s| == 1) && DecimalValue(s) < 0x100 then Some(DecimalValue(s))
    else None
  }

  function FromOctets(a: Byte, b: Byte, c: Byte, d: Byte): Ip { a * 0x100_0000 + b * 0x1_0000 + c * 0x100 + d }

  function FromParts(p: seq<string>, parse: string -> Option<Byte>): Option<Ip> {
    if |p| == 4 && parse(p[0]).Some? && parse(p[1]).Some? && parse(p[2]).Some? && parse(p[3]).Some?
    then Some(FromOctets(parse(p[0]).value, parse(p[1]).value, parse(p[2]).value, parse(p[3]).value))
    else None
  }

  /** net.ParseIP on IPv4 text */
  function ParseIp(s: string): Option<Ip> {
    FromParts(Split(s, '.'), ParseOctet)
  }

  lemma FormatIsOctet(n: nat)
    requires n < 0x100
    ensures ParseOctet(Format(n)) == Some(n)
    ensures '.' !in Format(n) && '/' !in Format(n)
  {
    FormatValue(n);
    FormatShape(n);
    assert forall c | c in Format(n) :: IsDigit(c);
  }

  lemma SplitFour(a: string, b: string, c: string, d: string, sep: char)
    requires sep !in a && sep !in b && sep !in c && sep !in d
    ensures Split(a + [sep] + (b + [sep] + (c + [sep] + d)), sep) == [a, b, c, d]
  {
    SplitWithoutSeparator(d, sep);
    SplitAtSeparator(c, d, sep);
    SplitAtSeparator(b, c + [sep] + d, sep);
    SplitAtSeparator(a, b + [sep] + (c + [sep] + d), sep);
  }

  lemma OctetsMakeIp(ip: Ip)
    ensures ip == Octet(ip, 0) * 0x100_0000 + Octet(ip, 1) * 0x1_0000 + Octet(ip, 2) * 0x100 + Octet(ip, 3)
    ensures Octet(ip, 0) < 0x100
  {
    assert ip / 0x1_0000 == ip / 0x100 / 0x100 && ip / 0x100_0000 == ip / 0x1_0000 / 0x100;
  }

  lemma ParseQuad(a: Byte, b: Byte, c: Byte, d: Byte, parse: string -> Option<Byte>, format: Byte -> string)
    requires forall n: Byte :: parse(format(n)) == Some(n) && '.' !in format(n)
    ensures FromParts(Split(format(a) + "." + (format(b) + "." + (format(c) + "." + format(d))), '.'), parse)
         == Some(FromOctets(a, b, c, d))
  {
    SplitFour(format(a), format(b), format(c), format(d), '.');
  }

  lemma ParseFormatIp(ip: Ip)
    ensures ParseIp(FormatIp(ip)) == Some(ip)
  {
    OctetsMakeIp(ip);
    forall n: Byte ensures ParseOctet(Format(n)) == Some(n) && '.' !in Format(n) {
      FormatIsOctet(n);
    }
    ParseQuad(Octet(ip, 0), Octet(ip, 1), Octet(ip, 2), Octet(ip, 3), ParseOctet, (n: Byte) => Format(n));
  }

  lemma ParsedOctet(s: string)
    requires ParseOctet(s).Some?
    ensures Format(ParseOctet(s).value) == s
  {
    CanonicalDecimal(s);
  }

  lemma JoinFour(a: string, b: string, c: string, d: string)
    ensures Join([a, b, c, d], '.') == a + "." + (b + "." + (c + "." + d))
  {
    assert [a, b, c, d][1..] == [b, c, d] && [b, c, d][1..] == [c, d] && [c, d][1..] == [d];
    assert Join([c, d], '.') == c + ['.'] + Join([d], '.');
    assert Join([b, c, d], '.') == b + ['.'] + Join([c, d], '.');
  }

  /** A text is read as an address exactly if it is the dotted text of that address. */
  lemma ParseIpIff(s: string, ip: Ip)
    ensures ParseIp(s) == Some(ip) <==> s == FormatIp(ip)
  {
    ParseFormatIp(ip);
    if ParseIp(s) == Some(ip) {
      ParsedText(s, ip);
    }
  }

  lemma ParsedText(s: string, ip: Ip)
    requires ParseIp(s) == Some(ip)
    ensures s == FormatIp(ip)
  {
    var p := Split(s, '.');
    ParsedOctet(p[0]);
    ParsedOctet(p[1]);
    ParsedOctet(p[2]);
    ParsedOctet(p[3]);
    JoinSplit(s, '.');
    assert p == [p[0], p[1], p[2], p[3]];
    JoinFour(p[0], p[1], p[2], p[3]);
    OctetsOf(ParseOctet(p[0]).value, ParseOctet(p[1]).value, ParseOctet(p[2]).value, ParseOctet(p[3]).value);
  }

  lemma Shifted(q: nat, r: Byte)
    ensures (q * 0x100 + r) / 0x100 == q && (q * 0x100 + r) % 0x100 == r
  {
  }

  lemma OctetsOf(a: Byte, b: Byte, c: Byte, d: Byte)
    ensures var ip := FromOctets(a, b, c, d);
            Octet(ip, 0) == a && Octet(ip, 1) == b && Octet(ip, 2) == c && Octet(ip, 3) == d
  {
    var ip := FromOctets(a, b, c, d);
    var q2: nat := a * 0x100 + b;
    var q3: nat := q2 * 0x100 + c;
    Shifted(q3, d);
    Shifted(q2, c);
    Shifted(a, b);
    ByteShifts(ip);
    assert ip == q3 * 0x100 + d;
  }

  lemma ByteShifts(ip: Ip)
    ensures ip / 0x1_0000 == ip / 0x100 / 0x100 && ip / 0x100_0000 == ip / 0x100 / 0x100 / 0x100
  {
  }

  lemma FormatIpHasNoSlash(ip: Ip)
    ensures '/' !in FormatIp(ip) && FormatIp(ip) != ""
  {
    FormatIsOctet(Octet(ip, 0));
    FormatIsOctet(Octet(ip, 1));
    FormatIsOctet(Octet(ip, 2));
    FormatIsOctet(Octet(ip, 3));
  }
}
