/** The text forms of addresses of src/base/system.cpp written out: which IPv4 texts are accepted, that an
    address has only one text, and the texts that src/test/netaddr.cpp expects. */
module NetAddrForms {
  import Arith
  import opened Wrappers
  import opened Sequences
  import opened NetAddrText
  import opened NetAddr

  // ---- IPv4 ----

  /** Digits, at least one, and their value. */
  ghost predicate IsNumber(d: string, v: nat) {
    d != "" && AllDigits(d) && v == ReadNumber(d, 0, 10).0
  }

  predicate NoDigitNext(t: string) { t == "" || !('0' <= t[0] <= '9') }

  lemma {:induction false} ReadDigits(d: string, t: string, acc: nat)
    requires AllDigits(d) && NoDigitNext(t)
    ensures ReadNumber(d + t, acc, 10) == (ReadNumber(d, acc, 10).0, t)
  {
    if d == "" {
      assert d + t == t;
    } else {
      assert (d + t)[1..] == d[1..] + t;
      ReadDigits(d[1..], t, acc * 10 + ValueOf(d[0], 10));
    }
  }

  lemma ParseNumberThen(d: string, v: nat, t: string, max: nat)
    requires IsNumber(d, v) && v <= max && NoDigitNext(t)
    ensures ParseUint(d + t, max) == Some((v, t))
  {
    hide ReadNumber;
    ReadDigits(d, t, 0);
    assert (d + t)[0] == d[0];
  }

  lemma ParsedIsNumber(s: string, max: nat) returns (d: string)
    requires ParseUint(s, max).Some?
    ensures var (v, t) := ParseUint(s, max).value;
            s == d + t && IsNumber(d, v) && v <= max && NoDigitNext(t)
  {
    var (v, t) := ParseUint(s, max).value;
    NumberIsDigits(s, 0);
    d := s[..|s| - |t|];
    assert s == d + t;
    hide ReadNumber;
    ReadDigits(d, t, 0);
  }

  /** Four numbers with dots between them, and a colon and a number for the port or nothing. */
  ghost predicate IsDotted(s: string, d: seq<string>, addr: Address) {
    && addr.V4? && |addr.ip| == 4 && (|d| == 4 || |d| == 5)
    && (forall i :: 0 <= i < 4 ==> IsNumber(d[i], addr.ip[i]) && addr.ip[i] <= 255)
    && (if |d| == 5 then IsNumber(d[4], addr.port) && addr.port <= 0xFFFF else addr.port == 0)
    && s == d[0] + ("." + (d[1] + ("." + (d[2] + ("." + (d[3] + if |d| == 5 then ":" + d[4] else ""))))))
  }

  lemma DottedNumber(d: string, v: nat, t: string)
    requires IsNumber(d, v) && v <= 255 && NoDigitNext(t)
    ensures DotNumber("." + (d + t)) == Some((v, t))
  {
    hide ParseUint;
    ParseNumberThen(d, v, t, 255);
    assert ("." + (d + t))[1..] == d + t;
  }

  lemma DottedIsRead(s: string, d: seq<string>, addr: Address)
    requires IsDotted(s, d, addr)
    ensures FromStr(s) == Some(addr)
  {
    hide ParseUint, DotNumber, ReadNumber, FromBracketed;
    var t4 := if |d| == 5 then ":" + d[4] else "";
    var t3 := "." + (d[3] + t4);
    var t2 := "." + (d[2] + t3);
    var t1 := "." + (d[1] + t2);
    assert s == d[0] + t1 && s[0] == d[0][0];
    ParseNumberThen(d[0], addr.ip[0], t1, 255);
    DottedNumber(d[1], addr.ip[1], t2);
    DottedNumber(d[2], addr.ip[2], t3);
    DottedNumber(d[3], addr.ip[3], t4);
    if |d| == 5 {
      ParseNumberThen(d[4], addr.port, "", 0xFFFF);
      assert d[4] + "" == d[4] && t4[1..] == d[4];
    }
    assert addr.ip == [addr.ip[0], addr.ip[1], addr.ip[2], addr.ip[3]];
  }

  lemma DottedPart(s: string) returns (d: string)
    requires DotNumber(s).Some?
    ensures var (v, t) := DotNumber(s).value;
            s == "." + (d + t) && IsNumber(d, v) && v <= 255 && NoDigitNext(t)
  {
    hide ParseUint, ReadNumber;
    d := ParsedIsNumber(s[1..], 255);
    assert s == "." + s[1..];
  }

  lemma ReadIsDotted(s: string) returns (d: seq<string>)
    requires FromDotted(s).Some?
    ensures IsDotted(s, d, FromDotted(s).value)
  {
    hide ParseUint, DotNumber, IsNumber;
    var (a, s1) := ParseUint(s, 255).value;
    var (b, s2) := DotNumber(s1).value;
    var (c, s3) := DotNumber(s2).value;
    var (e, s4) := DotNumber(s3).value;
    var d0 := ParsedIsNumber(s, 255);
    var d1 := DottedPart(s1);
    var d2 := DottedPart(s2);
    var d3 := DottedPart(s3);
    d := [d0, d1, d2, d3];
    if s4 != "" {
      var d4 := ParsedIsNumber(s4[1..], 0xFFFF);
      assert s4 == ":" + s4[1..] && d4 + "" == d4;
      d := [d0, d1, d2, d3, d4];
    }
  }

  /** A text without an opening bracket is accepted if and only if it is four numbers up to 255 with dots
      between them and, where there is more, a colon and a number up to 65535: to its end. */
  lemma DottedAccepted(s: string, addr: Address)
    requires s == "" || s[0] != '['
    ensures FromStr(s) == Some(addr) <==> exists d :: IsDotted(s, d, addr)
  {
    hide IsDotted, FromDotted, FromBracketed;
    if d :| IsDotted(s, d, addr) { DottedIsRead(s, d, addr); }
    if FromStr(s) == Some(addr) {
      var d := ReadIsDotted(s);
    }
  }

  // ---- one text for each address ----

  lemma ShortenedOnce(ip: seq<nat>, start: int, len: int, start': int, len': int)
    requires Shortened(ip, start, len) && Shortened(ip, start', len')
    ensures start == start' && len == len'
  {
    hide ZeroRun;
    if len >= 2 { assert ZeroRun(ip, start, len); }
    if len' >= 2 { assert ZeroRun(ip, start', len'); }
  }

  /** An address has only one text. */
  lemma TextIsOnly(addr: Address, addPort: bool, text: string, text': string)
    requires addr.Valid() && IsText(addr, addPort, text) && IsText(addr, addPort, text')
    ensures text == text'
  {
    hide Dotted, PortText, SignedNumeral, Join;
    if addr.V6? {
      var ip, port := Words(addr.ip), PortText(addr, addPort);
      var s: int, n: nat :| Shortened(ip, s, n) && text == "[" + Printed(ip, s, n) + "]" + port;
      var s': int, n': nat :| Shortened(ip, s', n') && text' == "[" + Printed(ip, s', n') + "]" + port;
      ShortenedOnce(ip, s, n, s', n');
    }
  }

  // ---- examples ----

  lemma Decimals()
    ensures Numeral(0, 10) == "0" && Numeral(1, 10) == "1" && Numeral(127, 10) == "127" && Numeral(5678, 10) == "5678"
  {
    assert Numeral(56, 10) == "56";
    assert Numeral(567, 10) == "567";
    assert Numeral(12, 10) == "12";
  }

  lemma MoreDigits(n: nat, d: nat, base: int)
    requires (base == 10 || base == 16) && d < base && n > 0
    ensures 0 <= n * base && Numeral(n * base + d, base) == Numeral(n, base) + [DigitOf(d)]
  {
    Arith.DivModUnique(n * base + d, base, n, d);
    Arith.MulNonneg(n, base);
    Arith.ProductAtLeast(base, n);
    NumeralStep(n * base + d, base);
  }

  lemma NumeralStep(m: nat, base: int)
    requires (base == 10 || base == 16) && m >= base
    ensures m / base >= 0 && 0 <= m % base < 16 && Numeral(m, base) == Numeral(m / base, base) + [DigitOf(m % base)]
  {
  }

  lemma Hexadecimals()
    ensures Numeral(0x123, 16) == "123" && Numeral(0x4567, 16) == "4567" && Numeral(0x89AB, 16) == "89ab"
    ensures Numeral(0xCDEF, 16) == "cdef" && Numeral(0x2001, 16) == "2001" && Numeral(0xDB8, 16) == "db8"
    ensures Numeral(1, 16) == "1" && Numeral(2, 16) == "2" && Numeral(3, 16) == "3" && Numeral(4, 16) == "4"
  {
    OneHexDigit();
    hide Numeral;
    MoreDigits(1, 2, 16);
    MoreDigits(0x12, 3, 16);
    MoreDigits(4, 5, 16);
    MoreDigits(0x45, 6, 16);
    MoreDigits(0x456, 7, 16);
    MoreDigits(8, 9, 16);
    MoreDigits(0x89, 0xA, 16);
    MoreDigits(0x89A, 0xB, 16);
    MoreDigits(0xC, 0xD, 16);
    MoreDigits(0xCD, 0xE, 16);
    MoreDigits(0xCDE, 0xF, 16);
    MoreDigits(2, 0, 16);
    MoreDigits(0x20, 0, 16);
    MoreDigits(0x200, 1, 16);
    MoreDigits(0xD, 0xB, 16);
    MoreDigits(0xDB, 8, 16);
  }

  lemma OneHexDigit()
    ensures Numeral(1, 16) == "1" && Numeral(2, 16) == "2" && Numeral(3, 16) == "3" && Numeral(4, 16) == "4"
    ensures Numeral(8, 16) == "8" && Numeral(0xC, 16) == "c" && Numeral(0xD, 16) == "d"
  {
  }

  /** 127.0.0.1 with and without port 0. */
  lemma LocalhostText()
    ensures IsText(V4([127, 0, 0, 1], 0), true, "127.0.0.1:0") && IsText(V4([127, 0, 0, 1], 0), false, "127.0.0.1")
  {
    Decimals();
    hide Numeral;
  }

  lemma NoRun(ip: seq<nat>)
    requires forall i :: 0 <= i < |ip| ==> ip[i] != 0
    ensures Shortened(ip, -1, 0)
  {
    assert forall a, n :: ZeroRun(ip, a, n) ==> ip[a] == 0;
  }

  lemma OneRun(ip: seq<nat>, start: int, len: int)
    requires 0 <= start && 2 <= len && start + len <= |ip|
    requires forall i :: 0 <= i < |ip| ==> (ip[i] == 0 <==> start <= i < start + len)
    ensures Shortened(ip, start, len)
  {
    forall a, n | ZeroRun(ip, a, n) && n >= 2 ensures n < len || (n == len && start <= a) {
      assert ip[a] == 0 && ip[a + n - 1] == 0;
    }
  }

  lemma JoinMore(w: nat, ws: seq<nat>)
    requires ws != []
    ensures Join([w] + ws) == Numeral(w, 16) + ":" + Join(ws)
  {
    hide Numeral;
    assert ([w] + ws)[1..] == ws;
  }

  lemma JoinFour(a: nat, b: nat, c: nat, d: nat)
    ensures Join([a, b, c, d]) == Numeral(a, 16) + ":" + (Numeral(b, 16) + ":" + (Numeral(c, 16) + ":" + Numeral(d, 16)))
  {
    hide Numeral, Join;
    JoinOne(d);
    JoinMore(c, [d]);
    JoinMore(b, [c, d]);
    JoinMore(a, [b, c, d]);
    assert [a] + [b, c, d] == [a, b, c, d] && [b] + [c, d] == [b, c, d] && [c] + [d] == [c, d];
  }

  lemma {:induction false} JoinAll(a: seq<nat>, b: seq<nat>)
    requires a != [] && b != []
    ensures Join(a + b) == Join(a) + ":" + Join(b)
  {
    hide Numeral;
    if |a| == 1 {
      JoinMore(a[0], b);
      assert a == [a[0]];
      JoinOne(a[0]);
    } else {
      JoinAll(a[1..], b);
      JoinMore(a[0], a[1..] + b);
      JoinMore(a[0], a[1..]);
      assert a == [a[0]] + a[1..] && a + b == [a[0]] + (a[1..] + b);
      hide Join;
      ConcatAssociates(Numeral(a[0], 16) + ":", Join(a[1..]), ":");
      ConcatAssociates(Numeral(a[0], 16) + ":", Join(a[1..]) + ":", Join(b));
    }
  }

  const FULL: seq<nat> := [0x123, 0x4567, 0x89AB, 0xCDEF, 1, 2, 3, 4]

  lemma FullText()
    ensures Printed(FULL, -1, 0) == "123:4567:89ab:cdef:1:2:3:4"
  {
    Hexadecimals();
    hide Numeral, Join;
    JoinFour(0x123, 0x4567, 0x89AB, 0xCDEF);
    JoinFour(1, 2, 3, 4);
    JoinAll([0x123, 0x4567, 0x89AB, 0xCDEF], [1, 2, 3, 4]);
    assert FULL == [0x123, 0x4567, 0x89AB, 0xCDEF] + [1, 2, 3, 4];
  }

  const FULL_BYTES: seq<nat> := [0x01, 0x23, 0x45, 0x67, 0x89, 0xAB, 0xCD, 0xEF, 0, 1, 0, 2, 0, 3, 0, 4]

  lemma FullWords()
    ensures |FULL_BYTES| == 16 && Words(FULL_BYTES) == FULL && forall i :: 0 <= i < 16 ==> FULL_BYTES[i] < 256
  {
  }

  /** The text of an IPv6 address with the given words and run of zeros. */
  lemma TextIs(addr: Address, addPort: bool, ws: seq<nat>, start: int, len: nat, inner: string)
    requires addr.V6? && addr.Valid() && Words(addr.ip) == ws && Shortened(ws, start, len)
    requires (len > 0 ==> 0 <= start && start + len <= 8) && Printed(ws, start, len) == inner
    ensures IsText(addr, addPort, "[" + inner + "]" + PortText(addr, addPort))
  {
    hide Words, Printed, PortText, Shortened;
    TextOf(ws, start, len, PortText(addr, addPort), "[" + inner + "]" + PortText(addr, addPort));
  }

  /** [123:4567:89ab:cdef:1:2:3:4]:5678, from its bytes. */
  lemma FullAddress()
    ensures var addr := V6(FULL_BYTES, 5678);
            addr.Valid() && IsText(addr, true, "[" + "123:4567:89ab:cdef:1:2:3:4" + "]" + (":" + "5678"))
  {
    hide Words, Printed, Numeral, IsText;
    FullWords();
    NoRun(FULL);
    FullText();
    Decimals();
    TextIs(V6(FULL_BYTES, 5678), true, FULL, -1, 0, "123:4567:89ab:cdef:1:2:3:4");
  }

  const SHORT: seq<nat> := [0x2001, 0xDB8, 0, 0, 0, 0, 0, 1]

  lemma ShortText()
    ensures Printed(SHORT, 2, 5) == "2001:db8::1"
  {
    Hexadecimals();
    hide Numeral, Join;
    JoinOne(0x2001);
    JoinOne(0xDB8);
    JoinOne(1);
    JoinAll([0x2001], [0xDB8]);
    assert [0x2001] + [0xDB8] == SHORT[..2] && SHORT[7..] == [1];
  }

  const SHORT_BYTES: seq<nat> := [0x20, 0x01, 0x0D, 0xB8, 0, 0, 0, 0, 0, 0, 0, 0, 0, 0, 0, 1]

  lemma ShortWords()
    ensures |SHORT_BYTES| == 16 && Words(SHORT_BYTES) == SHORT && forall i :: 0 <= i < 16 ==> SHORT_BYTES[i] < 256
  {
  }

  /** [2001:db8::1]:1, the first vector of RFC 5952 section 4. */
  lemma ShortAddress()
    ensures var addr := V6(SHORT_BYTES, 1);
            && addr.Valid() && IsText(addr, true, "[" + "2001:db8::1" + "]" + (":" + "1"))
            && IsText(addr, false, "[" + "2001:db8::1" + "]" + "")
  {
    hide Words, Printed, Numeral, IsText;
    ShortWords();
    OneRun(SHORT, 2, 5);
    ShortText();
    Decimals();
    TextIs(V6(SHORT_BYTES, 1), true, SHORT, 2, 5, "2001:db8::1");
    TextIs(V6(SHORT_BYTES, 1), false, SHORT, 2, 5, "2001:db8::1");
  }
}
