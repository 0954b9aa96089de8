/** Printing and parsing of network addresses in src/base/system.cpp.  inet_pton is taken as
    NetAddrText.Expand; TextFits says which buffers are long enough. */
module NetAddr {
  import Arith
  import opened Sequences
  import opened Wrappers
  import opened NetAddrText

  /** Four bytes of an IPv4 address or sixteen of an IPv6 one, and a port; Other is an address whose
      type is none of the known 1, 2 and 8. */
  datatype Address =
    | V4(ip: seq<nat>, port: nat)
    | V6(ip: seq<nat>, port: nat)
    | Other(ip: seq<nat>, port: nat, kind: int)
  {
    predicate Valid() {
      && |ip| == (if V4? then 4 else 16)
      && (Other? ==> -0x8000_0000 <= kind < 0x8000_0000 && kind !in {1, 2, 8})
      && (forall i :: 0 <= i < |ip| ==> ip[i] < 256)
      && port < 0x1_0000
    }
  }

  // ---- net_addr_str_v6 ----

  predicate ZeroRun(ip: seq<nat>, a: int, n: int) {
    0 <= a && 0 < n && a + n <= |ip| && forall i :: a <= i < a + n ==> ip[i] == 0
  }

  /** (start, len) is the longest run of zeros, the first of those, among the runs ending at b or
      before; (-1, 0) if there is none. */
  ghost predicate Longest(ip: seq<nat>, start: int, len: int, b: int) {
    && (if len == 0 then start == -1 else ZeroRun(ip, start, len) && start + len <= b)
    && forall a, n :: ZeroRun(ip, a, n) && a + n <= b ==> n < len || (n == len && start <= a)
  }

  /** RFC 5952 section 4.2: the first longest run of at least two zeros. */
  ghost predicate Shortened(ip: seq<nat>, start: int, len: int) {
    && (if len == 0 then start == -1 else len >= 2 && ZeroRun(ip, start, len))
    && forall a, n :: ZeroRun(ip, a, n) && n >= 2 ==> n < len || (n == len && start <= a)
  }

  /** The open run [s, i) closes at i. */
  lemma CloseRun(ip: seq<nat>, start: int, len: int, s: int, i: int)
    requires Longest(ip, start, len, s) && 0 <= s < i <= |ip| && ZeroRun(ip, s, i - s) && 0 <= len
    requires (s == 0 || ip[s - 1] != 0) && (i == |ip| || ip[i] != 0)
    ensures if len < i - s then Longest(ip, s, i - s, i) else Longest(ip, start, len, i)
  {
    assert forall a, n :: ZeroRun(ip, a, n) && a + n <= i && a + n > s ==> a >= s;
  }

  lemma ExtendBound(ip: seq<nat>, start: int, len: int, i: int)
    requires Longest(ip, start, len, i) && 0 <= i < |ip| && ip[i] != 0
    ensures Longest(ip, start, len, i + 1)
  {
    assert forall a, n :: ZeroRun(ip, a, n) && a + n <= i + 1 ==> a + n <= i;
  }

  /** The search loop of net_addr_str_v6. */
  method LongestZeros(ip: seq<nat>) returns (start: int, len: int)
    requires |ip| == 8
    ensures len >= 0 && Shortened(ip, start, len)
  {
    start, len := -1, 0;
    var seqLen, seqStart := 0, -1;
    var i := 0;
    while i < 8 + 1
      invariant 0 <= i <= 9 && len >= 0
      invariant seqStart == -1 ==> seqLen == 0 && (i == 0 || i == 9 || ip[i - 1] != 0)
      invariant seqStart == -1 ==> Longest(ip, start, len, if i == 9 then 8 else i)
      invariant seqStart != -1 ==> 0 <= seqStart < i <= 8 && seqLen == i - seqStart && ZeroRun(ip, seqStart, seqLen)
      invariant seqStart != -1 ==> (seqStart == 0 || ip[seqStart - 1] != 0) && Longest(ip, start, len, seqStart)
    {
      if seqStart != -1 {
        if i == 8 || ip[i] != 0 {
          CloseRun(ip, start, len, seqStart, i);
          if len < seqLen {
            len, start := seqLen, seqStart;
          }
          seqLen, seqStart := 0, -1;
          if i < 8 { ExtendBound(ip, start, len, i); }
        } else {
          seqLen := seqLen + 1;
        }
      } else {
        if i != 8 && ip[i] == 0 {
          seqStart, seqLen := i, 1;
        } else if i < 8 {
          ExtendBound(ip, start, len, i);
        }
      }
      i := i + 1;
    }
    if len <= 1 {
      len, start := 0, -1;
    }
  }

  /** What the printing loop has written after i words. */
  ghost function Partial(ip: seq<nat>, start: int, len: nat, i: nat): string
    requires i <= |ip| && (len > 0 ==> 0 <= start && start + len <= |ip|)
  {
    if len == 0 || i <= start then Join(ip[..i])
    else if i <= start + len then Join(ip[..start]) + "::"
    else Join(ip[..start]) + "::" + Join(ip[start + len..i])
  }

  lemma JoinOne(w: nat)
    ensures Join([w]) == Numeral(w, 16) && Join([]) == ""
  {
  }

  lemma JoinNext(ip: seq<nat>, first: nat, i: nat)
    requires first <= i < |ip|
    ensures Join(ip[first..i + 1]) == Join(ip[first..i]) + ((if i == first then "" else ":") + Numeral(ip[i], 16))
  {
    hide Join, Numeral;
    var before, word := ip[first..i], Numeral(ip[i], 16);
    JoinOne(ip[i]);
    assert ip[first..i + 1] == before + [ip[i]];
    if first < i {
      JoinAppend(before, ip[i]);
      ConcatAssociates(Join(before), ":", word);
    } else {
      assert before == [] && [] + [ip[i]] == [ip[i]];
    }
  }

  lemma NextWord(ip: seq<nat>, start: int, len: nat, i: nat)
    requires i < |ip| && (if len == 0 then start == -1 else 0 <= start && start + len <= |ip|)
    ensures start <= i < start + len ==>
              Partial(ip, start, len, i + 1) == Partial(ip, start, len, i) + if i == start then "::" else ""
    ensures !(start <= i < start + len) ==>
              Partial(ip, start, len, i + 1) ==
              Partial(ip, start, len, i) + ((if i == 0 || i == start + len then "" else ":") + Numeral(ip[i], 16))
  {
    hide Join, Numeral;
    if start <= i < start + len {
    } else {
      hide Partial;
      if len == 0 || i < start { NextBefore(ip, start, len, i); } else { NextBehind(ip, start, len, i); }
    }
  }

  lemma NextBefore(ip: seq<nat>, start: int, len: nat, i: nat)
    requires i < |ip| && (if len == 0 then start == -1 else i < start && start + len <= |ip|)
    ensures Partial(ip, start, len, i + 1) ==
            Partial(ip, start, len, i) + ((if i == 0 then "" else ":") + Numeral(ip[i], 16))
  {
    hide Join, Numeral;
    JoinNext(ip, 0, i);
    assert ip[0..i] == ip[..i] && ip[0..i + 1] == ip[..i + 1];
  }

  lemma NextBehind(ip: seq<nat>, start: int, len: nat, i: nat)
    requires 0 < len && 0 <= start && start + len <= i < |ip|
    ensures Partial(ip, start, len, i + 1) ==
            Partial(ip, start, len, i) + ((if i == start + len then "" else ":") + Numeral(ip[i], 16))
  {
    hide Join, Numeral;
    var front, behind := Join(ip[..start]) + "::", Join(ip[start + len..i]);
    var word := (if i == start + len then "" else ":") + Numeral(ip[i], 16);
    JoinNext(ip, start + len, i);
    if i == start + len {
      JoinOne(0);
      assert ip[start + len..i] == [];
      assert front + behind == front;
    }
    assert Partial(ip, start, len, i + 1) == front + (behind + word);
    assert Partial(ip, start, len, i) == front + behind;
    ConcatAssociates(front, behind, word);
  }

  lemma PartialEnds(ip: seq<nat>, start: int, len: nat)
    requires |ip| == 8 && Shortened(ip, start, len)
    ensures if len == 0 then start == -1 else 0 <= start && start + len <= |ip|
    ensures Partial(ip, start, len, 0) == "" && Partial(ip, start, len, 8) == Printed(ip, start, len)
  {
    hide Join;
    JoinOne(0);
    assert ip[..0] == [] && ip[..8] == ip && ip[8..] == [];
  }

  /** The text of eight words, and what follows the bracket. */
  ghost predicate IsTextOf(ip: seq<nat>, suffix: string, text: string) {
    exists start: int, len: nat :: Shortened(ip, start, len) && text == "[" + Printed(ip, start, len) + "]" + suffix
  }

  /** The buffer holds the text, cut to size - 1 characters, and a terminator behind it. */
  ghost predicate HoldsCut(buffer: seq<char>, size: nat, text: string) {
    var n := if |text| < size then |text| else size - 1;
    0 <= n < |buffer| && buffer[..n] == text[..n] && buffer[n] == '\0'
  }

  /** How much of a text a buffer of the given size takes. */
  function CutLength(size: nat, text: string): (n: nat)
    requires size > 0
    ensures n <= |text| && n < size
  {
    if |text| < size then |text| else size - 1
  }

  /** Printing has come to position w. */
  ghost predicate Wrote(buffer: seq<char>, size: nat, w: nat, text: string)
    requires size > 0
  {
    w == CutLength(size, text) && w <= |buffer| && buffer[..w] == text[..w]
  }

  /** str_copy and str_format of a piece at position w, in what is left of the buffer. */
  method PutText(buffer: array<char>, size: nat, w: nat, piece: string, ghost text: string) returns (n: nat)
    requires 1 <= size <= buffer.Length && Wrote(buffer[..], size, w, text)
    modifies buffer
    ensures Wrote(buffer[..], size, w + n, text + piece)
    ensures HoldsCut(buffer[..], size, text + piece)
    ensures forall k :: size <= k < buffer.Length ==> buffer[k] == old(buffer[k])
  {
    n := if |piece| < size - w then |piece| else size - w - 1;
    forall i | 0 <= i < n { buffer[w + i] := piece[i]; }
    buffer[w + n] := '\0';
    CutGrows(size, text, piece);
    assert buffer[..w + n] == text[..w] + piece[..n];
  }

  lemma CutGrows(size: nat, text: string, piece: string)
    requires size > 0
    ensures var w := CutLength(size, text);
            var n := if |piece| < size - w then |piece| else size - w - 1;
            w + n == CutLength(size, text + piece) && text[..w] + piece[..n] == (text + piece)[..w + n]
  {
  }

  /** net_addr_str_v6: a negative port is not printed. */
  method NetAddrStrV6(ip: seq<nat>, port: int, buffer: array<char>, bufferSize: nat)
    requires |ip| == 8 && 1 <= bufferSize <= buffer.Length
    modifies buffer
    ensures exists text :: IsTextOf(ip, if port >= 0 then ":" + Numeral(port, 10) else "", text)
                           && HoldsCut(buffer[..], bufferSize, text)
    ensures forall k :: bufferSize <= k < buffer.Length ==> buffer[k] == old(buffer[k])
  {
    hide Numeral, Partial, Printed, Shortened, Wrote, HoldsCut, IsTextOf;
    var longestStart, longestLen := LongestZeros(ip);
    ghost var start: int, len: nat := longestStart, longestLen;
    PartialEnds(ip, start, len);
    NothingWrote(buffer[..], bufferSize);
    var w := PutText(buffer, bufferSize, 0, "[", "");
    assert "" + "[" == "[" + "";
    var i := 0;
    while i < 8
      invariant 0 <= i <= 8 && Wrote(buffer[..], bufferSize, w, "[" + Partial(ip, start, len, i))
      invariant forall k :: bufferSize <= k < buffer.Length ==> buffer[k] == old(buffer[k])
    {
      w := PutWord(buffer, bufferSize, w, ip, longestStart, longestLen, i);
      i := i + 1;
    }
    ghost var text := "[" + Printed(ip, start, len);
    PutEnd(buffer, bufferSize, w, port, text);
    ghost var suffix := if port >= 0 then ":" + Numeral(port, 10) else "";
    TextOf(ip, start, len, suffix, text + "]" + suffix);
  }

  /** What comes behind the words: the bracket and the port. */
  method PutEnd(buffer: array<char>, size: nat, w: nat, port: int, ghost text: string)
    requires 1 <= size <= buffer.Length && Wrote(buffer[..], size, w, text)
    modifies buffer
    ensures HoldsCut(buffer[..], size, text + "]" + if port >= 0 then ":" + Numeral(port, 10) else "")
    ensures forall k :: size <= k < buffer.Length ==> buffer[k] == old(buffer[k])
  {
    hide Numeral, Wrote, HoldsCut;
    var n := PutText(buffer, size, w, "]", text);
    if port >= 0 {
      n := PutText(buffer, size, w + n, ":" + Numeral(port, 10), text + "]");
    } else {
      assert text + "]" + "" == text + "]";
    }
  }

  /** The body of the loop: one word, the double colon, or nothing. */
  method PutWord(buffer: array<char>, size: nat, w: nat, ip: seq<nat>, start: int, len: nat, i: nat) returns (w': nat)
    requires 1 <= size <= buffer.Length && i < |ip| && (if len == 0 then start == -1 else 0 <= start && start + len <= |ip|)
    requires Wrote(buffer[..], size, w, "[" + Partial(ip, start, len, i))
    modifies buffer
    ensures Wrote(buffer[..], size, w', "[" + Partial(ip, start, len, i + 1))
    ensures forall k :: size <= k < buffer.Length ==> buffer[k] == old(buffer[k])
  {
    hide Numeral, Partial, Wrote, HoldsCut;
    NextWord(ip, start, len, i);
    ghost var text := Partial(ip, start, len, i);
    w' := w;
    if start <= i < start + len {
      if i == start {
        var n := PutText(buffer, size, w, "::", "[" + text);
        w' := w + n;
        assert ("[" + text) + "::" == "[" + (text + "::");
      } else {
        assert text + "" == text;
      }
    } else {
      var colon := if i == 0 || i == start + len then "" else ":";
      var piece := colon + Numeral(ip[i], 16);
      var n := PutText(buffer, size, w, piece, "[" + text);
      w' := w + n;
      assert ("[" + text) + piece == "[" + (text + piece);
    }
  }

  lemma TextOf(ip: seq<nat>, start: int, len: nat, suffix: string, text: string)
    requires Shortened(ip, start, len) && |ip| == 8 && (len > 0 ==> 0 <= start && start + len <= 8)
    requires text == "[" + Printed(ip, start, len) + "]" + suffix
    ensures IsTextOf(ip, suffix, text)
  {
  }

  lemma NothingWrote(buffer: seq<char>, size: nat)
    requires size > 0
    ensures Wrote(buffer, size, 0, "")
  {
  }

  // ---- net_addr_str ----

  /** The eight 16-bit words of sixteen bytes. */
  function Words(ip: seq<nat>): (ws: seq<nat>)
    requires |ip| == 16
    ensures |ws| == 8
  {
    seq(8, i requires 0 <= i < 8 => ip[2 * i] * 256 + ip[2 * i + 1])
  }

  function WordsToBytes(ws: seq<nat>): (ip: seq<nat>)
    requires |ws| == 8
    ensures |ip| == 16
  {
    seq(16, i requires 0 <= i < 16 => if i % 2 == 0 then ws[i / 2] / 256 else ws[i / 2] % 256)
  }

  lemma WordsInverse(ip: seq<nat>)
    requires |ip| == 16 && forall i :: 0 <= i < 16 ==> ip[i] < 256
    ensures AreWords(Words(ip)) && WordsToBytes(Words(ip)) == ip
  {
    forall i | 0 <= i < 16 ensures WordsToBytes(Words(ip))[i] == ip[i] {
      assert i == 2 * (i / 2) + i % 2;
    }
  }

  function Dotted(ip: seq<nat>): string
    requires |ip| == 4
  {
    Numeral(ip[0], 10) + ("." + (Numeral(ip[1], 10) + ("." + (Numeral(ip[2], 10) + ("." + Numeral(ip[3], 10))))))
  }

  function PortText(addr: Address, addPort: bool): string {
    if addPort then ":" + Numeral(addr.port, 10) else ""
  }

  /** %d of a number that may be negative. */
  function SignedNumeral(n: int): string {
    if n < 0 then "-" + Numeral(-n, 10) else Numeral(n, 10)
  }

  /** The text of an address. */
  ghost predicate IsText(addr: Address, addPort: bool, text: string)
    requires addr.Valid()
  {
    if addr.V4? then text == Dotted(addr.ip) + PortText(addr, addPort)
    else if addr.Other? then text == "unknown type " + SignedNumeral(addr.kind)
    else IsTextOf(Words(addr.ip), PortText(addr, addPort), text)
  }

  /** net_addr_str */
  method NetAddrStr(addr: Address, buffer: array<char>, maxLength: nat, addPort: bool)
    requires addr.Valid() && 1 <= maxLength <= buffer.Length
    modifies buffer
    ensures exists text :: IsText(addr, addPort, text) && HoldsCut(buffer[..], maxLength, text)
    ensures forall k :: maxLength <= k < buffer.Length ==> buffer[k] == old(buffer[k])
  {
    hide Numeral, SignedNumeral, IsTextOf, HoldsCut, Wrote, Dotted;
    NothingWrote(buffer[..], maxLength);
    if addr.V4? {
      var text := Dotted(addr.ip) + PortText(addr, addPort);
      var n := PutText(buffer, maxLength, 0, text, "");
      assert "" + text == text;
      assert IsText(addr, addPort, text);
    } else if addr.Other? {
      var text := "unknown type " + SignedNumeral(addr.kind);
      var n := PutText(buffer, maxLength, 0, text, "");
      assert "" + text == text;
      assert IsText(addr, addPort, text);
    } else {
      var port: int := -1;
      if addPort {
        port := addr.port;
      }
      NetAddrStrV6(Words(addr.ip), port, buffer, maxLength);
      ghost var text :| IsTextOf(Words(addr.ip), PortText(addr, addPort), text) && HoldsCut(buffer[..], maxLength, text);
      assert IsText(addr, addPort, text);
    }
  }

  // ---- net_addr_from_str ----

  /** parse_uint8 and parse_uint16: a decimal number up to max, and what follows it. */
  function ParseUint(s: string, max: nat): Option<(nat, string)> {
    if s == "" || ValueOf(s[0], 10) == -1 then None
    else
      var (v, rest) := ReadNumber(s, 0, 10);
      if v > max then None else Some((v, rest))
  }

  /** parse_int on the text from p on. */
  method ParseInt(s: string, p: nat) returns (ok: bool, out: nat, q: nat)
    requires p <= |s|
    ensures p <= q <= |s|
    ensures ok <==> (p < |s| && ValueOf(s[p], 10) != -1)
    ensures ok ==> (out, s[q..]) == ReadNumber(s[p..], 0, 10)
  {
    hide ValueOf;
    ok, out, q := true, 0, p;
    if p == |s| || ValueOf(s[p], 10) == -1 {
      return false, 0, p;
    }
    ValueRange(s[q]);
    var i: nat := ValueOf(s[q], 10);
    q := q + 1;
    assert s[p..][1..] == s[q..];
    while true
      invariant p < q <= |s| && ReadNumber(s[p..], 0, 10) == ReadNumber(s[q..], i, 10)
      decreases |s| - q
    {
      if q == |s| || ValueOf(s[q], 10) == -1 {
        return true, i, q;
      }
      ValueRange(s[q]);
      assert s[q..][1..] == s[q + 1..];
      i := i * 10 + ValueOf(s[q], 10);
      q := q + 1;
    }
  }

  /** Up to nine digits the number stays within 32 bits, and so does every number on the way. */
  lemma NineDigitsFit(s: string)
    ensures |s| - |ReadNumber(s, 0, 10).1| <= 9 ==> ReadNumber(s, 0, 10).0 < 0x8000_0000
  {
    if |s| - |ReadNumber(s, 0, 10).1| <= 9 {
      hide ReadNumber;
      assert Arith.Pow(10, 3) == 1000;
      Arith.PowAdd(10, 3, 3);
      Arith.PowAdd(10, 3, 6);
      ReadNumberBelow(s, 0, 1, 10, 9);
    }
  }

  lemma ValueRange(c: char)
    ensures -1 <= ValueOf(c, 10) < 10
  {
  }

  /** parse_uint8 and parse_uint16 on the text from p on. */
  method ParseUintAt(s: string, p: nat, max: nat) returns (r: Option<nat>, q: nat)
    requires p <= |s|
    ensures p <= q <= |s|
    ensures match ParseUint(s[p..], max) case None => r == None case Some((v, rest)) => r == Some(v) && rest == s[q..]
  {
    hide ValueOf, ReadNumber;
    var ok, out;
    ok, out, q := ParseInt(s, p);
    if !ok || out > max {
      return None, q;
    }
    return Some(out), q;
  }

  /** `.` and a number. */
  function DotNumber(s: string): Option<(nat, string)> {
    if s == "" || s[0] != '.' then None else ParseUint(s[1..], 255)
  }

  /** The IPv4 branch of net_addr_from_str. */
  function FromDotted(s: string): Option<Address> {
    match ParseUint(s, 255)
    case None => None
    case Some((a, s1)) =>
      match DotNumber(s1)
      case None => None
      case Some((b, s2)) =>
        match DotNumber(s2)
        case None => None
        case Some((c, s3)) =>
          match DotNumber(s3)
          case None => None
          case Some((d, s4)) =>
            if s4 != "" && s4[0] == ':' then
              match ParseUint(s4[1..], 0xFFFF)
              case None => None
              case Some((port, s5)) => if s5 == "" then Some(V4([a, b, c, d], port)) else None
            else if s4 == "" then Some(V4([a, b, c, d], 0)) else None
  }

  /** The text up to a closing bracket, at most n characters. */
  function UpToBracket(s: string, n: nat): (t: string)
    ensures |t| <= |s|
  {
    if n == 0 || s == "" || s[0] == ']' then "" else [s[0]] + UpToBracket(s[1..], n - 1)
  }

  /** What follows the closing bracket: the port, and the text that is not looked at. */
  function PortAndRest(t: string): Option<(nat, string)> {
    if t != "" && t[0] == ':' then ParseUint(t[1..], 0xFFFF) else Some((0, t))
  }

  /** The IPv6 branch, after the opening bracket: the address, and the text that is not looked at. */
  function FromBracketed(s: string): Option<(Address, string)> {
    var inner := UpToBracket(s, 127);
    var rest := s[|inner|..];
    match Expand(inner)
    case None => None
    case Some(ws) =>
      if |ws| != 8 || rest == "" || rest[0] != ']' then None
      else match PortAndRest(rest[1..])
        case None => None
        case Some((port, unread)) => Some((V6(WordsToBytes(ws), port), unread))
  }

  function FromStr(s: string): Option<Address> {
    if s != "" && s[0] == '[' then
      match FromBracketed(s[1..]) case None => None case Some((addr, _)) => Some(addr)
    else FromDotted(s)
  }

  /** net_addr_from_str */
  method NetAddrFromStr(s: string) returns (r: Option<Address>)
    ensures r == FromStr(s)
  {
    hide Expand, ParseUint, WordsToBytes;
    if s != "" && s[0] == '[' {
      var end;
      r, end := ParseBracketed(s);
    } else {
      r := ParseDotted(s);
    }
  }

  /** The copy loop of the IPv6 branch: the number of characters up to the closing bracket. */
  method CopyInner(s: string) returns (i: nat)
    requires s != ""
    ensures 1 + i <= |s| && s[1..1 + i] == UpToBracket(s[1..], 127)
  {
    hide UpToBracket;
    ghost var t := s[1..];
    i := 0;
    while i < 127 && 1 + i < |s| && s[1 + i] != ']'
      invariant 0 <= i <= 127 && i <= |t|
      invariant UpToBracket(t, 127) == t[..i] + UpToBracket(t[i..], 127 - i)
    {
      InnerStep(t, i, 127);
      i := i + 1;
    }
    InnerEnd(t[i..], 127 - i);
  }

  lemma InnerStep(t: string, i: nat, n: nat)
    requires i < n && i < |t| && t[i] != ']'
    ensures t[..i] + UpToBracket(t[i..], n - i) == t[..i + 1] + UpToBracket(t[i + 1..], n - (i + 1))
  {
    assert t[i..][1..] == t[i + 1..];
    assert UpToBracket(t[i..], n - i) == [t[i]] + UpToBracket(t[i + 1..], n - (i + 1));
    hide UpToBracket;
    assert t[..i + 1] == t[..i] + [t[i]];
  }

  lemma InnerEnd(t: string, n: nat)
    requires n == 0 || t == "" || t[0] == ']'
    ensures UpToBracket(t, n) == ""
  {
  }

  /** The address, and where reading ends. */
  method ParseBracketed(s: string) returns (r: Option<Address>, end: nat)
    requires s != "" && s[0] == '['
    ensures end <= |s|
    ensures match FromBracketed(s[1..])
            case None => r == None
            case Some((addr, unread)) => r == Some(addr) && unread == s[end..]
  {
    hide Expand, ParseUint, WordsToBytes, UpToBracket;
    var i := CopyInner(s);
    var buf, p := s[1..1 + i], 1 + i;
    assert s[1..][|buf|..] == s[p..];
    var ws := Expand(buf);
    if ws == None || |ws.value| != 8 {
      return None, p;
    }
    if p < |s| && s[p] == ']' {
      assert s[p..][1..] == s[p + 1..];
      p := p + 1;
      if p < |s| && s[p] == ':' {
        assert s[p..][1..] == s[p + 1..];
        var port, q := ParseUintAt(s, p + 1, 0xFFFF);
        if port == None {
          return None, q;
        }
        return Some(V6(WordsToBytes(ws.value), port.value)), q;
      } else {
        return Some(V6(WordsToBytes(ws.value), 0)), p;
      }
    } else {
      return None, p;
    }
  }

  /** parse_char('.') and parse_uint8. */
  method ParseDotNumber(s: string, p: nat) returns (r: Option<nat>, q: nat)
    requires p <= |s|
    ensures p <= q <= |s|
    ensures match DotNumber(s[p..]) case None => r == None case Some((v, rest)) => r == Some(v) && rest == s[q..]
  {
    hide ParseUint;
    if p == |s| || s[p] != '.' {
      return None, p;
    }
    assert s[p..][1..] == s[p + 1..];
    r, q := ParseUintAt(s, p + 1, 255);
  }

  method ParseDotted(s: string) returns (r: Option<Address>)
    ensures r == FromDotted(s)
  {
    hide ParseUint, DotNumber;
    assert s[0..] == s;
    var a, p := ParseUintAt(s, 0, 255);
    if a == None { return None; }
    var b;
    b, p := ParseDotNumber(s, p);
    if b == None { return None; }
    var c;
    c, p := ParseDotNumber(s, p);
    if c == None { return None; }
    var d;
    d, p := ParseDotNumber(s, p);
    if d == None { return None; }
    var port := 0;
    if p < |s| && s[p] == ':' {
      assert s[p..][1..] == s[p + 1..];
      var n;
      n, p := ParseUintAt(s, p + 1, 0xFFFF);
      if n == None { return None; }
      port := n.value;
    }
    if p != |s| {
      return None;
    }
    return Some(V4([a.value, b.value, c.value, d.value], port));
  }

  // ---- printed addresses parse back ----

  lemma ParseNumeral(n: nat, t: string, max: nat)
    requires n <= max && (t == "" || ValueOf(t[0], 10) == -1)
    ensures ParseUint(Numeral(n, 10) + t, max) == Some((n, t))
  {
    hide Numeral;
    ReadNumeral(n, t, 10);
    var s := Numeral(n, 10) + t;
    NumeralStarts(n);
    assert ReadNumber(t, n, 10) == (n, t);
    assert s[0] == Numeral(n, 10)[0];
  }

  lemma {:induction false} NumeralStarts(n: nat)
    ensures ValueOf(Numeral(n, 10)[0], 10) != -1
  {
    if n >= 10 { NumeralStarts(n / 10); }
  }

  lemma NotDigits()
    ensures ValueOf('.', 10) == -1 && ValueOf(':', 10) == -1 && ValueOf(']', 10) == -1 && ValueOf('[', 10) == -1
  {
  }

  lemma DotThen(n: nat, t: string)
    requires n < 256 && (t == "" || ValueOf(t[0], 10) == -1)
    ensures DotNumber("." + (Numeral(n, 10) + t)) == Some((n, t))
  {
    hide Numeral, ParseUint;
    ParseNumeral(n, t, 255);
    assert ("." + (Numeral(n, 10) + t))[1..] == Numeral(n, 10) + t;
  }

  /** Every IPv4 address and port parse back from their text. */
  lemma V4RoundTrip(addr: Address, addPort: bool)
    requires addr.V4? && addr.Valid()
    ensures FromStr(Dotted(addr.ip) + PortText(addr, addPort)) == Some(if addPort then addr else addr.(port := 0))
  {
    hide Numeral, ParseUint, DotNumber, ValueOf;
    NotDigits();
    var a, b, c, d, t4 := addr.ip[0], addr.ip[1], addr.ip[2], addr.ip[3], PortText(addr, addPort);
    var t3 := "." + (Numeral(d, 10) + t4);
    var t2 := "." + (Numeral(c, 10) + t3);
    var t1 := "." + (Numeral(b, 10) + t2);
    var s := Numeral(a, 10) + t1;
    assert Dotted(addr.ip) + t4 == s;
    NumeralStarts(a);
    assert s[0] == Numeral(a, 10)[0];
    ParseNumeral(a, t1, 255);
    DotThen(b, t2);
    DotThen(c, t3);
    DotThen(d, t4);
    if addPort {
      assert t4[1..] == Numeral(addr.port, 10) + "";
      ParseNumeral(addr.port, "", 0xFFFF);
    }
    assert [a, b, c, d] == addr.ip;
  }

  lemma {:induction false} BracketEnds(p: string, t: string, n: nat)
    requires (forall c :: c in p ==> c != ']') && |p| <= n && t != "" && t[0] == ']'
    ensures UpToBracket(p + t, n) == p
  {
    if p == "" {
      assert p + t == t;
    } else {
      assert p[0] in p && (p + t)[1..] == p[1..] + t;
      assert forall c :: c in p[1..] ==> c in p;
      BracketEnds(p[1..], t, n - 1);
    }
  }

  lemma {:induction false} JoinLength(ws: seq<nat>)
    requires AreWords(ws)
    ensures |Join(ws)| <= 5 * |ws| && (ws != [] ==> |Join(ws)| < 5 * |ws|)
  {
    hide Numeral;
    if ws != [] {
      GroupLength(ws[0]);
      JoinLength(ws[1..]);
    }
  }

  /** The text between the brackets is at most 39 characters long and holds no bracket. */
  lemma PrintedFits(ip: seq<nat>, start: int, len: nat)
    requires |ip| == 8 && AreWords(ip) && Shortened(ip, start, len)
    ensures |Printed(ip, start, len)| <= 39
    ensures forall c :: c in Printed(ip, start, len) ==> c != ']' && c != '['
  {
    hide Join;
    if len == 0 {
      JoinLength(ip);
      JoinColons(ip);
    } else {
      JoinLength(ip[..start]);
      JoinLength(ip[start + len..]);
      JoinColons(ip[..start]);
      JoinColons(ip[start + len..]);
    }
  }

  const NETADDR_MAXSTRSIZE: nat := 1 + (8 * 4 + 7) + 1 + 1 + 5 + 1

  lemma PortFits(addr: Address, addPort: bool)
    requires addr.Valid()
    ensures |PortText(addr, addPort)| <= 6
  {
    hide Numeral;
    assert Arith.Pow(10, 2) == 100 && Arith.Pow(10, 3) == 1000;
    assert Arith.Pow(10, 5) == 100000;
    NumeralLength(addr.port, 10, 5);
  }

  lemma DottedFits(ip: seq<nat>)
    requires |ip| == 4 && forall i :: 0 <= i < 4 ==> ip[i] < 256
    ensures |Dotted(ip)| <= 15
  {
    hide Numeral;
    assert Arith.Pow(10, 3) == 1000;
    NumeralLength(ip[0], 10, 3);
    NumeralLength(ip[1], 10, 3);
    NumeralLength(ip[2], 10, 3);
    NumeralLength(ip[3], 10, 3);
  }

  lemma BracketedFits(ws: seq<nat>, start: int, len: nat, port: string)
    requires |ws| == 8 && AreWords(ws) && Shortened(ws, start, len) && |port| <= 6
    ensures |"[" + Printed(ws, start, len) + "]" + port| <= 47
  {
    hide Printed;
    PrintedFits(ws, start, len);
  }

  lemma KindFits(kind: int)
    requires -0x8000_0000 <= kind < 0x8000_0000
    ensures |"unknown type " + SignedNumeral(kind)| <= 24
  {
    hide Numeral;
    assert Arith.Pow(10, 3) == 1000;
    Arith.PowAdd(10, 3, 3);
    Arith.PowAdd(10, 3, 6);
    Arith.PowAdd(10, 9, 1);
    NumeralLength(if kind < 0 then -kind else kind, 10, 10);
  }

  /** The text of every address, brackets and port included, fits a buffer of NETADDR_MAXSTRSIZE
      with its terminator. */
  lemma TextFits(addr: Address, addPort: bool, text: string)
    requires addr.Valid() && IsText(addr, addPort, text)
    ensures |text| < NETADDR_MAXSTRSIZE
  {
    hide Dotted, PortText, Words;
    PortFits(addr, addPort);
    if addr.V4? {
      DottedFits(addr.ip);
    } else if addr.Other? {
      KindFits(addr.kind);
    } else {
      WordsInverse(addr.ip);
      var ws, port := Words(addr.ip), PortText(addr, addPort);
      var start: int, len: nat :| Shortened(ws, start, len) && text == "[" + Printed(ws, start, len) + "]" + port;
      BracketedFits(ws, start, len, port);
    }
  }

  /** So there nothing is cut. */
  lemma NothingIsCut(addr: Address, addPort: bool, text: string, buffer: seq<char>, size: nat)
    requires addr.Valid() && IsText(addr, addPort, text)
    requires size >= NETADDR_MAXSTRSIZE && HoldsCut(buffer, size, text)
    ensures text <= buffer && |text| < |buffer| && buffer[|text|] == '\0'
  {
    hide IsText;
    TextFits(addr, addPort, text);
  }

  /** Every IPv6 address and port parse back from their text. */
  lemma V6RoundTrip(addr: Address, addPort: bool, text: string)
    requires addr.V6? && addr.Valid() && IsTextOf(Words(addr.ip), PortText(addr, addPort), text)
    ensures FromStr(text) == Some(if addPort then addr else addr.(port := 0))
  {
    var start: int, len: nat :| Shortened(Words(addr.ip), start, len)
                                && text == "[" + Printed(Words(addr.ip), start, len) + "]" + PortText(addr, addPort);
    PrintedParses(addr, addPort, start, len);
  }

  lemma PrintedParses(addr: Address, addPort: bool, start: int, len: nat)
    requires addr.V6? && addr.Valid() && Shortened(Words(addr.ip), start, len)
    ensures FromStr("[" + Printed(Words(addr.ip), start, len) + "]" + PortText(addr, addPort))
         == Some(if addPort then addr else addr.(port := 0))
  {
    hide Numeral, ParseUint, Printed, Expand, Words, WordsToBytes, UpToBracket;
    var ws := Words(addr.ip);
    WordsInverse(addr.ip);
    PrintedFits(ws, start, len);
    ExpandPrinted(ws, start, len);
    var inner, port := Printed(ws, start, len), PortText(addr, addPort);
    var rest := "]" + port;
    var s := "[" + inner + "]" + port;
    assert s[1..] == inner + rest;
    BracketEnds(inner, rest, 127);
    assert (inner + rest)[|inner|..] == rest;
    if addPort {
      assert rest[2..] == Numeral(addr.port, 10) + "";
      ParseNumeral(addr.port, "", 0xFFFF);
    }
  }

  // ---- whatever is accepted ----

  lemma BytesOfWords(ws: seq<nat>)
    requires |ws| == 8 && AreWords(ws)
    ensures forall i :: 0 <= i < 16 ==> WordsToBytes(ws)[i] < 256
  {
  }

  /** Whatever text is accepted gives an address whose bytes and port are in range. */
  lemma AcceptedIsValid(s: string)
    ensures FromStr(s).Some? ==> FromStr(s).value.Valid() && !FromStr(s).value.Other?
  {
    hide Expand, ReadNumber, WordsToBytes, UpToBracket;
    if s != "" && s[0] == '[' {
      var inner := UpToBracket(s[1..], 127);
      ExpandIsWords(inner);
      if Expand(inner).Some? { BytesOfWords(Expand(inner).value); }
    }
  }

  /** So printing what was accepted and parsing it again changes nothing. */
  lemma AcceptedIsStable(s: string, text: string)
    requires FromStr(s).Some?
    ensures var a := FromStr(s).value;
            && a.Valid()
            && (IsText(a, true, text) ==> FromStr(text) == Some(a))
  {
    hide FromStr, IsTextOf, Dotted, PortText;
    AcceptedIsValid(s);
    var a := FromStr(s).value;
    if IsText(a, true, text) {
      if a.V4? {
        V4RoundTrip(a, true);
      } else {
        V6RoundTrip(a, true, text);
      }
    }
  }

  // ---- what follows the bracket ----

  ghost predicate NoBracket(p: string) { forall c :: c in p ==> c != ']' }

  /** What the IPv6 branch makes of a text whose closing bracket comes in time. */
  lemma BracketedIs(p: string, t: string)
    requires NoBracket(p) && |p| <= 127
    ensures FromBracketed(p + ("]" + t)) ==
            if Expand(p) == None || PortAndRest(t) == None then None
            else Some((V6(WordsToBytes(Expand(p).value), PortAndRest(t).value.0), PortAndRest(t).value.1))
  {
    hide Expand, WordsToBytes, UpToBracket, PortAndRest;
    BracketEnds(p, "]" + t, 127);
    ExpandIsWords(p);
    assert (p + ("]" + t))[|p|..] == "]" + t;
  }

  /** The text is accepted exactly if the part in brackets is one of an address and, where a colon
      follows, a number up to 65535 stands behind the colon. */
  lemma BracketedAccepted(p: string, t: string)
    requires NoBracket(p) && |p| <= 127
    ensures FromStr("[" + p + "]" + t).Some? <==>
            Expand(p).Some? && (t == "" || t[0] != ':' || ParseUint(t[1..], 0xFFFF).Some?)
    ensures FromStr("[" + p + "]" + t).Some? ==>
            FromStr("[" + p + "]" + t).value
            == V6(WordsToBytes(Expand(p).value), if t == "" || t[0] != ':' then 0 else ParseUint(t[1..], 0xFFFF).value.0)
  {
    hide Expand, WordsToBytes, ParseUint, FromBracketed;
    BracketedIs(p, t);
    assert ("[" + p + "]" + t)[1..] == p + ("]" + t);
  }

  /** No other text with an opening bracket is accepted. */
  lemma AcceptedHasBracket(s: string)
    requires s != "" && s[0] == '[' && FromStr(s).Some?
    ensures exists p, t :: s == "[" + p + "]" + t && NoBracket(p) && |p| <= 127
  {
    hide Expand, WordsToBytes, PortAndRest, UpToBracket;
    var p := UpToBracket(s[1..], 127);
    BracketedPart(s[1..], 127);
    var t := s[1..][|p| + 1..];
    assert s == "[" + p + "]" + t;
  }

  lemma {:induction false} BracketedPart(s: string, n: nat)
    ensures var p := UpToBracket(s, n); p <= s && |p| <= n && NoBracket(p)
  {
    if n > 0 && s != "" && s[0] != ']' {
      BracketedPart(s[1..], n - 1);
    }
  }

  predicate AllDigits(s: string) { forall i :: 0 <= i < |s| ==> '0' <= s[i] <= '9' }

  /** A number is the digits at the front of a text, all of them. */
  lemma {:induction false} NumberIsDigits(s: string, acc: nat)
    ensures var rest := ReadNumber(s, acc, 10).1;
            && |rest| <= |s| && AllDigits(s[..|s| - |rest|]) && s[|s| - |rest|..] == rest
            && (rest == "" || !('0' <= rest[0] <= '9'))
            && (rest == "" <==> AllDigits(s))
  {
    if s == "" || ValueOf(s[0], 10) == -1 {
      assert s[..0] == [];
    } else {
      var next := acc * 10 + ValueOf(s[0], 10);
      NumberIsDigits(s[1..], next);
      var n := |s| - |ReadNumber(s, acc, 10).1|;
      assert forall i :: 1 <= i < |s| ==> s[i] == s[1..][i - 1];
      assert s[..n] == [s[0]] + s[1..][..n - 1];
    }
  }

  /** An accepted text is read to its end exactly if nothing follows the bracket, or a colon and
      nothing but digits. */
  lemma ReadToEndIff(p: string, t: string)
    requires NoBracket(p) && |p| <= 127 && FromBracketed(p + ("]" + t)).Some?
    ensures FromBracketed(p + ("]" + t)).value.1 == "" <==> t == "" || (t[0] == ':' && AllDigits(t[1..]))
  {
    hide Expand, WordsToBytes, FromBracketed;
    BracketedIs(p, t);
    if t != "" { NumberIsDigits(t[1..], 0); }
  }

  /** So any text that does not start with a colon may follow the bracket, and any that does not start
      with a digit may follow the port. */
  lemma TrailingText(p: string, port: nat, t: string)
    requires NoBracket(p) && |p| <= 127 && Expand(p).Some? && port <= 0xFFFF
    ensures t == "" || t[0] != ':' ==>
              FromBracketed(p + ("]" + t)) == Some((V6(WordsToBytes(Expand(p).value), 0), t))
    ensures t == "" || !('0' <= t[0] <= '9') ==>
              FromBracketed(p + ("]" + (":" + (Numeral(port, 10) + t))))
              == Some((V6(WordsToBytes(Expand(p).value), port), t))
  {
    hide Expand, WordsToBytes, FromBracketed, ParseUint, Numeral;
    BracketedIs(p, t);
    var u := Numeral(port, 10) + t;
    BracketedIs(p, ":" + u);
    assert (":" + u)[1..] == u;
    if t == "" || !('0' <= t[0] <= '9') { ParseNumeral(port, t, 0xFFFF); }
  }

  lemma ExpandColons()
    ensures Expand("::") == Some(seq(8, _ => 0))
  {
    hide ReadGroups;
    assert DoubleColon("::") == Some(0) && "::"[..0] == "" && "::"[2..] == "";
    var none: seq<nat> := [];
    assert none + seq(8, _ => 0) + none == seq(8, _ => 0);
  }

  lemma NoPort(t: string)
    requires t == "" || t[0] != ':'
    ensures FromStr("[" + "::" + "]" + t) == Some(V6(seq(16, _ => 0), 0))
  {
    assert WordsToBytes(seq(8, _ => 0)) == seq(16, _ => 0);
    hide Expand, WordsToBytes, ParseUint, FromBracketed, FromStr;
    ExpandColons();
    BracketedAccepted("::", t);
  }

  lemma WithPort(port: nat, t: string)
    requires port <= 0xFFFF && (t == "" || !('0' <= t[0] <= '9'))
    ensures FromStr("[" + "::" + "]" + (":" + (Numeral(port, 10) + t))) == Some(V6(seq(16, _ => 0), port))
  {
    assert WordsToBytes(seq(8, _ => 0)) == seq(16, _ => 0);
    hide Expand, WordsToBytes, ParseUint, FromBracketed, FromStr, Numeral;
    ExpandColons();
    ParseNumeral(port, t, 0xFFFF);
    assert (":" + (Numeral(port, 10) + t))[1..] == Numeral(port, 10) + t;
    BracketedAccepted("::", ":" + (Numeral(port, 10) + t));
  }

  lemma Eighty()
    ensures Numeral(80, 10) == "80"
  {
    assert Numeral(8, 10) == "8";
  }

  /** Texts of both kinds, neither read to its end. */
  lemma TrailingInstances()
    ensures FromStr("[::]x") == Some(V6(seq(16, _ => 0), 0))
    ensures FromStr("[::]:80x") == Some(V6(seq(16, _ => 0), 80))
  {
    hide FromStr, Numeral;
    Eighty();
    NoPort("x");
    WithPort(80, "x");
    assert "[" + "::" + "]" + "x" == "[::]x";
    assert "[" + "::" + "]" + (":" + (Numeral(80, 10) + "x")) == "[::]:80x";
  }
}
