/** Numerals and the text form of IPv6 addresses by RFC 4291 section 2.2. */
module NetAddrText {
  import opened Arith
  import opened Sequences
  import opened Wrappers

  // ---- numerals ----

  function DigitOf(v: int): char
    requires 0 <= v < 16
  {
    if v < 10 then '0' + v as char else 'a' + (v - 10) as char
  }

  /** The value of a digit in the given base, -1 for any other character. */
  function ValueOf(c: char, base: int): int {
    if '0' <= c <= '9' then (c - '0') as int
    else if base == 16 && 'a' <= c <= 'f' then (c - 'a') as int + 10
    else if base == 16 && 'A' <= c <= 'F' then (c - 'A') as int + 10
    else -1
  }

  /** %d for base 10 and %x for base 16. */
  function Numeral(n: nat, base: int): (s: string)
    requires base == 10 || base == 16
    ensures s != ""
  {
    if n < base then [DigitOf(n)] else Numeral(n / base, base) + [DigitOf(n % base)]
  }

  /** Reads digits as long as there are any. */
  function ReadNumber(s: string, acc: nat, base: int): (nat, string)
    requires base == 10 || base == 16
    decreases |s|
  {
    if s == "" || ValueOf(s[0], base) == -1 then (acc, s)
    else ReadNumber(s[1..], acc * base + ValueOf(s[0], base), base)
  }

  lemma DigitValue(v: int, base: int)
    requires base == 10 || base == 16
    requires 0 <= v < base
    ensures ValueOf(DigitOf(v), base) == v && DigitOf(v) != ':' && DigitOf(v) != ']' && DigitOf(v) != '['
  {
  }

  /** Reading the last digit. */
  lemma ReadDigit(n: nat, t: string, base: int)
    requires base == 10 || base == 16
    ensures ReadNumber([DigitOf(n % base)] + t, n / base, base) == ReadNumber(t, n, base)
  {
    hide DigitOf, ValueOf;
    DigitValue(n % base, base);
    assert ([DigitOf(n % base)] + t)[1..] == t;
    assert n / base * base + n % base == n;
  }

  lemma {:induction false} ReadNumeral(n: nat, t: string, base: int)
    requires base == 10 || base == 16
    ensures ReadNumber(Numeral(n, base) + t, 0, base) == ReadNumber(t, n, base)
  {
    hide DigitOf, ValueOf;
    if n < base {
      DigitValue(n, base);
      assert ([DigitOf(n)] + t)[1..] == t;
    } else {
      var d := DigitOf(n % base);
      DigitValue(n % base, base);
      ReadNumeral(n / base, [d] + t, base);
      ReadDigit(n, t, base);
      assert Numeral(n, base) == Numeral(n / base, base) + [d];
      hide Numeral, ReadNumber;
      ConcatAssociates(Numeral(n / base, base), [d], t);
    }
  }

  lemma {:induction false} NumeralLength(n: nat, base: int, k: nat)
    requires base == 10 || base == 16
    requires n < Pow(base, k) && k > 0
    ensures |Numeral(n, base)| <= k
  {
    if n >= base {
      NumeralLength(n / base, base, k - 1);
    }
  }

  predicate IsNumeralChar(c: char) { c != ':' && c != ']' && c != '[' }

  lemma {:induction false} NumeralChars(n: nat, base: int)
    requires base == 10 || base == 16
    ensures forall c :: c in Numeral(n, base) ==> IsNumeralChar(c)
  {
    hide DigitOf, ValueOf;
    DigitValue(n % base, base);
    if n < base {
      DigitValue(n, base);
    } else {
      NumeralChars(n / base, base);
    }
  }

  // ---- groups ----

  predicate AreWords(ws: seq<nat>) {
    forall i :: 0 <= i < |ws| ==> ws[i] < 0x1_0000
  }

  /** Groups of hexadecimal digits separated by colons. */
  function Join(ws: seq<nat>): string {
    if ws == [] then ""
    else if |ws| == 1 then Numeral(ws[0], 16)
    else Numeral(ws[0], 16) + ":" + Join(ws[1..])
  }

  lemma {:induction false} JoinAppend(ws: seq<nat>, w: nat)
    requires ws != []
    ensures Join(ws + [w]) == Join(ws) + ":" + Numeral(w, 16)
  {
    hide Numeral;
    assert (ws + [w])[1..] == ws[1..] + [w];
    if |ws| > 1 {
      JoinAppend(ws[1..], w);
      var front, rest := Numeral(ws[0], 16) + ":", Join(ws[1..]);
      assert Join(ws + [w]) == front + (rest + ":" + Numeral(w, 16));
      assert Join(ws) == front + rest;
      hide Join;
      ConcatAssociates(front, rest + ":", Numeral(w, 16));
      ConcatAssociates(front, rest, ":");
    } else {
      assert ws == [ws[0]];
    }
  }

  /** A decimal number of one to three digits, up to 255. */
  function ReadOctet(s: string): Option<(nat, string)> {
    var (v, rest) := ReadNumber(s, 0, 10);
    if 1 <= |s| - |rest| <= 3 && v <= 255 then Some((v, rest)) else None
  }

  /** n more octets, each after a dot. */
  function ReadOctets(s: string, n: nat): Option<seq<nat>>
    decreases n
  {
    if n == 0 then if s == "" then Some([]) else None
    else if s == "" || s[0] != '.' then None
    else match ReadOctet(s[1..])
      case None => None
      case Some((v, rest)) =>
        match ReadOctets(rest, n - 1) case None => None case Some(more) => Some([v] + more)
  }

  /** The two words of an address with dots. */
  function ReadDotted(s: string): Option<seq<nat>> {
    match ReadOctets("." + s, 4)
    case None => None
    case Some(b) => if |b| == 4 then Some([b[0] * 256 + b[1], b[2] * 256 + b[3]]) else None
  }

  /** One or more groups of one to four digits; the last two may be written with dots if they end the
      text. */
  function ReadGroups(s: string, dots: bool): Option<seq<nat>>
    decreases |s|
  {
    var (v, rest) := ReadNumber(s, 0, 16);
    ReadShrinks(s, 0, 16);
    if dots && rest != "" && rest[0] == '.' then ReadDotted(s)
    else if !(1 <= |s| - |rest| <= 4) then None
    else if rest == "" then Some([v])
    else if rest[0] != ':' then None
    else match ReadGroups(rest[1..], dots) case None => None case Some(more) => Some([v] + more)
  }

  lemma {:induction false} ReadShrinks(s: string, acc: nat, base: int)
    requires base == 10 || base == 16
    ensures |ReadNumber(s, acc, base).1| <= |s|
    decreases |s|
  {
    if s != "" && ValueOf(s[0], base) != -1 {
      ReadShrinks(s[1..], acc * base + ValueOf(s[0], base), base);
    }
  }

  function Groups(s: string, dots: bool): Option<seq<nat>> {
    if s == "" then Some([]) else ReadGroups(s, dots)
  }

  /** The position of the first double colon. */
  function DoubleColon(s: string): Option<nat> {
    if |s| < 2 then None
    else if s[0] == ':' && s[1] == ':' then Some(0)
    else match DoubleColon(s[1..]) case None => None case Some(k) => Some(k + 1)
  }

  /** RFC 4291 section 2.2: eight groups, or fewer with one double colon for the missing zeros; the
      last two may be written as an IPv4 address. */
  function Expand(s: string): Option<seq<nat>> {
    match DoubleColon(s)
    case None =>
      (match Groups(s, true)
       case None => None
       case Some(ws) => if |ws| == 8 then Some(ws) else None)
    case Some(k) =>
      if k + 2 > |s| then None
      else
        match (Groups(s[..k], false), Groups(s[k + 2..], true))
        case (Some(left), Some(right)) =>
          if |left| + |right| <= 7 then Some(left + seq(8 - |left| - |right|, _ => 0) + right) else None
        case _ => None
  }

  lemma GroupLength(w: nat)
    requires w < 0x1_0000
    ensures 1 <= |Numeral(w, 16)| <= 4
  {
    assert Pow(16, 4) == 0x1_0000;
    NumeralLength(w, 16, 4);
  }

  lemma {:induction false} ReadJoin(ws: seq<nat>, dots: bool)
    requires ws != [] && AreWords(ws)
    ensures ReadGroups(Join(ws), dots) == Some(ws)
  {
    hide Numeral, ReadNumber, ValueOf, DigitOf;
    var w := ws[0];
    GroupLength(w);
    var tail := if |ws| == 1 then "" else ":" + Join(ws[1..]);
    assert Join(ws) == Numeral(w, 16) + tail;
    ReadNumeral(w, tail, 16);
    ReadNothing(tail, w);
    assert ReadNumber(Join(ws), 0, 16) == (w, tail);
    if |ws| > 1 {
      ReadJoin(ws[1..], dots);
      assert tail[1..] == Join(ws[1..]) && tail[0] == ':';
      assert [w] + ws[1..] == ws;
    } else {
      assert ws == [w];
    }
  }

  /** k digits stay below the k-th power of the base. */
  lemma {:induction false} ReadNumberBelow(s: string, acc: nat, bound: nat, base: int, k: nat)
    requires base == 10 || base == 16
    requires acc < bound && |s| - |ReadNumber(s, acc, base).1| <= k
    ensures ReadNumber(s, acc, base).0 < bound * Pow(base, k)
    decreases |s|
  {
    hide ValueOf;
    if s != "" && ValueOf(s[0], base) != -1 {
      DigitRange(s[0], base);
      var acc' := acc * base + ValueOf(s[0], base);
      ReadShrinks(s[1..], acc', base);
      Scaled(acc, bound, base, ValueOf(s[0], base));
      ReadNumberBelow(s[1..], acc', bound * base, base, k - 1);
      Associate(bound, base, Pow(base, k - 1));
    } else {
      ProductAtLeast(bound, Pow(base, k));
    }
  }

  lemma DigitRange(c: char, base: int)
    requires base == 10 || base == 16
    ensures -1 <= ValueOf(c, base) < base
  {
  }

  lemma Scaled(acc: nat, bound: nat, base: int, d: int)
    requires acc < bound && base > 0 && 0 <= d < base
    ensures 0 <= acc * base + d < bound * base
  {
    Distribute(base, bound - 1 - acc, acc + 1);
    Distribute(base, acc, 1);
    MulNonneg(base, bound - 1 - acc);
    MulNonneg(base, acc);
  }

  /** Whatever text it accepts, the expansion is eight 16-bit words. */
  lemma ExpandIsWords(s: string)
    ensures Expand(s).Some? ==> |Expand(s).value| == 8 && AreWords(Expand(s).value)
  {
    hide ReadGroups;
    match DoubleColon(s)
    case None => GroupsAreWords(s, true);
    case Some(k) =>
      if k + 2 <= |s| {
        GroupsAreWords(s[..k], false);
        GroupsAreWords(s[k + 2..], true);
      }
  }

  lemma GroupsAreWords(s: string, dots: bool)
    ensures Groups(s, dots).Some? ==> AreWords(Groups(s, dots).value)
  {
    ReadGroupsAreWords(s, dots);
  }

  lemma {:induction false} OctetsAreBytes(s: string, n: nat)
    ensures ReadOctets(s, n).Some? ==> forall b :: b in ReadOctets(s, n).value ==> b <= 255
    decreases n
  {
    hide ReadNumber;
    if n > 0 && s != "" && s[0] == '.' && ReadOctet(s[1..]).Some? {
      OctetsAreBytes(ReadOctet(s[1..]).value.1, n - 1);
    }
  }

  lemma DottedIsWords(s: string)
    ensures ReadDotted(s).Some? ==> AreWords(ReadDotted(s).value)
  {
    hide ReadOctets;
    OctetsAreBytes("." + s, 4);
    if ReadDotted(s).Some? {
      var b := ReadOctets("." + s, 4).value;
      assert b[0] in b && b[1] in b && b[2] in b && b[3] in b;
    }
  }

  lemma {:induction false} ReadGroupsAreWords(s: string, dots: bool)
    ensures ReadGroups(s, dots).Some? ==> AreWords(ReadGroups(s, dots).value)
    decreases |s|
  {
    hide ReadNumber, ReadDotted;
    var (v, rest) := ReadNumber(s, 0, 16);
    ReadShrinks(s, 0, 16);
    if dots && rest != "" && rest[0] == '.' {
      DottedIsWords(s);
    } else if ReadGroups(s, dots).Some? {
      assert Pow(16, 4) == 0x1_0000;
      ReadNumberBelow(s, 0, 1, 16, 4);
      if rest != "" {
        ReadGroupsAreWords(rest[1..], dots);
      }
    }
  }

  lemma ReadNothing(t: string, acc: nat)
    requires t == "" || t[0] == ':'
    ensures ReadNumber(t, acc, 16) == (acc, t)
  {
  }

  /** No two adjacent colons, and none at the ends. */
  predicate SingleColons(s: string) {
    && (s != "" ==> s[0] != ':' && s[|s| - 1] != ':')
    && forall i :: 0 < i < |s| ==> !(s[i - 1] == ':' && s[i] == ':')
  }

  lemma {:induction false} JoinColons(ws: seq<nat>)
    ensures SingleColons(Join(ws))
    ensures forall c :: c in Join(ws) ==> c != ']' && c != '['
  {
    hide Numeral;
    if ws != [] {
      var n := Numeral(ws[0], 16);
      NumeralChars(ws[0], 16);
      JoinColons(ws[1..]);
      if |ws| > 1 {
        JoinNotEmpty(ws[1..]);
        ColonBetween(n, Join(ws[1..]));
      } else {
        PlainColons(n);
      }
    }
  }

  lemma JoinNotEmpty(ws: seq<nat>)
    requires ws != []
    ensures Join(ws) != ""
  {
  }

  lemma PlainColons(a: string)
    requires forall c :: c in a ==> c != ':'
    ensures SingleColons(a)
  {
    if a != "" { assert a[0] in a && a[|a| - 1] in a; }
    forall i | 0 < i < |a| ensures !(a[i - 1] == ':' && a[i] == ':') {
      assert a[i] in a;
    }
  }

  lemma ColonBetween(a: string, b: string)
    requires a != "" && (forall c :: c in a ==> c != ':') && b != "" && SingleColons(b)
    ensures SingleColons(a + ":" + b)
  {
    var s := a + ":" + b;
    assert a[|a| - 1] in a && a[0] in a;
    forall i | 0 < i < |s| ensures !(s[i - 1] == ':' && s[i] == ':') {
      if i < |a| { assert a[i] in a; }
      if i > |a| + 1 { assert s[i - 1] == b[i - |a| - 2] && s[i] == b[i - |a| - 1]; }
    }
  }

  lemma {:induction false} NoDoubleColon(s: string)
    requires forall i :: 0 < i < |s| ==> !(s[i - 1] == ':' && s[i] == ':')
    ensures DoubleColon(s) == None
  {
    if |s| >= 2 {
      NoDoubleColon(s[1..]);
    }
  }

  lemma {:induction false} FirstDoubleColon(p: string, r: string)
    requires p == "" || p[|p| - 1] != ':'
    requires forall i :: 0 < i < |p| ==> !(p[i - 1] == ':' && p[i] == ':')
    ensures DoubleColon(p + "::" + r) == Some(|p|)
  {
    var s := p + "::" + r;
    if p != "" {
      FirstDoubleColon(p[1..], r);
      assert s[1..] == p[1..] + "::" + r;
      assert s[0] == p[0];
      if |p| == 1 { assert s[0] != ':'; } else { assert s[1] == p[1] && !(p[0] == ':' && p[1] == ':'); }
    }
  }

  // ---- the printed form ----

  /** The text between the brackets, with the words start .. start + len written as "::". */
  function Printed(ip: seq<nat>, start: int, len: nat): string
    requires len > 0 ==> 0 <= start && start + len <= |ip|
  {
    if len == 0 then Join(ip) else Join(ip[..start]) + "::" + Join(ip[start + len..])
  }

  lemma GroupsOfJoin(ws: seq<nat>, dots: bool)
    requires AreWords(ws)
    ensures Groups(Join(ws), dots) == Some(ws)
  {
    if ws != [] {
      ReadJoin(ws, dots);
      JoinNotEmpty(ws);
    }
  }

  /** Expanding the printed form gives the eight words back, whichever run of zeros was left out. */
  lemma ExpandPrinted(ip: seq<nat>, start: int, len: nat)
    requires |ip| == 8 && AreWords(ip)
    requires len > 0 ==> 0 <= start && start + len <= 8 && forall i :: start <= i < start + len ==> ip[i] == 0
    ensures Expand(Printed(ip, start, len)) == Some(ip)
  {
    hide Join, Groups;
    if len == 0 {
      JoinColons(ip);
      NoDoubleColon(Join(ip));
      GroupsOfJoin(ip, true);
    } else {
      var left, right := ip[..start], ip[start + len..];
      var p, r := Join(left), Join(right);
      JoinColons(left);
      FirstDoubleColon(p, r);
      GroupsOfJoin(left, false);
      GroupsOfJoin(right, true);
      var s := Printed(ip, start, len);
      assert s[..|p|] == p && s[|p| + 2..] == r;
      assert left + seq(8 - |left| - |right|, _ => 0) + right == ip;
    }
  }
}
