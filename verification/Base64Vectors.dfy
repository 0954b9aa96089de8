/** The base64 alphabet and the encodings that src/test/str.cpp expects. */
module Base64Vectors {
  import opened Utf8
  import opened Base64

  /** Eight digits in a row. */
  function Digits(v: int): string
    requires 0 <= v <= 56
  {
    [Digit(v), Digit(v + 1), Digit(v + 2), Digit(v + 3), Digit(v + 4), Digit(v + 5), Digit(v + 6), Digit(v + 7)]
  }

  /** Table 1 of RFC 4648, eight digits a row. */
  lemma Alphabet()
    ensures Digits(0) == "ABCDEFGH" && Digits(8) == "IJKLMNOP" && Digits(16) == "QRSTUVWX" && Digits(24) == "YZabcdef"
    ensures Digits(32) == "ghijklmn" && Digits(40) == "opqrstuv" && Digits(48) == "wxyz0123" && Digits(56) == "456789+/"
  {
  }

  lemma NextGroup(a: Byte, b: Byte, c: Byte, d: seq<Byte>)
    ensures Encoded([a, b, c] + d) == Quad(a, b, c) + Encoded(d)
  {
    hide Quad;
    assert ([a, b, c] + d)[3..] == d;
  }

  lemma Groups()
    ensures Quad(0x70, 0x6C, 0x65) == "cGxl" && Quad(0x61, 0x73, 0x75) == "YXN1" && Quad(0x72, 0x65, 0x2E) == "cmUu"
    ensures Quad(0x6C, 0x65, 0x61) == "bGVh" && Quad(0x73, 0x75, 0x72) == "c3Vy" && Encoded([0x65, 0x2E]) == "ZS4="
    ensures Quad(0x65, 0x61, 0x73) == "ZWFz" && Quad(0x75, 0x72, 0x65) == "dXJl" && Encoded([0x2E]) == "Lg=="
  {
  }

  /** "pleasure.", "leasure." and "easure.": no padding, one and two signs of it. */
  lemma Vectors()
    ensures Encoded([0x70, 0x6C, 0x65] + ([0x61, 0x73, 0x75] + ([0x72, 0x65, 0x2E] + []))) == "cGxl" + ("YXN1" + ("cmUu" + ""))
    ensures Encoded([0x6C, 0x65, 0x61] + ([0x73, 0x75, 0x72] + [0x65, 0x2E])) == "bGVh" + ("c3Vy" + "ZS4=")
    ensures Encoded([0x65, 0x61, 0x73] + ([0x75, 0x72, 0x65] + [0x2E])) == "ZWFz" + ("dXJl" + "Lg==")
  {
    hide Quad;
    Groups();
    assert Encoded([]) == "";
    hide Encoded;
    NextGroup(0x72, 0x65, 0x2E, []);
    NextGroup(0x61, 0x73, 0x75, [0x72, 0x65, 0x2E] + []);
    NextGroup(0x70, 0x6C, 0x65, [0x61, 0x73, 0x75] + ([0x72, 0x65, 0x2E] + []));
    NextGroup(0x73, 0x75, 0x72, [0x65, 0x2E]);
    NextGroup(0x6C, 0x65, 0x61, [0x73, 0x75, 0x72] + [0x65, 0x2E]);
    NextGroup(0x75, 0x72, 0x65, [0x2E]);
    NextGroup(0x65, 0x61, 0x73, [0x75, 0x72, 0x65] + [0x2E]);
  }
}
