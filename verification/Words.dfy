/** Two bitwise identities. */
module WordIdentities {
  lemma ChForms(x: bv32, y: bv32, z: bv32)
    ensures z ^ (x & (y ^ z)) == (x & y) ^ (!x & z)
  {
  }

  lemma MajForms(x: bv32, y: bv32, z: bv32)
    ensures ((x | y) & z) | (x & y) == (x & y) ^ (x & z) ^ (y & z)
  {
  }
}

/** 32-bit words: the functions of FIPS 180-4 section 4.1.2 and the forms in which
    src/base/hash_libtomcrypt.cpp writes them. */
module Words {
  import WordIdentities

  type Word = bv32
  type Octet = bv8

  /** Addition modulo 2^32. */
  function Add(x: Word, y: Word): Word { x + y }

  function RotR(x: Word, n: Word): Word { (x >> (n & 31)) | (x << (32 - (n & 31))) }

  function Ch(x: Word, y: Word, z: Word): Word { (x & y) ^ (!x & z) }

  function Maj(x: Word, y: Word, z: Word): Word { (x & y) ^ (x & z) ^ (y & z) }

  function BigSigma0(x: Word): Word { RotR(x, 2) ^ RotR(x, 13) ^ RotR(x, 22) }

  function BigSigma1(x: Word): Word { RotR(x, 6) ^ RotR(x, 11) ^ RotR(x, 25) }

  function SmallSigma0(x: Word): Word { RotR(x, 7) ^ RotR(x, 18) ^ (x >> 3) }

  function SmallSigma1(x: Word): Word { RotR(x, 17) ^ RotR(x, 19) ^ (x >> 10) }

  // The two functions the source computes differently.

  function SrcCh(x: Word, y: Word, z: Word): Word { z ^ (x & (y ^ z)) }

  function SrcMaj(x: Word, y: Word, z: Word): Word { ((x | y) & z) | (x & y) }

  lemma ChAgrees(x: Word, y: Word, z: Word)
    ensures SrcCh(x, y, z) == Ch(x, y, z)
  {
    WordIdentities.ChForms(x, y, z);
  }

  lemma MajAgrees(x: Word, y: Word, z: Word)
    ensures SrcMaj(x, y, z) == Maj(x, y, z)
  {
    WordIdentities.MajForms(x, y, z);
  }

  lemma AddCommutes(x: Word, y: Word)
    ensures Add(x, y) == Add(y, x)
  {
  }
}
