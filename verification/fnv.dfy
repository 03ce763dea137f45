/**
 * The default behaviours of the table (hashtable.c:31-80): the FNV-1a hash
 * over a byte buffer, the same hash over a NUL-terminated string, and the
 * memcmp/memcpy based key comparison and key copy.
 *
 * Both FNV widths are modelled: the 32-bit one (built when pointers are
 * 32 bits wide) and the 64-bit one. `size_t` arithmetic wraps, which the
 * bit-vector types bv32 and bv64 do as well.
 */
module Fnv {

  const Offset32: bv32 := 0x811C9DC5
  const Prime32: bv32 := 0x01000193
  const Offset64: bv64 := 0xcbf29ce484222325
  const Prime64: bv64 := 0x100000001b3

  /** One FNV-1a round: XOR the byte into the hash, then multiply by the prime. */
  function Mix32(h: bv32, x: bv32): bv32 { (h ^ x) * Prime32 }

  function Mix64(h: bv64, x: bv64): bv64 { (h ^ x) * Prime64 }

  /** Folds the bytes of `s` into the running hash `h`, one round per byte. */
  function Fold32(h: bv32, s: seq<bv8>): bv32
    decreases |s|
  {
    if s == [] then h else Fold32(Mix32(h, s[0] as bv32), s[1..])
  }

  function Fold64(h: bv64, s: seq<bv8>): bv64
    decreases |s|
  {
    if s == [] then h else Fold64(Mix64(h, s[0] as bv64), s[1..])
  }

  /** FNV-1a of a whole buffer: the fold started at the offset basis. */
  function Fnv32(s: seq<bv8>): bv32 { Fold32(Offset32, s) }

  function Fnv64(s: seq<bv8>): bv64 { Fold64(Offset64, s) }

  /** Appending one byte applies exactly one more round to the hash of the prefix. */
  lemma {:induction false} Fold32Snoc(h: bv32, s: seq<bv8>, b: bv8)
    ensures Fold32(h, s + [b]) == Mix32(Fold32(h, s), b as bv32)
    decreases |s|
  {
    if s != [] {
      assert (s + [b])[1..] == s[1..] + [b];
      Fold32Snoc(Mix32(h, s[0] as bv32), s[1..], b);
    }
  }

  lemma {:induction false} Fold64Snoc(h: bv64, s: seq<bv8>, b: bv8)
    ensures Fold64(h, s + [b]) == Mix64(Fold64(h, s), b as bv64)
    decreases |s|
  {
    if s != [] {
      assert (s + [b])[1..] == s[1..] + [b];
      Fold64Snoc(Mix64(h, s[0] as bv64), s[1..], b);
    }
  }

  /** hashtable_hash on a 32-bit build: the empty buffer hashes to the offset basis. */
  method Hash32(key: seq<bv8>) returns (hash: bv32)
    ensures hash == Fnv32(key)
    ensures key == [] ==> hash == Offset32
  {
    hash := Offset32;
    var i := 0;
    while i < |key|
      invariant 0 <= i <= |key|
      invariant Fold32(hash, key[i..]) == Fnv32(key)
    {
      assert key[i..][1..] == key[i + 1..];
      hash := Mix32(hash, key[i] as bv32);
      i := i + 1;
    }
  }

  /** hashtable_hash on a 64-bit build. */
  method Hash64(key: seq<bv8>) returns (hash: bv64)
    ensures hash == Fnv64(key)
    ensures key == [] ==> hash == Offset64
  {
    hash := Offset64;
    var i := 0;
    while i < |key|
      invariant 0 <= i <= |key|
      invariant Fold64(hash, key[i..]) == Fnv64(key)
    {
      assert key[i..][1..] == key[i + 1..];
      hash := Mix64(hash, key[i] as bv64);
      i := i + 1;
    }
  }

  // ---------------------------------------------------------------------------
  // hashtable_str_hash: the string is walked through a plain `char`, which is
  // signed on the usual targets, so `hash ^= *c` XORs the byte after sign
  // extension to the width of size_t.

  /** The value of a byte read as a signed `char` and converted to size_t. */
  function SignExtend32(b: bv8): bv32
  {
    if b < 0x80 then b as bv32 else b as bv32 | 0xFFFF_FF00
  }

  function SignExtend64(b: bv8): bv64
  {
    if b < 0x80 then b as bv64 else b as bv64 | 0xFFFF_FFFF_FFFF_FF00
  }

  /** The bytes of a C string before its terminating NUL. */
  function CString(s: seq<bv8>): (r: seq<bv8>)
    ensures 0 !in r
    ensures |r| <= |s| && r == s[..|r|]
    ensures |r| < |s| ==> s[|r|] == 0
  {
    if s == [] || s[0] == 0 then [] else [s[0]] + CString(s[1..])
  }

  /** The fold of hashtable_str_hash as written: signed bytes, stopping at NUL. */
  function StrFold32(h: bv32, s: seq<bv8>): bv32
    decreases |s|
  {
    if s == [] || s[0] == 0 then h else StrFold32(Mix32(h, SignExtend32(s[0])), s[1..])
  }

  function StrFold64(h: bv64, s: seq<bv8>): bv64
    decreases |s|
  {
    if s == [] || s[0] == 0 then h else StrFold64(Mix64(h, SignExtend64(s[0])), s[1..])
  }

  /** hashtable_str_hash on a 32-bit build, over a NUL-terminated string. */
  method StrHash32(key: seq<bv8>) returns (hash: bv32)
    requires 0 in key
    ensures hash == StrFold32(Offset32, key)
  {
    hash := Offset32;
    var i := 0;
    while key[i] != 0
      invariant 0 <= i < |key|
      invariant 0 in key[i..]
      invariant StrFold32(hash, key[i..]) == StrFold32(Offset32, key)
      decreases |key| - i
    {
      assert key[i..][1..] == key[i + 1..];
      hash := Mix32(hash, SignExtend32(key[i]));
      i := i + 1;
    }
  }

  /** hashtable_str_hash on a 64-bit build, over a NUL-terminated string. */
  method StrHash64(key: seq<bv8>) returns (hash: bv64)
    requires 0 in key
    ensures hash == StrFold64(Offset64, key)
  {
    hash := Offset64;
    var i := 0;
    while key[i] != 0
      invariant 0 <= i < |key|
      invariant 0 in key[i..]
      invariant StrFold64(hash, key[i..]) == StrFold64(Offset64, key)
      decreases |key| - i
    {
      assert key[i..][1..] == key[i + 1..];
      hash := Mix64(hash, SignExtend64(key[i]));
      i := i + 1;
    }
  }

  /** Every byte of the string before its NUL is below 0x80 (plain ASCII). */
  predicate Ascii(s: seq<bv8>)
  {
    forall i :: 0 <= i < |CString(s)| ==> CString(s)[i] < 0x80
  }

  /**
   * The string hash agrees with the buffer hash over the bytes before the
   * NUL, as the header promises, as long as no byte has its top bit set.
   */
  lemma {:induction false} StrHash32MatchesHash(h: bv32, s: seq<bv8>)
    requires Ascii(s)
    ensures StrFold32(h, s) == Fold32(h, CString(s))
    decreases |s|
  {
    if s != [] && s[0] != 0 {
      assert CString(s) == [s[0]] + CString(s[1..]);
      assert Ascii(s[1..]) by {
        forall i | 0 <= i < |CString(s[1..])| ensures CString(s[1..])[i] < 0x80 {
          assert CString(s[1..])[i] == CString(s)[i + 1];
        }
      }
      assert CString(s)[0] < 0x80;
      StrHash32MatchesHash(Mix32(h, SignExtend32(s[0])), s[1..]);
    }
  }

  lemma {:induction false} StrHash64MatchesHash(h: bv64, s: seq<bv8>)
    requires Ascii(s)
    ensures StrFold64(h, s) == Fold64(h, CString(s))
    decreases |s|
  {
    if s != [] && s[0] != 0 {
      assert CString(s) == [s[0]] + CString(s[1..]);
      assert Ascii(s[1..]) by {
        forall i | 0 <= i < |CString(s[1..])| ensures CString(s[1..])[i] < 0x80 {
          assert CString(s[1..])[i] == CString(s)[i + 1];
        }
      }
      assert CString(s)[0] < 0x80;
      StrHash64MatchesHash(Mix64(h, SignExtend64(s[0])), s[1..]);
    }
  }

  /**
   * With a byte of 0x80 or above the two hashes part: the one-byte string
   * "\x80" does not hash like the one-byte buffer {0x80}.
   */
  lemma StrHash64DiffersOnHighByte()
    ensures StrFold64(Offset64, [0x80, 0]) != Fnv64([0x80])
  {
    assert StrFold64(Offset64, [0x80, 0]) == Mix64(Offset64, 0xFFFF_FFFF_FFFF_FF80);
    assert Fnv64([0x80]) == Mix64(Offset64, 0x80);
  }

  /** The corrected string fold: the byte read as `unsigned char`, as hashtable_hash does. */
  function UnsignedStrFold64(h: bv64, s: seq<bv8>): bv64
    decreases |s|
  {
    if s == [] || s[0] == 0 then h else UnsignedStrFold64(Mix64(h, s[0] as bv64), s[1..])
  }

  /** With unsigned bytes the string hash equals the buffer hash of the string for every string. */
  lemma {:induction false} UnsignedStrHashMatchesHash(h: bv64, s: seq<bv8>)
    ensures UnsignedStrFold64(h, s) == Fold64(h, CString(s))
    decreases |s|
  {
    if s != [] && s[0] != 0 {
      assert CString(s) == [s[0]] + CString(s[1..]);
      UnsignedStrHashMatchesHash(Mix64(h, s[0] as bv64), s[1..]);
    }
  }

  // ---------------------------------------------------------------------------
  // hashtable_compare_keys and hashtable_copy_key.

  /**
   * memcmp over two key buffers: zero when they agree, otherwise the
   * difference of the first bytes that differ, read as unsigned values.
   */
  function CompareBytes(a: seq<bv8>, b: seq<bv8>): (r: int)
    ensures -255 <= r <= 255
  {
    if a == [] || b == [] then 0
    else if a[0] != b[0] then a[0] as int - b[0] as int
    else CompareBytes(a[1..], b[1..])
  }

  /** For keys of one fixed size, memcmp reports equality exactly when the bytes are equal. */
  lemma {:induction false} CompareBytesZeroIff(a: seq<bv8>, b: seq<bv8>)
    requires |a| == |b|
    ensures CompareBytes(a, b) == 0 <==> a == b
    decreases |a|
  {
    if a != [] {
      CompareBytesZeroIff(a[1..], b[1..]);
      if a[0] == b[0] && a[1..] == b[1..] {
        assert a == [a[0]] + a[1..] && b == [b[0]] + b[1..];
      }
    }
  }

  /** memcmp is antisymmetric in sign, so key equality under it is symmetric. */
  lemma {:induction false} CompareBytesSwap(a: seq<bv8>, b: seq<bv8>)
    ensures CompareBytes(b, a) == -CompareBytes(a, b)
    decreases |a|
  {
    if a != [] && b != [] && a[0] == b[0] {
      CompareBytesSwap(a[1..], b[1..]);
    }
  }

  /** hashtable_copy_key: memcpy, which always succeeds (result 0). */
  method CopyKey(src: seq<bv8>) returns (dst: seq<bv8>, err: int)
    ensures err == 0 && dst == src
  {
    dst := src;
    err := 0;
  }
}
