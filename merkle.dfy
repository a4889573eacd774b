/**
 * `MerkleValidator.CalculateMerkleRoot` of blockchain/StateValidator.cs: the list of
 * transaction strings is reduced level by level, each new entry being the hash of two
 * neighbouring entries concatenated (or of a trailing odd entry alone), until at most
 * one entry is left.
 *
 * Hashing is SHA-256 over the UTF-8 bytes of the string, rendered as uppercase hex.
 * SHA-256 itself is a parameter; the UTF-8 encoding and the hex rendering are written
 * out.
 */
module Merkle {
  import opened Wrappers

  newtype byte = x: int | 0 <= x < 256

  /** The digest function, SHA-256 in the source. */
  type Digest = seq<byte> -> seq<byte>

  // ---------------------------------------------------------------------------
  // Encoding.UTF8.GetBytes
  // ---------------------------------------------------------------------------

  /** The UTF-8 bytes of one Unicode scalar value. */
  function EncodeChar(c: char): (r: seq<byte>)
    ensures 1 <= |r| <= 4
  {
    var n := c as int;
    if n < 0x80 then [n as byte]
    else if n < 0x800 then [(0xC0 + n / 64) as byte, (0x80 + n % 64) as byte]
    else if n < 0x10000 then
      [(0xE0 + n / 4096) as byte, (0x80 + n / 64 % 64) as byte, (0x80 + n % 64) as byte]
    else
      [(0xF0 + n / 262144) as byte, (0x80 + n / 4096 % 64) as byte,
       (0x80 + n / 64 % 64) as byte, (0x80 + n % 64) as byte]
  }

  function Utf8(s: string): seq<byte>
  {
    if s == [] then [] else EncodeChar(s[0]) + Utf8(s[1..])
  }

  /** How many bytes the sequence starting with lead byte `b` occupies. */
  function SequenceLength(b: byte): nat
  {
    if b < 0x80 then 1 else if b < 0xE0 then 2 else if b < 0xF0 then 3 else 4
  }

  /** The code point carried by one encoded sequence. */
  function CodePoint(bs: seq<byte>): int
    requires 1 <= |bs| <= 4
  {
    if |bs| == 1 then bs[0] as int
    else if |bs| == 2 then (bs[0] as int - 0xC0) * 64 + (bs[1] as int - 0x80)
    else if |bs| == 3 then
      (bs[0] as int - 0xE0) * 4096 + (bs[1] as int - 0x80) * 64 + (bs[2] as int - 0x80)
    else
      (bs[0] as int - 0xF0) * 262144 + (bs[1] as int - 0x80) * 4096
        + (bs[2] as int - 0x80) * 64 + (bs[3] as int - 0x80)
  }

  predicate IsScalar(n: int)
  {
    0 <= n < 0xD800 || 0xE000 <= n < 0x110000
  }

  /** Decoding UTF-8, failing on a truncated sequence or a value that is not a scalar. */
  function DecodeUtf8(bs: seq<byte>): Option<string>
    decreases |bs|
  {
    if bs == [] then Some([])
    else
      var n := SequenceLength(bs[0]);
      if |bs| < n || !IsScalar(CodePoint(bs[..n])) then None
      else
        match DecodeUtf8(bs[n..])
        case Some(rest) => Some([CodePoint(bs[..n]) as char] + rest)
        case None => None
  }

  /** One character's bytes announce their own length and carry its code point. */
  lemma EncodeCharDecodes(c: char)
    ensures SequenceLength(EncodeChar(c)[0]) == |EncodeChar(c)|
    ensures CodePoint(EncodeChar(c)) == c as int
  {
    var n := c as int;
    var e := EncodeChar(c);
    if n < 0x80 {
    } else if n < 0x800 {
      Radix64Digits(n);
      assert e[0] as int == 0xC0 + n / 64 && e[1] as int == 0x80 + n % 64;
    } else if n < 0x10000 {
      Radix64Digits(n);
      Radix64Digits(n / 64);
      assert e[0] as int == 0xE0 + n / 4096 && e[1] as int == 0x80 + n / 64 % 64 && e[2] as int == 0x80 + n % 64;
    } else {
      Radix64Digits(n);
      Radix64Digits(n / 64);
      Radix64Digits(n / 4096);
      assert e[0] as int == 0xF0 + n / 262144 && e[1] as int == 0x80 + n / 4096 % 64;
      assert e[2] as int == 0x80 + n / 64 % 64 && e[3] as int == 0x80 + n % 64;
    }
  }

  /** Splitting off the low six bits. */
  lemma Radix64Digits(n: int)
    requires n >= 0
    ensures n == n / 64 * 64 + n % 64 && 0 <= n % 64 < 64
    ensures n / 64 / 64 == n / 4096 && n / 4096 / 64 == n / 262144
  {
  }

  /** UTF-8 encoding loses nothing: decoding gives the string back. */
  lemma {:induction false} DecodeEncode(s: string)
    ensures DecodeUtf8(Utf8(s)) == Some(s)
  {
    if s != [] {
      var e := EncodeChar(s[0]);
      var rest := Utf8(s[1..]);
      EncodeCharDecodes(s[0]);
      DecodeEncode(s[1..]);
      var bs := e + rest;
      assert bs[0] == e[0] && bs[..|e|] == e && bs[|e|..] == rest;
      assert IsScalar(s[0] as int);
      assert [s[0]] + s[1..] == s;
    }
  }

  /** Text made of ASCII characters encodes one byte per character. */
  lemma {:induction false} Utf8Ascii(s: string)
    requires forall i | 0 <= i < |s| :: s[i] as int < 0x80
    ensures |Utf8(s)| == |s| && forall i | 0 <= i < |s| :: Utf8(s)[i] as int == s[i] as int
  {
    if s != [] {
      Utf8Ascii(s[1..]);
    }
  }

  // ---------------------------------------------------------------------------
  // BitConverter.ToString(hash).Replace("-", "")
  // ---------------------------------------------------------------------------

  const HexDigits: string := "0123456789ABCDEF"

  function HexByte(b: byte): string
  {
    [HexDigits[b / 16], HexDigits[b % 16]]
  }

  /** `BitConverter.ToString`: two digits per byte, separated by dashes. */
  function DashedHex(bs: seq<byte>): string
  {
    if bs == [] then ""
    else if |bs| == 1 then HexByte(bs[0])
    else HexByte(bs[0]) + "-" + DashedHex(bs[1..])
  }

  /** `Replace("-", "")`. */
  function WithoutDashes(s: string): string
  {
    if s == [] then "" else (if s[0] == '-' then "" else [s[0]]) + WithoutDashes(s[1..])
  }

  /** Two uppercase digits per byte, nothing between them. */
  function Hex(bs: seq<byte>): (r: string)
    ensures |r| == 2 * |bs|
  {
    if bs == [] then "" else HexByte(bs[0]) + Hex(bs[1..])
  }

  /** Hex text holds digits only. */
  lemma {:induction false} HexDigitsOnly(bs: seq<byte>)
    ensures forall i | 0 <= i < |Hex(bs)| :: IsHexDigit(Hex(bs)[i])
  {
    if bs != [] {
      HexDigitsOnly(bs[1..]);
      var h := Hex(bs);
      assert forall i | 2 <= i < |h| :: h[i] == Hex(bs[1..])[i - 2];
    }
  }

  lemma WithoutDashesAppend(a: string, b: string)
    ensures WithoutDashes(a + b) == WithoutDashes(a) + WithoutDashes(b)
  {
    if a != [] {
      assert (a + b)[1..] == a[1..] + b;
    } else {
      assert a + b == b;
    }
  }

  /** Each of the sixteen digits is a hex digit with its own value. */
  lemma HexDigitValues(k: int)
    requires 0 <= k < 16
    ensures IsHexDigit(HexDigits[k]) && DigitValue(HexDigits[k]) == k
  {
  }

  lemma HexByteUndashed(b: byte)
    ensures WithoutDashes(HexByte(b)) == HexByte(b)
  {
    HexDigitValues(b as int / 16);
    HexDigitValues(b as int % 16);
    var h := HexByte(b);
    assert h[0] != '-' && h[1] != '-';
    assert h[1..][1..] == [];
    assert WithoutDashes(h[1..]) == h[1..];
    assert [h[0]] + h[1..] == h;
  }

  /** Removing the dashes from `BitConverter.ToString` leaves the plain hex digits. */
  lemma {:induction false} DashedHexUndashed(bs: seq<byte>)
    ensures WithoutDashes(DashedHex(bs)) == Hex(bs)
  {
    if bs != [] {
      var h := HexByte(bs[0]);
      HexByteUndashed(bs[0]);
      if |bs| == 1 {
        assert Hex(bs) == h + Hex([]);
        assert h + "" == h;
      } else {
        DashedHexUndashed(bs[1..]);
        WithoutDashesAppend(h + "-", DashedHex(bs[1..]));
        WithoutDashesAppend(h, "-");
      }
    }
  }

  predicate IsHexDigit(c: char)
  {
    '0' <= c <= '9' || 'A' <= c <= 'F'
  }

  function DigitValue(c: char): int
  {
    if '0' <= c <= '9' then c as int - '0' as int
    else if 'A' <= c <= 'F' then c as int - 'A' as int + 10
    else 0
  }

  /** Reading hex digits back as bytes. */
  function Unhex(s: string): seq<byte>
    requires |s| % 2 == 0
    requires forall i | 0 <= i < |s| :: IsHexDigit(s[i])
  {
    if s == [] then []
    else
      var v := DigitValue(s[0]) * 16 + DigitValue(s[1]);
      [v as byte] + Unhex(s[2..])
  }

  /** The hex rendering loses nothing. */
  lemma {:induction false} UnhexHex(bs: seq<byte>)
    ensures var s := Hex(bs); (forall i | 0 <= i < |s| :: IsHexDigit(s[i])) && Unhex(s) == bs
  {
    HexDigitsOnly(bs);
    if bs != [] {
      var b := bs[0];
      assert DigitValue(HexDigits[b / 16]) == b as int / 16;
      assert DigitValue(HexDigits[b % 16]) == b as int % 16;
      UnhexHex(bs[1..]);
      assert Hex(bs)[2..] == Hex(bs[1..]);
    }
  }

  // ---------------------------------------------------------------------------
  // CalculateMerkleRoot
  // ---------------------------------------------------------------------------

  /**
   * One entry of a new level: the digest of `combined` in hex. The source renders it
   * with dashes and then removes them, which gives the same string (DashedHexUndashed).
   */
  function HashHex(sha: Digest, combined: string): string
  {
    Hex(sha(Utf8(combined)))
  }

  /** `HashHex` as the function the levels are built with. */
  function EntryHash(sha: Digest): string -> string
  {
    s => HashHex(sha, s)
  }

  /** Entry `i` and its right neighbour concatenated, or entry `i` alone at the end. */
  function Combined(tree: seq<string>, i: nat): string
    requires i < |tree|
  {
    if i + 1 < |tree| then tree[i] + tree[i + 1] else tree[i]
  }

  /** The first `m` entries of the level above `tree`, hashing with `h`. */
  function Level(h: string -> string, tree: seq<string>, m: nat): (r: seq<string>)
    requires 2 * m <= |tree| + 1
    ensures |r| == m
  {
    if m == 0 then [] else Level(h, tree, m - 1) + [h(Combined(tree, 2 * (m - 1)))]
  }

  /** The level above `tree`. */
  function NextLevel(h: string -> string, tree: seq<string>): seq<string>
  {
    Level(h, tree, (|tree| + 1) / 2)
  }

  /** The root: empty for no transactions, the only one unchanged, otherwise the root of the level above. */
  function MerkleRoot(h: string -> string, tree: seq<string>): string
    decreases |tree|
  {
    if tree == [] then ""
    else if |tree| == 1 then tree[0]
    else MerkleRoot(h, NextLevel(h, tree))
  }

  /** Entry `i` of a level is the hash of the pair it covers. */
  lemma {:induction false} LevelEntries(h: string -> string, tree: seq<string>, m: nat)
    requires 2 * m <= |tree| + 1
    ensures forall i | 0 <= i < m :: Level(h, tree, m)[i] == h(Combined(tree, 2 * i))
  {
    if m > 0 {
      LevelEntries(h, tree, m - 1);
    }
  }

  /** A level of `n > 1` entries becomes one of `ceil(n / 2)` entries, each the hash of its pair. */
  lemma NextLevelShape(h: string -> string, tree: seq<string>)
    requires |tree| > 1
    ensures |NextLevel(h, tree)| == (|tree| + 1) / 2 < |tree|
    ensures forall i | 0 <= i < |NextLevel(h, tree)| :: NextLevel(h, tree)[i] == h(Combined(tree, 2 * i))
  {
    LevelEntries(h, tree, (|tree| + 1) / 2);
  }

  /** With a 32-byte digest, the root of two or more transactions is 64 uppercase hex digits. */
  lemma {:induction false} MerkleRootIsDigest(sha: Digest, tree: seq<string>)
    requires forall m :: |sha(m)| == 32
    requires |tree| > 1
    ensures |MerkleRoot(EntryHash(sha), tree)| == 64
    ensures forall i | 0 <= i < 64 :: IsHexDigit(MerkleRoot(EntryHash(sha), tree)[i])
    decreases |tree|
  {
    var h := EntryHash(sha);
    var next := NextLevel(h, tree);
    NextLevelShape(h, tree);
    if |next| > 1 {
      MerkleRootIsDigest(sha, next);
    } else {
      var bs := sha(Utf8(Combined(tree, 0)));
      assert MerkleRoot(h, tree) == next[0] == Hex(bs);
      HexDigitsOnly(bs);
    }
  }

  /** An odd entry is hashed alone, not paired with itself: three transactions. */
  lemma MerkleRootOfThree(h: string -> string, a: string, b: string, c: string)
    ensures MerkleRoot(h, [a, b, c]) == h(h(a + b) + h(c))
  {
    NextLevelShape(h, [a, b, c]);
    var next := NextLevel(h, [a, b, c]);
    assert next == [h(a + b), h(c)];
    NextLevelShape(h, next);
    assert MerkleRoot(h, [a, b, c]) == MerkleRoot(h, next) == NextLevel(h, next)[0];
  }

  /** `CalculateMerkleRoot`. */
  method CalculateMerkleRoot(sha: Digest, transactions: seq<string>) returns (root: string)
    ensures root == MerkleRoot(EntryHash(sha), transactions)
  {
    var tree := transactions;
    while |tree| > 1
      invariant MerkleRoot(EntryHash(sha), tree) == MerkleRoot(EntryHash(sha), transactions)
      invariant tree == [] <==> transactions == []
      decreases |tree|
    {
      var newLevel := BuildLevel(sha, tree);
      tree := newLevel;
    }
    root := if tree == [] then "" else tree[0];
  }

  /** The inner loop: one hash per pair, stepping by two. */
  method BuildLevel(sha: Digest, tree: seq<string>) returns (newLevel: seq<string>)
    requires |tree| > 1
    ensures newLevel == NextLevel(EntryHash(sha), tree)
  {
    newLevel := [];
    var i, k := 0, 0;
    while i < |tree|
      invariant i == 2 * k && i <= |tree| + 1
      invariant newLevel == Level(EntryHash(sha), tree, k)
    {
      var combined := Combined(tree, i);
      var hash := sha(Utf8(combined));
      DashedHexUndashed(hash);
      newLevel := newLevel + [WithoutDashes(DashedHex(hash))];
      i, k := i + 2, k + 1;
    }
    assert k == (|tree| + 1) / 2;
  }
}
