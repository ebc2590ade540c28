/** The base64 encoder used for PowerShell command arguments, against section 4 of RFC 4648. */
module Base64 {
  import opened Wrappers
  import opened Wire

  const UPPER: string := "ABCDEFGHIJKLMNOPQRSTUVWXYZ"
  const LOWER: string := "abcdefghijklmnopqrstuvwxyz"
  const NUMERALS: string := "0123456789"
  const TABLE: string := UPPER + LOWER + NUMERALS + "+/"

  type Sextet = n: nat | n < 64

  /** The table of section 4 of RFC 4648, by ranges. */
  function Symbol(v: Sextet): char {
    if v < 26 then 'A' + (v as char)
    else if v < 52 then 'a' + ((v - 26) as char)
    else if v < 62 then '0' + ((v - 52) as char)
    else if v == 62 then '+'
    else '/'
  }

  function SymbolValue(c: char): Option<Sextet> {
    if 'A' <= c <= 'Z' then Some((c - 'A') as nat)
    else if 'a' <= c <= 'z' then Some((c - 'a') as nat + 26)
    else if '0' <= c <= '9' then Some((c - '0') as nat + 52)
    else if c == '+' then Some(62)
    else if c == '/' then Some(63)
    else None
  }

  lemma TableIsTheAlphabet(v: Sextet)
    ensures |TABLE| == 64 && TABLE[v] == Symbol(v) && SymbolValue(Symbol(v)) == Some(v)
  {
    hide UPPER, LOWER, NUMERALS;
    UpperCase(v);
    LowerCase(v);
    Numeral(v);
    SymbolsAreTold(v);
    hide SymbolValue;
  }

  lemma SymbolsAreTold(v: Sextet)
    ensures SymbolValue(Symbol(v)) == Some(v)
  {
  }

  lemma UpperCase(v: nat)
    ensures |UPPER| == 26 && (v < 26 ==> UPPER[v] == 'A' + (v as char))
  {
  }

  lemma LowerCase(v: nat)
    ensures |LOWER| == 26 && (26 <= v < 52 ==> LOWER[v - 26] == 'a' + ((v - 26) as char))
  {
  }

  lemma Numeral(v: nat)
    ensures |NUMERALS| == 10 && (52 <= v < 62 ==> NUMERALS[v - 52] == '0' + ((v - 52) as char))
  {
  }

  // Groups of three bytes and four symbols

  function Chunk(a: byte, b: byte, c: byte): (n: nat)
    ensures n < 0x100_0000
  {
    a as nat * 65536 + b as nat * 256 + c as nat
  }

  /** The sextet of a chunk that starts `shift` bits from its end (`shift` as a power of two). */
  function SextetAt(chunk: nat, shift: nat): Sextet
    requires shift > 0
  {
    chunk / shift % 64
  }

  function Group(a: byte, b: byte, c: byte): string {
    var n := Chunk(a, b, c);
    [Symbol(SextetAt(n, 262144)), Symbol(SextetAt(n, 4096)), Symbol(SextetAt(n, 64)), Symbol(SextetAt(n, 1))]
  }

  /** The encoding, three bytes at a time; a short last group is padded. */
  function Encode(bytes: Bytes): string {
    if |bytes| == 0 then ""
    else if |bytes| == 1 then Group(bytes[0], 0, 0)[..2] + "=="
    else if |bytes| == 2 then Group(bytes[0], bytes[1], 0)[..3] + "="
    else Group(bytes[0], bytes[1], bytes[2]) + Encode(bytes[3..])
  }

  lemma EncodeThree(bytes: Bytes, k: nat)
    requires k % 3 == 0 && k <= |bytes|
    ensures Encode(bytes) == Encode(bytes[..k]) + Encode(bytes[k..])
  {
    hide Encode;
    assert k == 3 * (k / 3);
    EncodeGroups(bytes, k / 3, k);
  }

  lemma {:induction false} EncodeGroups(bytes: Bytes, groups: nat, k: nat)
    requires k == 3 * groups && k <= |bytes|
    ensures Encode(bytes) == Encode(bytes[..k]) + Encode(bytes[k..])
    decreases groups
  {
    hide Encode;
    if groups == 0 {
      NothingEncodes(bytes);
      assert bytes[0..] == bytes && "" + Encode(bytes) == Encode(bytes);
    } else {
      var group := Group(bytes[0], bytes[1], bytes[2]);
      assert bytes[..k][3..] == bytes[3..][..k - 3] && bytes[3..][k - 3..] == bytes[k..];
      FirstGroup(bytes);
      FirstGroup(bytes[..k]);
      EncodeGroups(bytes[3..], groups - 1, k - 3);
      GroupThen(group, Encode(bytes[3..][..k - 3]), Encode(bytes[k..]));
    }
  }

  lemma FirstGroup(bytes: Bytes)
    requires |bytes| >= 3
    ensures Encode(bytes) == Group(bytes[0], bytes[1], bytes[2]) + Encode(bytes[3..])
  {
    hide Group;
  }

  lemma GroupThen(group: string, a: string, b: string)
    ensures group + (a + b) == group + a + b
  {
  }

  /** The loop of `base64_encode`, with its table look-ups. */
  method Base64Encode(bytes: Bytes) returns (out: string)
    ensures out == Encode(bytes)
  {
    hide Symbol, SextetAt, Chunk, Encode, Group, TABLE;
    out := "";
    var i := 0;
    NothingEncodes(bytes);
    while i + 3 <= |bytes|
      invariant 0 <= i <= |bytes| && i % 3 == 0
      invariant out == Encode(bytes[..i])
    {
      var chunk := Chunk(bytes[i], bytes[i + 1], bytes[i + 2]);
      LookUp(SextetAt(chunk, 262144));
      LookUp(SextetAt(chunk, 4096));
      LookUp(SextetAt(chunk, 64));
      LookUp(SextetAt(chunk, 1));
      OneMoreGroup(bytes, i);
      out := out + [TABLE[SextetAt(chunk, 262144)], TABLE[SextetAt(chunk, 4096)],
                    TABLE[SextetAt(chunk, 64)], TABLE[SextetAt(chunk, 1)]];
      i := i + 3;
    }
    LastGroup(bytes, i);
    var left := |bytes| - i;
    if left == 1 {
      var chunk := Chunk(bytes[i], 0, 0);
      LookUp(SextetAt(chunk, 262144));
      LookUp(SextetAt(chunk, 4096));
      out := out + [TABLE[SextetAt(chunk, 262144)], TABLE[SextetAt(chunk, 4096)], '=', '='];
    } else if left == 2 {
      var chunk := Chunk(bytes[i], bytes[i + 1], 0);
      LookUp(SextetAt(chunk, 262144));
      LookUp(SextetAt(chunk, 4096));
      LookUp(SextetAt(chunk, 64));
      out := out + [TABLE[SextetAt(chunk, 262144)], TABLE[SextetAt(chunk, 4096)], TABLE[SextetAt(chunk, 64)], '='];
    }
  }

  lemma NothingEncodes(bytes: Bytes)
    ensures Encode(bytes[..0]) == ""
  {
  }

  function SymbolAt(chunk: nat, shift: nat): char
    requires shift > 0
  {
    Symbol(SextetAt(chunk, shift))
  }

  /** What the branches after the loop have to add. */
  lemma LastGroup(bytes: Bytes, i: nat)
    requires i % 3 == 0 && i <= |bytes| < i + 3
    ensures |bytes| == i ==> Encode(bytes) == Encode(bytes[..i])
    ensures |bytes| == i + 1 ==>
      && var n := Chunk(bytes[i], 0, 0);
      && Encode(bytes) == Encode(bytes[..i]) + [SymbolAt(n, 262144), SymbolAt(n, 4096), '=', '=']
    ensures |bytes| == i + 2 ==>
      && var n := Chunk(bytes[i], bytes[i + 1], 0);
      && Encode(bytes) == Encode(bytes[..i]) + [SymbolAt(n, 262144), SymbolAt(n, 4096), SymbolAt(n, 64), '=']
  {
    hide Encode, SymbolAt, Chunk;
    EncodeThree(bytes, i);
    if |bytes| == i {
      assert bytes[i..] == [];
      NothingEncodes(bytes[i..]);
      assert bytes[i..][..0] == bytes[i..];
    } else if |bytes| == i + 1 {
      assert bytes[i..] == [bytes[i]];
      OneByte(bytes[i]);
    } else {
      assert bytes[i..] == [bytes[i], bytes[i + 1]];
      TwoBytes(bytes[i], bytes[i + 1]);
    }
  }

  lemma OneByte(b: byte)
    ensures var n := Chunk(b, 0, 0); Encode([b]) == [SymbolAt(n, 262144), SymbolAt(n, 4096), '=', '=']
  {
    hide Symbol, SextetAt, Chunk;
  }

  lemma TwoBytes(b: byte, c: byte)
    ensures var n := Chunk(b, c, 0);
            Encode([b, c]) == [SymbolAt(n, 262144), SymbolAt(n, 4096), SymbolAt(n, 64), '=']
  {
    hide Symbol, SextetAt, Chunk;
  }

  lemma LookUp(v: Sextet)
    ensures |TABLE| == 64 && TABLE[v] == Symbol(v)
  {
    TableIsTheAlphabet(v);
  }

  lemma OneMoreGroup(bytes: Bytes, i: nat)
    requires i + 3 <= |bytes| && i % 3 == 0
    ensures var n := Chunk(bytes[i], bytes[i + 1], bytes[i + 2]);
            Encode(bytes[..i + 3])
            == Encode(bytes[..i]) + [SymbolAt(n, 262144), SymbolAt(n, 4096), SymbolAt(n, 64), SymbolAt(n, 1)]
  {
    hide Symbol, SextetAt, Chunk;
    var s := bytes[..i + 3];
    EncodeThree(s, i);
    assert s[..i] == bytes[..i];
    assert s[i..] == [bytes[i], bytes[i + 1], bytes[i + 2]];
    assert [bytes[i], bytes[i + 1], bytes[i + 2]][3..] == [];
  }

  // Decoding

  function DecodeChunk(v0: Sextet, v1: Sextet, v2: Sextet, v3: Sextet): (n: nat)
    ensures n < 0x100_0000
  {
    v0 * 262144 + v1 * 4096 + v2 * 64 + v3
  }

  function ByteAt(n: nat, shift: nat): byte
    requires shift > 0
  {
    (n / shift % 256) as byte
  }

  /** The decoder of section 4 of RFC 4648: padding only in the last group. */
  function Decode(s: string): Option<Bytes> {
    if s == "" then Some([])
    else if |s| < 4 then None
    else if |s| == 4 && s[2..] == "==" then
      match (SymbolValue(s[0]), SymbolValue(s[1]))
      case (Some(v0), Some(v1)) => Some([ByteAt(DecodeChunk(v0, v1, 0, 0), 65536)])
      case _ => None
    else if |s| == 4 && s[3] == '=' then
      match (SymbolValue(s[0]), SymbolValue(s[1]), SymbolValue(s[2]))
      case (Some(v0), Some(v1), Some(v2)) =>
        Some([ByteAt(DecodeChunk(v0, v1, v2, 0), 65536), ByteAt(DecodeChunk(v0, v1, v2, 0), 256)])
      case _ => None
    else
      match (SymbolValue(s[0]), SymbolValue(s[1]), SymbolValue(s[2]), SymbolValue(s[3]), Decode(s[4..]))
      case (Some(v0), Some(v1), Some(v2), Some(v3), Some(rest)) =>
        var n := DecodeChunk(v0, v1, v2, v3);
        Some([ByteAt(n, 65536), ByteAt(n, 256), ByteAt(n, 1)] + rest)
      case _ => None
  }

  // Quotients, one constant at a time

  lemma Quotient64(n: nat, q: nat, r: nat)
    requires n == 64 * q + r && r < 64
    ensures n / 64 == q && n % 64 == r
  {
  }

  lemma Quotient4096(n: nat, q: nat, r: nat)
    requires n == 4096 * q + r && r < 4096
    ensures n / 4096 == q
  {
  }

  lemma Quotient262144(n: nat, q: nat, r: nat)
    requires n == 262144 * q + r && r < 262144
    ensures n / 262144 == q
  {
  }

  lemma Quotient256(n: nat, q: nat, r: nat)
    requires n == 256 * q + r && r < 256
    ensures n / 256 == q && n % 256 == r
  {
  }

  lemma Quotient65536(n: nat, q: nat, r: nat)
    requires n == 65536 * q + r && r < 65536
    ensures n / 65536 == q
  {
  }

  /** The digits of a number in base 64. */
  lemma Base64Digits(n: nat) returns (q: nat, r2: nat, r1: nat, r0: nat)
    ensures r0 < 64 && r1 < 64 && r2 < 64
    ensures n == 262144 * q + 4096 * r2 + 64 * r1 + r0
  {
    var q0, q1 := n / 64, n / 64 / 64;
    r0, r1 := n % 64, q0 % 64;
    q, r2 := q1 / 64, q1 % 64;
    assert n == 64 * q0 + r0;
    assert q0 == 64 * q1 + r1;
    assert q1 == 64 * q + r2;
  }

  lemma SextetsAre(n: nat, q: nat, r2: nat, r1: nat, r0: nat)
    requires q < 64 && r2 < 64 && r1 < 64 && r0 < 64 && n == 262144 * q + 4096 * r2 + 64 * r1 + r0
    ensures SextetAt(n, 262144) == q && SextetAt(n, 4096) == r2 && SextetAt(n, 64) == r1 && SextetAt(n, 1) == r0
  {
    hide SextetAt;
    Quotient262144(n, q, 4096 * r2 + 64 * r1 + r0);
    SextetIs(n, 262144, q, 0, q);
    Quotient4096(n, 64 * q + r2, 64 * r1 + r0);
    SextetIs(n, 4096, 64 * q + r2, q, r2);
    Quotient64(n, 4096 * q + 64 * r2 + r1, r0);
    SextetIs(n, 64, 4096 * q + 64 * r2 + r1, 64 * q + r2, r1);
    SextetIs(n, 1, n, 4096 * q + 64 * r2 + r1, r0);
  }

  lemma SextetIs(n: nat, shift: nat, quotient: nat, q: nat, r: nat)
    requires shift > 0 && (if shift == 1 then quotient == n else n / shift == quotient)
    requires quotient == 64 * q + r && r < 64
    ensures SextetAt(n, shift) == r
  {
    Quotient64(quotient, q, r);
  }

  /** Four sextets rebuild the chunk they were cut from. */
  lemma SextetsRebuild(n: nat)
    requires n < 0x100_0000
    ensures DecodeChunk(SextetAt(n, 262144), SextetAt(n, 4096), SextetAt(n, 64), SextetAt(n, 1)) == n
  {
    hide SextetAt;
    var q, r2, r1, r0 := Base64Digits(n);
    SextetsAre(n, q, r2, r1, r0);
  }

  /** A chunk's bytes are the ones it was built from. */
  lemma BytesRebuild(a: byte, b: byte, c: byte)
    ensures var n := Chunk(a, b, c);
            ByteAt(n, 65536) == a && ByteAt(n, 256) == b && ByteAt(n, 1) == c
  {
    hide ByteAt;
    var n, x, y, z := Chunk(a, b, c), a as nat, b as nat, c as nat;
    Quotient65536(n, x, 256 * y + z);
    ByteIs(n, 65536, x, 0, a);
    Quotient256(n, 256 * x + y, z);
    ByteIs(n, 256, 256 * x + y, x, b);
    ByteIs(n, 1, n, 256 * x + y, c);
  }

  lemma ByteIs(n: nat, shift: nat, quotient: nat, q: nat, r: byte)
    requires shift > 0 && (if shift == 1 then quotient == n else n / shift == quotient)
    requires quotient == 256 * q + r as nat
    ensures ByteAt(n, shift) == r
  {
    Quotient256(quotient, q, r as nat);
  }

  lemma PaddingIsZero(a: byte, b: byte)
    ensures SextetAt(Chunk(a, b, 0), 1) == 0 && SextetAt(Chunk(a, 0, 0), 64) == 0
  {
    hide SextetAt;
    var x, y := a as nat, b as nat;
    var n, m := Chunk(a, b, 0), Chunk(a, 0, 0);
    SextetIs(n, 1, n, 1024 * x + 4 * y, 0);
    Quotient64(m, 1024 * x, 0);
    SextetIs(m, 64, 1024 * x, 16 * x, 0);
  }

  lemma GroupSymbols(a: byte, b: byte, c: byte)
    ensures var n := Chunk(a, b, c);
      && |Group(a, b, c)| == 4
      && SymbolValue(Group(a, b, c)[0]) == Some(SextetAt(n, 262144))
      && SymbolValue(Group(a, b, c)[1]) == Some(SextetAt(n, 4096))
      && SymbolValue(Group(a, b, c)[2]) == Some(SextetAt(n, 64))
      && SymbolValue(Group(a, b, c)[3]) == Some(SextetAt(n, 1))
      && Group(a, b, c)[2] != '=' && Group(a, b, c)[3] != '='
  {
    hide SextetAt, Chunk, UPPER, LOWER, NUMERALS, TABLE;
    var n := Chunk(a, b, c);
    TableIsTheAlphabet(SextetAt(n, 262144));
    TableIsTheAlphabet(SextetAt(n, 4096));
    TableIsTheAlphabet(SextetAt(n, 64));
    TableIsTheAlphabet(SextetAt(n, 1));
  }

  lemma OneByteDecodes(a: byte)
    ensures Decode(Encode([a])) == Some([a]) && |Encode([a])| == 4
  {
    hide Group, SymbolValue, DecodeChunk, SextetAt, ByteAt, Chunk;
    var s := Encode([a]);
    GroupSymbols(a, 0, 0);
    SextetsRebuild(Chunk(a, 0, 0));
    BytesRebuild(a, 0, 0);
    PaddingIsZero(a, 0);
    assert s[2..] == "==";
  }

  lemma TwoBytesDecode(a: byte, b: byte)
    ensures Decode(Encode([a, b])) == Some([a, b]) && |Encode([a, b])| == 4
  {
    hide Group, SymbolValue, DecodeChunk, SextetAt, ByteAt, Chunk;
    var s := Encode([a, b]);
    GroupSymbols(a, b, 0);
    SextetsRebuild(Chunk(a, b, 0));
    BytesRebuild(a, b, 0);
    PaddingIsZero(a, b);
    assert s[2..][0] != '=' && s[3] == '=';
  }

  lemma GroupDecodes(a: byte, b: byte, c: byte, rest: string)
    requires Decode(rest).Some?
    ensures Decode(Group(a, b, c) + rest) == Some([a, b, c] + Decode(rest).value)
  {
    hide Group, SymbolValue, DecodeChunk, SextetAt, ByteAt, Chunk;
    var s := Group(a, b, c) + rest;
    GroupSymbols(a, b, c);
    SextetsRebuild(Chunk(a, b, c));
    BytesRebuild(a, b, c);
    assert s[4..] == rest;
    assert s[2..][0] != '=' && s[3] != '=';
  }

  /** Four symbols for each started group of three bytes. */
  function EncodedLength(n: nat): nat {
    (n + 2) / 3 * 4
  }

  lemma LengthOfGroups(n: nat)
    ensures EncodedLength(0) == 0 && EncodedLength(1) == 4 && EncodedLength(2) == 4
    ensures EncodedLength(n + 3) == EncodedLength(n) + 4
  {
  }

  /** Every byte sequence decodes back from its encoding. */
  lemma {:induction false} EncodingDecodes(bytes: Bytes)
    ensures Decode(Encode(bytes)) == Some(bytes)
    ensures |Encode(bytes)| == EncodedLength(|bytes|)
    decreases |bytes|
  {
    hide Group, Decode, EncodedLength;
    if |bytes| < 3 {
      ShortEncodingDecodes(bytes);
    } else {
      EncodingDecodes(bytes[3..]);
      GroupDecodes(bytes[0], bytes[1], bytes[2], Encode(bytes[3..]));
      GroupSymbols(bytes[0], bytes[1], bytes[2]);
      LengthOfGroups(|bytes[3..]|);
      assert bytes == [bytes[0], bytes[1], bytes[2]] + bytes[3..];
    }
  }

  lemma ShortEncodingDecodes(bytes: Bytes)
    requires |bytes| < 3
    ensures Decode(Encode(bytes)) == Some(bytes) && |Encode(bytes)| == EncodedLength(|bytes|)
  {
    hide Group, Decode, EncodedLength;
    LengthOfGroups(0);
    if |bytes| == 0 {
      NothingDecodes();
    } else if |bytes| == 1 {
      assert bytes == [bytes[0]];
      OneByteDecodes(bytes[0]);
    } else {
      assert bytes == [bytes[0], bytes[1]];
      TwoBytesDecode(bytes[0], bytes[1]);
    }
  }

  lemma NothingDecodes()
    ensures Decode("") == Some([])
  {
  }

  function PaddingLength(n: nat): nat {
    match n % 3
    case 0 => 0
    case 1 => 2
    case 2 => 1
  }

  predicate PaddedSymbols(s: string, pad: nat) {
    && pad <= |s|
    && (forall i :: 0 <= i < |s| - pad ==> SymbolValue(s[i]).Some?)
    && (forall i :: |s| - pad <= i < |s| ==> s[i] == '=')
  }

  /** Symbols of the alphabet, then two, one or no padding signs as the last group is short. */
  lemma {:induction false} EncodingUsesTheAlphabet(bytes: Bytes)
    ensures PaddedSymbols(Encode(bytes), PaddingLength(|bytes|))
    decreases |bytes|
  {
    hide Group, SymbolValue, PaddedSymbols, PaddingLength;
    if |bytes| >= 3 {
      var group := Group(bytes[0], bytes[1], bytes[2]);
      GroupIsSymbols(bytes[0], bytes[1], bytes[2]);
      EncodingUsesTheAlphabet(bytes[3..]);
      SamePadding(|bytes[3..]|);
      PaddedAfter(group, Encode(bytes[3..]), PaddingLength(|bytes|));
    } else {
      ShortGroupIsPadded(bytes);
    }
  }

  lemma SamePadding(n: nat)
    ensures PaddingLength(n + 3) == PaddingLength(n)
  {
  }

  lemma GroupIsSymbols(a: byte, b: byte, c: byte)
    ensures PaddedSymbols(Group(a, b, c), 0)
  {
    hide Group, SymbolValue, SextetAt, Chunk;
    GroupSymbols(a, b, c);
  }

  lemma ShortGroupIsPadded(bytes: Bytes)
    requires |bytes| < 3
    ensures PaddedSymbols(Encode(bytes), PaddingLength(|bytes|))
  {
    hide Group, SymbolValue, SextetAt, Chunk;
    if |bytes| == 1 {
      GroupSymbols(bytes[0], 0, 0);
    } else if |bytes| == 2 {
      GroupSymbols(bytes[0], bytes[1], 0);
    }
  }

  lemma PaddedAfter(group: string, s: string, pad: nat)
    requires PaddedSymbols(group, 0) && PaddedSymbols(s, pad)
    ensures PaddedSymbols(group + s, pad)
  {
    hide SymbolValue;
  }

  /** The alphabet of section 4 of RFC 4648: capitals, small letters, digits, and two signs. */
  lemma AlphabetRanges()
    ensures Symbol(0) == 'A' && Symbol(25) == 'Z' && Symbol(26) == 'a' && Symbol(51) == 'z'
    ensures Symbol(52) == '0' && Symbol(61) == '9' && Symbol(62) == '+' && Symbol(63) == '/'
    ensures forall v: Sextet :: v + 1 < 62 && v != 25 && v != 51 ==> Symbol(v + 1) as nat == Symbol(v) as nat + 1
  {
  }
}
