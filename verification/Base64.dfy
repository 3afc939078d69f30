/** The base64 codec of the gateway, on NUL-terminated strings. */
module Base64 {

  function Range(first: char, n: nat): (s: string)
    requires first as int + n <= 128
    ensures |s| == n && forall i | 0 <= i < n :: s[i] == (first as int + i) as char
  {
    seq(n, i requires 0 <= i < n => (first as int + i) as char)
  }

  /** The alphabet: A-Z, a-z, 0-9, + and /. */
  function Alphabet(): (s: string)
    ensures |s| == 64
  {
    Range('A', 26) + Range('a', 26) + Range('0', 10) + "+/"
  }

  const PAD: char := '='

  function Symbol(index: bv8): char
    requires index < 64
  {
    Alphabet()[index as int]
  }

  // ---------- the standard ----------

  /** Bit `r` of an octet, from the most significant one. */
  function OctetBit(b: bv8, r: nat): bool
    requires r < 8
  {
    var mask: bv8 :=
      match r case 0 => 128 case 1 => 64 case 2 => 32 case 3 => 16 case 4 => 8 case 5 => 4 case 6 => 2 case _ => 1;
    b & mask != 0
  }

  /** Bit `k` of the octets written one after another; zero bits follow. */
  function StreamBit(octets: seq<bv8>, k: nat): bool {
    k / 8 < |octets| && OctetBit(octets[k / 8], k % 8)
  }

  function Weight(b: bool, w: bv8): bv8 {
    if b then w else 0
  }

  function Six(b0: bool, b1: bool, b2: bool, b3: bool, b4: bool, b5: bool): (x: bv8)
    ensures x < 64
  {
    Weight(b0, 32) | Weight(b1, 16) | Weight(b2, 8) | Weight(b3, 4) | Weight(b4, 2) | Weight(b5, 1)
  }

  /** The `j`-th group of six bits of the stream. */
  function Sextet(octets: seq<bv8>, j: nat): (x: bv8)
    ensures x < 64
  {
    Six(StreamBit(octets, 6 * j), StreamBit(octets, 6 * j + 1), StreamBit(octets, 6 * j + 2),
        StreamBit(octets, 6 * j + 3), StreamBit(octets, 6 * j + 4), StreamBit(octets, 6 * j + 5))
  }

  /** Section 4 of RFC 4648: four characters for every three octets begun, one for each group of
      six bits that holds bits of the input, and pad characters for the rest. */
  function Standard(octets: seq<bv8>): (s: string)
    ensures |s| == 4 * ((|octets| + 2) / 3)
  {
    seq(4 * ((|octets| + 2) / 3), j requires 0 <= j => if 6 * j < 8 * |octets| then Symbol(Sextet(octets, j)) else PAD)
  }

  // ---------- the code ----------

  /** The four groups of six bits of three octets. */
  function Six0(a: bv8): (x: bv8)
    ensures x < 64
  {
    (a >> 2) & 0x3f
  }

  function Six1(a: bv8, b: bv8): (x: bv8)
    ensures x < 64
  {
    ((a << 4) & 0x30) | ((b >> 4) & 0x0f)
  }

  function Six2(b: bv8, c: bv8): (x: bv8)
    ensures x < 64
  {
    ((b << 2) & 0x3c) | ((c >> 6) & 0x03)
  }

  function Six3(c: bv8): (x: bv8)
    ensures x < 64
  {
    c & 0x3f
  }

  function OctetAt(octets: seq<bv8>, i: nat): bv8 {
    if i < |octets| then octets[i] else 0
  }

  /** One round of the encoding loop; missing octets count as zero. */
  function Quad(octets: seq<bv8>): (s: string)
    requires octets != []
    ensures |s| == 4
  {
    var a, b, c := OctetAt(octets, 0), OctetAt(octets, 1), OctetAt(octets, 2);
    [Symbol(Six0(a)), Symbol(Six1(a, b)), if |octets| < 2 then PAD else Symbol(Six2(b, c)),
     if |octets| < 3 then PAD else Symbol(Six3(c))]
  }

  function Encoded(octets: seq<bv8>): string {
    if octets == [] then "" else if |octets| <= 3 then Quad(octets) else Quad(octets[..3]) + Encoded(octets[3..])
  }

  // ---------- encoding follows the standard ----------

  lemma BitOfOctet(octets: seq<bv8>, q: nat, r: nat)
    requires r < 8
    ensures StreamBit(octets, 8 * q + r) == OctetBit(OctetAt(octets, q), r)
  {
    assert (8 * q + r) / 8 == q && (8 * q + r) % 8 == r;
  }

  lemma SixOfFirst(a: bv8)
    ensures Six(OctetBit(a, 0), OctetBit(a, 1), OctetBit(a, 2), OctetBit(a, 3), OctetBit(a, 4), OctetBit(a, 5)) == Six0(a)
  {
  }

  lemma SixOfSecond(a: bv8, b: bv8)
    ensures Six(OctetBit(a, 6), OctetBit(a, 7), OctetBit(b, 0), OctetBit(b, 1), OctetBit(b, 2), OctetBit(b, 3)) == Six1(a, b)
  {
  }

  lemma SixOfThird(b: bv8, c: bv8)
    ensures Six(OctetBit(b, 4), OctetBit(b, 5), OctetBit(b, 6), OctetBit(b, 7), OctetBit(c, 0), OctetBit(c, 1)) == Six2(b, c)
  {
  }

  lemma SixOfFourth(c: bv8)
    ensures Six(OctetBit(c, 2), OctetBit(c, 3), OctetBit(c, 4), OctetBit(c, 5), OctetBit(c, 6), OctetBit(c, 7)) == Six3(c)
  {
  }

  lemma SextetsOfOctets(octets: seq<bv8>)
    ensures Sextet(octets, 0) == Six0(OctetAt(octets, 0))
    ensures Sextet(octets, 1) == Six1(OctetAt(octets, 0), OctetAt(octets, 1))
    ensures Sextet(octets, 2) == Six2(OctetAt(octets, 1), OctetAt(octets, 2))
    ensures Sextet(octets, 3) == Six3(OctetAt(octets, 2))
  {
    hide StreamBit, OctetBit, Weight, OctetAt, Six0, Six1, Six2, Six3;
    forall q: nat, r: nat | q < 3 && r < 8
      ensures StreamBit(octets, 8 * q + r) == OctetBit(OctetAt(octets, q), r)
    {
      BitOfOctet(octets, q, r);
    }
    SixOfFirst(OctetAt(octets, 0));
    SixOfSecond(OctetAt(octets, 0), OctetAt(octets, 1));
    SixOfThird(OctetAt(octets, 1), OctetAt(octets, 2));
    SixOfFourth(OctetAt(octets, 2));
  }

  lemma QuadIsStandard(octets: seq<bv8>)
    requires 1 <= |octets| <= 3
    ensures Quad(octets) == Standard(octets)
  {
    hide Sextet, Symbol, Six0, Six1, Six2, Six3, OctetAt;
    SextetsOfOctets(octets);
  }

  lemma StreamBitShift(octets: seq<bv8>, k: nat)
    requires |octets| >= 3
    ensures StreamBit(octets, k + 24) == StreamBit(octets[3..], k)
    ensures k < 24 ==> StreamBit(octets, k) == StreamBit(octets[..3], k)
  {
    assert (k + 24) / 8 == k / 8 + 3 && (k + 24) % 8 == k % 8;
  }

  lemma SextetShift(octets: seq<bv8>, j: nat)
    requires |octets| >= 3
    ensures Sextet(octets, j + 4) == Sextet(octets[3..], j)
    ensures j < 4 ==> Sextet(octets, j) == Sextet(octets[..3], j)
  {
    hide StreamBit;
    var k := 6 * j;
    StreamBitShift(octets, k);
    StreamBitShift(octets, k + 1);
    StreamBitShift(octets, k + 2);
    StreamBitShift(octets, k + 3);
    StreamBitShift(octets, k + 4);
    StreamBitShift(octets, k + 5);
  }

  lemma StandardSplits(octets: seq<bv8>)
    requires |octets| >= 3
    ensures Standard(octets) == Standard(octets[..3]) + Standard(octets[3..])
  {
    hide Sextet, Symbol;
    forall j: nat | j < |Standard(octets)|
      ensures Standard(octets)[j] == (Standard(octets[..3]) + Standard(octets[3..]))[j]
    {
      if j < 4 {
        SextetShift(octets, j);
      } else {
        SextetShift(octets, j - 4);
      }
    }
  }

  /** Encoding follows the standard. */
  lemma {:induction false} EncodedIsStandard(octets: seq<bv8>)
    ensures Encoded(octets) == Standard(octets)
  {
    if octets == [] {
    } else if |octets| <= 3 {
      QuadIsStandard(octets);
    } else {
      QuadIsStandard(octets[..3]);
      EncodedIsStandard(octets[3..]);
      StandardSplits(octets);
    }
  }

  // ---------- decoding ----------

  /** What strchr_of_num finds: the first position of `c`, the terminator counting as position 64, or -1. */
  function IndexOf(c: char): (k: int)
    ensures -1 <= k <= 64
  {
    if c == '\0' then 64 else IndexFrom(c, 0)
  }

  function IndexFrom(c: char, i: nat): (k: int)
    requires i <= 64
    ensures k == -1 || i <= k < 64
    decreases 64 - i
  {
    if i == 64 then -1 else if Alphabet()[i] == c then i else IndexFrom(c, i + 1)
  }

  /** The low byte of that position: all the decoder uses of it. */
  function Trans(c: char): bv8 {
    if IndexOf(c) == -1 then 0xff else IndexOf(c) as bv8
  }

  /** The three octets of four groups of six bits. */
  function Octet0(t0: bv8, t1: bv8): bv8 {
    ((t0 << 2) & 0xfc) | ((t1 >> 4) & 0x03)
  }

  function Octet1(t1: bv8, t2: bv8): bv8 {
    ((t1 << 4) & 0xf0) | ((t2 >> 2) & 0x0f)
  }

  function Octet2(t2: bv8, t3: bv8): bv8 {
    ((t2 << 6) & 0xc0) | (t3 & 0x3f)
  }

  /** One round of the decoding loop. */
  function QuadDecoded(q: string): seq<bv8>
    requires |q| == 4
  {
    var t0, t1, t2, t3 := Trans(q[0]), Trans(q[1]), Trans(q[2]), Trans(q[3]);
    if q[2] == PAD then [Octet0(t0, t1)]
    else if q[3] == PAD then [Octet0(t0, t1), Octet1(t1, t2)]
    else [Octet0(t0, t1), Octet1(t1, t2), Octet2(t2, t3)]
  }

  function Decoded(text: string): seq<bv8>
    requires |text| % 4 == 0
  {
    if text == "" then [] else QuadDecoded(text[..4]) + Decoded(text[4..])
  }

  lemma AlphabetAt(i: nat)
    requires i < 64
    ensures Alphabet()[i] ==
            if i < 26 then ('A' as int + i) as char
            else if i < 52 then ('a' as int + i - 26) as char
            else if i < 62 then ('0' as int + i - 52) as char
            else if i == 62 then '+' else '/'
  {
  }

  lemma {:induction false} IndexFromSymbol(i: nat, k: nat)
    requires i <= k < 64
    ensures IndexFrom(Alphabet()[k], i) == k
    decreases k - i
  {
    if i < k {
      AlphabetAt(i);
      AlphabetAt(k);
      IndexFromSymbol(i + 1, k);
    }
  }

  lemma SymbolIsDecoded(x: bv8)
    requires x < 64
    ensures Trans(Symbol(x)) == x && Symbol(x) != PAD && Symbol(x) != '\0'
  {
    AlphabetAt(x as int);
    IndexFromSymbol(0, x as int);
  }

  /** The bits fall back into place. */
  lemma OctetsOfSextets(a: bv8, b: bv8, c: bv8)
    ensures Octet0(Six0(a), Six1(a, b)) == a
    ensures Octet1(Six1(a, b), Six2(b, c)) == b
    ensures Octet2(Six2(b, c), Six3(c)) == c
  {
  }

  lemma QuadRoundTrip(octets: seq<bv8>)
    requires 1 <= |octets| <= 3
    ensures QuadDecoded(Quad(octets)) == octets
  {
    hide Symbol, Trans, Six0, Six1, Six2, Six3, Octet0, Octet1, Octet2;
    var a, b, c := OctetAt(octets, 0), OctetAt(octets, 1), OctetAt(octets, 2);
    SymbolIsDecoded(Six0(a));
    SymbolIsDecoded(Six1(a, b));
    SymbolIsDecoded(Six2(b, c));
    SymbolIsDecoded(Six3(c));
    OctetsOfSextets(a, b, c);
  }

  /** Decoding undoes encoding, whatever the bytes. */
  lemma {:induction false} RoundTrip(octets: seq<bv8>)
    ensures |Encoded(octets)| == 4 * ((|octets| + 2) / 3)
    ensures Decoded(Encoded(octets)) == octets
  {
    hide Quad, QuadDecoded;
    if octets == [] {
    } else if |octets| <= 3 {
      QuadRoundTrip(octets);
      var text := Encoded(octets);
      assert text[..4] == text && text[4..] == "";
    } else {
      QuadRoundTrip(octets[..3]);
      RoundTrip(octets[3..]);
      var quad, rest := Quad(octets[..3]), Encoded(octets[3..]);
      assert (quad + rest)[..4] == quad && (quad + rest)[4..] == rest;
    }
  }

  /** So the decoder recovers every input from its standard encoding, padded or not. */
  lemma StandardIsDecoded(octets: seq<bv8>)
    ensures |Standard(octets)| % 4 == 0 && Decoded(Standard(octets)) == octets
  {
    hide Standard, Encoded, Decoded;
    EncodedIsStandard(octets);
    RoundTrip(octets);
  }

  // ---------- what the decoder makes of any text ----------

  /** A character outside the alphabet, the pad character included, counts as six one bits. */
  lemma ForeignIsOnes(c: char)
    requires c !in Alphabet() && c != '\0'
    ensures Trans(c) == 0xff
  {
    IndexFromFinds(c, 0);
    hide Alphabet;
  }

  lemma PadIsForeign()
    ensures '=' !in Alphabet()
  {
    forall i: nat | i < 64
      ensures Alphabet()[i] != '='
    {
      AlphabetAt(i);
    }
    hide Alphabet;
  }

  lemma {:induction false} IndexFromFinds(c: char, i: nat)
    requires i <= 64
    ensures IndexFrom(c, i) == -1 ==> forall k | i <= k < 64 :: Alphabet()[k] != c
    ensures IndexFrom(c, i) != -1 ==> Alphabet()[IndexFrom(c, i)] == c
    decreases 64 - i
  {
    hide Alphabet;
    if i < 64 {
      IndexFromFinds(c, i + 1);
    }
  }

  /** Bit `k` of the four groups of six bits that four characters stand for. */
  function TextBit(q: string, k: nat): bool
    requires |q| == 4 && k < 24
  {
    OctetBit(Trans(q[k / 6]), 2 + k % 6)
  }

  /** Whatever the four characters are: three octets, or one or two before a pad character in the third
      or fourth place, made of the bits in order; the bits that are left over are dropped. */
  lemma QuadBits(q: string, k: nat)
    requires |q| == 4
    ensures |QuadDecoded(q)| == if q[2] == '=' then 1 else if q[3] == '=' then 2 else 3
    ensures k < 8 * |QuadDecoded(q)| ==> StreamBit(QuadDecoded(q), k) == TextBit(q, k)
  {
    hide Trans, OctetBit;
    var t0, t1, t2, t3 := Trans(q[0]), Trans(q[1]), Trans(q[2]), Trans(q[3]);
    if k < 8 {
      Octet0Bits(t0, t1, k);
    } else if k < 16 {
      Octet1Bits(t1, t2, k - 8);
    } else if k < 24 {
      Octet2Bits(t2, t3, k - 16);
    }
    hide Octet0, Octet1, Octet2;
  }

  lemma Octet0Bits(t0: bv8, t1: bv8, r: nat)
    requires r < 8
    ensures OctetBit(Octet0(t0, t1), r) == if r < 6 then OctetBit(t0, r + 2) else OctetBit(t1, r - 4)
  {
  }

  lemma Octet1Bits(t1: bv8, t2: bv8, r: nat)
    requires r < 8
    ensures OctetBit(Octet1(t1, t2), r) == if r < 4 then OctetBit(t1, r + 4) else OctetBit(t2, r - 2)
  {
  }

  lemma Octet2Bits(t2: bv8, t3: bv8, r: nat)
    requires r < 8
    ensures OctetBit(Octet2(t2, t3), r) == if r < 2 then OctetBit(t2, r + 6) else OctetBit(t3, r)
  {
  }

  /** The examples of section 10 of RFC 4648: f, fo and foo. */
  lemma VectorsOfTheStandard()
    ensures Standard([102]) == "Zg==" && Standard([102, 111]) == "Zm8=" && Standard([102, 111, 111]) == "Zm9v"
  {
    EncodedIsStandard([102]);
    EncodedIsStandard([102, 111]);
    EncodedIsStandard([102, 111, 111]);
    hide Standard, Alphabet;
    assert Six0(102) == 25 && Six1(102, 0) == 32 && Six1(102, 111) == 38;
    assert Six2(111, 0) == 60 && Six2(111, 111) == 61 && Six3(111) == 47;
    AlphabetAt(25);
    AlphabetAt(32);
    AlphabetAt(38);
    AlphabetAt(60);
    AlphabetAt(61);
    AlphabetAt(47);
  }

  // ---------- the routines ----------

  /** Length of a string that is not empty: the loop looks from the second character on. */
  method MyStrlen(s: seq<bv8>) returns (len: nat)
    requires s != [] && 0 !in s
    ensures len == |s|
  {
    len := 1;
    while (s + [0])[len] != 0
      invariant 1 <= len <= |s|
      decreases |s| - len
    {
      len := len + 1;
    }
  }

  /** Position of `c` in the alphabet, which a terminator follows. */
  method StrchrOfNum(c: char) returns (ind: int)
    ensures ind == IndexOf(c)
  {
    var str := Alphabet() + ['\0'];
    var i := 0;
    while str[i] != '\0' && str[i] != c
      invariant 0 <= i <= 64
      invariant c != '\0' ==> IndexFrom(c, i) == IndexFrom(c, 0)
      decreases 64 - i
    {
      i := i + 1;
    }
    if i < 64 {
      AlphabetAt(i);
    }
    ind := if str[i] == c then i else -1;
  }

  /** The encoding of what is left from position `i` on. */
  function Remaining(src: seq<bv8>, i: nat): string {
    if i < |src| then Encoded(src[i..]) else ""
  }

  lemma RemainingStep(src: seq<bv8>, i: nat)
    requires i < |src|
    ensures Remaining(src, i) == Quad(src[i..]) + Remaining(src, i + 3)
  {
    if i + 3 < |src| {
      assert src[i..][3..] == src[i + 3..];
      QuadOfFirstThree(src[i..]);
    }
  }

  lemma QuadOfFirstThree(octets: seq<bv8>)
    requires |octets| >= 3
    ensures Quad(octets[..3]) == Quad(octets)
  {
  }

  /** In the short rounds the source masks the one octet it has: no bits of a second one come in. */
  lemma ShortSextets(a: bv8, b: bv8)
    ensures Six1(a, 0) == (a << 4) & 0x30
    ensures Six2(b, 0) == (b << 2) & 0x3c
  {
  }

  /** One turn of the encoding loop; `done` when it was the last, short one. */
  method EncodeRound(dest: array<char>, j0: nat, src: seq<bv8>, i: nat) returns (j: nat, done: bool)
    requires i < |src| && j0 + 4 <= dest.Length
    modifies dest
    ensures j == j0 + 4 && dest[..j] == old(dest[..j0]) + Quad(src[i..])
    ensures done <==> i + 2 >= |src|
  {
    hide Symbol, Six0, Six1, Six2, Six3;
    dest[j0] := Symbol(Six0(src[i]));
    if i + 1 >= |src| {
      ShortSextets(src[i], 0);
      dest[j0 + 1] := Symbol((src[i] << 4) & 0x30);
      dest[j0 + 2] := PAD;
      dest[j0 + 3] := PAD;
      return j0 + 4, true;
    }
    dest[j0 + 1] := Symbol(Six1(src[i], src[i + 1]));
    if i + 2 >= |src| {
      ShortSextets(src[i], src[i + 1]);
      dest[j0 + 2] := Symbol((src[i + 1] << 2) & 0x3c);
      dest[j0 + 3] := PAD;
      return j0 + 4, true;
    }
    dest[j0 + 2] := Symbol(Six2(src[i + 1], src[i + 2]));
    dest[j0 + 3] := Symbol(Six3(src[i + 2]));
    return j0 + 4, false;
  }

  /** The encoding loop. */
  method EncodeLoop(dest: array<char>, src: seq<bv8>) returns (j: nat)
    requires src != [] && 0 !in src && |Encoded(src)| < dest.Length
    modifies dest
    ensures j == |Encoded(src)| && dest[..j] == Encoded(src)
  {
    assert Remaining(src, 0) == Encoded(src) by {
      assert src[0..] == src;
    }
    hide Encoded, Quad, Remaining;
    var datalength := MyStrlen(src);
    var i: nat := 0;
    j := 0;
    while i < datalength
      invariant j + |Remaining(src, i)| == |Encoded(src)| && dest[..j] + Remaining(src, i) == Encoded(src)
      decreases datalength - i
    {
      RemainingStep(src, i);
      Regroup(dest[..j], Quad(src[i..]), Remaining(src, i + 3));
      var done: bool;
      j, done := EncodeRound(dest, j, src, i);
      i := i + 3;
      if done {
        break;
      }
    }
    NoneRemaining(src, i);
    NothingAdded(dest[..j]);
  }

  lemma Regroup(a: string, b: string, c: string)
    ensures a + b + c == a + (b + c)
    ensures |a + (b + c)| == |a| + |b| + |c|
  {
  }

  lemma NothingAdded(a: string)
    ensures a + "" == a
  {
  }

  lemma NoneRemaining(src: seq<bv8>, i: nat)
    requires i >= |src|
    ensures Remaining(src, i) == ""
  {
  }

  method Encode(dest: array<char>, src: seq<bv8>) returns (ret: int)
    requires src != [] && 0 !in src
    requires 4 * ((|src| + 2) / 3) < dest.Length
    modifies dest
    ensures ret == 0
    ensures var n := 4 * ((|src| + 2) / 3);
            dest[..n] == Standard(src) && dest[n] == '\0' && '\0' !in Standard(src)
  {
    EncodedIsStandard(src);
    RoundTrip(src);
    NoNulEncoded(src);
    var j := EncodeLoop(dest, src);
    dest[j] := '\0';
    return 0;
  }

  lemma {:induction false} NoNulEncoded(octets: seq<bv8>)
    ensures '\0' !in Encoded(octets)
  {
    if octets != [] {
      NoNulInQuad(octets);
      if |octets| > 3 {
        QuadOfFirstThree(octets);
        NoNulEncoded(octets[3..]);
      }
    }
  }

  lemma NoNulInQuad(octets: seq<bv8>)
    requires octets != []
    ensures '\0' !in Quad(octets)
  {
    SymbolIsDecoded(Six0(OctetAt(octets, 0)));
    SymbolIsDecoded(Six1(OctetAt(octets, 0), OctetAt(octets, 1)));
    SymbolIsDecoded(Six2(OctetAt(octets, 1), OctetAt(octets, 2)));
    SymbolIsDecoded(Six3(OctetAt(octets, 2)));
    hide Symbol, Six0, Six1, Six2, Six3, OctetAt;
  }

  method TransOf(c: char) returns (t: bv8)
    ensures t == Trans(c)
  {
    var k := StrchrOfNum(c);
    t := if k == -1 then 0xff else k as bv8;
  }

  /** One turn of the decoding loop. */
  method DecodeRound(dest: array<bv8>, j0: nat, src: string, i: nat) returns (j: nat)
    requires i + 4 <= |src| && j0 + 3 <= dest.Length
    modifies dest
    ensures j <= j0 + 3 && dest[..j] == old(dest[..j0]) + QuadDecoded(src[i..i + 4])
  {
    hide Trans, Octet0, Octet1, Octet2;
    var t0 := TransOf(src[i]);
    var t1 := TransOf(src[i + 1]);
    dest[j0] := Octet0(t0, t1);
    j := j0 + 1;
    if src[i + 2] == PAD {
      return;
    }
    var t2 := TransOf(src[i + 2]);
    dest[j] := Octet1(t1, t2);
    j := j0 + 2;
    if src[i + 3] == PAD {
      return;
    }
    var t3 := TransOf(src[i + 3]);
    dest[j] := Octet2(t2, t3);
    j := j0 + 3;
  }

  method Decode(dest: array<bv8>, src: string) returns (ret: int, ghost n: nat)
    requires |src| % 4 == 0 && '\0' !in src
    requires 3 * (|src| / 4) < dest.Length
    modifies dest
    ensures ret == 0 && n == |Decoded(src)| < dest.Length
    ensures dest[..n] == Decoded(src) && dest[n] == 0
  {
    hide QuadDecoded, Decoded;
    var i: nat, j: nat := 0, 0;
    ghost var round, rounds: nat := 0, |src| / 4;
    assert src[0..] == src;
    while i < |src|
      invariant i == 4 * round && round <= rounds && j <= 3 * round
      invariant dest[..j] + Decoded(src[i..]) == Decoded(src)
      decreases |src| - i
    {
      DecodedStep(src, i);
      j := DecodeRound(dest, j, src, i);
      i := i + 4;
      round := round + 1;
    }
    DecodedEnd(dest[..j], src, i);
    dest[j] := 0;
    return 0, j;
  }

  lemma DecodedStep(src: string, i: nat)
    requires |src| % 4 == 0 && i % 4 == 0 && i < |src|
    ensures i + 4 <= |src| && Decoded(src[i..]) == QuadDecoded(src[i..i + 4]) + Decoded(src[i + 4..])
  {
    assert src[i..][..4] == src[i..i + 4] && src[i..][4..] == src[i + 4..];
  }

  lemma DecodedEnd(out: seq<bv8>, src: string, i: nat)
    requires |src| % 4 == 0 && i == |src|
    ensures out + Decoded(src[i..]) == out
  {
  }
}
