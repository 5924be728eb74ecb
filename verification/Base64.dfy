/** The client's Base64 encoder, with decoding as RFC 4648 defines it. */
module Base64 {
  import opened Wrappers

  const UPPER := "ABCDEFGHIJKLMNOPQRSTUVWXYZ"
  const LOWER := "abcdefghijklmnopqrstuvwxyz"
  const CHARS := UPPER + LOWER + "0123456789+/"

  // ------------------------------------------------------------- the encoder

  /** One to three bytes as the 24-bit group they stand for. */
  function Triple(chunk: seq<bv8>): bv32
    requires 1 <= |chunk| <= 3
  {
    var b0 := chunk[0] as bv32;
    var b1 := if |chunk| > 1 then chunk[1] as bv32 else 0;
    var b2 := if |chunk| > 2 then chunk[2] as bv32 else 0;
    (b0 << 16) | (b1 << 8) | b2
  }

  /** The six bits of `triple` that start at bit `shift`. */
  function Sextet(triple: bv32, shift: bv5): bv6 {
    ((triple >> shift) & 0x3F) as bv6
  }

  function SymbolAt(i: nat): char
    requires i < 64
  {
    CHARS[i]
  }

  function Symbol(v: bv6): char {
    SymbolAt(v as int)
  }

  function EncodeChunk(chunk: seq<bv8>): (q: string)
    requires 1 <= |chunk| <= 3
    ensures |q| == 4
  {
    var t := Triple(chunk);
    [ Symbol(Sextet(t, 18)),
      Symbol(Sextet(t, 12)),
      if |chunk| > 1 then Symbol(Sextet(t, 6)) else '=',
      if |chunk| > 2 then Symbol(Sextet(t, 0)) else '=' ]
  }

  function Encode(data: seq<bv8>): string {
    if data == [] then ""
    else if |data| <= 3 then EncodeChunk(data)
    else EncodeChunk(data[..3]) + Encode(data[3..])
  }

  lemma {:induction false} EncodeAppendsChunk(done: seq<bv8>, chunk: seq<bv8>)
    requires |done| % 3 == 0 && 1 <= |chunk| <= 3
    ensures Encode(done + chunk) == Encode(done) + EncodeChunk(chunk)
  {
    hide EncodeChunk;
    if done == [] {
      assert done + chunk == chunk;
    } else if |done| == 3 {
      assert (done + chunk)[..3] == done && (done + chunk)[3..] == chunk;
    } else {
      assert (done + chunk)[..3] == done[..3] && (done + chunk)[3..] == done[3..] + chunk;
      EncodeAppendsChunk(done[3..], chunk);
    }
  }

  /** `base64_encode`: one pass over the three-byte chunks, four symbols each. */
  method Base64Encode(data: seq<bv8>) returns (result: string)
    ensures Decode(result) == Some(data)
    ensures result == Encode(data)
  {
    hide Sextet, Triple, Symbol;
    result := "";
    var i := 0;
    while i < |data|
      invariant 0 <= i <= |data|
      invariant i < |data| ==> i % 3 == 0
      invariant result == Encode(data[..i])
    {
      var next := if i + 3 <= |data| then i + 3 else |data|;
      var chunk := data[i..next];
      var triple := Triple(chunk);
      ghost var before := result;
      result := result + [Symbol(Sextet(triple, 18))];
      result := result + [Symbol(Sextet(triple, 12))];
      result := result + [if |chunk| > 1 then Symbol(Sextet(triple, 6)) else '='];
      result := result + [if |chunk| > 2 then Symbol(Sextet(triple, 0)) else '='];
      assert result == before + EncodeChunk(chunk);
      EncodeAppendsChunk(data[..i], chunk);
      assert data[..next] == data[..i] + chunk;
      i := next;
    }
    assert data[..i] == data;
    DecodeInvertsEncode(data);
  }

  // ------------------------------------------------ decoding, as RFC 4648 has it

  /** The place of a symbol in the alphabet (RFC 4648, table 1). */
  function PlaceOf(c: char, i: nat := 0): (v: Option<nat>)
    requires i <= 64
    ensures v.Some? ==> i <= v.value < 64 && SymbolAt(v.value) == c
    ensures v.None? ==> forall j :: i <= j < 64 ==> SymbolAt(j) != c
    decreases 64 - i
  {
    if i == 64 then None else if SymbolAt(i) == c then Some(i) else PlaceOf(c, i + 1)
  }

  function Value(c: char): Option<bv6> {
    match PlaceOf(c)
    case Some(i) => Some(i as bv6)
    case None => None
  }

  /** The 24-bit group that four sextets spell, and its three octets. */
  function Group(v0: bv6, v1: bv6, v2: bv6, v3: bv6): bv32 {
    (v0 as bv32 << 18) | (v1 as bv32 << 12) | (v2 as bv32 << 6) | v3 as bv32
  }

  function Octet(group: bv32, shift: bv5): bv8 {
    ((group >> shift) & 0xFF) as bv8
  }

  /** A four-symbol quantum (RFC 4648, section 4). Absent sextets count as
      zero; an octet that the padding removes must be zero (section 3.5). */
  function DecodeQuantum(q: string): Option<seq<bv8>>
    requires |q| == 4
  {
    match (Value(q[0]), Value(q[1]), Value(q[2]), Value(q[3]))
    case (Some(v0), Some(v1), Some(v2), Some(v3)) =>
      var g := Group(v0, v1, v2, v3);
      Some([Octet(g, 16), Octet(g, 8), Octet(g, 0)])
    case (Some(v0), Some(v1), Some(v2), None) =>
      var g := Group(v0, v1, v2, 0);
      if q[3] == '=' && Octet(g, 0) == 0 then Some([Octet(g, 16), Octet(g, 8)]) else None
    case (Some(v0), Some(v1), None, None) =>
      var g := Group(v0, v1, 0, 0);
      if q[2] == q[3] == '=' && Octet(g, 8) == 0 then Some([Octet(g, 16)]) else None
    case _ => None
  }

  /** Only the last quantum may be padded. */
  function Decode(s: string): Option<seq<bv8>> {
    if s == "" then Some([])
    else if |s| < 4 then None
    else if |s| == 4 then DecodeQuantum(s)
    else
      match (DecodeQuantum(s[..4]), Decode(s[4..]))
      case (Some(head), Some(tail)) => if |head| == 3 then Some(head + tail) else None
      case _ => None
  }

  // ------------------------------------------------------------- the alphabet

  lemma UpperCodes(i: nat)
    requires i < 26
    ensures UPPER[i] as int == 65 + i
  {
  }

  lemma LowerCodes(i: nat)
    requires i < 26
    ensures LOWER[i] as int == 97 + i
  {
  }

  /** The character codes of table 1. */
  lemma SymbolCodes(i: nat)
    requires i < 64
    ensures CHARS[i] as int == if i < 26 then 65 + i else if i < 52 then 71 + i
                               else if i < 62 then i - 4 else if i == 62 then 43 else 47
  {
    if i < 26 {
      UpperCodes(i);
    } else if i < 52 {
      LowerCodes(i - 26);
    } else {
      assert CHARS[i] == "0123456789+/"[i - 52];
    }
  }

  lemma SymbolsAreDistinct(i: nat, j: nat)
    requires i < 64 && j < 64 && SymbolAt(i) == SymbolAt(j)
    ensures i == j && SymbolAt(i) != '='
  {
    SymbolCodes(i);
    SymbolCodes(j);
  }

  lemma PadHasNoValue()
    ensures Value('=') == None
  {
    var place := PlaceOf('=');
    if place.Some? {
      SymbolsAreDistinct(place.value, place.value);
    }
  }

  lemma BitsOfPlace(i: nat)
    requires i < 64
    ensures (i as bv6) as int == i
  {
  }

  lemma ValueInvertsSymbol(c: char, v: bv6)
    ensures Value(c) == Some(v) <==> c == Symbol(v)
  {
    var place := PlaceOf(c);
    if place.Some? {
      BitsOfPlace(place.value);
    }
    if c == Symbol(v) {
      SymbolsAreDistinct(place.value, v as int);
    }
  }

  // ------------------------------------------------------------- correctness

  lemma OctetsOfSextets(t: bv32)
    requires t < 0x100_0000
    ensures Group(Sextet(t, 18), Sextet(t, 12), Sextet(t, 6), Sextet(t, 0)) == t
  {
  }

  lemma OctetsOfTriple(chunk: seq<bv8>)
    requires 1 <= |chunk| <= 3
    ensures Triple(chunk) < 0x100_0000
    ensures var g := Triple(chunk);
      && Octet(g, 16) == chunk[0]
      && Octet(g, 8) == (if |chunk| > 1 then chunk[1] else 0)
      && Octet(g, 0) == (if |chunk| > 2 then chunk[2] else 0)
    ensures |chunk| <= 2 ==> Sextet(Triple(chunk), 0) == 0
    ensures |chunk| == 1 ==> Sextet(Triple(chunk), 6) == 0
  {
  }

  lemma QuantumOfChunk(chunk: seq<bv8>)
    requires 1 <= |chunk| <= 3
    ensures DecodeQuantum(EncodeChunk(chunk)) == Some(chunk)
  {
    hide Sextet, Octet, Triple, Group, Value, Symbol;
    var t, q := Triple(chunk), EncodeChunk(chunk);
    OctetsOfTriple(chunk);
    OctetsOfSextets(t);
    PadHasNoValue();
    ValueInvertsSymbol(q[0], Sextet(t, 18));
    ValueInvertsSymbol(q[1], Sextet(t, 12));
    ValueInvertsSymbol(q[2], Sextet(t, 6));
    ValueInvertsSymbol(q[3], Sextet(t, 0));
    match |chunk| {
      case 1 => assert chunk == [chunk[0]];
      case 2 => assert chunk == [chunk[0], chunk[1]];
      case _ => assert chunk == [chunk[0], chunk[1], chunk[2]];
    }
  }

  lemma SextetsOfGroup(v0: bv6, v1: bv6, v2: bv6, v3: bv6, chunk: seq<bv8>)
    requires 1 <= |chunk| <= 3
    requires var g := Group(v0, v1, v2, v3);
      && chunk[0] == Octet(g, 16)
      && (if |chunk| > 1 then chunk[1] else 0) == Octet(g, 8)
      && (if |chunk| > 2 then chunk[2] else 0) == Octet(g, 0)
    ensures var t := Triple(chunk);
      Sextet(t, 18) == v0 && Sextet(t, 12) == v1 && Sextet(t, 6) == v2 && Sextet(t, 0) == v3
  {
  }

  lemma NoThirdOctet(v0: bv6, v1: bv6)
    ensures Octet(Group(v0, v1, 0, 0), 0) == 0
  {
  }

  lemma ChunkOfQuantum(q: string, chunk: seq<bv8>)
    requires |q| == 4 && DecodeQuantum(q) == Some(chunk)
    ensures 1 <= |chunk| <= 3 && EncodeChunk(chunk) == q
  {
    hide Sextet, Octet, Triple, Group, Value, Symbol;
    match (Value(q[0]), Value(q[1]), Value(q[2]), Value(q[3])) {
      case (Some(v0), Some(v1), Some(v2), Some(v3)) =>
        SextetsOfGroup(v0, v1, v2, v3, chunk);
        ValueInvertsSymbol(q[0], v0);
        ValueInvertsSymbol(q[1], v1);
        ValueInvertsSymbol(q[2], v2);
        ValueInvertsSymbol(q[3], v3);
      case (Some(v0), Some(v1), Some(v2), None) =>
        SextetsOfGroup(v0, v1, v2, 0, chunk);
        ValueInvertsSymbol(q[0], v0);
        ValueInvertsSymbol(q[1], v1);
        ValueInvertsSymbol(q[2], v2);
      case (Some(v0), Some(v1), None, None) =>
        NoThirdOctet(v0, v1);
        SextetsOfGroup(v0, v1, 0, 0, chunk);
        ValueInvertsSymbol(q[0], v0);
        ValueInvertsSymbol(q[1], v1);
    }
  }

  /** Decoding undoes encoding, for every byte string. */
  lemma {:induction false} DecodeInvertsEncode(data: seq<bv8>)
    ensures Decode(Encode(data)) == Some(data)
    ensures data != [] ==> |Encode(data)| >= 4
  {
    if data != [] && |data| <= 3 {
      QuantumOfChunk(data);
    } else if data != [] {
      QuantumOfChunk(data[..3]);
      DecodeInvertsEncode(data[3..]);
      var s := Encode(data);
      assert s[..4] == EncodeChunk(data[..3]) && s[4..] == Encode(data[3..]);
      assert data == data[..3] + data[3..];
    }
  }

  /** The encoder's outputs are the only strings that decode: each byte string
      has exactly one encoding, and everything else is refused. */
  lemma {:induction false} DecodeAcceptsOnlyEncodings(s: string, data: seq<bv8>)
    ensures Decode(s) == Some(data) <==> s == Encode(data)
  {
    DecodeInvertsEncode(data);
    if Decode(s) == Some(data) {
      if |s| == 4 {
        ChunkOfQuantum(s, data);
      } else if |s| > 4 {
        var head, tail := DecodeQuantum(s[..4]).value, Decode(s[4..]).value;
        ChunkOfQuantum(s[..4], head);
        DecodeAcceptsOnlyEncodings(s[4..], tail);
        assert tail != [];
        assert data[..3] == head && data[3..] == tail;
        assert s == s[..4] + s[4..];
      }
    }
  }

  predicate InAlphabet(c: char) {
    exists i: nat :: i < 64 && SymbolAt(i) == c
  }

  /** `s` is symbols of the alphabet followed by `pads` pad characters. */
  predicate PaddedBy(s: string, pads: nat) {
    && pads <= |s|
    && (forall i :: 0 <= i < |s| - pads ==> InAlphabet(s[i]))
    && (forall i :: |s| - pads <= i < |s| ==> s[i] == '=')
  }

  lemma ChunkShape(chunk: seq<bv8>)
    requires 1 <= |chunk| <= 3
    ensures PaddedBy(EncodeChunk(chunk), 3 - |chunk|)
  {
  }

  lemma PaddedTail(head: string, tail: string, pads: nat)
    requires PaddedBy(head, 0) && PaddedBy(tail, pads)
    ensures PaddedBy(head + tail, pads)
  {
  }

  // -------------------------------------------------- the symbols of a chunk

  /** Table 1 of RFC 4648, by character code. */
  function Table1(v: int): char
    requires 0 <= v < 64
  {
    if v < 26 then (65 + v) as char
    else if v < 52 then (71 + v) as char
    else if v < 62 then (v - 4) as char
    else if v == 62 then '+' else '/'
  }

  lemma SymbolIsTable1(v: bv6)
    ensures Symbol(v) == Table1(v as int)
  {
    SymbolCodes(v as int);
  }

  lemma FirstSextet(b0: bv32, b1: bv32, b2: bv32)
    requires b0 < 256 && b1 < 256 && b2 < 256
    ensures (((b0 << 16) | (b1 << 8) | b2) >> 18) & 0x3F == b0 >> 2
  {
  }

  lemma SecondSextet(b0: bv32, b1: bv32, b2: bv32)
    requires b0 < 256 && b1 < 256 && b2 < 256
    ensures (((b0 << 16) | (b1 << 8) | b2) >> 12) & 0x3F == ((b0 & 3) << 4) | (b1 >> 4)
  {
  }

  lemma ThirdSextet(b0: bv32, b1: bv32, b2: bv32)
    requires b0 < 256 && b1 < 256 && b2 < 256
    ensures (((b0 << 16) | (b1 << 8) | b2) >> 6) & 0x3F == ((b1 & 15) << 2) | (b2 >> 6)
  {
  }

  lemma FourthSextet(b0: bv32, b1: bv32, b2: bv32)
    requires b0 < 256 && b1 < 256 && b2 < 256
    ensures ((b0 << 16) | (b1 << 8) | b2) & 0x3F == b2 & 63
  {
  }

  /** The `i`-th byte of a chunk, or zero if it is missing. */
  function ByteAt(chunk: seq<bv8>, i: nat): bv32 {
    if i < |chunk| then chunk[i] as bv32 else 0
  }

  /** The four sextets of a chunk as section 4 of RFC 4648 draws them. */
  function SextetAt(chunk: seq<bv8>, k: nat): bv32 {
    var b0, b1, b2 := ByteAt(chunk, 0), ByteAt(chunk, 1), ByteAt(chunk, 2);
    match k
    case 0 => b0 >> 2
    case 1 => ((b0 & 3) << 4) | (b1 >> 4)
    case 2 => ((b1 & 15) << 2) | (b2 >> 6)
    case _ => b2 & 63
  }

  lemma SextetsInOrder(chunk: seq<bv8>)
    requires 1 <= |chunk| <= 3
    ensures var t := Triple(chunk);
      && Sextet(t, 18) as bv32 == SextetAt(chunk, 0) && Sextet(t, 12) as bv32 == SextetAt(chunk, 1)
      && Sextet(t, 6) as bv32 == SextetAt(chunk, 2) && Sextet(t, 0) as bv32 == SextetAt(chunk, 3)
  {
    var b0, b1, b2 := ByteAt(chunk, 0), ByteAt(chunk, 1), ByteAt(chunk, 2);
    FirstSextet(b0, b1, b2);
    SecondSextet(b0, b1, b2);
    ThirdSextet(b0, b1, b2);
    FourthSextet(b0, b1, b2);
  }

  /** The `j`-th symbol of a chunk of `len` bytes with sextet `v` there. */
  function SymbolOf(v: bv32, j: nat, len: nat): char {
    if j > len then '=' else if v < 64 then Table1(v as int) else '='
  }

  lemma ChunkSymbols(chunk: seq<bv8>, j: nat)
    requires 1 <= |chunk| <= 3 && j < 4
    ensures j <= |chunk| ==> SextetAt(chunk, j) < 64
    ensures EncodeChunk(chunk)[j] == SymbolOf(SextetAt(chunk, j), j, |chunk|)
  {
    hide Triple, Sextet, Symbol, SextetAt, Table1;
    SextetsInOrder(chunk);
    var t := Triple(chunk);
    NarrowSextet(Sextet(t, 18));
    NarrowSextet(Sextet(t, 12));
    NarrowSextet(Sextet(t, 6));
    NarrowSextet(Sextet(t, 0));
  }

  lemma NarrowSextet(v: bv6)
    ensures (v as bv32) < 64 && Symbol(v) == Table1((v as bv32) as int)
  {
    SymbolIsTable1(v);
  }

  function ChunkAt(data: seq<bv8>, k: nat): seq<bv8>
    requires 3 * k < |data|
  {
    if 3 * k + 3 <= |data| then data[3 * k..3 * k + 3] else data[3 * k..]
  }

  lemma ChunkAtNext(data: seq<bv8>, k: nat)
    requires 0 < k && 3 * k < |data|
    ensures 3 * (k - 1) < |data[3..]| && ChunkAt(data[3..], k - 1) == ChunkAt(data, k)
  {
  }

  lemma ShiftedSlice(head: string, tail: string, i: nat)
    requires |head| == 4 && i + 4 <= |tail|
    ensures (head + tail)[i + 4..i + 8] == tail[i..i + 4]
  {
  }

  lemma {:induction false} EncodedChunkAt(data: seq<bv8>, k: nat)
    requires 3 * k < |data|
    ensures 4 * k + 4 <= |Encode(data)| && Encode(data)[4 * k..4 * k + 4] == EncodeChunk(ChunkAt(data, k))
  {
    hide EncodeChunk;
    if k == 0 {
      assert ChunkAt(data, 0) == if |data| <= 3 then data else data[..3];
    } else {
      ChunkAtNext(data, k);
      EncodedChunkAt(data[3..], k - 1);
      var head, tail, chunk := EncodeChunk(data[..3]), Encode(data[3..]), ChunkAt(data, k);
      assert Encode(data) == head + tail;
      ShiftedSlice(head, tail, 4 * k - 4);
      assert tail[4 * k - 4..4 * k] == EncodeChunk(chunk);
    }
  }

  /** Symbol `j` of the quantum of chunk `k` is the one that table 1 has for sextet `j`
      of that chunk, or a pad character where the chunk has too few bytes. */
  lemma SymbolsOfEncoding(data: seq<bv8>, k: nat, j: nat)
    requires 3 * k < |data| && j < 4
    ensures 4 * k + 4 <= |Encode(data)|
    ensures Encode(data)[4 * k + j] == SymbolOf(SextetAt(ChunkAt(data, k), j), j, |ChunkAt(data, k)|)
  {
    hide EncodeChunk, SextetAt, SymbolOf, Encode;
    EncodedChunkAt(data, k);
    ChunkSymbols(ChunkAt(data, k), j);
    assert Encode(data)[4 * k..4 * k + 4][j] == Encode(data)[4 * k + j];
  }

  /** The number of symbols, and of pad characters, for `n` bytes. */
  function Length(n: nat): nat { 4 * ((n + 2) / 3) }

  function Pads(n: nat): nat { (3 - n % 3) % 3 }

  lemma LastChunk(n: nat)
    requires 1 <= n <= 3
    ensures Length(n) == 4 && Pads(n) == 3 - n
  {
  }

  lemma NextChunk(n: nat)
    requires n > 3
    ensures Length(n) == 4 + Length(n - 3) && Pads(n) == Pads(n - 3)
  {
  }

  lemma ShortShape(data: seq<bv8>)
    requires |data| <= 3
    ensures |Encode(data)| == Length(|data|)
    ensures PaddedBy(Encode(data), Pads(|data|))
  {
    if data != [] {
      ChunkShape(data);
      LastChunk(|data|);
    }
    hide EncodeChunk, InAlphabet;
  }

  /** Four symbols for every three bytes begun; as many pad characters as the
      last chunk lacks bytes, all at the end. */
  lemma {:induction false} EncodedShape(data: seq<bv8>)
    ensures |Encode(data)| == Length(|data|)
    ensures PaddedBy(Encode(data), Pads(|data|))
  {
    hide EncodeChunk, PaddedBy, Length, Pads;
    if |data| <= 3 {
      ShortShape(data);
    } else {
      var head, tail := data[..3], data[3..];
      ChunkShape(head);
      EncodedShape(tail);
      NextChunk(|data|);
      PaddedTail(EncodeChunk(head), Encode(tail), Pads(|tail|));
    }
  }
}
