/**
  The V2 payload: a 40-byte big-endian header, then the counts as zero runs and
  counts in ZigZag form, each written in LEB128 (section 7.6 of DWARF 5). The
  encoders of the Go and PHP engines against the decoder of the Ruby engine.
 */
module CountsCodec {
  import opened Arithmetic
  import opened FixedWidth
  import opened HdrCounts
  import opened Wrappers

  // ----- ZigZag ------------------------------------------------------------------

  function ZigZag(v: int): nat {
    if v >= 0 then 2 * v else -2 * v - 1
  }

  function UnZigZag(zz: nat): int {
    if zz % 2 == 0 then zz / 2 else -(zz / 2) - 1
  }

  /** (value << 1) ^ (value >> 63), read as an unsigned 64-bit number. */
  function ZigZagBits(v: Int64): nat {
    BitXor((2 * v) % TWO64, if v < 0 then TWO64 - 1 else 0)
  }

  lemma {:induction false} BitXorOnes(a: nat, n: nat)
    requires a < Pow2(n)
    ensures BitXor(a, Pow2(n) - 1) == Pow2(n) - 1 - a
  {
    if n > 0 {
      BitXorOnes(a / 2, n - 1);
      var ones := Pow2(n) - 1;
      assert ones % 2 == 1 && ones / 2 == Pow2(n - 1) - 1;
    }
  }

  lemma ZigZagBitsIsZigZag(v: Int64)
    ensures ZigZagBits(v) == ZigZag(v) < TWO64
  {
    if v < 0 {
      Pow2Values();
      assert (2 * v) % TWO64 == 2 * v + TWO64;
      BitXorOnes(2 * v + TWO64, 64);
    } else {
      BitXorZero((2 * v) % TWO64);
    }
  }

  lemma ZigZagValues()
    ensures ZigZag(0) == 0 && ZigZag(-1) == 1 && ZigZag(1) == 2 && ZigZag(-2) == 3 && ZigZag(2) == 4
  {
  }

  // ----- LEB128 ------------------------------------------------------------------

  function Leb(n: nat): (bytes: seq<Byte>)
    ensures |bytes| > 0
  {
    if n < 128 then [n] else [n % 128 + 128] + Leb(n / 128)
  }

  /**
    Seven bits a byte, the least significant first, the high bit on all bytes but the
    last, and no more bytes than the number needs.
   */
  lemma {:induction false} LebGroups(n: nat, i: nat)
    requires i < |Leb(n)|
    ensures Leb(n)[i] == n / Pow2(7 * i) % 128 + if i + 1 < |Leb(n)| then 128 else 0
    decreases n
  {
    if n >= 128 && i > 0 {
      LebGroups(n / 128, i - 1);
      SevenMore(n, i - 1);
    }
  }

  lemma SevenMore(n: nat, i: nat)
    ensures n / Pow2(7 * (i + 1)) == n / 128 / Pow2(7 * i)
  {
    Pow2Values();
    Pow2Add(7, 7 * i);
    DivDiv(n, 128, Pow2(7 * i));
  }

  lemma {:induction false} LebLength(n: nat)
    ensures n < Pow2(7 * |Leb(n)|) && (|Leb(n)| > 1 ==> n >= Pow2(7 * |Leb(n)| - 7))
    decreases n
  {
    if n >= 128 {
      var k := |Leb(n / 128)|;
      LebLength(n / 128);
      PowerOfGroups(k);
      PowerOfGroups(k - 1);
    } else {
      PowerOfGroups(0);
    }
  }

  lemma PowerOfGroups(k: nat)
    ensures Pow2(7 * k + 7) == 128 * Pow2(7 * k)
  {
    Pow2Values();
    Pow2Add(7, 7 * k);
  }

  /** The number at an offset and its length, or None when the data ends first. */
  function ReadLeb(data: seq<Byte>, offset: nat): (r: Option<(nat, nat)>)
    ensures r.Some? ==> r.value.1 > 0 && offset + r.value.1 <= |data|
    decreases |data| - offset
  {
    if offset >= |data| then None
    else if data[offset] < 128 then Some((data[offset], 1))
    else
      match ReadLeb(data, offset + 1)
      case None => None
      case Some((v, n)) => Some((data[offset] % 128 + 128 * v, n + 1))
  }

  lemma {:induction false} ReadLebOfLeb(pre: seq<Byte>, n: nat, post: seq<Byte>)
    ensures ReadLeb(pre + Leb(n) + post, |pre|) == Some((n, |Leb(n)|))
    decreases n
  {
    var data := pre + Leb(n) + post;
    assert data[|pre|] == Leb(n)[0];
    if n >= 128 {
      ReadLebOfLeb(pre + [n % 128 + 128], n / 128, post);
      assert pre + [n % 128 + 128] + Leb(n / 128) + post == data;
    }
  }

  /** Go: the loop of appendZigZag over an unsigned value. */
  method AppendZigZag(dst: seq<Byte>, value: Int64) returns (out: seq<Byte>)
    ensures out == dst + Leb(ZigZag(value))
  {
    ZigZagBitsIsZigZag(value);
    var zz := ZigZagBits(value);
    out := dst;
    while true
      invariant out + Leb(zz) == dst + Leb(ZigZag(value))
      decreases zz
    {
      if zz - zz % 128 == 0 {
        return out + [zz % 128];
      }
      out := out + [zz % 128 + 128];
      zz := zz / 128;
    }
  }

  /** PHP: unsigned right shift by seven of a signed 64-bit value. */
  function LogicalShiftRight7(zz: Int64): nat {
    (zz / 128) % TWO57
  }

  function Unsigned(zz: Int64): nat {
    zz % TWO64
  }

  lemma LogicalShiftIsUnsigned(zz: Int64)
    ensures zz % 128 == Unsigned(zz) % 128
    ensures zz - zz % 128 == 0 <==> Unsigned(zz) < 128
    ensures LogicalShiftRight7(zz) < TWO57 && Unsigned(LogicalShiftRight7(zz)) == Unsigned(zz) / 128
  {
    UnsignedIs(zz);
    var u, n := Unsigned(zz), if zz < 0 then 1 else 0;
    assert u == zz + 128 * (TWO57 * n);
    ModAddMultiple(zz, 128, TWO57 * n);
    ModAddMultiple(zz / 128, TWO57, n);
    DivModUnique(u / 128, TWO57, 0, u / 128);
    DivModUnique(u / 128, TWO64, 0, u / 128);
  }

  lemma UnsignedIs(zz: Int64)
    ensures Unsigned(zz) == if zz < 0 then zz + TWO64 else zz
  {
  }

  lemma WrapKeepsUnsigned(u: nat)
    requires u < TWO64
    ensures Unsigned(WrapInt64(u)) == u
  {
  }

  /** One group of seven bits, as the signed loop takes it. */
  lemma SignedGroup(zz: Int64, before: seq<Byte>)
    ensures LogicalShiftRight7(zz) < TWO57 && Unsigned(LogicalShiftRight7(zz)) == Unsigned(zz) / 128
    ensures if zz - zz % 128 == 0 then Leb(Unsigned(zz)) == [zz % 128]
            else Unsigned(zz) >= 128 && before + Leb(Unsigned(zz)) ==
                 before + [zz % 128 + 128] + Leb(Unsigned(LogicalShiftRight7(zz)))
  {
    LogicalShiftIsUnsigned(zz);
    LebGroup(Unsigned(zz), zz % 128, before);
  }

  lemma LebGroup(u: nat, group: Byte, before: seq<Byte>)
    requires group == u % 128
    ensures if u < 128 then Leb(u) == [group] else before + Leb(u) == before + [group + 128] + Leb(u / 128)
  {
    if u >= 128 {
      Regroup(before, [group + 128], Leb(u / 128));
    }
  }

  /** PHP: the same bytes from signed integers. */
  method EncodeZigZagSigned(value: Int64) returns (result: seq<Byte>)
    ensures result == Leb(ZigZag(value))
  {
    ZigZagBitsIsZigZag(value);
    WrapKeepsUnsigned(ZigZag(value));
    var zz: Int64 := WrapInt64(ZigZagBits(value));
    result := [];
    while true
      invariant result + Leb(Unsigned(zz)) == Leb(ZigZag(value))
      decreases Unsigned(zz)
    {
      SignedGroup(zz, result);
      if zz - zz % 128 == 0 {
        return result + [zz % 128];
      }
      result := result + [zz % 128 + 128];
      zz := LogicalShiftRight7(zz);
    }
  }

  /** Reading with an accumulator zz and the place value p of the next group. */
  function ReadGroups(data: seq<Byte>, offset: nat, zz: nat, p: nat): Option<(nat, nat)>
    decreases |data| - offset
  {
    if offset >= |data| then None
    else
      var sum := AddGroup(zz, data[offset] % 128, p);
      if data[offset] < 128 then Some((sum, offset + 1)) else ReadGroups(data, offset + 1, sum, p * 128)
  }

  function AddGroup(zz: nat, group: nat, p: nat): (r: nat)
    ensures r == zz + group * p
  {
    assert group * p >= 0;
    zz + group * p
  }

  lemma {:induction false} ReadGroupsIsReadLeb(data: seq<Byte>, offset: nat, zz: nat, p: nat)
    ensures match ReadLeb(data, offset)
            case None => ReadGroups(data, offset, zz, p) == None
            case Some((v, n)) => ReadGroups(data, offset, zz, p) == Some((AddGroup(zz, v, p), offset + n))
    decreases |data| - offset
  {
    if offset < |data| {
      ReadGroupsIsReadLeb(data, offset + 1, AddGroup(zz, data[offset] % 128, p), p * 128);
      match ReadLeb(data, offset + 1)
      case None =>
      case Some((v, n)) => Distribute(data[offset] % 128, v, p);
    }
  }

  lemma Distribute(g: int, v: int, p: int)
    ensures (g + 128 * v) * p == g * p + v * (p * 128)
  {
  }

  /** Ruby: or each seven-bit group in at its shift; (0, 0) when the data ends first. */
  method DecodeZigZag(data: seq<Byte>, offset: nat) returns (value: int, bytesRead: nat)
    ensures match ReadLeb(data, offset)
            case None => value == 0 && bytesRead == 0
            case Some((zz, n)) => value == UnZigZag(zz) && bytesRead == n
  {
    var zz, shift := 0, 0;
    bytesRead := 0;
    ReadGroupsIsReadLeb(data, offset, 0, 1);
    while true
      invariant 0 <= zz < Pow2(shift)
      invariant ReadGroups(data, offset + bytesRead, zz, Pow2(shift)) == ReadGroups(data, offset, 0, 1)
      decreases |data| - bytesRead
    {
      if offset + bytesRead >= |data| {
        return 0, 0;
      }
      var b := data[offset + bytesRead];
      OrIsAdd(zz, b % 128, shift);
      zz := BitOr(zz, b % 128 * Pow2(shift));
      bytesRead := bytesRead + 1;
      if b < 128 {
        break;
      }
      shift := shift + 7;
    }
    UnZigZagBits(zz);
    value := XorSigned(zz / 2, -(zz % 2));
  }

  /** (zz >> 1) ^ -(zz & 1) undoes ZigZag. */
  lemma UnZigZagBits(zz: nat)
    ensures XorSigned(zz / 2, -(zz % 2)) == UnZigZag(zz)
  {
    BitXorZero(zz / 2);
  }

  lemma OrIsAdd(zz: nat, group: nat, shift: nat)
    requires zz < Pow2(shift) && group < 128
    ensures group * Pow2(shift) >= 0
    ensures BitOr(zz, group * Pow2(shift)) == AddGroup(zz, group, Pow2(shift)) < Pow2(shift + 7)
    ensures Pow2(shift + 7) == Pow2(shift) * 128
  {
    BitOrDisjoint(zz, group, shift);
    Pow2Add(shift, 7);
    assert Pow2(7) == 128;
    MulLess(group, 128, Pow2(shift));
  }

  // ----- zero runs ---------------------------------------------------------------

  /** The number of leading zeros. */
  function ZeroRun(s: seq<nat>): (z: nat)
    ensures z <= |s| && forall i :: 0 <= i < z ==> s[i] == 0
    ensures z < |s| ==> s[z] != 0
  {
    if s == [] || s[0] != 0 then 0 else 1 + ZeroRun(s[1..])
  }

  function ZeroToken(z: nat): (t: int)
    ensures t + z == 0
  {
    -(z as int)
  }

  /** Counts as tokens: a positive token is a count, a negative one a run of zeros. */
  function Tokens(s: seq<nat>): seq<int>
    decreases |s|
  {
    if s == [] then []
    else if s[0] == 0 then
      [ZeroToken(ZeroRun(s))] + Tokens(s[ZeroRun(s)..])
    else [s[0]] + Tokens(s[1..])
  }

  function Bytes(tokens: seq<int>): seq<Byte> {
    if tokens == [] then [] else Leb(ZigZag(tokens[0])) + Bytes(tokens[1..])
  }

  function Encode(s: seq<nat>): seq<Byte> {
    Bytes(Tokens(s))
  }

  /** The first n counts of a histogram. */
  function Dense(c: Counts, n: nat): (s: seq<nat>)
    ensures |s| == n && forall i :: 0 <= i < n ==> s[i] == At(c, i)
  {
    seq(n, i requires 0 <= i < n => At(c, i))
  }

  /** The inner loop of encodeCounts: extend a run of zeros that starts at i. */
  method CountZeros(c: Counts, i: nat, relevant: nat) returns (zeros: nat)
    requires i < relevant && At(c, i) == 0
    ensures 1 <= zeros <= relevant - i && zeros == ZeroRun(Dense(c, relevant)[i..])
  {
    zeros := 1;
    while i + zeros < relevant && At(c, i + zeros) == 0
      invariant 1 <= zeros <= relevant - i
      invariant forall k :: i <= k < i + zeros ==> At(c, k) == 0
    {
      zeros := zeros + 1;
    }
    RunLength(Dense(c, relevant)[i..], zeros);
  }

  /** Go: encodeCounts. */
  method EncodeCounts(c: Counts, relevant: nat) returns (out: seq<Byte>)
    requires relevant < TWO63 && forall i <- c :: c[i] < TWO63
    ensures out == Encode(Dense(c, relevant))
  {
    var i := 0;
    out := [];
    ghost var s := Dense(c, relevant);
    while i < relevant
      invariant 0 <= i <= relevant
      invariant out + Encode(s[i..]) == Encode(s)
    {
      out, i := EncodeNext(c, relevant, i, out);
    }
  }

  /** One pass of the loop: a count, or a maximal run of zeros. */
  method EncodeNext(c: Counts, relevant: nat, i: nat, before: seq<Byte>) returns (out: seq<Byte>, next: nat)
    requires i < relevant < TWO63 && forall k <- c :: c[k] < TWO63
    ensures i < next <= relevant
    ensures out + Encode(Dense(c, relevant)[next..]) == before + Encode(Dense(c, relevant)[i..])
  {
    var count := At(c, i);
    if count == 0 {
      var zeros := CountZeros(c, i, relevant);
      EncodeRunAt(before, Dense(c, relevant), i, zeros);
      out := AppendZigZag(before, -(zeros as int));
      next := i + zeros;
    } else {
      EncodeCountAt(before, Dense(c, relevant), i);
      out := AppendZigZag(before, count);
      next := i + 1;
    }
  }

  lemma Regroup<T>(a: seq<T>, b: seq<T>, c: seq<T>)
    ensures a + b + c == a + (b + c)
  {
  }

  lemma RunLength(s: seq<nat>, z: nat)
    requires 0 < z <= |s| && forall i :: 0 <= i < z ==> s[i] == 0
    requires z < |s| ==> s[z] != 0
    ensures ZeroRun(s) == z
  {
    if z > 1 {
      RunLength(s[1..], z - 1);
    }
  }

  lemma EncodeRun(s: seq<nat>, z: nat)
    requires 0 < z <= |s| && ZeroRun(s) == z
    ensures Encode(s) == Leb(ZigZag(ZeroToken(z))) + Encode(s[z..])
  {
    assert Tokens(s) == [ZeroToken(z)] + Tokens(s[z..]);
    assert Tokens(s)[1..] == Tokens(s[z..]);
  }

  lemma EncodeCount(s: seq<nat>)
    requires s != [] && s[0] > 0
    ensures Encode(s) == Leb(ZigZag(s[0])) + Encode(s[1..])
  {
    assert Tokens(s)[1..] == Tokens(s[1..]);
  }

  /** Two zeros, a five, a one: the run as -2, then the counts. */
  lemma EncodeExample()
    ensures Encode([0, 0, 5, 100]) == [3, 10, 200, 1]
  {
    var s: seq<nat> := [0, 0, 5, 100];
    var t: seq<nat> := [5, 100];
    var u: seq<nat> := [100];
    RunLength(s, 2);
    EncodeRun(s, 2);
    EncodeCount(t);
    EncodeCount(u);
    assert s[2..] == t && t[1..] == u && u[1..] == [];
    assert Encode([]) == [];
    assert Leb(1) == [1] && Leb(200) == [200] + [1];
  }

  // ----- decoding ----------------------------------------------------------------

  /** The loop's step over a run of zeros at index i. */
  lemma EncodeRunAt(before: seq<Byte>, s: seq<nat>, i: nat, z: nat)
    requires i + z <= |s| && z > 0 && ZeroRun(s[i..]) == z
    ensures before + Encode(s[i..]) == before + Leb(ZigZag(ZeroToken(z))) + Encode(s[i + z..])
  {
    EncodeRun(s[i..], z);
    assert s[i..][z..] == s[i + z..];
    Regroup(before, Leb(ZigZag(ZeroToken(z))), Encode(s[i + z..]));
  }

  /** And over a count. */
  lemma EncodeCountAt(before: seq<Byte>, s: seq<nat>, i: nat)
    requires i < |s| && s[i] > 0
    ensures before + Encode(s[i..]) == before + Leb(ZigZag(s[i])) + Encode(s[i + 1..])
  {
    EncodeCount(s[i..]);
    assert s[i..][1..] == s[i + 1..];
    Regroup(before, Leb(ZigZag(s[i])), Encode(s[i + 1..]));
  }

  datatype Decoded = Decoded(counts: Counts, index: nat, offset: nat)

  function DecodeFrom(data: seq<Byte>, offset: nat, index: nat, counts: Counts): Decoded
    decreases |data| - offset
  {
    match ReadLeb(data, offset)
    case None => Decoded(counts, index, offset)
    case Some((zz, n)) =>
      var value := UnZigZag(zz);
      if value < 0 then DecodeFrom(data, offset + n, index - value, counts)
      else DecodeFrom(data, offset + n, index + 1, if value > 0 then counts[index := value] else counts)
  }

  /** A zero is a count of its own, more bytes than needed are read, and a truncated number ends the counts. */
  lemma DecodeExample()
    ensures DecodeFrom([0, 0x80, 0, 0x82, 0, 3, 4, 0x80], 0, 0, map[]) == Decoded(map[2 := 1, 5 := 2], 6, 7)
  {
    var data: seq<Byte> := [0, 0x80, 0, 0x82, 0, 3, 4, 0x80];
    assert ReadLeb(data, 0) == Some((0, 1));
    assert ReadLeb(data, 2) == Some((0, 1)) && ReadLeb(data, 1) == Some((0, 2));
    assert ReadLeb(data, 4) == Some((0, 1)) && ReadLeb(data, 3) == Some((2, 2));
    assert ReadLeb(data, 5) == Some((3, 1)) && ReadLeb(data, 6) == Some((4, 1));
    assert ReadLeb(data, 8) == None && ReadLeb(data, 7) == None;
    var counts: Counts := map[2 := 1];
    assert DecodeFrom(data, 7, 6, counts[5 := 2]) == Decoded(counts[5 := 2], 6, 7);
    assert DecodeFrom(data, 5, 3, counts) == DecodeFrom(data, 6, 5, counts);
    assert DecodeFrom(data, 3, 2, map[]) == DecodeFrom(data, 5, 3, counts);
  }

  /** Ruby: the counts loop of decode_v2. */
  method DecodeCounts(data: seq<Byte>) returns (d: Decoded)
    ensures d == DecodeFrom(data, 0, 0, map[])
  {
    var offset, index := 0, 0;
    var counts: Counts := map[];
    while offset < |data|
      invariant 0 <= offset <= |data| && 0 <= index
      invariant DecodeFrom(data, offset, index, counts) == DecodeFrom(data, 0, 0, map[])
      decreases |data| - offset
    {
      var value, bytesRead := DecodeZigZag(data, offset);
      if bytesRead == 0 {
        break;
      }
      if value < 0 {
        index := index + (-value);
      } else {
        if value > 0 {
          counts := counts[index := value];
        }
        index := index + 1;
      }
      offset := offset + bytesRead;
    }
    d := Decoded(counts, index, offset);
  }

  /** c with the non-zero entries of s written from index k. */
  function Place(c: Counts, s: seq<nat>, k: nat): Counts
    decreases |s|
  {
    if s == [] then c
    else Place(if s[0] > 0 then c[k := s[0]] else c, s[1..], k + 1)
  }

  lemma {:induction false} PlaceAt(c: Counts, s: seq<nat>, k: nat)
    requires Normal(c)
    ensures Normal(Place(c, s, k))
    ensures forall i: nat :: At(Place(c, s, k), i) == if k <= i < k + |s| && s[i - k] > 0 then s[i - k] else At(c, i)
    decreases |s|
  {
    if s != [] {
      PlaceAt(if s[0] > 0 then c[k := s[0]] else c, s[1..], k + 1);
    }
  }

  lemma {:induction false} PlaceRun(c: Counts, s: seq<nat>, k: nat, z: nat)
    requires z <= |s| && forall i :: 0 <= i < z ==> s[i] == 0
    ensures Place(c, s, k) == Place(c, s[z..], k + z)
    decreases z
  {
    if z > 0 {
      PlaceRun(c, s[1..], k + 1, z - 1);
      assert s[1..][z - 1..] == s[z..];
    } else {
      assert s[0..] == s;
    }
  }

  /** Reading one token in front of the encoding of the rest. */
  lemma DecodeOne(pre: seq<Byte>, token: int, rest: seq<Byte>, k: nat, c: Counts)
    ensures var bytes := Leb(ZigZag(token));
            DecodeFrom(pre + (bytes + rest), |pre|, k, c) ==
            DecodeFrom(pre + bytes + rest, |pre + bytes|,
                       if token < 0 then k - token else k + 1,
                       if token > 0 then c[k := token] else c)
  {
    var bytes := Leb(ZigZag(token));
    Regroup(pre, bytes, rest);
    ReadLebOfLeb(pre, ZigZag(token), rest);
  }

  /** When the rest decodes to the end, so does the token with the rest. */
  lemma DecodeFirst(pre: seq<Byte>, token: int, rest: seq<Byte>, k: nat, c: Counts, counts: Counts, index: nat)
    requires var data := pre + Leb(ZigZag(token)) + rest;
             DecodeFrom(data, |pre + Leb(ZigZag(token))|, if token < 0 then k - token else k + 1,
                        if token > 0 then c[k := token] else c)
             == Decoded(counts, index, |data|)
    ensures var data := pre + (Leb(ZigZag(token)) + rest);
            DecodeFrom(data, |pre|, k, c) == Decoded(counts, index, |data|)
  {
    DecodeOne(pre, token, rest, k, c);
    Regroup(pre, Leb(ZigZag(token)), rest);
  }

  lemma DecodeZeros(pre: seq<Byte>, s: seq<nat>, z: nat, k: nat, c: Counts)
    requires 0 < z <= |s| && forall i :: 0 <= i < z ==> s[i] == 0
    requires Encode(s) == Leb(ZigZag(ZeroToken(z))) + Encode(s[z..])
    requires var start := pre + Leb(ZigZag(ZeroToken(z)));
             DecodeFrom(start + Encode(s[z..]), |start|, k + z, c)
             == Decoded(Place(c, s[z..], k + z), k + |s|, |start + Encode(s[z..])|)
    ensures DecodeFrom(pre + Encode(s), |pre|, k, c) == Decoded(Place(c, s, k), k + |s|, |pre + Encode(s)|)
  {
    PlaceRun(c, s, k, z);
    DecodeFirst(pre, ZeroToken(z), Encode(s[z..]), k, c, Place(c, s[z..], k + z), k + |s|);
  }

  lemma DecodeCount(pre: seq<Byte>, s: seq<nat>, k: nat, c: Counts)
    requires s != [] && s[0] > 0 && Encode(s) == Leb(ZigZag(s[0])) + Encode(s[1..])
    requires var start := pre + Leb(ZigZag(s[0]));
             DecodeFrom(start + Encode(s[1..]), |start|, k + 1, c[k := s[0]])
             == Decoded(Place(c[k := s[0]], s[1..], k + 1), k + |s|, |start + Encode(s[1..])|)
    ensures DecodeFrom(pre + Encode(s), |pre|, k, c) == Decoded(Place(c, s, k), k + |s|, |pre + Encode(s)|)
  {
    DecodeFirst(pre, s[0], Encode(s[1..]), k, c, Place(c[k := s[0]], s[1..], k + 1), k + |s|);
  }

  lemma {:induction false} DecodeTokens(pre: seq<Byte>, s: seq<nat>, k: nat, c: Counts)
    ensures DecodeFrom(pre + Encode(s), |pre|, k, c) == Decoded(Place(c, s, k), k + |s|, |pre + Encode(s)|)
    decreases |s|
  {
    if s == [] {
    } else if s[0] == 0 {
      var z := ZeroRun(s);
      DecodeTokens(pre + Leb(ZigZag(ZeroToken(z))), s[z..], k + z, c);
      EncodeRun(s, z);
      DecodeZeros(pre, s, z, k, c);
    } else {
      DecodeTokens(pre + Leb(ZigZag(s[0])), s[1..], k + 1, c[k := s[0]]);
      EncodeCount(s);
      DecodeCount(pre, s, k, c);
    }
  }

  /** Decoding an encoded histogram gives its counts back and consumes every byte. */
  lemma RoundTrip(c: Counts, relevant: nat)
    requires Normal(c) && Within(c, relevant)
    ensures var data := Encode(Dense(c, relevant));
            DecodeFrom(data, 0, 0, map[]) == Decoded(c, relevant, |data|)
  {
    var s := Dense(c, relevant);
    DecodeTokens([], s, 0, map[]);
    assert [] + Encode(s) == Encode(s);
    PlaceAt(map[], s, 0);
    NormalEqual(Place(map[], s, 0), c);
  }

  // ----- header ------------------------------------------------------------------

  const V2_COOKIE_BASE := 0x1c849303
  const V2_COOKIE := 0x1c849313
  const ONE_AS_DOUBLE_BITS := 0x3FF0_0000_0000_0000

  function BigEndian(value: nat, n: nat): (bytes: seq<Byte>)
    ensures |bytes| == n
  {
    if n == 0 then [] else BigEndian(value / 256, n - 1) + [value % 256]
  }

  function FromBigEndian(bytes: seq<Byte>): nat {
    if bytes == [] then 0
    else 256 * FromBigEndian(bytes[..|bytes| - 1]) + bytes[|bytes| - 1]
  }

  lemma {:induction false} BigEndianRoundTrip(value: nat, n: nat)
    requires value < Pow2(8 * n)
    ensures FromBigEndian(BigEndian(value, n)) == value
  {
    if n > 0 {
      Pow2Add(8, 8 * (n - 1));
      assert Pow2(8) == 256;
      BigEndianRoundTrip(value / 256, n - 1);
      assert BigEndian(value, n)[..n - 1] == BigEndian(value / 256, n - 1);
    }
  }

  /** The most significant byte comes first. */
  lemma {:induction false} BigEndianByte(value: nat, n: nat, k: nat)
    requires k < n
    ensures BigEndian(value, n)[k] == value / Pow2(8 * (n - 1 - k)) % 256
  {
    if k < n - 1 {
      BigEndianByte(value / 256, n - 1, k);
      Pow2Add(8, 8 * (n - 2 - k));
      Pow2Values();
      DivDiv(value, 256, Pow2(8 * (n - 2 - k)));
    }
  }

  lemma FourBytes(value: nat)
    ensures BigEndian(value, 4) ==
            [value / 0x100_0000 % 256, value / 0x1_0000 % 256, value / 0x100 % 256, value % 256]
  {
    Pow2Values();
    Pow2Add(8, 16);
    BigEndianByte(value, 4, 0);
    BigEndianByte(value, 4, 1);
    BigEndianByte(value, 4, 2);
    BigEndianByte(value, 4, 3);
  }

  lemma EightBytes(value: nat)
    ensures BigEndian(value, 8) == BigEndian(value / 0x1_0000_0000, 4) + BigEndian(value, 4)
  {
    forall k | 0 <= k < 8
      ensures BigEndian(value, 8)[k] == (BigEndian(value / 0x1_0000_0000, 4) + BigEndian(value, 4))[k]
    {
      EightByte(value, k);
    }
  }

  lemma EightByte(value: nat, k: nat)
    requires k < 8
    ensures BigEndian(value, 8)[k] ==
            if k < 4 then BigEndian(value / 0x1_0000_0000, 4)[k] else BigEndian(value, 4)[k - 4]
  {
    BigEndianByte(value, 8, k);
    if k < 4 {
      Pow2Values();
      BigEndianByte(value / 0x1_0000_0000, 4, k);
      Pow2Add(32, 8 * (3 - k));
      DivDiv(value, 0x1_0000_0000, Pow2(8 * (3 - k)));
    } else {
      BigEndianByte(value, 4, k - 4);
    }
  }

  datatype Payload = Payload(lowest: int, highest: int, sigFigs: nat, counts: Counts)

  /** cookie & ~0xF0. */
  function CookieBase(cookie: nat): int {
    cookie - cookie / 16 % 16 * 16
  }

  function Header(p: Payload, countsLength: nat): (bytes: seq<Byte>)
    requires 0 <= p.lowest && 0 <= p.highest
    ensures |bytes| == 40
  {
    BigEndian(V2_COOKIE, 4) + BigEndian(countsLength, 4) + BigEndian(0, 4) + BigEndian(p.sigFigs, 4) +
    BigEndian(p.lowest, 8) + BigEndian(p.highest, 8) + BigEndian(ONE_AS_DOUBLE_BITS, 8)
  }

  function EncodeV2(p: Payload, relevant: nat): seq<Byte>
    requires 0 <= p.lowest && 0 <= p.highest
  {
    var counts := Encode(Dense(p.counts, relevant));
    Header(p, |counts|) + counts
  }

  function DecodeV2(data: seq<Byte>): Result<Payload> {
    if |data| < 40 then Err("truncated header")
    else if CookieBase(FromBigEndian(data[0..4])) != V2_COOKIE_BASE then Err("Invalid V2 encoding cookie")
    else
      var lowest := WrapInt64(FromBigEndian(data[16..24]));
      var highest := WrapInt64(FromBigEndian(data[24..32]));
      Ok(Payload(lowest, highest, FromBigEndian(data[12..16]), DecodeFrom(data[40..], 0, 0, map[]).counts))
  }

  lemma FromFourBytes(a: Byte, b: Byte, c: Byte, d: Byte)
    ensures FromBigEndian([a, b, c, d]) == a * 0x100_0000 + b * 0x1_0000 + c * 0x100 + d
  {
    FromLast([a, b, c], d);
    FromLast([a, b], c);
    FromLast([a], b);
    FromLast([], a);
    assert [a, b, c] + [d] == [a, b, c, d] && [a, b] + [c] == [a, b, c] && [a] + [b] == [a, b] && [] + [a] == [a];
  }

  lemma FromLast(front: seq<Byte>, last: Byte)
    ensures FromBigEndian(front + [last]) == 256 * FromBigEndian(front) + last
  {
    assert (front + [last])[..|front|] == front;
  }

  lemma CookieOfBytes(a: Byte, b: Byte, c: Byte, d: Byte)
    ensures CookieBase(a * 0x100_0000 + b * 0x1_0000 + c * 0x100 + d) == V2_COOKIE_BASE <==>
            a == 0x1c && b == 0x84 && c == 0x93 && d % 16 == 3
  {
    WithoutWordSize(a * 0x1_0000 + b * 0x100 + c, d);
    SameBytes(a, b, c, d % 16);
  }

  lemma WithoutWordSize(high: nat, d: Byte)
    ensures CookieBase(high * 0x100 + d) == high * 0x100 + d % 16
  {
    DivModUnique(high * 0x100 + d, 16, high * 16 + d / 16, d % 16);
    DivModUnique(high * 16 + d / 16, 16, high, d / 16);
  }

  lemma SameBytes(a: Byte, b: Byte, c: Byte, d: Byte)
    ensures a * 0x100_0000 + b * 0x1_0000 + c * 0x100 + d == 0x1c84_9303 <==>
            a == 0x1c && b == 0x84 && c == 0x93 && d == 3
  {
  }

  /** Data is decoded exactly when it holds a header whose cookie is that of V2, with any word size. */
  lemma DecodesIff(data: seq<Byte>)
    ensures DecodeV2(data).Ok? <==>
            |data| >= 40 && data[0] == 0x1c && data[1] == 0x84 && data[2] == 0x93 && data[3] % 16 == 3
  {
    if |data| >= 40 {
      assert data[0..4] == [data[0], data[1], data[2], data[3]];
      FromFourBytes(data[0], data[1], data[2], data[3]);
      CookieOfBytes(data[0], data[1], data[2], data[3]);
    }
  }

  lemma HeaderSlices<T>(a: seq<T>, b: seq<T>, c: seq<T>, d: seq<T>, e: seq<T>, f: seq<T>, g: seq<T>, rest: seq<T>)
    requires |a| == |b| == |c| == |d| == 4 && |e| == |f| == |g| == 8
    ensures var data := a + b + c + d + e + f + g + rest;
            && data[0..4] == a && data[4..8] == b && data[8..12] == c && data[12..16] == d
            && data[16..24] == e && data[24..32] == f && data[32..40] == g && data[40..] == rest
  {
  }

  lemma LiteralBytes()
    ensures BigEndian(V2_COOKIE, 4) == [0x1c, 0x84, 0x93, 0x13] && BigEndian(0, 4) == [0, 0, 0, 0]
  {
    FourBytes(V2_COOKIE);
    FourBytes(0);
  }

  lemma OneBytes(one: nat)
    requires one == 0x3FF0_0000_0000_0000
    ensures BigEndian(one, 8) == [0x3F, 0xF0, 0, 0, 0, 0, 0, 0]
  {
    var high := one / 0x1_0000_0000;
    OneParts(one, high);
    EightBytes(one);
    FourBytes(high);
    FourBytes(one);
  }

  lemma OneParts(one: nat, high: nat)
    requires one == 0x3FF0_0000_0000_0000 && high == one / 0x1_0000_0000
    ensures one / 0x100_0000 % 256 == one / 0x1_0000 % 256 == one / 0x100 % 256 == one % 256 == 0
    ensures high / 0x100_0000 % 256 == 0x3F && high / 0x1_0000 % 256 == 0xF0
    ensures high / 0x100 % 256 == high % 256 == 0
  {
  }

  /**
    The header's bytes: numbers with the most significant byte first, and the
    conversion ratio as the double 1.0. FourBytes and EightBytes say which bytes
    the numbers have.
   */
  lemma HeaderFields(p: Payload, counts: seq<Byte>)
    requires 0 <= p.lowest && 0 <= p.highest
    ensures var data := Header(p, |counts|) + counts;
            && data[0..4] == [0x1c, 0x84, 0x93, 0x13]
            && data[4..8] == BigEndian(|counts|, 4)
            && data[8..12] == [0, 0, 0, 0]
            && data[12..16] == BigEndian(p.sigFigs, 4)
            && data[16..24] == BigEndian(p.lowest, 8)
            && data[24..32] == BigEndian(p.highest, 8)
            && data[32..40] == [0x3F, 0xF0, 0, 0, 0, 0, 0, 0]
            && data[40..] == counts
  {
    HeaderSlices(BigEndian(V2_COOKIE, 4), BigEndian(|counts|, 4), BigEndian(0, 4), BigEndian(p.sigFigs, 4),
                 BigEndian(p.lowest, 8), BigEndian(p.highest, 8), BigEndian(ONE_AS_DOUBLE_BITS, 8), counts);
    LiteralBytes();
    OneBytes(ONE_AS_DOUBLE_BITS);
  }

  /** Read as numbers, they are what the payload was made from. */
  lemma HeaderValues(p: Payload, counts: seq<Byte>)
    requires 0 <= p.lowest < TWO63 && 0 <= p.highest < TWO63 && p.sigFigs < 0x1_0000_0000
    ensures var data := Header(p, |counts|) + counts;
            && FromBigEndian(data[0..4]) == V2_COOKIE
            && FromBigEndian(data[12..16]) == p.sigFigs
            && FromBigEndian(data[16..24]) == p.lowest
            && FromBigEndian(data[24..32]) == p.highest
            && data[40..] == counts
  {
    Pow2Values();
    HeaderSlices(BigEndian(V2_COOKIE, 4), BigEndian(|counts|, 4), BigEndian(0, 4), BigEndian(p.sigFigs, 4),
                 BigEndian(p.lowest, 8), BigEndian(p.highest, 8), BigEndian(ONE_AS_DOUBLE_BITS, 8), counts);
    BigEndianRoundTrip(V2_COOKIE, 4);
    BigEndianRoundTrip(p.sigFigs, 4);
    BigEndianRoundTrip(p.lowest, 8);
    BigEndianRoundTrip(p.highest, 8);
  }

  lemma DecodeFields(data: seq<Byte>, lowest: nat, highest: nat)
    requires |data| >= 40 && FromBigEndian(data[0..4]) == V2_COOKIE
    requires FromBigEndian(data[16..24]) == lowest < TWO63 && FromBigEndian(data[24..32]) == highest < TWO63
    ensures DecodeV2(data) ==
            Ok(Payload(lowest, highest, FromBigEndian(data[12..16]), DecodeFrom(data[40..], 0, 0, map[]).counts))
  {
  }

  /** The whole payload decodes to the histogram's parameters and counts. */
  lemma PayloadRoundTrip(p: Payload, relevant: nat)
    requires 0 <= p.lowest < TWO63 && 0 <= p.highest < TWO63 && p.sigFigs < 0x1_0000_0000
    requires Normal(p.counts) && Within(p.counts, relevant)
    ensures DecodeV2(EncodeV2(p, relevant)) == Ok(p)
  {
    HeaderValues(p, Encode(Dense(p.counts, relevant)));
    DecodeFields(EncodeV2(p, relevant), p.lowest, p.highest);
    RoundTrip(p.counts, relevant);
  }
}
