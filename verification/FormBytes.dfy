/** The 100-byte encoding of compressed forms (src/bqfc.c): fields of variable width in a fixed buffer,
  * and the check that a decoded form encodes to the same bytes. */
module FormBytes {
  import opened Integers
  import opened ExtendedGcd
  import opened Bytes
  import opened FormCodec
  import opened Options

  const MAX_D_BITS := 1024
  const FORM_SIZE := 100

  const IS_1: Byte := 4
  const IS_GEN: Byte := 8

  /** d_bits rounded up to a multiple of 32, in units of 32 bits. */
  function Units(dBits: nat): nat { (dBits + 31) / 32 }

  /** One less than the number of bytes of g. */
  function GSize(g: nat): nat { (BitLen(g) + 7) / 8 - 1 }

  /** bqfc_export succeeds. */
  predicate FieldFits(n: nat, size: int) { (BitLen(n) + 7) / 8 <= size }

  lemma {:induction false} Pow256IsPow2(k: nat)
    ensures Pow256(k) == Pow2(8 * k)
  {
    if k > 0 {
      Pow256IsPow2(k - 1);
      Pow2Add(8, 8 * (k - 1));
      assert Pow2(8) == 2 * Pow2(7) == 4 * Pow2(6) == 8 * Pow2(5) == 16 * Pow2(4) == 32 * Pow2(3) == 64 * Pow2(2) == 128 * Pow2(1) == 256;
    }
  }

  lemma FieldBound(n: nat, size: int)
    requires FieldFits(n, size)
    ensures size >= 1 && n < Pow256(size)
  {
    Pow2Monotone(BitLen(n), 8 * size);
    Pow256IsPow2(size);
  }

  /** A field fits exactly if it has a byte and the number is below the power of 256. */
  lemma FieldFitsExactly(n: nat, size: int)
    ensures FieldFits(n, size) <==> size >= 1 && n < Pow256(size)
  {
    if FieldFits(n, size) {
      FieldBound(n, size);
    } else if size >= 1 {
      Pow256IsPow2(size);
      Pow2Monotone(8 * size, BitLen(n) - 1);
      assert Pow2(1) == 2;
    }
  }

  /** g is written in n + 1 bytes and in no fewer. */
  predicate LastByte(g: nat, n: nat) { Pow256(n) <= g < Pow256(n + 1) }

  lemma {:induction false} Pow256Monotone(m: nat, n: nat)
    requires m <= n
    ensures Pow256(m) <= Pow256(n)
    decreases n - m
  {
    if m < n {
      Pow256Monotone(m + 1, n);
    }
  }

  lemma LastByteUnique(g: nat, m: nat, n: nat)
    requires LastByte(g, m) && LastByte(g, n)
    ensures m == n
  {
    if m < n {
      Pow256Monotone(m + 1, n);
    } else if n < m {
      Pow256Monotone(n + 1, m);
    }
  }

  lemma GSizeIs(g: nat)
    requires g > 0
    ensures LastByte(g, GSize(g))
  {
    var n := GSize(g);
    Pow256IsPow2(n);
    Pow256IsPow2(n + 1);
    Pow2Monotone(8 * n, BitLen(g) - 1);
    Pow2Monotone(BitLen(g), 8 * (n + 1));
  }

  function Zeros(n: nat): (s: seq<Byte>)
    ensures |s| == n
  {
    seq(n, _ => 0)
  }

  /** The bytes written so far and what is left of the number make up the field. */
  lemma NextByte(done: seq<Byte>, m: nat, left: nat, all: seq<Byte>)
    requires left > 0 && all == done + ToLE(m, left)
    ensures all == done + [m % 256] + ToLE(m / 256, left - 1)
  {}

  /** mpz_export followed by memset: the bytes of n, least significant first, then zeros. */
  method WriteField(out: array<Byte>, offset: nat, size: nat, n: nat)
    requires offset + size <= out.Length && n < Pow256(size)
    modifies out
    ensures out[..offset + size] == old(out[..offset]) + ToLE(n, size) && out[offset + size..] == old(out[offset + size..])
  {
    var m: nat, k: nat, left: nat := n, offset, size;
    while left > 0
      invariant k + left == offset + size && offset <= k && m < Pow256(left)
      invariant out[offset + size..] == old(out[offset + size..])
      invariant out[..k] + ToLE(m, left) == old(out[..offset]) + ToLE(n, size)
    {
      NextByte(out[..k], m, left, out[..k] + ToLE(m, left));
      ghost var before := out[..];
      out[k] := if m > 0 then m % 256 else 0;
      assert out[..k + 1] == before[..k] + [m % 256];
      m, k, left := m / 256, k + 1, left - 1;
    }
    assert out[..k] + [] == out[..k];
  }

  /** bqfc_export. */
  method Export(out: array<Byte>, offset: nat, size: int, n: nat, ghost done: seq<Byte>) returns (ok: bool, next: nat)
    requires offset <= out.Length && offset + size <= out.Length && out[..offset] == done
    modifies out
    ensures ok <==> FieldFits(n, size)
    ensures ok ==> size >= 1 && next == offset + size && out[..next] == done + ToLE(n, size)
  {
    var needed := (BitLen(n) + 7) / 8;
    if needed > size {
      return false, offset;
    }
    FieldBound(n, size);
    WriteField(out, offset, size, n);
    ok, next := true, offset + size;
  }

  // ---- the layout ----

  function Flags(c: Compressed): Byte { (if c.bSign then 1 else 0) + (if c.t < 0 then 2 else 0) }

  predicate AllFit(c: Compressed, u: int, gs: nat) {
    gs <= 255 && FieldFits(c.a, 2 * u - gs) && FieldFits(Abs(c.t), u - gs) && FieldFits(c.g, gs + 1) && FieldFits(c.b0, gs + 1)
  }

  function Fields(c: Compressed, u: nat, gs: nat): (s: seq<Byte>)
    requires gs < u
    ensures |s| == 3 * u + 2
  {
    ToLE(c.a, 2 * u - gs) + ToLE(Abs(c.t), u - gs) + ToLE(c.g, gs + 1) + ToLE(c.b0, gs + 1)
  }

  /** bqfc_serialize_only. */
  function Encoded(c: Compressed, dBits: nat): (r: Option<seq<Byte>>)
    ensures r.Some? ==> |r.value| == 3 * Units(dBits) + 4 <= FORM_SIZE && 0 < dBits <= MAX_D_BITS
  {
    var u, gs := Units(dBits), GSize(c.g);
    if 0 < dBits <= MAX_D_BITS && AllFit(c, u, gs) then
      RoomForT(c, u, gs);
      UnitsBound(dBits);
      Some([Flags(c), gs] + Fields(c, u, gs))
    else None
  }

  lemma RoomForT(c: Compressed, u: nat, gs: nat)
    requires AllFit(c, u, gs)
    ensures gs < u
  {
    FieldBound(Abs(c.t), u - gs);
  }

  /** The fields have room, beside n + 1 bytes for g. */
  predicate Room(c: Compressed, u: int, n: nat) {
    n < u && c.a < Pow256(2 * u - n) && Abs(c.t) < Pow256(u - n) && c.b0 < Pow256(n + 1)
  }

  lemma RoomIs(c: Compressed, u: int, n: nat)
    requires u <= 32 && (LastByte(c.g, n) || (c.g == 0 && n == 0))
    ensures AllFit(c, u, n) <==> Room(c, u, n)
  {
    FieldFitsExactly(c.a, 2 * u - n);
    FieldFitsExactly(Abs(c.t), u - n);
    FieldFitsExactly(c.g, n + 1);
    FieldFitsExactly(c.b0, n + 1);
  }

  /** Exactly which forms are written: with n + 1 the number of bytes of g, a takes the rest of 2u bytes and t
    * that of u. The second byte is n, the first one the two signs. */
  lemma EncodedExactly(c: Compressed, dBits: nat, n: nat)
    requires LastByte(c.g, n) || (c.g == 0 && n == 0)
    ensures Encoded(c, dBits).Some? <==> 0 < dBits <= MAX_D_BITS && Room(c, Units(dBits), n)
    ensures Encoded(c, dBits).Some? ==>
      var s := Encoded(c, dBits).value;
      s[1] == n && (s[0] % 2 == 1 <==> c.bSign) && (s[0] / 2 % 2 == 1 <==> c.t < 0) && s[0] < 4
  {
    if c.g > 0 {
      GSizeIs(c.g);
      LastByteUnique(c.g, n, GSize(c.g));
    }
    assert GSize(c.g) == n;
    if 0 < dBits <= MAX_D_BITS {
      UnitsBound(dBits);
      RoomIs(c, Units(dBits), n);
    }
  }

  lemma UnitsBound(dBits: nat)
    requires dBits <= MAX_D_BITS
    ensures Units(dBits) <= 32
  {}

  /** bqfc_serialize. */
  function Serialized(a: int, b: int, dBits: nat): (r: Option<seq<Byte>>)
    requires Encodable(a, b)
    ensures r.Some? ==> |r.value| == FORM_SIZE && 0 < dBits <= MAX_D_BITS
  {
    if dBits == 0 || dBits > MAX_D_BITS then None
    else if b == 1 && a <= 2 then Some([if a == 2 then IS_GEN else IS_1] + Zeros(FORM_SIZE - 1))
    else Padded(Encoded(Compress(a, b), dBits))
  }

  function Padded(s: Option<seq<Byte>>): (r: Option<seq<Byte>>)
    requires s.Some? ==> |s.value| <= FORM_SIZE
    ensures r.Some? <==> s.Some?
    ensures r.Some? ==> |r.value| == FORM_SIZE
  {
    if s.None? then None else Some(s.value + Zeros(FORM_SIZE - |s.value|))
  }

  method ExportTwo(out: array<Byte>, offset: nat, size1: int, n1: nat, size2: int, n2: nat, ghost done: seq<Byte>) returns (ok: bool, next: nat)
    requires offset <= out.Length && offset + size1 <= out.Length && offset + size1 + size2 <= out.Length && out[..offset] == done
    modifies out
    ensures ok <==> FieldFits(n1, size1) && FieldFits(n2, size2)
    ensures ok ==> size1 >= 1 && size2 >= 1 && next == offset + size1 + size2 && out[..next] == done + ToLE(n1, size1) + ToLE(n2, size2)
  {
    ok, next := Export(out, offset, size1, n1, done);
    if ok {
      ok, next := Export(out, next, size2, n2, done + ToLE(n1, size1));
    }
  }

  /** The four fields behind the two header bytes. */
  method ExportAll(out: array<Byte>, c: Compressed, u: int, gSize: nat) returns (ok: bool)
    requires out.Length >= 3 * u + 4 && u >= 1 && gSize <= 255
    modifies out
    ensures ok <==> AllFit(c, u, gSize)
    ensures ok ==> gSize < u && out[..3 * u + 4] == old(out[..2]) + Fields(c, u, gSize)
  {
    var next;
    ghost var s0 := out[..2];
    ok, next := ExportTwo(out, 2, 2 * u - gSize, c.a, u - gSize, Abs(c.t), s0);
    if !ok { return; }
    ghost var s2 := s0 + ToLE(c.a, 2 * u - gSize) + ToLE(Abs(c.t), u - gSize);
    ok, next := ExportTwo(out, next, gSize + 1, c.g, gSize + 1, c.b0, s2);
    if !ok { return; }
    FieldsAre(c, u, gSize, s0);
    assert next == 3 * u + 4;
  }

  lemma FieldsAre(c: Compressed, u: nat, gs: nat, s0: seq<Byte>)
    requires gs < u
    ensures s0 + ToLE(c.a, 2 * u - gs) + ToLE(Abs(c.t), u - gs) + ToLE(c.g, gs + 1) + ToLE(c.b0, gs + 1) == s0 + Fields(c, u, gs)
  {
    Assoc(s0, ToLE(c.a, 2 * u - gs), ToLE(Abs(c.t), u - gs), ToLE(c.g, gs + 1), ToLE(c.b0, gs + 1));
  }

  lemma Assoc(h: seq<Byte>, w: seq<Byte>, x: seq<Byte>, y: seq<Byte>, z: seq<Byte>)
    ensures h + w + x + y + z == h + (w + x + y + z)
  {}

  method SerializeOnly(out: array<Byte>, c: Compressed, dBits: nat) returns (ok: bool)
    requires out.Length == FORM_SIZE
    modifies out
    ensures ok <==> Encoded(c, dBits).Some?
    ensures ok ==> out[..3 * Units(dBits) + 4] == Encoded(c, dBits).value
  {
    if dBits == 0 || dBits > MAX_D_BITS {
      return false;
    }
    out[0] := Flags(c);
    var gSize := GSize(c.g);
    if gSize > 255 {
      return false;
    }
    out[1] := gSize;
    assert out[..2] == [Flags(c), gSize];
    ok := ExportAll(out, c, Units(dBits), gSize);
  }

  method Serialize(out: array<Byte>, a: int, b: int, dBits: nat) returns (ok: bool)
    requires out.Length == FORM_SIZE && Encodable(a, b)
    modifies out
    ensures ok <==> Serialized(a, b, dBits).Some?
    ensures ok ==> out[..] == Serialized(a, b, dBits).value
  {
    if dBits == 0 || dBits > MAX_D_BITS {
      return false;
    }
    if b == 1 && a <= 2 {
      SerializeSpecial(out, if a == 2 then IS_GEN else IS_1);
      return true;
    }
    var c := Compr(a, b);
    ok := SerializePadded(out, c, dBits);
  }

  method SerializeSpecial(out: array<Byte>, flag: Byte)
    requires out.Length == FORM_SIZE
    modifies out
    ensures out[..] == [flag] + Zeros(FORM_SIZE - 1)
  {
    out[0] := flag;
    assert out[..1] == [flag];
    Clear(out, 1);
  }

  method SerializePadded(out: array<Byte>, c: Compressed, dBits: nat) returns (ok: bool)
    requires out.Length == FORM_SIZE && dBits <= MAX_D_BITS
    modifies out
    ensures ok <==> Encoded(c, dBits).Some?
    ensures ok ==> Padded(Encoded(c, dBits)) == Some(out[..])
  {
    ok := SerializeOnly(out, c, dBits);
    Clear(out, 3 * Units(dBits) + 4);
  }

  /** memset of the rest of the buffer. */
  method Clear(out: array<Byte>, from: nat)
    requires from <= out.Length
    modifies out
    ensures out[..] == old(out[..from]) + Zeros(out.Length - from)
  {
    for i := from to out.Length
      invariant forall j :: 0 <= j < from ==> out[j] == old(out[j])
      invariant forall j :: from <= j < i ==> out[j] == 0
    {
      out[i] := 0;
    }
  }

  // ---- every form that is not too large is written ----

  lemma {:induction false} Pow256Add(m: nat, n: nat)
    ensures Pow256(m + n) == Pow256(m) * Pow256(n)
  {
    if m > 0 {
      Pow256Add(m - 1, n);
      Swap3(256, Pow256(m - 1), Pow256(n));
      assert m + n - 1 == m - 1 + n;
    }
  }

  /** Dividing by a number of n + 1 bytes saves at least n bytes. */
  lemma QuotientSaves(x: nat, g: nat, n: nat, k: nat)
    requires LastByte(g, n) && x * g < Pow256(k)
    ensures n <= k ==> x < Pow256(k - n)
    ensures x > 0 ==> n < k
  {
    if n <= k {
      Pow256Add(k - n, n);
      if x >= Pow256(k - n) {
        AtLeastTimes(x, Pow256(k - n), g);
        AtLeastTimes(g, Pow256(n), Pow256(k - n));
      }
    }
    if x > 0 && n >= k {
      Pow256Monotone(k, n);
      AtLeastFactor(x, g);
    }
  }

  /** The cofactor is below 2a / sqrt(a), so it has room if a leaves three bits free. */
  lemma CofactorFits(a: nat, t: nat, L: nat, X: nat)
    requires L * L <= a < (L + 1) * (L + 1) && t * L < 2 * a && 8 * a <= X * X && X >= 256
    ensures t < X
  {
    if t >= X {
      AtLeastTimes(t, X, L);
      Foil(L, 1, L, 1);
      assert X * L < 2 * (L * L) + 4 * L + 2;
      if X >= 2 * L + 6 {
        AtLeastTimes(X, 2 * L + 6, L);
        SixMore(L);
      } else {
        SquareTooSmall(X, L);
      }
    }
  }

  lemma SixMore(L: nat)
    ensures (2 * L + 6) * L == 2 * (L * L) + 6 * L
  {}

  lemma SquareTooSmall(X: nat, L: nat)
    requires 256 <= X <= 2 * L + 5
    ensures X * X < 8 * (L * L)
  {
    AtLeastTimes(2 * L + 5, X, X);
    AtLeastTimes(2 * L + 5, X, 2 * L + 5);
    Foil(2 * L, 5, 2 * L, 5);
    AtLeastTimes(L, 100, L);
  }

  lemma RoomForAll(a: nat, c: Compressed, n: nat, u: nat)
    requires LastByte(c.g, n) && c.a * c.g == a && c.g >= 1 && c.t != 0 && c.b0 <= c.g
    requires a < Pow256(2 * u) && Abs(c.t) * c.g < Pow256(u)
    ensures Room(c, u, n)
  {
    QuotientSaves(c.a, c.g, n, 2 * u);
    QuotientSaves(Abs(c.t), c.g, n, u);
  }

  /** Every form with 8a <= 2^(16u), u the number of units of 32 bits, is written. For a reduced form that leaves
    * only discriminants whose last unit is nearly full. */
  lemma SerializedFits(a: nat, b: int, dBits: nat)
    requires 0 < a && Abs(b) <= a && 0 < dBits <= MAX_D_BITS && 8 * a <= Pow256(2 * Units(dBits))
    ensures Serialized(a, b, dBits).Some?
  {
    if a == b {
      EncodedExactly(Compress(a, b), dBits, 0);
    } else if !(b == 1 && a <= 2) {
      CompressSizes(a, b);
      EncodedFits(a, Compress(a, b), dBits);
    }
  }

  lemma EncodedFits(a: nat, c: Compressed, dBits: nat)
    requires 0 < dBits <= MAX_D_BITS && 8 * a <= Pow256(2 * Units(dBits)) && Sizes(a, c)
    ensures Encoded(c, dBits).Some?
  {
    var t := CofactorOf(a, c);
    GSizeIs(c.g);
    SizesHaveRoom(a, c, GSize(c.g), Units(dBits), t, Isqrt(a));
    EncodedExactly(c, dBits, GSize(c.g));
  }

  lemma CofactorOf(a: nat, c: Compressed) returns (t: nat)
    requires Sizes(a, c)
    ensures t == Abs(c.t) * c.g && t * Isqrt(a) < 2 * a
  {
    QuotientProduct(Abs(c.t), c.g);
    t := Abs(c.t) * c.g;
  }

  lemma SizesHaveRoom(a: nat, c: Compressed, n: nat, u: nat, t: nat, L: nat)
    requires u >= 1 && LastByte(c.g, n) && 8 * a <= Pow256(2 * u) && L * L <= a < (L + 1) * (L + 1)
    requires c.a * c.g == a && c.g >= 1 && c.t != 0 && c.b0 <= c.g && t == Abs(c.t) * c.g && t * L < 2 * a
    ensures Room(c, u, n)
  {
    CofactorHasRoom(a, t, L, u);
    RoomForAll(a, c, n, u);
  }

  lemma CofactorHasRoom(a: nat, t: nat, L: nat, u: nat)
    requires u >= 1 && L * L <= a < (L + 1) * (L + 1) && t * L < 2 * a && 8 * a <= Pow256(2 * u)
    ensures t < Pow256(u) && a < Pow256(2 * u)
  {
    Pow256Add(u, u);
    Pow256Monotone(1, u);
    CofactorFits(a, t, L, Pow256(u));
  }

  // ---- reading ----

  /** One of the two flags of the special forms is set. */
  predicate Flagged(str: seq<Byte>)
    requires |str| == FORM_SIZE
  {
    str[0] / 4 % 4 != 0
  }

  /** Where the four fields are. */
  function Slice(str: seq<Byte>, from: nat, len: nat): seq<Byte>
    requires from + len <= |str|
  {
    str[from..from + len]
  }

  function FromFields(flags: Byte, a: nat, t: nat, g: nat, b0: nat): Compressed {
    var t': int := t;
    Compressed(a, if flags / 2 % 2 == 1 then -t' else t', g, b0, flags % 2 == 1)
  }

  /** bqfc_deserialize_only. */
  function Parse(str: seq<Byte>, dBits: nat): Option<Compressed>
    requires |str| == FORM_SIZE
  {
    var u, gs := Units(dBits), str[1] as nat;
    if dBits == 0 || dBits > MAX_D_BITS || gs >= u then None
    else
      Some(FromFields(str[0], FromLE(Slice(str, 2, 2 * u - gs)), FromLE(Slice(str, 2 + 2 * u - gs, u - gs)),
                      FromLE(Slice(str, 2 + 3 * u - 2 * gs, gs + 1)), FromLE(Slice(str, 3 + 3 * u - gs, gs + 1))))
  }

  lemma SliceIs(str: seq<Byte>, from: nat, len: nat, head: seq<Byte>, part: seq<Byte>, tail: seq<Byte>)
    requires str == head + part + tail && from == |head| && len == |part|
    ensures Slice(str, from, len) == part
  {}

  lemma FlagBits(c: Compressed)
    ensures Flags(c) / 4 % 4 == 0 && (Flags(c) / 2 % 2 == 1 <==> c.t < 0) && (Flags(c) % 2 == 1 <==> c.bSign)
  {}

  lemma FieldsReadBack(c: Compressed, u: nat, gs: nat)
    requires AllFit(c, u, gs)
    ensures gs < u && FromLE(ToLE(c.a, 2 * u - gs)) == c.a && FromLE(ToLE(Abs(c.t), u - gs)) == Abs(c.t)
    ensures FromLE(ToLE(c.g, gs + 1)) == c.g && FromLE(ToLE(c.b0, gs + 1)) == c.b0
  {
    FieldReadBack(c.a, 2 * u - gs);
    FieldReadBack(Abs(c.t), u - gs);
    FieldReadBack(c.g, gs + 1);
    FieldReadBack(c.b0, gs + 1);
  }

  lemma FieldReadBack(n: nat, size: int)
    requires FieldFits(n, size)
    ensures size >= 1 && FromLE(ToLE(n, size)) == n
  {
    FieldBound(n, size);
    LittleEndianRoundTrip(n, size);
  }

  lemma FirstField(h: seq<Byte>, w: seq<Byte>, rest: seq<Byte>, pad: seq<Byte>, from: nat, len: nat)
    requires from == |h| && len == |w|
    ensures Slice(h + (w + rest) + pad, from, len) == w
  {
    assert h + (w + rest) + pad == h + w + (rest + pad);
    SliceIs(h + (w + rest) + pad, from, len, h, w, rest + pad);
  }

  /** Where the fields end up. */
  lemma FieldPlaces(h: seq<Byte>, u: nat, gs: nat, w: seq<Byte>, x: seq<Byte>, y: seq<Byte>, z: seq<Byte>, pad: seq<Byte>, str: seq<Byte>)
    requires gs < u && |h| == 2 && |w| == 2 * u - gs && |x| == u - gs && |y| == gs + 1 == |z|
    requires str == h + (w + x + y + z) + pad
    ensures |str| >= 3 * u + 4 && str[..2] == h
    ensures Slice(str, 2, 2 * u - gs) == w && Slice(str, 2 + 2 * u - gs, u - gs) == x
    ensures Slice(str, 2 + 3 * u - 2 * gs, gs + 1) == y && Slice(str, 3 + 3 * u - gs, gs + 1) == z
  {
    Regroupings(h, w, x, y, z, pad);
    FirstField(h, w, x + y + z, pad, 2, 2 * u - gs);
    FirstField(h + w, x, y + z, pad, 2 + 2 * u - gs, u - gs);
    FirstField(h + w + x, y, z, pad, 2 + 3 * u - 2 * gs, gs + 1);
    FirstField(h + w + x + y, z, [], pad, 3 + 3 * u - gs, gs + 1);
  }

  lemma Regroupings(h: seq<Byte>, w: seq<Byte>, x: seq<Byte>, y: seq<Byte>, z: seq<Byte>, pad: seq<Byte>)
    ensures var str := h + (w + x + y + z) + pad;
            str == h + (w + (x + y + z)) + pad && str == (h + w) + (x + (y + z)) + pad
            && str == (h + w + x) + (y + z) + pad && str == (h + w + x + y) + (z + []) + pad
  {
    assert w + x + y + z == w + (x + y + z);
    Reassociate(h, w, x + y + z);
    assert x + y + z == x + (y + z);
    Reassociate(h + w, x, y + z);
    Reassociate(h + w + x, y, z);
    assert z + [] == z;
  }

  lemma Reassociate(a: seq<Byte>, b: seq<Byte>, c: seq<Byte>)
    ensures a + (b + c) == (a + b) + c
  {}

  lemma ParseParts(c: Compressed, dBits: nat, u: nat, gs: Byte, str: seq<Byte>)
    requires 0 < dBits <= MAX_D_BITS && u == Units(dBits) && gs < u && |str| == FORM_SIZE
    requires str[..2] == [Flags(c), gs]
    requires FromLE(Slice(str, 2, 2 * u - gs)) == c.a && FromLE(Slice(str, 2 + 2 * u - gs, u - gs)) == Abs(c.t)
    requires FromLE(Slice(str, 2 + 3 * u - 2 * gs, gs + 1)) == c.g && FromLE(Slice(str, 3 + 3 * u - gs, gs + 1)) == c.b0
    ensures Parse(str, dBits) == Some(c) && !Flagged(str)
  {
    HeaderBytes(str, Flags(c), gs);
    FlagBits(c);
    FlagsBack(c);
  }

  lemma FlagsBack(c: Compressed)
    ensures FromFields(Flags(c), c.a, Abs(c.t), c.g, c.b0) == c
  {
    FlagBits(c);
  }

  lemma HeaderBytes(str: seq<Byte>, x: Byte, y: Byte)
    requires |str| >= 2 && str[..2] == [x, y]
    ensures str[0] == x && str[1] == y
  {
    assert str[0] == str[..2][0] && str[1] == str[..2][1];
  }

  /** What was written is read back. */
  lemma ParseEncoded(c: Compressed, dBits: nat, pad: seq<Byte>, str: seq<Byte>)
    requires Encoded(c, dBits).Some? && str == Encoded(c, dBits).value + pad && |str| == FORM_SIZE
    ensures Parse(str, dBits) == Some(c) && !Flagged(str)
  {
    var u, gs := Units(dBits), GSize(c.g);
    FieldsReadBack(c, u, gs);
    FieldPlaces([Flags(c), gs], u, gs, ToLE(c.a, 2 * u - gs), ToLE(Abs(c.t), u - gs), ToLE(c.g, gs + 1), ToLE(c.b0, gs + 1), pad, str);
    ParseParts(c, dBits, u, gs, str);
  }

  /** What bqfc_deserialize accepts, and as which form. */
  ghost predicate Accepted(D: int, str: seq<Byte>, dBits: nat, strict: bool, p: (int, int)) {
    && 0 < dBits <= MAX_D_BITS && |str| == FORM_SIZE
    && if Flagged(str) then p == (if str[0] / 8 % 2 == 1 then 2 else 1, 1)
       else
         && Parse(str, dBits).Some? && DecodesTo(D, Parse(str, dBits).value, p)
         && (strict ==> Abs(p.1) <= p.0)
         && Encodable(p.0, p.1) && Serialized(p.0, p.1, dBits) == Some(str)
  }

  lemma DecodedEncodable(D: int, c: Compressed, p: (int, int))
    requires DecodesTo(D, c, p)
    ensures Encodable(p.0, p.1) || p.0 == p.1 >= 0
  {
    if c.t != 0 {
      var s, v :| Root(D, c, s, v) && p == Assembled(c, v);
      if c.g > 1 {
        AtLeastTimes(c.a, 1, c.g);
      }
    }
  }

  lemma AcceptedUnique(D: int, str: seq<Byte>, dBits: nat, strict: bool, p: (int, int), q: (int, int))
    requires Accepted(D, str, dBits, strict, p)
    requires Accepted(D, str, dBits, strict, q)
    ensures p == q
  {
    if !Flagged(str) {
      DecodeUnique(D, Parse(str, dBits).value, p, q);
    }
  }

  /** bqfc_verify_canon. */
  method VerifyCanon(a: int, b: int, str: seq<Byte>, dBits: nat) returns (ok: bool)
    requires |str| == FORM_SIZE && Encodable(a, b)
    ensures ok <==> Serialized(a, b, dBits) == Some(str)
  {
    var canon := new Byte[FORM_SIZE];
    ok := Serialize(canon, a, b, dBits);
    if ok {
      ok := canon[..] == str;
    }
  }

  /** bqfc_deserialize: accepts exactly the strings that Accepted describes. */
  method Deserialize(D: int, str: seq<Byte>, dBits: nat, strict: bool) returns (r: Option<(int, int)>)
    ensures r.Some? ==> Accepted(D, str, dBits, strict, r.value)
    ensures r.None? ==> forall p :: !Accepted(D, str, dBits, strict, p)
  {
    if dBits == 0 || dBits > MAX_D_BITS || |str| != FORM_SIZE {
      return None;
    }
    if str[0] / 4 % 4 != 0 {
      return Some((if str[0] / 8 % 2 == 1 then 2 else 1, 1));
    }
    var c := Parse(str, dBits);
    if c.None? {
      return None;
    }
    r := Decompr(D, c.value, strict);
    if r.None? {
      return;
    }
    ghost var p := r.value;
    DecodedEncodable(D, c.value, p);
    var ok := VerifyCanon(r.value.0, r.value.1, str, dBits);
    if !ok {
      forall q | Accepted(D, str, dBits, strict, q)
        ensures false
      {
        DecodeUnique(D, c.value, p, q);
      }
      return None;
    }
  }

  lemma SerializedParses(a: int, b: int, dBits: nat, str: seq<Byte>)
    requires Encodable(a, b) && Serialized(a, b, dBits) == Some(str) && !(b == 1 && a <= 2)
    ensures Parse(str, dBits) == Some(Compress(a, b)) && !Flagged(str)
  {
    var s := Encoded(Compress(a, b), dBits).value;
    ParseEncoded(Compress(a, b), dBits, Zeros(FORM_SIZE - |s|), str);
  }

  /** An encoding stands for the form it was made from, exactly unless a > 1 is the square of gcd(a, b). */
  lemma SerializedAccepted(a: nat, b: int, D: int, dBits: nat, strict: bool, str: seq<Byte>)
    requires 0 < a && Abs(b) <= a && b + a != 0 && HasDisc(a, b, D)
    requires Serialized(a, b, dBits) == Some(str)
    ensures Accepted(D, str, dBits, strict, (a, b)) <==> !Lossy(a, b)
  {
    if b == 1 && a <= 2 {
      SpecialAccepted(a, b, D, dBits, strict, str);
      UnitNotLossy(a, b);
    } else {
      PlainAccepted(a, b, D, dBits, strict, str);
    }
  }

  /** The identity and the generator have flags of their own. */
  lemma SpecialAccepted(a: nat, b: int, D: int, dBits: nat, strict: bool, str: seq<Byte>)
    requires 0 < a <= 2 && b == 1 && Serialized(a, b, dBits) == Some(str)
    ensures Accepted(D, str, dBits, strict, (a, b))
  {
    assert str[0] == if a == 2 then IS_GEN else IS_1;
  }

  lemma PlainAccepted(a: nat, b: int, D: int, dBits: nat, strict: bool, str: seq<Byte>)
    requires 0 < a && Abs(b) <= a && b + a != 0 && HasDisc(a, b, D) && !(b == 1 && a <= 2)
    requires Serialized(a, b, dBits) == Some(str)
    ensures Accepted(D, str, dBits, strict, (a, b)) <==> !Lossy(a, b)
  {
    SerializedParses(a, b, dBits, str);
    AcceptedAs(D, str, dBits, strict, a, b, Compress(a, b));
    DecodesExactly(a, b, D);
  }

  lemma AcceptedAs(D: int, str: seq<Byte>, dBits: nat, strict: bool, a: nat, b: int, c: Compressed)
    requires 0 < a && Abs(b) <= a && |str| == FORM_SIZE && 0 < dBits <= MAX_D_BITS
    requires Serialized(a, b, dBits) == Some(str) && Parse(str, dBits) == Some(c) && !Flagged(str)
    ensures Accepted(D, str, dBits, strict, (a, b)) <==> DecodesTo(D, c, (a, b))
  {}

  lemma UnitNotLossy(a: nat, b: int)
    requires a > 0 && b == 1
    ensures !Lossy(a, b)
  {
    assert 0 * a + 1 * b == 1;
    CoprimeNotLossy(a, b);
  }

  /** The round trip: a form with -a < b <= a that fits is read back, strictly or not, and as nothing else,
    * exactly unless a > 1 is the square of gcd(a, b). */
  lemma RoundTrip(a: nat, b: int, D: int, dBits: nat, strict: bool, str: seq<Byte>)
    requires 0 < a && Abs(b) <= a && b + a != 0 && HasDisc(a, b, D)
    requires Serialized(a, b, dBits) == Some(str)
    ensures (forall p :: Accepted(D, str, dBits, strict, p) <==> p == (a, b)) <==> !Lossy(a, b)
    ensures Lossy(a, b) ==> !Accepted(D, str, dBits, strict, (a, b))
  {
    SerializedAccepted(a, b, D, dBits, strict, str);
    forall p | Accepted(D, str, dBits, strict, p) && Accepted(D, str, dBits, strict, (a, b))
      ensures p == (a, b)
    {
      AcceptedUnique(D, str, dBits, strict, p, (a, b));
    }
  }

  /** Writing and reading, as the callers do it. */
  method WriteAndRead(a: nat, b: int, D: int, dBits: nat, strict: bool) returns (written: bool, r: Option<(int, int)>)
    requires 0 < a && Abs(b) <= a && b + a != 0 && HasDisc(a, b, D)
    ensures written <==> Serialized(a, b, dBits).Some?
    ensures !written ==> r.None?
    ensures written ==> (r == Some((a, b)) <==> !Lossy(a, b))
    ensures written && Coprime(a, b) ==> r == Some((a, b))
  {
    var out := new Byte[FORM_SIZE];
    written := Serialize(out, a, b, dBits);
    if !written {
      return false, None;
    }
    var str := out[..];
    SerializedAccepted(a, b, D, dBits, strict, str);
    r := Deserialize(D, str, dBits, strict);
    if r.Some? && Accepted(D, str, dBits, strict, (a, b)) {
      AcceptedUnique(D, str, dBits, strict, r.value, (a, b));
    }
    if Coprime(a, b) {
      CoprimeNotLossy(a, b);
    }
  }
}
