/** Bytes and the two ways the source writes numbers as bytes. */
module Bytes {
  import opened Integers

  type Byte = b: int | 0 <= b < 256

  function Pow256(n: nat): (r: nat)
    ensures r >= 1
  {
    if n == 0 then 1 else 256 * Pow256(n - 1)
  }

  // ---- big-endian, as in Int64ToBytes and to_bytes ----

  function ToBE(n: nat, len: nat): (s: seq<Byte>)
    ensures |s| == len
  {
    if len == 0 then [] else ToBE(n / 256, len - 1) + [n % 256]
  }

  function FromBE(s: seq<Byte>): nat {
    if s == [] then 0 else FromBE(s[..|s| - 1]) * 256 + s[|s| - 1]
  }

  /** Most significant byte first. */
  lemma {:induction false} BigEndianDigit(n: nat, len: nat, i: nat)
    requires i < len
    ensures ToBE(n, len)[i] == n / Pow256(len - 1 - i) % 256
  {
    if i < len - 1 {
      BigEndianDigit(n / 256, len - 1, i);
      NextDigit(n, Pow256(len - 2 - i));
    }
  }

  lemma NextDigit(n: nat, p: nat)
    requires p >= 1
    ensures n / 256 / p == n / (256 * p)
  {
    DivBounds(n, 256);
    DivBounds(n / 256, p);
    var q := n / 256 / p;
    assert q * (256 * p) == 256 * (q * p);
    DivUnique(n, 256 * p, q, n - q * (256 * p));
  }

  /** Reading back what was written, whenever it fits. */
  lemma {:induction false} BigEndianRoundTrip(n: nat, len: nat)
    requires n < Pow256(len)
    ensures FromBE(ToBE(n, len)) == n
  {
    if len > 0 {
      BigEndianRoundTrip(n / 256, len - 1);
      var s := ToBE(n, len);
      assert s[..|s| - 1] == ToBE(n / 256, len - 1);
    }
  }

  // ---- little-endian, as in mpz_export and mpz_import with order -1 ----

  function ToLE(n: nat, len: nat): (s: seq<Byte>)
    ensures |s| == len
  {
    if len == 0 then [] else [n % 256] + ToLE(n / 256, len - 1)
  }

  function FromLE(s: seq<Byte>): nat {
    if s == [] then 0 else s[0] + 256 * FromLE(s[1..])
  }

  /** Least significant byte first. */
  lemma {:induction false} LittleEndianDigit(n: nat, len: nat, i: nat)
    requires i < len
    ensures ToLE(n, len)[i] == n / Pow256(i) % 256
  {
    if i > 0 {
      LittleEndianDigit(n / 256, len - 1, i - 1);
      NextDigit(n, Pow256(i - 1));
    }
  }

  lemma {:induction false} LittleEndianRoundTrip(n: nat, len: nat)
    requires n < Pow256(len)
    ensures FromLE(ToLE(n, len)) == n
  {
    if len > 0 {
      LittleEndianRoundTrip(n / 256, len - 1);
      assert ToLE(n, len)[1..] == ToLE(n / 256, len - 1);
    }
  }

  lemma {:induction false} LittleEndianBound(s: seq<Byte>)
    ensures FromLE(s) < Pow256(|s|)
  {
    if s != [] {
      LittleEndianBound(s[1..]);
    }
  }
}
