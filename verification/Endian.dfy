/** Fixed-width integers as bytes, in both orders. */
module Endian {
  import opened Common

  function Pow256(k: nat): nat {
    if k == 0 then 1 else 256 * Pow256(k - 1)
  }

  lemma Widths()
    ensures Pow256(2) == U16 && Pow256(4) == U32 && Pow256(8) == U64
  {
    assert Pow256(4) == 256 * (256 * Pow256(2));
    assert Pow256(6) == 256 * (256 * Pow256(4));
    assert Pow256(8) == 256 * (256 * Pow256(6));
  }

  /** The low `k` bytes of `n`, least significant first. */
  function LeBytes(n: nat, k: nat): (s: seq<Byte>)
    ensures |s| == k
    decreases k
  {
    if k == 0 then [] else [(n % 256) as Byte] + LeBytes(n / 256, k - 1)
  }

  function LeValue(s: seq<Byte>): nat {
    if s == [] then 0 else s[0] as nat + 256 * LeValue(s[1..])
  }

  /** Reading back what was written. */
  lemma {:induction false} LeRoundTrip(n: nat, k: nat)
    requires n < Pow256(k)
    ensures LeValue(LeBytes(n, k)) == n
    decreases k
  {
    if k > 0 { LeRoundTrip(n / 256, k - 1); }
  }

  /** The bytes are determined by their value. */
  lemma {:induction false} LeCanonical(s: seq<Byte>)
    ensures LeValue(s) < Pow256(|s|) && LeBytes(LeValue(s), |s|) == s
  {
    if s != [] { LeCanonical(s[1..]); }
  }

  /** `part` is what `all` holds from `at` on. */
  predicate At(all: seq<Byte>, at: nat, part: seq<Byte>) {
    at + |part| <= |all| && all[at..at + |part|] == part
  }

  lemma Reads16(b: seq<Byte>, at: nat, n: nat)
    requires At(b, at, LeBytes(n, 2)) && n < U16
    ensures Le16(b, at) == n
  {
    Widths();
    LeRoundTrip(n, 2);
    var s := b[at..at + 2];
    assert LeValue(s) == s[0] + 256 * (s[1] + 256 * LeValue(s[1..][1..]));
  }

  lemma Reads32(b: seq<Byte>, at: nat, n: nat)
    requires At(b, at, LeBytes(n, 4)) && n < U32
    ensures Le32(b, at) == n
  {
    var s := b[at..at + 4];
    LowHalf(n);
    assert b[at..at + 2] == s[..2] && b[at + 2..at + 4] == s[2..];
    Reads16(b, at, n % U16);
    Reads16(b, at + 2, n / U16);
  }

  lemma LowHalf(n: nat)
    ensures LeBytes(n, 4) == LeBytes(n % U16, 2) + LeBytes(n / U16, 2)
  {
    assert LeBytes(n, 4) == [(n % 256) as Byte] + LeBytes(n / 256, 3);
    assert LeBytes(n / 256, 3) == [(n / 256 % 256) as Byte] + LeBytes(n / U16, 2);
    assert LeBytes(n % U16, 2) == [(n % U16 % 256) as Byte, (n % U16 / 256 % 256) as Byte];
  }

  /** The low `k` bytes of `n`, most significant first. */
  function BeBytes(n: nat, k: nat): (s: seq<Byte>)
    ensures |s| == k
    decreases k
  {
    if k == 0 then [] else BeBytes(n / 256, k - 1) + [(n % 256) as Byte]
  }

  function BeValue(s: seq<Byte>): nat {
    if s == [] then 0 else 256 * BeValue(s[..|s| - 1]) + s[|s| - 1] as nat
  }

  lemma {:induction false} BeRoundTrip(n: nat, k: nat)
    requires n < Pow256(k)
    ensures BeValue(BeBytes(n, k)) == n
    decreases k
  {
    if k > 0 {
      BeRoundTrip(n / 256, k - 1);
      assert BeBytes(n, k)[..k - 1] == BeBytes(n / 256, k - 1);
    }
  }

  lemma {:induction false} BeBound(s: seq<Byte>)
    ensures BeValue(s) < Pow256(|s|)
  {
    if s != [] { BeBound(s[..|s| - 1]); }
  }
}
