/** Octets, big-endian integers and the small containers the other modules share. */
module Bytes {

  type byte = n: nat | n < 256

  datatype Option<+T> = None | Some(value: T)

  /** The integer written as `k` octets, most significant first (`to_be_bytes`). */
  function ToBE(n: nat, k: nat): (s: seq<byte>)
    ensures |s| == k
  {
    if k == 0 then [] else ToBE(n / 256, k - 1) + [n % 256]
  }

  /** The integer that a big-endian run of octets stands for (`from_be_bytes`). */
  function FromBE(s: seq<byte>): nat {
    if s == [] then 0 else FromBE(s[..|s| - 1]) * 256 + s[|s| - 1]
  }

  function Pow256(k: nat): nat {
    if k == 0 then 1 else 256 * Pow256(k - 1)
  }

  lemma {:induction false} FromToBE(n: nat, k: nat)
    requires n < Pow256(k)
    ensures FromBE(ToBE(n, k)) == n
  {
    if k == 0 {
    } else {
      FromToBE(n / 256, k - 1);
      assert ToBE(n, k)[..k - 1] == ToBE(n / 256, k - 1);
    }
  }

  lemma {:induction false} ToFromBE(s: seq<byte>)
    ensures FromBE(s) < Pow256(|s|)
    ensures ToBE(FromBE(s), |s|) == s
  {
    if s == [] {
    } else {
      var p, b := s[..|s| - 1], s[|s| - 1];
      ToFromBE(p);
      assert FromBE(s) / 256 == FromBE(p) && FromBE(s) % 256 == b;
      assert s == p + [b];
    }
  }

  /** Two octets stand for a sixteen-bit number. */
  lemma BEBound(s: seq<byte>)
    requires |s| == 2
    ensures FromBE(s) < 0x1_0000
  {
    ToFromBE(s);
    assert Pow256(2) == 256 * Pow256(1);
  }

  /** Numbers of two and four octets, written out. */
  function Number2(a: nat, b: nat): nat {
    0x100 * a + b
  }

  function Number4(a: nat, b: nat, c: nat, d: nat): nat {
    0x100_0000 * a + 0x1_0000 * b + 0x100 * c + d
  }

  function Min(a: nat, b: nat): nat { if a <= b then a else b }

  /** All the pieces, one after the other. */
  function Concat<T>(pieces: seq<seq<T>>): seq<T> {
    if pieces == [] then [] else pieces[0] + Concat(pieces[1..])
  }

  lemma {:induction false} ConcatAppend<T>(a: seq<seq<T>>, b: seq<seq<T>>)
    ensures Concat(a + b) == Concat(a) + Concat(b)
  {
    if a == [] {
      assert a + b == b;
    } else {
      ConcatAppend(a[1..], b);
      assert (a + b)[1..] == a[1..] + b;
      calc {
        Concat(a + b);
        a[0] + Concat(a[1..] + b);
        a[0] + (Concat(a[1..]) + Concat(b));
        Concat(a) + Concat(b);
      }
    }
  }

  /** Write `s` into `out` from `at` on (`copy_from_slice`). */
  method CopyInto(out: array<byte>, at: nat, s: seq<byte>)
    requires at + |s| <= out.Length
    modifies out
    ensures out[..at] == old(out[..at])
    ensures out[at..at + |s|] == s
    ensures out[at + |s|..] == old(out[at + |s|..])
  {
    for i := 0 to |s|
      invariant out[..at] == old(out[..at])
      invariant out[at..at + i] == s[..i]
      invariant out[at + i..] == old(out[at + i..])
    {
      out[at + i] := s[i];
    }
  }
}
