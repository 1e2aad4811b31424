// Bytes, little-endian integers and the order of byte strings.
module Bytes {
  type byte = n: nat | n < 256

  // ---------------------------------------------------------------------------
  // Little-endian integers: `to_le_bytes` and `from_le_bytes`
  // ---------------------------------------------------------------------------

  function Pow256(width: nat): nat {
    if width == 0 then 1 else 256 * Pow256(width - 1)
  }

  // The low `width` bytes of n, least significant first; higher bytes are lost, as a cast would.
  function Le(n: nat, width: nat): (s: seq<byte>)
    ensures |s| == width
  {
    if width == 0 then [] else [n % 256] + Le(n / 256, width - 1)
  }

  function FromLe(s: seq<byte>): nat {
    if s == [] then 0 else s[0] + 256 * FromLe(s[1..])
  }

  lemma {:induction false} LeRoundTrip(n: nat, width: nat)
    requires n < Pow256(width)
    ensures FromLe(Le(n, width)) == n
  {
    if width > 0 {
      LeRoundTrip(n / 256, width - 1);
      assert Le(n, width)[1..] == Le(n / 256, width - 1);
    }
  }

  lemma {:induction false} FromLeRoundTrip(s: seq<byte>)
    ensures FromLe(s) < Pow256(|s|)
    ensures Le(FromLe(s), |s|) == s
  {
    if s != [] {
      FromLeRoundTrip(s[1..]);
      assert FromLe(s) % 256 == s[0] && FromLe(s) / 256 == FromLe(s[1..]);
      assert s == [s[0]] + s[1..];
    }
  }

  // Least significant first: what is behind s weighs 256^|s| times as much.
  lemma {:induction false} FromLeWeighs(s: seq<byte>, t: seq<byte>)
    ensures FromLe(s + t) == FromLe(s) + Pow256(|s|) * FromLe(t)
  {
    hide FromLe;
    if s == [] {
      assert FromLe([]) == 0 by { FromLeEmpty(); }
      assert s + t == t;
    } else {
      FromLeWeighs(s[1..], t);
      FromLeStep(s[0], s[1..] + t);
      FromLeStep(s[0], s[1..]);
      assert s + t == [s[0]] + (s[1..] + t) && s == [s[0]] + s[1..];
      Regroup(Pow256(|s| - 1), FromLe(t));
    }
  }

  lemma {:induction false} FromLeEmpty()
    ensures FromLe([]) == 0 && forall b: byte :: FromLe([b]) == b
  {
  }

  lemma {:induction false} FromLeStep(b: byte, s: seq<byte>)
    ensures FromLe([b] + s) == b + 256 * FromLe(s)
  {
    assert ([b] + s)[1..] == s;
  }

  lemma {:induction false} Regroup(p: nat, n: nat)
    ensures 256 * p * n == 256 * (p * n)
  {
  }

  lemma {:induction false} PowValues()
    ensures Pow256(1) == 256
    ensures Pow256(2) == 65536
    ensures Pow256(4) == 4294967296
    ensures Pow256(8) == 18446744073709551616
  {
    assert Pow256(3) == 16777216;
    assert Pow256(5) == 1099511627776;
    assert Pow256(6) == 281474976710656;
    assert Pow256(7) == 72057594037927936;
  }

  // ---------------------------------------------------------------------------
  // Lexicographic order: Rust's `Ord` on byte slices
  // ---------------------------------------------------------------------------

  predicate Less(a: seq<byte>, b: seq<byte>) {
    b != [] && (a == [] || a[0] < b[0] || (a[0] == b[0] && Less(a[1..], b[1..])))
  }

  // Where a byte string lies among all byte strings, as a number in [0, 1).  The proofs about
  // trees reason about ranks, so that sortedness is plain arithmetic.
  function Rank(s: seq<byte>): (r: real)
    ensures 0.0 <= r < 1.0
  {
    if s == [] then 0.0 else (s[0] as real + 1.0 + Rank(s[1..])) / 257.0
  }

  // Ranks embed the lexicographic order exactly, in both directions.
  lemma {:induction false} RankOrder(a: seq<byte>, b: seq<byte>)
    ensures Less(a, b) <==> Rank(a) < Rank(b)
    ensures Rank(a) == Rank(b) ==> a == b
  {
    if a == [] || b == [] {
      assert b != [] ==> Rank(b) > 0.0;
      assert a != [] ==> Rank(a) > 0.0;
    } else {
      RankOrder(a[1..], b[1..]);
      assert a == [a[0]] + a[1..] && b == [b[0]] + b[1..];
    }
  }

  // `Less` is a strict total order.
  lemma {:induction false} LessIsTotalOrder(a: seq<byte>, b: seq<byte>, c: seq<byte>)
    ensures !Less(a, a)
    ensures Less(a, b) && Less(b, c) ==> Less(a, c)
    ensures Less(a, b) || a == b || Less(b, a)
  {
    RankOrder(a, a);
    RankOrder(a, b);
    RankOrder(b, a);
    RankOrder(b, c);
    RankOrder(a, c);
  }
}
