// Transaction ids: UUIDs ordered by their time stamps alone (sabi-core/src/tx.rs).
module TxIds {
  import opened Bytes

  type TxId = id: seq<byte> | |id| == 16 witness seq(16, _ => 0)

  const NIL: TxId := [0, 0, 0, 0, 0, 0, 0, 0, 0, 0, 0, 0, 0, 0, 0, 0]

  // Milliseconds since 1970 of a version 7 id; any other id, NIL included, counts as time zero.
  function Stamp(id: TxId): nat {
    if id[6] / 16 == 7 then FromLe([id[5], id[4], id[3], id[2], id[1], id[0]]) else 0
  }

  // `<=` on TxId
  predicate NotAfter(a: TxId, b: TxId) {
    Stamp(a) <= Stamp(b)
  }

  // The order is total but ids begun in the same millisecond tie without being equal.
  lemma {:induction false} DistinctIdsCanTie() returns (a: TxId, b: TxId, c: TxId)
    ensures a != b && b != c && a != c && 0 < Stamp(a) == Stamp(b) == Stamp(c)
  {
    a := [0, 0, 0, 0, 0, 1, 0x70, 0, 0x80, 0, 0, 0, 0, 0, 0, 1];
    b := [0, 0, 0, 0, 0, 1, 0x70, 0, 0x80, 0, 0, 0, 0, 0, 0, 2];
    c := [0, 0, 0, 0, 0, 1, 0x70, 0, 0x80, 0, 0, 0, 0, 0, 0, 3];
    assert a[15] != b[15] && b[15] != c[15] && a[15] != c[15];
    assert FromLe([1, 0, 0, 0, 0, 0]) == 1 + 256 * FromLe([0, 0, 0, 0, 0]) by {
      assert [1, 0, 0, 0, 0, 0][1..] == [0, 0, 0, 0, 0];
    }
  }

  // ---------------------------------------------------------------------------
  // Stamps are the time
  // ---------------------------------------------------------------------------

  // A number written with its most significant byte first, as UUIDs have the clock.
  function BigEndian(s: seq<byte>): nat {
    if s == [] then 0 else 256 * BigEndian(s[..|s| - 1]) + s[|s| - 1]
  }

  function Backwards(s: seq<byte>): (r: seq<byte>)
    ensures |r| == |s| && forall i :: 0 <= i < |r| ==> r[i] == s[|s| - 1 - i]
  {
    seq(|s|, i requires 0 <= i < |s| => s[|s| - 1 - i])
  }

  lemma {:induction false} EndiansMeet(s: seq<byte>)
    ensures FromLe(Backwards(s)) == BigEndian(s)
  {
    if s != [] {
      EndiansMeet(s[..|s| - 1]);
      assert Backwards(s)[1..] == Backwards(s[..|s| - 1]);
    }
  }

  // The stamp of a version 7 id is the clock reading in its first six bytes.
  lemma {:induction false} StampIsClock(id: TxId)
    ensures Stamp(id) == if id[6] / 16 == 7 then BigEndian(id[..6]) else 0
  {
    EndiansMeet(id[..6]);
    assert Backwards(id[..6]) == [id[5], id[4], id[3], id[2], id[1], id[0]];
  }

  lemma {:induction false} LessSnoc(s: seq<byte>, t: seq<byte>, a: byte, b: byte)
    requires |s| == |t|
    ensures Less(s + [a], t + [b]) <==> Less(s, t) || (s == t && a < b)
  {
    if s == [] {
      assert s + [a] == [a] && t + [b] == [b];
    } else {
      assert (s + [a])[1..] == s[1..] + [a] && (t + [b])[1..] == t[1..] + [b];
      LessSnoc(s[1..], t[1..], a, b);
      assert s == [s[0]] + s[1..] && t == [t[0]] + t[1..];
    }
  }

  lemma {:induction false} BigEndianOrder(s: seq<byte>, t: seq<byte>)
    requires |s| == |t|
    ensures BigEndian(s) < BigEndian(t) <==> Less(s, t)
    ensures BigEndian(s) == BigEndian(t) <==> s == t
  {
    if s != [] {
      var n := |s| - 1;
      BigEndianOrder(s[..n], t[..n]);
      LessSnoc(s[..n], t[..n], s[n], t[n]);
      assert s == s[..n] + [s[n]] && t == t[..n] + [t[n]];
    }
  }

  // Version 7 ids compare by their first six bytes, as strings do; what follows makes no difference,
  // and an id of any other version comes before, or ties with, every id.
  lemma {:induction false} OrderIsOfFirstBytes(a: TxId, b: TxId)
    ensures a[6] / 16 == 7 && b[6] / 16 == 7 ==> (NotAfter(a, b) <==> !Less(b[..6], a[..6]))
    ensures a[6] / 16 == 7 && b[6] / 16 == 7 ==> (Stamp(a) == Stamp(b) <==> a[..6] == b[..6])
    ensures a[6] / 16 != 7 ==> NotAfter(a, b)
  {
    hide BigEndian, Less, Stamp;
    StampIsClock(a);
    StampIsClock(b);
    BigEndianOrder(b[..6], a[..6]);
  }

  // So ids made in the order of the clock are in order: the first of the six bytes that differs decides.
  lemma {:induction false} LaterClockLaterId(a: TxId, b: TxId, k: nat)
    requires a[6] / 16 == 7 && b[6] / 16 == 7
    requires k < 6 && a[..k] == b[..k] && a[k] < b[k]
    ensures Stamp(a) < Stamp(b)
  {
    hide BigEndian, Stamp;
    StampIsClock(a);
    StampIsClock(b);
    BigEndianOrder(a[..6], b[..6]);
    FirstDifference(a[..6], b[..6], k);
  }

  lemma {:induction false} FirstDifference(s: seq<byte>, t: seq<byte>, k: nat)
    requires k < |s| == |t| && s[..k] == t[..k] && s[k] < t[k]
    ensures Less(s, t)
  {
    if k > 0 {
      assert s[0] == s[..k][0] == t[0];
      assert s[1..][..k - 1] == s[..k][1..] == t[1..][..k - 1];
      FirstDifference(s[1..], t[1..], k - 1);
    }
  }
}
