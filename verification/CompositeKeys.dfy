// Index keys of the engine: the table name, a zero byte and the key (engine.rs:309-321).
module CompositeKeys {
  import opened Wrappers
  import opened Bytes
  import opened Nodes
  import opened Entries

  type Name = seq<byte>

  function CompositeKey(table: Name, key: Key): Key {
    table + [0] + key
  }

  // What follows the first zero byte.
  function ExtractKey(composite: Key): Option<Key> {
    if composite == [] then None
    else if composite[0] == 0 then Some(composite[1..])
    else ExtractKey(composite[1..])
  }

  predicate ZeroFree(table: Name) {
    forall i :: 0 <= i < |table| ==> table[i] != 0
  }

  // Extraction undoes construction exactly for table names without a zero byte.
  lemma {:induction false} ExtractExactly(table: Name, key: Key)
    ensures ExtractKey(CompositeKey(table, key)) == Some(key) <==> ZeroFree(table)
    ensures ExtractKey(CompositeKey(table, key)).Some? && |key| <= |ExtractKey(CompositeKey(table, key)).value|
  {
    var c := CompositeKey(table, key);
    if table == [] {
      assert c == [0] + key;
    } else if table[0] == 0 {
      assert c[1..] == table[1..] + [0] + key;
    } else {
      ExtractExactly(table[1..], key);
      assert c[1..] == CompositeKey(table[1..], key);
      assert forall i :: 0 < i < |table| ==> table[i] == table[1..][i - 1];
      if ZeroFree(table) {
        assert forall i :: 0 <= i < |table[1..]| ==> table[1..][i] == table[i + 1];
      }
    }
  }

  // No key of one table is a key of another exactly when neither name runs into the other at a zero.
  lemma {:induction false} TablesApartExactly(t: Name, u: Name)
    ensures (forall k, l :: CompositeKey(t, k) != CompositeKey(u, l)) <==> !(t + [0] <= u + [0]) && !(u + [0] <= t + [0])
  {
    if t + [0] <= u + [0] {
      var k := (u + [0])[|t| + 1..];
      assert CompositeKey(t, k) == CompositeKey(u, []);
    } else if u + [0] <= t + [0] {
      var k := (t + [0])[|u| + 1..];
      assert CompositeKey(u, k) == CompositeKey(t, []);
    } else {
      forall k, l
        ensures CompositeKey(t, k) != CompositeKey(u, l)
      {
        var c, d := CompositeKey(t, k), CompositeKey(u, l);
        assert t + [0] == c[..|t| + 1] && u + [0] == d[..|u| + 1];
      }
    }
  }

  lemma {:induction false} CompositeInjective(t: Name, k: Key, u: Name, l: Key)
    requires ZeroFree(t) && ZeroFree(u) && CompositeKey(t, k) == CompositeKey(u, l)
    ensures t == u && k == l
  {
    hide ExtractKey;
    var c := CompositeKey(t, k);
    ExtractExactly(t, k);
    ExtractExactly(u, l);
    assert t == c[..|t|] && u == c[..|u|];
  }

  lemma {:induction false} LessAfterPrefix(p: Key, a: Key, b: Key)
    ensures Less(p + a, p + b) <==> Less(a, b)
  {
    if p == [] {
      assert p + a == a && p + b == b;
    } else {
      assert (p + a)[1..] == p[1..] + a && (p + b)[1..] == p[1..] + b;
      LessAfterPrefix(p[1..], a, b);
    }
  }

  // Within a table the order of the index is the order of the keys.
  lemma {:induction false} CompositeOrder(table: Name, a: Key, b: Key)
    ensures Less(CompositeKey(table, a), CompositeKey(table, b)) <==> Less(a, b)
  {
    LessAfterPrefix(table + [0], a, b);
  }

  // Strings with a common prefix are neighbours: whatever lies between two of them shares it.
  lemma {:induction false} BetweenSharesPrefix(p: Key, a: Key, b: Key, c: Key)
    requires !Less(c, p + a) && !Less(p + b, c)
    ensures p <= c
  {
    if p != [] {
      assert (p + a)[1..] == p[1..] + a && (p + b)[1..] == p[1..] + b;
      assert c != [] && c[0] == p[0];
      BetweenSharesPrefix(p[1..], a, b, c[1..]);
    }
  }

  // A scan between two keys of a table meets exactly the keys of that table between them.
  lemma {:induction false} ScanStaysInTable(table: Name, start: Key, end: Key, c: Key)
    ensures !Less(c, CompositeKey(table, start)) && !Less(CompositeKey(table, end), c)
            <==> exists key :: c == CompositeKey(table, key) && !Less(key, start) && !Less(end, key)
  {
    hide Less;
    if !Less(c, CompositeKey(table, start)) && !Less(CompositeKey(table, end), c) {
      BetweenSharesPrefix(table + [0], start, end, c);
      var key := c[|table| + 1..];
      assert c == CompositeKey(table, key);
      CompositeOrder(table, key, start);
      CompositeOrder(table, end, key);
    }
    if key :| c == CompositeKey(table, key) && !Less(key, start) && !Less(end, key) {
      CompositeOrder(table, key, start);
      CompositeOrder(table, end, key);
    }
  }

  // Every table is an interval of the index: no key of another table falls between two of its keys.
  lemma {:induction false} TablesAreIntervals(t: Name, a: Key, b: Key, u: Name, k: Key)
    requires ZeroFree(t) && ZeroFree(u)
    requires !Less(CompositeKey(u, k), CompositeKey(t, a)) && !Less(CompositeKey(t, b), CompositeKey(u, k))
    ensures u == t
  {
    hide Less;
    ScanStaysInTable(t, a, b, CompositeKey(u, k));
    var l :| CompositeKey(u, k) == CompositeKey(t, l);
    CompositeInjective(u, k, t, l);
  }

  // The full scans of the executor pass empty bounds, which admit the empty key and nothing else ...
  lemma {:induction false} EmptyBoundsAdmit(table: Name, key: Key)
    ensures !Less(CompositeKey(table, key), CompositeKey(table, [])) && !Less(CompositeKey(table, []), CompositeKey(table, key))
            <==> key == []
  {
    hide Less;
    CompositeOrder(table, key, []);
    CompositeOrder(table, [], key);
    LessIsTotalOrder(key, [], key);
  }

  // ... and no inclusive upper bound within the table would admit all of it.
  lemma {:induction false} NoBoundCovers(table: Name, end: Key)
    ensures exists key :: Less(CompositeKey(table, end), CompositeKey(table, key))
  {
    hide Less;
    LessAfterPrefix(end, [], [0]);
    assert end + [] == end;
    CompositeOrder(table, end, end + [0]);
    assert Less([], [0]) by {
      FirstIsLess();
    }
  }

  lemma {:induction false} FirstIsLess()
    ensures Less([], [0])
  {
  }
}
