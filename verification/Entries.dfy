// Sorted sequences of key/value pairs: what a tree means to its users.
module Entries {
  import opened Wrappers
  import opened Bytes
  import opened Nodes

  type Entry = (Key, PageId)

  // First match, as `get` scans a leaf.
  function Lookup(es: seq<Entry>, key: Key): Option<PageId> {
    if es == [] then None
    else if es[0].0 == key then Some(es[0].1)
    else Lookup(es[1..], key)
  }

  // Insert before the first greater key.
  function InsertEntry(es: seq<Entry>, key: Key, value: PageId): seq<Entry> {
    if es == [] || Less(key, es[0].0) then [(key, value)] + es
    else [es[0]] + InsertEntry(es[1..], key, value)
  }

  // The first entry of a key replaced where it stands.
  function Overwritten(es: seq<Entry>, key: Key, value: PageId): seq<Entry> {
    if es == [] then []
    else if es[0].0 == key then [(key, value)] + es[1..]
    else [es[0]] + Overwritten(es[1..], key, value)
  }

  // The pairs with start <= key <= end, in their order.
  function InRange(es: seq<Entry>, start: Key, end: Key): seq<Entry> {
    if es == [] then []
    else if !Less(es[0].0, start) && !Less(end, es[0].0) then [es[0]] + InRange(es[1..], start, end)
    else InRange(es[1..], start, end)
  }

  ghost predicate Ascending(es: seq<Entry>) {
    forall i, j :: 0 <= i < j < |es| ==> Less(es[i].0, es[j].0)
  }

  // All keys below, or not below, a rank.
  ghost predicate AllBelow(es: seq<Entry>, r: real) {
    forall i :: 0 <= i < |es| ==> Rank(es[i].0) < r
  }

  ghost predicate AllFrom(es: seq<Entry>, r: real) {
    forall i :: 0 <= i < |es| ==> r <= Rank(es[i].0)
  }

  // Rust's `keys.iter().zip(values.iter())`
  function Zip(keys: seq<Key>, values: seq<PageId>): (es: seq<Entry>)
    ensures |es| == if |keys| <= |values| then |keys| else |values|
    ensures forall i :: 0 <= i < |es| ==> es[i] == (keys[i], values[i])
  {
    if keys == [] || values == [] then [] else [(keys[0], values[0])] + Zip(keys[1..], values[1..])
  }

  // -- Lookup -----------------------------------------------------------------

  lemma {:induction false} LookupAbsent(es: seq<Entry>, key: Key)
    ensures Lookup(es, key) == None <==> forall i :: 0 <= i < |es| ==> es[i].0 != key
  {
    if es != [] && es[0].0 != key {
      LookupAbsent(es[1..], key);
      assert forall i :: 0 < i < |es| ==> es[i] == es[1..][i - 1];
      assert forall i :: 0 <= i < |es| - 1 ==> es[1..][i] == es[i + 1];
    }
  }

  lemma {:induction false} LookupFinds(es: seq<Entry>, key: Key)
    ensures Lookup(es, key).Some? ==> (key, Lookup(es, key).value) in es
  {
    if es != [] {
      assert es[0] == (es[0].0, es[0].1);
      LookupFinds(es[1..], key);
    }
  }

  lemma {:induction false} LookupConcat(a: seq<Entry>, b: seq<Entry>, key: Key)
    ensures Lookup(a + b, key) == if Lookup(a, key) == None then Lookup(b, key) else Lookup(a, key)
  {
    if a == [] {
      assert a + b == b;
    } else {
      assert (a + b)[1..] == a[1..] + b;
      LookupConcat(a[1..], b, key);
    }
  }

  // Between entries that all lie below and entries that all lie above, only the middle matters.
  lemma {:induction false} LookupMiddle(a: seq<Entry>, b: seq<Entry>, c: seq<Entry>, key: Key)
    requires AllBelow(a, Rank(key)) && (forall i :: 0 <= i < |c| ==> Rank(key) < Rank(c[i].0))
    ensures Lookup(a + b + c, key) == Lookup(b, key)
  {
    hide Rank;
    LookupAbsent(a, key);
    LookupAbsent(c, key);
    LookupConcat(a + b, c, key);
    LookupConcat(a, b, key);
  }

  // -- InsertEntry ------------------------------------------------------------

  lemma {:induction false} InsertMiddle(a: seq<Entry>, b: seq<Entry>, key: Key, value: PageId)
    requires forall i :: 0 <= i < |a| ==> Rank(a[i].0) <= Rank(key)
    requires b != [] ==> Rank(key) < Rank(b[0].0)
    ensures InsertEntry(a + b, key, value) == a + [(key, value)] + b
  {
    hide Rank, Less;
    if a == [] {
      assert a + b == b;
      if b != [] {
        RankOrder(key, b[0].0);
      }
    } else {
      RankOrder(key, a[0].0);
      assert (a + b)[1..] == a[1..] + b;
      InsertMiddle(a[1..], b, key, value);
    }
  }

  // Looking up after an insert of a fresh key: exactly one answer changes.
  lemma {:induction false} LookupInsert(es: seq<Entry>, key: Key, value: PageId, other: Key)
    requires Lookup(es, key) == None
    ensures Lookup(InsertEntry(es, key, value), other) ==
            if other == key then Some(value) else Lookup(es, other)
  {
    if es == [] || Less(key, es[0].0) {
      assert ([(key, value)] + es)[1..] == es;
    } else {
      LookupInsert(es[1..], key, value, other);
      assert ([es[0]] + InsertEntry(es[1..], key, value))[1..] == InsertEntry(es[1..], key, value);
    }
  }

  // An insert of a key that is already there is never seen: the first match stays the old one.
  lemma {:induction false} LookupInsertDuplicate(es: seq<Entry>, key: Key, value: PageId, other: Key)
    requires Lookup(es, key) != None && Ascending(es)
    ensures Lookup(InsertEntry(es, key, value), other) == Lookup(es, other)
  {
    hide Rank;
    if es[0].0 == key {
      LessIsTotalOrder(key, key, key);
    } else {
      LookupAbsent(es[1..], key);
      var i :| 0 <= i < |es[1..]| && es[1..][i].0 == key;
      assert es[i + 1].0 == key;
      LessIsTotalOrder(es[0].0, key, es[0].0);
      assert Ascending(es[1..]) by {
        assert forall j :: 0 <= j < |es| - 1 ==> es[1..][j] == es[j + 1];
      }
      LookupInsertDuplicate(es[1..], key, value, other);
    }
    if !(es == [] || Less(key, es[0].0)) {
      assert ([es[0]] + InsertEntry(es[1..], key, value))[1..] == InsertEntry(es[1..], key, value);
      if es[0].0 == key && other != key {
        LookupPastKey(es[1..], key, value, other);
      }
    }
  }

  // So a lookup right after an insert answers with the new value only if the key was not there, or
  // had that value already.
  lemma {:induction false} InsertOverwritesExactly(es: seq<Entry>, key: Key, value: PageId)
    requires Ascending(es)
    ensures Lookup(InsertEntry(es, key, value), key) == Some(value) <==> Lookup(es, key) in {None, Some(value)}
  {
    if Lookup(es, key) == None {
      LookupInsert(es, key, value, key);
    } else {
      LookupInsertDuplicate(es, key, value, key);
    }
  }

  // A second entry for a key spoils the strict order.
  lemma {:induction false} DuplicateBreaksOrder(es: seq<Entry>, key: Key, value: PageId)
    requires Lookup(es, key) != None && Ascending(es)
    ensures !Ascending(InsertEntry(es, key, value))
  {
    hide Rank, Less;
    InsertHolds(es, key, value);
    LookupAbsent(es, key);
    var i :| 0 <= i < |es| && es[i].0 == key;
    var after := InsertEntry(es, key, value);
    assert es == es[..i] + [es[i]] + es[i + 1..];
    assert multiset(after) == multiset(es[..i]) + multiset(es[i + 1..]) + multiset{es[i], (key, value)};
    if Ascending(after) {
      TwoOfOneKey(after, key, es[i].1, value);
    }
  }

  lemma {:induction false} InsertHolds(es: seq<Entry>, key: Key, value: PageId)
    ensures multiset(InsertEntry(es, key, value)) == multiset(es) + multiset{(key, value)}
  {
    hide Less;
    if es != [] && !Less(key, es[0].0) {
      InsertHolds(es[1..], key, value);
      assert es == [es[0]] + es[1..];
    }
  }

  // An ascending sequence holds a key at most once.
  lemma {:induction false} TwoOfOneKey(es: seq<Entry>, key: Key, v: PageId, w: PageId)
    requires multiset{(key, v), (key, w)} <= multiset(es)
    ensures !Ascending(es)
  {
    hide Rank, Less;
    assert (key, v) in es && (key, w) in es by {
      assert multiset{(key, v), (key, w)}[(key, v)] > 0 && multiset{(key, v), (key, w)}[(key, w)] > 0;
    }
    var i :| 0 <= i < |es| && es[i] == (key, v);
    var rest := es[..i] + es[i + 1..];
    assert es == es[..i] + [es[i]] + es[i + 1..];
    assert multiset(es) == multiset(rest) + multiset{(key, v)};
    assert (key, w) in rest by {
      assert multiset{(key, w)} <= multiset(rest);
    }
    var j :| 0 <= j < |rest| && rest[j] == (key, w);
    LessIsTotalOrder(key, key, key);
    if j < i {
      assert es[j].0 == key && es[i].0 == key;
    } else {
      assert es[j + 1].0 == key && es[i].0 == key;
    }
  }

  lemma {:induction false} LookupPastKey(es: seq<Entry>, key: Key, value: PageId, other: Key)
    requires other != key
    ensures Lookup(InsertEntry(es, key, value), other) == Lookup(es, other)
  {
    if es == [] || Less(key, es[0].0) {
      assert ([(key, value)] + es)[1..] == es;
    } else {
      LookupPastKey(es[1..], key, value, other);
      assert ([es[0]] + InsertEntry(es[1..], key, value))[1..] == InsertEntry(es[1..], key, value);
    }
  }

  lemma {:induction false} InsertKeepsAscending(es: seq<Entry>, key: Key, value: PageId)
    requires Ascending(es) && Lookup(es, key) == None
    ensures Ascending(InsertEntry(es, key, value))
    ensures multiset(InsertEntry(es, key, value)) == multiset(es) + multiset{(key, value)}
  {
    hide Rank, Less;
    InsertHolds(es, key, value);
    if es == [] || Less(key, es[0].0) {
      forall i | 0 < i < |es|
        ensures Less(key, es[i].0)
      {
        LessIsTotalOrder(key, es[0].0, es[i].0);
      }
    } else {
      var rest := es[1..];
      assert forall j :: 0 <= j < |rest| ==> rest[j] == es[j + 1];
      InsertKeepsAscending(rest, key, value);
      LessIsTotalOrder(es[0].0, key, key);
      var after := InsertEntry(rest, key, value);
      forall i | 0 <= i < |after|
        ensures Less(es[0].0, after[i].0)
      {
        InsertMember(rest, key, value, after[i]);
      }
    }
  }

  lemma {:induction false} InsertMember(es: seq<Entry>, key: Key, value: PageId, e: Entry)
    requires e in InsertEntry(es, key, value)
    ensures e == (key, value) || e in es
  {
    hide Less, InsertEntry;
    InsertHolds(es, key, value);
    assert e in multiset(InsertEntry(es, key, value));
  }

  // -- Overwritten ------------------------------------------------------------

  // Overwriting changes one answer and no other.
  lemma {:induction false} LookupOverwritten(es: seq<Entry>, key: Key, value: PageId, other: Key)
    ensures Lookup(Overwritten(es, key, value), other) ==
            if other == key && Lookup(es, key) != None then Some(value) else Lookup(es, other)
  {
    if es != [] {
      LookupOverwritten(es[1..], key, value, other);
      assert ([(key, value)] + es[1..])[1..] == es[1..];
      assert ([es[0]] + Overwritten(es[1..], key, value))[1..] == Overwritten(es[1..], key, value);
    }
  }

  // In an ascending sequence the first match is the only one.
  lemma {:induction false} AscendingMember(es: seq<Entry>, e: Entry)
    requires Ascending(es)
    ensures e in es <==> Lookup(es, e.0) == Some(e.1)
  {
    hide Rank;
    if es != [] {
      var rest := es[1..];
      assert es == [es[0]] + rest && es[0] == (es[0].0, es[0].1);
      assert Ascending(rest) by {
        assert forall j :: 0 <= j < |rest| ==> rest[j] == es[j + 1];
      }
      AscendingMember(rest, e);
      if es[0].0 == e.0 {
        LessIsTotalOrder(e.0, e.0, e.0);
        forall i | 0 <= i < |rest|
          ensures rest[i] != e
        {
          assert rest[i] == es[i + 1];
        }
      }
    }
  }

  lemma {:induction false} OverwrittenConcat(a: seq<Entry>, b: seq<Entry>, key: Key, value: PageId)
    ensures Overwritten(a + b, key, value) ==
            if Lookup(a, key) == None then a + Overwritten(b, key, value) else Overwritten(a, key, value) + b
  {
    if a == [] {
      assert a + b == b;
    } else {
      assert (a + b)[1..] == a[1..] + b && (a + b)[0] == a[0];
      if a[0].0 == key {
        assert [(key, value)] + (a[1..] + b) == [(key, value)] + a[1..] + b;
      } else {
        OverwrittenConcat(a[1..], b, key, value);
        Regroup(a[0], a[1..], Overwritten(b, key, value));
        Regroup(a[0], Overwritten(a[1..], key, value), b);
        assert a == [a[0]] + a[1..];
      }
    }
  }

  lemma {:induction false} Regroup(e: Entry, a: seq<Entry>, b: seq<Entry>)
    ensures [e] + (a + b) == [e] + a + b
  {
  }

  lemma {:induction false} OverwrittenMiddle(a: seq<Entry>, b: seq<Entry>, c: seq<Entry>, key: Key, value: PageId)
    requires AllBelow(a, Rank(key)) && Lookup(b, key) != None
    ensures Overwritten(a + b + c, key, value) == a + Overwritten(b, key, value) + c
  {
    hide Rank;
    LookupAbsent(a, key);
    LookupConcat(a, b, key);
    OverwrittenConcat(a + b, c, key, value);
    OverwrittenConcat(a, b, key, value);
  }

  lemma {:induction false} OverwrittenAt(es: seq<Entry>, i: nat, key: Key, value: PageId)
    requires i < |es| && es[i].0 == key && forall j :: 0 <= j < i ==> es[j].0 != key
    ensures Overwritten(es, key, value) == es[i := (key, value)]
  {
    if i > 0 {
      assert forall j :: 0 <= j < i - 1 ==> es[1..][j] == es[j + 1];
      OverwrittenAt(es[1..], i - 1, key, value);
    }
  }

  // -- InRange ----------------------------------------------------------------

  lemma {:induction false} RangeConcat(a: seq<Entry>, b: seq<Entry>, start: Key, end: Key)
    ensures InRange(a + b, start, end) == InRange(a, start, end) + InRange(b, start, end)
  {
    if a == [] {
      assert a + b == b;
    } else {
      assert (a + b)[1..] == a[1..] + b;
      RangeConcat(a[1..], b, start, end);
    }
  }

  lemma {:induction false} RangeWithin(es: seq<Entry>, start: Key, end: Key)
    ensures forall e :: e in InRange(es, start, end) ==> e in es && !Less(e.0, start) && !Less(end, e.0)
  {
    if es != [] {
      RangeWithin(es[1..], start, end);
    }
  }

  lemma {:induction false} RangeBelow(es: seq<Entry>, start: Key, end: Key)
    requires AllBelow(es, Rank(start))
    ensures InRange(es, start, end) == []
  {
    hide Rank, Less;
    if es != [] {
      RankOrder(es[0].0, start);
      RangeBelow(es[1..], start, end);
    }
  }

  // A range query over ascending entries returns each qualifying pair once, in ascending order,
  // and nothing else.
  lemma {:induction false} RangeIsExact(es: seq<Entry>, start: Key, end: Key)
    requires Ascending(es)
    ensures Ascending(InRange(es, start, end))
    ensures forall e :: e in InRange(es, start, end) <==> e in es && !Less(e.0, start) && !Less(end, e.0)
  {
    hide Rank;
    if es != [] {
      var rest := es[1..];
      assert Ascending(rest) by {
        assert forall j :: 0 <= j < |rest| ==> rest[j] == es[j + 1];
      }
      RangeIsExact(rest, start, end);
      assert forall e :: e in es <==> e == es[0] || e in rest;
      var tail := InRange(rest, start, end);
      forall i | 0 <= i < |tail|
        ensures Less(es[0].0, tail[i].0)
      {
        assert tail[i] in tail;
        assert tail[i] in rest;
      }
    }
  }
}
