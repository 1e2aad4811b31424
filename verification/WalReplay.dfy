// Replay: the records of committed transactions, in log order (wal.rs:434-475).
module WalReplay {
  import opened Wrappers
  import opened Bytes
  import opened Pages
  import opened TxIds
  import opened WalRecords
  import opened WalFraming

  // A transaction counts as committed if its commit record is anywhere in the log.
  ghost predicate Commits(rs: seq<WalRecord>, tx: TxId) {
    WalRecord.Commit(tx) in rs
  }

  function CommittedIn(rs: seq<WalRecord>): (s: set<TxId>)
    ensures forall tx :: tx in s <==> Commits(rs, tx)
  {
    if rs == [] then {}
    else
      var rest := CommittedIn(rs[1..]);
      assert rs == [rs[0]] + rs[1..];
      if rs[0].Commit? then rest + {rs[0].tx} else rest
  }

  predicate Kept(r: WalRecord, committed: set<TxId>) {
    !r.Abort? && r.tx in committed
  }

  function Filter(rs: seq<WalRecord>, committed: set<TxId>): seq<WalRecord> {
    if rs == [] then []
    else if Kept(rs[0], committed) then [rs[0]] + Filter(rs[1..], committed)
    else Filter(rs[1..], committed)
  }

  function Replay(rs: seq<WalRecord>): seq<WalRecord> {
    Filter(rs, CommittedIn(rs))
  }

  // replay_wal on a reader that stands behind the file header.
  method ReplayFrom(reader: WalReader) returns (r: Result<seq<WalRecord>>)
    requires reader.Valid()
    modifies reader
    ensures var (records, end) := ReadLog(reader.crc, old(reader.file[reader.position..]));
            r == if end.Ok? then Ok(Replay(records)) else Err(end.error)
  {
    hide ReadLog, Filter;
    var collected :- Collect(reader);
    var out := KeepCommitted(collected.0, collected.1);
    r := Ok(out);
  }

  // The loop.  The sets of active and aborted transactions are kept up to date but nobody looks at
  // them.
  method Collect(reader: WalReader) returns (r: Result<(seq<WalRecord>, set<TxId>)>)
    requires reader.Valid()
    modifies reader
    ensures var (records, end) := ReadLog(reader.crc, old(reader.file[reader.position..]));
            r == if end.Ok? then Ok((records, CommittedIn(records))) else Err(end.error)
  {
    hide ReadNext, CommittedIn;
    var active: set<TxId>, committed: set<TxId>, aborted: set<TxId> := {}, {}, {};
    var records: seq<WalRecord> := [];
    ghost var log := ReadLog(reader.crc, reader.file[reader.position..]);
    while true
      invariant reader.Valid() && reader.position <= |reader.file|
      invariant forall tx :: tx in committed <==> Commits(records, tx)
      invariant var rest := ReadLog(reader.crc, reader.file[reader.position..]);
                log.0 == records + rest.0 && log.1 == rest.1
      decreases |reader.file| - reader.position
    {
      var next :- reader.Next();
      if next.None? {
        break;
      }
      var rec := next.value;
      match rec {
        case Begin(tx) => active := active + {tx};
        case Commit(tx) =>
          active := active - {tx};
          committed := committed + {tx};
        case Abort(tx) =>
          active := active - {tx};
          aborted := aborted + {tx};
        case Put(_, _, _, _) =>
        case Delete(_, _, _) =>
      }
      records := records + [rec];
    }
    assert log.0 == records && log.1 == Ok(());
    assert committed == CommittedIn(records);
    r := Ok((records, committed));
  }

  method KeepCommitted(records: seq<WalRecord>, committed: set<TxId>) returns (out: seq<WalRecord>)
    ensures out == Filter(records, committed)
  {
    hide Filter;
    out := [];
    assert records[0..] == records;
    for i := 0 to |records|
      invariant out + Filter(records[i..], committed) == Filter(records, committed)
    {
      FilterStep(records[i..], committed);
      assert records[i..][1..] == records[i + 1..];
      if Kept(records[i], committed) {
        out := out + [records[i]];
      }
    }
    FilterNothing(committed);
  }

  lemma {:induction false} FilterStep(rs: seq<WalRecord>, committed: set<TxId>)
    requires rs != []
    ensures Filter(rs, committed) == (if Kept(rs[0], committed) then [rs[0]] else []) + Filter(rs[1..], committed)
  {
  }

  lemma {:induction false} FilterNothing(committed: set<TxId>)
    ensures Filter([], committed) == []
  {
  }

  // replay_wal as written: open rejects every file, so it never replays anything.
  method ReplayWal(crc: Checksum, file: seq<byte>) returns (r: Result<seq<WalRecord>>)
    ensures r.Err?
  {
    NothingOpens(file);
    var header := Open(file);
    if header.Err? {
      return Err(header.error);
    }
    assert false;
  }

  // ---------------------------------------------------------------------------
  // What replay returns
  // ---------------------------------------------------------------------------

  // `a` is `b` with some elements left out.
  ghost predicate Subsequence(a: seq<WalRecord>, b: seq<WalRecord>) {
    a == [] || (b != [] && (if a[0] == b[0] then Subsequence(a[1..], b[1..]) else Subsequence(a, b[1..])))
  }

  lemma {:induction false} FilterConcat(a: seq<WalRecord>, b: seq<WalRecord>, committed: set<TxId>)
    ensures Filter(a + b, committed) == Filter(a, committed) + Filter(b, committed)
  {
    if a == [] {
      assert a + b == b;
    } else {
      FilterConcat(a[1..], b, committed);
      assert (a + b)[1..] == a[1..] + b;
    }
  }

  lemma {:induction false} FilterIn(rs: seq<WalRecord>, committed: set<TxId>, r: WalRecord)
    ensures multiset(Filter(rs, committed))[r] == if Kept(r, committed) then multiset(rs)[r] else 0
  {
    if rs != [] {
      FilterIn(rs[1..], committed, r);
      assert rs == [rs[0]] + rs[1..];
    }
  }

  // Fewer commits, fewer records.
  lemma {:induction false} FilterSubsequence(rs: seq<WalRecord>, few: set<TxId>, many: set<TxId>)
    requires few <= many
    ensures Subsequence(Filter(rs, few), Filter(rs, many))
    ensures Subsequence(Filter(rs, few), rs)
  {
    if rs != [] {
      FilterSubsequence(rs[1..], few, many);
      if !Kept(rs[0], few) {
        SkipHead(Filter(rs[1..], few), rs);
        SkipHead(Filter(rs[1..], few), [rs[0]] + Filter(rs[1..], many));
      }
    }
  }

  // Matching greedily from the left finds an embedding if there is one.
  lemma {:induction false} SkipHead(a: seq<WalRecord>, b: seq<WalRecord>)
    requires b != [] && Subsequence(a, b[1..])
    ensures Subsequence(a, b)
  {
    if a != [] && a[0] == b[0] {
      DropHead(a, b[1..]);
    }
  }

  lemma {:induction false} DropHead(a: seq<WalRecord>, b: seq<WalRecord>)
    requires a != [] && Subsequence(a, b)
    ensures Subsequence(a[1..], b)
  {
    if a[0] == b[0] {
      SkipHead(a[1..], b);
    } else {
      DropHead(a, b[1..]);
      SkipHead(a[1..], b);
    }
  }

  lemma {:induction false} PrefixIsSubsequence(a: seq<WalRecord>, b: seq<WalRecord>, c: seq<WalRecord>)
    requires Subsequence(a, b)
    ensures Subsequence(a, b + c)
  {
    if a != [] {
      assert (b + c)[1..] == b[1..] + c;
      if a[0] == b[0] {
        PrefixIsSubsequence(a[1..], b[1..], c);
      } else {
        PrefixIsSubsequence(a, b[1..], c);
      }
    }
  }

  // In log order, exactly the records other than aborts of transactions with a commit in the log,
  // each as often as the log has it.
  lemma {:induction false} ReplayIsExact(rs: seq<WalRecord>)
    ensures Subsequence(Replay(rs), rs)
    ensures forall r :: multiset(Replay(rs))[r] == if !r.Abort? && Commits(rs, r.tx) then multiset(rs)[r] else 0
  {
    hide Filter, Subsequence;
    FilterSubsequence(rs, CommittedIn(rs), CommittedIn(rs));
    forall r
      ensures multiset(Replay(rs))[r] == if !r.Abort? && Commits(rs, r.tx) then multiset(rs)[r] else 0
    {
      FilterIn(rs, CommittedIn(rs), r);
    }
  }

  lemma {:induction false} ReplayHas(rs: seq<WalRecord>, r: WalRecord)
    ensures r in Replay(rs) <==> r in rs && !r.Abort? && Commits(rs, r.tx)
  {
    hide Replay;
    ReplayIsExact(rs);
    assert r in Replay(rs) <==> r in multiset(Replay(rs));
    assert r in rs <==> r in multiset(rs);
  }

  lemma {:induction false} FilterTwice(rs: seq<WalRecord>, committed: set<TxId>)
    ensures Filter(Filter(rs, committed), committed) == Filter(rs, committed)
  {
    if rs != [] {
      FilterTwice(rs[1..], committed);
      if Kept(rs[0], committed) {
        assert Filter(rs, committed)[1..] == Filter(rs[1..], committed);
      }
    }
  }

  // Replaying what was replayed changes nothing.
  lemma {:induction false} ReplayTwice(rs: seq<WalRecord>)
    ensures Replay(Replay(rs)) == Replay(rs)
  {
    hide Filter;
    forall tx
      ensures Commits(Replay(rs), tx) <==> Commits(rs, tx)
    {
      ReplayHas(rs, WalRecord.Commit(tx));
    }
    assert CommittedIn(Replay(rs)) == CommittedIn(rs);
    FilterTwice(rs, CommittedIn(rs));
  }

  // A record makes no difference, wherever in the log it stands, exactly when it is an abort or
  // its transaction has no commit; then whole transactions that never committed make none either.
  lemma {:induction false} RecordIrrelevantExactly(a: seq<WalRecord>, r: WalRecord, b: seq<WalRecord>)
    ensures Replay(a + [r] + b) == Replay(a + b) <==> r.Abort? || !Commits(a + [r] + b, r.tx)
  {
    hide Filter;
    var less, more := a + b, a + [r] + b;
    var few, many := CommittedIn(less), CommittedIn(more);
    assert forall x :: x in more <==> x in less || x == r;
    FilterConcat(a + [r], b, many);
    FilterConcat(a, [r], many);
    FilterConcat(a, b, many);
    FilterStep([r], many);
    FilterNothing(many);
    assert [r][1..] == [];
    if Kept(r, many) {
      FilterLength(less, few, many);
    } else {
      assert few == many;
      assert Filter([r], many) == [];
    }
  }

  lemma {:induction false} FilterLength(rs: seq<WalRecord>, few: set<TxId>, many: set<TxId>)
    requires few <= many
    ensures |Filter(rs, few)| <= |Filter(rs, many)|
  {
    if rs != [] {
      FilterLength(rs[1..], few, many);
    }
  }

  // A longer log only adds records to what is replayed, possibly in the middle.
  lemma {:induction false} LongerLog(a: seq<WalRecord>, b: seq<WalRecord>)
    ensures Subsequence(Replay(a), Replay(a + b))
  {
    hide Filter, Subsequence;
    var few, many := CommittedIn(a), CommittedIn(a + b);
    FilterSubsequence(a, few, many);
    FilterConcat(a, b, many);
    PrefixIsSubsequence(Filter(a, few), Filter(a, many), Filter(b, many));
  }

  // Nothing comes back if and only if nothing committed; the engine's own log holds puts and deletes only.
  lemma {:induction false} NothingReplayedExactly(rs: seq<WalRecord>)
    ensures Replay(rs) == [] <==> forall r :: r in rs ==> !r.Commit?
  {
    hide Replay;
    if Replay(rs) == [] {
      forall r | r in rs && r.Commit?
        ensures false
      {
        ReplayHas(rs, r);
      }
    } else {
      var r := Replay(rs)[0];
      ReplayHas(rs, r);
    }
  }

  // Aborting is not enough to keep a transaction out: its records are gone exactly when it has no
  // commit record, and a commit wins over an abort in either order.
  lemma {:induction false} AbortedGoneExactly(rs: seq<WalRecord>, tx: TxId)
    ensures (forall r :: r in Replay(rs) ==> r.tx != tx) <==> !Commits(rs, tx)
  {
    hide Replay;
    forall r | r in Replay(rs)
      ensures Commits(rs, r.tx)
    {
      ReplayHas(rs, r);
    }
    ReplayHas(rs, WalRecord.Commit(tx));
  }

  // ---------------------------------------------------------------------------
  // Renaming transactions
  // ---------------------------------------------------------------------------

  function Renamed(rs: seq<WalRecord>, f: TxId -> TxId): (s: seq<WalRecord>)
    ensures |s| == |rs|
    ensures forall i :: 0 <= i < |rs| ==> s[i] == WithTx(rs[i], f(rs[i].tx))
  {
    if rs == [] then [] else [WithTx(rs[0], f(rs[0].tx))] + Renamed(rs[1..], f)
  }

  ghost predicate InjectiveOn(rs: seq<WalRecord>, f: TxId -> TxId) {
    forall i, j :: 0 <= i < |rs| && 0 <= j < |rs| && f(rs[i].tx) == f(rs[j].tx) ==> rs[i].tx == rs[j].tx
  }

  lemma {:induction false} FilterRenamed(rs: seq<WalRecord>, f: TxId -> TxId, committed: set<TxId>, renamed: set<TxId>)
    requires forall i :: 0 <= i < |rs| ==> (f(rs[i].tx) in renamed <==> rs[i].tx in committed)
    ensures Filter(Renamed(rs, f), renamed) == Renamed(Filter(rs, committed), f)
  {
    if rs != [] {
      assert forall i :: 0 <= i < |rs[1..]| ==> rs[1..][i] == rs[i + 1];
      FilterRenamed(rs[1..], f, committed, renamed);
      assert Renamed(rs, f)[1..] == Renamed(rs[1..], f);
      var rest := Filter(rs[1..], committed);
      assert ([rs[0]] + rest)[1..] == rest;
    }
  }

  // Replay does not care what the ids are, as long as different ones stay different.
  lemma {:induction false} ReplayRenamed(rs: seq<WalRecord>, f: TxId -> TxId)
    requires InjectiveOn(rs, f)
    ensures Replay(Renamed(rs, f)) == Renamed(Replay(rs), f)
  {
    hide Filter;
    var named := Renamed(rs, f);
    forall i | 0 <= i < |rs|
      ensures Commits(named, f(rs[i].tx)) <==> Commits(rs, rs[i].tx)
    {
      if Commits(named, f(rs[i].tx)) {
        var j :| 0 <= j < |named| && named[j] == WalRecord.Commit(f(rs[i].tx));
        assert rs[j] == WalRecord.Commit(rs[i].tx);
      }
      if Commits(rs, rs[i].tx) {
        var j :| 0 <= j < |rs| && rs[j] == WalRecord.Commit(rs[i].tx);
        assert named[j] == WalRecord.Commit(f(rs[i].tx));
      }
    }
    FilterRenamed(rs, f, CommittedIn(rs), CommittedIn(named));
  }

  // In particular the byte permutation the reader applies to every id does no harm by itself.
  lemma {:induction false} ReplayReadBack(rs: seq<WalRecord>)
    ensures Replay(ReadBack(rs)) == ReadBack(Replay(rs))
  {
    hide Replay, Swap;
    var f: TxId -> TxId := Swap;
    forall i, j | 0 <= i < |rs| && 0 <= j < |rs| && f(rs[i].tx) == f(rs[j].tx)
      ensures rs[i].tx == rs[j].tx
    {
      SwapTwice(rs[i].tx);
      SwapTwice(rs[j].tx);
    }
    ReplayRenamed(rs, f);
    assert ReadBack(rs) == Renamed(rs, f);
    assert ReadBack(Replay(rs)) == Renamed(Replay(rs), f);
  }

  // ---------------------------------------------------------------------------
  // Replay after a crash
  // ---------------------------------------------------------------------------

  // Nothing of a transaction follows its commit.
  ghost predicate CommitIsLast(rs: seq<WalRecord>, tx: TxId) {
    forall i, j :: 0 <= i < j < |rs| && rs[i] == WalRecord.Commit(tx) ==> rs[j].tx != tx
  }

  // The records one transaction contributes to a replayed log.
  function Of(rs: seq<WalRecord>, tx: TxId): seq<WalRecord> {
    if rs == [] then [] else (if rs[0].tx == tx && !rs[0].Abort? then [rs[0]] else []) + Of(rs[1..], tx)
  }

  lemma {:induction false} OfFilter(rs: seq<WalRecord>, committed: set<TxId>, tx: TxId)
    ensures Of(Filter(rs, committed), tx) == if tx in committed then Of(rs, tx) else []
  {
    if rs != [] {
      OfFilter(rs[1..], committed, tx);
      if Kept(rs[0], committed) {
        assert Filter(rs, committed)[1..] == Filter(rs[1..], committed);
      }
    }
  }

  lemma {:induction false} OfConcat(a: seq<WalRecord>, b: seq<WalRecord>, tx: TxId)
    ensures Of(a + b, tx) == Of(a, tx) + Of(b, tx)
  {
    if a == [] {
      assert a + b == b;
    } else {
      OfConcat(a[1..], b, tx);
      assert (a + b)[1..] == a[1..] + b && (a + b)[0] == a[0];
      var head := if a[0].tx == tx && !a[0].Abort? then [a[0]] else [];
      assert head + (Of(a[1..], tx) + Of(b, tx)) == head + Of(a[1..], tx) + Of(b, tx);
    }
  }

  lemma {:induction false} OfOthers(rs: seq<WalRecord>, tx: TxId)
    requires forall i :: 0 <= i < |rs| ==> rs[i].tx != tx
    ensures Of(rs, tx) == []
  {
    if rs != [] {
      assert forall i :: 0 <= i < |rs[1..]| ==> rs[1..][i] == rs[i + 1];
      OfOthers(rs[1..], tx);
    }
  }

  // All or nothing: however many records survive, a transaction whose commit was its last record
  // is replayed with everything it logged, or not at all.
  lemma {:induction false} AllOrNothing(rs: seq<WalRecord>, n: nat, tx: TxId)
    requires n <= |rs| && CommitIsLast(rs, tx)
    ensures Of(Replay(rs[..n]), tx) == if Commits(rs[..n], tx) then Of(rs, tx) else []
  {
    hide Filter, Of;
    var kept := rs[..n];
    OfFilter(kept, CommittedIn(kept), tx);
    if Commits(kept, tx) {
      var i :| 0 <= i < |kept| && kept[i] == WalRecord.Commit(tx);
      assert rs[i] == WalRecord.Commit(tx);
      assert rs == kept + rs[n..];
      OfConcat(kept, rs[n..], tx);
      OfOthers(rs[n..], tx);
    }
  }

  // The whole path: append records, lose the end of the file, replay what is left.  A cut between
  // frames replays the surviving records of transactions whose commit survived; any other cut is
  // an error, and nothing at all is replayed.
  method ReplayCut(crc: Checksum, rs: seq<WalRecord>, cut: nat) returns (r: Result<seq<WalRecord>>)
    requires forall i :: 0 <= i < |rs| ==> Loggable(rs[i])
    requires cut <= |Frames(crc, rs)|
    ensures var n := Complete(crc, rs, cut);
            if cut == |Frames(crc, rs[..n])| then r == Ok(ReadBack(Replay(rs[..n]))) else r.Err?
  {
    hide Complete, Replay, ReadLog, Frames, ReadBack;
    var log := WriteLog(crc, rs);
    CutLog(crc, rs, cut);
    ReplayReadBack(rs[..Complete(crc, rs, cut)]);
    var file := log[..|FILE_HEADER| + cut];
    var reader := new WalReader.At(crc, file, |FILE_HEADER|);
    assert file[|FILE_HEADER|..] == Frames(crc, rs)[..cut];
    r := ReplayFrom(reader);
  }

  method WriteLog(crc: Checksum, rs: seq<WalRecord>) returns (file: seq<byte>)
    ensures file == FILE_HEADER + Frames(crc, rs)
  {
    hide Frame;
    var writer := new WalWriter(crc, []);
    assert FILE_HEADER + Frames(crc, rs[..0]) == FILE_HEADER;
    for i := 0 to |rs|
      invariant writer.crc == crc && writer.file == FILE_HEADER + Frames(crc, rs[..i])
    {
      writer.Append(rs[i]);
      FramesSnoc(crc, rs[..i], rs[i]);
      assert rs[..i + 1] == rs[..i] + [rs[i]];
    }
    assert rs[..|rs|] == rs;
    file := writer.file;
  }

  lemma {:induction false} FramesSnoc(crc: Checksum, rs: seq<WalRecord>, r: WalRecord)
    ensures Frames(crc, rs + [r]) == Frames(crc, rs) + Frame(crc, r)
  {
    hide Frame;
    if rs == [] {
      assert rs + [r] == [r] && [r][1..] == [];
    } else {
      FramesSnoc(crc, rs[1..], r);
      assert (rs + [r])[1..] == rs[1..] + [r];
    }
  }
}
