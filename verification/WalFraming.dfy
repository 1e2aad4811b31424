// Frames of the log file, and what a reader gets out of a file that was cut anywhere (wal.rs:155-294).
module WalFraming {
  import opened Wrappers
  import opened Bytes
  import opened Pages
  import opened TxIds
  import opened WalRecords

  // b"SABIWAL"
  const WAL_MAGIC: seq<byte> := [83, 65, 66, 73, 87, 65, 76]
  const WAL_VERSION := 1
  const WAL_HEADER_SIZE := 11

  const FILE_HEADER: seq<byte> := WAL_MAGIC + Le(WAL_VERSION, 2) + Le(0, 2)

  function Frame(crc: Checksum, r: WalRecord): seq<byte> {
    var payload := SerializeRecord(r);
    Le(|payload|, 4) + payload + Le(crc(payload), 4)
  }

  function Frames(crc: Checksum, rs: seq<WalRecord>): seq<byte> {
    if rs == [] then [] else Frame(crc, rs[0]) + Frames(crc, rs[1..])
  }

  class WalWriter {
    const crc: Checksum
    var file: seq<byte>
    // How much of the file is known to be on disk; only a commit record forces it out.
    var synced: nat

    // open: a new file gets the header.
    constructor (crc: Checksum, existing: seq<byte>)
      ensures this.crc == crc && file == if existing == [] then FILE_HEADER else existing
      ensures synced == if existing == [] then |file| else 0
    {
      this.crc := crc;
      file := if existing == [] then FILE_HEADER else existing;
      synced := if existing == [] then |FILE_HEADER| else 0;
    }

    method Append(r: WalRecord)
      modifies this
      ensures file == old(file) + Frame(crc, r)
      ensures synced == if r.Commit? then |file| else old(synced)
    {
      hide Le, SerializeRecord;
      var payload := SerializeRecord(r);
      file := file + Le(|payload|, 4);
      file := file + payload;
      file := file + Le(crc(payload), 4);
      if r.Commit? {
        synced := |file|;
      }
    }
  }

  // One record off the front of the remaining bytes, and the bytes behind it; None at the end.
  function ReadNext(crc: Checksum, b: seq<byte>): (r: Result<Option<(WalRecord, seq<byte>)>>)
    ensures r.Ok? && r.value.Some? ==> |r.value.value.1| < |b|
  {
    if |b| == 0 then Ok(None)
    else if |b| < 4 then Err(Corruption)
    else
      var len := FromLe(b[..4]);
      if 4 + len > |b| then Err(Io)
      else if 4 + len + 4 > |b| then Err(Io)
      else
        var payload := b[4..4 + len];
        if crc(payload) != FromLe(b[4 + len..4 + len + 4]) then Err(Corruption)
        else
          var record :- DeserializeRecord(payload);
          Ok(Some((record, b[4 + len + 4..])))
  }

  // The read loop of replay_wal: the records up to the end or the first error, and how it ended.
  function ReadLog(crc: Checksum, b: seq<byte>): (seq<WalRecord>, Result<()>)
    decreases |b|
  {
    match ReadNext(crc, b)
    case Err(e) => ([], Err(e))
    case Ok(None) => ([], Ok(()))
    case Ok(Some((record, rest))) =>
      var (more, end) := ReadLog(crc, rest);
      ([record] + more, end)
  }

  class WalReader {
    const crc: Checksum
    const file: seq<byte>
    var position: nat

    constructor At(crc: Checksum, file: seq<byte>, position: nat)
      requires position <= |file|
      ensures this.crc == crc && this.file == file && this.position == position
    {
      this.crc, this.file, this.position := crc, file, position;
    }

    ghost predicate Valid()
      reads this
    {
      position <= |file|
    }

    // After an error the position is wherever the failed read left it.
    method Next() returns (r: Result<Option<WalRecord>>)
      requires Valid()
      modifies this
      ensures Valid()
      ensures match ReadNext(crc, old(file[position..]))
              case Err(e) => r == Err(e)
              case Ok(None) => r == Ok(None) && position == old(position)
              case Ok(Some((record, rest))) => r == Ok(Some(record)) && file[position..] == rest && old(position) < position
    {
      hide FromLe, DeserializeRecord;
      ghost var b := file[position..];
      var n := if |file| - position < 4 then |file| - position else 4;
      if n == 0 {
        return Ok(None);
      }
      var lenBytes := file[position..position + n];
      position := position + n;
      if n != 4 {
        return Err(Corruption);
      }
      assert lenBytes == b[..4];
      var len := FromLe(lenBytes);
      if position + len > |file| {
        return Err(Io);
      }
      var payload := file[position..position + len];
      position := position + len;
      if position + 4 > |file| {
        return Err(Io);
      }
      var sum := file[position..position + 4];
      position := position + 4;
      assert payload == b[4..4 + len] && sum == b[4 + len..4 + len + 4];
      if crc(payload) != FromLe(sum) {
        return Err(Corruption);
      }
      var record :- DeserializeRecord(payload);
      r := Ok(Some(record));
    }
  }

  // WalReader::open, without moving on: is this a log file?
  function Open(file: seq<byte>): Result<()> {
    if |file| < WAL_HEADER_SIZE then Err(Io)
    else if file[..7] != WAL_MAGIC then Err(Corruption)
    else if FromLe([file[6], file[7]]) != WAL_VERSION then Err(Corruption)
    else Ok(())
  }

  // As written, open reads the version from bytes 6 and 7, one byte early: the low byte it looks at
  // is the L of the magic.  No file whatsoever opens, least of all one a writer made.
  lemma {:induction false} NothingOpens(file: seq<byte>)
    ensures Open(file).Err?
    ensures FILE_HEADER <= file ==> Open(file) == Err(Corruption)
  {
    if WAL_HEADER_SIZE <= |file| && file[..7] == WAL_MAGIC {
      assert file[6] == file[..7][6] == 76;
      assert [file[6], file[7]][1..] == [file[7]];
      assert FromLe([file[6], file[7]]) == 76 + 256 * FromLe([file[7]]);
    }
    if FILE_HEADER <= file {
      assert file[..7] == FILE_HEADER[..7] == WAL_MAGIC;
    }
  }

  // ---------------------------------------------------------------------------
  // Reading a log that was cut anywhere
  // ---------------------------------------------------------------------------

  // What a record reads back as.
  function ReadBack(rs: seq<WalRecord>): (s: seq<WalRecord>)
    ensures |s| == |rs|
    ensures forall i :: 0 <= i < |rs| ==> s[i] == WithTx(rs[i], Swap(rs[i].tx))
  {
    if rs == [] then [] else [WithTx(rs[0], Swap(rs[0].tx))] + ReadBack(rs[1..])
  }

  // How many frames lie wholly within the first `cut` bytes.
  function Complete(crc: Checksum, rs: seq<WalRecord>, cut: nat): (n: nat)
    ensures n <= |rs|
    decreases |rs|
  {
    if rs == [] || cut < |Frame(crc, rs[0])| then 0 else 1 + Complete(crc, rs[1..], cut - |Frame(crc, rs[0])|)
  }

  // Complete is the largest such number.
  lemma {:induction false} CompleteIsMost(crc: Checksum, rs: seq<WalRecord>, cut: nat)
    ensures var n := Complete(crc, rs, cut);
            && |Frames(crc, rs[..n])| <= cut
            && (n < |rs| ==> cut < |Frames(crc, rs[..n + 1])|)
    decreases |rs|
  {
    hide Frame;
    if rs != [] {
      var n := Complete(crc, rs, cut);
      assert rs[..1][1..] == [];
      if |Frame(crc, rs[0])| <= cut {
        CompleteIsMost(crc, rs[1..], cut - |Frame(crc, rs[0])|);
        assert rs[..n][1..] == rs[1..][..n - 1];
        assert n < |rs| ==> rs[..n + 1][1..] == rs[1..][..n];
      }
    }
  }

  lemma {:induction false} ReadFrame(crc: Checksum, r: WalRecord, rest: seq<byte>)
    requires Loggable(r)
    ensures ReadNext(crc, Frame(crc, r) + rest) == Ok(Some((WithTx(r, Swap(r.tx)), rest)))
  {
    hide Le, FromLe, SerializeRecord, DeserializeRecord, Swap;
    var payload := SerializeRecord(r);
    var b, len := Frame(crc, r) + rest, |payload|;
    RecordSize(r);
    RecordRoundTrip(r);
    PowValues();
    LeRoundTrip(len, 4);
    LeRoundTrip(crc(payload), 4);
    assert b[..4] == Le(len, 4);
    assert b[4..4 + len] == payload;
    assert b[4 + len..4 + len + 4] == Le(crc(payload), 4);
    assert b[4 + len + 4..] == rest;
  }

  lemma {:induction false} ReadCutFrame(crc: Checksum, r: WalRecord, cut: nat)
    requires Loggable(r) && 0 < cut < |Frame(crc, r)|
    ensures ReadNext(crc, Frame(crc, r)[..cut]).Err?
  {
    hide Le, FromLe, SerializeRecord, DeserializeRecord;
    var payload := SerializeRecord(r);
    var b := Frame(crc, r)[..cut];
    RecordSize(r);
    PowValues();
    LeRoundTrip(|payload|, 4);
    if 4 <= |b| {
      assert b[..4] == Le(|payload|, 4);
    }
  }

  // For every list of records and every cut: the reader yields exactly the records whose frames are
  // complete, with their ids permuted, and ends cleanly if and only if the cut is between frames.
  lemma {:induction false} CutLog(crc: Checksum, rs: seq<WalRecord>, cut: nat)
    requires forall i :: 0 <= i < |rs| ==> Loggable(rs[i])
    requires cut <= |Frames(crc, rs)|
    ensures var (records, end) := ReadLog(crc, Frames(crc, rs)[..cut]);
            var n := Complete(crc, rs, cut);
            && records == ReadBack(rs[..n])
            && (end.Ok? <==> cut == |Frames(crc, rs[..n])|)
    decreases |rs|
  {
    hide Frame, ReadNext, SerializeRecord, Swap;
    var b, n := Frames(crc, rs)[..cut], Complete(crc, rs, cut);
    if cut == 0 {
      ReadNothing(crc);
      assert b == [];
      if rs != [] {
        FrameIsLong(crc, rs[0]);
      }
      assert rs[..n] == [];
    } else {
      var size := |Frame(crc, rs[0])|;
      if cut < size {
        assert b == Frame(crc, rs[0])[..cut];
        ReadCutFrame(crc, rs[0], cut);
        assert rs[..n] == [];
      } else {
        var rest := Frames(crc, rs[1..])[..cut - size];
        assert b == Frame(crc, rs[0]) + rest;
        ReadFrame(crc, rs[0], rest);
        CutLog(crc, rs[1..], cut - size);
        assert rs[..n][1..] == rs[1..][..n - 1];
      }
    }
  }

  lemma {:induction false} ReadNothing(crc: Checksum)
    ensures ReadNext(crc, []) == Ok(None)
  {
  }

  lemma {:induction false} FrameIsLong(crc: Checksum, r: WalRecord)
    ensures 8 <= |Frame(crc, r)|
  {
  }

  // ---------------------------------------------------------------------------
  // Damage
  // ---------------------------------------------------------------------------

  // A frame around any payload, with any four bytes for its checksum.
  function Framed(payload: seq<byte>, sum: seq<byte>): seq<byte> {
    Le(|payload|, 4) + payload + sum
  }

  // Bytes that begin with a whole frame: a wrong checksum is refused whatever the payload is, and
  // with the right one the payload alone decides.
  lemma {:induction false} FrameDecides(crc: Checksum, payload: seq<byte>, sum: seq<byte>, rest: seq<byte>)
    requires |payload| < 0x1_0000_0000 && |sum| == 4
    ensures ReadNext(crc, Framed(payload, sum) + rest) ==
            if sum != Le(crc(payload), 4) then Err(Corruption)
            else match DeserializeRecord(payload)
              case Ok(r) => Ok(Some((r, rest)))
              case Err(e) => Err(e)
  {
    hide Le, FromLe, DeserializeRecord;
    var b, len := Framed(payload, sum) + rest, |payload|;
    PowValues();
    LeRoundTrip(len, 4);
    LeRoundTrip(crc(payload), 4);
    FromLeRoundTrip(sum);
    assert b[..4] == Le(len, 4);
    assert b[4..4 + len] == payload;
    assert b[4 + len..4 + len + 4] == sum;
    assert b[4 + len + 4..] == rest;
  }

  lemma {:induction false} FrameAtFront(crc: Checksum, b: seq<byte>) returns (payload: seq<byte>)
    requires ReadNext(crc, b).Ok? && ReadNext(crc, b).value.Some?
    ensures |payload| < 0x1_0000_0000 && b == Framed(payload, Le(crc(payload), 4)) + ReadNext(crc, b).value.value.1
    ensures DeserializeRecord(payload) == Ok(ReadNext(crc, b).value.value.0)
  {
    hide Le, FromLe, DeserializeRecord;
    var len := FromLe(b[..4]);
    payload := b[4..4 + len];
    PowValues();
    FromLeRoundTrip(b[..4]);
    FromLeRoundTrip(b[4 + len..4 + len + 4]);
    assert b == b[..4] + payload + b[4 + len..4 + len + 4] + b[4 + len + 4..];
  }

  // Nothing but a whole frame with the right checksum is read as a record, and only the end of the
  // file as the end of the log.
  lemma {:induction false} ReadsWholeFramesOnly(crc: Checksum, b: seq<byte>)
    ensures ReadNext(crc, b) == Ok(None) <==> b == []
    ensures match ReadNext(crc, b)
            case Ok(Some((r, rest))) =>
              exists payload :: |payload| < 0x1_0000_0000 && b == Framed(payload, Le(crc(payload), 4)) + rest &&
                                DeserializeRecord(payload) == Ok(r)
            case _ => true
  {
    hide Le, FromLe, DeserializeRecord, Framed;
    if ReadNext(crc, b).Ok? && ReadNext(crc, b).value.Some? {
      var payload := FrameAtFront(crc, b);
    }
  }

  // Whole frames are read one after another, whatever comes behind them.
  lemma {:induction false} ReadThrough(crc: Checksum, rs: seq<WalRecord>, tail: seq<byte>)
    requires forall i :: 0 <= i < |rs| ==> Loggable(rs[i])
    ensures ReadLog(crc, Frames(crc, rs) + tail) == (ReadBack(rs) + ReadLog(crc, tail).0, ReadLog(crc, tail).1)
  {
    hide Frame, ReadNext, Swap;
    if rs == [] {
      assert Frames(crc, rs) + tail == tail;
      assert [] + ReadLog(crc, tail).0 == ReadLog(crc, tail).0;
    } else {
      var rest := Frames(crc, rs[1..]) + tail;
      assert Frames(crc, rs) + tail == Frame(crc, rs[0]) + rest;
      ReadFrame(crc, rs[0], rest);
      ReadThrough(crc, rs[1..], tail);
      var first, more := WithTx(rs[0], Swap(rs[0].tx)), ReadBack(rs[1..]);
      assert [first] + (more + ReadLog(crc, tail).0) == [first] + more + ReadLog(crc, tail).0;
    }
  }

  // A frame whose checksum is wrong ends the log: the records in front of it come back, none behind it.
  lemma {:induction false} DamageEndsLog(crc: Checksum, rs: seq<WalRecord>, payload: seq<byte>, sum: seq<byte>, rest: seq<byte>)
    requires forall i :: 0 <= i < |rs| ==> Loggable(rs[i])
    requires |payload| < 0x1_0000_0000 && |sum| == 4 && sum != Le(crc(payload), 4)
    ensures ReadLog(crc, Frames(crc, rs) + (Framed(payload, sum) + rest)) == (ReadBack(rs), Err(Corruption))
  {
    hide Frames, ReadNext, Framed, ReadBack;
    FrameDecides(crc, payload, sum, rest);
    ReadThrough(crc, rs, Framed(payload, sum) + rest);
    assert ReadBack(rs) + [] == ReadBack(rs);
  }
}
