// Bytes of small examples of everything that is stored, written out (page.rs:52-97, btree.rs:389-466,
// engine.rs:206-230 and 309-315, wal.rs:155-220 and 297-353, types.rs:73-91, executor/mod.rs:340-437).
// The round trips hold of any layout that encoder and decoder agree on; these fix the layout.
module Layouts {
  import opened Wrappers
  import opened Bytes
  import opened TxIds
  import opened Nodes
  import opened CompositeKeys
  import SqlValues
  import RowCodec
  import RowKeys
  import Mvcc
  import VersionCodec
  import NodeCodec
  import Pages
  import PageFiles
  import EngineData
  import WalRecords
  import WalFraming

  // Little-endian fields of the widths in use.
  lemma {:induction false} Fields(n: byte, m: byte)
    ensures Le(n + 256 * m, 2) == [n, m]
    ensures Le(n + 256 * m, 4) == [n, m, 0, 0]
    ensures Le(n + 256 * m, 8) == [n, m, 0, 0, 0, 0, 0, 0]
    ensures Le(n, 2) == [n, 0]
    ensures Le(n, 4) == [n, 0, 0, 0]
    ensures Le(n, 8) == [n, 0, 0, 0, 0, 0, 0, 0]
  {
    Nothing(1);
    Nothing(2);
    Nothing(6);
    assert Le(m, 1) == [m] + Le(0, 0) && Le(m, 3) == [m] + Le(0, 2) && Le(m, 7) == [m] + Le(0, 6);
    assert Le(n + 256 * m, 2) == [n] + Le(m, 1);
    assert Le(n + 256 * m, 4) == [n] + Le(m, 3);
    assert Le(n + 256 * m, 8) == [n] + Le(m, 7);
    assert Le(0, 3) == [0] + Le(0, 2) && Le(0, 7) == [0] + Le(0, 6);
    assert Le(n, 2) == [n] + Le(0, 1) && Le(n, 4) == [n] + Le(0, 3) && Le(n, 8) == [n] + Le(0, 7);
  }

  lemma {:induction false} Nothing(width: nat)
    ensures Le(0, width) == seq(width, _ => 0)
  {
    if width > 0 {
      Nothing(width - 1);
    }
  }

  // Ids in the log: the first three fields reversed.
  lemma {:induction false} IdLayout()
    ensures WalRecords.Swap([0, 1, 2, 3, 4, 5, 6, 7, 8, 9, 10, 11, 12, 13, 14, 15]) ==
            [3, 2, 1, 0, 5, 4, 7, 6, 8, 9, 10, 11, 12, 13, 14, 15]
  {
  }

  // Log records: the type, the id and, for writes, the table and sized strings.
  lemma {:induction false} RecordLayout(id: TxId)
    ensures WalRecords.SerializeRecord(WalRecords.Begin(id)) == [1] + WalRecords.Swap(id)
    ensures WalRecords.SerializeRecord(WalRecords.Put(id, 258, [7], [8, 9])) ==
            [2] + WalRecords.Swap(id) + ([2, 1, 0, 0] + ([1, 0, 0, 0] + [7]) + ([2, 0, 0, 0] + [8, 9]))
    ensures WalRecords.SerializeRecord(WalRecords.Delete(id, 258, [7])) ==
            [3] + WalRecords.Swap(id) + ([2, 1, 0, 0] + ([1, 0, 0, 0] + [7]))
    ensures WalRecords.SerializeRecord(WalRecords.Commit(id)) == [4] + WalRecords.Swap(id)
    ensures WalRecords.SerializeRecord(WalRecords.Abort(id)) == [5] + WalRecords.Swap(id)
  {
    hide Le, WalRecords.Swap;
    Fields(2, 1);
    Fields(1, 0);
    Fields(2, 0);
  }

  // The log file: SABIWAL, version 1 and two reserved bytes; a frame: size, record, checksum.
  lemma {:induction false} LogLayout(crc: Pages.Checksum, id: TxId)
    ensures WalFraming.FILE_HEADER == [0x53, 0x41, 0x42, 0x49, 0x57, 0x41, 0x4C, 1, 0, 0, 0]
    ensures var record := [4] + WalRecords.Swap(id);
            WalFraming.Frame(crc, WalRecords.Commit(id)) == [17, 0, 0, 0] + record + Le(crc(record), 4)
  {
    hide Le, WalRecords.Swap;
    Fields(1, 0);
    Fields(0, 0);
    Fields(17, 0);
    RecordLayout(id);
  }

  // Pages: the magic, type, flags, number, log position and payload length, the checksum of all
  // that and the payload, and the payload, filled up with zeros.
  lemma {:induction false} PageLayout(crc: Pages.Checksum)
    ensures var header: seq<byte> := [0x53, 0x41, 0x42, 0x49] + [3, 0] + [4, 0] + [2, 1, 0, 0, 0, 0, 0, 0] + [5, 0, 0, 0, 0, 0, 0, 0] + [1, 0, 0, 0];
            Pages.Image(crc, Pages.Page(Pages.BTreeLeaf, 4, 258, 5, [7])) ==
            header + Le(crc(header + [7]), 4) + [7] + seq(4063, _ => 0)
    ensures Pages.TypeCode(Pages.Free) == 0 && Pages.TypeCode(Pages.Data) == 1 && Pages.TypeCode(Pages.BTreeInternal) == 2
  {
    hide Le;
    Fields(3, 0);
    Fields(4, 0);
    Fields(2, 1);
    Fields(5, 0);
    Fields(1, 0);
    assert Pages.Zeros(4063) == seq(4063, _ => 0);
  }

  // What the three kinds of pages in use are written as.
  lemma {:induction false} PageKinds(id: PageId, chain: Mvcc.VersionChain, leaf: Node, internal: Node)
    requires leaf.Leaf? && internal.Internal? && internal.children != []
    ensures EngineData.DataPage(id, chain) == Pages.Page(Pages.Data, 0, id, 0, VersionCodec.EncodeChain(chain))
    ensures PageFiles.NodePage(id, leaf) == Pages.Page(Pages.BTreeLeaf, 0, id, 0, NodeCodec.EncodeNode(leaf))
    ensures PageFiles.NodePage(id, internal) == Pages.Page(Pages.BTreeInternal, 0, id, 0, NodeCodec.EncodeNode(internal))
  {
  }

  // Nodes: the count, the parent and, in a leaf, the next leaf, each behind a marker; the first
  // child of an internal node; then the keys, each with the page behind it.
  lemma {:induction false} NodeLayout()
    ensures NodeCodec.EncodeNode(Leaf(1, None, Some(258), [[7, 8]], [3])) ==
            [1, 0] + [0] + [1, 2, 1, 0, 0, 0, 0, 0, 0] + [2, 0, 7, 8] + [3, 0, 0, 0, 0, 0, 0, 0]
    ensures NodeCodec.EncodeNode(Internal(1, Some(258), [[7, 8]], [3, 4])) ==
            [1, 0] + [1, 2, 1, 0, 0, 0, 0, 0, 0] + [3, 0, 0, 0, 0, 0, 0, 0] + [2, 0, 7, 8] + [4, 0, 0, 0, 0, 0, 0, 0]
  {
    hide Le;
    Fields(1, 0);
    Fields(2, 1);
    Fields(2, 0);
    Fields(3, 0);
    Fields(4, 0);
  }

  // Version chains: the count, then of each version the creator, the tombstone and the value,
  // newest first; a payload without room for a count is an empty chain.
  lemma {:induction false} ChainLayout(id: TxId, other: TxId)
    ensures VersionCodec.EncodeChain([Mvcc.RowVersion(id, None, [7]), Mvcc.RowVersion(id, Some(other), [])]) ==
            [2, 0, 0, 0] + ((id + [0] + [1, 0, 0, 0] + [7]) + (id + ([1] + other) + [0, 0, 0, 0]))
    ensures VersionCodec.DecodeChain([2, 0, 0]) == Ok([])
  {
    hide Le;
    Fields(2, 0);
    Fields(1, 0);
    Fields(0, 0);
    var v, w := Mvcc.RowVersion(id, None, [7]), Mvcc.RowVersion(id, Some(other), []);
    assert [v, w][1..] == [w] && [w][1..] == [];
    assert VersionCodec.EncodeAll([w]) == VersionCodec.EncodeVersion(w);
    assert VersionCodec.EncodeAll([v, w]) == VersionCodec.EncodeVersion(v) + VersionCodec.EncodeVersion(w);
    assert VersionCodec.EncodeVersion(v) == id + [0] + [1, 0, 0, 0] + [7];
    assert VersionCodec.EncodeVersion(w) == id + ([1] + other) + [0, 0, 0, 0];
  }

  // Values: a tag and what it takes.
  lemma {:induction false} ValueLayout()
    ensures SqlValues.ToBytes(SqlValues.Null) == [0]
    ensures SqlValues.ToBytes(SqlValues.Integer(258)) == [1, 2, 1, 0, 0, 0, 0, 0, 0]
    ensures SqlValues.ToBytes(SqlValues.Integer(-2)) == [1, 254, 255, 255, 255, 255, 255, 255, 255]
    ensures SqlValues.ToBytes(SqlValues.Text([7])) == [2, 1, 0, 0, 0, 7]
    ensures SqlValues.ToBytes(SqlValues.Boolean(true)) == [3, 1] && SqlValues.ToBytes(SqlValues.Boolean(false)) == [3, 0]
  {
    hide Le;
    Fields(2, 1);
    Fields(1, 0);
    assert Le(SqlValues.Unsigned(-2), 8) == [254, 255, 255, 255, 255, 255, 255, 255] by { MinusTwo(); }
  }

  lemma {:induction false} MinusTwo()
    ensures Le(SqlValues.Unsigned(-2), 8) == [254, 255, 255, 255, 255, 255, 255, 255]
  {
  }

  // Rows: value behind value; row keys: the same with the size of each value in front; index keys:
  // the table, a zero byte and the row key.
  lemma {:induction false} RowLayout(v: SqlValues.Value, w: SqlValues.Value)
    ensures RowCodec.EncodeRow([v, w]) == SqlValues.ToBytes(v) + SqlValues.ToBytes(w)
    ensures RowKeys.EncodeKey([SqlValues.Text([7]), SqlValues.Null]) == [6, 0, 0, 0] + [2, 1, 0, 0, 0, 7] + ([1, 0, 0, 0] + [0])
    ensures CompositeKey([116], [6, 0]) == [116, 0, 6, 0]
  {
    hide Le, SqlValues.ToBytes;
    Fields(6, 0);
    Fields(1, 0);
    ValueLayout();
    var t, n := SqlValues.Text([7]), SqlValues.Null;
    assert [v, w][1..] == [w] && [w][1..] == [] && [t, n][1..] == [n] && [n][1..] == [];
    assert RowCodec.EncodeRow([w]) == SqlValues.ToBytes(w);
    assert RowKeys.EncodePart(t) == [6, 0, 0, 0] + [2, 1, 0, 0, 0, 7];
    assert RowKeys.EncodePart(n) == [1, 0, 0, 0] + [0];
  }
}
