// Pages on disk: a 32-byte header with a checksum, then the payload (page.rs).
module Pages {
  import opened Wrappers
  import opened Bytes

  const PAGE_SIZE := 4096
  const HEADER_SIZE := 32
  // b"SABI"
  const PAGE_MAGIC: seq<byte> := [83, 65, 66, 73]

  type u32 = n: nat | n < 0x1_0000_0000
  type u64 = n: nat | n < 0x1_0000_0000_0000_0000

  // The checksum is any function of the bytes it covers.
  type Checksum = seq<byte> -> u32

  datatype PageType = Free | Data | BTreeInternal | BTreeLeaf

  // The in-memory copy of payload_len is left out: serialize recomputes it from the payload.
  datatype Page = Page(kind: PageType, flags: nat, id: u64, lsn: u64, payload: seq<byte>)

  function TypeCode(kind: PageType): nat {
    match kind
    case Free => 0
    case Data => 1
    case BTreeInternal => 2
    case BTreeLeaf => 3
  }

  function TypeOf(code: nat): Result<PageType> {
    if code == 0 then Ok(Free)
    else if code == 1 then Ok(Data)
    else if code == 2 then Ok(BTreeInternal)
    else if code == 3 then Ok(BTreeLeaf)
    else Err(Corruption)
  }

  function NewPage(id: u64, kind: PageType): Page {
    Page(kind, 0, id, 0, [])
  }

  function Zeros(n: nat): (s: seq<byte>)
    ensures |s| == n
  {
    seq(n, _ => 0)
  }

  // The first 28 header bytes, which the checksum covers together with the payload.
  function Header(p: Page): (h: seq<byte>)
    ensures |h| == 28
  {
    PAGE_MAGIC + Le(TypeCode(p.kind), 2) + Le(p.flags, 2) + Le(p.id, 8) + Le(p.lsn, 8) + Le(|p.payload|, 4)
  }

  // The 4096 bytes of a page whose payload fits.
  function Image(crc: Checksum, p: Page): (image: seq<byte>)
    requires HEADER_SIZE + |p.payload| <= PAGE_SIZE
    ensures |image| == PAGE_SIZE
  {
    Header(p) + Le(crc(Header(p) + p.payload), 4) + p.payload + Zeros(PAGE_SIZE - HEADER_SIZE - |p.payload|)
  }

  // A payload length that points past the page makes the original panic; here it is an error.
  function DeserializePage(crc: Checksum, data: seq<byte>): Result<Page>
    requires |data| == PAGE_SIZE
  {
    if data[0..4] != PAGE_MAGIC then Err(Corruption)
    else
      var kind :- TypeOf(FromLe(data[4..6]));
      var len := FromLe(data[24..28]);
      if HEADER_SIZE + len > PAGE_SIZE then Err(Corruption)
      else if crc(data[..28] + data[32..32 + len]) != FromLe(data[28..32]) then Err(Corruption)
      else
        FromLeRoundTrip(data[8..16]);
        FromLeRoundTrip(data[16..24]);
        PowValues();
        Ok(Page(kind, FromLe(data[6..8]), FromLe(data[8..16]), FromLe(data[16..24]), data[32..32 + len]))
  }

  // A page read back from its image is the page that was written.
  lemma {:induction false} PageRoundTrip(crc: Checksum, p: Page)
    requires HEADER_SIZE + |p.payload| <= PAGE_SIZE && p.flags < 65536
    ensures DeserializePage(crc, Image(crc, p)) == Ok(p)
  {
    hide Le, Header, DeserializePage;
    PageIsItsBytes(crc, Image(crc, p), p);
  }

  lemma {:induction false} HeaderFields(p: Page)
    requires |p.payload| < PAGE_SIZE && p.flags < 65536
    ensures Header(p)[0..4] == PAGE_MAGIC
    ensures TypeOf(FromLe(Header(p)[4..6])) == Ok(p.kind)
    ensures FromLe(Header(p)[6..8]) == p.flags
    ensures FromLe(Header(p)[8..16]) == p.id
    ensures FromLe(Header(p)[16..24]) == p.lsn
    ensures FromLe(Header(p)[24..28]) == |p.payload|
  {
    hide Le, FromLe;
    var h := Header(p);
    PowValues();
    LeRoundTrip(TypeCode(p.kind), 2);
    LeRoundTrip(p.flags, 2);
    LeRoundTrip(p.id, 8);
    LeRoundTrip(p.lsn, 8);
    LeRoundTrip(|p.payload|, 4);
    assert h[4..6] == Le(TypeCode(p.kind), 2);
    assert h[6..8] == Le(p.flags, 2);
    assert h[8..16] == Le(p.id, 8);
    assert h[16..24] == Le(p.lsn, 8);
    var front := PAGE_MAGIC + Le(TypeCode(p.kind), 2) + Le(p.flags, 2) + Le(p.id, 8) + Le(p.lsn, 8);
    assert |front| == 24 && h == front + Le(|p.payload|, 4);
    assert h[24..28] == Le(|p.payload|, 4);
  }

  // A page is read exactly where its header, its checksum and its payload stand, whatever the bytes
  // behind them; everything else is refused as corrupt.
  lemma {:induction false} PageIsItsBytes(crc: Checksum, data: seq<byte>, p: Page)
    requires |data| == PAGE_SIZE
    ensures DeserializePage(crc, data) == Ok(p) <==>
            HEADER_SIZE + |p.payload| <= PAGE_SIZE && p.flags < 65536 &&
            data[..HEADER_SIZE + |p.payload|] == Header(p) + Le(crc(Header(p) + p.payload), 4) + p.payload
    ensures DeserializePage(crc, data).Err? ==> DeserializePage(crc, data).error == Corruption
  {
    hide Le, FromLe, Header, DeserializePage;
    if DeserializePage(crc, data) == Ok(p) {
      ReadPageHeader(crc, data);
      assert data[..HEADER_SIZE + |p.payload|] == data[..28] + data[28..32] + p.payload;
    }
    if HEADER_SIZE + |p.payload| <= PAGE_SIZE && p.flags < 65536 &&
       data[..HEADER_SIZE + |p.payload|] == Header(p) + Le(crc(Header(p) + p.payload), 4) + p.payload {
      BytesGivePage(crc, data, p);
    }
    assert DeserializePage(crc, data).Err? ==> DeserializePage(crc, data).error == Corruption by { PageErrors(crc, data); }
  }

  lemma {:induction false} PageErrors(crc: Checksum, data: seq<byte>)
    requires |data| == PAGE_SIZE
    ensures DeserializePage(crc, data).Err? ==> DeserializePage(crc, data).error == Corruption
  {
    hide Le, FromLe;
  }

  lemma {:induction false} ReadPageHeader(crc: Checksum, data: seq<byte>)
    requires |data| == PAGE_SIZE && DeserializePage(crc, data).Ok?
    ensures var p := DeserializePage(crc, data).value;
            && HEADER_SIZE + |p.payload| <= PAGE_SIZE && p.flags < 65536
            && data[..28] == Header(p) && data[32..32 + |p.payload|] == p.payload
            && data[28..32] == Le(crc(Header(p) + p.payload), 4)
  {
    hide Le, FromLe;
    var p := DeserializePage(crc, data).value;
    PowValues();
    FromLeRoundTrip(data[4..6]);
    FromLeRoundTrip(data[6..8]);
    FromLeRoundTrip(data[8..16]);
    FromLeRoundTrip(data[16..24]);
    FromLeRoundTrip(data[24..28]);
    FromLeRoundTrip(data[28..32]);
    assert TypeCode(p.kind) == FromLe(data[4..6]);
    assert data[..28] == data[0..4] + data[4..6] + data[6..8] + data[8..16] + data[16..24] + data[24..28];
  }

  lemma {:induction false} BytesGivePage(crc: Checksum, data: seq<byte>, p: Page)
    requires |data| == PAGE_SIZE && HEADER_SIZE + |p.payload| <= PAGE_SIZE && p.flags < 65536
    requires data[..HEADER_SIZE + |p.payload|] == Header(p) + Le(crc(Header(p) + p.payload), 4) + p.payload
    ensures DeserializePage(crc, data) == Ok(p)
  {
    hide Le, FromLe, Header;
    var sum, front := crc(Header(p) + p.payload), data[..HEADER_SIZE + |p.payload|];
    HeaderFields(p);
    PowValues();
    LeRoundTrip(sum, 4);
    assert data[..28] == front[..28] == Header(p);
    assert data[28..32] == front[28..32] == Le(sum, 4);
    assert data[32..32 + |p.payload|] == front[32..] == p.payload;
    assert data[0..4] == data[..28][0..4] && data[4..6] == data[..28][4..6] && data[6..8] == data[..28][6..8];
    assert data[8..16] == data[..28][8..16] && data[16..24] == data[..28][16..24];
    assert data[24..28] == data[..28][24..28];
  }

  // So a page that was damaged anywhere but in its checksum is refused unless the checksums of what
  // was written and of what is read happen to be the same.
  lemma {:induction false} DamagedPageRefused(crc: Checksum, p: Page, data: seq<byte>)
    requires HEADER_SIZE + |p.payload| <= PAGE_SIZE && p.flags < 65536
    requires |data| == PAGE_SIZE && data[28..32] == Image(crc, p)[28..32]
    ensures match DeserializePage(crc, data)
            case Ok(q) => crc(Header(q) + q.payload) == crc(Header(p) + p.payload)
            case Err(e) => e == Corruption
  {
    hide Le, FromLe, Header, DeserializePage;
    var r := DeserializePage(crc, data);
    if r.Ok? {
      var q := r.value;
      ReadPageHeader(crc, data);
      assert Image(crc, p)[28..32] == Le(crc(Header(p) + p.payload), 4);
      PowValues();
      LeRoundTrip(crc(Header(p) + p.payload), 4);
      LeRoundTrip(crc(Header(q) + q.payload), 4);
    } else {
      PageErrors(crc, data);
    }
  }

  // The bytes from `at` on replaced by `src`.
  function Patched(buf: seq<byte>, at: nat, src: seq<byte>): (r: seq<byte>)
    requires at + |src| <= |buf|
    ensures |r| == |buf|
  {
    buf[..at] + src + buf[at + |src|..]
  }

  // copy_from_slice
  method CopyInto(buf: array<byte>, at: nat, src: seq<byte>)
    requires at + |src| <= buf.Length
    modifies buf
    ensures buf[..] == Patched(old(buf[..]), at, src)
  {
    for i := 0 to |src|
      invariant buf[..] == old(buf[..at]) + src[..i] + old(buf[at + i..])
    {
      buf[at + i] := src[i];
    }
    assert src[..|src|] == src;
  }

  // The next field of a buffer that is zero from `at` on.
  method PutField(buf: array<byte>, at: nat, src: seq<byte>, ghost done: seq<byte>)
    requires |done| == at && at + |src| <= buf.Length && buf[..] == done + Zeros(buf.Length - at)
    modifies buf
    ensures buf[..] == done + src + Zeros(buf.Length - at - |src|)
  {
    CopyInto(buf, at, src);
  }

  lemma {:induction false} AllZero(buf: seq<byte>)
    requires forall i :: 0 <= i < |buf| ==> buf[i] == 0
    ensures buf == [] + Zeros(|buf|)
  {
  }

  lemma {:induction false} ZerosSplit(m: nat, n: nat)
    ensures Zeros(m + n) == Zeros(m) + Zeros(n)
  {
  }

  // The parts of a page before its checksum is put in.
  lemma {:induction false} SumIsOfPage(header: seq<byte>, payload: seq<byte>, rest: seq<byte>, buf: seq<byte>)
    requires |header| == 28 && buf == header + Zeros(4) + payload + rest
    ensures buf[..28] == header && buf[32..32 + |payload|] == payload
    ensures forall sum: seq<byte> :: |sum| == 4 ==> Patched(buf, 28, sum) == header + sum + payload + rest
  {
  }

  // serialize fills a zeroed buffer field by field; the checksum is taken from the buffer itself.
  method Serialize(crc: Checksum, p: Page) returns (ok: bool, buf: array<byte>)
    ensures fresh(buf) && buf.Length == PAGE_SIZE
    ensures ok <==> HEADER_SIZE + |p.payload| <= PAGE_SIZE
    ensures ok ==> buf[..] == Image(crc, p)
  {
    hide Le, Patched, Zeros;
    buf := new byte[PAGE_SIZE](_ => 0);
    assert buf[..] == [] + Zeros(PAGE_SIZE) by { AllZero(buf[..]); }
    ghost var kind, flags, id, lsn := Le(TypeCode(p.kind), 2), Le(p.flags, 2), Le(p.id, 8), Le(p.lsn, 8);
    PutField(buf, 0, PAGE_MAGIC, []);
    PutField(buf, 4, Le(TypeCode(p.kind), 2), PAGE_MAGIC);
    PutField(buf, 6, Le(p.flags, 2), PAGE_MAGIC + kind);
    PutField(buf, 8, Le(p.id, 8), PAGE_MAGIC + kind + flags);
    PutField(buf, 16, Le(p.lsn, 8), PAGE_MAGIC + kind + flags + id);
    PutField(buf, 24, Le(|p.payload|, 4), PAGE_MAGIC + kind + flags + id + lsn);
    if HEADER_SIZE + |p.payload| > PAGE_SIZE {
      return false, buf;
    }
    ghost var header := Header(p);
    ZerosSplit(4, PAGE_SIZE - 32);
    assert buf[..] == header + Zeros(4) + Zeros(PAGE_SIZE - 32);
    PutField(buf, HEADER_SIZE, p.payload, header + Zeros(4));
    SumIsOfPage(header, p.payload, Zeros(PAGE_SIZE - 32 - |p.payload|), buf[..]);
    CopyInto(buf, 28, Le(crc(buf[..28] + buf[32..32 + |p.payload|]), 4));
    ok := true;
  }
}
