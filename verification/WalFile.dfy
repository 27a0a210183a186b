/** The bytes of the write-ahead log: how records are appended, and what reading any prefix of the file finds. */
module WalFile {
  import opened ByteCodec

  // Row data whose size fits the size field.
  type Data = b: seq<byte> | |b| < 0x1_0000_0000

  const WAL_MAGIC: nat := 0x4F4D4152
  const HEADER_BYTES: nat := 60
  const NAME_BYTES: nat := 32

  // A file may hold a byte that is no type; reading keeps it.
  datatype WalType = Begin | Insert | Update | Delete | Commit | Rollback | Unknown(code: byte)

  datatype WalRecord = WalRecord(lsn: uint32, txnId: uint32, kind: WalType, pageId: int32, slotIndex: int32,
                                 table: Bytes, data: Data)

  function KindCode(kind: WalType): byte {
    match kind
    case Begin => 1
    case Insert => 2
    case Update => 3
    case Delete => 4
    case Commit => 5
    case Rollback => 6
    case Unknown(code) => code
  }

  /** The characters of a C string: those before the first NUL. */
  function CString(s: Bytes): (r: Bytes)
    ensures |r| <= |s| && 0 !in r
    ensures 0 !in s ==> r == s
  {
    if s == [] || s[0] == 0 then [] else [s[0]] + CString(s[1..])
  }

  /** What the log keeps of a name: its characters up to a NUL, and no more than 31. */
  function Kept(table: Bytes): (r: Bytes)
    ensures |r| < NAME_BYTES && 0 !in r
    ensures |table| < NAME_BYTES && 0 !in table ==> r == table
  {
    var s := CString(table);
    if |s| < NAME_BYTES then s else s[..NAME_BYTES - 1]
  }

  /** The name, and zeros to the end of its field. */
  function NameField(table: Bytes): (r: Bytes)
    ensures |r| == NAME_BYTES
  {
    Kept(table) + Zeros(NAME_BYTES - |Kept(table)|)
  }

  lemma {:induction false} CStringPadded(s: Bytes, n: nat)
    requires 0 !in s && n > 0
    ensures CString(s + Zeros(n)) == s
  {
    if s != [] {
      CStringPadded(s[1..], n);
      assert (s + Zeros(n))[1..] == s[1..] + Zeros(n);
    }
  }

  /** What the log can represent: names of at most 31 characters without a NUL. */
  predicate Storable(r: WalRecord) {
    && 0 !in r.table && |r.table| < NAME_BYTES
    && (r.kind.Unknown? ==> r.kind.code == 0 || r.kind.code > 6)
  }

  function Header(r: WalRecord): (h: Bytes)
    ensures |h| == HEADER_BYTES
  {
    Little(WAL_MAGIC, 4) + Little(r.lsn, 4) + Little(r.txnId, 4) + [KindCode(r.kind), 0, 0, 0]
    + Little(Unsigned(r.pageId), 4) + Little(Unsigned(r.slotIndex), 4) + Little(|r.data|, 4) + NameField(r.table)
  }

  function Encode(r: WalRecord): (b: Bytes)
    ensures |b| == HEADER_BYTES + |r.data|
  {
    Header(r) + r.data
  }

  function EncodeAll(records: seq<WalRecord>): Bytes
  {
    if records == [] then [] else Encode(records[0]) + EncodeAll(records[1..])
  }

  function KindOf(code: byte): WalType {
    if code == 1 then Begin else if code == 2 then Insert else if code == 3 then Update
    else if code == 4 then Delete else if code == 5 then Commit else if code == 6 then Rollback
    else Unknown(code)
  }

  /** The record a header and its data stand for. */
  function Decode(h: Bytes, data: Data): WalRecord
    requires |h| == HEADER_BYTES
  {
    WalRecord(FromWord(h[4..8]), FromWord(h[8..12]), KindOf(h[12]),
              Signed(FromWord(h[16..20])), Signed(FromWord(h[20..24])), CString(h[28..60]), data)
  }

  /** Reading stops at the first header that is short or has another magic number, and at the first short data. */
  function ReadFrom(file: Bytes): seq<WalRecord>
    decreases |file|
  {
    if |file| < HEADER_BYTES || FromWord(file[..4]) != WAL_MAGIC then []
    else
      var h := file[..HEADER_BYTES];
      var size := FromWord(h[24..28]);
      if |file| < HEADER_BYTES + size then []
      else [Decode(h, file[HEADER_BYTES..HEADER_BYTES + size])] + ReadFrom(file[HEADER_BYTES + size..])
  }

  lemma HeaderParts(r: WalRecord)
    ensures
      var h := Header(r);
      && h[..4] == Little(WAL_MAGIC, 4) && h[4..8] == Little(r.lsn, 4) && h[8..12] == Little(r.txnId, 4)
      && h[12] == KindCode(r.kind) && h[13..16] == [0, 0, 0] && h[16..20] == Little(Unsigned(r.pageId), 4) && h[20..24] == Little(Unsigned(r.slotIndex), 4)
      && h[24..28] == Little(|r.data|, 4) && h[28..60] == NameField(r.table)
  {
  }

  lemma DecodeEncode(r: WalRecord)
    requires Storable(r)
    ensures Decode(Header(r), r.data) == r
    ensures FromWord(Header(r)[..4]) == WAL_MAGIC && FromWord(Header(r)[24..28]) == |r.data|
  {
    hide Header, Little, FromWord, CString, Kept;
    HeaderParts(r);
    WordRoundTrip(WAL_MAGIC);
    WordRoundTrip(r.lsn);
    WordRoundTrip(r.txnId);
    WordRoundTrip(Unsigned(r.pageId));
    WordRoundTrip(Unsigned(r.slotIndex));
    WordRoundTrip(|r.data|);
    CStringPadded(r.table, NAME_BYTES - |r.table|);
  }

  /** The type byte of every kind of record, and that it is read as that kind. */
  lemma TypeBytes(r: WalRecord)
    ensures r.kind == Begin ==> Encode(r)[12] == 1
    ensures r.kind == Insert ==> Encode(r)[12] == 2
    ensures r.kind == Update ==> Encode(r)[12] == 3
    ensures r.kind == Delete ==> Encode(r)[12] == 4
    ensures r.kind == Commit ==> Encode(r)[12] == 5
    ensures r.kind == Rollback ==> Encode(r)[12] == 6
    ensures Storable(r) ==> Decode(Header(r), r.data).kind == r.kind
  {
    HeaderParts(r);
    hide Header;
    assert Encode(r)[12] == Header(r)[12];
  }

  /** How many of the records lie wholly within the first `k` bytes. */
  function Whole(records: seq<WalRecord>, k: nat): (n: nat)
    ensures n <= |records|
  {
    if records == [] || k < |Encode(records[0])| then 0
    else 1 + Whole(records[1..], k - |Encode(records[0])|)
  }

  lemma {:induction false} WholeIsMaximal(records: seq<WalRecord>, k: nat)
    ensures
      var n := Whole(records, k);
      && |EncodeAll(records[..n])| <= k
      && (n < |records| ==> k < |EncodeAll(records[..n + 1])|)
  {
    hide Encode;
    if records != [] && k >= |Encode(records[0])| {
      var n := Whole(records[1..], k - |Encode(records[0])|);
      WholeIsMaximal(records[1..], k - |Encode(records[0])|);
      assert records[..n + 1] == [records[0]] + records[1..][..n];
      if n + 1 < |records| {
        assert records[..n + 2] == [records[0]] + records[1..][..n + 1];
      }
    } else if records != [] {
      assert records[..1][1..] == [];
    }
  }

  lemma ReadNothing()
    ensures ReadFrom([]) == []
  {
  }

  /** Reading any prefix of the file yields exactly the records that lie wholly within it. */
  lemma {:induction false} ReadPrefix(records: seq<WalRecord>, k: nat)
    requires forall r | r in records :: Storable(r)
    requires k <= |EncodeAll(records)|
    ensures ReadFrom(EncodeAll(records)[..k]) == records[..Whole(records, k)]
    decreases |records|
  {
    hide Encode, ReadFrom, Storable;
    if records == [] {
      ReadNothing();
    } else {
      var r, rest := records[0], records[1..];
      var b, file := Encode(r), EncodeAll(records)[..k];
      if k < |b| {
        ReadShort(r, EncodeAll(rest), k);
      } else {
        ReadOne(r, EncodeAll(rest)[..k - |b|]);
        assert file == b + EncodeAll(rest)[..k - |b|];
        ReadPrefix(rest, k - |b|);
        assert records[..Whole(records, k)] == [r] + rest[..Whole(rest, k - |b|)];
      }
    }
  }

  /** A record cut short is not read. */
  lemma ReadShort(r: WalRecord, more: Bytes, k: nat)
    requires Storable(r) && k < |Encode(r)|
    ensures ReadFrom((Encode(r) + more)[..k]) == []
  {
    hide Header, Decode, FromWord;
    DecodeEncode(r);
    var file := (Encode(r) + more)[..k];
    if k >= HEADER_BYTES {
      assert file[..HEADER_BYTES] == Header(r);
    }
  }

  lemma ReadOne(r: WalRecord, more: Bytes)
    requires Storable(r)
    ensures ReadFrom(Encode(r) + more) == [r] + ReadFrom(more)
  {
    hide Header, Decode, FromWord;
    DecodeEncode(r);
    var file := Encode(r) + more;
    assert file[..HEADER_BYTES] == Header(r) && file[..4] == Header(r)[..4];
    assert file[HEADER_BYTES..HEADER_BYTES + |r.data|] == r.data;
    assert file[HEADER_BYTES + |r.data|..] == more;
  }

  lemma ReadWhole(records: seq<WalRecord>)
    requires forall r | r in records :: Storable(r)
    ensures ReadFrom(EncodeAll(records)) == records
  {
    var file := EncodeAll(records);
    assert file[..|file|] == file;
    ReadPrefix(records, |file|);
    WholeOfAll(records);
  }

  lemma {:induction false} WholeOfAll(records: seq<WalRecord>)
    ensures Whole(records, |EncodeAll(records)|) == |records|
  {
    if records != [] {
      WholeOfAll(records[1..]);
    }
  }

  lemma {:induction false} EncodeSnoc(records: seq<WalRecord>, r: WalRecord)
    ensures EncodeAll(records + [r]) == EncodeAll(records) + Encode(r)
  {
    hide Encode;
    if records == [] {
      assert [r][1..] == [];
      assert EncodeAll([r]) == Encode(r) + EncodeAll([]);
    } else {
      EncodeSnoc(records[1..], r);
      assert (records + [r])[1..] == records[1..] + [r];
      assert Encode(records[0]) + (EncodeAll(records[1..]) + Encode(r)) == EncodeAll(records) + Encode(r);
    }
  }

  /** The number of the record after `n` others: a counter of 32 bits that starts at 1. */
  function Lsn(n: nat): uint32 {
    (n + 1) % 0x1_0000_0000
  }

  /** Numbers ascend from the first record to the last exactly while the counter has not wrapped around. */
  lemma LsnsAscend(n: nat)
    ensures (forall i, j | 0 <= i < j < n :: Lsn(i) < Lsn(j)) <==> n < 0x1_0000_0000
  {
    if n >= 0x1_0000_0000 {
      assert Lsn(0xFFFF_FFFF) == 0 && Lsn(0) == 1;
    }
  }

  /** One turn of the reading loop. */
  lemma ReadStep(done: seq<WalRecord>, rest: Bytes)
    ensures
      if |rest| < HEADER_BYTES || FromWord(rest[..4]) != WAL_MAGIC then ReadFrom(rest) == []
      else
        var h := rest[..HEADER_BYTES];
        var size := FromWord(h[24..28]);
        if |rest| < HEADER_BYTES + size then ReadFrom(rest) == []
        else
          var r := Decode(h, rest[HEADER_BYTES..HEADER_BYTES + size]);
          done + ReadFrom(rest) == (done + [r]) + ReadFrom(rest[HEADER_BYTES + size..])
  {
    hide Decode, FromWord;
  }

  // --- A torn tail ---------------------------------------------------------------------------------------

  /** The bytes of the magic number, in the order of the file. */
  lemma MagicBytes(b: Bytes)
    requires |b| == 4
    ensures FromWord(b) == WAL_MAGIC <==> b == [0x52, 0x41, 0x4D, 0x4F]
  {
    assert b[1..][1..] == b[2..] && b[2..][1..] == b[3..] && b[3..][1..] == [];
    assert FromLittle(b[3..]) == b[3] && FromLittle(b[2..]) == b[2] as int + 256 * b[3] as int;
    assert FromLittle(b[1..]) == b[1] as int + 256 * FromLittle(b[2..]);
    assert FromWord(b) == b[0] as int + 256 * FromLittle(b[1..]);
  }

  lemma {:induction false} ReadPast(records: seq<WalRecord>, more: Bytes)
    requires forall r | r in records :: Storable(r)
    ensures ReadFrom(EncodeAll(records) + more) == records + ReadFrom(more)
  {
    hide Encode, ReadFrom, Storable;
    if records == [] {
      assert [] + more == more;
    } else {
      var r, rest := records[0], records[1..];
      ReadOne(r, EncodeAll(rest) + more);
      ReadPast(rest, more);
      assert EncodeAll(records) + more == Encode(r) + (EncodeAll(rest) + more);
    }
  }

  /** The header begins with the magic number. */
  lemma HeaderMagic(r: WalRecord)
    ensures Encode(r)[..4] == [0x52, 0x41, 0x4D, 0x4F] && FromWord(Encode(r)[24..28]) == |r.data|
  {
    hide Header, Little, FromWord;
    HeaderParts(r);
    WordRoundTrip(WAL_MAGIC);
    WordRoundTrip(|r.data|);
    MagicBytes(Header(r)[..4]);
    assert Encode(r)[..4] == Header(r)[..4] && Encode(r)[24..28] == Header(r)[24..28];
  }

  /** A record torn inside its magic number: what is appended behind it does not complete the number. */
  lemma TornMagic(r: WalRecord, t: nat, next: WalRecord, more: Bytes)
    requires 0 < t < 4
    ensures ReadFrom(Encode(r)[..t] + (Encode(next) + more)) == []
  {
    hide Encode, FromWord;
    HeaderMagic(r);
    HeaderMagic(next);
    var file := Encode(r)[..t] + (Encode(next) + more);
    assert file[t] == Encode(next)[..4][0];
    MagicBytes(file[..4]);
    assert file[..4][t] == file[t];
  }

  /** The size that reading finds for a torn record; it may be made of bytes appended behind it. */
  function TornSize(r: WalRecord, t: nat, more: Bytes): uint32
    requires t < |Encode(r)| && HEADER_BYTES <= t + |more|
  {
    FromWord((Encode(r)[..t] + more)[24..28])
  }

  /** Torn behind its size, a record has that size; torn before it, the size is part of what follows. */
  lemma TornSizeIs(r: WalRecord, t: nat, more: Bytes)
    requires t < |Encode(r)| && HEADER_BYTES <= t + |more|
    ensures t >= 28 ==> TornSize(r, t, more) == |r.data|
    ensures t <= 24 ==> TornSize(r, t, more) == FromWord(more[24 - t..28 - t])
  {
    hide Header, FromWord;
    HeaderMagic(r);
    var file := Encode(r)[..t] + more;
    if t >= 28 {
      assert file[24..28] == Encode(r)[24..28];
    }
    if t <= 24 {
      assert file[24..28] == more[24 - t..28 - t];
    }
  }

  /** Reading makes one record of a torn one and what is appended behind it. */
  predicate Completes(r: WalRecord, t: nat, more: Bytes)
    requires t < |Encode(r)|
  {
    HEADER_BYTES <= t + |more| && HEADER_BYTES + TornSize(r, t, more) <= t + |more|
  }

  /** That record. */
  function Made(r: WalRecord, t: nat, more: Bytes): WalRecord
    requires t < |Encode(r)| && Completes(r, t, more)
  {
    var file := Encode(r)[..t] + more;
    Decode(file[..HEADER_BYTES], file[HEADER_BYTES..HEADER_BYTES + TornSize(r, t, more)])
  }

  /** A record torn behind its magic number takes the bytes it lacks from whatever is appended. */
  lemma TornRecord(r: WalRecord, t: nat, more: Bytes)
    requires 4 <= t < |Encode(r)|
    ensures
      ReadFrom(Encode(r)[..t] + more) ==
        if !Completes(r, t, more) then []
        else [Made(r, t, more)] + ReadFrom((Encode(r)[..t] + more)[HEADER_BYTES + TornSize(r, t, more)..])
  {
    hide Header, Decode, FromWord, Encode;
    HeaderMagic(r);
    MagicBytes(Encode(r)[..4]);
    var file := Encode(r)[..t] + more;
    assert file[..4] == Encode(r)[..4];
    if |file| >= HEADER_BYTES {
      assert file[..HEADER_BYTES][24..28] == file[24..28];
    }
  }

  /**
   A file that ends inside a record is opened again, and records are appended behind the torn one. Reading stops
   in front of it if and only if it is torn inside its magic number or they do not make up for what it lacks.
   */
  lemma TornTail(records: seq<WalRecord>, r: WalRecord, t: nat, later: seq<WalRecord>)
    requires (forall x | x in records :: Storable(x)) && later != [] && 0 < t < |Encode(r)|
    ensures ReadFrom(EncodeAll(records) + (Encode(r)[..t] + EncodeAll(later))) == records <==>
              t < 4 || !Completes(r, t, EncodeAll(later))
  {
    hide Encode, ReadFrom, Storable, EncodeAll, Completes, TornSize, Made;
    var torn, more := Encode(r)[..t], EncodeAll(later);
    ReadPast(records, torn + more);
    if t < 4 {
      FirstOf(later);
      TornMagic(r, t, later[0], EncodeAll(later[1..]));
    } else {
      TornRecord(r, t, more);
    }
  }

  /**
   Once the appended records `lost` have made up for just the bytes that the torn record lacks, it is read in
   their place, and all records behind them are read. It has its own number and transaction if those were
   written before it was torn.
   */
  lemma TornTailRealigned(records: seq<WalRecord>, r: WalRecord, t: nat, lost: seq<WalRecord>, later: seq<WalRecord>)
    requires (forall x | x in records :: Storable(x)) && (forall x | x in later :: Storable(x))
    requires 4 <= t < |Encode(r)| && Completes(r, t, EncodeAll(lost))
    requires t + |EncodeAll(lost)| == HEADER_BYTES + TornSize(r, t, EncodeAll(lost))
    ensures var made := Made(r, t, EncodeAll(lost));
            && ReadFrom(EncodeAll(records) + (Encode(r)[..t] + (EncodeAll(lost) + EncodeAll(later)))) == records + ([made] + later)
            && (t >= 8 ==> made.lsn == r.lsn) && (t >= 12 ==> made.txnId == r.txnId)
  {
    hide Encode, ReadFrom, Storable, EncodeAll, Decode, FromWord;
    var torn, a, b := Encode(r)[..t], EncodeAll(lost), EncodeAll(later);
    ReadPast(records, torn + (a + b));
    TornRecord(r, t, a + b);
    MadeSame(r, t, a, b);
    assert (torn + (a + b))[t + |a|..] == b;
    ReadWhole(later);
    TornIds(r, t, a);
  }

  /** Only the bytes it lacks matter. */
  lemma MadeSame(r: WalRecord, t: nat, a: Bytes, b: Bytes)
    requires t < |Encode(r)| && Completes(r, t, a)
    ensures TornSize(r, t, a + b) == TornSize(r, t, a) && Made(r, t, a + b) == Made(r, t, a)
  {
    hide Decode, FromWord, Encode;
    var n := t + |a|;
    var long, short := Encode(r)[..t] + (a + b), Encode(r)[..t] + a;
    assert long[..n] == short;
    assert long[24..28] == short[24..28] && long[..HEADER_BYTES] == short[..HEADER_BYTES];
    var m := HEADER_BYTES + TornSize(r, t, a);
    assert long[HEADER_BYTES..m] == short[HEADER_BYTES..m];
  }

  lemma FirstOf(records: seq<WalRecord>)
    requires records != []
    ensures EncodeAll(records) == Encode(records[0]) + EncodeAll(records[1..])
  {
  }

  lemma SameSlice(a: Bytes, b: Bytes, n: nat, i: nat, j: nat)
    requires i <= j <= n <= |a| && n <= |b| && a[..n] == b[..n]
    ensures a[i..j] == b[i..j]
  {
    assert a[i..j] == a[..n][i..j] && b[i..j] == b[..n][i..j];
  }

  /** It has the number and the transaction of the torn record, as far as they were written. */
  lemma TornIds(r: WalRecord, t: nat, more: Bytes)
    requires 4 <= t < |Encode(r)| && Completes(r, t, more)
    ensures var made := Made(r, t, more); (t >= 8 ==> made.lsn == r.lsn) && (t >= 12 ==> made.txnId == r.txnId)
  {
    HeaderIds(r);
    hide Header, FromWord, CString, Little, KindOf;
    var h := (Encode(r)[..t] + more)[..HEADER_BYTES];
    var n := if t < HEADER_BYTES then t else HEADER_BYTES;
    assert h[..n] == Header(r)[..n];
    if t >= 8 { SameSlice(h, Header(r), n, 4, 8); }
    if t >= 12 { SameSlice(h, Header(r), n, 8, 12); }
  }

  lemma HeaderIds(r: WalRecord)
    ensures FromWord(Header(r)[4..8]) == r.lsn && FromWord(Header(r)[8..12]) == r.txnId
  {
    hide Header, FromWord, Little;
    HeaderParts(r);
    WordRoundTrip(r.lsn);
    WordRoundTrip(r.txnId);
  }

  /** Records that the log can represent, numbered in order. */
  ghost predicate Numbered(records: seq<WalRecord>) {
    forall i | 0 <= i < |records| :: Storable(records[i]) && records[i].lsn == Lsn(i)
  }

  class WalManager {
    var file: Bytes
    var nextLsn: uint32
    // The records found at the start and those written since.
    ghost var written: seq<WalRecord>

    ghost predicate Valid()
      reads this
    {
      nextLsn == Lsn(|written|) && Recorded()
    }

    /** The file holds the records written so far, numbered in order. */
    ghost predicate Recorded()
      reads this
    {
      Numbered(written) && file == EncodeAll(written)
    }

    constructor ()
      ensures Valid() && written == [] && nextLsn == 1
    {
      file, nextLsn, written := [], 1, [];
    }

    /** Any file: numbering goes on from the last record that is found. */
    constructor Open(bytes: Bytes)
      ensures file == bytes && written == ReadFrom(bytes)
      ensures nextLsn == if written == [] then 1 else (written[|written| - 1].lsn + 1) % 0x1_0000_0000
      ensures forall before | Numbered(before) && bytes == EncodeAll(before) :: Valid() && written == before
    {
      hide EncodeAll, ReadFrom, Storable;
      file, nextLsn, written := bytes, 1, ReadFrom(bytes);
      new;
      var existing := ReadAll();
      if existing != [] {
        nextLsn := (existing[|existing| - 1].lsn + 1) % 0x1_0000_0000;
      }
      forall before | Numbered(before) && bytes == EncodeAll(before) ensures Valid() && written == before {
        ReadWhole(before);
      }
    }

    /** Appends a record under the next log sequence number, whatever the file ends with. */
    method Write(kind: WalType, txnId: uint32, table: Bytes, pageId: int32, slotIndex: int32, data: Data) returns (lsn: uint32)
      requires !kind.Unknown?
      modifies this
      ensures lsn == old(nextLsn) && nextLsn == (lsn + 1) % 0x1_0000_0000
      ensures var r := WalRecord(lsn, txnId, kind, pageId, slotIndex, Kept(table), data);
              file == old(file) + Encode(r) && written == old(written) + [r]
      ensures old(Valid()) ==> Valid()
    {
      hide Header, EncodeAll;
      lsn := nextLsn;
      nextLsn := (nextLsn + 1) % 0x1_0000_0000;
      var r := WalRecord(lsn, txnId, kind, pageId, slotIndex, Kept(table), data);
      EncodeSnoc(written, r);
      file := file + Header(r);
      if data != [] {
        file := file + data;
      }
      written := written + [r];
    }

    /** Reads records until one is short or not a record. */
    method ReadAll() returns (records: seq<WalRecord>)
      ensures records == ReadFrom(file)
      ensures Recorded() ==> records == written
    {
      hide ReadFrom, Decode, FromWord, Encode, Storable;
      records := [];
      var at := 0;
      while true
        invariant 0 <= at <= |file| && ReadFrom(file) == records + ReadFrom(file[at..])
        decreases |file| - at
      {
        var rest := file[at..];
        ReadStep(records, rest);
        if |rest| < HEADER_BYTES || FromWord(rest[..4]) != WAL_MAGIC {
          break;
        }
        var h := rest[..HEADER_BYTES];
        var size := FromWord(h[24..28]);
        if |rest| < HEADER_BYTES + size {
          break;
        }
        records := records + [Decode(h, rest[HEADER_BYTES..HEADER_BYTES + size])];
        assert file[at + HEADER_BYTES + size..] == rest[HEADER_BYTES + size..];
        at := at + HEADER_BYTES + size;
      }
      if Recorded() {
        ReadWhole(written);
      }
    }
  }
}
