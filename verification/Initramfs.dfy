/** The initramfs archive: the build script's writer and the kernel's reader. */
module Initramfs {
  import opened LittleEndian
  import opened Sequences
  import Text = GenericFsTree

  const MAGIC: seq<byte> := [0x47, 0x49, 0x52, 0x31]  // "GIR1"
  const FILE: nat := 1
  const DIRECTORY: nat := 2

  datatype Record = Record(kind: nat, path: seq<byte>, data: seq<byte>)

  // ---------------------------------------------------------------- the writer

  /** What `append_record` is given: lengths that fit their fields, and no data for directories. */
  predicate Writable(r: Record) {
    && (r.kind == FILE || (r.kind == DIRECTORY && r.data == []))
    && |r.path| < 0x1_0000 && |r.data| < 0x1_0000_0000 && Text.Utf8(r.path)
  }

  /** `append_record`. */
  function Encoded(r: Record): seq<byte>
    requires Writable(r)
  {
    [r.kind] + Encode(|r.path|, 2) + Encode(|r.data|, 4) + r.path + r.data
  }

  function EncodedAll(rs: seq<Record>): seq<byte>
    requires forall i :: 0 <= i < |rs| ==> Writable(rs[i])
  {
    if rs == [] then [] else EncodedAll(rs[..|rs| - 1]) + Encoded(rs[|rs| - 1])
  }

  function Archive(rs: seq<Record>): seq<byte>
    requires forall i :: 0 <= i < |rs| ==> Writable(rs[i])
  {
    MAGIC + EncodedAll(rs) + [0]
  }

  method AppendRecord(archive: seq<byte>, r: Record) returns (longer: seq<byte>)
    requires Writable(r)
    ensures longer == archive + Encoded(r)
  {
    longer := archive + [r.kind];
    longer := longer + Encode(|r.path|, 2);
    longer := longer + Encode(|r.data|, 4);
    longer := longer + r.path;
    longer := longer + r.data;
  }

  // ---------------------------------------------------------------- the reader

  /** What the reader finds at an offset: the end, a record and where the next one starts, or neither. */
  datatype Item = End | Found(record: Record, next: nat) | Corrupt

  function ItemAt(archive: seq<byte>, offset: nat): (item: Item)
    ensures item.Found? ==> offset < item.next <= |archive|
  {
    if offset >= |archive| then Corrupt
    else if archive[offset] == 0 then End
    else if offset + 7 > |archive| then Corrupt
    else
      var pathLen, dataLen := Decode(archive[offset + 1..offset + 3]), Decode(archive[offset + 3..offset + 7]);
      var start := offset + 7;
      if start + pathLen > |archive| then Corrupt
      else
        var kind, path, body := archive[offset], archive[start..start + pathLen], start + pathLen;
        if !Text.Utf8(path) then Corrupt
        else if kind == FILE && body + dataLen <= |archive| then
          Found(Record(FILE, path, archive[body..body + dataLen]), body + dataLen)
        else if kind == DIRECTORY && dataLen == 0 then Found(Record(DIRECTORY, path, []), body)
        else Corrupt
  }

  /** The records from an offset on, and whether they end as they should. */
  function Records(archive: seq<byte>, offset: nat): (seq<Record>, bool)
    decreases |archive| - offset
  {
    match ItemAt(archive, offset)
    case End => ([], true)
    case Corrupt => ([], false)
    case Found(record, next) =>
      var rest := Records(archive, next);
      ([record] + rest.0, rest.1)
  }

  function Contents(archive: seq<byte>): (seq<Record>, bool) {
    if |archive| < 5 || archive[..4] != MAGIC then ([], false) else Records(archive, 4)
  }

  /** A record is read back where it was written. */
  lemma ReadsRecord(before: seq<byte>, r: Record, after: seq<byte>)
    requires Writable(r)
    ensures ItemAt(before + Encoded(r) + after, |before|) == Found(r, |before| + |Encoded(r)|)
  {
    hide Encode, Decode, Pow256, Text.Utf8;
    var archive, offset := before + Encoded(r) + after, |before|;
    Widths();
    RoundTrip(|r.path|, 2);
    RoundTrip(|r.data|, 4);
    var n := 7 + |r.path|;
    assert archive[offset] == r.kind;
    assert archive[offset + 1..offset + 3] == Encode(|r.path|, 2);
    assert archive[offset + 3..offset + 7] == Encode(|r.data|, 4);
    assert archive[offset + 7..offset + n] == r.path;
    assert archive[offset + n..offset + n + |r.data|] == r.data;
  }

  /** The reader takes exactly what the writer can have written: no other bytes are a record. */
  lemma FoundIff(archive: seq<byte>, offset: nat, r: Record, next: nat)
    ensures ItemAt(archive, offset) == Found(r, next) <==>
            Writable(r) && offset <= next <= |archive| && archive[offset..next] == Encoded(r)
    ensures ItemAt(archive, offset) == End <==> offset < |archive| && archive[offset] == 0
  {
    hide Encode, Decode, Pow256, Text.Utf8;
    if ItemAt(archive, offset) == Found(r, next) {
      FoundIsEncoded(archive, offset);
    }
    if Writable(r) && offset <= next <= |archive| && archive[offset..next] == Encoded(r) {
      ReadsRecord(archive[..offset], r, archive[next..]);
      assert archive == archive[..offset] + Encoded(r) + archive[next..];
    }
  }

  lemma FoundIsEncoded(archive: seq<byte>, offset: nat)
    requires ItemAt(archive, offset).Found?
    ensures var Found(r, next) := ItemAt(archive, offset);
            Writable(r) && offset <= next <= |archive| && archive[offset..next] == Encoded(r)
  {
    hide Encode, Decode, Pow256, Text.Utf8;
    Widths();
    var Found(r, next) := ItemAt(archive, offset);
    var pathBytes, dataBytes := archive[offset + 1..offset + 3], archive[offset + 3..offset + 7];
    DecodeBound(pathBytes);
    DecodeBound(dataBytes);
    DecodeInjective(pathBytes);
    DecodeInjective(dataBytes);
    Slices(archive, offset, offset + 7 + |r.path|, next);
  }

  lemma Slices(s: seq<byte>, offset: nat, body: nat, next: nat)
    requires offset + 7 <= body <= next <= |s|
    ensures s[offset..next] ==
            [s[offset]] + s[offset + 1..offset + 3] + s[offset + 3..offset + 7] + s[offset + 7..body] + s[body..next]
  {
  }

  lemma NothingEncoded()
    ensures EncodedAll([]) == []
  {
  }

  lemma EncodedLast(rs: seq<Record>)
    requires rs != [] && forall i :: 0 <= i < |rs| ==> Writable(rs[i])
    ensures EncodedAll(rs) == EncodedAll(rs[..|rs| - 1]) + Encoded(rs[|rs| - 1])
  {
  }

  lemma {:induction false} EncodedSplit(rs: seq<Record>)
    requires rs != [] && forall i :: 0 <= i < |rs| ==> Writable(rs[i])
    ensures EncodedAll(rs) == Encoded(rs[0]) + EncodedAll(rs[1..])
    decreases |rs|
  {
    hide Encoded, EncodedAll, Writable;
    var n := |rs| - 1;
    EncodedLast(rs);
    NothingEncoded();
    if n > 0 {
      EncodedSplit(rs[..n]);
      EncodedLast(rs[1..]);
      assert rs[..n][1..] == rs[1..][..n - 1];
      Regroup(Encoded(rs[0]), EncodedAll(rs[..n][1..]), Encoded(rs[n]));
    } else {
      assert rs[..n] == [] && rs[1..] == [];
    }
  }

  lemma {:induction false} ReadsRecords(before: seq<byte>, rs: seq<Record>)
    requires forall i :: 0 <= i < |rs| ==> Writable(rs[i])
    ensures Records(before + EncodedAll(rs) + [0], |before|) == (rs, true)
    decreases |rs|
  {
    hide Encoded, ItemAt, Writable;
    var archive := before + EncodedAll(rs) + [0];
    if rs == [] {
      EndsHere(before);
    } else {
      EncodedSplit(rs);
      var rest := EncodedAll(rs[1..]) + [0];
      assert archive == before + Encoded(rs[0]) + rest;
      ReadsRecord(before, rs[0], rest);
      ReadsRecords(before + Encoded(rs[0]), rs[1..]);
      assert archive == before + Encoded(rs[0]) + EncodedAll(rs[1..]) + [0];
      assert [rs[0]] + rs[1..] == rs;
    }
  }

  lemma EndsHere(before: seq<byte>)
    ensures ItemAt(before + EncodedAll([]) + [0], |before|) == End
  {
  }

  /** Whatever records are written are read back, in order, to the end of the archive. */
  lemma ArchiveRoundTrip(rs: seq<Record>)
    requires forall i :: 0 <= i < |rs| ==> Writable(rs[i])
    ensures Contents(Archive(rs)) == (rs, true)
  {
    hide Records, EncodedAll, Writable;
    assert Archive(rs)[..4] == MAGIC;
    ReadsRecords(MAGIC, rs);
  }
}
