/** The byte layout `BinaryOutput::out` (`src/atlas/output.rs`) produces
    through a little-endian `binary_rw::BinaryWriter`, a decoder for it, and
    the round trip between the two. */
module BinaryFormat {
  import opened Wrappers
  import opened Bytes
  import opened Text
  import Utf8
  import opened AtlasTypes

  /** A length-prefixed UTF-8 string: the byte length, little-endian over
      `width` bytes, then the bytes. A string whose length the prefix cannot
      hold is a write error. */
  function EncodeString(s: string, width: nat): (r: Option<seq<byte>>)
    ensures r.Some? <==> |Utf8.Encode(s)| < Pow256(width)
    ensures r.Some? ==> |r.value| == width + |Utf8.Encode(s)|
  {
    var b := Utf8.Encode(s);
    if |b| < Pow256(width) then Some(LittleEndian(|b|, width) + b) else None
  }

  /** `write_bool`: one byte. */
  function BoolByte(v: bool): byte {
    if v then 1 else 0
  }

  /** The key as it is written: every backslash turned into a slash. */
  function FrameKey(key: string): (k: string)
    ensures '\\' !in k && |k| == |key|
  {
    ReplaceCharAt(key, '\\', '/');
    ReplaceCharRemoves(key, '\\', '/');
    Replace(key, "\\", "/")
  }

  /** Both parts written, or the first failure. */
  function Concat(a: Option<seq<byte>>, b: Option<seq<byte>>): Option<seq<byte>> {
    if a.Some? && b.Some? then Some(a.value + b.value) else None
  }

  /** A frame of the descriptor: its key and its data. */
  type Entry = (string, TextureData)

  /** One frame record: its key, `x`, `y`, `width`, `height` as `u32`, and
      the rotation flag. */
  function EncodeRecord(e: Entry, rotated: bool, width: nat): Option<seq<byte>> {
    var data := e.1;
    Concat(EncodeString(FrameKey(e.0), width),
      Some(U32Le(data.x) + U32Le(data.y) + U32Le(data.width) + U32Le(data.height) + [BoolByte(rotated)]))
  }

  /** The records of the frames in visiting order. */
  function EncodeRecords(entries: seq<Entry>, rotated: string -> bool, width: nat): Option<seq<byte>> {
    if entries == [] then Some([])
    else Concat(EncodeRecord(entries[0], rotated(entries[0].0), width),
      EncodeRecords(entries[1..], rotated, width))
  }

  /** `entries` is the frame map visited entry by entry, each once, in the
      hash map's iteration order (which the model takes as given). */
  predicate Enumerates(entries: seq<Entry>, frames: map<string, TextureData>) {
    (forall i, j :: 0 <= i < j < |entries| ==> entries[i].0 != entries[j].0) &&
    (forall i :: 0 <= i < |entries| ==> entries[i].0 in frames && frames[entries[i].0] == entries[i].1) &&
    (forall k :: k in frames ==> exists i :: 0 <= i < |entries| && entries[i].0 == k)
  }

  /** The whole file: the sheet path, the frame count cut to `u32` (`as
      u32`), then one record per frame. */
  function EncodeAtlas(d: Descriptor, entries: seq<Entry>, rotated: string -> bool, width: nat): Option<seq<byte>> {
    Concat(Concat(EncodeString(d.sheetPath, width), Some(U32Le(|d.frames| % 0x1_0000_0000))),
      EncodeRecords(entries, rotated, width))
  }

  lemma ConcatAssoc(a: Option<seq<byte>>, b: Option<seq<byte>>, c: Option<seq<byte>>)
    ensures Concat(Concat(a, b), c) == Concat(a, Concat(b, c))
  {
    if a.Some? && b.Some? && c.Some? {
      assert (a.value + b.value) + c.value == a.value + (b.value + c.value);
    }
  }

  /** Writing the records of `a` and then those of `b` is writing those of
      `a + b`; in particular a failure stays a failure. */
  lemma {:induction false} EncodeRecordsAppend(a: seq<Entry>, b: seq<Entry>, rotated: string -> bool, width: nat)
    ensures EncodeRecords(a + b, rotated, width) ==
      Concat(EncodeRecords(a, rotated, width), EncodeRecords(b, rotated, width))
  {
    if a == [] {
      assert a + b == b;
      var e := EncodeRecords(b, rotated, width);
      if e.Some? {
        assert [] + e.value == e.value;
      }
    } else {
      assert (a + b)[0] == a[0] && (a + b)[1..] == a[1..] + b;
      EncodeRecordsAppend(a[1..], b, rotated, width);
      ConcatAssoc(EncodeRecord(a[0], rotated(a[0].0), width),
        EncodeRecords(a[1..], rotated, width), EncodeRecords(b, rotated, width));
    }
  }

  /** The records of one more entry. */
  lemma EncodeRecordsSnoc(entries: seq<Entry>, i: nat, rotated: string -> bool, width: nat)
    requires i < |entries|
    ensures EncodeRecords(entries[..i + 1], rotated, width) ==
      Concat(EncodeRecords(entries[..i], rotated, width), EncodeRecord(entries[i], rotated(entries[i].0), width))
  {
    assert entries[..i + 1] == entries[..i] + [entries[i]];
    EncodeRecordsAppend(entries[..i], [entries[i]], rotated, width);
    var e := EncodeRecord(entries[i], rotated(entries[i].0), width);
    assert [entries[i]][1..] == [];
    if e.Some? {
      assert e.value + [] == e.value;
    }
  }

  /** Once a prefix of the records fails, all of them fail. */
  lemma EncodeRecordsPrefixFails(entries: seq<Entry>, i: nat, rotated: string -> bool, width: nat)
    requires i <= |entries|
    requires EncodeRecords(entries[..i], rotated, width).None?
    ensures EncodeRecords(entries, rotated, width).None?
  {
    assert entries == entries[..i] + entries[i..];
    EncodeRecordsAppend(entries[..i], entries[i..], rotated, width);
  }

  /** A string fits its length prefix. */
  predicate StringFits(s: string, width: nat) {
    |Utf8.Encode(s)| < Pow256(width)
  }

  /** The records are written exactly when every key fits its prefix. */
  lemma {:induction false} EncodeRecordsSome(entries: seq<Entry>, rotated: string -> bool, width: nat)
    ensures EncodeRecords(entries, rotated, width).Some? <==>
      forall i :: 0 <= i < |entries| ==> StringFits(FrameKey(entries[i].0), width)
  {
    if entries != [] {
      EncodeRecordsSome(entries[1..], rotated, width);
      assert forall i :: 1 <= i < |entries| ==> entries[i] == entries[1..][i - 1];
    }
  }

  /** The binary output fails only for a string too long for its prefix. */
  lemma EncodeAtlasSome(d: Descriptor, entries: seq<Entry>, rotated: string -> bool, width: nat)
    ensures EncodeAtlas(d, entries, rotated, width).Some? <==>
      StringFits(d.sheetPath, width) && forall i :: 0 <= i < |entries| ==> StringFits(FrameKey(entries[i].0), width)
  {
    EncodeRecordsSome(entries, rotated, width);
  }

  // ---- Decoding ----

  function DecodeU32(b: seq<byte>): Option<(nat, seq<byte>)> {
    if |b| < 4 then None else Some((FromLittleEndian(b[..4]), b[4..]))
  }

  function DecodeString(b: seq<byte>, width: nat): Option<(string, seq<byte>)> {
    if |b| < width then None
    else
      var len := FromLittleEndian(b[..width]);
      var rest := b[width..];
      if |rest| < len then None
      else
        var s := Utf8.Decode(rest[..len]);
        if s.None? then None else Some((s.value, rest[len..]))
  }

  /** A frame record as the file holds it. */
  datatype Record = Record(key: string, x: nat, y: nat, width: nat, height: nat, rotated: bool)

  function DecodeRecord(b: seq<byte>, width: nat): Option<(Record, seq<byte>)> {
    var k := DecodeString(b, width);
    if k.None? then None
    else
      var rest := k.value.1;
      if |rest| < 17 then None
      else
        Some((Record(k.value.0,
          FromLittleEndian(rest[..4]), FromLittleEndian(rest[4..8]),
          FromLittleEndian(rest[8..12]), FromLittleEndian(rest[12..16]), rest[16] != 0),
          rest[17..]))
  }

  /** `n` records in a row. */
  function DecodeRecords(b: seq<byte>, n: nat, width: nat): Option<(seq<Record>, seq<byte>)>
    decreases n
  {
    if n == 0 then Some(([], b))
    else
      var r := DecodeRecord(b, width);
      if r.None? then None
      else
        var more := DecodeRecords(r.value.1, n - 1, width);
        if more.None? then None else Some(([r.value.0] + more.value.0, more.value.1))
  }

  /** What a reader of the file recovers. */
  datatype BinaryAtlas = BinaryAtlas(sheetPath: string, count: nat, records: seq<Record>)

  /** Reads a whole file; trailing bytes are an error. */
  function DecodeAtlas(b: seq<byte>, width: nat): Option<BinaryAtlas> {
    var s := DecodeString(b, width);
    if s.None? then None
    else
      var c := DecodeU32(s.value.1);
      if c.None? then None
      else
        var r := DecodeRecords(c.value.1, c.value.0, width);
        if r.None? || r.value.1 != [] then None
        else Some(BinaryAtlas(s.value.0, c.value.0, r.value.0))
  }

  // ---- Round trip ----

  lemma DecodeEncodeString(s: string, width: nat, rest: seq<byte>)
    requires EncodeString(s, width).Some?
    ensures DecodeString(EncodeString(s, width).value + rest, width) == Some((s, rest))
  {
    var b := Utf8.Encode(s);
    var prefix := LittleEndian(|b|, width);
    assert EncodeString(s, width).value == prefix + b;
    var all := prefix + b + rest;
    assert all[..width] == prefix;
    assert all[width..] == b + rest;
    LittleEndianRoundTrip(|b|, width);
    DivModUnique(|b|, Pow256(width), 0, |b|);
    assert (b + rest)[..|b|] == b;
    assert (b + rest)[|b|..] == rest;
    Utf8.DecodeEncode(s);
  }

  lemma DecodeEncodeU32(v: u32, rest: seq<byte>)
    ensures DecodeU32(U32Le(v) + rest) == Some((v as nat, rest))
  {
    assert (U32Le(v) + rest)[..4] == U32Le(v);
    U32LeRoundTrip(v);
  }

  /** What the record of one frame reads back as. */
  function RecordOf(e: Entry, rotated: bool): Record {
    Record(FrameKey(e.0), e.1.x, e.1.y, e.1.width, e.1.height, rotated)
  }

  /** The fixed-size tail of a record: four `u32` and a flag. */
  lemma DecodeFields(data: TextureData, rotated: bool, rest: seq<byte>)
    ensures var tail := U32Le(data.x) + U32Le(data.y) + U32Le(data.width) + U32Le(data.height) + [BoolByte(rotated)] + rest;
      |tail| >= 17 &&
      FromLittleEndian(tail[..4]) == data.x && FromLittleEndian(tail[4..8]) == data.y &&
      FromLittleEndian(tail[8..12]) == data.width && FromLittleEndian(tail[12..16]) == data.height &&
      (tail[16] != 0) == rotated && tail[17..] == rest
  {
    var tail := U32Le(data.x) + U32Le(data.y) + U32Le(data.width) + U32Le(data.height) + [BoolByte(rotated)] + rest;
    assert tail[..4] == U32Le(data.x);
    assert tail[4..8] == U32Le(data.y);
    assert tail[8..12] == U32Le(data.width);
    assert tail[12..16] == U32Le(data.height);
    assert tail[16] == BoolByte(rotated);
    assert tail[17..] == rest;
    U32LeRoundTrip(data.x);
    U32LeRoundTrip(data.y);
    U32LeRoundTrip(data.width);
    U32LeRoundTrip(data.height);
  }

  lemma DecodeEncodeRecord(e: Entry, rotated: bool, width: nat, rest: seq<byte>)
    requires EncodeRecord(e, rotated, width).Some?
    ensures DecodeRecord(EncodeRecord(e, rotated, width).value + rest, width) == Some((RecordOf(e, rotated), rest))
  {
    var data := e.1;
    var s := EncodeString(FrameKey(e.0), width).value;
    var fields := U32Le(data.x) + U32Le(data.y) + U32Le(data.width) + U32Le(data.height) + [BoolByte(rotated)];
    assert EncodeRecord(e, rotated, width).value + rest == s + (fields + rest);
    DecodeEncodeString(FrameKey(e.0), width, fields + rest);
    DecodeFields(data, rotated, rest);
  }

  /** The records of the frames in visiting order. */
  function RecordsOf(entries: seq<Entry>, rotated: string -> bool): (rs: seq<Record>)
    ensures |rs| == |entries|
    ensures forall i :: 0 <= i < |entries| ==> rs[i] == RecordOf(entries[i], rotated(entries[i].0))
  {
    seq(|entries|, i requires 0 <= i < |entries| => RecordOf(entries[i], rotated(entries[i].0)))
  }

  lemma DecodeRecordsCons(b: seq<byte>, n: nat, width: nat, r: Record, mid: seq<byte>, rs: seq<Record>, rest: seq<byte>)
    requires n > 0
    requires DecodeRecord(b, width) == Some((r, mid))
    requires DecodeRecords(mid, n - 1, width) == Some((rs, rest))
    ensures DecodeRecords(b, n, width) == Some(([r] + rs, rest))
  {
  }

  lemma RecordsOfCons(entries: seq<Entry>, rotated: string -> bool)
    requires entries != []
    ensures RecordsOf(entries, rotated) ==
      [RecordOf(entries[0], rotated(entries[0].0))] + RecordsOf(entries[1..], rotated)
  {
  }

  lemma {:induction false} DecodeEncodeRecords(entries: seq<Entry>, rotated: string -> bool, width: nat, rest: seq<byte>)
    requires EncodeRecords(entries, rotated, width).Some?
    ensures DecodeRecords(EncodeRecords(entries, rotated, width).value + rest, |entries|, width) ==
      Some((RecordsOf(entries, rotated), rest))
  {
    if entries != [] {
      var e := entries[0];
      var head := EncodeRecord(e, rotated(e.0), width).value;
      var tail := EncodeRecords(entries[1..], rotated, width).value;
      assert EncodeRecords(entries, rotated, width).value + rest == head + (tail + rest);
      DecodeEncodeRecord(e, rotated(e.0), width, tail + rest);
      DecodeEncodeRecords(entries[1..], rotated, width, rest);
      DecodeRecordsCons(head + (tail + rest), |entries|, width, RecordOf(e, rotated(e.0)), tail + rest,
        RecordsOf(entries[1..], rotated), rest);
      RecordsOfCons(entries, rotated);
    } else {
      assert [] + rest == rest;
    }
  }

  /** The keys in visiting order. */
  function KeysOf(entries: seq<Entry>): (ks: seq<string>)
    ensures |ks| == |entries| && forall i :: 0 <= i < |entries| ==> ks[i] == entries[i].0
  {
    seq(|entries|, i requires 0 <= i < |entries| => entries[i].0)
  }

  /** A visit of every entry once takes as many steps as the map has
      entries. */
  lemma EnumerationCount(entries: seq<Entry>, frames: map<string, TextureData>)
    requires Enumerates(entries, frames)
    ensures |entries| == |frames|
  {
    var ks := KeysOf(entries);
    assert (set k | k in ks) == frames.Keys by {
      forall k | k in frames ensures k in ks {
        var i :| 0 <= i < |entries| && entries[i].0 == k;
        assert ks[i] == k;
      }
    }
    DistinctCard(ks);
  }

  lemma {:induction false} DistinctCard(s: seq<string>)
    requires forall i, j :: 0 <= i < j < |s| ==> s[i] != s[j]
    ensures |set k | k in s| == |s|
  {
    if s != [] {
      var init := s[..|s| - 1];
      DistinctCard(init);
      assert (set k | k in s) == (set k | k in init) + {s[|s| - 1]};
      assert s[|s| - 1] !in (set k | k in init);
    }
  }

  /** Round trip: a file the binary output wrote reads back as the sheet
      path, the number of frames and, in visiting order, each frame's key
      with slashes, its rectangle and its rotation flag. The nine-patch
      data is not in the file. */
  lemma BinaryRoundTrip(d: Descriptor, entries: seq<Entry>, rotated: string -> bool, width: nat)
    requires Enumerates(entries, d.frames) && |d.frames| < 0x1_0000_0000
    requires EncodeAtlas(d, entries, rotated, width).Some?
    ensures DecodeAtlas(EncodeAtlas(d, entries, rotated, width).value, width) ==
      Some(BinaryAtlas(d.sheetPath, |d.frames|, RecordsOf(entries, rotated)))
  {
    EnumerationCount(entries, d.frames);
    var n := |d.frames|;
    EncodeAtlasParts(d, entries, rotated, width);
    var s := EncodeString(d.sheetPath, width).value;
    DivModUnique(n, 0x1_0000_0000, 0, n);
    var c := U32Le(n);
    var rs := EncodeRecords(entries, rotated, width).value;
    var b := EncodeAtlas(d, entries, rotated, width).value;
    DecodeEncodeString(d.sheetPath, width, c + rs);
    DecodeEncodeU32(n, rs);
    assert rs + [] == rs;
    DecodeEncodeRecords(entries, rotated, width, []);
    DecodeAtlasParts(b, width, d.sheetPath, c + rs, n, rs, RecordsOf(entries, rotated));
  }

  /** A written file is the sheet path, the count and the records. */
  lemma EncodeAtlasParts(d: Descriptor, entries: seq<Entry>, rotated: string -> bool, width: nat)
    requires EncodeAtlas(d, entries, rotated, width).Some?
    ensures EncodeString(d.sheetPath, width).Some? && EncodeRecords(entries, rotated, width).Some?
    ensures EncodeAtlas(d, entries, rotated, width).value ==
      EncodeString(d.sheetPath, width).value + (U32Le(|d.frames| % 0x1_0000_0000) + EncodeRecords(entries, rotated, width).value)
  {
    var s := EncodeString(d.sheetPath, width).value;
    var c := U32Le(|d.frames| % 0x1_0000_0000);
    var r := EncodeRecords(entries, rotated, width).value;
    assert (s + c) + r == s + (c + r);
  }

  /** A file that reads as a string, a count and that many records, with
      nothing after them. */
  lemma DecodeAtlasParts(b: seq<byte>, width: nat, sheetPath: string, afterPath: seq<byte>, n: nat, afterCount: seq<byte>, records: seq<Record>)
    requires DecodeString(b, width) == Some((sheetPath, afterPath))
    requires DecodeU32(afterPath) == Some((n, afterCount))
    requires DecodeRecords(afterCount, n, width) == Some((records, []))
    ensures DecodeAtlas(b, width) == Some(BinaryAtlas(sheetPath, n, records))
  {
  }

  /** Two visits that agree on every key and rectangle, whatever their
      nine-patch data. */
  predicate SameGeometry(a: seq<Entry>, b: seq<Entry>) {
    |a| == |b| &&
    forall i :: 0 <= i < |a| ==>
      a[i].0 == b[i].0 && a[i].1.x == b[i].1.x && a[i].1.y == b[i].1.y &&
      a[i].1.width == b[i].1.width && a[i].1.height == b[i].1.height
  }

  /** The binary file does not depend on the nine-patch data. */
  lemma {:induction false} RecordsIgnoreNinePatch(a: seq<Entry>, b: seq<Entry>, rotated: string -> bool, width: nat)
    requires SameGeometry(a, b)
    ensures EncodeRecords(a, rotated, width) == EncodeRecords(b, rotated, width)
  {
    if a != [] {
      assert SameGeometry(a[1..], b[1..]);
      RecordsIgnoreNinePatch(a[1..], b[1..], rotated, width);
    }
  }
}
