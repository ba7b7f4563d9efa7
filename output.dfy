/** The descriptor writers of `src/atlas/output.rs` and the choice among
    them at the end of `pack` (`src/atlas.rs`). */
module Output {
  import opened Wrappers
  import opened Bytes
  import opened Text
  import opened Paths
  import Utf8
  import opened AtlasTypes
  import opened SheetPaths
  import opened BinaryFormat

  /** A file the build writes: where, and which bytes. */
  datatype Artifact = Artifact(path: string, contents: seq<byte>)

  /** The clean-up applied to the serialised JSON and RON text: every
      doubled backslash becomes a slash. */
  function PostPass(text: string): (r: string)
    ensures NoPair(r, '\\')
  {
    assert "\\\\" == ['\\', '\\'];
    ReplacePairLeavesNoPair(text, '\\', "/");
    Replace(text, "\\\\", "/")
  }

  /** Applying the clean-up twice changes nothing more. */
  lemma PostPassIdempotent(text: string)
    ensures PostPass(PostPass(text)) == PostPass(text)
  {
    assert "\\\\" == ['\\', '\\'];
    ReplacePairAbsent(PostPass(text), '\\', "/");
  }

  /** How JSON and RON write a backslash inside a string: doubled. */
  function Escape(p: string): string {
    Replace(p, "\\", "\\\\")
  }

  /** The point of the clean-up: a Windows-style name, once escaped into
      the serialised text, comes out with slashes in place of its
      backslashes. */
  lemma {:induction false} PostPassOfEscaped(p: string)
    ensures PostPass(Escape(p)) == Replace(p, "\\", "/")
  {
    if p != [] {
      var rest := p[1..];
      PostPassOfEscaped(rest);
      var e := Escape(p);
      if p[0] == '\\' {
        assert StartsWith(p, "\\");
        assert e == "\\\\" + Escape(rest);
        assert StartsWith(e, "\\\\");
        assert e[2..] == Escape(rest);
      } else {
        assert !StartsWith(p, "\\");
        assert e == [p[0]] + Escape(rest);
        if |e| < 2 {
          ReplaceCharAt(rest, '\\', '/');
        } else {
          assert e[0] == p[0];
          assert !StartsWith(e, "\\\\");
          assert e[1..] == Escape(rest);
        }
      }
    }
  }

  /** `path.set_extension(ext)` and `std::fs::write` of the cleaned text,
      as UTF-8. */
  function TextOut(path: string, ext: string, rendered: string): (a: Artifact)
    ensures FileName(path).Some? && PlainExtension(ext) ==> Extension(a.path) == Some(ext)
    ensures Utf8.Decode(a.contents) == Some(PostPass(rendered))
  {
    var a := Artifact(WithExtension(path, ext), Utf8.Encode(PostPass(rendered)));
    Utf8.DecodeEncode(PostPass(rendered));
    if FileName(path).Some? && PlainExtension(ext) then
      WithExtensionSetsExtension(path, ext);
      a
    else
      a
  }

  /** The in-memory stream behind a little-endian `binary_rw::BinaryWriter`. */
  class BinaryWriter {
    var bytes: seq<byte>
    const prefixWidth: nat

    constructor (prefixWidth: nat)
      ensures bytes == [] && this.prefixWidth == prefixWidth
    {
      bytes := [];
      this.prefixWidth := prefixWidth;
    }

    /** `write_string`: a length prefix and the UTF-8 bytes, or an error
        when the length does not fit the prefix. */
    method WriteString(s: string) returns (ok: bool)
      modifies this
      ensures ok <==> EncodeString(s, prefixWidth).Some?
      ensures bytes == if ok then old(bytes) + EncodeString(s, prefixWidth).value else old(bytes)
    {
      var b := Utf8.Encode(s);
      if |b| >= Pow256(prefixWidth) {
        return false;
      }
      bytes := bytes + (LittleEndian(|b|, prefixWidth) + b);
      ok := true;
    }

    /** `write_u32`, little-endian. */
    method WriteU32(v: u32)
      modifies this
      ensures bytes == old(bytes) + U32Le(v)
    {
      bytes := bytes + U32Le(v);
    }

    /** `write_bool`. */
    method WriteBool(v: bool)
      modifies this
      ensures bytes == old(bytes) + [BoolByte(v)]
    {
      bytes := bytes + [BoolByte(v)];
    }

    /** One iteration of the frame loop: the key with slashes, the four
        coordinates and the rotation flag. */
    method WriteRecord(e: Entry, rotated: bool) returns (ok: bool)
      modifies this
      ensures ok <==> EncodeRecord(e, rotated, prefixWidth).Some?
      ensures bytes == if ok then old(bytes) + EncodeRecord(e, rotated, prefixWidth).value else old(bytes)
    {
      var key, data := e.0, e.1;
      ghost var start := bytes;
      var frameKey := FrameKey(key);
      ok := WriteString(frameKey);
      if !ok {
        return;
      }
      ghost var base := bytes;
      WriteU32(data.x);
      ghost var f1 := U32Le(data.x);
      WriteU32(data.y);
      AppendAssoc(base, f1, U32Le(data.y));
      ghost var f2 := f1 + U32Le(data.y);
      WriteU32(data.width);
      AppendAssoc(base, f2, U32Le(data.width));
      ghost var f3 := f2 + U32Le(data.width);
      WriteU32(data.height);
      AppendAssoc(base, f3, U32Le(data.height));
      ghost var f4 := f3 + U32Le(data.height);
      WriteBool(rotated);
      AppendAssoc(base, f4, [BoolByte(rotated)]);
      AppendAssoc(start, EncodeString(frameKey, prefixWidth).value, f4 + [BoolByte(rotated)]);
    }

    /** The frame loop: one record per entry, in visiting order, stopping
        at the first failed write. */
    method WriteRecords(entries: seq<Entry>, rotated: string -> bool) returns (ok: bool)
      modifies this
      ensures ok <==> EncodeRecords(entries, rotated, prefixWidth).Some?
      ensures ok ==> bytes == old(bytes) + EncodeRecords(entries, rotated, prefixWidth).value
    {
      ghost var start := bytes;
      assert entries[..0] == [];
      assert bytes == start + [];
      for i := 0 to |entries|
        invariant EncodeRecords(entries[..i], rotated, prefixWidth).Some?
        invariant bytes == start + EncodeRecords(entries[..i], rotated, prefixWidth).value
      {
        EncodeRecordsSnoc(entries, i, rotated, prefixWidth);
        ghost var written := EncodeRecords(entries[..i], rotated, prefixWidth).value;
        ok := WriteRecord(entries[i], rotated(entries[i].0));
        if !ok {
          EncodeRecordsPrefixFails(entries, i + 1, rotated, prefixWidth);
          return;
        }
        AppendAssoc(start, written, EncodeRecord(entries[i], rotated(entries[i].0), prefixWidth).value);
      }
      assert entries[..|entries|] == entries;
      ok := true;
    }
  }

  /** `BinaryOut::out`: the sheet path, the frame count as `u32`, then one
      record per frame, visiting the frame map in its iteration order
      `entries`; the file goes to `path` with the extension `bin`. A failed
      write produces no file. */
  method BinaryOut(path: string, d: Descriptor, entries: seq<Entry>, rotated: string -> bool, prefixWidth: nat)
    returns (r: Option<Artifact>)
    requires Enumerates(entries, d.frames)
    ensures r.Some? <==> EncodeAtlas(d, entries, rotated, prefixWidth).Some?
    ensures r.Some? ==> r.value == Artifact(WithExtension(path, "bin"), EncodeAtlas(d, entries, rotated, prefixWidth).value)
  {
    var out := WithExtension(path, "bin");
    var writer := new BinaryWriter(prefixWidth);
    var ok := writer.WriteString(d.sheetPath);
    if !ok {
      return None;
    }
    ghost var header := EncodeString(d.sheetPath, prefixWidth).value;
    assert [] + header == header;
    assert writer.bytes == header;
    var count: u32 := |d.frames| % 0x1_0000_0000;
    writer.WriteU32(count);
    ghost var records := EncodeRecords(entries, rotated, prefixWidth);
    ok := writer.WriteRecords(entries, rotated);
    if !ok {
      EncodeAtlasSome(d, entries, rotated, prefixWidth);
      EncodeRecordsSome(entries, rotated, prefixWidth);
      return None;
    }
    EncodeAtlasParts(d, entries, rotated, prefixWidth);
    AppendAssoc(header, U32Le(count), records.value);
    r := Some(Artifact(out, writer.bytes));
  }

  lemma AppendAssoc(a: seq<byte>, b: seq<byte>, c: seq<byte>)
    ensures (a + b) + c == a + (b + c)
  {
  }

  /** The extension of each descriptor format. */
  function DescriptorExtension(t: OutputType): (e: string)
    requires t != Toml
    ensures PlainExtension(e)
  {
    match t
    case Json => "json"
    case Ron => "ron"
    case Binary => "bin"
  }

  /** A descriptor file never takes the sheet's place: both keep the
      build's base name, but their extensions differ. */
  lemma DescriptorBesideSheet(base: string, t: OutputType, format: OutputExtensionType)
    requires t != Toml && FileName(base).Some?
    ensures WithExtension(base, DescriptorExtension(t)) != SheetFile(base, format)
    ensures Extension(WithExtension(base, DescriptorExtension(t))) == Some(DescriptorExtension(t))
    ensures WithExtension(base, DescriptorExtension(t))[..StemEnd(base)] == SheetFile(base, format)[..StemEnd(base)]
  {
    WithExtensionSetsExtension(base, DescriptorExtension(t));
    WithExtensionSetsExtension(base, ImageExtension(format));
  }

  /** What the serialisers make of the descriptor:
      `serde_json::to_string_pretty` and `ron::to_string`. */
  datatype Rendered = Rendered(json: string, ron: string)

  /** The normal output at the end of `pack`: nothing when
      `allow_normal_output` is off, otherwise the one descriptor file
      `output_type` selects, written next to `filePath`. The binary branch
      is taken to run `BinaryOutput::out`. */
  method NormalOutput(config: Config, filePath: string, d: Descriptor, rendered: Rendered,
                      entries: seq<Entry>, rotated: string -> bool, prefixWidth: nat)
    returns (r: Option<seq<Artifact>>)
    requires config.allowNormalOutput ==> config.outputType != Toml
    requires Enumerates(entries, d.frames)
    ensures !config.allowNormalOutput ==> r == Some([])
    ensures config.allowNormalOutput && config.outputType == Json ==>
      r == Some([TextOut(filePath, "json", rendered.json)])
    ensures config.allowNormalOutput && config.outputType == Ron ==>
      r == Some([TextOut(filePath, "ron", rendered.ron)])
    ensures config.allowNormalOutput && config.outputType == Binary ==>
      (r.Some? <==> EncodeAtlas(d, entries, rotated, prefixWidth).Some?) &&
      (r.Some? ==> r.value == [Artifact(WithExtension(filePath, "bin"), EncodeAtlas(d, entries, rotated, prefixWidth).value)])
    ensures config.allowNormalOutput && r.Some? ==> forall a :: a in r.value ==>
      a.path == WithExtension(filePath, DescriptorExtension(config.outputType))
  {
    if !config.allowNormalOutput {
      return Some([]);
    }
    match config.outputType {
      case Json =>
        r := Some([TextOut(filePath, "json", rendered.json)]);
      case Ron =>
        r := Some([TextOut(filePath, "ron", rendered.ron)]);
      case Binary =>
        var a := BinaryOut(filePath, d, entries, rotated, prefixWidth);
        r := if a.Some? then Some([a.value]) else None;
    }
  }
}
