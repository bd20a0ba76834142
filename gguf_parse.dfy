/**
 * parse_gguf of the Python GGUF decoder (code_test/test1/gguf_reader.py): the magic, the
 * version, the two counts, the key-value section and the tensor-info section, read in file
 * order with one running offset.
 */
module GgufParse {
  import opened Wrappers
  import opened Bytes
  import opened GgufReader

  /** The magic b'GGUF'. */
  const MAGIC: seq<byte> := [0x47, 0x47, 0x55, 0x46]

  /** One key-value pair of the metadata section. */
  type Entry = (seq<byte>, Value)

  // ---------------------------------------------------------------- magic and version

  /**
   * The magic: the memory map of an empty file fails, a 1-3 byte file cannot be viewed as a
   * u32, the four bytes are printed as UTF-8 before they are compared with b'GGUF'.
   */
  function ReadMagic(data: seq<byte>): (r: Result<seq<byte>, Error>)
    ensures r.Ok? <==> |data| >= 4 && data[..4] == MAGIC
    ensures r.Ok? ==> r.value == MAGIC
    ensures data == [] ==> r == Err(EmptyFile)
    ensures |data| >= 4 && ValidUtf8(data[..4]) && data[..4] != MAGIC ==> r == Err(NotGguf)
  {
    if data == [] then Err(EmptyFile)
    else
      var magic :- DataGet(data, 0, 4);
      // tobytes() of the u32 view: the four bytes themselves
      var bytes := data[..4];
      if !ValidUtf8(bytes) then Err(UnicodeError)
      else if bytes != MAGIC then Err(NotGguf)
      else Ok(bytes)
  }

  /**
   * The version field at offset 4: an empty window fails check_version like a
   * version outside 1-3 does.
   */
  function ReadFileVersion(data: seq<byte>): (r: Result<nat, Error>)
    requires |data| >= 4
    ensures r.Ok? <==> |data| >= 8 && CheckVersion(LEAt(data, 4, 4))
    ensures r.Ok? ==> r.value == LEAt(data, 4, 4)
    ensures |data| == 4 ==> r == Err(UnsupportedVersion)
  {
    var version :- DataGet(data, 4, 4);
    if |version| == 0 || !CheckVersion(version[0]) then Err(UnsupportedVersion) else Ok(version[0])
  }

  // ---------------------------------------------------------------- the key-value section

  /** One pass of the key-value loop: the key string, the u32 type tag, the value. */
  function ReadKv(data: seq<byte>, offset: nat, version: nat): Result<(Entry, nat), Error>
  {
    var key :- ReadString(data, offset, version);
    var tag :- ReadItem(data, offset + key.1, 4);
    var value :- ReadValue(data, tag, offset + key.1 + 4, version);
    Ok(((key.0, value.0), key.1 + 4 + value.1))
  }

  /** One pass of the key-value loop of parse_gguf. */
  method ReadKvPair(data: seq<byte>, offset: nat, version: nat) returns (r: Result<(Entry, nat), Error>)
    ensures r == ReadKv(data, offset, version)
  {
    var key :- ReadString(data, offset, version);
    var tag :- ReadItem(data, offset + key.1, 4);
    var value :- ReadMetadataValue(data, tag, offset + key.1 + 4, version);
    return Ok(((key.0, value.0), key.1 + 4 + value.1));
  }

  /** The key-value loop from one pair on: m more pairs from offset, after the pairs read so far (len bytes). */
  function ReadKvs(data: seq<byte>, offset: nat, m: nat, version: nat, entries: seq<Entry>, len: nat)
    : (r: Result<(seq<Entry>, nat), Error>)
    ensures r.Ok? ==> |r.value.0| == |entries| + m
    decreases m, 1
  {
    if m == 0 then Ok((entries, len)) else ReadKvsFrom(data, offset, m, version, entries, len)
  }

  /** A pass of the key-value loop with m > 0 pairs still to read. */
  function ReadKvsFrom(data: seq<byte>, offset: nat, m: nat, version: nat, entries: seq<Entry>, len: nat)
    : (r: Result<(seq<Entry>, nat), Error>)
    requires m > 0
    ensures r.Ok? ==> |r.value.0| == |entries| + m
    decreases m, 0
  {
    match ReadKv(data, offset, version)
    case Err(e) => Err(e)
    case Ok((kv, l)) => ReadKvs(data, offset + l, m - 1, version, entries + [kv], len + l)
  }

  /** The dictionary `metadata[key] = value` builds from the pairs in file order. */
  function EntriesToMap(es: seq<Entry>): map<seq<byte>, Value>
    decreases |es|
  {
    if es == [] then map[] else EntriesToMap(es[..|es| - 1])[es[|es| - 1].0 := es[|es| - 1].1]
  }

  /** The keys of the dictionary are exactly the keys read. */
  lemma {:induction false} EntriesToMapKeys(es: seq<Entry>, key: seq<byte>)
    ensures key in EntriesToMap(es) <==> exists i :: 0 <= i < |es| && es[i].0 == key
    decreases |es|
  {
    if es != [] {
      var init := es[..|es| - 1];
      EntriesToMapKeys(init, key);
      if key in EntriesToMap(init) {
        var i :| 0 <= i < |init| && init[i].0 == key;
        assert es[i].0 == key;
      }
      if exists i :: 0 <= i < |es| && es[i].0 == key {
        var i :| 0 <= i < |es| && es[i].0 == key;
        if i < |init| { assert init[i].0 == key; }
      }
    }
  }

  /** A later pair with the same key overwrites an earlier one: the last one read wins. */
  lemma {:induction false} EntriesToMapLast(es: seq<Entry>, j: nat)
    requires j < |es|
    requires forall i :: j < i < |es| ==> es[i].0 != es[j].0
    ensures es[j].0 in EntriesToMap(es) && EntriesToMap(es)[es[j].0] == es[j].1
    decreases |es|
  {
    if j < |es| - 1 {
      var init := es[..|es| - 1];
      forall i | j < i < |init| ensures init[i].0 != init[j].0 {
        assert init[i] == es[i];
      }
      EntriesToMapLast(init, j);
      assert init[j] == es[j];
    }
  }

  /** The dictionary holds at most one entry per pair read. */
  lemma {:induction false} EntriesToMapSize(es: seq<Entry>)
    ensures |EntriesToMap(es).Keys| <= |es|
    decreases |es|
  {
    if es != [] {
      var init := es[..|es| - 1];
      EntriesToMapSize(init);
      assert EntriesToMap(es).Keys == EntriesToMap(init).Keys + {es[|es| - 1].0};
    }
  }

  // ---------------------------------------------------------------- the tensor-info section

  /** The dims loop from one dimension on: m more versioned sizes from offset, after the dims read so far. */
  function ReadDims(data: seq<byte>, offset: nat, m: nat, version: nat, dims: seq<nat>, len: nat)
    : Result<(seq<nat>, nat), Error>
    decreases m, 1
  {
    if m == 0 then Ok((dims, len)) else ReadDimsFrom(data, offset, m, version, dims, len)
  }

  /** A pass of the dims loop with m > 0 sizes still to read. */
  function ReadDimsFrom(data: seq<byte>, offset: nat, m: nat, version: nat, dims: seq<nat>, len: nat)
    : Result<(seq<nat>, nat), Error>
    requires m > 0
    decreases m, 0
  {
    match ReadVersionSize(data, offset, version)
    case Err(e) => Err(e)
    case Ok((d, w)) => ReadDims(data, offset + w, m - 1, version, dims + [d], len + w)
  }

  /** m dims take m size fields of the version's width, all inside the data. */
  lemma {:induction false} ReadDimsLength(data: seq<byte>, offset: nat, m: nat, version: nat, dims: seq<nat>, len: nat)
    requires ReadDims(data, offset, m, version, dims, len).Ok?
    ensures var r := ReadDims(data, offset, m, version, dims, len).value;
      |r.0| == |dims| + m && r.1 == len + m * VersionWidth(version)
    ensures m > 0 ==> offset + m * VersionWidth(version) <= |data|
    decreases m
  {
    if m > 0 {
      var w := VersionWidth(version);
      var d := ReadVersionSize(data, offset, version).value.0;
      ReadDimsLength(data, offset + w, m - 1, version, dims + [d], len + w);
      assert w + (m - 1) * w == m * w;
    }
  }

  /** The dims read are the dims before them followed by the m sizes stored back to back at offset. */
  lemma {:induction false} ReadDimsValues(data: seq<byte>, offset: nat, m: nat, version: nat, dims: seq<nat>, len: nat, j: nat)
    requires ReadDims(data, offset, m, version, dims, len).Ok? && j < |dims| + m
    ensures var w := VersionWidth(version);
      var got := ReadDims(data, offset, m, version, dims, len).value.0;
      && |got| == |dims| + m
      && (j < |dims| ==> got[j] == dims[j])
      && (|dims| <= j ==> offset + (j - |dims| + 1) * w <= |data| && got[j] == LEAt(data, offset + (j - |dims|) * w, w))
    decreases m
  {
    var w := VersionWidth(version);
    if m > 0 {
      var d := ReadVersionSize(data, offset, version).value.0;
      ReadDimsValues(data, offset + w, m - 1, version, dims + [d], len + w, j);
      if |dims| < j {
        assert offset + w + (j - |dims| - 1) * w == offset + (j - |dims|) * w;
        assert offset + w + (j - |dims|) * w == offset + (j - |dims| + 1) * w;
      }
    }
  }

  /** One pass of the tensor loop: name, u32 dimension count, the dims, u32 type, u64 offset. */
  function ReadTensorInfo(data: seq<byte>, offset: nat, version: nat): Result<(TensorDesc, nat), Error>
  {
    var (name, nl) :- ReadString(data, offset, version);
    var nDims :- ReadItem(data, offset + nl, 4);
    var (dims, dl) :- ReadDims(data, offset + nl + 4, nDims, version, [], 0);
    var ggmlType :- ReadItem(data, offset + nl + 4 + dl, 4);
    var tensorOffset :- ReadItem(data, offset + nl + 4 + dl + 4, 8);
    Ok((TensorDesc(name, dims, ggmlType, tensorOffset), nl + 4 + dl + 12))
  }

  /** The tensor loop from one tensor on: m more descriptors from offset, after those read so far. */
  function ReadTensorInfos(data: seq<byte>, offset: nat, m: nat, version: nat, tensors: seq<TensorDesc>, len: nat)
    : (r: Result<(seq<TensorDesc>, nat), Error>)
    ensures r.Ok? ==> |r.value.0| == |tensors| + m
    decreases m, 1
  {
    if m == 0 then Ok((tensors, len)) else ReadTensorInfosFrom(data, offset, m, version, tensors, len)
  }

  /** A pass of the tensor loop with m > 0 descriptors still to read. */
  function ReadTensorInfosFrom(data: seq<byte>, offset: nat, m: nat, version: nat, tensors: seq<TensorDesc>, len: nat)
    : (r: Result<(seq<TensorDesc>, nat), Error>)
    requires m > 0
    ensures r.Ok? ==> |r.value.0| == |tensors| + m
    decreases m, 0
  {
    match ReadTensorInfo(data, offset, version)
    case Err(e) => Err(e)
    case Ok((t, l)) => ReadTensorInfos(data, offset + l, m - 1, version, tensors + [t], len + l)
  }

  /** The inner loop of the tensor loop: n versioned sizes from start. */
  method ReadTensorDims(data: seq<byte>, start: nat, n: nat, version: nat) returns (r: Result<(seq<nat>, nat), Error>)
    ensures r == ReadDims(data, start, n, version, [], 0)
  {
    ghost var whole := ReadDims(data, start, n, version, [], 0);
    var offs := start;
    var dims: seq<nat> := [];
    var j := 0;
    while j < n
      invariant j <= n && start <= offs
      invariant whole == ReadDims(data, offs, n - j, version, dims, offs - start)
      decreases n - j
    {
      var dim :- ReadVersionSize(data, offs, version);
      offs := offs + dim.1;
      dims := dims + [dim.0];
      j := j + 1;
    }
    return Ok((dims, offs - start));
  }

  /** One pass of the tensor loop of parse_gguf. */
  method ReadTensorDesc(data: seq<byte>, offset: nat, version: nat) returns (r: Result<(TensorDesc, nat), Error>)
    ensures r == ReadTensorInfo(data, offset, version)
  {
    var name :- ReadString(data, offset, version);
    var nDims :- ReadItem(data, offset + name.1, 4);
    var dims :- ReadTensorDims(data, offset + name.1 + 4, nDims, version);
    var ggmlType :- ReadItem(data, offset + name.1 + 4 + dims.1, 4);
    var tensorOffset :- ReadItem(data, offset + name.1 + 4 + dims.1 + 4, 8);
    return Ok((TensorDesc(name.0, dims.0, ggmlType, tensorOffset), name.1 + 4 + dims.1 + 12));
  }

  // ---------------------------------------------------------------- parse_gguf

  /** The two counts after the version, with the offset of the key-value section. */
  function ReadCounts(data: seq<byte>, version: nat): (r: Result<(nat, nat, nat), Error>)
    ensures r.Ok? ==> r.value.2 == 8 + 2 * VersionWidth(version) <= |data|
    ensures r.Ok? ==> ReadVersionSize(data, 8, version) == Ok((r.value.0, VersionWidth(version)))
    ensures r.Ok? ==> ReadVersionSize(data, 8 + VersionWidth(version), version) == Ok((r.value.1, VersionWidth(version)))
  {
    var (tensorCount, w1) :- ReadVersionSize(data, 8, version);
    var (kvCount, w2) :- ReadVersionSize(data, 8 + w1, version);
    Ok((tensorCount, kvCount, 8 + w1 + w2))
  }

  /** The key-value section as the dictionary it fills. */
  function MapOf(r: Result<(seq<Entry>, nat), Error>): Result<(map<seq<byte>, Value>, nat), Error>
  {
    match r
    case Err(e) => Err(e)
    case Ok((es, len)) => Ok((EntriesToMap(es), len))
  }

  /** parse_gguf on the bytes of the file. */
  function Parse(data: seq<byte>): (r: Result<Gguf, Error>)
  {
    var magic :- ReadMagic(data);
    var version :- ReadFileVersion(data);
    var counts :- ReadCounts(data, version);
    ParseSections(data, version, counts)
  }

  /** The key-value section of n pairs from start, as the dictionary it fills and its length. */
  function KvSection(data: seq<byte>, start: nat, n: nat, version: nat): Result<(map<seq<byte>, Value>, nat), Error>
  {
    MapOf(ReadKvs(data, start, n, version, [], 0))
  }

  /** The tensor-info section of n descriptors from start, and its length. */
  function TensorSection(data: seq<byte>, start: nat, n: nat, version: nat): Result<(seq<TensorDesc>, nat), Error>
  {
    ReadTensorInfos(data, start, n, version, [], 0)
  }

  /** The key-value section and the tensor-info section after the header. */
  function ParseSections(data: seq<byte>, version: nat, counts: (nat, nat, nat)): Result<Gguf, Error>
  {
    var (tensorCount, kvCount, kvStart) := counts;
    var (metadata, kvLen) :- KvSection(data, kvStart, kvCount, version);
    var (tensors, tLen) :- TensorSection(data, kvStart + kvLen, tensorCount, version);
    Ok(Gguf(version, tensorCount, kvCount, metadata, tensors, kvStart + kvLen + tLen))
  }

  /** A parsed file starts with b'GGUF' and a version 1-3, and holds every tensor it announces. */
  lemma ParseHeader(data: seq<byte>)
    requires Parse(data).Ok?
    ensures |data| >= 8 && data[..4] == MAGIC
    ensures Parse(data).value.version == LEAt(data, 4, 4) && CheckVersion(Parse(data).value.version)
    ensures |Parse(data).value.tensors| == Parse(data).value.tensorCount
    ensures |Parse(data).value.metadata.Keys| <= Parse(data).value.kvCount
  {
    var version := ReadFileVersion(data).value;
    var (tensorCount, kvCount, kvStart) := ReadCounts(data, version).value;
    EntriesToMapSize(ReadKvs(data, kvStart, kvCount, version, [], 0).value.0);
  }

  /** A file whose first four bytes are text other than b'GGUF' is refused as not GGUF. */
  lemma ParseRejectsForeignMagic(data: seq<byte>)
    requires |data| >= 4 && ValidUtf8(data[..4]) && data[..4] != MAGIC
    ensures Parse(data) == Err(NotGguf)
  {
  }

  /** The keys of the parsed metadata are the keys of the pairs read, the last pair of a key winning. */
  lemma ParseMetadata(data: seq<byte>, key: seq<byte>)
    requires Parse(data).Ok?
    ensures var version := ReadFileVersion(data).value;
      var (tensorCount, kvCount, kvStart) := ReadCounts(data, version).value;
      var es := ReadKvs(data, kvStart, kvCount, version, [], 0).value.0;
      && Parse(data).value.metadata == EntriesToMap(es)
      && (key in Parse(data).value.metadata <==> exists i :: 0 <= i < |es| && es[i].0 == key)
  {
    var version := ReadFileVersion(data).value;
    var (tensorCount, kvCount, kvStart) := ReadCounts(data, version).value;
    EntriesToMapKeys(ReadKvs(data, kvStart, kvCount, version, [], 0).value.0, key);
  }

  /** The key-value loop's invariant: what is left of the loop, after `entries`, reads `whole`. */
  ghost predicate KvsRemain(whole: Result<(seq<Entry>, nat), Error>, data: seq<byte>, offs: nat, left: nat,
                            version: nat, entries: seq<Entry>, len: nat)
  {
    whole == ReadKvs(data, offs, left, version, entries, len)
  }

  /** One pass of the key-value loop, with `left` pairs still to read from offs. */
  method KvPass(ghost whole: Result<(seq<Entry>, nat), Error>, data: seq<byte>, offs: nat, left: nat,
                version: nat, ghost entries: seq<Entry>, len: nat) returns (r: Result<(Entry, nat), Error>)
    requires left > 0 && KvsRemain(whole, data, offs, left, version, entries, len)
    ensures r.Err? ==> whole == Err(r.error)
    ensures r.Ok? ==> KvsRemain(whole, data, offs + r.value.1, left - 1, version, entries + [r.value.0], len + r.value.1)
  {
    assert whole == ReadKvsFrom(data, offs, left, version, entries, len);
    r := ReadKvPair(data, offs, version);
  }

  /** The key-value loop of parse_gguf: n pairs from start, each stored as metadata[key] = value. */
  method ReadKvSection(data: seq<byte>, start: nat, n: nat, version: nat)
    returns (r: Result<(map<seq<byte>, Value>, nat), Error>)
    ensures r == KvSection(data, start, n, version)
  {
    var metadata: map<seq<byte>, Value> := map[];
    ghost var entries: seq<Entry> := [];
    ghost var whole := ReadKvs(data, start, n, version, [], 0);
    var offs := start;
    var left := n;
    while left > 0
      invariant start <= offs
      invariant KvsRemain(whole, data, offs, left, version, entries, offs - start)
      invariant metadata == EntriesToMap(entries)
    {
      var kv :- KvPass(whole, data, offs, left, version, entries, offs - start);
      metadata := metadata[kv.0.0 := kv.0.1];
      entries := entries + [kv.0];
      offs := offs + kv.1;
      left := left - 1;
    }
    return Ok((metadata, offs - start));
  }

  /** The tensor loop's invariant: what is left of the loop, after `tensors`, reads `whole`. */
  ghost predicate TensorsRemain(whole: Result<(seq<TensorDesc>, nat), Error>, data: seq<byte>, offs: nat, left: nat,
                                version: nat, tensors: seq<TensorDesc>, len: nat)
  {
    whole == ReadTensorInfos(data, offs, left, version, tensors, len)
  }

  /** One pass of the tensor loop, with `left` descriptors still to read from offs. */
  method TensorPass(ghost whole: Result<(seq<TensorDesc>, nat), Error>, data: seq<byte>, offs: nat, left: nat,
                    version: nat, tensors: seq<TensorDesc>, len: nat) returns (r: Result<(TensorDesc, nat), Error>)
    requires left > 0 && TensorsRemain(whole, data, offs, left, version, tensors, len)
    ensures r.Err? ==> whole == Err(r.error)
    ensures r.Ok? ==> TensorsRemain(whole, data, offs + r.value.1, left - 1, version, tensors + [r.value.0], len + r.value.1)
  {
    assert whole == ReadTensorInfosFrom(data, offs, left, version, tensors, len);
    r := ReadTensorDesc(data, offs, version);
  }

  /** The tensor loop of parse_gguf: n tensor descriptors from start. */
  method ReadTensorSection(data: seq<byte>, start: nat, n: nat, version: nat)
    returns (r: Result<(seq<TensorDesc>, nat), Error>)
    ensures r == TensorSection(data, start, n, version)
  {
    var tensors: seq<TensorDesc> := [];
    ghost var whole := ReadTensorInfos(data, start, n, version, [], 0);
    var offs := start;
    var left := n;
    while left > 0
      invariant start <= offs
      invariant TensorsRemain(whole, data, offs, left, version, tensors, offs - start)
    {
      var t :- TensorPass(whole, data, offs, left, version, tensors, offs - start);
      tensors := tensors + [t.0];
      offs := offs + t.1;
      left := left - 1;
    }
    return Ok((tensors, offs - start));
  }

  /** parse_gguf: the header, then the key-value loop filling the dictionary, then the tensor loop. */
  method ParseGguf(data: seq<byte>) returns (r: Result<Gguf, Error>)
    ensures r == Parse(data)
  {
    var magic :- ReadMagic(data);
    var version :- ReadFileVersion(data);
    var counts :- ReadCounts(data, version);
    r := ReadSections(data, version, counts);
  }

  /** The two loops of parse_gguf, filling the dictionary and the tensor list. */
  method ReadSections(data: seq<byte>, version: nat, counts: (nat, nat, nat)) returns (r: Result<Gguf, Error>)
    ensures r == ParseSections(data, version, counts)
  {
    var kv :- ReadKvSection(data, counts.2, counts.1, version);
    var ts :- ReadTensorSection(data, counts.2 + kv.1, counts.0, version);
    return Ok(Gguf(version, counts.0, counts.1, kv.0, ts.0, counts.2 + kv.1 + ts.1));
  }
}
