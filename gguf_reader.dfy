/**
 * The Python GGUF decoder (code_test/test1/gguf_reader.py): reads a GGUF container from a
 * byte buffer with a running offset.  Every read returns the decoded value together with the
 * number of bytes it consumed, or the exception the Python code would raise.
 */
module GgufReader {
  import opened Wrappers
  import opened Bytes

  // GGUFValueType
  const UINT8: nat := 0
  const INT8: nat := 1
  const UINT16: nat := 2
  const INT16: nat := 3
  const UINT32: nat := 4
  const INT32: nat := 5
  const FLOAT32: nat := 6
  const BOOL: nat := 7
  const STRING: nat := 8
  const ARRAY: nat := 9
  const UINT64: nat := 10
  const INT64: nat := 11
  const FLOAT64: nat := 12

  /** The exception (or exit) that ends decoding. */
  datatype Error =
    | EmptyFile           // np.memmap refuses an empty file (ValueError)
    | NotGguf             // the magic is not b'GGUF': sys.exit(1)
    | UnsupportedVersion  // ValueError on the version
    | ViewError           // a byte window whose length is not a multiple of the item size
    | IndexError          // [0] taken of an empty window
    | UnicodeError        // the string bytes are not UTF-8
    | UnsupportedType     // ValueError on an unknown value-type tag
    | MissingArgument     // TypeError: data_get called without its dtype

  /** The NumPy scalar types the reader views bytes as. */
  datatype DType = UInt8 | Int8 | UInt16 | Int16 | UInt32 | Int32 | Float32 | UInt64 | Int64 | Float64

  /**
   * A decoded metadata value: a NumPy scalar (its type and the little-endian reading of its
   * bytes, which is the bit pattern for the float types), a decoded string or a list.
   */
  datatype Value =
    | Num(dtype: DType, bits: nat)
    | Str(text: seq<byte>)
    | Arr(elems: seq<Value>)

  /** One tensor descriptor of the tensor-info section. */
  datatype TensorDesc = TensorDesc(name: seq<byte>, dims: seq<nat>, ggmlType: nat, offset: nat)

  /** Everything parse_gguf decodes, in the order the file stores it. */
  datatype Gguf = Gguf(
    version: nat,
    tensorCount: nat,
    kvCount: nat,
    metadata: map<seq<byte>, Value>,
    tensors: seq<TensorDesc>,
    end: nat)

  // ---------------------------------------------------------------- check_version

  /** check_version: the versions the reader accepts. */
  predicate CheckVersion(version: int)
  {
    version == 1 || version == 2 || version == 3
  }

  /** Width in bytes of a count or length field: 4 for version 1, 8 otherwise. */
  function VersionWidth(version: nat): nat
  {
    if version == 1 then 4 else 8
  }

  // ---------------------------------------------------------------- data_get

  /**
   * data_get(data, offset, dtype): the window data[offset : offset + size] viewed as items
   * of `size` bytes (every call site passes the default count of one).  A window cut short
   * by the end of the data cannot be viewed unless it is empty, which gives no item.
   */
  function DataGet(data: seq<byte>, offset: nat, size: nat): (r: Result<seq<nat>, Error>)
    requires size > 0
    ensures r.Ok? ==> |r.value| <= 1 && forall k :: 0 <= k < |r.value| ==> r.value[k] < Pow256(size)
    ensures r.Ok? && r.value != [] <==> offset + size <= |data|
  {
    if offset + size <= |data| then Ok([LEAt(data, offset, size)])
    else if offset < |data| then Err(ViewError)
    else Ok([])
  }

  /** A whole window gives its one item, a partial window fails, a window past the end is empty. */
  lemma DataGetWindow(data: seq<byte>, offset: nat, size: nat)
    requires size > 0
    ensures offset + size <= |data| ==> DataGet(data, offset, size) == Ok([LittleEndian(data[offset .. offset + size])])
    ensures offset < |data| < offset + size ==> DataGet(data, offset, size) == Err(ViewError)
    ensures |data| <= offset ==> DataGet(data, offset, size) == Ok([])
  {
    if offset + size <= |data| { LEAtWindow(data, offset, size); }
  }

  /** data_get(data, offset, dtype)[0]: one item, or the exception of an empty or partial window. */
  function ReadItem(data: seq<byte>, offset: nat, size: nat): (r: Result<nat, Error>)
    requires size > 0
    ensures r.Ok? <==> offset + size <= |data|
    ensures r.Ok? ==> r.value < Pow256(size)
  {
    if offset + size <= |data| then Ok(LEAt(data, offset, size))
    else if offset < |data| then Err(ViewError)
    else Err(IndexError)
  }

  /** ReadItem is data_get followed by taking item 0. */
  lemma ReadItemIsFirstItem(data: seq<byte>, offset: nat, size: nat)
    requires size > 0
    ensures ReadItem(data, offset, size) == (
      match DataGet(data, offset, size)
      case Err(e) => Err(e)
      case Ok(items) => if |items| == 0 then Err(IndexError) else Ok(items[0]))
  {
  }

  /**
   * An item reads exactly when its whole window lies in the data, as the little-endian number
   * the window holds; an empty window fails on the index, a partial one on the view.
   */
  lemma ReadItemWindow(data: seq<byte>, offset: nat, size: nat)
    requires size > 0
    ensures ReadItem(data, offset, size).Ok? <==> offset + size <= |data|
    ensures ReadItem(data, offset, size).Ok? ==>
      ReadItem(data, offset, size).value == LittleEndian(data[offset .. offset + size]) < Pow256(size)
    ensures |data| <= offset ==> ReadItem(data, offset, size) == Err(IndexError)
    ensures offset < |data| < offset + size ==> ReadItem(data, offset, size) == Err(ViewError)
  {
    if offset + size <= |data| { LEAtWindow(data, offset, size); }
  }

  // ---------------------------------------------------------------- data_read_version_size

  /** data_read_version_size: a u32 for version 1, a u64 for versions 2 and 3, with its width. */
  function ReadVersionSize(data: seq<byte>, offset: nat, version: nat): Result<(nat, nat), Error>
  {
    if !CheckVersion(version) then Err(UnsupportedVersion)
    else
      var n :- ReadItem(data, offset, VersionWidth(version));
      Ok((n, VersionWidth(version)))
  }

  /**
   * A size field of a supported version reads as the little-endian number in its 4 or 8
   * bytes when they lie in the data; any other version is refused.
   */
  lemma ReadVersionSizeWindow(data: seq<byte>, offset: nat, version: nat)
    ensures !CheckVersion(version) ==> ReadVersionSize(data, offset, version) == Err(UnsupportedVersion)
    ensures ReadVersionSize(data, offset, version).Ok? <==>
      CheckVersion(version) && offset + VersionWidth(version) <= |data|
    ensures ReadVersionSize(data, offset, version).Ok? ==>
      ReadVersionSize(data, offset, version).value
      == (LittleEndian(data[offset .. offset + VersionWidth(version)]), VersionWidth(version))
  {
    ReadItemWindow(data, offset, VersionWidth(version));
  }

  /** The versions check_version accepts are exactly those whose length fields can be read. */
  lemma CheckVersionReadable(data: seq<byte>, offset: nat, version: nat)
    requires offset + 8 <= |data|
    ensures CheckVersion(version) <==> ReadVersionSize(data, offset, version).Ok?
  {
  }

  // ---------------------------------------------------------------- UTF-8

  predicate Cont(b: byte) { 0x80 <= b <= 0xBF }

  /**
   * The length of the well-formed UTF-8 character s begins with, 0 when it begins with
   * none (Table 3-7 of the Unicode Standard, which Python's strict 'utf-8' codec follows:
   * no overlong forms, no surrogates, nothing above U+10FFFF).
   */
  function LeadLen(s: seq<byte>): (k: nat)
    ensures k <= |s| && k <= 4
  {
    if s == [] then 0
    else if s[0] < 0x80 then 1
    else if 0xC2 <= s[0] <= 0xDF then
      (if |s| >= 2 && Cont(s[1]) then 2 else 0)
    else if s[0] == 0xE0 then
      (if |s| >= 3 && 0xA0 <= s[1] <= 0xBF && Cont(s[2]) then 3 else 0)
    else if (0xE1 <= s[0] <= 0xEC) || (0xEE <= s[0] <= 0xEF) then
      (if |s| >= 3 && Cont(s[1]) && Cont(s[2]) then 3 else 0)
    else if s[0] == 0xED then
      (if |s| >= 3 && 0x80 <= s[1] <= 0x9F && Cont(s[2]) then 3 else 0)
    else if s[0] == 0xF0 then
      (if |s| >= 4 && 0x90 <= s[1] <= 0xBF && Cont(s[2]) && Cont(s[3]) then 4 else 0)
    else if 0xF1 <= s[0] <= 0xF3 then
      (if |s| >= 4 && Cont(s[1]) && Cont(s[2]) && Cont(s[3]) then 4 else 0)
    else if s[0] == 0xF4 then
      (if |s| >= 4 && 0x80 <= s[1] <= 0x8F && Cont(s[2]) && Cont(s[3]) then 4 else 0)
    else 0
  }

  /** Well-formed UTF-8: a sequence of well-formed characters. */
  predicate ValidUtf8(s: seq<byte>)
    decreases |s|, 1
  {
    s == [] || Utf8Char(s)
  }

  /** A non-empty s begins with a well-formed character and continues as well-formed UTF-8. */
  predicate Utf8Char(s: seq<byte>)
    requires s != []
    decreases |s|, 0
  {
    LeadLen(s) > 0 && ValidUtf8(s[LeadLen(s)..])
  }

  /** The first character only depends on the bytes it occupies. */
  lemma LeadLenPrefix(a: seq<byte>, b: seq<byte>)
    requires LeadLen(a) > 0
    ensures LeadLen(a + b) == LeadLen(a)
  {
    var k := LeadLen(a);
    assert (a + b)[0] == a[0];
    if k >= 2 { assert (a + b)[1] == a[1]; }
    if k >= 3 { assert (a + b)[2] == a[2]; }
    if k >= 4 { assert (a + b)[3] == a[3]; }
  }

  /** Every ASCII string is valid UTF-8. */
  lemma {:induction false} AsciiIsUtf8(s: seq<byte>)
    requires forall i :: 0 <= i < |s| ==> s[i] < 0x80
    ensures ValidUtf8(s)
    decreases |s|
  {
    if s != [] { AsciiIsUtf8(s[1..]); }
  }

  /** Valid UTF-8 strings stay valid when concatenated. */
  lemma {:induction false} Utf8Concat(a: seq<byte>, b: seq<byte>)
    requires ValidUtf8(a) && ValidUtf8(b)
    ensures ValidUtf8(a + b)
    decreases |a|
  {
    if a != [] {
      var k := LeadLen(a);
      LeadLenPrefix(a, b);
      assert (a + b)[k..] == a[k..] + b;
      Utf8Concat(a[k..], b);
    } else {
      assert a + b == b;
    }
  }

  // ---------------------------------------------------------------- data_read_string

  /**
   * data_read_string: a versioned length n, then the UTF-8 text of the bytes after it.  A
   * length running past the end of the data gives the shorter text; the reported length is
   * still the width of the length field plus n.
   */
  function ReadString(data: seq<byte>, offset: nat, version: nat): (r: Result<(seq<byte>, nat), Error>)
    ensures r.Ok? ==> ValidUtf8(r.value.0) && r.value.1 >= 4
  {
    var (n, w) :- ReadVersionSize(data, offset, version);
    var text := Window(data, offset + w, if offset + w + n <= |data| then offset + w + n else |data|);
    if !ValidUtf8(text) then Err(UnicodeError) else Ok((text, w + n))
  }

  /**
   * A string read is its length field followed by the text: the length counts the field
   * and all n announced bytes, the text is those of them the data holds.
   */
  lemma ReadStringLayout(data: seq<byte>, offset: nat, version: nat)
    requires ReadString(data, offset, version).Ok?
    ensures CheckVersion(version) && offset + VersionWidth(version) <= |data|
    ensures var n := LEAt(data, offset, VersionWidth(version));
      var r := ReadString(data, offset, version).value;
      && r.1 == VersionWidth(version) + n
      && r.0 == Slice(data, offset + VersionWidth(version), offset + VersionWidth(version) + n)
  {
    StringText(data, offset, version);
  }

  /** A string read fails only on a bad version, a cut-off length field or text that is not UTF-8. */
  lemma ReadStringFails(data: seq<byte>, offset: nat, version: nat)
    requires ReadString(data, offset, version).Err?
    ensures ReadString(data, offset, version).error == UnicodeError
      || !CheckVersion(version) || offset + VersionWidth(version) > |data|
  {
  }

  /** A length field and text that fit in the data read back as that text. */
  lemma ReadStringOf(data: seq<byte>, offset: nat, version: nat)
    requires CheckVersion(version) && offset + VersionWidth(version) <= |data|
    requires var n := LEAt(data, offset, VersionWidth(version));
      ValidUtf8(Slice(data, offset + VersionWidth(version), offset + VersionWidth(version) + n))
    ensures ReadString(data, offset, version).Ok?
  {
    StringText(data, offset, version);
  }

  /** The text ReadString checks is the slice of the announced bytes the data holds. */
  lemma StringText(data: seq<byte>, offset: nat, version: nat)
    requires CheckVersion(version) && offset + VersionWidth(version) <= |data|
    ensures var w := VersionWidth(version);
      var n := LEAt(data, offset, w);
      var hi := if offset + w + n <= |data| then offset + w + n else |data|;
      Window(data, offset + w, hi) == Slice(data, offset + w, offset + w + n)
  {
    var w := VersionWidth(version);
    var n := LEAt(data, offset, w);
    WindowIsSlice(data, offset + w, if offset + w + n <= |data| then offset + w + n else |data|);
  }

  // ---------------------------------------------------------------- readMetadataValue

  /** The byte width of a fixed-size value tag, 0 for STRING, ARRAY and unknown tags. */
  function ScalarWidth(tag: nat): nat
  {
    if tag == UINT8 || tag == INT8 || tag == BOOL then 1
    else if tag == UINT16 || tag == INT16 then 2
    else if tag == UINT32 || tag == INT32 || tag == FLOAT32 then 4
    else if tag == UINT64 || tag == INT64 || tag == FLOAT64 then 8
    else 0
  }

  /** The NumPy type a fixed-size tag is viewed as; BOOL is read as np.uint8. */
  function NumType(tag: nat): DType
    requires ScalarWidth(tag) > 0
  {
    if tag == UINT8 || tag == BOOL then UInt8
    else if tag == INT8 then Int8
    else if tag == UINT16 then UInt16
    else if tag == INT16 then Int16
    else if tag == UINT32 then UInt32
    else if tag == INT32 then Int32
    else if tag == FLOAT32 then Float32
    else if tag == UINT64 then UInt64
    else if tag == INT64 then Int64
    else Float64
  }

  /** The item size of a NumPy type. */
  function ItemSize(d: DType): nat
  {
    match d
    case UInt8 | Int8 => 1
    case UInt16 | Int16 => 2
    case UInt32 | Int32 | Float32 => 4
    case UInt64 | Int64 | Float64 => 8
  }

  /** The integer a stored integer scalar denotes: two's complement for the signed types. */
  function IntOf(d: DType, bits: nat): (r: int)
    requires d != Float32 && d != Float64 && bits < Pow256(ItemSize(d))
    ensures d in {UInt8, UInt16, UInt32, UInt64} ==> r == bits
    ensures d in {Int8, Int16, Int32, Int64} ==>
      -(Pow2(8 * ItemSize(d) - 1) as int) <= r < Pow2(8 * ItemSize(d) - 1)
  {
    Pow256IsPow2(ItemSize(d));
    match d
    case Int8 | Int16 | Int32 | Int64 => ToSigned(bits, 8 * ItemSize(d))
    case _ => bits
  }

  /**
   * readMetadataValue with the UINT8 and INT8 branches reading one byte at the offset, as
   * the other scalar branches do (see the as-written reading, ReadByteAsWritten).
   */
  function ReadValue(data: seq<byte>, tag: nat, offset: nat, version: nat): (r: Result<(Value, nat), Error>)
    ensures r.Ok? ==> r.value.1 >= 1 && offset < |data|
    ensures ScalarWidth(tag) > 0 ==> (r.Ok? <==> offset + ScalarWidth(tag) <= |data|)
    ensures ScalarWidth(tag) > 0 && offset + ScalarWidth(tag) <= |data| ==>
              r == Ok((Num(NumType(tag), LEAt(data, offset, ScalarWidth(tag))), ItemSize(NumType(tag))))
    ensures tag > FLOAT64 ==> r == Err(UnsupportedType)
    decreases |data| - offset, 1
  {
    if ScalarWidth(tag) > 0 then
      var u :- ReadItem(data, offset, ScalarWidth(tag));
      Ok((Num(NumType(tag), u), ScalarWidth(tag)))
    else if tag == STRING then
      var (text, len) :- ReadString(data, offset, version);
      assert len >= 1 by { assert VersionWidth(version) >= 4; }
      Ok((Str(text), len))
    else if tag == ARRAY then
      ReadArray(data, offset, version)
    else
      Err(UnsupportedType)
  }

  /** The ARRAY branch: a 4-byte element tag, a versioned count, then that many elements. */
  function ReadArray(data: seq<byte>, offset: nat, version: nat): (r: Result<(Value, nat), Error>)
    ensures r.Ok? ==> r.value.1 >= 1 && offset < |data|
    decreases |data| - offset, 0
  {
    var elemTag :- ReadItem(data, offset, 4);
    var (n, w) :- ReadVersionSize(data, offset + 4, version);
    ArrayOf(w, ReadElems(data, elemTag, offset + 4 + w, n, version, [], 0))
  }

  /** The array value of elements read after a w-byte count field, or the failure reading them. */
  function ArrayOf(w: nat, elems: Result<(seq<Value>, nat), Error>): (r: Result<(Value, nat), Error>)
  {
    match elems
    case Err(e) => Err(e)
    case Ok((vs, len)) => Ok((Arr(vs), 4 + w + len))
  }

  /**
   * The loop of the ARRAY branch from one element on: m more values of one tag from offset,
   * after the values already read, which took len bytes.
   */
  function ReadElems(data: seq<byte>, tag: nat, offset: nat, m: nat, version: nat, values: seq<Value>, len: nat)
    : (r: Result<(seq<Value>, nat), Error>)
    ensures r.Ok? ==> |r.value.0| == |values| + m && r.value.1 >= len + m && r.value.0[..|values|] == values
    decreases |data| - offset, 2, m
  {
    if m == 0 then Ok((values, len))
    else
      match ReadValue(data, tag, offset, version)
      case Err(e) => Err(e)
      case Ok((v, l)) => ReadElems(data, tag, offset + l, m - 1, version, values + [v], len + l)
  }

  /**
   * The values es lie back to back from offset to end: the first is read at offset, each
   * next one where the previous one ended, and the last one ends at end.
   */
  ghost predicate Consecutive(data: seq<byte>, tag: nat, offset: nat, es: seq<Value>, version: nat, end: nat)
    decreases |es|
  {
    offset <= end &&
    if es == [] then end == offset
    else
      match ReadValue(data, tag, offset, version)
      case Err(_) => false
      case Ok((v, l)) => v == es[0] && Consecutive(data, tag, offset + l, es[1..], version, end)
  }

  /** The element loop, run for |es| values after `values`, reads es and advances the length by end - offset. */
  ghost predicate ElemsRead(data: seq<byte>, tag: nat, offset: nat, es: seq<Value>, version: nat, end: nat,
                            values: seq<Value>, len: nat)
  {
    offset <= end && ReadElems(data, tag, offset, |es|, version, values, len) == Ok((values + es, len + (end - offset)))
  }

  /**
   * The element loop reads the values es, advancing the length by end - offset, exactly
   * when es lie back to back from offset to end.
   */
  lemma {:induction false} ElemsLayout(data: seq<byte>, tag: nat, offset: nat, es: seq<Value>, version: nat, end: nat,
                                       values: seq<Value>, len: nat)
    requires offset <= end
    ensures ElemsRead(data, tag, offset, es, version, end, values, len) <==> Consecutive(data, tag, offset, es, version, end)
    decreases |es|, 1
  {
    if es == [] {
      assert values + es == values;
    } else {
      match ReadValue(data, tag, offset, version)
      case Err(_) =>
        assert ReadElems(data, tag, offset, |es|, version, values, len).Err?;
      case Ok((v, l)) =>
        if v == es[0] && offset + l <= end {
          ElemsReadStep(data, tag, offset, es, version, end, values, len, v, l);
          ConsecutiveStep(data, tag, offset, es, version, end, l);
          ElemsStep(data, tag, offset, es, version, end, values, len, v, l);
        } else {
          ElemsMismatch(data, tag, offset, es, version, end, values, len, v, l);
        }
    }
  }

  /**
   * The induction step of ElemsLayout, once the first value v, of length l, has been read as es[0]:
   * both sides step to the rest of es after it.
   */
  lemma {:induction false} ElemsStep(data: seq<byte>, tag: nat, offset: nat, es: seq<Value>, version: nat, end: nat,
                                     values: seq<Value>, len: nat, v: Value, l: nat)
    requires es != [] && offset + l <= end
    requires ElemsRead(data, tag, offset, es, version, end, values, len)
             == ElemsRead(data, tag, offset + l, es[1..], version, end, values + [v], len + l)
    requires Consecutive(data, tag, offset, es, version, end) == Consecutive(data, tag, offset + l, es[1..], version, end)
    ensures ElemsRead(data, tag, offset, es, version, end, values, len) <==> Consecutive(data, tag, offset, es, version, end)
    decreases |es|, 0
  {
    var rest, next, read, len' := es[1..], offset + l, values + [v], len + l;
    ElemsLayout(data, tag, next, rest, version, end, read, len');
    IffChain(ElemsRead(data, tag, offset, es, version, end, values, len),
             ElemsRead(data, tag, next, rest, version, end, read, len'),
             Consecutive(data, tag, next, rest, version, end),
             Consecutive(data, tag, offset, es, version, end));
  }

  /** Chains two equalities of truth values and an equivalence. */
  lemma IffChain(a: bool, b: bool, c: bool, d: bool)
    requires a == b
    requires b <==> c
    requires c == d
    ensures a <==> d
  {
  }

  /** The loop reads es from offset exactly when it reads es[1..] after the first value. */
  lemma {:induction false} ElemsReadStep(data: seq<byte>, tag: nat, offset: nat, es: seq<Value>, version: nat, end: nat,
                      values: seq<Value>, len: nat, v: Value, l: nat)
    requires es != [] && ReadValue(data, tag, offset, version) == Ok((v, l)) && v == es[0] && offset + l <= end
    ensures ElemsRead(data, tag, offset, es, version, end, values, len)
            == ElemsRead(data, tag, offset + l, es[1..], version, end, values + [v], len + l)
  {
    ElemsUnfold(data, tag, offset, |es|, version, values, len, v, l);
    AppendHead(values, es);
    assert |es[1..]| == |es| - 1;
    assert len + l + (end - (offset + l)) == len + (end - offset);
  }

  /** Values lie back to back from offset exactly when the first is read there and the rest follow it. */
  lemma ConsecutiveStep(data: seq<byte>, tag: nat, offset: nat, es: seq<Value>, version: nat, end: nat, l: nat)
    requires es != [] && ReadValue(data, tag, offset, version) == Ok((es[0], l)) && offset + l <= end
    ensures Consecutive(data, tag, offset, es, version, end) == Consecutive(data, tag, offset + l, es[1..], version, end)
  {
  }

  /** One iteration of the loop: a value read at offset is appended and the rest read after it. */
  lemma ElemsUnfold(data: seq<byte>, tag: nat, offset: nat, m: nat, version: nat, values: seq<Value>, len: nat,
                    v: Value, l: nat)
    requires m > 0 && ReadValue(data, tag, offset, version) == Ok((v, l))
    ensures ReadElems(data, tag, offset, m, version, values, len)
            == ReadElems(data, tag, offset + l, m - 1, version, values + [v], len + l)
  {
  }

  /**
   * When the first value read is not es[0], or ends past end, neither the loop reads es nor
   * do es lie back to back up to end.
   */
  lemma {:induction false} ElemsMismatch(data: seq<byte>, tag: nat, offset: nat, es: seq<Value>, version: nat, end: nat,
                      values: seq<Value>, len: nat, v: Value, l: nat)
    requires es != [] && ReadValue(data, tag, offset, version) == Ok((v, l)) && !(v == es[0] && offset + l <= end)
    ensures !Consecutive(data, tag, offset, es, version, end)
    ensures !ElemsRead(data, tag, offset, es, version, end, values, len)
  {
    var rest := ReadElems(data, tag, offset + l, |es| - 1, version, values + [v], len + l);
    assert ReadElems(data, tag, offset, |es|, version, values, len) == rest;
    if v != es[0] {
      if rest.Ok? {
        PrefixAt(rest.value.0, values + [v], |values|);
        assert (values + es)[|values|] == es[0];
      }
    } else {
      ConsecutiveEnd(data, tag, offset + l, es[1..], version, end);
    }
  }

  /** Appending a non-empty sequence is appending its head, then its tail. */
  lemma AppendHead<T>(xs: seq<T>, ys: seq<T>)
    requires ys != []
    ensures xs + [ys[0]] + ys[1..] == xs + ys
  {
    assert [ys[0]] + ys[1..] == ys;
  }

  /** A sequence that starts with p holds p's elements at p's indices. */
  lemma PrefixAt<T>(xs: seq<T>, p: seq<T>, i: nat)
    requires |p| <= |xs| && xs[..|p|] == p && i < |p|
    ensures xs[i] == p[i]
  {
    assert xs[..|p|][i] == xs[i];
  }

  /** Back-to-back values never end before they start. */
  lemma ConsecutiveEnd(data: seq<byte>, tag: nat, offset: nat, es: seq<Value>, version: nat, end: nat)
    ensures Consecutive(data, tag, offset, es, version, end) ==> offset <= end
  {
  }

  /**
   * An array reads as the values es consuming `consumed` bytes exactly when its 4-byte element
   * tag and its count field lie in the data, the count is |es|, and es lie back to back from
   * the end of the count field to offset + consumed: the length is 4, plus the width of the
   * count, plus the sum of the element lengths.
   */
  lemma ArrayValue(data: seq<byte>, offset: nat, version: nat, es: seq<Value>, consumed: nat)
    ensures ReadValue(data, ARRAY, offset, version) == Ok((Arr(es), consumed))
            <==> && offset + 4 <= |data|
                 && ReadVersionSize(data, offset + 4, version).Ok?
                 && var w := ReadVersionSize(data, offset + 4, version).value.1;
                    && |es| == ReadVersionSize(data, offset + 4, version).value.0 && 4 + w <= consumed
                    && Consecutive(data, LEAt(data, offset, 4), offset + 4 + w, es, version, offset + consumed)
  {
    assert ReadValue(data, ARRAY, offset, version) == ReadArray(data, offset, version);
    if offset + 4 <= |data| && ReadVersionSize(data, offset + 4, version).Ok? {
      ArrayElems(data, offset, version, es, consumed);
    } else {
      ReadItemWindow(data, offset, 4);
    }
  }

  /** ArrayValue once the element tag and the count field are read, for the ARRAY branch itself. */
  lemma ArrayElems(data: seq<byte>, offset: nat, version: nat, es: seq<Value>, consumed: nat)
    requires offset + 4 <= |data| && ReadVersionSize(data, offset + 4, version).Ok?
    ensures var w := ReadVersionSize(data, offset + 4, version).value.1;
            ReadArray(data, offset, version) == Ok((Arr(es), consumed))
            <==> && |es| == ReadVersionSize(data, offset + 4, version).value.0 && 4 + w <= consumed
                 && Consecutive(data, LEAt(data, offset, 4), offset + 4 + w, es, version, offset + consumed)
  {
    var n := ReadVersionSize(data, offset + 4, version).value.0;
    var w := ReadVersionSize(data, offset + 4, version).value.1;
    var tag := LEAt(data, offset, 4);
    var start := offset + 4 + w;
    var elems := ReadElems(data, tag, start, n, version, [], 0);
    ReadItemWindow(data, offset, 4);
    assert ReadArray(data, offset, version) == ArrayOf(w, elems);
    if 4 + w <= consumed && |es| == n {
      ElemsFromStart(data, tag, start, es, version, offset + consumed);
    }
    assert elems.Ok? ==> |elems.value.0| == n;
    ArrayGlue(ReadArray(data, offset, version), elems, Consecutive(data, tag, start, es, version, offset + consumed),
              w, n, es, consumed);
  }

  /** ElemsLayout for the loop's first iteration, which starts with no values and no length. */
  lemma ElemsFromStart(data: seq<byte>, tag: nat, start: nat, es: seq<Value>, version: nat, end: nat)
    requires start <= end
    ensures ReadElems(data, tag, start, |es|, version, [], 0) == Ok((es, end - start))
            <==> Consecutive(data, tag, start, es, version, end)
  {
    ElemsLayout(data, tag, start, es, version, end, [], 0);
    assert [] + es == es;
  }

  /** How an array's result follows from its elements' result and their layout. */
  lemma ArrayGlue(x: Result<(Value, nat), Error>, elems: Result<(seq<Value>, nat), Error>, laid: bool,
                  w: nat, n: nat, es: seq<Value>, consumed: nat)
    requires x == ArrayOf(w, elems) && (elems.Ok? ==> |elems.value.0| == n)
    requires 4 + w <= consumed && |es| == n ==> (elems == Ok((es, consumed - 4 - w)) <==> laid)
    ensures x == Ok((Arr(es), consumed)) <==> |es| == n && 4 + w <= consumed && laid
  {
  }

  /**
   * readMetadataValue as the Python code runs it: the ARRAY branch is a loop appending each
   * element and advancing `length` by what the element consumed.
   */
  method ReadMetadataValue(data: seq<byte>, tag: nat, offset: nat, version: nat) returns (r: Result<(Value, nat), Error>)
    ensures r == ReadValue(data, tag, offset, version)
    decreases |data| - offset, 2
  {
    if ScalarWidth(tag) > 0 {
      var u :- ReadItem(data, offset, ScalarWidth(tag));
      return Ok((Num(NumType(tag), u), ScalarWidth(tag)));
    } else if tag == STRING {
      var tl :- ReadString(data, offset, version);
      assert tl.1 >= 1 by { assert VersionWidth(version) >= 4; }
      return Ok((Str(tl.0), tl.1));
    } else if tag == ARRAY {
      r := ReadMetadataArray(data, offset, version);
    } else {
      return Err(UnsupportedType);
    }
  }

  /** The ARRAY branch of readMetadataValue: element tag, element count, then the elements. */
  method ReadMetadataArray(data: seq<byte>, offset: nat, version: nat) returns (r: Result<(Value, nat), Error>)
    ensures r == ReadArray(data, offset, version)
    decreases |data| - offset, 1
  {
    var elemTag :- ReadItem(data, offset, 4);
    var nw :- ReadVersionSize(data, offset + 4, version);
    var (n, w) := nw;
    var elems := ReadMetadataElems(data, elemTag, offset + 4 + w, n, version);
    r := ArrayOf(w, elems);
  }

  /** The loop over the n elements of an array, each read with readMetadataValue. */
  method ReadMetadataElems(data: seq<byte>, tag: nat, start: nat, n: nat, version: nat)
    returns (r: Result<(seq<Value>, nat), Error>)
    ensures r == ReadElems(data, tag, start, n, version, [], 0)
    decreases |data| - start, 3
  {
    ghost var whole := ReadElems(data, tag, start, n, version, [], 0);
    var pos := start;
    var values: seq<Value> := [];
    var i := 0;
    while i < n
      invariant i <= n && start <= pos && (pos > start ==> start < |data|)
      invariant whole == ReadElems(data, tag, pos, n - i, version, values, pos - start)
      decreases n - i
    {
      var e := ReadMetadataValue(data, tag, pos, version);
      if e.Err? {
        return Err(e.error);
      }
      values := values + [e.value.0];
      pos := pos + e.value.1;
      i := i + 1;
    }
    return Ok((values, pos - start));
  }

  /**
   * The UINT8 and INT8 branches as written: data_get(data, np.uint8) and data_get(data, np.int8)
   * pass the dtype where the offset belongs and no dtype at all, so the call raises.
   */
  function ReadByteAsWritten(data: seq<byte>, tag: nat, offset: nat): (r: Result<(Value, nat), Error>)
    requires tag == UINT8 || tag == INT8
    ensures r == Err(MissingArgument)
  {
    Err(MissingArgument)
  }

  /** On a one-byte buffer the as-written byte branches raise where the one-byte read succeeds. */
  lemma UInt8BranchDiscrepancy()
    ensures ReadByteAsWritten([7], UINT8, 0).Err?
    ensures ReadByteAsWritten([0xFF], INT8, 0).Err?
    ensures ReadValue([7], UINT8, 0, 3) == Ok((Num(UInt8, 7), 1))
    ensures ReadValue([0xFF], INT8, 0, 3) == Ok((Num(Int8, 0xFF), 1)) && IntOf(Int8, 0xFF) == -1
  {
  }
}
