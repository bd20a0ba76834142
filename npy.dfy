/**
 * readMatFromNpy (src/core/mat_load.cpp): a NumPy `.npy` file, format version 1.0, holding a
 * little-endian float32 array in C order.  The file starts with the magic "\x93NUMPY", two
 * version bytes and a 2-byte header length; the header is the text of a Python dict whose
 * 'descr', 'fortran_order' and 'shape' entries are found by plain string searches.  The file
 * is a byte sequence; the float payload is kept as its bytes.
 */
module NpyLoad {
  import opened Wrappers
  import opened Bytes
  import opened Text
  import opened Shape

  const DESCR_FIELD: string := "'descr':"
  const FORTRAN_FIELD: string := "'fortran_order':"
  const SHAPE_FIELD: string := "'shape':"

  // ---------------------------------------------------------------- the three header fields

  /**
   * getType: the text between the first two single quotes after 'descr':, or None when the
   * field is missing (the M_Assert).  A missing quote makes `find` give -1, so the text starts
   * at 0 or runs to the end, as the int arithmetic on npos does.
   */
  function GetType(h: string): Option<string>
  {
    var idx := FindSub(h, DESCR_FIELD, 0);
    if idx == -1 then None
    else
      var from := FindFrom(h, '\'', idx + |DESCR_FIELD|) + 1;
      var to := FindFrom(h, '\'', from);
      Some(Substr(h, from, to - from))
  }

  /**
   * getFortranOrder: the text after the last blank at or before the end of the field name,
   * up to the next comma; None when the field is missing.
   */
  function GetFortranOrder(h: string): Option<string>
  {
    var idx := FindSub(h, FORTRAN_FIELD, 0);
    if idx == -1 then None
    else
      var from := FindLastOf(h, ' ', idx + |FORTRAN_FIELD|) + 1;
      var to := FindFrom(h, ',', from);
      Some(Substr(h, from, to - from))
  }

  /** getShape's shapeStr: the text between the '(' after 'shape': and the next ')'. */
  function ShapeText(h: string): Option<string>
  {
    var idx := FindSub(h, SHAPE_FIELD, 0);
    if idx == -1 then None
    else
      var from := FindFrom(h, '(', idx + |SHAPE_FIELD|) + 1;
      var to := FindFrom(h, ')', from);
      Some(Substr(h, from, to - from))
  }

  // ---------------------------------------------------------------- reading ints from a stream

  /** isspace in the "C" locale. */
  predicate IsSpace(c: char)
  {
    c == ' ' || c == '\t' || c == '\n' || c == '\r' || c as int == 11 || c as int == 12
  }

  predicate IsDigit(c: char)
  {
    '0' <= c <= '9'
  }

  /** The number of leading digits. */
  function DigitCount(t: string): (n: nat)
    ensures n <= |t| && (n < |t| ==> !IsDigit(t[n]))
  {
    if t != [] && IsDigit(t[0]) then 1 + DigitCount(t[1..]) else 0
  }

  /** The digits DigitCount counts are digits. */
  lemma {:induction false} DigitCountDigits(t: string)
    ensures forall i :: 0 <= i < DigitCount(t) ==> '0' <= t[i] <= '9'
  {
    if t != [] && IsDigit(t[0]) {
      DigitCountDigits(t[1..]);
      forall i | 1 <= i < DigitCount(t) ensures '0' <= t[i] <= '9' {
        assert t[i] == t[1..][i - 1];
      }
    }
  }

  const INT_MIN: int := -0x8000_0000
  const INT_MAX: int := 0x7fff_ffff

  /** An optional sign, then the longest run of digits, from a text not starting with white space. */
  function ExtractNumber(u: string): (r: Option<(int, string)>)
    ensures r.Some? ==> |r.value.1| < |u|
  {
    var signed := u != [] && (u[0] == '-' || u[0] == '+');
    var d := if signed then u[1..] else u;
    var n := DigitCount(d);
    if n == 0 then None
    else
      DigitCountDigits(d);
      var magnitude := DigitsValue(d[..n]);
      var v := if signed && u[0] == '-' then 0 - magnitude else magnitude;
      if INT_MIN <= v <= INT_MAX then Some((v, d[n..])) else None
  }

  /**
   * `ss >> value` for an int: skip white space, an optional sign, then the longest run of
   * digits.  It fails (None) without digits or when the number does not fit an int; on
   * success it gives the number and the text after its last digit.
   */
  function ExtractInt(t: string): (r: Option<(int, string)>)
    ensures r.Some? ==> |r.value.1| < |t|
  {
    if t != [] && IsSpace(t[0]) then ExtractInt(t[1..]) else ExtractNumber(t)
  }

  /** Every int `while (ss >> value)` reads, in order, until the first failed extraction. */
  function ParseInts(t: string): seq<int>
    decreases |t|
  {
    match ExtractInt(t)
    case None => []
    case Some((v, rest)) => [v] + ParseInts(rest)
  }

  /** std::remove of every c, then erase: the text without its c characters, in order. */
  function RemoveChar(t: string, c: char): (r: string)
    ensures c !in r && |r| <= |t|
  {
    if t == [] then [] else (if t[0] == c then [] else [t[0]]) + RemoveChar(t[1..], c)
  }

  /** getShape as a value: [1] for the empty shape text, else the ints it lists. */
  function ShapeOf(h: string): Option<seq<int>>
  {
    match ShapeText(h)
    case None => None
    case Some(s) => if s == [] then Some([1]) else Some(ParseInts(RemoveChar(s, ',')))
  }

  /** One extraction of the `while (ss >> value)` loop. */
  lemma ParseIntsStep(t: string)
    ensures ExtractInt(t).None? ==> ParseInts(t) == []
    ensures ExtractInt(t).Some? ==>
              ParseInts(t) == [ExtractInt(t).value.0] + ParseInts(ExtractInt(t).value.1)
  {
  }

  /** The `while (ss >> value) shape.push_back(value)` loop. */
  method ExtractAll(text: string) returns (shape: seq<int>)
    ensures shape == ParseInts(text)
  {
    var ss := text;
    shape := [];
    var next := ExtractInt(ss);
    while next.Some?
      invariant next == ExtractInt(ss)
      invariant shape + ParseInts(ss) == ParseInts(text)
      decreases |ss|
    {
      ParseIntsStep(ss);
      assert shape + ParseInts(ss) == (shape + [next.value.0]) + ParseInts(next.value.1);
      shape := shape + [next.value.0];
      ss := next.value.1;
      next := ExtractInt(ss);
    }
    ParseIntsStep(ss);
    assert shape + [] == shape;
  }

  /** getShape: [1] for an empty shape text, else every int the text lists, commas removed. */
  method GetShape(h: string) returns (r: Option<seq<int>>)
    ensures r == ShapeOf(h)
  {
    var text := ShapeText(h);
    if text.None? {
      return None;
    }
    if text.value == [] {
      return Some([1]);
    }
    var shape := ExtractAll(RemoveChar(text.value, ','));
    r := Some(shape);
  }

  // ---------------------------------------------------------------- what the getters read back

  /**
   * Where `pre`, then `body`, then `close` occur at k and `body` holds no `close`, the next
   * `close` after `pre` ends `body`, and the text in between is `body`.
   */
  lemma Delimited(h: string, k: nat, pre: string, body: string, close: char)
    requires OccursAt(h, pre + body + [close], k)
    requires close !in body
    ensures k + |pre| + |body| < |h|
    ensures forall j :: 0 <= j < |pre| ==> h[k + j] == pre[j]
    ensures FindFrom(h, close, k + |pre|) == k + |pre| + |body|
    ensures h[k + |pre|..k + |pre| + |body|] == body
  {
    var w := pre + body + [close];
    var a := k + |pre|;
    assert h[k..k + |w|] == w;
    forall j | 0 <= j < |w| ensures h[k + j] == w[j] {
      assert h[k..k + |w|][j] == h[k + j];
    }
    forall j | 0 <= j < |pre| ensures h[k + j] == pre[j] {
      assert w[j] == pre[j];
    }
    forall j | 0 <= j < |body| ensures h[a + j] == body[j] {
      assert w[|pre| + j] == body[j];
    }
    forall j | a <= j < a + |body| ensures h[j] != close {
      assert h[a + (j - a)] == body[j - a];
    }
    assert h[a + |body|] == w[|pre| + |body|] == close;
    FindFromAt(h, close, a, a + |body|);
    assert h[a..a + |body|] == body;
  }

  /** getType reads back the text between the quotes that follow 'descr':. */
  lemma GetTypeBetweenQuotes(h: string, i: nat, descr: string)
    requires FindSub(h, DESCR_FIELD, 0) == i
    requires OccursAt(h, " '" + descr + "'", i + |DESCR_FIELD|)
    requires '\'' !in descr
    ensures GetType(h) == Some(descr)
  {
    var k := i + |DESCR_FIELD|;
    Delimited(h, k, " '", descr, '\'');
    var pre := " '";
    assert h[k] == pre[0] == ' ' && h[k + 1] == pre[1] == '\'';
    FindFromAt(h, '\'', k, k + 1);
  }

  /** getFortranOrder reads back the text between the blank after the field name and the next comma. */
  lemma GetFortranOrderAfterBlank(h: string, i: nat, order: string)
    requires FindSub(h, FORTRAN_FIELD, 0) == i
    requires OccursAt(h, " " + order + ",", i + |FORTRAN_FIELD|)
    requires ',' !in order
    ensures GetFortranOrder(h) == Some(order)
  {
    var k := i + |FORTRAN_FIELD|;
    Delimited(h, k, " ", order, ',');
    var pre := " ";
    assert h[k] == pre[0] == ' ';
  }

  /** getShape's shapeStr is the text between the parentheses that follow 'shape':. */
  lemma ShapeTextInParentheses(h: string, i: nat, body: string)
    requires FindSub(h, SHAPE_FIELD, 0) == i
    requires OccursAt(h, " (" + body + ")", i + |SHAPE_FIELD|)
    requires ')' !in body
    ensures ShapeText(h) == Some(body)
  {
    var k := i + |SHAPE_FIELD|;
    Delimited(h, k, " (", body, ')');
    var pre := " (";
    assert h[k] == pre[0] == ' ' && h[k + 1] == pre[1] == '(';
    FindFromAt(h, '(', k, k + 1);
  }

  // ---------------------------------------------------------------- the shape tuple NumPy writes

  /** Extents that fit an int. */
  predicate IntExtents(ds: seq<nat>)
  {
    forall i :: 0 <= i < |ds| ==> ds[i] <= INT_MAX
  }

  /** The extents joined by `sep`. */
  function Join(ds: seq<nat>, sep: string): string
  {
    if ds == [] then "" else if |ds| == 1 then NatText(ds[0]) else NatText(ds[0]) + sep + Join(ds[1..], sep)
  }

  /** The inside of the shape tuple as NumPy writes it: "3," for one extent, "2, 3" for two. */
  function TupleBody(ds: seq<nat>): string
  {
    if |ds| == 1 then NatText(ds[0]) + "," else Join(ds, ", ")
  }

  lemma {:induction false} RemoveCharAppend(a: string, b: string, c: char)
    ensures RemoveChar(a + b, c) == RemoveChar(a, c) + RemoveChar(b, c)
  {
    if a == [] {
      assert a + b == b;
    } else {
      var head := if a[0] == c then [] else [a[0]];
      assert (a + b)[0] == a[0] && (a + b)[1..] == a[1..] + b;
      RemoveCharAppend(a[1..], b, c);
      calc {
        RemoveChar(a + b, c);
        head + RemoveChar(a[1..] + b, c);
        head + (RemoveChar(a[1..], c) + RemoveChar(b, c));
        (head + RemoveChar(a[1..], c)) + RemoveChar(b, c);
      }
    }
  }

  /** A text without c is kept as it is. */
  lemma {:induction false} RemoveCharAbsent(a: string, c: char)
    requires c !in a
    ensures RemoveChar(a, c) == a
  {
    if a != [] {
      assert c !in a[1..];
      RemoveCharAbsent(a[1..], c);
    }
  }

  /** Removing the commas of "d0, d1, ..." leaves "d0 d1 ...". */
  lemma {:induction false} RemoveCommas(ds: seq<nat>)
    ensures RemoveChar(Join(ds, ", "), ',') == Join(ds, " ")
  {
    if |ds| == 1 {
      RemoveCharAbsent(NatText(ds[0]), ',');
    } else if |ds| > 1 {
      var d, rest := NatText(ds[0]), Join(ds[1..], ", ");
      assert Join(ds, ", ") == d + ", " + rest;
      RemoveCharAppend(d + ", ", rest, ',');
      RemoveCharAppend(d, ", ", ',');
      RemoveCharAbsent(d, ',');
      assert RemoveChar(", ", ',') == " " by {
        var comma := ", ";
        assert comma[0] == ',' && comma[1..] == " ";
        RemoveCharAbsent(" ", ',');
      }
      RemoveCommas(ds[1..]);
      assert Join(ds, " ") == d + " " + Join(ds[1..], " ");
    }
  }

  /** The decimal text of an extent is read back as that extent, and the text after it is left. */
  lemma ExtractNatText(d: nat, rest: string)
    requires d <= INT_MAX
    requires rest == [] || !IsDigit(rest[0])
    ensures ExtractInt(NatText(d) + rest) == Some((d, rest))
  {
    var s := NatText(d);
    var u := s + rest;
    assert u[0] == s[0];
    DigitCountOf(s, rest);
    assert u[..|s|] == s && u[|s|..] == rest;
    NatTextValue(d);
  }

  /** The digits of a digit string followed by a non-digit are all it has. */
  lemma {:induction false} DigitCountOf(s: string, rest: string)
    requires forall i :: 0 <= i < |s| ==> '0' <= s[i] <= '9'
    requires rest == [] || !IsDigit(rest[0])
    ensures DigitCount(s + rest) == |s|
  {
    if s == [] {
      assert s + rest == rest;
    } else {
      assert (s + rest)[1..] == s[1..] + rest;
      DigitCountOf(s[1..], rest);
    }
  }

  /** A blank before the text changes nothing the extraction reads. */
  lemma ParseIntsSpaced(t: string)
    ensures ParseInts(" " + t) == ParseInts(t)
  {
    assert (" " + t)[1..] == t;
  }

  /** The extraction loop reads back every extent of "d0 d1 ...". */
  lemma {:induction false} ParseJoin(ds: seq<nat>)
    requires |ds| > 0 && IntExtents(ds)
    ensures ParseInts(Join(ds, " ")) == ds
  {
    if |ds| == 1 {
      ExtractNatText(ds[0], "");
      assert NatText(ds[0]) + "" == NatText(ds[0]);
    } else {
      var t := Join(ds[1..], " ");
      ExtractNatText(ds[0], " " + t);
      assert Join(ds, " ") == NatText(ds[0]) + (" " + t);
      ParseIntsSpaced(t);
      ParseJoin(ds[1..]);
    }
  }

  /** getShape reads back the extents of the tuple NumPy writes; "()" reads as [1]. */
  lemma ShapeOfTuple(h: string, i: nat, ds: seq<nat>)
    requires IntExtents(ds)
    requires FindSub(h, SHAPE_FIELD, 0) == i
    requires OccursAt(h, " (" + TupleBody(ds) + ")", i + |SHAPE_FIELD|)
    ensures ShapeOf(h) == Some(if ds == [] then [1] else ds)
  {
    var body := TupleBody(ds);
    if |ds| == 1 {
      assert ')' !in body by {
        assert body == NatText(ds[0]) + ",";
      }
      ShapeTextInParentheses(h, i, body);
      RemoveCharAppend(NatText(ds[0]), ",", ',');
      RemoveCharAbsent(NatText(ds[0]), ',');
      assert RemoveChar(",", ',') == [];
      assert NatText(ds[0]) + [] == Join(ds, " ");
      ParseJoin(ds);
    } else {
      JoinHasNo(ds, ", ", ')');
      ShapeTextInParentheses(h, i, body);
      if ds != [] {
        RemoveCommas(ds);
        ParseJoin(ds);
      }
    }
  }

  /** A joined list holds no character that neither the digits nor the separator hold. */
  lemma {:induction false} JoinHasNo(ds: seq<nat>, sep: string, c: char)
    requires c !in sep && !('0' <= c <= '9')
    ensures c !in Join(ds, sep)
  {
    if |ds| > 1 {
      JoinHasNo(ds[1..], sep, c);
    }
  }

  // ---------------------------------------------------------------- the file

  /** "\x93NUMPY". */
  const NPY_MAGIC: seq<byte> := [0x93, 0x4E, 0x55, 0x4D, 0x50, 0x59]

  /** Where the header text starts: magic, two version bytes, the 2-byte length. */
  const HEADER_START: nat := 10

  /** Why readMatFromNpy gives no Mat: a failed M_Assert, or a header length never read. */
  datatype NpyFault = AssertFailed | UninitialisedHeaderSize

  /** The Mat read: its extents and the payload bytes that fill its data. */
  datatype Blob = Blob(sizes: seq<int>, data: seq<byte>)

  function Chars(bs: seq<byte>): (r: string)
    ensures |r| == |bs|
  {
    if bs == [] then [] else [bs[0] as char] + Chars(bs[1..])
  }

  /** `std::string header(headerSize, '*')` after the read: the bytes there are, then '*'s. */
  function HeaderText(file: seq<byte>, headerSize: nat): (r: string)
    requires |file| >= HEADER_START
    ensures |r| == headerSize
  {
    var end := if HEADER_START + headerSize <= |file| then HEADER_START + headerSize else |file|;
    Chars(file[HEADER_START..end]) + seq(HEADER_START + headerSize - end, i => '*')
  }

  /**
   * readMatFromNpy on the bytes of a file.  The magic must match; the header length is read
   * as a little-endian unsigned short (an x86 or ARM host), and a file too short to hold it
   * leaves it uninitialised.  After the checks on 'descr' and 'fortran_order', the Mat is
   * created with the shape (at most 8 extents, at least one) and exactly total*4 payload
   * bytes must follow the header; a short header read has already failed the stream, and
   * then nothing more is read.
   */
  function ReadMatFromNpy(file: seq<byte>): Result<Blob, NpyFault>
  {
    if |file| < |NPY_MAGIC| || file[..|NPY_MAGIC|] != NPY_MAGIC then Err(AssertFailed)
    else if |file| < HEADER_START then Err(UninitialisedHeaderSize)
    else
      var headerSize := LittleEndian(file[8..HEADER_START]);
      var start := HEADER_START + headerSize;
      DecodeHeader(HeaderText(file, headerSize), if start <= |file| then file[start..] else [])
  }

  /**
   * The part of readMatFromNpy after the header is read: the header's fields are checked,
   * then total*4 bytes of `body`, the bytes after the header, are the data.
   */
  function DecodeHeader(header: string, body: seq<byte>): Result<Blob, NpyFault>
  {
    match (GetType(header), GetFortranOrder(header), ShapeOf(header))
    case (Some(descr), Some(order), Some(shape)) =>
      if descr != "<f4" || order != "False" then Err(AssertFailed)
      else if !(0 < |shape| <= MAT_MAX_DIM) then Err(AssertFailed)
      else
        var sizes := SetSizeExtents(shape, |shape|);
        SetSizeProduct(shape, |shape|);
        var need := Product(sizes) * 4;
        if |body| < need then Err(AssertFailed)
        else Ok(Blob(sizes, body[..need]))
    case _ => Err(AssertFailed)
  }

  // ---------------------------------------------------------------- properties of the reader

  /** A version 1.0 file: magic, version 1.0, the header length, the header, the payload. */
  function NpyFile(header: seq<byte>, payload: seq<byte>): seq<byte>
    requires |header| < 0x1_0000
  {
    NPY_MAGIC + [1, 0] + EncodeLE(|header|, 2) + header + payload
  }

  /** Anything but the magic at the start is refused before the header is looked at. */
  lemma BadMagicRefused(file: seq<byte>)
    requires |file| < |NPY_MAGIC| || file[..|NPY_MAGIC|] != NPY_MAGIC
    ensures ReadMatFromNpy(file) == Err(AssertFailed)
  {
  }

  /** A header whose 'descr' is not '<f4', or whose 'fortran_order' is not False, is refused. */
  lemma OnlyLittleEndianFloatInCOrder(file: seq<byte>)
    requires |file| >= HEADER_START && file[..|NPY_MAGIC|] == NPY_MAGIC
    requires var h := HeaderText(file, LittleEndian(file[8..HEADER_START]));
             GetType(h) != Some("<f4") || GetFortranOrder(h) != Some("False")
    ensures ReadMatFromNpy(file) == Err(AssertFailed)
  {
  }

  /**
   * A Mat is only read when a full payload of total*4 bytes follows the header; that payload
   * is its data, and the extents are the shape's, or all zero when one of them is not positive.
   */
  lemma ReadMatPayload(file: seq<byte>)
    requires ReadMatFromNpy(file).Ok?
    ensures var b := ReadMatFromNpy(file).value;
            var start := HEADER_START + LittleEndian(file[8..HEADER_START]);
            var shape := ShapeOf(HeaderText(file, LittleEndian(file[8..HEADER_START]))).value;
            && 0 < |shape| <= MAT_MAX_DIM
            && |b.data| == 4 * Product(b.sizes)
            && (b.data == [] || (start + |b.data| <= |file| && b.data == file[start..start + |b.data|]))
            && (AllPositive(shape) ==> b.sizes == shape)
            && (!AllPositive(shape) ==> b.sizes == Zeros(|shape|) && b.data == [])
  {
    var headerSize := LittleEndian(file[8..HEADER_START]);
    var start := HEADER_START + headerSize;
    var body := if start <= |file| then file[start..] else [];
    assert ReadMatFromNpy(file) == DecodeHeader(HeaderText(file, headerSize), body);
    DecodedPayload(HeaderText(file, headerSize), body);
    ReadMatData(file);
  }

  /** The data of a Mat that is read are the bytes right after the header. */
  lemma ReadMatData(file: seq<byte>)
    requires ReadMatFromNpy(file).Ok?
    ensures PayloadAt(file, HEADER_START + LittleEndian(file[8..HEADER_START]), ReadMatFromNpy(file).value.data)
  {
    var headerSize := LittleEndian(file[8..HEADER_START]);
    var start := HEADER_START + headerSize;
    var body := if start <= |file| then file[start..] else [];
    assert ReadMatFromNpy(file) == DecodeHeader(HeaderText(file, headerSize), body);
    DecodedPayload(HeaderText(file, headerSize), body);
    var data := ReadMatFromNpy(file).value.data;
    PayloadInFile(file, start, body, data);
  }

  /** `data` is empty or lies in the file from `start`. */
  ghost predicate PayloadAt(file: seq<byte>, start: nat, data: seq<byte>)
  {
    data == [] || (start + |data| <= |file| && data == file[start..start + |data|])
  }

  /** A prefix of the bytes after `start` is the slice of the file from `start`. */
  lemma PayloadInFile(file: seq<byte>, start: nat, body: seq<byte>, data: seq<byte>)
    requires body == (if start <= |file| then file[start..] else [])
    requires |data| <= |body| && data == body[..|data|]
    ensures PayloadAt(file, start, data)
  {
    if start <= |file| {
      assert file[start..][..|data|] == file[start..start + |data|];
    }
  }

  /** What DecodeHeader accepts: the shape's extents, and the first total*4 bytes of the body. */
  lemma DecodedPayload(header: string, body: seq<byte>)
    requires DecodeHeader(header, body).Ok?
    ensures var b := DecodeHeader(header, body).value;
            var shape := ShapeOf(header).value;
            && 0 < |shape| <= MAT_MAX_DIM
            && |b.data| == 4 * Product(b.sizes) <= |body|
            && b.data == body[..|b.data|]
            && (AllPositive(shape) ==> b.sizes == shape)
            && (!AllPositive(shape) ==> b.sizes == Zeros(|shape|) && b.data == [])
  {
    var shape := ShapeOf(header).value;
    SetSizeProduct(shape, |shape|);
    assert shape[..|shape|] == shape;
  }

  /** Where the parts of a version 1.0 file are found. */
  lemma NpyFileParts(header: seq<byte>, payload: seq<byte>)
    requires |header| < 0x1_0000
    ensures var file := NpyFile(header, payload);
            var start := HEADER_START + |header|;
            && |file| == start + |payload|
            && file[..|NPY_MAGIC|] == NPY_MAGIC
            && LittleEndian(file[8..HEADER_START]) == |header|
            && HeaderText(file, |header|) == Chars(header)
            && file[start..] == payload
  {
    var file := NpyFile(header, payload);
    var len := EncodeLE(|header|, 2);
    assert file[..|NPY_MAGIC|] == NPY_MAGIC;
    assert file[8..HEADER_START] == len;
    DecodeEncode(|header|, 2);
    var start := HEADER_START + |header|;
    assert file[HEADER_START..start] == header;
    assert file[start..] == payload;
  }

  /**
   * Reading a version 1.0 file whose header describes a C-order '<f4' array of positive
   * extents gives back those extents and the payload, whatever follows it.
   */
  lemma ReadNpyFile(header: seq<byte>, shape: seq<int>, payload: seq<byte>, trailing: seq<byte>)
    requires |header| < 0x1_0000
    requires GetType(Chars(header)) == Some("<f4") && GetFortranOrder(Chars(header)) == Some("False")
    requires ShapeOf(Chars(header)) == Some(shape)
    requires 0 < |shape| <= MAT_MAX_DIM && AllPositive(shape)
    requires |payload| == 4 * Product(shape)
    ensures ReadMatFromNpy(NpyFile(header, payload + trailing)) == Ok(Blob(shape, payload))
  {
    ReadNpyFileHeader(header, payload + trailing);
    DecodeAccepted(Chars(header), shape, payload, trailing);
  }

  /** A version 1.0 file is decoded from its header text and the bytes after it. */
  lemma ReadNpyFileHeader(header: seq<byte>, rest: seq<byte>)
    requires |header| < 0x1_0000
    ensures ReadMatFromNpy(NpyFile(header, rest)) == DecodeHeader(Chars(header), rest)
  {
    NpyFileParts(header, rest);
  }

  /** A C-order '<f4' header of positive extents takes its payload from the front of the body. */
  lemma DecodeAccepted(h: string, shape: seq<int>, payload: seq<byte>, trailing: seq<byte>)
    requires GetType(h) == Some("<f4") && GetFortranOrder(h) == Some("False") && ShapeOf(h) == Some(shape)
    requires 0 < |shape| <= MAT_MAX_DIM && AllPositive(shape)
    requires |payload| == 4 * Product(shape)
    ensures DecodeHeader(h, payload + trailing) == Ok(Blob(shape, payload))
  {
    assert shape[..|shape|] == shape;
    ProductPositive(shape);
    assert (payload + trailing)[..|payload|] == payload;
  }
}
