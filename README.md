# minfer core, modelled in Dafny

This project models the integer core of minfer, a small C++ inference library for
GGUF-packaged language models, together with the Python GGUF decoder that sits beside it.
Each source file of the core is a Dafny module. Code that is pure becomes datatypes and
functions. Code that updates state in place becomes classes and loop methods, proved
against specification functions.

- **GGUF, Python decoder** (`GgufReader`, `GgufParse`). Little-endian reads with a running
  offset, versioned lengths, strings, recursive metadata values and `parse_gguf`. Every read
  returns the value and the bytes it consumed, or the exception Python would raise.
- **GGUF, C++ loader** (`GgufTypes`, `GgufLoader`, `GgufContext`, `GgufMeta`, `LlmNames`,
  `GgmlQuant`, `Search`).
  - `gguf_init_from_file` up to the start of the tensor data: magic, header, key-value loop,
    tensor-info loop, sanitising and alignment padding. `fread` becomes a cursor over a byte
    sequence.
  - Also the first-match key, tensor and architecture searches, the type-checked getters,
    `GKV` and overrides, `align_range`, the name tables, the quantisation block layouts,
    the type traits and `ggml_row_size`.
- **Integer helpers**:
  - `saturate_cast` between the C++ integer types (`Saturate`);
  - the `DT_*` codes and the element-size nibble table (`Define`);
  - `UP_DIV`/`ROUND_UP` (`Arith`, `Define`);
  - the header-word scheme of `MMemoryAllocAlign`/`MMemoryFreeAlign` (`MemoryUtils`);
  - the fp16/fp32 conversions on IEEE 754-2008 bit patterns (`Half`).
- **Text** (`System`, `Text`, `NpyLoad`): `mErrorStr`, the `> ` quoting of multi-line error
  text, and the NumPy `.npy` version 1.0 header searches of `readMatFromNpy`.
- **Stateful structures** (classes):
  - `Mat` and its reference-counted `MatData` (`CoreMat`);
  - `Tensor` (`CoreTensor`);
  - the size-keyed free/used-list `Allocator` (`CoreAllocator`);
  - `AutoBuffer` and `RefCount` (`CoreAutoBuffer`);
  - the layer registry and the CPU backend (`Backends`);
  - the embedding layer (`Embeddings`).
- **Kernels on values** (`BasicOp`, `MatGemm`, `MatConvert`, `MatExpression`):
  - broadcasting binary operators and their int32/uint8 dispatch;
  - batched matrix products;
  - the element-type converters and `convertTo`;
  - the building and folding rules of matrix expressions and the kernels their assign
    chooses.
- **The prototype lab Mat and its operations** (`LabMat`, `LabOperations`, from
  `test/opencv_lab/mat_test`).

Conventions:
- Addresses are natural numbers, and 0 is the null pointer. What `malloc` returns is a
  parameter of the method that allocates.
- An `M_ASSERT`/`assert` on what a caller passes is a `requires`. One that file bytes can
  trigger is an explicit outcome.
- A thrown exception is an `Err` value.
- `size_t` is 64 bits wide. Its wrap modulo 2^64 is modelled where a member says so, for
  example the allocator's raw request, the GGUF loader's allocations and page alignment,
  and the quantised row sizes. Element counts and byte
  totals elsewhere are exact integers (see Left out). C++ integer division truncates
  (`TruncDiv`).

## Model

| member | source | states |
|---|---|---|
| Bytes.DecodeEncode | code_test/test1/gguf_reader.py:32-41 | decoding the little-endian encoding of a value that fits in n bytes gives the value back |
| Bytes.EncodeDecode | code_test/test1/gguf_reader.py:32-41 | encoding a decoded n-byte string gives the string back |
| Bytes.LERangeWindow | code_test/test1/gguf_reader.py:36-39 | the number read in place from data[lo..hi] is the little-endian value of that slice |
| Bytes.LEAtWindow | code_test/test1/gguf_reader.py:36-39 | the item at an offset is the little-endian value of its itemsize bytes |
| Bytes.ToSigned | code_test/test1/gguf_reader.py:62-70 | the two's-complement reading of a width-bit value lies in [-2^(w-1), 2^(w-1)) and equals v or v - 2^w |
| GgufReader.CheckVersionReadable | code_test/test1/gguf_reader.py:25-29 | check_version accepts exactly versions 1, 2 and 3, which are exactly the versions whose size fields can be read |
| GgufReader.DataGetWindow | code_test/test1/gguf_reader.py:32-41 | data_get yields one item when its whole window lies in the data, fails on a partial window and is empty past the end |
| GgufReader.ReadItemIsFirstItem | code_test/test1/gguf_reader.py:32-41 | reading an item is data_get followed by taking element 0 |
| GgufReader.ReadItemWindow | code_test/test1/gguf_reader.py:32-41 | an item reads exactly when its whole window is in the data, as the little-endian number it holds, consuming itemsize bytes |
| GgufReader.DataGet | code_test/test1/gguf_reader.py:32-41 | data_get yields at most one item, below 256^itemsize, and yields one exactly when the whole window lies in the data |
| GgufReader.ReadItem | code_test/test1/gguf_reader.py:32-41 | item 0 of data_get exists exactly when the whole window lies in the data, and is below 256^itemsize |
| GgufReader.ReadVersionSizeWindow | code_test/test1/gguf_reader.py:43-49 | version 1 reads a u32 and reports 4 bytes, versions 2 and 3 a u64 and 8 bytes, any other version is an error |
| GgufReader.LeadLen | code_test/test1/gguf_reader.py:54 | the length of the well-formed UTF-8 character a byte string starts with is 0 or 1-4 and within the string |
| GgufReader.ReadString | code_test/test1/gguf_reader.py:51-56 | the consumed length is the size-field width plus the announced length n, and the text is the bytes after the field |
| GgufReader.ReadStringLayout | code_test/test1/gguf_reader.py:51-56 | a string read is its size field followed by the text: consumed counts the field and all n announced bytes |
| GgufReader.ReadStringFails | code_test/test1/gguf_reader.py:51-56 | a string read fails only on a bad version, a cut-off size field or text that is not valid UTF-8 |
| GgufReader.ReadStringOf | code_test/test1/gguf_reader.py:51-56 | an encoded size field followed by valid UTF-8 text reads back as that text and that length |
| GgufReader.StringText | code_test/test1/gguf_reader.py:53 | the bytes decoded are the slice of the announced bytes that the data holds |
| GgufReader.IntOf | code_test/test1/gguf_reader.py:59-95 | an integer scalar denotes its unsigned value, or the two's-complement reading for the signed tags |
| GgufReader.ReadValue | code_test/test1/gguf_reader.py:58-97 | a fixed-size tag reads exactly when its whole window lies in the data, and then gives the little-endian number of its dtype and consumes that dtype's itemsize (the corrected reading for UINT8 and INT8, see Findings); a tag above FLOAT64 raises the unsupported-type error; any value read consumes at least one byte |
| GgufReader.ReadArray | code_test/test1/gguf_reader.py:77-89 | an array read that succeeds started inside the data and consumed at least one byte (its layout is stated by ArrayValue) |
| GgufReader.ReadElems | code_test/test1/gguf_reader.py:84-87 | m more elements keep the values already read as a prefix, append exactly m values and advance the length by at least m |
| GgufReader.ArrayValue | code_test/test1/gguf_reader.py:77-89 | an ARRAY value reads as Arr(es) consuming c bytes exactly when its 4-byte element tag and size field are in the data, es has the announced count, and the elements lie back to back from after the size field to 4 + field width + their lengths = c, each read with the element tag starting where the previous ended |
| GgufReader.ArrayElems | code_test/test1/gguf_reader.py:77-89 | the same layout for the array branch once its element tag and size field have been read |
| GgufReader.ElemsLayout | code_test/test1/gguf_reader.py:84-87 | the element loop reads the values es and advances the length by end - offset exactly when es lie back to back from offset to end |
| GgufReader.ReadMetadataValue | code_test/test1/gguf_reader.py:58-97 | the method with the array loop returns exactly what the recursive reading defines |
| GgufReader.ReadMetadataArray | code_test/test1/gguf_reader.py:77-89 | the array branch as a loop equals the recursive array reading |
| GgufReader.ReadMetadataElems | code_test/test1/gguf_reader.py:84-88 | the element loop appends each element read with the array's element tag and advances the length by its consumed bytes |
| GgufReader.ReadByteAsWritten | code_test/test1/gguf_reader.py:59-62 | the UINT8 and INT8 branches as written pass the dtype as the offset and no dtype: they always raise |
| GgufReader.UInt8BranchDiscrepancy | code_test/test1/gguf_reader.py:59-60 | on a one-byte buffer the as-written UINT8 branch fails where a one-byte read gives the byte |
| GgufParse.ReadMagic | code_test/test1/gguf_reader.py:100-107 | an empty file fails, 1-3 bytes cannot be viewed as a u32, and four bytes other than b'GGUF' stop the parse |
| GgufParse.ReadFileVersion | code_test/test1/gguf_reader.py:110-112 | the version at offset 4 must pass check_version; an empty window fails like a version outside 1-3 |
| GgufParse.ReadKvPair | code_test/test1/gguf_reader.py:127-140 | one key-value pass consumes the key string, the 4-byte tag and the value, in that order |
| GgufParse.ReadKvs | code_test/test1/gguf_reader.py:127-140 | m more pairs append m entries and advance the offset by exactly what each consumed |
| GgufParse.ReadKvsFrom | code_test/test1/gguf_reader.py:127-140 | a pass with pairs left reads one pair and continues at its end |
| GgufParse.EntriesToMapKeys | code_test/test1/gguf_reader.py:140 | the keys of the dictionary are exactly the keys read |
| GgufParse.EntriesToMapLast | code_test/test1/gguf_reader.py:140 | a later pair with the same key overwrites an earlier one: the value is that of the last pair with the key |
| GgufParse.EntriesToMapSize | code_test/test1/gguf_reader.py:140 | the dictionary has at most as many entries as pairs were read |
| GgufParse.ReadDimsLength | code_test/test1/gguf_reader.py:151-154 | m dims consume m size fields of the version's width, all inside the data |
| GgufParse.ReadDimsValues | code_test/test1/gguf_reader.py:151-154 | the dims read are the earlier dims followed by the m sizes stored back to back |
| GgufParse.ReadTensorInfos | code_test/test1/gguf_reader.py:143-160 | m more descriptors append m entries and advance the offset by what each consumed |
| GgufParse.ReadTensorInfosFrom | code_test/test1/gguf_reader.py:143-160 | a pass with descriptors left reads one and continues at its end |
| GgufParse.ReadTensorDims | code_test/test1/gguf_reader.py:151-154 | the inner loop reads n versioned sizes from its start, in order |
| GgufParse.ReadTensorDesc | code_test/test1/gguf_reader.py:144-160 | a descriptor is the name, a 4-byte n_dims, n_dims versioned extents, a 4-byte type and an 8-byte offset |
| GgufParse.ReadCounts | code_test/test1/gguf_reader.py:116-119 | the tensor count and kv count are versioned sizes read back to back after the version |
| GgufParse.ParseHeader | code_test/test1/gguf_reader.py:99-119 | a parsed file starts with b'GGUF' and a version in 1-3 and holds every tensor it announces |
| GgufParse.ParseRejectsForeignMagic | code_test/test1/gguf_reader.py:105-107 | a file whose first four bytes are text other than b'GGUF' is refused |
| GgufParse.ParseMetadata | code_test/test1/gguf_reader.py:124-140 | the parsed metadata keys are the keys read, the last pair of a key winning |
| GgufParse.KvPass | code_test/test1/gguf_reader.py:127-140 | one pass of the key-value loop method advances the offset as the reading defines and stores metadata[key] = value |
| GgufParse.ReadKvSection | code_test/test1/gguf_reader.py:127-140 | the key-value loop method returns the dictionary and offset of the recursive reading |
| GgufParse.TensorPass | code_test/test1/gguf_reader.py:143-160 | one pass of the tensor loop method reads one descriptor as the reading defines |
| GgufParse.ReadTensorSection | code_test/test1/gguf_reader.py:143-160 | the tensor loop method returns the descriptors and offset of the recursive reading |
| GgufParse.ParseGguf | code_test/test1/gguf_reader.py:99-160 | parse_gguf as a method returns exactly the result of the header, key-value and tensor readings |
| GgufParse.ReadSections | code_test/test1/gguf_reader.py:124-160 | the two loops fill the dictionary and the tensor list as the readings define |
| GgufTypes.TypeNameOrNull | src/core/gguf_model/gguf_utils.cpp:189-192 | GGUF_TYPE_name gives the table's name for tags 0-12 and null otherwise |
| GgufTypes.TypeNamesDistinct | src/core/gguf_model/gguf_utils.h:74-88 | the thirteen type names are pairwise distinct |
| GgufTypes.TypeSizeIsWidth | src/core/gguf_model/gguf_utils.h:58-72 | the size table gives each fixed-width tag the size of its C++ type, STRING sizeof(GGUF_str) = 16 and ARRAY 0 |
| GgufTypes.GkvTagOnto | src/core/gguf_model/gguf_utils.h:263-282 | every tag except ARRAY has a C++ type whose GKV_Base maps to it |
| GgufTypes.GkvTagInjective | src/core/gguf_model/gguf_utils.h:263-282 | two C++ types share a tag only when both are string types |
| GgufMeta.Getter | src/core/gguf_model/gguf_utils.h:256-282 | once the tag is checked, the getter returns the stored value of T's kind |
| GgufMeta.GetKv | src/core/gguf_model/gguf_utils.h:308-317 | get_kv throws when the stored tag differs from T's, and otherwise returns the getter's value |
| GgufMeta.ValidateOverride | src/core/gguf_model/gguf_utils.h:329-356 | false for a null override, false on a tag mismatch, true on a match |
| GgufMeta.TryOverride | src/core/gguf_model/gguf_utils.h:358-401 | a bool, integral or floating target takes an accepted override; a string target throws for any non-null override |
| GgufMeta.Set | src/core/gguf_model/gguf_utils.h:403-411 | an accepted override wins; a negative id returns false and leaves the target; any other id assigns get_kv and returns true |
| GgufMeta.SetByKey | src/core/gguf_model/gguf_utils.h:413-421 | set by key is set at gguf_find_key(ctx, key) |
| LlmNames.ArchNamesDistinct | src/core/gguf_model/gguf_loader.h:100-130 | every architecture has its own name and UNKNOWN is "(unknown)" |
| LlmNames.ArchFromString | src/core/gguf_model/gguf_utils.cpp:348-356 | the architecture whose name equals the input, and LLM_ARCH_UNKNOWN when none does |
| LlmNames.ArchNameRoundTrip | src/core/gguf_model/gguf_utils.cpp:348-356 | looking up the name of an architecture gives that architecture back |
| LlmNames.Prefixed | src/core/gguf_model/gguf_loader.h:239-306 | each name of a block of keys is the block's prefix followed by its suffix |
| LlmNames.KvNamePrefixes | src/core/gguf_model/gguf_loader.h:239-306 | one name per key; general, split and tokenizer keys are literal under their prefix, every other key starts with "%s" |
| LlmNames.LayerPatternPrefix | src/core/gguf_model/gguf_loader.h:308-353 | a per-layer tensor pattern starts with "blk.%d." and a whole-model name does not |
| LlmNames.TensorNameTables | src/core/gguf_model/gguf_loader.h:308-353 | tensor-name patterns exist only for LLaMA and Baichuan, Baichuan's being LLaMA's without the expert tensors |
| Search.FirstIndex | src/core/gguf_model/gguf_utils.cpp:149-163 | -1 exactly when the item does not occur; otherwise an index holding it with none before it |
| Search.FirstIndexAt | src/core/gguf_model/gguf_utils.cpp:214-228 | an index holding the item with no earlier occurrence is the first match |
| Search.FirstIndexOfDistinct | src/core/gguf_model/gguf_utils.cpp:214-228 | over pairwise distinct items the first match of s[i] is i |
| GgmlQuant.StructSizeBounds | src/core/gguf_model/ggml_quant.h:32-113 | sizeof(struct) is a multiple of its alignment and at least the sum of its members |
| GgmlQuant.PackedHasNoPadding | src/core/gguf_model/ggml_quant.h:32-113 | a run of members needing no padding ends its total size past its start |
| GgmlQuant.PackedStructSize | src/core/gguf_model/ggml_quant.h:32-113 | a packed struct whose total its alignment divides has sizeof equal to that total |
| GgmlQuant.PackedStruct2 | src/core/gguf_model/ggml_quant.h:32-37 | a two-member struct whose second member starts aligned has no padding |
| GgmlQuant.PackedStruct3 | src/core/gguf_model/ggml_quant.h:52-58 | the same for three members |
| GgmlQuant.BlockSizes | src/core/gguf_model/ggml_quant.h:32-92 | the static_asserts hold: q4_0, q4_1, q5_0, q5_1, q8_0, q8_1 take 18, 20, 22, 24, 34 and 36 bytes without padding |
| GgmlQuant.BlockQ2KSize | src/core/gguf_model/ggml_quant.h:100-113 | block_q2_K is 2 * sizeof(ggml_half) + QK_K/16 + QK_K/4 bytes: 84 with QK_K 256 and 24 with QK_K 64 |
| GgmlQuant.ScalesQuantsHalfPair | src/core/gguf_model/ggml_quant.h:100-113 | byte arrays whose lengths sum to a multiple of 4 followed by the d/dmin pair leave no padding |
| GgmlQuant.ExactRowSize | src/core/gguf_model/gguf_utils.cpp:178-181 | type_size * ne / blck_size with ne a multiple of blck_size is the block count times the block size |
| GgmlQuant.RowSizeIsBlocks | src/core/gguf_model/gguf_utils.cpp:178-181 | with the corrected traits table every row size is its number of blocks times the block size, when it fits in size_t |
| GgmlQuant.ZeroTypeSizeRow | src/core/gguf_model/ggml_quant.h:230-239 | a traits entry without type_size gives every row size 0 |
| GgmlQuant.Q8RowSizeAsWritten | src/core/gguf_model/ggml_quant.h:230-239 | as written, a row of 32 Q8_0 elements, one 34-byte block, is given 0 bytes |
| Bytes.LittleEndian | code_test/test1/gguf_reader.py:36-39 | the unsigned little-endian value of a byte string, below 256^length |
| Bytes.Slice | code_test/test1/gguf_reader.py:38 | Python slicing with both ends clamped: the slice when in range, the tail when hi runs past the end, empty past the end |
| GgufLoader.Prepend | src/core/gguf_model/gguf_loader.cpp:645-723 | the items read so far followed by what a later read decoded; a halted read stays halted |
| GgufLoader.FreadEl | src/core/gguf_model/gguf_loader.cpp:250-254 | fread delivers the next size bytes or all that remain; the offset advances by the count delivered; success exactly when that count is size |
| GgufLoader.FreadStr | src/core/gguf_model/gguf_loader.cpp:256-276 | a string read that succeeds ends exactly 8 + n bytes after it started, inside the file (its outcomes are stated by FreadStrSpec) |
| GgufLoader.ReadScalar | src/core/gguf_model/gguf_loader.cpp:654-664 | a scalar reads gguf_type_size(tag) bytes; a short read fails |
| GgufLoader.ReadStrs | src/core/gguf_model/gguf_loader.cpp:707-711 | a string array's n strings are read one after the other, each advancing the offset by what it consumed |
| GgufLoader.StrsFrom | src/core/gguf_model/gguf_loader.cpp:707-711 | a pass with a string left reads one string and continues after it |
| GgufLoader.ReadArrayHead | src/core/gguf_model/gguf_loader.cpp:669-670 | the array case first reads a 4-byte element tag and an 8-byte count |
| GgufLoader.ReadArray | src/core/gguf_model/gguf_loader.cpp:666-716 | an array read that succeeds ends inside the file: a scalar array reads n * type_size bytes in one block, a string array n strings; a nested array or unknown element tag fails the assertion; an oversized count returns NULL; an empty array fails MMemoryAllocAlign's assertion; a count whose allocation request wraps is undefined behaviour |
| GgufLoader.ArrayGuard | src/core/gguf_model/gguf_loader.cpp:684-705 | a count at or past SIZE_MAX / type size returns NULL, a zero count asserts in MMemoryAllocAlign(0); any other count asks for n * size bytes, below SIZE_MAX, whose raw request is n * size + 8 + 64 or else wraps below 8 + 64 (undefined behaviour) |
| GgufLoader.ReadValue | src/core/gguf_model/gguf_loader.cpp:652-718 | the switch on the kv tag: scalars, STRING, ARRAY, and an assertion failure for any other tag |
| GgufLoader.ReadKv | src/core/gguf_model/gguf_loader.cpp:647-718 | one kv pass reads the key, the 4-byte tag and the value; a failed key or tag read leaves the switch reading an uninitialised tag |
| GgufLoader.ReadKvs | src/core/gguf_model/gguf_loader.cpp:645-723 | the kv loop reads count pairs and stops at the first that does not read |
| GgufLoader.KvsFrom | src/core/gguf_model/gguf_loader.cpp:645-723 | a pass with a pair left reads one pair and continues after it |
| GgufLoader.ReadDims | src/core/gguf_model/gguf_loader.cpp:754-757 | the extent loop reads count 8-byte extents |
| GgufLoader.Extents | src/core/gguf_model/gguf_loader.cpp:743-757 | all four ne start at 1 and the first n_dims are replaced by the extents read |
| GgufLoader.ReadInfo | src/core/gguf_model/gguf_loader.cpp:740-769 | one tensor-info pass: name, n_dims at most 4, n_dims extents, type, offset, then sanitize; each failure as the source meets it |
| GgufLoader.ReadInfos | src/core/gguf_model/gguf_loader.cpp:738-770 | the tensor-info loop reads count infos and stops at the first failure |
| GgufLoader.InfosFrom | src/core/gguf_model/gguf_loader.cpp:738-770 | a pass with an info left reads one and continues after it |
| GgufLoader.InfoPass | src/core/gguf_model/gguf_loader.cpp:738-770 | one tensor info, then the rest of the loop |
| GgufLoader.ReadHeader | src/core/gguf_model/gguf_loader.cpp:589-639 | a differing magic byte returns NULL; the version and both counts are read as u32, u64, u64 whatever the version; version 1 returns NULL; counts past SIZE_MAX/2/sizeof are refused |
| GgufLoader.Tables | src/core/gguf_model/gguf_loader.cpp:589-771 | header, kv pairs and tensor infos in turn; no kv pairs or no tensors fails MMemoryAllocAlign's assertion |
| GgufLoader.KeyBound | src/core/gguf_model/gguf_loader.cpp:551-565 | gguf_find_key compares the first n_kv keys as an int, none when that int is negative |
| GgufLoader.ReadStrsLoaded | src/core/gguf_model/gguf_loader.cpp:707-711 | a string array read from the file has its n elements, each NUL-terminated |
| GgufLoader.ReadKvLoaded | src/core/gguf_model/gguf_loader.cpp:647-718 | every pair the loop accepts is terminated, tagged as it holds and not an empty array |
| GgufLoader.KvsConsLoaded | src/core/gguf_model/gguf_loader.cpp:645-723 | a loaded pair in front of count - 1 loaded pairs makes count loaded pairs |
| GgufLoader.ReadInfosLoaded | src/core/gguf_model/gguf_loader.cpp:738-770 | every info the tensor loop accepts is loaded |
| GgufLoader.InfosConsLoaded | src/core/gguf_model/gguf_loader.cpp:738-770 | a loaded info in front of count - 1 loaded infos makes count loaded infos |
| GgufLoader.ReadInfoLoaded | src/core/gguf_model/gguf_loader.cpp:448-462 | every accepted tensor info has a terminated name and passed sanitize: n_dims at most 4, a known type, every ne > 0 and a product below INT64_MAX |
| GgufLoader.FreadStrValid | src/core/gguf_model/gguf_loader.cpp:256-276 | a string gguf_fread_str returns is NUL-terminated |
| GgufLoader.ExtentsLoaded | src/core/gguf_model/gguf_loader.cpp:743-762 | a sanitized info built from n_dims extents and the default 1s is loaded |
| GgufLoader.ReadStrArray | src/core/gguf_model/gguf_loader.cpp:707-711 | the method's loop `ok = ok && gguf_fread_str(...)` returns what the string reading defines; after the first failure the remaining passes read nothing |
| GgufLoader.ReadArrayFields | src/core/gguf_model/gguf_loader.cpp:666-716 | the array case as a method returns what ReadArray defines |
| GgufLoader.ReadKvFields | src/core/gguf_model/gguf_loader.cpp:647-718 | one kv pass as a method returns what ReadKv defines |
| GgufLoader.ReadExtents | src/core/gguf_model/gguf_loader.cpp:754-757 | the extent loop method returns the extents and offset ReadDims defines |
| GgufLoader.ReadInfoFields | src/core/gguf_model/gguf_loader.cpp:740-762 | one tensor-info pass as a method returns what ReadInfo defines |
| GgufLoader.KvPass | src/core/gguf_model/gguf_loader.cpp:645-723 | one pass of the kv loop method keeps the pairs read equal to the reading's prefix |
| GgufLoader.ReadKvSection | src/core/gguf_model/gguf_loader.cpp:641-732 | the kv loop with its `if (!ok) break` returns what ReadKvs defines |
| GgufLoader.InfoLoopPass | src/core/gguf_model/gguf_loader.cpp:738-770 | one pass of the tensor-info loop method keeps the infos read equal to the reading's prefix |
| GgufLoader.ReadInfoSection | src/core/gguf_model/gguf_loader.cpp:734-771 | the tensor-info loop method returns what ReadInfos defines |
| GgufLoader.ReadTables | src/core/gguf_model/gguf_loader.cpp:573-771 | gguf_init_from_file up to the end of the tensor infos returns what Tables defines |
| GgufLoader.FinishContext | src/core/gguf_model/gguf_loader.cpp:773-793 | alignment 32 unless gguf_find_key finds "general.alignment", whose u32 then replaces it; the offset is padded to a multiple of it |
| GgufLoader.InitFromFile | src/core/gguf_model/gguf_loader.cpp:573-793 | gguf_init_from_file up to `ctx->offset = offset` returns what the reading defines |
| GgufLoader.AlignRange | src/core/gguf_model/gguf_loader.cpp:390-403 | first rounds up to a page boundary (wrapping at SIZE_MAX), last rounds down, and last >= first afterwards |
| GgufLoader.AlignedEnds | src/core/gguf_model/gguf_loader.cpp:390-403 | for a power-of-two page below 2^64 the rounded first is the least page multiple >= first and the rounded last the greatest <= last |
| GgufLoader.PadOffsetRoundsUp | src/core/gguf_model/gguf_loader.cpp:782-790 | the padded offset is the first multiple of the alignment at or after the offset |
| GgufLoader.PadOffset | src/core/gguf_model/gguf_loader.cpp:782-790 | the padded offset is at or after the offset, by less than the alignment |
| GgufLoader.Load | src/core/gguf_model/gguf_loader.cpp:573-793 | a file the table reading stops on halts the same way; a loaded context has a positive alignment and a data offset padded from the end of the tables by less than the alignment |
| GgufLoader.SanitizedCountFits | src/core/gguf_model/gguf_loader.cpp:448-462 | a sanitized tensor has fewer than 2^63 elements |
| GgufLoader.LoadedContext | src/core/gguf_model/gguf_loader.cpp:573-793 | a returned context is valid, has at least one key and one tensor, every kv loaded and every tensor sanitized, starts with the magic, has a non-zero alignment, and its data offset is the end of the infos rounded up to it |
| GgufLoader.LoadedAlignment | src/core/gguf_model/gguf_loader.cpp:773-780 | the alignment is 32 unless a searched key is "general.alignment"; then the first such key holds a u32 and that is the alignment |
| GgufLoader.BadMagicIsNull | src/core/gguf_model/gguf_loader.cpp:592-604 | a file of four or more bytes not starting with "GGUF" returns NULL |
| GgufLoader.Version1IsNull | src/core/gguf_model/gguf_loader.cpp:621-626 | version 1 returns NULL once the magic matches |
| GgufLoader.EmptySectionIsAbort | src/core/gguf_model/gguf_loader.cpp:643-736 | a header with no kv pairs, or kv pairs and no tensors, fails the allocator's assertion |
| GgufLoader.AlignmentFailures | src/core/gguf_model/gguf_loader.cpp:775-787 | a "general.alignment" key not tagged UINT32 fails gguf_get_val_u32's assertion, and a zero alignment divides by zero |
| GgufLoader.LoadedKeepsTables | src/core/gguf_model/gguf_loader.cpp:773-793 | the returned keys and tensor infos are those read; only alignment and offset are new |
| GgufContext.NulFrom | src/core/gguf_model/gguf_utils.cpp:156 | the first NUL at or after i, or the length when there is none |
| GgufContext.CStr | src/core/gguf_model/gguf_utils.cpp:156 | the C string a buffer holds: its bytes before the first NUL |
| GgufContext.CStrOfTerminated | src/core/gguf_model/gguf_loader.cpp:256-276 | a buffer whose only NUL is its last byte holds exactly its other bytes |
| GgufContext.CInt | src/core/gguf_model/gguf_utils.cpp:210-212 | the 64-bit count as a 32-bit two's-complement int |
| GgufContext.GetKey | src/core/gguf_model/gguf_utils.cpp:231-234 | the key of an id in [0, n_kv) |
| GgufContext.GetKvType | src/core/gguf_model/gguf_utils.cpp:236-239 | the stored tag of an id in range |
| GgufContext.GetArrType | src/core/gguf_model/gguf_utils.cpp:241-245 | the element tag, for an id in range tagged ARRAY |
| GgufContext.GetArrN | src/core/gguf_model/gguf_utils.cpp:261-265 | the element count as an int, for an id in range tagged ARRAY |
| GgufContext.GetArrData | src/core/gguf_model/gguf_utils.cpp:247-251 | the payload of an id in range tagged ARRAY, and an assertion failure otherwise |
| GgufContext.GetArrStr | src/core/gguf_model/gguf_utils.cpp:253-259 | the i-th string when the id is an ARRAY of strings and i is in range; an assertion failure without the ARRAY tag, an undefined read otherwise |
| GgufContext.GetVal | src/core/gguf_model/gguf_utils.cpp:267-331 | each scalar getter returns the stored value for an id in range whose tag is the getter's |
| GgufContext.GetValStr | src/core/gguf_model/gguf_utils.cpp:333-337 | the string value of an id in range tagged STRING |
| GgufContext.GetValData | src/core/gguf_model/gguf_utils.cpp:339-344 | the value of any key that is neither ARRAY nor STRING |
| GgufContext.GettersExclusive | src/core/gguf_model/gguf_utils.cpp:267-337 | no key is readable by two getters of different tags |
| GgufContext.SearchFirst | src/core/gguf_model/gguf_utils.cpp:149-163 | the shared loop stops at the first index below count whose name equals the query, and returns -1 if none |
| GgufContext.CIntBound | src/core/gguf_model/gguf_utils.cpp:210-212 | the int count never exceeds the stored count and equals it below 2^31 |
| GgufContext.FindKey | src/core/gguf_model/gguf_utils.cpp:214-228 | the smallest index whose key equals the query, or -1; beyond 2^31 keys only the first CInt(n_kv) are searched |
| GgufContext.FindTensor | src/core/gguf_model/gguf_utils.cpp:149-163 | the smallest index whose tensor name equals the query, or -1 |
| GgufContext.FoundKeyIsReadable | src/core/gguf_model/gguf_utils.cpp:214-237 | a found key is in range for every getter and is the key asked for |
| Saturate.CastIdentity | include/minfer/saturate.h:42-60 | the plain cast of the generic overloads leaves a value the target can hold unchanged |
| Saturate.CastWrapsNegative | include/minfer/saturate.h:42-60 | the plain cast of a negative value to an unsigned type adds 2^bits |
| Saturate.CastInRange | include/minfer/saturate.h:42-60 | every plain cast lands in the target type and keeps the value modulo 2^bits |
| Saturate.ClampIsNearest | include/minfer/saturate.h:62-119 | the clamp the specialisations promise is in range, the identity on values in range, and the bound on the side a value falls out |
| Saturate.UnsignedTestClamps | include/minfer/saturate.h:64-108 | `(unsigned)v <= MAX ? v : v > 0 ? MAX : 0` is the clamp to the unsigned target: a negative v wraps above MAX |
| Saturate.ShiftedTestClamps | include/minfer/saturate.h:74-100 | `(unsigned)(v - MIN) <= UMAX ? v : v > 0 ? MAX : MIN` is the clamp to the signed target |
| Saturate.ToUCharClamps | include/minfer/saturate.h:62-70 | every saturate_cast<uchar> from an integer type clamps to [0, 255] |
| Saturate.ToSCharClamps | include/minfer/saturate.h:72-80 | every saturate_cast<schar> from an integer type clamps to [-128, 127] |
| Saturate.ToUShortClamps | include/minfer/saturate.h:82-89 | every saturate_cast<ushort> from an integer type clamps to [0, 65535] |
| Saturate.ToShortClamps | include/minfer/saturate.h:91-97 | every saturate_cast<short> from an integer type clamps to [-32768, 32767] |
| Saturate.ToIntClamps | include/minfer/saturate.h:99-101 | every saturate_cast<int> from an integer type clamps to [INT_MIN, INT_MAX] |
| Saturate.ToUIntClamps | include/minfer/saturate.h:105-109 | saturate_cast<unsigned> maps negatives to 0 and clamps above at UINT_MAX |
| Saturate.ToUInt64Clamps | include/minfer/saturate.h:114-117 | saturate_cast<uint64> from a signed type is max(v, 0) |
| Saturate.ToInt64Clamps | include/minfer/saturate.h:119 | saturate_cast<int64> from uint64 is min(v, LLONG_MAX) |
| Saturate.SaturateCastClamps | include/minfer/saturate.h:42-119 | every integer-to-integer saturate_cast is the clamp to the target's range |
| Saturate.SaturateCastInRange | include/minfer/saturate.h:42-119 | saturate_cast returns v when the target holds it, and otherwise the target's bound on v's side |
| Saturate.SaturateCastIdempotent | include/minfer/saturate.h:42-119 | saturating a value already converted to the target changes nothing |
| Define.ElemSize | include/minfer/define.h:82 | DT_ELEM_SIZE(type) is nibble `type` of 0x4881228442211, a value in [0, 15] |
| Define.Nibble | include/minfer/define.h:82 | (v >> 4i) & 15 is below 16 |
| Define.TableIsPacked | include/minfer/define.h:82 | the table constant is the documented sizes packed four bits each |
| Define.NibblePack | include/minfer/define.h:82 | nibble i of a packed sequence is its element i, and zero past its end |
| Define.ElemSizeTable | include/minfer/define.h:52-82 | codes 0..12 have the documented sizes 1,1,2,2,4,4,8,2,2,1,8,8,4; the unused codes 13..15 give 0 |
| Define.ElemSizePow2 | include/minfer/define.h:66-82 | the size of every defined code is 1, 2, 4 or 8 |
| Define.PadBitsRoundsUp | include/minfer/define.h:11 | for n = 2^k and x + n - 1 not wrapping, (x + n - 1) & ~(n - 1) is the least multiple of n at least x |
| Define.PadIsRoundUp | include/minfer/define.h:11 | for a power of two n, M_PAD(x, n) equals ROUND_UP(x, n) |
| Define.PadBitsNoWrap | include/minfer/define.h:11 | without wrap-around the padding masks the plain sum x + n - 1 |
| Define.MPadRoundsUp | include/minfer/define.h:11 | M_PAD(x, 2^k) on size_t is the next multiple of 2^k at or above x |
| Define.AliMin | src/core/define.impl.h:10 | ALIMIN is the smaller argument: at most both and equal to one |
| Define.AliMax | src/core/define.impl.h:11 | ALIMAX is the larger argument: at least both and equal to one |
| Define.UpDiv | src/core/define.impl.h:13 | for y > 0, UP_DIV(x, y) is the least r with r * y >= x |
| Define.RoundUp | src/core/define.impl.h:14 | ROUND_UP(x, y) is a multiple of y in [x, x + y) |
| Define.AlignUp4 | src/core/define.impl.h:15 | ALIGN_UP4(x) is the multiple of 4 in [x, x + 4) |
| Define.AlignUp8 | src/core/define.impl.h:16 | ALIGN_UP8(x) is the multiple of 8 in [x, x + 8) |
| Arith.LowMask | src/core/memory_utils.cpp:4 | AND with p - 1, for a power of two p, is the remainder modulo p |
| Arith.HighMask | src/core/gguf_model/gguf_loader.cpp:398 | for powers of two q <= p and y < p, AND with p - q rounds y down to a multiple of q |
| Arith.BitAndHighMask | src/core/gguf_model/gguf_loader.cpp:398 | in a w-bit word, AND with ~(2^k - 1) clears the k low bits: it rounds down to a multiple of 2^k |
| Arith.BitAndLowMask | src/core/gguf_model/gguf_loader.cpp:392 | AND with 2^k - 1 is the remainder modulo 2^k |
| MemoryUtils.DefaultAlignIsPowerOfTwo | src/core/memory_utils.cpp:3-5 | the default alignment 64 is a power of two, as alignPointer needs |
| MemoryUtils.AlignPointerRoundsUp | src/core/memory_utils.cpp:3-5 | for a power-of-two alignment, alignPointer(p, a) is the least multiple of a at or above p |
| MemoryUtils.CheckedRawRequest | src/core/memory_utils.cpp:13 | the request size + word + alignment, refused exactly when it does not fit in size_t |
| MemoryUtils.RawRequest | src/core/memory_utils.cpp:13 | the request as written is a size_t: it is size + word + alignment exactly when that sum fits, and wraps otherwise |
| MemoryUtils.AlignedBlockFits | src/core/memory_utils.cpp:13-21 | when the request fits, the aligned block starts at least one word past the origin and it and the word below it lie inside the raw block |
| MemoryUtils.RawRequestWraps | src/core/memory_utils.cpp:13 | as written, size 2^64 - 8 with alignment 64 asks malloc for 64 bytes |
| MemoryUtils.AlignedMemory.Place | src/core/memory_utils.cpp:19-21 | records the raw block and stores the origin in the word below the aligned pointer |
| MemoryUtils.AlignedMemory.AllocAlign | src/core/memory_utils.cpp:7-23 | requires size > 0 as the assertion does; an overflowing request or a null malloc returns null; otherwise the aligned pointer lies inside the new raw block with the origin stored at aligned[-1] |
| MemoryUtils.AlignedMemory.CallocAlign | src/core/memory_utils.cpp:25-40 | as AllocAlign, over calloc's zeroed block |
| MemoryUtils.AlignedMemory.FreeAlign | src/core/memory_utils.cpp:42-51 | null is a no-op; otherwise the raw block whose origin is stored at aligned[-1] is freed |
| MemoryUtils.AlignedMemory.AllocThenFree | src/core/memory_utils.cpp:7-51 | freeing what AllocAlign returned gives back exactly the block it took |
| System.ErrorStr | src/core/system.cpp:12-33 | the fixed text of codes 0, -1, -2, -3, -4, -5, -7, -8, -9, -10; any other code gives "Unknown status code N" for N >= 0 and "Unknown error code N" otherwise |
| System.NamedTextIsKnown | src/core/system.cpp:16-31 | no fixed text begins like an "Unknown ..." text |
| System.NamedCodeInverse | src/core/system.cpp:16-28 | each fixed text names exactly one code |
| System.UnknownTextInjective | src/core/system.cpp:30-31 | two "Unknown ..." texts are equal only for equal codes |
| System.ErrorStrInjective | src/core/system.cpp:12-33 | distinct codes have distinct texts |
| System.QuoteHead | src/core/system.cpp:115-120 | the quoted text is "> ", the first line, its newline, then the quoted rest |
| System.UnquoteFirstLine | src/core/system.cpp:115-120 | unquoting a quoted line followed by a quoted rest gives the line back, then the rest unquoted |
| System.QuoteRoundTrip | src/core/system.cpp:106-125 | removing the "> " that leads every line of the quoted text gives the text back; the final newline formatMessage adds is outside this lemma |
| System.RoundTripLast | src/core/system.cpp:122-124 | the last segment round-trips |
| System.RoundTripFirst | src/core/system.cpp:115-120 | a first line round-trips when the quoted rest does |
| System.PrefixedSingleLine | src/core/system.cpp:107-110 | a text without a newline is left unchanged |
| System.QuoteUnfold | src/core/system.cpp:115-120 | one pass of the loop appends "> " + segment + "\n" |
| System.QuoteAppend | src/core/system.cpp:115-120 | appending one quoted line leaves the quote of the rest still to come |
| System.QuoteLines | src/core/system.cpp:106-125 | the loop over pos and prev_pos builds exactly the quoted text |
| System.Exception.constructor | src/core/system.cpp:93-97 | stores code, func, file and line and formats err |
| System.Exception.FormatMessage | src/core/system.cpp:106-125 | err becomes its quoted form when it holds a newline, and is kept otherwise; every other field is kept |
| System.Error | src/core/system.cpp:175-185 | error(...) always throws an Exception carrying the given code, err, func, file and line |
| Text.NatText | src/core/system.cpp:30-31 | the decimal digits of n, most significant first, without leading zeros |
| Text.NatTextValue | src/core/system.cpp:30-31 | reading the digits back gives the number |
| Text.IntTextValue | src/core/system.cpp:30-31 | the %d text of an int reads back as the int |
| Text.ParseDigits | src/core/mat_load.cpp:57 | a digit string reads as its value |
| Text.ParseNegative | src/core/mat_load.cpp:57 | a minus sign before a digit string reads as the negated value |
| Text.IntTextInjective | src/core/system.cpp:30-31 | different numbers have different texts |
| Text.FindFrom | src/core/mat_load.cpp:20-21 | std::string::find(c, from): -1 (npos) or an index at or after from holding c |
| Text.FindFromSpec | src/core/mat_load.cpp:20-21 | find returns the first c at or after from, and -1 exactly when there is none |
| Text.FindFromAt | src/core/mat_load.cpp:20-21 | a c at k with none between from and k is what find returns |
| Text.FindFromNone | src/core/mat_load.cpp:20-21 | with no c at or after from find returns -1 |
| Text.FindSub | src/core/mat_load.cpp:17 | std::string::find(pat, from): -1 or an index where pat occurs |
| Text.FindSubSpec | src/core/mat_load.cpp:17 | find returns the first occurrence at or after from, and -1 exactly when there is none |
| Text.FindSubAt | src/core/mat_load.cpp:17 | an occurrence at k with none between from and k is what find returns |
| Text.LastAtOrBefore | src/core/mat_load.cpp:31 | the result is a position at or before i holding c with no c after it up to i, or -1 exactly when s[0..i] holds no c |
| Text.FindLastOf | src/core/mat_load.cpp:31 | std::string::find_last_of(c, pos): a position at or before min(pos, size - 1) holding c with no c after it up to there, or -1 (npos) exactly when that prefix holds no c |
| Text.Substr | src/core/mat_load.cpp:22 | substr(pos, len) with len converted to size_type: the result has len characters when len is non-negative and fits, and otherwise all size - pos that remain; its k-th character is the text's pos + k-th |
| Shape.ProductSnoc | src/core/mat.cpp:704-712 | multiplying on the right extends the product by one extent |
| Shape.ProductExtend | src/core/mat.cpp:714-726 | a range grown by one extent multiplies its product by that extent |
| Shape.ProductFrom | src/core/mat.cpp:704-712 | the product from i on is extent i times the product from i + 1 on |
| Shape.ProductAppend | src/core/mat.cpp:704-726 | the product of a concatenation is the product of the products |
| Shape.ProductPositive | src/core/mat.cpp:704-712 | positive extents have a positive product |
| Shape.ProductNonNegative | src/core/mat.cpp:704-712 | non-negative extents have a non-negative product |
| Shape.ProductZero | src/core/mat.cpp:830-833 | a zero extent makes the product zero |
| Shape.ProductZeroIff | src/core/mat.cpp:830-833 | the product of non-negative extents is zero exactly when one extent is |
| Shape.Zeros | src/core/mat.cpp:562-576 | n zero extents |
| Shape.SetSizeExtents | src/core/mat.cpp:188-216 | _setSize keeps the first dim extents when all are positive; a non-positive one makes it release, zeroing every extent |
| Shape.SetSizeProduct | src/core/mat.cpp:188-216 | the extents _setSize leaves have a positive product, or zero when any given extent was not positive |
| NpyLoad.DigitCount | src/core/mat_load.cpp:57 | the number of leading digits, at most the length |
| NpyLoad.DigitCountDigits | src/core/mat_load.cpp:57 | the characters DigitCount counts are digits and the next is not |
| NpyLoad.ExtractNumber | src/core/mat_load.cpp:57 | an optional sign and the longest run of digits, read as its value |
| NpyLoad.ExtractInt | src/core/mat_load.cpp:57 | `ss >> value` skips white space, reads a sign and digits; no digits or an out-of-int value fails; success returns the rest of the text |
| NpyLoad.RemoveChar | src/core/mat_load.cpp:50-51 | std::remove then erase: the text without its c characters, in order |
| NpyLoad.ParseIntsStep | src/core/mat_load.cpp:57-60 | one extraction of the loop appends the int read |
| NpyLoad.ExtractAll | src/core/mat_load.cpp:57-60 | the loop pushes every int read until the first failed extraction |
| NpyLoad.GetShape | src/core/mat_load.cpp:36-62 | [1] for an empty shape text; otherwise the ints the text lists once commas are removed |
| NpyLoad.Delimited | src/core/mat_load.cpp:42-45 | between a prefix and the next closing character lies exactly the body |
| NpyLoad.GetTypeBetweenQuotes | src/core/mat_load.cpp:14-23 | getType returns the text between the first pair of quotes after 'descr': |
| NpyLoad.GetFortranOrderAfterBlank | src/core/mat_load.cpp:25-34 | getFortranOrder returns the token after the field's blank up to the next comma |
| NpyLoad.ShapeTextInParentheses | src/core/mat_load.cpp:36-45 | getShape reads the text between the parentheses after 'shape': |
| NpyLoad.RemoveCharAbsent | src/core/mat_load.cpp:50-51 | a text without c is kept as it is |
| NpyLoad.RemoveCommas | src/core/mat_load.cpp:50-51 | removing the commas of "d0, d1, ..." leaves "d0 d1 ..." |
| NpyLoad.ExtractNatText | src/core/mat_load.cpp:57 | the decimal text of an extent reads back as that extent, leaving the text after it |
| NpyLoad.DigitCountOf | src/core/mat_load.cpp:57 | a digit string followed by a non-digit has exactly its own digits counted |
| NpyLoad.ParseIntsSpaced | src/core/mat_load.cpp:57 | a blank before the text changes nothing the extraction reads |
| NpyLoad.ParseJoin | src/core/mat_load.cpp:57-60 | the loop reads back every extent of "d0 d1 ..." |
| NpyLoad.ShapeOfTuple | src/core/mat_load.cpp:36-62 | getShape reads back the extents of the tuple NumPy writes; "()" reads as [1] |
| NpyLoad.HeaderText | src/core/mat_load.cpp:79-80 | the header string holds the bytes read, then '*' for any the file lacked |
| NpyLoad.BadMagicRefused | src/core/mat_load.cpp:69-71 | anything but "\x93NUMPY" at the start fails the assertion before the header is read |
| NpyLoad.OnlyLittleEndianFloatInCOrder | src/core/mat_load.cpp:83-84 | a 'descr' other than '<f4' or a 'fortran_order' other than False fails the assertion |
| NpyLoad.ReadMatPayload | src/core/mat_load.cpp:85-90 | a Mat that is read holds total*4 bytes, the first that many after the header (later bytes of the file are ignored), and its extents are the shape's, zeroed with no data when one is not positive |
| NpyLoad.DecodedPayload | src/core/mat_load.cpp:82-90 | an accepted header gives the shape's extents and the first total*4 bytes of the body |
| NpyLoad.NpyFileParts | src/core/mat_load.cpp:69-80 | six magic bytes, two version bytes skipped, a 2-byte little-endian header length, then the header |
| NpyLoad.ReadNpyFile | src/core/mat_load.cpp:65-93 | a version 1.0 file of a C-order '<f4' array with positive extents reads back those extents and that payload |
| NpyLoad.ReadNpyFileHeader | src/core/mat_load.cpp:69-85 | a version 1.0 file is decoded from its header text and the bytes after it |
| NpyLoad.DecodeAccepted | src/core/mat_load.cpp:83-90 | a C-order '<f4' header with positive extents takes its payload from the front of the body |
| CoreMat.FastMallocNonNull | src/core/mat.cpp:31-44 | a block malloc returns that is not null gives a pointer that is not null either |
| CoreMat.FastMallocFits | src/core/mat.cpp:24-54 | fastMalloc asks for size + 8 + 64 bytes; its pointer is 64-aligned, leaves room for the header word below and size bytes above inside the raw block, and fastFree's assertion holds for it |
| CoreMat.MatSizeEqual | src/core/mat.cpp:169-184 | equal exactly when the dims are equal and every extent is equal |
| CoreMat.Span | src/core/mat.cpp:715-726 | the extents total(startDim, endDim) multiplies: from startDim to min(endDim, dims) |
| CoreMat.SpanSnoc | src/core/mat.cpp:715-726 | a span grown by one extent multiplies the product by it |
| CoreMat.SpanToEnd | src/core/mat.cpp:715-726 | a span running to the end covers every extent from startDim |
| CoreMat.SpanSplit | src/core/mat.cpp:715-726 | splitting a span at a middle dimension splits the product |
| CoreMat.ShapeTotal | src/core/mat.cpp:866-885 | the free total(shape, s, e): e = -1 stands for the rank, requires 0 <= s <= e, and gives the product over [s, min(e, rank)) |
| CoreMat.WriteExtents | src/core/mat.cpp:188-216 | _setSize's loop writes the extents from the last one down, stopping at the first non-positive one, and reports whether it ran to the end |
| CoreMat.MatData.constructor | src/core/mat.cpp:79-96 | StdMatAllocator::allocate sizes the record DT_ELEM_SIZE(type) times the product of the extents; user memory is flagged; refcount 0 |
| CoreMat.MatData.Unmap | src/core/mat.cpp:127-133 | a record with refcount 0 is deallocated, its buffer freed unless it is user memory |
| CoreMat.Fill | src/core/mat.cpp:271-277 | the fill loop sets the first n elements to v and keeps the rest |
| CoreMat.Mat.constructor | src/core/mat.cpp:248-251 | Mat(): no dimensions, no data, no record, type DT_32F |
| CoreMat.Mat.Total | src/core/mat.cpp:704-713 | total() is the product of the extents, 1 for no dimensions |
| CoreMat.Mat.TotalRange | src/core/mat.cpp:715-726 | requires 0 <= startDim <= endDim and returns the product over [startDim, min(endDim, dims)) |
| CoreMat.Mat.EmptyIff | src/core/mat.cpp:830-833 | empty() iff data is null, dims is 0 or some extent is 0 |
| CoreMat.Mat.Shape | src/core/mat.cpp:819-828 | shape() is the extents, or [] for an empty Mat |
| CoreMat.Mat.Release | src/core/mat.cpp:562-576 | the count drops by 1, the record is deallocated when it was 1, data is nulled and every extent is zero |
| CoreMat.Mat.SetSize | src/core/mat.cpp:188-216 | requires 0 <= dim <= 8; extents written as given, or all zero after release when one is not positive |
| CoreMat.Mat.CopySize | src/core/mat.cpp:236-246 | this Mat takes m's dimension count and extents |
| CoreMat.Mat.Copy | src/core/mat.cpp:297-308 | the copy shares m's data, record and extents and the shared count goes up by 1 |
| CoreMat.Mat.Assign | src/core/mat.cpp:331-348 | m's count goes up, this Mat's reference is released, then it takes m's extents, data, record and type; self-assignment changes nothing |
| CoreMat.Mat.Create | src/core/mat.cpp:497-555 | a Mat with data of the same dims, type and extents is untouched; otherwise it is released, takes the new type and extents, and gets a new record with count 1 and its data when it has elements |
| CoreMat.Mat.CreateFromEmpty | src/core/mat.cpp:497-555 | create on a Mat without data gives it the new extents, type and record |
| CoreMat.Mat.Allocate | src/core/mat.cpp:538-554 | the end of create: a new record when there are elements, its count raised to 1 by addref, data taken from it |
| CoreMat.Mat.Sized | src/core/mat.cpp:253-263 | Mat(sizes, type) is an empty Mat followed by create |
| CoreMat.Mat.Filled | src/core/mat.cpp:265-295 | requires a 32-bit type; creates the Mat and sets every one of its total() elements to v |
| CoreMat.Mat.Wrap | src/core/mat.cpp:310-322 | a Mat over the caller's buffer without a record; a non-positive extent releases it, nulling the data |
| CoreMat.NewTotal | src/core/mat.cpp:437-456 | the product of the new extents |
| CoreMat.Reshape | src/core/mat.cpp:432-457 | a different element count gives a new empty Mat; otherwise a Mat sharing m's data and record with the new extents |
| CoreTensor.Tensor.constructor | src/core/tensor.cpp:12-16 | Tensor(): no shape, no data, DT_INVALID, host memory |
| CoreTensor.Tensor.Total | src/core/tensor.cpp:18-34 | 0 for an empty shape; otherwise start -1 means 0, end -1 means the rank, and the product over [start, end) |
| CoreTensor.Tensor.Make | src/core/tensor.cpp:36-51 | requires DT_FLOAT; without a buffer total()*4 bytes come from MMemoryAllocAlign with the default alignment; a given buffer is kept |
| CoreUtils.IntTextHasNo | src/core/utils.cpp:83-95 | the decimal text of an int holds no letter, so the " x " separators are the only 'x's |
| CoreUtils.TailCount | src/core/utils.cpp:83-95 | one " x " separator per extent after the first |
| CoreUtils.ShapeStrSeparators | src/core/utils.cpp:83-95 | the text of n extents starts with "[ ", ends with "]" and shows n - 1 separators |
| CoreUtils.ShapeToStr | src/core/utils.cpp:83-95 | requires a non-empty shape; the loop builds "[ d0 x d1 ... x dn]" |
| CoreUtils.BroadcastSymmetric | src/core/utils.cpp:114-149 | the batch broadcast is symmetric in its two shapes and has the longer rank |
| CoreUtils.BroadcastSucceeds | src/core/utils.cpp:114-149 | broadcasting succeeds exactly on compatible shapes |
| CoreUtils.Broadcast | src/core/utils.cpp:114-149 | a broadcast that succeeds has the rank of the longer side |
| CoreUtils.GemmShape | src/core/utils.cpp:159-163 | the product shape ends with a[-2], b[-1] and has the larger rank |
| CoreUtils.GetGemmShape | src/core/utils.cpp:102-165 | requires both ranks >= 2; the broadcast batch dimensions, then a[-2] and b[-1], or an error |
| CoreUtils.BatchShape | src/core/utils.cpp:111-149 | the index_a/index_b loop inserts one extent at the front per step: equal dims kept, a 1 takes the other side, an unmatched extra dim copied, a mismatch raises |
| Half.HalfFieldsDetermine | src/core/utils.cpp:18-40 | a binary16 is determined by its sign, exponent and fraction fields |
| Half.Fp16ToFp32Fields | src/core/utils.cpp:18-40 | fp16_to_fp32 keeps the sign; a zero exponent gives that signed zero; otherwise the fraction is widened and the exponent rebiased, denoting the same number |
| Half.ClampNeverApplies | src/core/utils.cpp:57-72 | as written the clamp test against 0x8e000000 never holds: 0x7f000000 converts to 0x3800 instead of 0x7bff |
| Half.SameBelowClamp | src/core/utils.cpp:67-68 | up to exponent 142 the written and intended clamp thresholds give the same result |
| Half.Fp32Normal | src/core/utils.cpp:57-72 | in the normal half range only the shift and the rebias apply |
| Half.Fp32ToFp16ClampedFields | src/core/utils.cpp:51-75 | with the intended threshold 0x47000000: the sign moves to bit 15, exponents below 113 flush to zero, above 142 clamp to 0x7bff, and in between the exponent is rebiased and the fraction cut to 10 bits |
| Half.RoundTripSign | src/core/utils.cpp:18-75 | the sign of a half survives fp16 -> fp32 -> fp16 |
| Half.RoundTripExponent | src/core/utils.cpp:18-75 | the exponent of a finite normal half survives the trip |
| Half.RoundTripFraction | src/core/utils.cpp:18-75 | the fraction of a finite normal half survives the trip |
| Half.HalfRoundTrip | src/core/utils.cpp:18-75 | every finite normal half survives the trip to single precision and back, through both conversions |
| CoreAllocator.LowerBound | src/core/allocator.cpp:102 | the first position whose size is at least the key, the length for none |
| CoreAllocator.UpperBound | src/core/allocator.cpp:143 | the first position whose size exceeds the key, where a multimap insert places a new entry |
| CoreAllocator.LastIndexOf | src/core/allocator.cpp:117-126 | the position of the last entry holding the pointer, or -1 |
| CoreAllocator.LowerBoundSpec | src/core/allocator.cpp:102 | every entry before lower_bound is smaller than the key and the one at it is not |
| CoreAllocator.UpperBoundSpec | src/core/allocator.cpp:143 | every entry before upper_bound is at most the key and the one at it exceeds it |
| CoreAllocator.SmallestFit | src/core/allocator.cpp:94-113 | on a sorted free list lower_bound finds the smallest entry that fits, and reaches the end only when none fits |
| CoreAllocator.InsertSorted | src/core/allocator.cpp:89-143 | insert keeps a list sorted by size |
| CoreAllocator.InsertAdds | src/core/allocator.cpp:89-143 | insert adds exactly the one entry, as a multiset |
| CoreAllocator.InsertSpec | src/core/allocator.cpp:89-143 | insert keeps the list sorted and adds exactly the one entry |
| CoreAllocator.RemoveAtSpec | src/core/allocator.cpp:110-130 | erase keeps the list sorted and takes away exactly that entry |
| CoreAllocator.InsertLargest | src/core/allocator.cpp:89 | a block at least as large as every entry goes to the end |
| CoreAllocator.InsertedFits | src/core/allocator.cpp:141-144 | a block just returned serves any later request it is large enough for |
| CoreAllocator.LastIndexOfSpec | src/core/allocator.cpp:117-126 | -1 exactly when no entry holds the pointer; otherwise an entry holding it with none after it |
| CoreAllocator.NullSizePrefix | src/core/allocator.cpp:56-63 | the null entries of a prefix add up to no more than those of the whole list |
| CoreAllocator.AlignedSize | src/core/allocator.cpp:25-29 | DefaultAllocatorImpl's size UP_DIV(size, align) * align is a multiple of align, covers the request and has less than align to spare |
| CoreAllocator.Allocator.constructor | src/core/allocator.h:36-40 | empty lists, a zero total and the given alignment |
| CoreAllocator.Allocator.GetFromFreeList | src/core/allocator.cpp:94-113 | realSize = size + align - 1 when mAlign % align != 0; the first free entry of at least realSize moves to the used list and is returned; with none, (null, 0) and nothing changes |
| CoreAllocator.RealSize | src/core/allocator.cpp:94-101 | the free-list request is the size itself exactly when the pool alignment is a multiple of align, and otherwise less than align more |
| CoreAllocator.Allocator.Alloc | src/core/allocator.cpp:67-92 | align 0 means the pool alignment; the first free entry that fits moves to the used list, and when its pointer is non-null it is returned with the total unchanged; otherwise a fresh block of UP_DIV(size, align) * align is returned and, when not null, joins the used list with the requested size added to the total |
| CoreAllocator.Allocator.ReturnMemory | src/core/allocator.cpp:141-144 | the entry (size, pointer) joins the free list |
| CoreAllocator.Allocator.FindUsed | src/core/allocator.cpp:117-126 | the search loop finds the last used entry holding the pointer, or none |
| CoreAllocator.Allocator.Free | src/core/allocator.cpp:115-139 | false with nothing changed when no used entry holds the pointer; otherwise the last such entry leaves the used list and (size, pointer) joins the free list |
| CoreAllocator.Allocator.Release | src/core/allocator.cpp:44-65 | release(true) empties both lists and zeroes the total; release(false) empties the free list after taking the sizes of its null entries off the total |
| CoreAllocator.ScenarioSizes | test/core/allocator_test.cpp:20-35 | at alignment 64 the requests 1000, 2000, 3000 and 1100 round up to 1024, 2048, 3008 and 1152 bytes, and with a pool alignment of 64 the free-list request for each is the size itself |
| CoreAllocator.AllocGrowing | src/core/allocator.cpp:78-91 | with an empty free list a fresh block joins the end of the used list when it is at least as large as every used block |
| CoreAllocator.AllocThree | test/core/allocator_test.cpp:20-26 | three allocations on a new pool return the system's three blocks and list them in the used list |
| CoreAllocator.FreeTwo | test/core/allocator_test.cpp:28-32 | freeing the first two succeeds and puts both blocks on the free list by size |
| CoreAllocator.ReuseScenario | test/core/allocator_test.cpp:20-37 | after alloc(1000), alloc(2000), alloc(3000) and freeing the first two, alloc(1100) returns the second block |
| CoreAutoBuffer.AutoBuffer.Empty | src/core/autobuffer.h:20-22 | size 0 and no data |
| CoreAutoBuffer.AutoBuffer.constructor | src/core/autobuffer.h:24-28 | sizeof(T) * size bytes from MMemoryAllocAlign at the default alignment; size() is size even when the allocation fails |
| CoreAutoBuffer.AutoBuffer.Set | src/core/autobuffer.h:43-52 | the old buffer is freed unless it is null or d itself; then data() is d and size() is n |
| CoreAutoBuffer.AutoBuffer.Release | src/core/autobuffer.h:54-62 | a non-null buffer is freed and left null with size 0; a null one is left as it is (freed through MMemoryFreeAlign: the call at autobuffer.h:58 names MUMemoryFreeAlign, which no file declares; see Left out) |
| CoreAutoBuffer.AutoBuffer.Clear | src/core/autobuffer.h:64-67 | every one of the mSize elements is 0 and nothing else changes |
| CoreAutoBuffer.AutoBuffer.Destroy | src/core/autobuffer.h:30-36 | a non-null buffer goes back to the system |
| CoreAutoBuffer.AllocateThenDestroy | src/core/autobuffer.h:24-36 | an allocated buffer holds its block until it is destroyed, and then the heap is as before |
| CoreAutoBuffer.RefCount.constructor | src/core/autobuffer.h:144 | a new count is 1 |
| CoreAutoBuffer.RefCount.Copy | src/core/autobuffer.h:145 | a copy takes f's count |
| CoreAutoBuffer.RefCount.Assign | src/core/autobuffer.h:147-153 | takes f's count unless f is this object |
| CoreAutoBuffer.RefCount.AddRef | src/core/autobuffer.h:126-129 | the count goes up by one |
| CoreAutoBuffer.RefCount.DecRef | src/core/autobuffer.h:131-136 | the count goes down by one and the object is deleted exactly when the new count is at most 0 |
| CoreAutoBuffer.ShareThenDrop | src/core/autobuffer.h:126-144 | a new count shared k times and dropped k times is alive with one reference; the last decRef deletes it |
| BasicOp.TruncDiv | src/core/basic_op.cpp:471-476 | C++ integer division: the quotient truncates toward zero, so its sign follows the operands' signs |
| BasicOp.Apply | src/core/basic_op.cpp:396-498 | the lambda of each BinaryOp on integer elements, stored into the element type; no result exactly for POW (float only), division by zero or the overflowing int32 quotient, MOD by a zero byte and a shift by 32 or more; int32 ADD, SUB and MUL are taken modulo 2^32 (see Left out) |
| BasicOp.ApplyInRange | src/core/basic_op.cpp:396-498 | every defined result, stored back, is a value of the element type |
| BasicOp.StoreInRange | src/core/basic_op.cpp:388-391 | storing any value into an element leaves a value of the element type |
| BasicOp.CastCongruent | src/core/basic_op.cpp:388-391 | values congruent modulo 2^bits convert to the same element value |
| BasicOp.ApplyCommutes | src/core/basic_op.cpp:405-496 | EQUAL, AND, OR, XOR, MUL and ADD give the same result with their operands swapped |
| BasicOp.SubThenAdd | src/core/basic_op.cpp:459-470 | subtracting b and adding it back gives a back, with results stored modulo the element type's range (for int32 this is the wrap-around reading, see Left out) |
| BasicOp.CastBack | src/core/basic_op.cpp:459-470 | (t)((t)(a - b) + b) == a for every value a of t |
| BasicOp.ComparisonsComplement | src/core/basic_op.cpp:405-434 | LESS and GREATER_EQUAL, GREATER and LESS_EQUAL are complements, and EQUAL is 1 exactly when the elements are equal |
| BasicOp.Dispatch | src/core/basic_op.cpp:398-517 | DT_8U, DT_32S and DT_32F are dispatched, any other type is an error, and float refuses MOD, AND, OR and XOR |
| BasicOp.PreProcess | src/core/basic_op.cpp:18-30 | succeeds exactly when a and b agree in type and size and c is empty or agrees too; the result has a's type and size and is c itself when c is not empty |
| BasicOp.PreProcessUnary | src/core/basic_op.cpp:31-41 | an empty c needs a non-empty a; a non-empty c must agree with a; the result has a's type and size |
| BasicOp.NegateTwice | src/core/basic_op.cpp:146-173 | negating twice gives back every int32 or float element |
| BasicOp.NegatedAll | src/core/basic_op.cpp:154-170 | element i of the result is the negation of element i |
| BasicOp.Negation | src/core/basic_op.cpp:146-173 | subtract(a, c) fails exactly when preProcessAndCheck fails or the type is neither int32 nor float; otherwise c has a's type and size and holds -a[i] in every element |
| BasicOp.NegationInvolutive | src/core/basic_op.cpp:146-173 | subtracting an int32 Mat into an empty c twice gives back the Mat |
| BasicOp.SubtractUnary | src/core/basic_op.cpp:146-173 | the loop computes Negation |
| BasicOp.Pointwise | src/core/utils.cpp:102-165 | each broadcast extent is the combination of the aligned pair |
| BasicOp.CompatiblePrefix | src/core/basic_op.cpp:298-326 | dropping the last dimension of two compatible shapes keeps them compatible |
| BasicOp.BroadcastEqualRanks | src/core/basic_op.cpp:298-326 | for equal ranks the right-aligned broadcast of get_gemm_shape is the pointwise one |
| BasicOp.AlignShapes | src/core/basic_op.cpp:277-326 | the shape loop succeeds exactly when the shapes are compatible, and then gives the pointwise broadcast and aligned shapes equal to the inputs |
| BasicOp.BlockSteps | src/core/basic_op.cpp:330-338 | the steps as written: 1 for the last two dimensions, each earlier one the product of the next extent and step |
| BasicOp.GetStepFunc | src/core/basic_op.cpp:330-338 | the lambda's loop computes BlockSteps |
| BasicOp.ElementSteps | src/core/basic_op.cpp:330-338 | the corrected steps: 0 where the extent is 1, otherwise the product of the later extents |
| BasicOp.ElementStepsOf | src/core/basic_op.cpp:330-338 | the corrected loop computes ElementSteps |
| BasicOp.OffScaled | src/core/basic_op.cpp:374-383 | with steps that are c times the row-major strides, the k-loop's jump for block idx is c times idx's position |
| BasicOp.OffBound | src/core/basic_op.cpp:374-383 | with broadcast-aware steps the k-loop's jump stays below c times the number of blocks of the aligned input |
| BasicOp.AsWrittenReads | src/core/basic_op.cpp:330-391 | as written, element j of an input of the output's shape is read at j / block_size + (j % block_size) * inner, not at j |
| BasicOp.AsWrittenRowMisread | src/core/basic_op.cpp:330-391 | adding two 2x3 Mats, output element 3 reads input element 1 |
| BasicOp.ElementStepsScaled | src/core/basic_op.cpp:330-338 | each corrected step below the last dimension is 0 on a broadcast extent and the last extent times the extents between otherwise |
| BasicOp.SameShapeStepsScaled | src/core/basic_op.cpp:330-338 | for an input of the output's shape the corrected steps are block_size times the strides |
| BasicOp.SameShapeReads | src/core/basic_op.cpp:368-391 | with the corrected steps, element j of an input of the output's shape is read at j |
| BasicOp.ScaledReads | src/core/basic_op.cpp:368-391 | steps that are block_size times the strides read every element at its own index |
| BasicOp.BlockIndexBelow | src/core/basic_op.cpp:344-360 | the block of an element is below block_num |
| BasicOp.ReadsInside | src/core/basic_op.cpp:368-391 | with the corrected steps every read of an aligned input stays inside its total() elements |
| BasicOp.BoundedReads | src/core/basic_op.cpp:368-391 | broadcast-aware steps keep every read inside the aligned input |
| BasicOp.PointwiseAligned | src/core/basic_op.cpp:298-326 | the broadcast of compatible positive shapes is positive and aligned with both |
| BasicOp.AsWrittenRowBroadcast | src/core/basic_op.cpp:330-391 | a 2x3 output against a 1x3 input: as written, output element 3 reads input element 1 |
| BasicOp.RowBroadcastReads | src/core/basic_op.cpp:368-391 | with the corrected steps a row broadcast over an m x n output reads column j % n |
| BasicOp.BlockBound | src/core/basic_op.cpp:368-371 | block bi of block_num blocks ends inside the output |
| BasicOp.ReadAt | src/core/basic_op.cpp:368-391 | element i of block bi is read at the block's jump, plus i unless the last aligned extent is 1 |
| BasicOp.Off | src/core/basic_op.cpp:376-384 | the offset the k-loop adds up for a block is non-negative when the steps are |
| BasicOp.ReadIndex | src/core/basic_op.cpp:368-391 | the input element read for an output element lies at a non-negative index when the steps are |
| BasicOp.OffStep | src/core/basic_op.cpp:376-383 | one iteration of the k-loop adds the digit idx % shape[k] times the step |
| BasicOp.BlockView | src/core/basic_op.cpp:344-345 | block_num is the product of the leading extents and block_size the last extent |
| BasicOp.BinaryOpHelper.constructor | src/core/basic_op.cpp:276 | a new helper is not initialised |
| BasicOp.BinaryOpHelper.Init | src/core/basic_op.cpp:277-347 | succeeds exactly on compatible shapes, with the broadcast output shape, the aligned shapes, the corrected steps and isInit set; a mismatch is the broadcasting error |
| BasicOp.BinaryOpHelper.Configure | src/core/basic_op.cpp:340-346 | the steps, block view and isInit that init sets once the shapes are aligned |
| BasicOp.BlockJumps | src/core/basic_op.cpp:372-383 | the k-loop's jump0 and jump1 are the offsets of block bi in each input |
| BasicOp.BlockForward | src/core/basic_op.cpp:385-391 | one block's inner loop stores op of the located elements into the block_size outputs of the block and changes nothing else |
| BasicOp.BinaryForward | src/core/basic_op.cpp:352-393 | every output element is op of the elements the steps locate in each input (with the corrected element steps, Findings row 7) |
| BasicOp.BroadcastRead | src/core/basic_op.cpp:368-391 | the element of an aligned input an output element reads is inside the input |
| BasicOp.BinaryElements | src/core/basic_op.cpp:519-527 | op(a, b) has one element per element of the broadcast shape |
| BasicOp.BinaryElementwise | src/core/basic_op.cpp:519-527 | operands of one shape are combined element by element into that shape |
| BasicOp.BlockLength | src/core/basic_op.cpp:357-362 | block_num * block_size is total(out_shape), so the M_Assert holds |
| BasicOp.Reads | src/core/basic_op.cpp:368-391 | every read of the corrected kernel is inside the aligned input |
| BasicOp.ReadsLocate | src/core/basic_op.cpp:368-391 | the reads are the positions the corrected steps locate |
| BasicOp.KernelResult | src/core/basic_op.cpp:352-527 | the kernel run with op's element function produces exactly op(a, b) (with the corrected element steps, Findings row 7) |
| BasicOp.Kernel | src/core/basic_op.cpp:525-526 | c = Mat(out_shape, type) filled in by binary_forward: one element per output position, op of the located inputs (with the corrected element steps, Findings row 7) |
| BasicOp.RunKernel | src/core/basic_op.cpp:519-527 | the kernel on the broadcast shape yields op(a, b) (with the corrected element steps, Findings row 7) |
| BasicOp.BinaryFunc | src/core/basic_op.cpp:519-527 | binaryFunc gives the broadcast error on incompatible shapes, the dispatch error on a bad type, and otherwise the Mat of op(a, b) over the broadcast shape (with the corrected element steps, Findings row 7) |
| BasicOp.Add | src/core/basic_op.cpp:43-46 | add(a, b, c) is binaryFunc(ADD) (with the corrected element steps, Findings row 7) |
| BasicOp.Multiply | src/core/basic_op.cpp:175-178 | multiply(a, b, c) is binaryFunc(MUL) (with the corrected element steps, Findings row 7) |
| BasicOp.Subtract | src/core/basic_op.cpp:107-116 | an empty a with a non-empty b gives -b; otherwise binaryFunc(SUB) (with the corrected element steps, Findings row 7) |
| BasicOp.SubtractThenAdd | src/core/basic_op.cpp:43-116 | subtracting b from an int32 a of the same shape and adding b back gives a, under the int32 wrap-around reading (see Left out) |
| BasicOp.SubThenAddAll | src/core/basic_op.cpp:459-470 | element by element, int32 subtraction then addition of the same values gives back the first operand, under the wrap-around reading (see Left out) |
| MatGemm.Batch | src/core/mat_gemm.cpp:17-20 | the batch dimensions are all but the last two |
| MatGemm.Strides | src/core/mat_gemm.cpp:15-29 | one row-major stride per extent |
| MatGemm.MakeStrides | src/core/mat_gemm.cpp:15-29 | make_strides's loop gives the row-major strides of the batch dimensions, and [1] when there are none |
| MatGemm.StridesStep | src/core/mat_gemm.cpp:20-24 | each stride is the next one times the next extent |
| MatGemm.StridesLast | src/core/mat_gemm.cpp:18-22 | the last stride is 1 |
| MatGemm.StridesRecurrence | src/core/mat_gemm.cpp:15-29 | the last batch dimension has stride 1 and every other the next stride times the next extent |
| MatGemm.StridesPositive | src/core/mat_gemm.cpp:15-29 | positive extents give positive strides |
| MatGemm.PositiveExtents | src/core/mat_gemm.cpp:61 | non-negative extents with a positive product are all positive |
| MatGemm.Digits | src/core/mat_gemm.cpp:76-82 | one digit per stride |
| MatGemm.DigitsStep | src/core/mat_gemm.cpp:78-82 | one step of the digit loop takes the quotient and keeps the remainder |
| MatGemm.BatchIndex | src/core/mat_gemm.cpp:76-82 | the idx_c loop computes the mixed-radix digits of batch i |
| MatGemm.StridesTail | src/core/mat_gemm.cpp:15-29 | dropping the leading extent keeps every later stride |
| MatGemm.DigitsFit | src/core/mat_gemm.cpp:76-82 | each digit of an index inside the product is below its extent |
| MatGemm.LinStep | src/core/mat_gemm.cpp:85-90 | one step of the lin loop adds the coordinate (0 on an extent of 1) times the stride |
| MatGemm.LinearIndex | src/core/mat_gemm.cpp:85-98 | the lin loop over an operand's own batch dimensions, each paired with the product's dimension the right alignment gives (the corrected right-aligned broadcasting of Findings rows 8 and 9, not the code as written) |
| MatGemm.LinPrefix | src/core/mat_gemm.cpp:85-90 | the written sum over the first k strides plus the rest of the aligned sum is the aligned sum |
| MatGemm.LinAgrees | src/core/mat_gemm.cpp:85-98 | when the operand has the product's rank, the written lin is the aligned one |
| MatGemm.LinShift | src/core/mat_gemm.cpp:85-98 | coordinates shifted by one place give the same lin one place further on |
| MatGemm.DigitsHead | src/core/mat_gemm.cpp:76-82 | the first digit is the quotient by the first stride, the rest the digits of the remainder |
| MatGemm.LinHead | src/core/mat_gemm.cpp:85-90 | the lin of a leading coordinate q and coordinates with lin r is q times the rest's product plus r |
| MatGemm.DigitsRoundTrip | src/core/mat_gemm.cpp:76-90 | an operand with the product's own batch extents reads batch i at lin i: the digit loop and the lin loop are inverse |
| MatGemm.LinOfOnes | src/core/mat_gemm.cpp:88-96 | an operand whose batch extents are all 1 is read at batch 0 for every batch |
| MatGemm.LinBound | src/core/mat_gemm.cpp:85-98 | for fitting coordinates the lin lies inside the operand's batches |
| MatGemm.ProductLastTwo | src/core/mat_gemm.cpp:61-64 | total() is the number of batches times M * N |
| MatGemm.BroadcastAligned | src/core/utils.cpp:102-165 | broadcasting aligns each side under the result from the right, each extent 1 or the result's, and keeps positive extents positive |
| MatGemm.DotColumn | src/core/mat_gemm.cpp:112-117 | the naive k loop sums paim[k] * pbin[k * N]: row m of a times column n of b |
| MatGemm.DotRow | src/core/mat_gemm.cpp:260-265 | the row k loop sums paim[k] * pbin[k] with pbin = pbi + n * K: row m of a times row n of b |
| MatGemm.Transposed | src/core/mat_gemm.cpp:125 | the transpose swaps rows and columns |
| MatGemm.TransposedAt | src/core/mat_gemm.cpp:125 | element (r, c) of the transpose is element (c, r) |
| MatGemm.RowTimesRowTransposed | src/core/mat_gemm.cpp:125-265 | row m of a times row n of b is row m of a times column n of b transposed |
| MatGemm.BatchLinBound | src/core/mat_gemm.cpp:85-98 | the batch of an operand that batch i of the product reads lies inside the operand |
| MatGemm.BatchView | src/core/mat_gemm.cpp:85-101 | the matrix that batch i reads sits inside the operand's buffer, with its last two extents as rows and columns |
| MatGemm.BroadcastUnder | src/core/mat_gemm.cpp:43 | both operands of a product whose batch shape is their broadcast can be read under it |
| MatGemm.SplitFlat | src/core/mat_gemm.cpp:102-108 | a row-major index into c splits into a batch, a row and a column inside their ranges |
| MatGemm.JoinFlat | src/core/mat_gemm.cpp:102-108 | batch i, row r, column c sit at i * step_c + r * N + c and that index splits back into i, r and c |
| MatGemm.BatchEnd | src/core/mat_gemm.cpp:102 | the batch i below out_loop ends inside c |
| MatGemm.NonEmptyPositive | src/core/mat.cpp:830-833 | a Mat that is not empty has positive extents |
| MatGemm.ProductShape | src/core/mat_gemm.cpp:43-191 | the product's shape: get_gemm_shape for the naive kernel, and for the row kernel the broadcast batch dimensions, a's rows and b's rows |
| MatGemm.CheckedReady | src/core/mat_gemm.cpp:39-205 | once the asserts pass, the product's shape has the larger rank and the loops can run |
| MatGemm.ReadyFacts | src/core/mat_gemm.cpp:61-64 | the product has a positive number of batches of M * N elements |
| MatGemm.EntryAt | src/core/mat_gemm.cpp:102-119 | element i * step_c + m * N + n of c is the sum for batch i, row m and column n |
| MatGemm.Elements | src/core/mat_gemm.cpp:59 | c has total(shape_c) elements |
| MatGemm.LinOfProductStrides | src/core/mat_gemm.cpp:68-98 | the lin loop over make_strides(shape_c) reads the batch BatchView reads, including the [1] case |
| MatGemm.ViewBase | src/core/mat_gemm.cpp:100-101 | lin_a times step_a (lin_b times step_b) is where the batch BatchView reads starts |
| MatGemm.PrefixEmpty | src/core/mat_gemm.cpp:74 | nothing written yet is a prefix of the product |
| MatGemm.SpanIsBatch | src/core/mat_gemm.cpp:61 | total(shape_c, 0, rank - 2) is the product of the batch dimensions |
| MatGemm.PrefixSnoc | src/core/mat_gemm.cpp:119 | writing the next element keeps the prefix |
| MatGemm.PrefixWhole | src/core/mat_gemm.cpp:74-122 | a prefix as long as the product is the whole product |
| MatGemm.NextCell | src/core/mat_gemm.cpp:110-120 | one n iteration writes the next element of the product |
| MatGemm.BatchMatrix | src/core/mat_gemm.cpp:105-269 | the m and n loops write batch i's M * N elements of the product in row-major order |
| MatGemm.KernelBatch | src/core/mat_gemm.cpp:76-121 | one out_loop iteration (idx_c, lin_a, lin_b, then the matrix loops) writes batch i of the product (the corrected right-aligned broadcasting of Findings rows 8 and 9, not the code as written) |
| MatGemm.Kernel | src/core/mat_gemm.cpp:33-271 | gemm_impl_naive and gemm_impl_row: their checks' errors, or c of shape_c holding the product of every batch pair lin_a and lin_b select (the corrected right-aligned broadcasting of Findings rows 8 and 9, not the code as written) |
| MatGemm.Batches | src/core/mat_gemm.cpp:74-122 | the out_loop over all batches writes exactly the product's elements |
| MatGemm.BatchLoop | src/core/mat_gemm.cpp:74-122 | after out_loop iterations the output holds the product of every batch, each batch read through the broadcast strides of a and b (the corrected right-aligned broadcasting of Findings rows 8 and 9, not the code as written) |
| MatGemm.Gemm | src/core/mat_gemm.cpp:275-301 | the row kernel on a and b when only transB is set, otherwise the naive kernel on the operands transposed where flagged (the kernels are the corrected right-aligned ones of Findings rows 8 and 9) |
| MatGemm.TransposeMatrix | src/core/mat_gemm.cpp:292-293 | transpose of a single matrix swaps its extents and keeps its type |
| MatGemm.MatrixView | src/core/mat_gemm.cpp:93-101 | the one matrix of a rank-2 operand starts at element 0 whatever the batch |
| MatGemm.CellTransposed | src/core/mat_gemm.cpp:112-265 | one cell of the row kernel equals the naive kernel's cell against b transposed |
| MatGemm.ElementsTransposed | src/core/mat_gemm.cpp:33-271 | the row kernel's product equals the naive kernel's against b transposed |
| MatGemm.RowKernelIsNaiveOnTranspose | src/core/mat_gemm.cpp:275-301 | gemm(a, b, false, true) on a single matrix b gives what the naive kernel gives on b transposed, errors included |
| MatGemm.OutLoopAsWritten | src/core/mat_gemm.cpp:61-210 | out_loop as written: the product's batch count when a has batch dimensions, 1 otherwise |
| MatGemm.OutLoopMissesBatches | src/core/mat_gemm.cpp:61-210 | a 3x4 matrix times a batch of two 4x5: the product has two batches, out_loop runs one |
| MatGemm.NaiveBaseAgrees | src/core/mat_gemm.cpp:85-101 | with both ranks equal to the product's, the written base is the aligned one |
| MatGemm.LinAsWritten | src/core/mat_gemm.cpp:85-98 | the written lin over an operand whose batch extents are all 1 is 0: the operand is broadcast to every batch |
| MatGemm.NaiveBaseAsWritten | src/core/mat_gemm.cpp:85-101 | the written base of an operand whose batch extents are all 1 is 0 |
| MatGemm.NaiveReadsPastB | src/core/mat_gemm.cpp:93-101 | b of 4x5 under a product of 2x3x5: batch 1's written lin_b starts reading b at element 20, one past its end, where the aligned base is 0 |
| MatGemm.RowBaseAgrees | src/core/mat_gemm.cpp:248-249 | without broadcasting, i * step starts the batch the aligned lin selects |
| MatGemm.RowReadsPastB | src/core/mat_gemm.cpp:248-249 | b of 4x3 under a product of 2x2x4: batch 1 of the row kernel starts reading b at i * step_b = 12, one past its end |
| MatConvert.KindOfTypeOf | src/core/mat_convert.cpp:142-143 | each element type the table covers has one type code and back |
| MatConvert.ConvertFunc | src/core/mat_convert.cpp:140-236 | a converter the table returns reads the element type of stype and writes that of dtype |
| MatConvert.ConvertFuncCovers | src/core/mat_convert.cpp:58-236 | every provided pair of types gets its converter, equal types get a memcpy of their width, and the entry is null exactly for a pair without a converter |
| MatConvert.CopyWidths | src/core/mat_convert.cpp:124-137 | the memcpy entries move 1, 2 or 4 bytes per element as the type's width demands |
| MatConvert.TableAsWrittenMisplaces | src/core/mat_convert.cpp:143-233 | as written, 8u to 32s writes floats and a 32s source is read as floats, and the 16u and 16f rows swap their 8u and 8s entries |
| MatConvert.TableAsWrittenSmallTypes | src/core/mat_convert.cpp:145-187 | among the 8- and 16-bit integer types the written table is right except the swapped 8u and 8s entries of the 16u row |
| MatConvert.ElemSizes | src/core/mat_convert.cpp:124-137 | DT_ELEM_SIZE of the covered types: 1, 1, 2, 2, 4, 4, 2 and 4 bytes |
| MatConvert.ApplyClamps | src/core/mat_convert.cpp:18-27 | saturate_cast to an integer type keeps a value the type holds and otherwise gives the bound on its side |
| MatConvert.ApplyWidenRoundTrip | src/core/mat_convert.cpp:18-27 | converting to a type that holds every source value and back gives the value back |
| MatConvert.Converted | src/core/mat_convert.cpp:18-27 | a converter writes one element per source element |
| MatConvert.ConvertedInRange | src/core/mat_convert.cpp:18-27 | a conversion to an integer type leaves every element in its range, and leaves in-range elements as they are |
| MatConvert.ConvertedWidenRoundTrip | src/core/mat_convert.cpp:18-27 | widening a buffer and converting it back gives the buffer back |
| MatConvert.RunConverter | src/core/mat_convert.cpp:18-137 | dst[i] receives the converted src[i] for each i below length and nothing else changes |
| MatConvert.CopyTo | src/core/mat.cpp:459-488 | a dst of another type is left unchanged; an empty Mat releases dst; otherwise dst gets src's extents and type and a copy of its elements |
| MatConvert.CreateLike | src/core/mat.cpp:497-555 | dst.create(dims, size.p, type) gives dst src's extents, the type and total() cells, leaving src's cells as they were |
| MatConvert.ConvertTo | src/core/mat_convert.cpp:238-262 | an empty Mat releases m; equal types fall back on copyTo; otherwise m gets src's extents in the new type and the table's converter fills its total() elements (with the corrected converter table of Findings row 3) |
| MatExpression.ExprType | src/core/mat_expr.cpp:208-211 | the type of an expression is a's when a has elements, otherwise b's when b has (the corrected test) |
| MatExpression.TypeAsWrittenMisreads | src/core/mat_expr.cpp:208-211 | as written, -x for an int32 expression x builds AddEx(Mat(), x, 1, -1), whose type reads as DT_32F, where b's type is int32 |
| MatExpression.TypeAsWrittenAgrees | src/core/mat_expr.cpp:210 | the written test agrees with the corrected one exactly when a has elements or b and c have one type |
| MatExpression.Linear | src/core/basic_op.cpp:76-101 | element i is alpha * x[i] + beta * y[i] |
| MatExpression.Scaled | src/core/mat_expr.cpp:120-127 | element i is alpha * x[i] |
| MatExpression.Products | src/core/mat_expr.cpp:141-144 | element i is x[i] * y[i] |
| MatExpression.Quotients | src/core/mat_expr.cpp:145-148 | element i is x[i] / y[i] as C++ divides integers |
| MatExpression.Meaning | src/core/mat_expr.cpp:98-156 | an expression that stands for something stands for a Mat with elements of a's type and extents; values are exact integers over operands of one type and shape (see Left out) |
| MatExpression.Run | src/core/mat_expr.cpp:103-151 | every call the assigns make that succeeds yields a Mat with elements; values are exact integers over operands of one type and shape (see Left out) |
| MatExpression.AssignComputesMeaning | src/core/mat_expr.cpp:90-151 | assigning an expression into m computes what it stands for, and is refused exactly for alpha * a alone with alpha other than 1 and -1 |
| MatExpression.AssignOtherTypeLeavesM | src/core/mat_expr.cpp:105-139 | with a type other than -1 and a's, AddEx and Bin write into the local temp and m is left as it was |
| MatExpression.AssignAsWrittenAgrees | src/core/mat_expr.cpp:103-130 | the written AddEx assign differs from the intended one exactly for an expression with b, beta 1 or -1 and alpha other than 1 |
| MatExpression.AddExAsWritten | src/core/mat_expr.cpp:103-130 | the written AddEx assign writes into m exactly when no type or a's type is asked for, and asserts exactly for an expression without b whose alpha is neither 1 nor -1 |
| MatExpression.Assign | src/core/mat_expr.cpp:90-160 | an assign writes into m exactly when no type or a's type is asked for (into a temporary otherwise), and exactly a comparison writes nothing |
| MatExpression.AddExAsWrittenIgnoresAlpha | src/core/mat_expr.cpp:103-130 | (-a) + b folds into AddEx(a, b, -1, 1) and the written assign calls add(a, b): [1, 2] and [5, 7] give [6, 9] where the expression means [4, 5] |
| MatExpression.IdentityEvaluates | src/core/mat_expr.cpp:90-101 | a Mat as an expression is assigned as itself, and stands for itself when it has elements |
| MatExpression.Term | src/core/mat_expr.cpp:225-239 | an operand folded in (a and its alpha) or assigned (weight 1) stands for weight times the Mat |
| MatExpression.Add | src/core/mat_expr.cpp:217-244 | the fold of e1 + e2 stands for the element-wise sum of what e1 and e2 stand for |
| MatExpression.Subtract | src/core/mat_expr.cpp:246-273 | the fold of e1 - e2 stands for the element-wise difference, beta being minus e2's alpha |
| MatExpression.LinearOfTerms | src/core/mat_expr.cpp:246-273 | weighted terms with products u and v give alpha x - w y = u - v |
| MatExpression.Assigned | src/core/mat_expr.cpp:230-239 | an operand assigned out of an expression is what the expression stands for |
| MatExpression.Multiply | src/core/mat_expr.cpp:275-305 | without reciprocals the product expression stands for the element-wise product |
| MatExpression.Divide | src/core/mat_expr.cpp:307-334 | without reciprocals the quotient expression stands for the element-wise quotient when the divisor has no zero |
| MatExpression.FoldsAreNotReciprocal | src/core/mat_expr.cpp:215-334 | a folded product or quotient whose divisor has elements is never a reciprocal |
| MatExpression.NegativeMeans | src/core/mat_expr.cpp:381-387 | -a stands for the negated elements, and is refused exactly for an empty a |
| MatExpression.NegativeExpr | src/core/mat_expr.cpp:389-394 | -e folds into an AddEx that stands for the negation of the Mat e is assigned to, or of e's a when e is folded with weight 1 |
| MatExpression.OperatorMeans | src/core/mat_expr.cpp:351-488 | every operator on operands of one type and shape, none a reciprocal, builds an expression standing for the element-wise sum, difference, product or quotient |
| MatExpression.Operator | src/core/mat_expr.cpp:351-488 | the two-Mat operators are refused exactly when an operand is empty, the Mat-and-expression ones when the Mat is, and the expression-and-Mat ones never |
| MatExpression.EqualLeaves | src/core/mat_expr.cpp:489-495 | a == b is refused exactly for an empty operand, and its assign writes nothing |
| Backends.CpuMapTypes | src/backend/cpu/backend_cpu.cpp:48-57 | after the CPU registrations the map holds exactly the old types and the six CPU types, each CPU type with its layer class and the old ones as before |
| Backends.CpuLayersListed | src/backend/cpu/backend_cpu.cpp:48-57 | the six types are exactly those of the registration list, and each is mapped to the class listed with it |
| Backends.LayerFactory.constructor | src/core/backend.cpp:9-11 | a new registry is empty |
| Backends.LayerFactory.RegisterAllLayerBase | src/core/backend.cpp:17-20 | the base registerAllLayer is always an error |
| Backends.LayerFactory.RegisterLayer | src/core/backend.cpp:22-35 | an error with the map unchanged when the type is already registered; otherwise the map gains exactly that entry |
| Backends.LayerFactory.CreateLayerInstance | src/core/backend.cpp:37-50 | the registered constructor for the type, or the not-registered error |
| Backends.LayerFactory.CheckLayerSupported | src/core/backend.cpp:52-56 | true exactly when the type is registered |
| Backends.LayerFactory.RegisterCpuLayers | src/backend/cpu/backend_cpu.cpp:48-57 | on a map without any of the six types all are added and nothing else changes; if one is already there the call fails; the map only grows, and only by CPU types |
| Backends.Backend.constructor | src/core/backend.cpp:75-79 | the name, no memory counted and no factory |
| Backends.Backend.CheckLayerSupported | src/core/backend.cpp:58-63 | with a factory present, true exactly when the factory has the type |
| Backends.BackendCpu.constructor | src/backend/cpu/backend_cpu.cpp:18-43 | a factory holding exactly the six CPU registrations and an empty allocator with the default alignment (following the constructor backend_cpu.cpp:40-43 defines, which conflicts with the `= default` declaration at backend_cpu.h:19; see Left out) |
| Backends.BackendCpu.Supported | src/backend/cpu/backend_cpu.cpp:40-57 | the CPU backend supports exactly its six layer types |
| Backends.BackendCpu.CreateLayer | src/backend/cpu/backend_cpu.cpp:59-63 | for a supported type, the constructor registered for it |
| Backends.BackendCpu.AllocMat | src/backend/cpu/backend_cpu.cpp:65-71 | m's data becomes the block alloc(total() * DT_ELEM_SIZE(type)) returns: the first fitting non-null free block, else a fresh aligned block |
| Backends.BackendCpu.DeallocMat | src/backend/cpu/backend_cpu.cpp:73-78 | the block (data, total() * DT_ELEM_SIZE(type)) joins the free list; the used list and the total are unchanged |
| Embeddings.RowFits | src/backend/cpu/layer/embeding_layer.cpp:104-107 | row v of a weight with vocab rows of embd values lies inside it |
| Embeddings.ArrangedAccepts | src/backend/cpu/layer/embeding_layer.cpp:28-44 | the constructor accepts exactly a [vocab_dim, embd_dim] or [embd_dim, vocab_dim] weight and keeps vocab_dim * embd_dim values |
| Embeddings.ArrangedAt | src/backend/cpu/layer/embeding_layer.cpp:28-44 | the kept weight is [vocab_dim, embd_dim]: element (v, e) is the weight's entry for word v and feature e, read transposed when the weight was stored the other way round |
| Embeddings.Lookup | src/backend/cpu/layer/embeding_layer.cpp:96-108 | the embedding of L ids holds L * embd_dim values |
| Embeddings.LookupAppend | src/backend/cpu/layer/embeding_layer.cpp:51-108 | embedding a sequence is embedding its two parts one after the other, as prefill then decode |
| Embeddings.LookupStep | src/backend/cpu/layer/embeding_layer.cpp:102-108 | one more id appends its weight row |
| Embeddings.LookupRow | src/backend/cpu/layer/embeding_layer.cpp:102-108 | output row i is weight row ids[i] |
| Embeddings.EmbeddingLayer.Arrange | src/backend/cpu/layer/embeding_layer.cpp:14-37 | the layer keeps vocab_dim, embd_dim and the arranged weight |
| Embeddings.EmbeddingLayer.Create | src/backend/cpu/layer/embeding_layer.cpp:9-119 | a layer is made exactly when the weight has one of the two orientations, and then holds the weight as [vocab_dim, embd_dim] |
| Embeddings.EmbeddingLayer.Init | src/backend/cpu/layer/embeding_layer.cpp:59-73 | the output is set to the rank-3 shape [B, L, embd_dim] of a rank-2 input [B, L], keeping its type |
| Embeddings.EmbeddingLayer.Forward | src/backend/cpu/layer/embeding_layer.cpp:75-109 | output row i is weight row id[i] for each of the L ids, and the rest of the output buffer is unchanged |
| Embeddings.EmbeddingLayer.RowWritten | src/backend/cpu/layer/embeding_layer.cpp:105-107 | after one more row is copied the written part grows by that row and the rest is as at first |
| Embeddings.EmbeddingLayer.Gather | src/backend/cpu/layer/embeding_layer.cpp:96-108 | the loop writes the lookup of the first seqLen ids and leaves the rest of out unchanged |
| Embeddings.EmbeddingLayer.CopyRow | src/backend/cpu/layer/embeding_layer.cpp:107 | the memcpy puts embd_dim weight values at base and changes nothing else |
| LabMat.StdAllocate | test/opencv_lab/mat_test/mat.cpp:69-86 | a new record with no references of 4 times the product of the extents bytes, over data0 and marked user memory when it is given, else over a new fastMalloc block |
| LabMat.HeaderDims | test/opencv_lab/mat_test/mat.cpp:125-129 | the size buffer keeps the dimension count in p0[0] in front of the extents p[0..] |
| LabMat.SizeDimsAsWrittenMisreads | test/opencv_lab/mat_test/mat.cpp:131-135 | dims() as written returns p[0], the first extent: a [1, 3, 4] Mat has 1 dimension by it where it has 3 |
| LabMat.ScanExtentsAsWritten | test/opencv_lab/mat_test/mat.cpp:162-166 | the extent loop of MatSize::operator== as written answers true only when every extent pair up to d agrees, and false only at a pair that differs, before any read past either buffer |
| LabMat.SizeEqualAsWrittenConfuses | test/opencv_lab/mat_test/mat.cpp:155-170 | as written, a [1, 3, 4] Mat and a [1, 5, 6] Mat have equal sizes |
| LabMat.SizeEqual | test/opencv_lab/mat_test/mat.cpp:155-170 | with the count read from p0[0], two sizes are equal exactly when they hold the same extents |
| LabMat.SizeEqualAsWritten | test/opencv_lab/mat_test/mat.cpp:155-170 | the written comparison, taking the first extent for the count, answers false only for sizes whose extents differ, and true only for sizes with the same first extent |
| LabMat.TotalRangeAsWrittenAgrees | test/opencv_lab/mat_test/mat.cpp:439-450 | inside the extents, and for an empty range wherever it lies, the written loop gives the product over the clamped range |
| LabMat.TotalRangeAsWrittenOverruns | test/opencv_lab/mat_test/mat.cpp:439-450 | with endDim INT_MAX the written loop runs to endDim and reads past a [2, 3] Mat's extents, where the clamped product is 6 |
| LabMat.TotalRangeAsWritten | test/opencv_lab/mat_test/mat.cpp:439-450 | the written loop reads past the extents exactly when the range is not empty and its end lies past them |
| LabMat.SetSizeStart | test/opencv_lab/mat_test/mat.cpp:174-183 | setSize fails its assertion exactly when dim is outside 1..CV_MAX_DIM, and frees a pointer fastMalloc never returned exactly when dim is new and the size buffer is the `dims` field |
| LabMat.OverAsWrittenNeverBuilds | test/opencv_lab/mat_test/mat.cpp:260-272 | as written, Mat(dims, sizes, type, data) and its vector overload never build a Mat: no extents fail setSize's assertion and any other count frees the `dims` field, as [2, 3] shows |
| LabMat.SetSizeFromNoBuffer | test/opencv_lab/mat_test/mat.cpp:229-244 | with the `size(0)` of the other constructors setSize reaches the extents for every allowed count, where the `dims` field stops it |
| LabMat.Mat.constructor | test/opencv_lab/mat_test/mat.cpp:229-232 | no dimensions, no data, no record and FloatType |
| LabMat.Mat.Over | test/opencv_lab/mat_test/mat.cpp:260-272 | a Mat over the caller's buffer with the given extents and type and no record (with the size buffer starting empty, the corrected constructor of Findings row 15) |
| LabMat.Mat.SetSize | test/opencv_lab/mat_test/mat.cpp:174-197 | the new dimension count and extents; data, record and type unchanged |
| LabMat.Mat.Total | test/opencv_lab/mat_test/mat.cpp:428-437 | the loop computes the product of the extents |
| LabMat.Mat.TotalRange | test/opencv_lab/mat_test/mat.cpp:439-450 | the product over [startDim, min(endDim, dims)), the loop bound corrected to endDim_ |
| LabMat.Mat.AddRef | test/opencv_lab/mat_test/mat.cpp:468-472 | the record, if any, gains one reference and nothing else about it changes |
| LabMat.Mat.Release | test/opencv_lab/mat_test/mat.cpp:397-421 | the record loses one reference and, when that was the last, is deleted and its buffer freed unless it is user memory; the Mat is left without record or data and with every extent zero |
| LabMat.Mat.Reallocate | test/opencv_lab/mat_test/mat.cpp:362-389 | the old record is released, the Mat takes the new extents and type, a record of total() cells with one reference when there are elements and none otherwise, and data stays 0 |
| LabMat.Mat.CreateAsWritten | test/opencv_lab/mat_test/mat.cpp:336-390 | as written, the same Mat is left as it is and any other request leaves a Mat with a new record but no data, so it is still empty |
| LabMat.Mat.Take | test/opencv_lab/mat_test/mat.cpp:234-390 | c = Mat(sizes, type): the old record loses a reference; the new extents, type and a fresh record with data pointing at its buffer, or no record when there are no elements (with the corrected create of Findings row 11, which sets data) |
| LabMat.Mat.Create | test/opencv_lab/mat_test/mat.cpp:336-390 | the same Mat is left as it is; otherwise the new extents and type and a fresh record of total() cells with one reference, data pointing at its buffer |
| LabMat.Mat.Sized | test/opencv_lab/mat_test/mat.cpp:234-244 | Mat(sizes, type): the extents and type, and a fresh record of total() cells with one reference when there are elements (with the corrected create of Findings row 11, which sets data) |
| LabOperations.SubtractIsAddNegated | test/opencv_lab/mat_test/operations.cpp:113-171 | subtracting is adding the negation, element by element |
| LabOperations.NegateTwice | test/opencv_lab/mat_test/operations.cpp:144-171 | negating twice gives the elements back |
| LabOperations.AddThenSubtract | test/opencv_lab/mat_test/operations.cpp:51-142 | subtracting b undoes adding it |
| LabOperations.Commutes | test/opencv_lab/mat_test/operations.cpp:51-202 | add and multiply do not depend on the order of the operands |
| LabOperations.DivideTruncates | test/opencv_lab/mat_test/operations.cpp:204-233 | integer division truncates: the remainder is smaller than the divisor in magnitude and is zero or has the dividend's sign |
| LabOperations.Zip | test/opencv_lab/mat_test/operations.cpp:51-233 | the element loop stores a[i] op b[i] in c[i] for each i below n, aliasing allowed, and leaves the rest of c unchanged |
| LabOperations.Negate | test/opencv_lab/mat_test/operations.cpp:144-171 | the unary loop stores -a[i] in c[i] for each i below n and leaves the rest unchanged |
| LabOperations.UnaryCheckAsWrittenRejectsEmpty | test/opencv_lab/mat_test/operations.cpp:38-49 | as written, negating an IntType [2, 3] Mat into a new Mat() fails the check, since the empty c has FloatType and no extents |
| LabOperations.UnaryChecksAgree | test/opencv_lab/mat_test/operations.cpp:38-49 | on a c that is not empty the written and corrected checks are the same |
| LabOperations.UnaryCheckAsWritten | test/opencv_lab/mat_test/operations.cpp:38-49 | the written check passes only where the corrected one does, and fails where the corrected one passes exactly for an empty c unlike a |
| LabOperations.PreProcess | test/opencv_lab/mat_test/operations.cpp:25-36 | a and b must match; an empty c becomes a new Mat of a's extents and type, and one that is not empty must match too and is left as it is (with the corrected create of Findings row 11; as written c.data stays null) |
| LabOperations.PreProcessUnary | test/opencv_lab/mat_test/operations.cpp:38-49 | an empty c becomes a new Mat of a's extents and type, and one that is not empty must match a and is left as it is (with the corrected unary check of Findings row 13 and the corrected create of Findings row 11; as written c.data stays null) |
| LabOperations.Binary | test/opencv_lab/mat_test/operations.cpp:51-233 | after preProcessAndCheck, c has a's extents and type and c[i] = a[i] op b[i] for every element (with the corrected create of Findings row 11; as written c.data stays null) |
| LabOperations.Prepare | test/opencv_lab/mat_test/operations.cpp:53-57 | after preProcessAndCheck and total(), a and b are untouched, c has a's extents and type, and when there are elements all three hold exactly total() of them (with the corrected create of Findings row 11; as written c.data stays null) |
| LabOperations.ZipMats | test/opencv_lab/mat_test/operations.cpp:58-77 | with c matching a, the typed element loop leaves c holding a[i] op b[i] for every one of the total() elements of the old a and b |
| LabOperations.Add | test/opencv_lab/mat_test/operations.cpp:51-80 | c has a's extents and type and c[i] = a[i] + b[i] (with the corrected create of Findings row 11; as written c.data stays null) |
| LabOperations.Subtract | test/opencv_lab/mat_test/operations.cpp:113-142 | c has a's extents and type and c[i] = a[i] - b[i] (with the corrected create of Findings row 11; as written c.data stays null) |
| LabOperations.Multiply | test/opencv_lab/mat_test/operations.cpp:173-202 | c has a's extents and type and c[i] = a[i] * b[i] (with the corrected create of Findings row 11; as written c.data stays null) |
| LabOperations.Divide | test/opencv_lab/mat_test/operations.cpp:204-233 | for IntType, c has a's extents and type and c[i] = a[i] / b[i], truncated (with the corrected create of Findings row 11; as written c.data stays null) |
| LabOperations.Negative | test/opencv_lab/mat_test/operations.cpp:144-171 | with the corrected check, c has a's extents and type and c[i] = -a[i] (with the corrected unary check of Findings row 13 and the corrected create of Findings row 11) |
| LabOperations.NegateMats | test/opencv_lab/mat_test/operations.cpp:151-168 | with c matching a, the element loop leaves c holding -a[i] for every one of the total() elements and writes nothing else |
| Bytes.LittleEndianSplit | code_test/test1/gguf_reader.py:36-39 | a little-endian field splits at any byte: the low part plus 256^|low| times the high part |
| GgufReader.AsciiIsUtf8 | code_test/test1/gguf_reader.py:51-56 | every ASCII string decodes as UTF-8 |
| GgufReader.Utf8Concat | code_test/test1/gguf_reader.py:51-56 | strings that decode as UTF-8 still decode when concatenated |
| GgufLoader.AllocFitsIsChecked | src/core/memory_utils.cpp:7-23 | an allocation request fits exactly when the raw byte count MMemoryAllocAlign passes to malloc at the default alignment is `size + 8 + 64` itself; when it does not fit, the wrapped count is under 72 bytes |
| GgufLoader.FreadStrSpec | src/core/gguf_model/gguf_loader.cpp:256-276 | gguf_fread_str returns a string exactly when the length field is whole, the length is below SIZE_MAX - 72 and its n bytes are in the file, and that string is the n bytes after the length plus a NUL; it is undefined behaviour exactly when the whole length field holds a length within 72 of SIZE_MAX other than SIZE_MAX itself, whether or not bytes follow, since MMemoryCallocAlign's request then wraps (see Left out) |
| GgufLoader.StrLengthWraps | src/core/gguf_model/gguf_loader.cpp:264-272 | a length of SIZE_MAX - 1 passes the SIZE_MAX check, its n + 1 request wraps to a raw request of 71 bytes, and reading the next byte into that block is undefined behaviour |
| GgufLoader.StrLengthWrapsAtEnd | src/core/memory_utils.cpp:25-37 | a length of SIZE_MAX - 69 ending the file wraps to a raw request of 3 bytes, under the 8-byte header word MMemoryCallocAlign stores, and is undefined behaviour with no string byte left to read |
| GgufLoader.ReadKvsLoaded | src/core/gguf_model/gguf_loader.cpp:645-723 | a kv loop that finishes has read count pairs, every one loaded |
| GgufLoader.ReadDimsLength | src/core/gguf_model/gguf_loader.cpp:754-757 | an extent loop that finishes has read count extents |
| MemoryUtils.AlignedMemory.constructor | src/core/memory_utils.cpp:7-51 | no block is taken and no word stored |

## Left out

- File and memory-map I/O: `LLama_file`, `LLama_mmap` (except `align_range`), `gguf_fopen`, the streams of `readMatFromNpy` and NumPy's `memmap`. Each file is an already resident byte sequence.
- The data-size tail of `gguf_init_from_file` (src/core/gguf_model/gguf_loader.cpp:796-816) refers to an undefined `ggml_bloc` and returns nothing, so the model stops at the data offset. `LLama_loader` and `readGGUF` are empty.
- Floating-point arithmetic. This covers the float branches of the binary operators and of the lab operations, `setTo`/`operator=(float)`, `addWeighted`, the float/double/hfloat `saturate_cast` overloads, and rounding in the converters. Elements are integers. A float element stands at an integral value, and the fp16/fp32 conversions are bit functions.
- BasicOp.BinaryFunc: requires integer element kinds and an operation with a total integer kernel. Division by zero, POW, MOD and BITSHIFT through the kernel, and the float dispatch paths are not given results.
- BasicOp.BinaryOpHelper.Init: requires operands of equal rank. `BinaryOpHelper::init` reads `shape[idx]` before it tests `idx < 0`, so unequal ranks read outside the shape.
- `divide` of src/core/basic_op.cpp:208-211 calls `binaryFunc(DIV)`. It has no method of its own, because BasicOp.BinaryFunc requires a kernel defined on every element pair and DIV has no result for a zero divisor or INT_MIN / -1; BasicOp.Apply gives its element results. `compare` ends in `M_ERROR` for every input. `addWeighted` takes double coefficients and is left out as well.
- BasicOp.Apply: int32 ADD, SUB and MUL results are taken modulo 2^32. In C++ an int overflow is undefined, so on those inputs the model gives the two's-complement result rather than no result.
- BasicOp.SubThenAdd: for int32 elements the round trip rests on the modulo-2^32 reading of Apply. In C++ it holds only where a - b does not overflow.
- BasicOp.SubtractThenAdd: the same caveat, for whole int32 Mats.
- BasicOp.SubThenAddAll: the same caveat, element by element.
- MatExpression: the double coefficients alpha and beta are integers. The compound assignments (`+=`, `-=`, `*=`, `/=`) are left out.
- MatExpression.Meaning: computes over exact integers and only for operands of one type and one shape. The basic operations an expression ends in broadcast unequal shapes and store each result into the element type, so a result out of the type's range or a broadcast pair is not covered.
- MatExpression.Run: the same restriction for each call an assign makes. The calls themselves, with broadcasting and stores into the element type, are BasicOp's.
- MatConvert.Converted: is defined only on values the converter accepts. A negative float converted to 32u goes through `static_cast<unsigned>`, which is undefined in C++, and is not modelled.
- LabOperations: the operands must hold their elements in a record of their own (`Holds`). A lab Mat over caller memory, with elements and no record, is not modelled as an operand.
- Backends: the numbering of the `LayerType` enumeration, the mutex of the layer registry, `~BackendCPU`, `Backend::getAllMemory` and `getName` are left out. The last three only free memory or return a field.
- CoreAutoBuffer.AutoBuffer.Release: `release()` at src/core/autobuffer.h:58 calls `MUMemoryFreeAlign`, which no file declares, so the header does not compile as given. The model frees through `MMemoryFreeAlign` (src/core/memory_utils.cpp:42-51), the free that matches the `MMemoryAllocAlign` of `allocate`.
- Backends.BackendCpu.constructor: src/backend/cpu/backend_cpu.h:19 declares `LayerFactoryCPU() = default;` while src/backend/cpu/backend_cpu.cpp:40-43 defines the same constructor to call `registerAllLayer()`, a redefinition that does not compile. The model follows the .cpp, whose registrations are the point of the class.
- LabOperations: int and size_t wrap-around of the element loops is not modelled. Signed overflow in C++ is undefined.
- LabOperations.Divide: requires IntType elements. The float branch is left out.
- LabOperations.SameTypeAndSize: compares extents with the corrected `MatSize` equality (Findings row 5), not with the `dims()` as written.
- LabMat: `copyTo` and `clone` are left out. `c = Mat(...)` is modelled as `Take` because `operator=` is commented out in the source. Take builds the new Mat with the corrected `create` (Findings row 11).
- Embeddings.EmbeddingLayer.Forward: requires every token id to be a row of the vocabulary. The source reads out of bounds for other ids and does not check them.
- GgufReader.ReadString: the reported length `w + n` is exact. In the source, `str_length` is a NumPy uint64 scalar, and the sum can wrap for lengths near 2^64. That wrap is not modelled.
- MemoryUtils.AlignedMemory.AllocAlign: a null malloc result gives null, as the `if (!origin)` branch does. The `M_ASSERT(origin != NULL)` before that branch is not modelled as a stop, so the method also covers a build in which `M_ASSERT` does nothing. The loader's own `M_ASSERT`s, which file bytes trigger, are the Abort outcome.
- GgufLoader.FreadStr: malloc and calloc are taken to succeed for every request that does not wrap; a null result for a huge but representable length is not modelled.
- GgufLoader.FreadStr: a length within 72 of SIZE_MAX is undefined behaviour whatever follows it. Below 8 wrapped bytes the header word lands past the block at once; from 8 to 71 bytes whether anything lands past it depends on the address calloc returns and on the bytes left to read. A raw request that wraps to 0 bytes, for which calloc may return null and fail the `M_ASSERT`, is treated the same way.
- GgufLoader.ReadArray: a count whose allocation request wraps is undefined behaviour outright. MMemoryAllocAlign stores its header word first, which lands past a wrapped block of under 8 bytes; for a larger wrapped block the write past it comes with the element read or the string loop, or, with no bytes left, depends on the address malloc returns.
- GgufLoader.ReadArray: the loader and gguf_utils call `MMemoryAllocAlign` with one argument (src/core/gguf_model/gguf_loader.cpp:692, 705, 736; src/core/gguf_model/gguf_utils.cpp:74, 94), but src/core/memory_utils.h:26 declares two. The model takes the missing alignment to be `M_MEMORY_ALIGN_DEFAULT`.
- Saturate.SaturateCast: requires `SubtractionFits`. The schar, short and int specialisations from int or int64 compute `v - T_MIN` in the source type (include/minfer/saturate.h:74, 79, 92, 96, 100), which overflows, undefined in C++, for v within |T_MIN| of the source's maximum. Those inputs get no result.
- Saturate.SaturateCastClamps, Saturate.ToSCharClamps, Saturate.ToShortClamps, Saturate.ToIntClamps: the same excluded inputs, so the clamp is not promised there.
- CoreAllocator, CoreMat, CoreTensor: block sizes, element counts and byte totals are exact integers. A product or sum of extents that would wrap `size_t` is not modelled.
- Reference counts are plain integers. The `M_XADD` atomics are not modelled, and neither is any other concurrency.
- Printing and formatting: `print`, `printShape`, `format`, `m_vsnprintf` and the printf text of `Exception` messages.
- Layers other than the embedding layer, `Net`, `Runtime` and the vocabulary code are outside the core. So are the tests, whose bodies serve only as evidence.

## Findings

| source | as written | input that shows it | evidently intended | confidence | as-written member | corrected member |
|---|---|---|---|---|---|---|
| code_test/test1/gguf_reader.py:59-62 | tags UINT8 and INT8 call `data_get(data, np.uint8)`, so the dtype is passed as the offset and no dtype is given | any UINT8 value, e.g. the one-byte buffer [7] | a one-byte read at the offset, consuming 1 byte | not executed | GgufReader.UInt8BranchDiscrepancy | GgufReader.ReadValue |
| src/core/gguf_model/ggml_quant.h:230-239 | the Q8_0 traits entry gives no `type_size`, so it is 0 | a row of 32 Q8_0 elements gets a size of 0 bytes | `sizeof(block_q8_0)` = 34 bytes per block | not executed | GgmlQuant.Q8RowSizeAsWritten | GgmlQuant.RowSizeIsBlocks |
| src/core/mat_convert.cpp:143-233 | the converter table's rows and columns put 32f at 4 and 32s at 5, but define.h has DT_32S = 4 and DT_32F = 5; the 8u and 8s entries of the 16u and 16f rows are swapped | converting DT_32S to DT_8U picks a converter that reads floats | every entry converts from its row's type to its column's type | not executed | MatConvert.TableAsWrittenMisplaces | MatConvert.ConvertFuncCovers |
| src/core/mat_expr.cpp:103-130 | the AddEx assign adds or subtracts b and ignores alpha | (-a) + b with a = [1, 2] and b = [5, 7] gives [6, 9] | alpha * a + beta * b = [4, 5] | not executed | MatExpression.AddExAsWrittenIgnoresAlpha | MatExpression.AssignComputesMeaning |
| test/opencv_lab/mat_test/mat.cpp:131-170 | `MatSize::dims()` returns `p[0]`, the first extent, not the dimension count | [1, 3, 4] and [1, 5, 6] compare equal | the dimension count at `p[-1]`, so the two differ | not executed | LabMat.SizeEqualAsWrittenConfuses | LabMat.SizeEqual |
| src/core/utils.cpp:67-68 | fp32_to_fp16 clamps when the magnitude exceeds 0x8e000000, which no magnitude under 2^31 can reach | 0x7f000000 converts to 0x3800 | a clamp to 0x7bff above 0x47000000 | not executed | Half.ClampNeverApplies | Half.Fp32ToFp16ClampedFields |
| src/core/basic_op.cpp:330-391 | `get_step_func` counts steps in blocks of the last dimension, but `binary_forward` uses them as element offsets | adding two 2x3 Mats, output element 3 reads input element 1 | element steps, with 0 on broadcast dimensions | not executed | BasicOp.AsWrittenRowMisread | BasicOp.SameShapeReads |
| src/core/mat_gemm.cpp:61-98 | the naive kernel pairs batch dimensions from the left, and `out_loop` counts a's batches only | b = [4, 5] under a = [2, 3, 4] is read at offset 20; [3, 4] x [2, 4, 5] runs one batch | numpy broadcasting from the right over the product's batch dimensions | not executed | MatGemm.NaiveReadsPastB | MatGemm.Batches |
| src/core/mat_gemm.cpp:248-250 | the row kernel offsets b by `i * step_b` for every batch i | b = [4, 3] under a = [2, 2, 3] is read at offset 12 | b's broadcast batch offset | not executed | MatGemm.RowReadsPastB | MatGemm.Kernel |
| src/core/mat_expr.cpp:208-211 | the expression type tests `b.empty() ? b.type() : c.type()` | -e for an int32 expression e reads as DT_32F | a's type, then b's, then c's, whichever is present first | not executed | MatExpression.TypeAsWrittenMisreads | MatExpression.ExprType |
| test/opencv_lab/mat_test/mat.cpp:336-390 | `create` allocates a record but never sets `data` | any non-empty create leaves the Mat empty | `data` points at the new record's buffer | not executed | LabMat.Mat.CreateAsWritten | LabMat.Mat.Create |
| test/opencv_lab/mat_test/mat.cpp:439-450 | `total(startDim, endDim)` loops to `endDim`, not to the clamped end | [2, 3] with endDim = INT_MAX reads past the extents | the product of the extents up to min(endDim, dims) | not executed | LabMat.TotalRangeAsWrittenOverruns | LabMat.Mat.TotalRange |
| test/opencv_lab/mat_test/operations.cpp:38-49 | the unary check compares a with c even when c is empty | negating an INT [2, 3] Mat into `Mat()` fails | an empty c is given a's shape first, as the binary check does | not executed | LabOperations.UnaryCheckAsWrittenRejectsEmpty | LabOperations.Negative |
| src/core/memory_utils.cpp:13 | `size + sizeof(void*) + alignment` wraps modulo 2^64 | size 2^64 - 8 with alignment 64 calls malloc(64) | refuse a request whose sum does not fit in size_t | not executed | MemoryUtils.RawRequestWraps | MemoryUtils.AlignedMemory.AllocAlign |
| test/opencv_lab/mat_test/mat.cpp:260-272 | the constructors over a caller's buffer initialise `size(&dims)`, so setSize's `fastFree(m.size.p0)` frees the Mat's own `dims` field | sizes [2, 3] over any buffer | `size(0)`, as the other constructors, so setSize allocates a fresh size buffer | not executed | LabMat.OverAsWrittenNeverBuilds | LabMat.Mat.Over |
