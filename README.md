# environ: a Dafny model of the struct/map ⇄ environment transcoder

environ turns a Go struct or map into flat `KEY=VALUE` strings of the kind a process
environment holds, and reads such strings back into a struct or map. This project models its
core:

- **type classification** (`is.go`): `kinds.dfy`;
- **encoder** (`marshal.go`): `marshal.dfy`;
- **key store and decoder** (`unmarshal.go`): `envmap.dfy` and `unmarshal.dfy`.

Supporting modules:

- `wrappers.dfy` holds the Option and Result types.
- `text.dfy` covers the parts of Go's `strings`, `strconv` and `sort` packages that the code calls, over ASCII text.
- `values.dfy` covers reflected values, zero values, integer conversion and `%v` for scalars.
- `csv.dfy` is a single-record CSV writer and reader following section 2 of RFC 4180, with the quoting and line-end rules of Go's `encoding/csv` under its default settings.
- `roundtrip.dfy` connects the encoder to the decoder.

How each part is modelled:

- **Reflection.** `reflect.Type` becomes the datatype `Kinds.Type`, and `reflect.Value` becomes `Values.Value`.
- **Encoder.** Its Go loops only append to a fresh local slice, so each is a recursive function returning the sequence of entries.
- **Key store.** `envMap` is the class `EnvStore.EnvMap`. Its `data`, `left` and `found` maps are fields that its methods reassign.
- **Decoder.** The decoder writes into its destination in place. Here each decoding method takes the destination's current value and returns the new value with the error, and the key store is the object it changes.
- **Decoder loops.** The decoder's loops are `while` loops. Each is proved against a function that specifies the outcome:
  - `Collect`/`FlatCoercions` for the fields of a struct;
  - `DecodeScalarMap` for the keys of a map;
  - `DecodeScalars` for the fields of a CSV record.

Both directions are shown to fit together: `RoundTrip.MarshalThenUnmarshal` encodes a flat struct (all fields exported scalars) under a prefix and decodes the entries into a fresh struct. It returns no error and exactly the original values.

## Model

| member | source | states |
|---|---|---|
| Kinds.ClassifiersFollowKind | is.go:7-46 | each classifier holds exactly for its own kind; isInt holds for exactly the ten kinds Int…Int64 and Uint…Uint64 (not Uintptr or floats) |
| Kinds.ScalarMeansBoolIntOrString | is.go:48-51 | isScalar holds iff isBool, isInt or isString holds, i.e. iff the type is a bool, an integer or a string |
| Kinds.SingleKindsExclusive | is.go:7-46 | at most one of isBool, isString, isStruct, isMap, isSlice, isInterface and isPtr holds |
| Kinds.PtrIsNotDispatched | is.go:44-51 | a pointer type is never scalar, struct, map or slice |
| Kinds.ValidUnwrapsOnePointer | is.go:53-61 | isValid(Ptr(t)) == isValid(t) for a non-pointer t; a pointer to a pointer and an interface are invalid; a type is valid iff after at most one dereference it is scalar, struct, slice or map |
| Text.SplitAtEquals | unmarshal.go:67-74 | None iff the entry has no `=`; otherwise entry == key + "=" + value with no `=` in the key, i.e. the split is at the first `=` |
| Text.IndexOf | unmarshal.go:67-70 | None iff the character is absent; otherwise its first position |
| Text.TrimPrefix | unmarshal.go:72 | with the prefix present, prefix + result == input; otherwise the input unchanged |
| Text.ToUpperAppend | marshal.go:131 | upper-casing distributes over concatenation, so a path's upper-cased form is the concatenation of its upper-cased segments |
| Text.ToUpperIdempotent | marshal.go:277 | upper-casing an already upper-cased path changes nothing, so the decoder's path and the encoder's key agree |
| Text.Atoi | unmarshal.go:264 | a parsed value lies in the int64 range |
| Text.AtoiItoa | unmarshal.go:264 | Atoi reads the decimal text of every int64 back as the same number |
| Text.InsertSorted | unmarshal.go:30-33 | inserting a new key into a strictly sorted list keeps it strictly sorted and adds exactly that key |
| Text.SortedUnique | unmarshal.go:33 | two strictly sorted lists with the same elements are equal, so the sorted key list is unique |
| Values.Wrap | unmarshal.go:268 | the converted integer lies in the range of the target kind |
| Values.WrapMeaning | unmarshal.go:268 | conversion keeps the value modulo 2^width, and a value already in range is unchanged |
| Values.Zero | unmarshal.go:159 | the zero value of a type (`reflect.New(t).Elem()`) has that type |
| Csv.WriteRecord | marshal.go:238-242 | the written record ends with a line feed |
| Csv.CrLfToLf | unmarshal.go:202-203 | turning CR LF pairs into LF adds no character, and keeps a first character that is not CR |
| Csv.StripLineEnd | marshal.go:242-243 | cutting the last character off the written record leaves exactly the comma-joined, quoted fields |
| Csv.ReadRecord | unmarshal.go:202-203 | empty input is the end-of-input error; a record read has at least one field |
| Csv.NormalizeKeeps | unmarshal.go:202-203 | text with no CR LF pair and no final CR passes the reader's line normalisation unchanged |
| Csv.NormalizePrefix | unmarshal.go:202-203 | a leading run without CR passes the line normalisation unchanged, in front of the normalised rest |
| Csv.JoinedNoCrLf | marshal.go:238-242 | joined fields that hold no CR LF pair contain none and do not end in CR |
| Csv.ReadJoined | unmarshal.go:202-203 | reading the joined fields of any non-empty list gives that list back, including commas, quotes and line breaks inside fields |
| Csv.RoundTrip | unmarshal.go:202-206 | the reader inverts the writer whenever the joined text is non-empty and no field holds a CR LF pair |
| Csv.CrLfNotKept | unmarshal.go:202-206 | a CR LF pair inside a quoted field reads back as a LF alone |
| Csv.EmptyValuesDoNotRoundTrip | marshal.go:238-243 | an empty slice and the slice `[""]` both encode as "", which the reader rejects with end of input |
| Csv.QuotelessUnclosed | unmarshal.go:203-206 | the rest of a quoted field holding no quote at all is the quote error |
| Csv.UnclosedQuoteRejected | unmarshal.go:203-206 | every record whose first field opens a quote that is never closed is the quote error |
| Csv.BareQuoteRejected | unmarshal.go:203-206 | every record whose first field is unquoted and holds a quote is the bare-quote error, whatever follows the field |
| Csv.StrayAfterQuoted | unmarshal.go:203-206 | a quoted field followed by anything other than a comma, a line end or the end of input is the quote error |
| Marshal.MarshalRoot | marshal.go:81-114 | error iff the argument is not a pointer to a struct or a map, the pointer error iff it is not a pointer at all; on success every entry starts with the prefix and has a `=` after it; a nil root yields no entries |
| Marshal.PrefixMapping | marshal.go:106-113 | the prefixed and unprefixed calls fail alike; on success the prefixed list has the same length and order, each element being the prefix plus the unprefixed element |
| Marshal.MarshalScalar | marshal.go:269-279 | "" iff the value is a nil pointer; otherwise the entry is the upper-cased path followed by `=` and the `%v` text of the dereferenced value |
| Marshal.Dispatch | marshal.go:146-159 | every entry lies under the path, and for a struct or map under `path.`; kinds other than scalar, slice, map and struct, and nil pointers, yield no entries |
| Marshal.MarshalStruct | marshal.go:116-125 | a nil struct pointer yields no entries; every entry lies under the struct's path |
| Marshal.MarshalFields | marshal.go:127-165 | the fields' entries all lie under the struct's path |
| Marshal.MarshalField | marshal.go:128-163 | a field whose name starts with a lower-case letter, and a nil pointer field, yield no entries; all others lie under path + UPPER(field name) |
| Marshal.FlatFieldEntry | marshal.go:146-152 | an exported scalar field yields exactly one entry, `UPPER(path)=text` |
| Marshal.FlatStructEntries | marshal.go:127-165 | a struct of exported scalar fields yields exactly one entry per field, in declaration order |
| Marshal.MarshalMap | marshal.go:168-210 | a nil map pointer yields no entries; every entry lies under the map's path |
| Marshal.EntryEntries | marshal.go:187-203 | one map entry's output lies under path + UPPER(`%v` of the key) |
| Marshal.MarshalEntries | marshal.go:186-208 | all map entries' outputs lie under the map's path |
| Marshal.MarshalEntriesAppend | marshal.go:186-208 | the output for two runs of map entries is the concatenation of their outputs |
| Marshal.EntriesOrderIrrelevant | marshal.go:186 | any iteration order of the map's entries yields the same multiset of strings |
| Marshal.ScalarTexts | marshal.go:231-237 | the i-th text is the `%v` text of the i-th (dereferenced) element |
| Marshal.MarshalSlice | marshal.go:212-267 | a nil slice pointer yields no entries; every entry lies under the slice's path |
| Marshal.ScalarSliceEntry | marshal.go:230-244 | a slice of scalars yields exactly one entry: `UPPER(path)=` followed by the CSV record of the element texts without its line end |
| Marshal.MarshalElems | marshal.go:247-264 | the entries of the elements of a non-scalar slice all lie under the slice's path |
| Marshal.MarshalElemsCons | marshal.go:247-264 | the entries of element i come first, all under `path.i` (`path.i.` for a struct or map element), followed by those of the later elements with the next indices |
| Marshal.MarshalElemsBlocks | marshal.go:247-264 | a non-scalar slice's entries are exactly its elements' entries (element i marshalled under `path.i`) concatenated in index order |
| Marshal.FlattenOwner | marshal.go:263 | each entry of the appended per-element results comes from one element's block and lies under that element's path |
| Marshal.ElemsUnderIndices | marshal.go:247-264 | every entry of a non-scalar slice lies under `path.j` (`path.j.` for struct or map elements) for the index j of one of its elements |
| Marshal.MarshalToMap | marshal.go:53-64 | fails iff marshal fails; otherwise every entry has a `=` and the map is the entries split at their first `=` |
| Marshal.EntriesToMapHasKeys | marshal.go:57-62 | every entry's key is a key of the map |
| Marshal.EntriesToMapOnlyKeys | marshal.go:57-62 | every key of the map is some entry's key |
| Marshal.LastEntryWins | marshal.go:57-62 | a key takes its value from the last entry that has it |
| EnvStore.EnvKey | unmarshal.go:66-75 | an entry contributes a key iff it has a `=` and the text before the first `=` starts with the prefix; the prefix plus the key is that text |
| EnvStore.ParseEnv | unmarshal.go:59-78 | the store's keys are exactly the keys some entry contributes |
| EnvStore.ParseEnvLastWins | unmarshal.go:66-76 | a later entry with the same key overwrites an earlier one: a key holds the value of its last entry |
| EnvStore.EnvMap.constructor | unmarshal.go:59-78 | data is the parsed entries, left equals data, found is empty, and the store invariant holds |
| EnvStore.EnvMap.Get | unmarshal.go:21-26 | returns the remaining value or "" when the key is not left, records that value in found, removes the key from left, and changes nothing else; a second Get of the key returns "" |
| EnvStore.EnvMap.Keys | unmarshal.go:28-35 | exactly the keys of left, in strictly ascending order |
| EnvStore.EnvMap.HasKeyPfx | unmarshal.go:37-44 | true iff some key of left starts with the given text |
| EnvStore.EnvMap.HasKey | unmarshal.go:46-49 | true iff the key is in left |
| EnvStore.EnvMap.UnsetKeys | unmarshal.go:51-57 | the variables UnsetEnv would remove: exactly the prefix plus each consumed key |
| Unmarshal.SetScalarDirect | unmarshal.go:258-273 | a well-typed destination stays well-typed, and on an error the destination is unchanged |
| Unmarshal.SetScalarDirectMeaning | unmarshal.go:258-273 | bool: never fails, and ends true iff the text lower-cases to "true" or it was true; integer: fails iff Atoi fails, otherwise holds Atoi's value converted to the width; string: set to the text; any other kind: the unknown-scalar error |
| Unmarshal.SetScalar | unmarshal.go:249-257 | a pointer destination is allocated when nil and the scalar is set through it; a non-pointer one is set directly |
| Unmarshal.BoolNeverCleared | unmarshal.go:259-262 | a bool that is true stays true whatever the text |
| Unmarshal.ScalarRoundTrip | unmarshal.go:258-270 | the `%v` text of a scalar, read into a zero destination, gives the same scalar (integers in the int64 range) |
| Unmarshal.LargeUnsignedRejected | unmarshal.go:264-267 | a uint64 above the int64 maximum, written as text, is rejected with a range error |
| Unmarshal.SetIndex | unmarshal.go:186 | SetMapIndex: the new entry is present, other keys keep their entries, nothing else is added, and keys stay distinct |
| Unmarshal.DecodeScalars | unmarshal.go:207-214 | on success one element per field, each the field coerced into a zero element |
| Unmarshal.DecodeScalarsErrSticks | unmarshal.go:209-212 | once a prefix of the record fails, the whole record fails with that error |
| Unmarshal.DecodeScalarMap | unmarshal.go:155-188 | on success a map of the destination's type |
| Unmarshal.DecodeScalarMapFolds | unmarshal.go:155-188 | the loop over the sorted keys equals the fold, in key order, of what each key contributes (nothing off the path, else its decoded entry or error) |
| Unmarshal.FoldEntriesOk | unmarshal.go:165-184 | the fold succeeds iff every contributed item is an entry; otherwise its error is one item's error |
| Unmarshal.FoldEntriesMeaning | unmarshal.go:165-186 | a successful fold has distinct keys and an entry for the key of every contributed entry; its entries are exactly those of the items that no later item overrides with the same key |
| Unmarshal.DecodeScalarMapOk | unmarshal.go:155-188 | the map decodes iff every key under the path decodes (key suffix and stored text both coerce); otherwise the error is that of one such key |
| Unmarshal.DecodeScalarMapEntries | unmarshal.go:155-188 | the decoded map holds an entry for the map key of every key under the path, and exactly the entries of the keys that are last in ascending order among those decoding to the same map key |
| Unmarshal.DecodeScalarMapErrSticks | unmarshal.go:167-184 | once a prefix of the key snapshot fails, the whole map decode fails with that error |
| Unmarshal.DecodeScalarEntry | unmarshal.go:158-174 | succeeds iff both the key suffix and the value text coerce; then the entry holds those coerced values |
| Unmarshal.CollectMeaning | unmarshal.go:140-142 | a run of field coercions succeeds iff none failed, then holds their values in order; otherwise it holds the first error |
| Unmarshal.UnmarshalEnv | unmarshal.go:80-95 | a non-pointer is the pointer error and a pointer to something other than a struct the not-struct-or-map error, the value untouched; for a flat struct the outcome is the field coercions against the store built from the entries |
| Unmarshal.UnmarshalStruct | unmarshal.go:97-145 | keeps the store invariant and only consumes keys; the result is a well-typed, non-nil struct; for a flat struct the outcome is each field coerced in order from its path, stopping at the first error |
| Unmarshal.UnmarshalFields | unmarshal.go:107-144 | the field loop: fields stay well typed; for flat structs the outcome equals Collect of the field coercions |
| Unmarshal.UnmarshalField | unmarshal.go:108-138 | a non-nil pointer field, or a nil one with no remaining key under its path, is left as it is and consumes nothing; a nil valid pointer with such a key is allocated; a scalar field is coerced from Get(path) and only that key is consumed |
| Unmarshal.UnmarshalNested | unmarshal.go:129-138 | kinds other than struct, map and slice leave the value and the store unchanged with no error |
| Unmarshal.UnmarshalMap | unmarshal.go:147-191 | on error the destination is unchanged; on success it is replaced by a new map; for scalar values the outcome is the decode of the sorted key snapshot |
| Unmarshal.UnmarshalMapKeys | unmarshal.go:155-188 | the loop over the one-time sorted snapshot yields a well-typed map, and for scalar values exactly DecodeScalarMap of the snapshot |
| Unmarshal.UnmarshalMapEntry | unmarshal.go:156-186 | the entry for one key: for scalar values the key suffix and Get(key) coerced, and only that key consumed |
| Unmarshal.KeyStillLeft | unmarshal.go:155-174 | with scalar values, each key of the snapshot is still left with its original value when the loop reaches it |
| Unmarshal.UnmarshalSlice | unmarshal.go:193-247 | a scalar slice consumes exactly its path and yields the CSV decode of its value; a non-scalar slice yields elements for indices 0..n-1, each of which had a key under `path.i` in the store as it was when the call began, and at the end no key under `path.n` remains |
| Unmarshal.UnmarshalScalarSlice | unmarshal.go:201-217 | consumes exactly the slice's path; a read or coercion error leaves the slice unchanged; otherwise the slice is the coerced fields of the record |
| Unmarshal.DecodeRecord | unmarshal.go:207-214 | the coercion loop over a record's fields computes DecodeScalars |
| Unmarshal.UnmarshalElems | unmarshal.go:219-246 | the index probe loop: the elements decoded are those at indices with a remaining key under `path.i`, stopping at the first gap |
| Unmarshal.IndexBelowBound | unmarshal.go:219-243 | an index with a remaining key under `path.i` is below 10 to the longest key length, so the probe loop terminates |
| RoundTrip.FlatEncoding | marshal.go:127-165 | a pointer to a flat struct encodes as one prefixed entry per field, in declaration order |
| RoundTrip.FlatStoreAt | unmarshal.go:66-75 | the store built from that encoding maps each field's path to the field's text |
| RoundTrip.FlatRoundTrip | marshal_test.go:45-61 | encoding then parsing and coercing every field gives back the original field values |
| RoundTrip.MarshalThenUnmarshal | unmarshal_test.go:128-146 | MarshalPfx then UnmarshalEnv into a fresh struct with the same prefix returns no error and the original struct |
| RoundTrip.ScalarSliceRoundTrip | unmarshal_test.go:94-101 | the entry a non-empty scalar slice encodes to decodes back to the same elements when no element holds a CR LF pair |

## Left out

- Setting the process environment: `MarshalAndSet` and `MarshalPfxAndSet` (marshal.go:33-46, 66-79) only loop over `os.Setenv`, so they are I/O. `envMap.UnsetEnv` (unmarshal.go:51-57) calls `os.Unsetenv`; only the set of names it would remove is modelled (`EnvMap.UnsetKeys`).
- `Marshal` and `MarshalPfx` are single calls of `marshal` and are modelled by `MarshalRoot`. `MarshalMap` and `MarshalMapPfx` are modelled by `MarshalToMap`.
- `reflect` itself is replaced by the `Type` and `Value` datatypes. The decoder returns the new value of its destination rather than writing through `reflect.Value.Set`. It therefore does not model two Go values that share memory.
- Go map iteration order is not determined: a map value lists its entries in some order, and the encoder's map properties are stated for every order (`EntriesOrderIrrelevant`, a multiset).
- `encoding/csv` details beyond one record are omitted: records after the first, the `UseCRLF` writer mode, field-count checks, error texts and positions. The quoting rules and the reader's line normalisation are modelled.
- An element that holds a CR LF pair does not round-trip: the reader turns the pair into a LF (`Csv.CrLfNotKept`), so `Csv.RoundTrip` and `RoundTrip.ScalarSliceRoundTrip` require elements without one.
- `fmt`'s `%v` is modelled only for bool, integer and string values. Map keys are restricted to scalar types for this reason.
- A Go type is represented by its kind alone; named types are not distinguished from the built-in type of the same kind. Two consequences are not modelled:
  - the decoder sets bools and strings without a conversion (unmarshal.go:261, 270), so Go panics for a named bool or string type such as `type Level string`; for a string it does so even when the key is absent, since `Get` then gives "". The model sets such a field like a plain bool or string. Integers are converted (unmarshal.go:268), so named integer types behave as modelled;
  - `%v` (marshal.go:236, 278) calls the `String` method of a type that defines one (for example `time.Duration`, kind int64, printed as "1m0s"); the model always prints the plain value.
- Decoding then encoding, the order marshumarsh_test.go runs, is not proved; the round trip proved is encoding then decoding (`RoundTrip.MarshalThenUnmarshal`).
- Case mapping is ASCII only. Field names are taken to start with an ASCII letter, so "starts with a lower-case letter" means "unexported".
- Go panics are preconditions and are not modelled as behaviour:
  - a `*map` root in the decoder, where `reflect.MakeMap` gets the pointer type (unmarshal.go:149);
  - a pointer to a map or slice as a slice element or map value in the decoder;
  - an unexported field of a kind the decoder handles. Go panics only when it actually sets the field, which it does not for a bool whose text is not "true" or an integer whose text Atoi rejects; the model excludes every such field;
  - a nil root struct pointer in the decoder, which is not settable;
  - a nil element in a scalar slice in the encoder (marshal.go:233-236).
- Pointer map keys in the decoder are excluded. Go does not panic there: it allocates a fresh pointer for every key (unmarshal.go:166-167, 251-254), and `Value` has no pointer identity to express distinct keys with equal targets.
- Integers are parsed with `strconv.Atoi` into an int64 and then converted. Unsigned 64-bit values above the int64 maximum therefore do not round-trip (`LargeUnsignedRejected`).
- An empty scalar slice and the slice `[""]` do not round-trip; both encode as an empty value (`Csv.EmptyValuesDoNotRoundTrip`).
- The encoder's error path for child calls (marshal.go:160-162, 204-206, 260-262) is not modelled because no child call can fail: the CSV writer's error is ignored and no other child returns one.
- MarshalToMap: when marshal fails, Go returns an empty map together with the error; the model returns the error alone.
- MarshalFields: one entry per scalar leaf is proved only for flat structs (`FlatStructEntries`). For nested structs, maps and slices the contracts state where each entry lies, not how many entries there are.
- UnmarshalStruct: the exact outcome is stated only for flat structs (every field an exported scalar); for nested fields the contract states typing and the store frame only.
- UnmarshalFields: the exact outcome is stated only for flat structs, as for UnmarshalStruct.
- UnmarshalEnv: the exact outcome is stated only for a pointer to a flat struct. A pointer-to-map root panics in Go and is excluded by the precondition.
- UnmarshalMap: the exact outcome is stated only for maps with scalar values. Non-scalar values recurse with the key suffix rather than the full path (unmarshal.go:176-180), and for them only typing and the store frame are stated.
- UnmarshalMapKeys: the exact outcome is stated only for scalar values, as for UnmarshalMap.
- UnmarshalSlice: for a non-scalar slice the contract states which indices are decoded and where the loop stops, not the element values.
- UnmarshalElems: states the indices decoded and the stop condition, not the element values.
