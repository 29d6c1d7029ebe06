# redb-cli value codec, in Dafny

redb-cli reads and writes redb tables whose key and value types are only
known at run time. A type descriptor such as `Vec<(u32, String)>` is parsed
into a type tree. The tree drives three things:

- a byte encoder that turns a JSON value into redb's byte layout (`encode`);
- a decoder that goes back from bytes to JSON (`parse`);
- the key comparator redb calls on raw bytes (`ordering`, reached through the
  `K`/`V` key types).

Each table binds one type tree to its key and one to its value. The bindings
live in thread-local cells: a type name, a fixed width and the tree. Before a
table is used, `process_multimap_table` runs these steps:

1. It resets the cells.
2. If `--schema "K -> V"` was given, it applies that override.
3. It opens the table. When the engine reports a type mismatch or a changed
   width it adopts the stored names and widths, and it retries up to five
   times.
4. It binds the trees, and it refuses types that cannot be ordered.

A build script derives the single-valued pipeline from the multimap one by
text rewriting.

The project models that core.

- `Types` holds the type tree (`Ty`), JSON values (`Value`), the fixed width of
  a type (`parse_size`), orderability (`can_order`) and the typing and
  well-formedness predicates.
- `Bytes` holds the little-endian integer layouts and the cursor primitives
  `take_n`, `take_u8`, `take_u32_len`, `take_varint` and `put_varint`.
- `Utf8` encodes and decodes UTF-8 strings.
- `Codec` specifies `encode` and `parse` as total functions that return
  `Result`.
- `CodecImpl` mirrors the Rust loops with a `Buffer` class (the `Vec<u8>`
  being appended to) and a `Cursor` class (the `&mut &[u8]` being consumed).
  Each method is proved to produce exactly what the specification function
  produces.
- `CodecLemmas` proves the round trip `parse(encode(v)) == v` for every
  well-typed value. It also proves that decoded values are well typed,
  agreement with the fixed width, and the struct error cases.
- `CodecExamples` works through concrete byte layouts.
- `ValueOrder` models `ordering` and proves that it is antisymmetric, that
  `Equal` means the same value, and that it is total and transitive on values
  of an orderable type.
- `Transcode` models the `K`/`V` cells as a `Binding` class. It provides
  `compare`, `as_bytes` and `from_bytes`, and `val_to_string` and
  `string_to_val`.
- `Discovery` models lines 40-139 of `process_multimap_table` as methods over
  the two bindings, each proved against a specification function. It also
  proves convergence against a redb-like engine.
- `Text` and `BuildScript` model the build script's line rewriting and its
  chain of `replace` calls.

The numeric and error conventions are these.

- Numbers are unbounded integers. The widths and the `as u32` truncations
  are written out explicitly.
- A Rust `unwrap`, `assert_eq!` or `unreachable!` that can fire becomes an
  `Err(Panic(reason))` outcome, so every operation stays total. The contracts
  then state when the panic cannot happen. They do not forbid it through a
  precondition.
- redb's `TypeName` is modelled as a pair: a flag telling whether the name is
  one of redb's built-in names, and the name text. `String::type_name()` is
  the built-in `"String"`, and `TypeName::new(s)` is the user-defined `s`.
  Two names are equal only when both parts agree, as in redb, where a
  built-in and a user-defined name never compare equal.

## Model

| member | source | states |
|---|---|---|
| Bytes.TakeN | src/parser.rs:19-23 | succeeds exactly when `len` bytes remain; then it splits off exactly `len` bytes and the rest, whose concatenation is the input; otherwise `OffBuffer` |
| Bytes.TakeU8 | src/parser.rs:38-41 | succeeds exactly on non-empty input and yields the first byte and the rest |
| Bytes.TakeU32Len | src/parser.rs:43-46 | succeeds exactly when 4 bytes remain and yields their little-endian value and the rest |
| Bytes.PutVarint | src/parser.rs:56-66 | one byte below 254; `254` plus 2 bytes up to 65535; `255` plus 4 bytes above that |
| Bytes.VarintRoundTrip | src/parser.rs:48-66 | `take_varint` reads back every length `put_varint` wrote (below 2^32) and leaves the following bytes untouched |
| Bytes.TakeVarintBounds | src/parser.rs:48-54 | `take_varint` succeeds exactly when the tag byte and its 0, 2 or 4 payload bytes are present; the result is below 2^32; failure is `OffBuffer` |
| Bytes.FromLEOfLE | src/parser.rs:119-131 | decoding the little-endian bytes of an unsigned integer gives it back |
| Bytes.SignedRoundTrip | src/parser.rs:134-146 | two's-complement little-endian bytes of a signed integer decode back to it |
| Bytes.SignedBytesRoundTrip | src/parser.rs:320-330 | re-encoding a decoded signed integer reproduces the bytes |
| Types.CharRoundTrip | src/parser.rs:110-118 | a char's fixed-width bytes decode back to the char |
| Types.SumWidthsFixed | src/parser.rs:485-509 | a tuple or struct has a fixed width exactly when every member does, and it is the sum of the members' widths |
| Types.Members | src/parser.rs:234-290 | the members of a tuple are its element types; those of a struct are its field types, in order |
| Types.CanOrderIffNoFloatOrStruct | src/parser.rs:513-536 | a type can be ordered exactly when no float and no struct occurs in it |
| Types.AllCanOrderIff | src/parser.rs:522-529 | a tuple's members can all be ordered exactly when none mentions a float or a struct |
| Utf8.DecodeEncode | src/parser.rs:164-167 | decoding the UTF-8 bytes of a string gives the string back |
| Utf8.EncodeDecode | src/parser.rs:343 | bytes that decode as UTF-8 are exactly the encoding of what they decode to |
| Codec.EncodeInt | src/parser.rs:119-151 | an integer that fits encodes to exactly the width's number of bytes |
| Codec.DecodeHeader | src/parser.rs:397-405 | the tuple or struct header yields one size entry per member |
| Codec.DecodeBody | src/parser.rs:411-416 | the tuple or struct body yields one value per member |
| CodecLemmas.WidthAgreement | src/parser.rs:449-511 | whenever a type has a fixed width, every successful encoding has exactly that length |
| CodecLemmas.RepeatWidth | src/parser.rs:179-233 | a run of fixed-width elements carries no length prefixes: it is the element width times the count |
| CodecLemmas.MembersWidth | src/parser.rs:234-256 | members of fixed width write no header and a body of the summed widths |
| CodecLemmas.EncodeTotal | src/parser.rs:90-291 | every value that has a well-formed type encodes without error |
| Types.IntFitsWide | src/parser.rs:119-151 | an integer that fits its declared width fits `i128` or `u128`, so the `as_i128`/`as_u128` conversions succeed |
| CodecLemmas.SliceBytes | src/parser.rs:168-178 | a list of numbers 0..255 encodes as those bytes, one per element |
| CodecLemmas.RoundTrip | src/parser.rs:90-447 | `parse(encode(v))` is `v`, consuming all bytes, for every well-typed value whose encoding stays below 2^32 bytes |
| CodecLemmas.BytesRoundTrip | src/parser.rs:90-447 | encoding the decoded value of an encoding reproduces the same bytes |
| CodecLemmas.ArrayRoundTrip | src/parser.rs:179-202 | round trip for `[T; n]`, with u32 length prefixes only for elements of unfixed width |
| CodecLemmas.VecRoundTrip | src/parser.rs:215-233 | round trip for `Vec<T>`: a varint count, then varint lengths only for elements of unfixed width |
| CodecLemmas.OptionRoundTrip | src/parser.rs:203-214 | round trip for `Option<T>`, including the zero padding after a `None` of fixed width |
| CodecLemmas.TupleRoundTrip | src/parser.rs:234-256 | round trip for tuples: a header of varint lengths for non-last members of unfixed width, then the bodies |
| CodecLemmas.StructRoundTrip | src/parser.rs:257-290 | round trip for structs, field by field in declaration order |
| CodecLemmas.RepeatRoundTrip | src/parser.rs:369-379 | the element loop of arrays and vectors decodes exactly the encoded elements and stops before what follows |
| CodecLemmas.MembersRoundTrip | src/parser.rs:397-446 | the header and body loops of tuples and structs decode exactly the encoded members |
| CodecLemmas.PrefixRoundTrip | src/parser.rs:196-198 | an element length prefix (u32 or varint, or none at a fixed width) reads back as the element's length |
| CodecLemmas.EntryRoundTrip | src/parser.rs:250-253 | a header entry written for a member reads back as that member's size |
| CodecLemmas.DecodeTyped | src/parser.rs:293-447 | every value `parse` returns for a well-formed type has that type |
| CodecLemmas.FieldValuesExact | src/parser.rs:262-274 | the struct encoder takes each declared field's value from the object and leaves exactly the undeclared keys behind |
| CodecLemmas.InsertSpec | src/parser.rs:438-444 | the decoded struct object has exactly the declared field names, each mapped to its decoded value |
| CodecLemmas.MissingOptionalIsNull | src/parser.rs:268-271 | a missing field of `Option` type encodes as if it were `null` |
| CodecLemmas.MissingFieldRejected | src/parser.rs:268-272 | a missing field of non-`Option` type is an error |
| CodecLemmas.UndefinedFieldRejected | src/parser.rs:284-286 | an object key that is no declared field is an error |
| CodecLemmas.SliceByteRejected | src/parser.rs:168-178 | a slice element of 256 or more is an error |
| CodecLemmas.CharNotOneRejected | src/parser.rs:110-113 | a `char` is written exactly when the string is one code point; any other length is the single-codepoint error |
| CodecLemmas.ArrayLengthRejected | src/parser.rs:183-188 | a list whose length differs from the array's is the length-mismatch error |
| CodecExamples.OptionNoneLayout | src/parser.rs:203-209 | `None` of `Option<u32>` is `[0, 0, 0, 0, 0]` and decodes back to `null` |
| CodecExamples.NonePaddingUnchecked | src/parser.rs:383-390 | the padding after a `None` tag is skipped unread: `[0, 9, 9, 9, 9]` decodes to `null`, which encodes to `[0, 0, 0, 0, 0]` |
| CodecExamples.OptionSomeLayout | src/parser.rs:210-213 | `Some(7)` of `Option<u32>` is `[1, 7, 0, 0, 0]` |
| CodecExamples.VecLayout | src/parser.rs:215-233 | `[1, 2, 3]` of `Vec<u8>` is `[3, 1, 2, 3]` |
| CodecExamples.TupleLayout | src/parser.rs:234-256 | `([1, 2, 3], "ab")` of `(Vec<u8>, String)` is `[4, 3, 1, 2, 3, 'a', 'b']`: the header holds the first member's whole encoded length |
| CodecExamples.DiscriminantsRejected | src/parser.rs:301-305 | a `bool` byte or `Option` tag above 1 is rejected with its value |
| CodecImpl.Buffer.PutVarint | src/parser.rs:56-66 | appends exactly the varint bytes of `n` |
| CodecImpl.Cursor.TakeN | src/parser.rs:19-23 | consumes as `TakeN` specifies and leaves the cursor in place on failure |
| CodecImpl.Cursor.TakeU8 | src/parser.rs:38-41 | consumes as `TakeU8` specifies |
| CodecImpl.Cursor.TakeU32Len | src/parser.rs:43-46 | consumes as `TakeU32Len` specifies |
| CodecImpl.Cursor.TakeVarint | src/parser.rs:48-54 | consumes as `TakeVarint` specifies |
| CodecImpl.EncodeInto | src/parser.rs:90-291 | appends exactly the bytes of `Encode(t, v)` on success, and reports the same error otherwise |
| CodecImpl.EncodeRepeatInto | src/parser.rs:188-201 | the element loop appends exactly `EncodeRepeat` |
| CodecImpl.EncodeMembersInto | src/parser.rs:234-256 | the member loop writes the header to the output and the bodies after it, exactly as `EncodeMembers` |
| CodecImpl.EncodeFieldsInto | src/parser.rs:257-287 | the field loop removes each declared field and encodes it; the leftover map is what `FieldValues` leaves |
| CodecImpl.Parse | src/parser.rs:293-447 | consumes and returns exactly what `Decode(t, data)` specifies |
| CodecImpl.ParseRepeat | src/parser.rs:358-365 | the element loop consumes exactly `DecodeRepeat` |
| CodecImpl.ParseHeader | src/parser.rs:397-405 | the header loop consumes exactly `DecodeHeader` |
| CodecImpl.ParseBody | src/parser.rs:407-412 | the body loop consumes exactly `DecodeBody` |
| ValueOrder.CmpInt | src/parser.rs:545-553 | `Less` exactly when smaller; `Equal` exactly when equal |
| ValueOrder.CmpLexFlip | src/parser.rs:546 | the byte-wise string order is antisymmetric |
| ValueOrder.CmpLexEqual | src/parser.rs:546 | the byte-wise string order says `Equal` exactly for equal strings |
| ValueOrder.CmpLexTransitive | src/parser.rs:546 | the byte-wise string order is transitive |
| ValueOrder.StringEqual | src/parser.rs:546 | strings compare `Equal` exactly when they are the same |
| ValueOrder.OrderingFlip | src/parser.rs:538-571 | swapping the arguments flips the answer, including "no ordering" and the unreachable arm |
| ValueOrder.OrderingEqualIsSame | src/parser.rs:538-571 | `Equal` holds only between identical values |
| ValueOrder.NestedObjectsUnordered | src/parser.rs:567 | objects, even nested inside arrays, have no ordering |
| ValueOrder.NumbersTyped | src/parser.rs:548-556 | two numbers of the same integer type are ordered numerically, never by the unreachable arm |
| ValueOrder.OrderingTyped | src/parser.rs:513-571 | two values of a type `can_order` accepts always have an ordering |
| ValueOrder.OrderableWellFormed | src/parser.rs:513-536 | an orderable type is well formed |
| ValueOrder.OrderingReflexive | src/parser.rs:538-571 | a value of an orderable type compares `Equal` to itself |
| ValueOrder.OrderingTransitive | src/parser.rs:538-571 | `Less` is transitive on values of an orderable type |
| Transcode.Binding.constructor | src/transcode.rs:11-19 | a fresh cell holds `String::type_name()`, no width and no tree |
| Transcode.Binding.FixedWidth | src/transcode.rs:93-95 | reports the stored width |
| Transcode.Binding.Name | src/transcode.rs:97-99 | reports the stored type name |
| Transcode.Binding.FromBytes | src/transcode.rs:85-91 | succeeds exactly when a tree is bound and the bytes decode under it, giving the decoded value; a missing tree or a parse error is a panic |
| Transcode.Binding.Compare | src/transcode.rs:46-53 | every answer is the ordering of the two decoded values; no tree, undecodable bytes, no ordering and the unreachable arm are the panics |
| Transcode.Binding.AsBytes | src/transcode.rs:75-83 | with no tree it panics; otherwise it returns exactly the bytes of `Encode(tree, v)`, and an encode error is a panic |
| Transcode.Cells.constructor | src/transcode.rs:11-19 | two distinct fresh cells, each reset |
| Transcode.FromBytesAsBytes | src/transcode.rs:75-91 | `from_bytes(as_bytes(v))` is `v` |
| Transcode.CompareTotal | src/transcode.rs:46-61 | on bytes that decode under an orderable tree, `compare` never panics |
| Transcode.CompareEncoded | src/transcode.rs:46-83 | comparing two encodings is the ordering of the two values |
| Transcode.CompareOrder | src/transcode.rs:46-61 | `compare` is antisymmetric, says `Equal` exactly for equal decoded values and is transitive: a total order |
| Transcode.NegativeKeyFirst | src/transcode.rs:46-53 | for `i32` keys, -1000000 sorts before 1000000 even though its bytes compare greater |
| Transcode.StringToVal | src/transcode.rs:32-38 | a `String` or `&str` descriptor wraps the text as a JSON string; any other is parsed as JSON |
| Transcode.ValToString | src/transcode.rs:21-30 | a `String` or `&str` descriptor needs a JSON string and gives its text; any other is printed as JSON |
| Transcode.TextRoundTrip | src/transcode.rs:21-38 | for string descriptors, text to value to text and value to text to value are identities |
| Text.FindFrom | build.rs:11 | finds the first occurrence of the pattern at or after the start |
| Text.SplitOnce | build.rs:11 | splits around the first occurrence of the pattern, or reports that none exists |
| Text.SplitOnceAt | build.rs:11 | text `x + p + y` with no `p` starting inside `x` splits into exactly `x` and `y` |
| Text.ReplaceIsSplitJoin | build.rs:18-25 | `replace(p, r)` replaces every non-overlapping occurrence, left to right: splitting on `p` and joining with `r` |
| Text.ReplaceFrom | build.rs:18-25 | `replace` leaves a prefix free of the pattern untouched |
| Text.ReplaceAbsent | build.rs:18-25 | `replace` of an absent pattern changes nothing |
| Text.LineOf | build.rs:10 | a line is its piece; only a piece that ends in `\r` and is followed by `\n` loses that `\r` |
| Text.Lines | build.rs:10 | the empty text has no lines, and every non-empty text has some |
| Text.LinesSplit | build.rs:10 | the lines are the pieces between `\n`s, each losing a `\r` before its `\n`, with no line for the empty piece after a final `\n` |
| Text.LinesSplitPlain | build.rs:10 | without `\r`, splitting at `\n` gives the lines, plus one empty piece after a final `\n` |
| BuildScript.RewriteLine | build.rs:11-13 | a line without `// or` is kept; otherwise only the text after the first `// or` is kept |
| BuildScript.RewriteLines | build.rs:9-16 | the loop builds every rewritten line followed by `\n` |
| BuildScript.Generate | build.rs:9-27 | the output is the rewritten lines passed through the four replacements |
| BuildScript.LinesNoNewline | build.rs:10 | no line contains a newline |
| BuildScript.SplitRewritten | build.rs:9-16 | splitting the buffer at `\n` gives back exactly the rewritten lines and a final empty piece |
| BuildScript.LinesKept | build.rs:9-16 | the buffer holds exactly the rewritten lines, one per `\n` |
| BuildScript.CutAtFirst | build.rs:11-13 | a line whose first marker starts at `x` keeps exactly what follows it |
| BuildScript.ValueGateDropped | src/process_multimap.rs:128-129 | the line `// or #[cfg(false)]` turns into ` #[cfg(false)]`, so the single-valued pipeline compiles the value orderability check out |
| BuildScript.RemoveOnce | build.rs:19 | the first occurrence of the pattern is removed and the pass continues after it; when the rest holds no occurrence, the text around it is simply joined |
| BuildScript.SinglePass | build.rs:19 | `replace` is a single pass: `_mul_multimaptimap` loses one `_multimap` and keeps the one that the removal forms |
| Discovery.Snap | src/process_multimap.rs:40-61 | the snapshot holds the two cells' names and widths |
| Discovery.ResetBindings | src/process_multimap.rs:40-46 | both cells go back to `String`, no width and no tree |
| Discovery.SchemaSplit | src/process_multimap.rs:48-61 | the override fails with the missing-arrow error exactly when ` -> ` is absent; a successful one declares, as user names, the two sides of the first ` -> `, both parsable, with their widths |
| Discovery.SchemaSides | src/process_multimap.rs:49-60 | split at its first ` -> `, the override reports an unparsable key side, else an unparsable value side, by its text, and otherwise declares both sides as user names with their widths |
| Discovery.ApplySchema | src/process_multimap.rs:48-61 | the cells end up holding what `SchemaDeclares` declares, or the failure is reported; trees are untouched |
| Discovery.React | src/process_multimap.rs:65-86 | names and widths change only without an override; creation only with `--create` and with declares kept; other engine errors abort |
| Discovery.Discover | src/process_multimap.rs:63-87 | at most five attempts, each one advancing; creations never outnumber attempts |
| Discovery.OpenTable | src/process_multimap.rs:63-87 | the loop leaves the cells, the failure and the creation count that `Discover` specifies |
| Discovery.Attempt | src/process_multimap.rs:65-85 | one arm applied to the cells in place: the loop stops exactly when `React` stops or aborts, with the cells unchanged, and otherwise the cells hold what `React` declares |
| Discovery.OverrideKeepsDeclares | src/process_multimap.rs:66-76 | with `--schema`, the engine never changes the declared names or widths |
| Discovery.CreatesOnlyWithFlag | src/process_multimap.rs:78-84 | a table is created only with `--create`, and "does not exist" is fatal only without it |
| Discovery.RedbStep | src/process_multimap.rs:66-77 | against a consistent store, each mismatch answer brings the declaration strictly closer to what is stored |
| Discovery.Converges | src/process_multimap.rs:63-87 | the loop opens the table once the remaining distance fits in the attempts left |
| Discovery.ConvergesFromReset | src/process_multimap.rs:40-87 | from the reset cells, a consistent stored table opens within the five attempts with the stored names and widths |
| Discovery.ValueDescriptor | src/process_multimap.rs:105-118 | the value descriptor is the stored name when it parses, else `String` |
| Discovery.BindTrees | src/process_multimap.rs:97-139 | the trees, failure and warnings are exactly `BindSpec`'s; names and widths are untouched |
| Discovery.BoundOnlyWhenOrderable | src/process_multimap.rs:120-138 | trees are bound exactly when the key parses and both key and value types can be ordered |
| Discovery.ParseFailures | src/process_multimap.rs:103-118 | an unparsable key name is an error; an unparsable value name falls back to `String` with a warning |
| Discovery.UnorderedValueReported | src/process_multimap.rs:129-135 | an unorderable value type stops the table with a warning naming the value type |
| Discovery.ValueWarningAsWritten | src/process_multimap.rs:129-135 | the warning as written names the key type |
| Discovery.ValueWarning | src/process_multimap.rs:129-135 | the corrected warning names the value type |
| Discovery.ValueWarningNamesKey | src/process_multimap.rs:129-135 | whenever key and value names differ, the written warning does not name the value type |
| Discovery.PrepareTable | src/process_multimap.rs:40-139 | reset, override, open and bind leave the cells as `Prepare` specifies |
| Discovery.PrepareWithOverride | src/process_multimap.rs:48-76 | with a valid `--schema`, the prepared names and widths are exactly the schema's |
| Discovery.PrepareFromRedb | src/process_multimap.rs:40-87 | without `--schema`, a consistent stored table is prepared with the stored names and widths |
| Discovery.PreparedComparable | src/process_multimap.rs:97-139 | once both trees are bound, the key and value comparators never panic on decodable bytes |

## Left out

- Floats: `f32` and `f64` values are opaque bit patterns of the right width. The float conversions and the JSON number behaviour of floats are not modelled.
- The pest grammar and `parse_tree`: the descriptor parser is a function parameter from text to an optional type tree. The grammar itself is not part of this model.
- JSON text: `serde_json::from_str` and `to_string` are function parameters of `StringToVal` and `ValToString`.
- The database engine: opening a table is a function parameter from the attempt number and the declared names and widths to the engine's answer. Transactions, commits and the creation side effect are not modelled beyond the attempt count. `RedbOpen` is an assumed model of how redb answers, used only for the convergence lemmas.
- Listing mode (`src/process_multimap.rs:89-95`) and everything after line 139 (reading, writing and deleting entries): outside this core.
- Thread-local storage: the cells are one `Cells` object passed explicitly. Leaking the descriptor strings (`Box::leak`) has no counterpart.
- Standard error output: warnings are returned as a sequence of `Warning` values instead of being printed.
- The `_ => err_type()` arms of `encode`, `parse`, `parse_size` and `can_order`: the type tree admits only the grammar's types and widths, so those arms cannot be reached.
- File I/O of the build script: `Generate` takes the source text and returns the generated text.
- Discovery.PreparedComparable: it covers only decodable bytes. On bytes that do not decode, `compare` still panics, as in the source.
- CodecLemmas.BytesRoundTrip: it holds only for bytes that `encode` wrote. `parse` accepts bytes that `encode` never writes, such as any padding after a fixed-width `None` (`CodecExamples.NonePaddingUnchecked`). This is the source's behaviour.
- CodecLemmas.RoundTrip: it requires values whose integers fit their widths (part of `HasType`), a bounded nesting (`Bounded`), and an encoding below 2^32 bytes. Above that, the `as u32` length truncation breaks the round trip for arrays of unfixed element width.
- Transcode.Binding.Compare: strings are compared by the byte order of their UTF-8 encodings. This is the order Rust's `Ord` on `String` uses, but the model does not prove the equivalence for code points.
- Panics as outcomes: `unwrap` on a missing tree, a missing ordering and `unreachable!()` are `Err(Panic(reason))` results, not preconditions. An `unwrap` of a failed `encode` or `parse` is `Err(Panic(Unwrapped(error)))`, which carries the codec's error. Lemmas such as `CompareTotal` and `PreparedComparable` state when no panic can occur.
- `TypeName` equality: the model assumes redb compares the built-in and user-defined classification as well as the text. `--schema "String -> String"` therefore declares names different from the reset ones.

## Findings

| source | as written | input that shows it | evidently intended | confidence | as-written member | corrected member |
|---|---|---|---|---|---|---|
| src/process_multimap.rs:129-135 | the warning for an unorderable value type prints `k.name()`, the key's type name | `--schema "u32 -> f64"`: the warning says `Value type "u32" … can't be ordered` | print `v.name()`, the value's type name | not executed | Discovery.ValueWarningAsWritten (shown by Discovery.ValueWarningNamesKey) | Discovery.ValueWarning (used by Discovery.BindSpec; Discovery.UnorderedValueReported) |
