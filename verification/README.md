# toml++ arrays, scalar encoders and default formatter in Dafny

This project models three cooperating parts of toml++.

- **The `toml::array` data model.** This covers homogeneity tests, the recursive leaf count, and the in-place `flatten` with its pre-insertion resize and depth-first relocation. It also covers structural equality and copies.
- **The scalar text encoders.** These are integers in base 2, 8, 10 or 16, zero-padded integers, dates, times, offsets and date-times in the layout of RFC 3339 section 5.6, booleans, and the float ".0" rule.
- **The `default_formatter` layout engine.** This covers:
  - the inline column estimate with its early exit at 120 columns, and the multiline decision;
  - inline tables and arrays;
  - the three-pass block-table printer, with its key-path stack, pending-separator flag and indent level;
  - the stream operator.

Every node is an immutable `Nodes.Node`. Tables hold their entries as a sequence in the container's iteration order. The output stream becomes a string that each operation extends.

Modules:
- `Options`: an `Option` type.
- `Nodes`: the node tree, floats, dates and times.
- `Arrays` and `Flatten`: `array.inl`.
- `Encoders`: `print_to_stream_impl.h`.
- `Columns`: the width heuristic.
- `Printer`: the formatter state and base-formatter operations.
- `Inline`: inline tables and arrays.
- `Blocks`: block tables.
- `Session`: the `default_formatter` object, its stream operator and the documented example.

Each operation is paired with a reference definition, its inverse, or an invariant:
- Flattening is compared with `Arrays.Leaves`, a depth-first list of leaves.
- Rendered integers, dates, times and offsets are read back with `Encoders.ReadDigits`.
- The early-exit width is compared with `Columns.ExactColumns`.
- Each printer is compared with a text function (`Inline.ArrayText`, `Inline.InlineTableText`).
- The block printer is compared with the line outline `Blocks.Outline`, which assigns every entry to exactly one pass.

## Model

| member | source | states |
|---|---|---|
| Arrays.IsHomogeneous | include/toml++/impl/array.inl:110-135 | false for an empty array; otherwise true exactly when every element has the requested type, or the first element's type when none is requested |
| Arrays.IsHomogeneousReporting | include/toml++/impl/array.inl:19-39 | empty: false and the out-parameter cleared; success: the out-parameter is left as it was; failure: it names the lowest-index element of another type, and every earlier element matches |
| Arrays.TotalLeafCount | include/toml++/impl/array.inl:162-171 | the count equals the length of the depth-first leaf sequence `Leaves` |
| Arrays.LeavesAppend | include/toml++/impl/array.inl:162-171 | the leaves of a concatenation are the concatenation of the leaves, so leaf counting is additive element by element |
| Arrays.LeavesIdempotent | include/toml++/impl/array.inl:191-237 | taking the leaves of an already flat sequence changes nothing, so flattening twice equals flattening once |
| Arrays.NodeEqualReflexive | include/toml++/impl/array.inl:138-159 | element equality is reflexive for every node, NaN floats included, since two NaNs compare equal |
| Arrays.NodeEqualSymmetric | include/toml++/impl/array.inl:138-159 | element equality is symmetric, so `equal(a, b)` and `equal(b, a)` agree |
| Arrays.Equal | include/toml++/impl/array.inl:138-159 | true exactly when the arrays are the same object or have equal sizes and pairwise equal types and payloads |
| Arrays.CopyArray | include/toml++/impl/array.inl:46-56 | a copy has the source's elements and is `equal` to its source in both directions |
| Arrays.Assign | include/toml++/impl/array.inl:69-80 | after assignment the target holds the source's elements and is `equal` to the source; self-assignment leaves it unchanged |
| Flatten.PreinsertionResize | include/toml++/impl/array.inl:94-107 | the size grows by `count`; elements before `idx` stay in place; elements from `idx` move to `idx + count` in order; the gap is empty |
| Flatten.FlattenChild | include/toml++/impl/array.inl:174-188 | the child's leaves are written in depth-first order from `dest`; the returned index is just past them; every other slot is unchanged |
| Flatten.FirstPass | include/toml++/impl/array.inl:196-212 | zero-leaf nested arrays are erased and nothing else is; the computed size is the final leaf count; "requires flattening" is true exactly when an array remains |
| Flatten.PruneLeavesNonEmptyArrays | include/toml++/impl/array.inl:196-212 | every nested array left after the first pass has at least one leaf, so relocation never writes over an unread element |
| Flatten.RelocateOne | include/toml++/impl/array.inl:219-234 | one relocation step replaces a nested array by its leaves in place and leaves the prefix and the rest in order |
| Flatten.Relocate | include/toml++/impl/array.inl:217-234 | the relocation loop turns the pruned elements into their leaf sequence |
| Flatten.Flatten | include/toml++/impl/array.inl:191-237 | the result is the depth-first leaf sequence of the input; no element is an array; an array without nested arrays, the empty one included, is returned unchanged |
| Encoders.DigitsRoundTrip | include/toml++/impl/print_to_stream_impl.h:99-110 | reading the digits of a value back in the same radix gives the value |
| Encoders.DigitsCanonical | include/toml++/impl/print_to_stream_impl.h:99-110 | the other direction of the round trip: any digit string without a leading zero, in lower case, is the rendering of the value it reads as |
| Encoders.RadixChoice | include/toml++/impl/print_to_stream_impl.h:87-97 | the radix is 2, 8 or 16 only when the matching flag is set and the value is non-negative; otherwise it is 10 |
| Encoders.IntegerTextProperties | include/toml++/impl/print_to_stream_impl.h:77-145 | zero prints as "0" under every flag; otherwise the text is an optional minus sign and digits of the chosen radix with no leading zero, the sign appears exactly for negative values, there are no lower-case letters, and the text reads back to the value in that radix |
| Encoders.NegativeIntegerText | include/toml++/impl/print_to_stream_impl.h:87-110 | a negative value prints as a minus sign followed by decimal digits with no leading zero, and reads back to the value |
| Encoders.PositiveIntegerText | include/toml++/impl/print_to_stream_impl.h:87-110 | a positive value prints as digits of the chosen radix only, with no sign and no leading zero, and reads back to the value |
| Encoders.LeftPadShape | include/toml++/impl/print_to_stream_impl.h:205-228 | the padded text is the decimal digits preceded by zeros, and its length is the larger of the minimum and the digit count |
| Encoders.LeftPadRoundTrip | include/toml++/impl/print_to_stream_impl.h:205-228 | the padded text reads back to the value; a value below 10^n padded to n has exactly n characters |
| Encoders.DateRoundTrip | include/toml++/impl/print_to_stream_impl.h:326-333 | a date is ten characters with dashes at 4 and 7, and its three fields read back to year, month and day |
| Encoders.DateExample | include/toml++/impl/print_to_stream_impl.h:326-333 | 1 January of year 1 prints as 0001-01-01 |
| Encoders.FractionProperties | include/toml++/impl/print_to_stream_impl.h:343-353 | the fraction has 1 to 9 digits and no trailing zero, and scaled back to nine digits it reads back to the nanoseconds |
| Encoders.FractionExample | include/toml++/impl/print_to_stream_impl.h:343-353 | 120000000 nanoseconds print as the fraction "12" |
| Encoders.TimeExample | include/toml++/impl/print_to_stream_impl.h:336-342 | 01:02:03 with no nanoseconds prints as "01:02:03" with no fraction |
| Encoders.TimeRoundTrip | include/toml++/impl/print_to_stream_impl.h:336-355 | HH:MM:SS reading back to the three fields; a "." fraction appears exactly when 0 < ns <= 999999999 and reads back to the nanoseconds |
| Encoders.OffsetRoundTrip | include/toml++/impl/print_to_stream_impl.h:358-384 | a zero offset prints as "Z" and only it does; any other offset prints as a sign, hours and minutes whose signed total is the stored minutes |
| Encoders.DateTimeLayout | include/toml++/impl/print_to_stream_impl.h:387-394 | a date-time is the date, "T", the time, and then the offset text exactly when an offset is present: "Z" for zero, otherwise a signed offset that reads back to the stored minutes |
| Encoders.BoolText | include/toml++/impl/print_to_stream_impl.h:320-323 | "true" exactly for true, "false" otherwise |
| Encoders.FloatTextProperties | include/toml++/impl/print_to_stream_impl.h:160-201 | a finite float gets ".0" appended exactly when hex output is off and its text has no ".", "e" or "E"; the decimal output always contains one of them |
| Encoders.SpecialFloatTokens | include/toml++/impl/print_to_stream_impl.h:153-159 | infinities print as "inf" and "-inf", NaN as "nan" |
| Columns.EarlyExitAgrees | include/toml++/impl/default_formatter.inl:26-106 | the early-exit estimate is at most the exact width, equals it below 120, and reaches 120 exactly when the exact width does |
| Columns.ForcesMultilineExact | include/toml++/impl/default_formatter.inl:108-112 | the multiline decision is "exact width plus bias reaches 120", and a larger bias never undoes it |
| Columns.ChildNarrower | include/toml++/impl/default_formatter.inl:35-57 | every child of a table or array is at least five columns narrower than its parent |
| Columns.FixedWidths | include/toml++/impl/default_formatter.inl:26-100 | the fixed widths: 2 for an empty table or array, the UTF-8 byte length + 2 for a string, 5 for a boolean, 10 for a date or time, 30 for a date-time, and the printed length for an integer |
| Columns.Utf8Length | include/toml++/impl/default_formatter.inl:60-66 | strings and keys are measured in UTF-8 bytes: at least one and at most four per character, and exactly one per character for ASCII text |
| Printer.PendingSeparator | include/toml++/impl/default_formatter.inl:115-123 | two newlines and a cleared flag when the flag is set; nothing at all otherwise |
| Printer.KeyPathWritesPath | include/toml++/impl/default_formatter.inl:126-141 | the key path is written as its segments' key texts joined by dots, and nothing else in the state changes apart from the naked-newline bit |
| Inline.NestedWritesText | include/toml++/impl/default_formatter.inl:144-235 | printing a nested value writes exactly its reference text and keeps indent, key path, flag and outline |
| Inline.InlineTableWritesText | include/toml++/impl/default_formatter.inl:144-175 | an inline table writes "{}" when empty, otherwise "{ " + entries "k = v" joined by ", " + " }" |
| Inline.ArrayWritesText | include/toml++/impl/default_formatter.inl:178-235 | an array writes "[]" when empty, "[ " + elements joined by ", " + " ]" on one line, or one element per indented line with commas only between them and "]" on its own line; the indent level afterwards is the one before |
| Inline.FitsOnOneLine | include/toml++/impl/default_formatter.inl:178-235 | a value whose exact width plus indent bias stays under 120 prints without a line break, as long as the scalar texts have none |
| Blocks.CountsMatchPasses | include/toml++/impl/default_formatter.inl:277-304 | the three counts cover every entry once, and the value count is zero exactly when no entry belongs to the first pass |
| Blocks.SkipsHeaderIff | include/toml++/impl/default_formatter.inl:277-307 | a sub-table's header is skipped exactly when it has entries and none of them is a plain value |
| Blocks.KeyValueEntryText | include/toml++/impl/default_formatter.inl:253-265 | a key/value line is a line break (unless at a fresh line), the indent, the key, " = " and the value's text; the separator flag is set |
| Blocks.TableHeaderText | include/toml++/impl/default_formatter.inl:311-320 | a sub-table header is the pending separator, the indent one level deeper, and "[" + dotted key path + "]" |
| Blocks.ArrayHeaderText | include/toml++/impl/default_formatter.inl:343-348 | an array-of-tables element header is the pending separator, the indent, and "[[" + dotted key path + "]]" |
| Blocks.PrintTable | include/toml++/impl/default_formatter.inl:238-356 | the key path and indent level after printing a block table equal those before |
| Blocks.PrintTableOutline | include/toml++/impl/default_formatter.inl:238-356 | the lines a block table begins are its pass-1 entries, then pass-2 sub-tables with their headers unless skipped, then one "[[path]]" header per array-of-tables element followed by that element's lines, each pass in the table's order |
| Blocks.PrintRoot | include/toml++/impl/default_formatter.inl:358-383 | an inline root table, an array or a scalar writes exactly its value text at the current level; a block root table begins the lines of its outline, keeps the key path and ends one indent level out |
| Blocks.FlatRootText | include/toml++/impl/default_formatter.inl:366-373 | a block root table of plain values, printed right after attaching, is its `k = v` lines joined by line breaks with no indent |
| Session.HeaderAtRoot | include/toml++/impl/default_formatter.inl:309-320 | the header of a sub-table of the root is the pending separator and "[" + key + "]" with no indent in front |
| Session.DefaultConfig | include/toml++/impl/default_formatter.h:88-100 | the default indent is four spaces, and both kinds of indentation are on |
| Session.SpecialTokensAgree | include/toml++/impl/default_formatter.h:80 | the formatter's special float tokens are the ones the float encoder writes |
| Session.EmitClearsKeyPath | include/toml++/impl/default_formatter.h:134-141 | each print starts from an empty key path, so a leftover path never reaches the output |
| Session.ReprintAddsBlankLines | include/toml++/impl/default_formatter.h:46-47 | printing a table that starts with a header twice with the same formatter prefixes the second output with a blank line, because the separator flag is not reset |
| Session.ResetReprintIsIdentical | include/toml++/impl/default_formatter.h:134-141 | for the root table whose only entry is the sub-table `a` holding `x = 1`, resetting the separator flag as well makes the second print equal the first |
| Session.ResetPrintIsRepeatable | include/toml++/impl/default_formatter.h:134-141 | with both members reset, every print equals the first print of a fresh formatter |
| Session.ExamplePrints | include/toml++/impl/default_formatter.h:18-39 | the documented example prints its three key/values, a blank line, "[table]" and `foo = "bar"` |

## Left out

- Stream plumbing: the forwarding `print_to_stream` overloads, `attach` and `detach`. The stream is a string, and `attach` is the initial `Printer.Attached` state.
- The base `impl::formatter` is not part of this model. Key quoting and escaping and scalar `print_value` are the functions `keyText` and `valueText` in `Printer.Config`. Its newline and indent behaviour is assumed to be:
  - a non-forced newline is written only after other text;
  - the indent string is written once per positive level;
  - keys and values clear the naked-newline bit.
- The `indentation` flag is taken to turn on both indent options. Under the same defaults the indent width is the length of the indent string.
- Float-to-text conversion (`to_chars`, string streams, `hexfloat`) is out. A float carries its decimal and hex texts and a width estimate as opaque fields.
- Columns.IntegerColumns: the `log10` estimate of an integer's width is modelled as the exact decimal digit count. This leaves out floating-point imprecision and the overflow when negating the most negative 64-bit value.
- Columns.FloatColumns: the float branch of the width estimate uses the opaque width field instead of `log10`.
- The `sstream` integer path is modelled only for the binary-flag finding below. Everywhere else the `charconv` path is the model.
- Integers are unbounded. Fixed-width `size_t` counters are taken not to overflow.
- Failed-parse dumping and the `source_position`/`source_region` text are out.
- `reserve`, capacity, `unique_ptr` ownership and the move constructor and move assignment are out. Elements have value semantics, so a move is a copy.
- Arrays.IsArrayOfTables is taken to be "non-empty and homogeneous in tables", because its defining header is not part of this model.
- Arrays.NodeEqual: payload comparison goes through `value<T>::operator==`, and `value.h` is not part of this model. The model assumes that for doubles two NaNs are equal and that otherwise IEEE comparison applies.
- Session.DefaultConfig: the base formatter's key and string printing is not part of this model. The default configuration writes every key bare and every string in double quotes with no escaping. That is right for the documented example, but not for keys that need quoting or strings that need escaping.
- The rvalue `operator<<` forwards to the lvalue one, so `Session.Emit` models both.
- The documented example in the header's comment shows `fruit = ["apple", "orange", "pear"]`. The code writes single-line arrays with a space inside each bracket, and `Session.ExamplePrints` follows the code: `fruit = [ "apple", "orange", "pear" ]`.

## Findings

| source | as written | input that shows it | evidently intended | confidence | as-written member | corrected member |
|---|---|---|---|---|---|---|
| include/toml++/impl/print_to_stream_impl.h:117-133 | the string-stream path prints a binary integer from its unsigned 64-bit bits without checking the sign | -1 with the binary flag prints 64 ones with no minus sign | negative values fall back to decimal with a minus sign, as the `charconv` path does | not executed | Encoders.StreamBinaryNegative | Encoders.IntegerTextProperties |
| include/toml++/impl/default_formatter.h:134-141 | `operator<<` resets `key_path_` but not `pending_table_separator_` | printing a table whose only entry is a sub-table twice with one formatter: the second output starts with "\n\n" | every print of the same formatter writes the same text | not executed | Session.ReprintAddsBlankLines | Session.ResetReprintIsIdentical |
