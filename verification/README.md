# cgminer: the API client's reply renderer and the miner header's byte helpers

This project models two small, sequential parts of cgminer in Dafny and
proves properties of them.

**The administrative API client (`api-example.c`).**
- `display` turns a server reply into printed lines. A reply is a C string of
  records separated by `|`. A record holds fields separated by `,`. A field
  is `key=value`, cut at its first `=`, or a bare value.
- For every non-empty record, `display` prints a header `[name] =>` and `(`,
  but only when the record's first field is non-empty. It then prints one
  line per non-empty field, labelled by its key or by its 0-based position,
  and finally `)`. The printed text is modelled as a sequence of `Line`
  values: `Header(name)`, `Open`, `Field(label, value)` and `Close`.
- `trim` skips leading whitespace, then overwrites EVERY later whitespace
  character with NUL, not only the trailing ones. The C string it returns
  is therefore the first word of its argument.
- `main` picks the command, host and port from `argv`, falling back to
  `summary`, `127.0.0.1` and `4028`. An untrimmed help flag as the first
  argument gives the usage exit instead.

**The byte and word helpers of `miner.h`.**
- The portable `bswap_16/32/64` macros and `swab32` are modelled on
  bit-vectors. They reverse the bytes of their argument.
- `be32toh`/`htobe32` take the host byte order as a parameter.
- `swap256` reverses eight 32-bit words. It is modelled for distinct
  buffers, and also with `dest == src`, where it corrupts the second half.
- `string_elist_add`/`string_elist_del` are modelled on the sequence of
  list entries.
- The pool strategy enumeration and its bound `TOP_STRATEGY`.

Modules: `Wrappers` (`Option`), `CStrings` (`strchr`, the NUL terminator,
splitting at a separator), `ApiDisplay`, `ApiArgs`, `ByteSwap`, `StringList`
and `Strategy`.

## Model

| member | source | states |
|---|---|---|
| CStrings.Find | api-example.c:151 | `strchr`: the result is the position of the FIRST occurrence of the character; there is none exactly when the character is absent |
| CStrings.FindAt | api-example.c:151 | any position holding the character, with no earlier occurrence, is what `strchr` finds |
| CStrings.CString | api-example.c:150-151 | the text a C string function sees: a prefix of the buffer with no NUL, ended by the buffer's first NUL |
| CStrings.Split | api-example.c:150-153 | the pieces a `strchr`-and-overwrite loop cuts: at least one, none holding the separator, and joined back with the separator they give the input |
| CStrings.SplitJoin | api-example.c:150-153 | cutting undoes joining for pieces free of the separator, so the pieces are exactly the text between separators |
| CStrings.SplitTrailingSeparator | api-example.c:150-153 | a separator at the end adds exactly one empty last piece |
| CStrings.SplitAfterPrefix | api-example.c:150-153 | text before the first separator is the first piece; the rest is cut independently |
| ApiDisplay.SplitPair | api-example.c:164-166 | a field is cut at its first `=` only: the key holds no `=`, key `=` value is the field, so the value may hold more `=`; without `=` there is no value and the key is the field |
| ApiDisplay.FieldEntry | api-example.c:171-174 | a field with `=` is printed under its key with the whole remainder as value; a field without `=` is printed whole under its position |
| ApiDisplay.FieldLinesCounts | api-example.c:163-175 | one field contributes one field line when non-empty and none when empty; the header and `(` come only with a non-empty field at position 0; never a `)` |
| ApiDisplay.FieldsLinesShape | api-example.c:158-178 | field output holds no `)`, and after position 0 only field lines |
| ApiDisplay.FieldsLinesContain | api-example.c:158-178 | every non-empty field is printed, numbered by its position among all fields, empty ones included |
| ApiDisplay.FieldsLinesOnlyEntries | api-example.c:158-178 | no field line is printed that is not the entry of a non-empty field |
| ApiDisplay.FieldsLinesCount | api-example.c:158-178 | one field line per non-empty field |
| ApiDisplay.FieldLinesSelect | api-example.c:163-175 | the only field line one field contributes is its entry, and none for an empty field |
| ApiDisplay.FieldsLinesEntries | api-example.c:158-178 | the field lines printed for a list of fields, in order, are the entries of its non-empty fields in field order, each once |
| ApiDisplay.RecordShape | api-example.c:155-182 | an empty record prints nothing; a non-empty one ends with its only `)`, and has one header and one `(`, at its start, exactly when its first field is non-empty |
| ApiDisplay.RecordFields | api-example.c:158-178 | every non-empty field is printed as its entry, labelled by key or by position counting empty fields; no other field line appears; and the field lines, in order, are exactly the entries of the non-empty fields in field order, each once |
| ApiDisplay.RecordHeader | api-example.c:168-169 | the header is the first field's key, with its value appended only when the value starts with a decimal digit; a first field without `=` is the header whole |
| ApiDisplay.CStringAfterPrefix | api-example.c:150-151 | a NUL-free prefix does not move the end of the C string |
| ApiDisplay.RecordsLinesAppend | api-example.c:150-155 | the output for a list of records is the output for each part in turn |
| ApiDisplay.DisplayConcat | api-example.c:150-155 | the reply `a|b` prints record `a` and then the reply `b` |
| ApiDisplay.DisplayTrailingSeparator | api-example.c:150-155 | a trailing `|` adds an empty record that prints nothing |
| ApiDisplay.RecordsLinesHasRecord | api-example.c:150-184 | every line of every record appears in the output |
| ApiDisplay.DisplayShowsField | api-example.c:150-178 | every non-empty field of every record of the reply is printed as its entry |
| ApiDisplay.RecordsLinesOnlyEntries | api-example.c:150-184 | every printed field line is the entry of a non-empty field of some record |
| ApiDisplay.RecordsLinesCloses | api-example.c:150-184 | one `)` per non-empty record |
| ApiDisplay.DisplayFields | api-example.c:145-186 | the printed field lines of a reply all come from its records, and `)` closes each non-empty record exactly once |
| ApiDisplay.SplitPairOf | api-example.c:164-166 | a field `key=value` whose key has no `=` splits into exactly that key and value |
| ApiDisplay.DisplayShowsNamedField | api-example.c:164-172 | a field `name=value` anywhere in the reply is printed under its name with its whole value |
| ApiDisplay.DisplayShowsBareField | api-example.c:173-174 | a non-empty field without `=` is printed under its position in its record |
| ApiDisplay.CutAt | api-example.c:151-153 | one `strchr` cut: the text before the first separator and the rest after it, consistent with Split, the rest strictly shorter |
| ApiDisplay.PendingRecordsStep | api-example.c:150-155 | cutting one record off the buffer leaves that record's output followed by the rest's |
| ApiDisplay.PendingFieldsStep | api-example.c:158-178 | cutting one field off a record leaves that field's output followed by the rest's, at the next position |
| ApiDisplay.RecordsAdvance | api-example.c:150-184 | one outer iteration keeps the printed-so-far plus still-to-print output unchanged |
| ApiDisplay.FieldsAdvance | api-example.c:158-178 | one inner iteration keeps the printed-so-far plus still-to-print output unchanged |
| ApiDisplay.DisplayLoop | api-example.c:145-186 | the two nested `strchr` loops print exactly the output of the split-based definition |
| ApiDisplay.RecordLoop | api-example.c:155-182 | the inner loop over one non-empty record prints exactly that record's output, `)` included |
| ApiDisplay.PrintField | api-example.c:163-175 | the inner loop body prints nothing for an empty field; otherwise its last line is the field's entry, and the header and `(` come first exactly when the field is the record's first |
| ApiDisplay.PrintedFieldLines | api-example.c:163-175 | those facts determine the printed lines: they are the field's output |
| ApiArgs.LeadingSpaces | api-example.c:283-284 | the count of whitespace characters skipped: all of them whitespace, and the next one not |
| ApiArgs.WordLength | api-example.c:286-290 | the length of the leading run with no whitespace and no NUL, which ends at whitespace or NUL |
| ApiArgs.Trim | api-example.c:279-293 | the trimmed C string holds no whitespace and no NUL and is no longer than the argument |
| ApiArgs.TrimInPlace | api-example.c:279-293 | the two loops of `trim`: the start is past the leading whitespace, every whitespace between it and the terminator becomes NUL and nothing else changes, and the C string at the start is `Trim` of the argument |
| ApiArgs.TrimmedBuffer | api-example.c:286-292 | after the overwrites the C string at the start is `Trim` of the argument |
| ApiArgs.OverwrittenWord | api-example.c:286-292 | overwriting the whitespace of a C string with NUL leaves its first word as the C string |
| ApiArgs.TrimIdempotent | api-example.c:279-293 | trimming twice is trimming once |
| ApiArgs.TrimOfWord | api-example.c:279-293 | a string is its own trim exactly when it holds no whitespace and no NUL |
| ApiArgs.TrimFirstWord | api-example.c:279-293 | leading whitespace is skipped and everything from the first later whitespace on is cut away |
| ApiArgs.ArgOr | api-example.c:310-326 | an argument slot yields its default or the trimmed argument, and with a word as default always a non-empty word |
| ApiArgs.ResolveArgs | api-example.c:295-328 | usage exactly when the untrimmed first argument is `-?`, `-h` or `--help`; otherwise command, host and port are non-empty single words |
| ApiArgs.DefaultsAreWords | api-example.c:297-299 | the default command, host and port are non-empty single words |
| ApiArgs.ResolveDefaults | api-example.c:297-299 | with no arguments the query is `summary` to 127.0.0.1 port 4028 |
| ApiArgs.ResolveOverrides | api-example.c:310-326 | each of the first three arguments replaces its default exactly when non-empty after trimming; later arguments are ignored |
| ApiArgs.HelpIsNotTrimmed | api-example.c:302-308 | the help test looks at the untrimmed argument: ` -h` is the command `-h`, not a help request |
| ByteSwap.Reverse | miner.h:102-112 | the byte order the swaps produce: the same length, element `i` taken from the mirrored position |
| ByteSwap.ReverseAppend | miner.h:109-112 | reversing a concatenation reverses and exchanges the parts |
| ByteSwap.Bytes16Injective | miner.h:102-103 | a 16-bit value is determined by its bytes |
| ByteSwap.Bytes32Injective | miner.h:105-107 | a 32-bit value is determined by its bytes |
| ByteSwap.Bytes64Injective | miner.h:109-112 | a 64-bit value is determined by its bytes |
| ByteSwap.Bswap16 | miner.h:102-103 | `bswap_16` exchanges the two bytes |
| ByteSwap.Bswap32 | miner.h:105-107 | `bswap_32` reverses the four bytes |
| ByteSwap.Bswap64 | miner.h:109-112 | `bswap_64` reverses the eight bytes |
| ByteSwap.Bswap16Involution | miner.h:102-103 | `bswap_16` applied twice is the identity |
| ByteSwap.Bswap32Involution | miner.h:105-107 | `bswap_32` applied twice is the identity |
| ByteSwap.Bswap64Involution | miner.h:109-112 | `bswap_64` applied twice is the identity |
| ByteSwap.Swab32 | miner.h:359-362 | `swab32` reverses the four bytes, as `bswap_32` does |
| ByteSwap.Htobe32 | miner.h:117-123 | `htobe32`: the host stores the result as the big-endian bytes of the argument, on either host order |
| ByteSwap.Be32toh | miner.h:117-123 | `be32toh`: the result's big-endian bytes are the bytes the host stores for the argument |
| ByteSwap.Be32RoundTrip | miner.h:117-123 | the two conversions undo each other on either host order |
| ByteSwap.Swap256 | miner.h:364-377 | `swap256` with distinct buffers: word `i` of the result is word `7 - i` of the source, each word whole |
| ByteSwap.Swap256IsReverse | miner.h:364-377 | so `swap256` reverses the word order |
| ByteSwap.Swap256Involution | miner.h:364-377 | `swap256` applied twice is the identity |
| ByteSwap.Swap256InPlaceResult | miner.h:364-377 | with `dest == src` the second half is the reversed first half mirrored back, not the original first half |
| ByteSwap.Swap256Aliasing | miner.h:364-377 | with `dest == src` the result is right exactly for a buffer that `swap256` leaves unchanged (one that reads the same in both word orders), so the buffers must be distinct |
| ByteSwap.ReverseFlatten | miner.h:359-377 | when a map reverses the bytes of every element, reversing the elements and mapping each reverses all the bytes |
| ByteSwap.ReverseWordsAndBytes | miner.h:359-377 | reversing the word order and swapping every word reverses all the bytes |
| ByteSwap.Swap256SwabReversesBytes | miner.h:359-377 | `swap256` then `swab32` on every word reverses the 32 bytes of a 256-bit value |
| StringList.Add | miner.h:341-349 | `string_elist_add` appends one owned copy of the string at the tail, earlier entries unchanged and in order |
| StringList.Del | miner.h:351-356 | `string_elist_del` removes exactly the given entry, the others keep their order, and the string is freed exactly when the entry owns it |
| StringList.DelAfterAdd | miner.h:341-356 | deleting the entry just added restores the list and frees the copy |
| StringList.DelBeforeAdd | miner.h:341-356 | deleting an older entry commutes with adding a new one |
| StringList.AddsAreOwned | miner.h:341-356 | a list built by `string_elist_add` owns every string, so each deletion frees exactly the deleted entry's text |
| Strategy.FromOrdinal | miner.h:180-187 | a number names a strategy exactly when it lies in 0..`TOP_STRATEGY`, and that strategy has that number |
| Strategy.TopIsLast | miner.h:180-187 | `TOP_STRATEGY` is the number of `POOL_LOADBALANCE`, and no strategy's number exceeds it |
| Strategy.OrdinalRoundTrip | miner.h:180-187 | a strategy's number leads back to the strategy |
| Strategy.OrdinalInjective | miner.h:180-187 | distinct strategies have distinct numbers |

## Left out

- `callapi` (api-example.c:188-277) is left out. It does name resolution, sockets, the send/receive loop and the Windows error table, all network I/O. `display` is modelled on an arbitrary reply buffer instead. The 65500-byte receive limit bounds that buffer in the program but not in the model.
- The usage message and its `stderr` output are left out. `Usage` stands for "print the usage line and return 1".
- The exact bytes `printf`/`puts` write are left out. Each printed line is a `Line` value.
- The integer width of `itemcount` is not modelled. It counts fields of a reply of at most 65500 bytes, so it cannot overflow.
- `isspace` and `isdigit` are their ASCII ("C" locale) classes. Other locales and negative `char` values are not modelled.
- `argv` entries are C strings, so the `Arg` type excludes NUL. `trim` writing into `argv` is modelled only through the returned C string, and in `TrimInPlace` through the buffer it returns.
- ByteSwap.Swap256: buffers that overlap only partly (`dest` a few words past `src`, or before it) are not modelled. Only distinct buffers (`Swap256`) and `dest == src` (`Swap256InPlace`) are.
- The compiler-builtin and platform-header byte-swap branches (miner.h:87-101) are left out. Only the fallback macros are modelled. A byte order other than little or big endian is a compile error in the source and has no counterpart.
- `string_elist_add`'s `calloc`/`strdup` and the node memory are left out. A copy is a value, allocation failure is not modelled, and the list node itself is not freed by `string_elist_del`, which the model does not track. An entry is named by its position in the list.
- The mutex and rwlock wrappers (miner.h:381-431) are left out. They are concurrency primitives.
- Declared-only functions are left out: the work queue, `switch_pools`, `submit_nonce`, the scanhash functions and the JSON-RPC helpers. Their bodies are not part of this model.
- Structures with no behaviour shown are left out: `struct strategies`, the device, pool and work records. The ADL/OpenCL GPU structures and floating-point counters go with them. Only the numbering of `enum pool_strategy` and `TOP_STRATEGY` is modelled.
