# zk-kit conversions, modelled in Dafny

This project models the conversions module of the zk-kit utilities package
(version 1.2.1, CommonJS build) as vendored under `@zk-kit/baby-jubjub`. The
module converts between non-negative bigints, hexadecimal strings and byte
buffers, big-endian unless the name says `le`:

- `bigIntToHexadecimal` / `hexadecimalToBigInt`: a bigint and its base-16
  text (even length, lower case on output; optional `0x` on input);
- `beBufferToBigInt`, `leBufferToBigInt`, `bufferToBigInt`: bytes to bigint
  via `BigInt("0x" + hex)`;
- `beBigIntToBuffer`, `leBigIntToBuffer`, `bigIntToBuffer`: a bigint into a
  zero-filled buffer of an optional size, failing when the size is too small;
- `bigNumberishToBigInt`, `bigNumberishToBuffer`: the same for the
  `BigNumberish` union (number/bigint, string, buffer);
- `hexadecimalToBuffer`, `bufferToHexadecimal`: hex text and bytes.

The modules, in dependency order:

| file | module | contents |
|---|---|---|
| `errors.dfy` | `Errors` | `Option`, `Result`, and the exceptions the module raises |
| `radix.dfy` | `Radix` | bytes, positional value (`Fold`), big- and little-endian readings, powers |
| `digits.dfy` | `Digits`, `TypeChecks` | hexadecimal characters and digit strings; the `isHexadecimal` guard |
| `js_bigint.dfy` | `JsBigInt` | `BigInt.prototype.toString(16)` and `BigInt(string)` |
| `node_buffer.dfy` | `NodeBuffer` | Node's hex codec, `Buffer.alloc` and `buf.copy` (on an `array`) |
| `conversions.dfy` | `Conversions` | the twelve conversions |
| `laws.dfy` | `ConversionLaws` | round trips, minimality of the default size, byte-order symmetry |

A thrown exception is an `Err` carrying which one was thrown: `NotHexadecimal`
(the `TypeError` of the hexadecimal guard), `NotBigNumberish` (the `TypeError`
of `requireBigNumberish`), `BigIntSyntax` (the `SyntaxError` of `BigInt`) and
`SizeTooSmall(size, minSize)` (the `Error` of the buffer conversions). Bigints
are `nat`, bytes are `Byte` (0..255), buffers are `seq<Byte>` (and `array<Byte>`
where the source allocates and fills one), strings are `seq<char>`. An optional
`size` is `Option<int>`; JavaScript's `!size` is `IsFalsy`: absent or 0.

The facts about numbers are kept apart from the functions that compute them:
each conversion's contract states the shape of its result (length, alphabet,
which inputs fail and with what) and a lemma beside it states the number the
result denotes (`BigIntToHexadecimalValue`, `MinBytesValue`,
`BeBigIntToBytesValue`, `LeBigIntToBytesValue`). `beBigIntToBuffer` and
`leBigIntToBuffer` are methods that allocate an array with `Alloc`, fill it
with `Copy`, and are proved to produce exactly what the functions
`BeBigIntToBytes` and `LeBigIntToBytes` describe; `bigIntToBuffer` is a method
that calls the big-endian one. The other buffer results (`hexadecimalToBuffer`,
`bigNumberishToBuffer`) are modelled as byte sequences returned by functions.

Where the package's documentation and its code differ, the model follows the
code: `hexadecimalToBigInt` is documented to accept hexadecimal with or
without a `0x` prefix and its guard also admits `0X`, but only `0x` is
recognised before the string reaches `BigInt` (see Findings).

## Model

Source paths are relative to the repository root;
`conversions.cjs` is `node_modules/@zk-kit/baby-jubjub/node_modules/@zk-kit/utils/dist/lib.commonjs/conversions.cjs`.

| member | source | states |
|---|---|---|
| `JsBigInt.ToBase16` | node_modules/@zk-kit/baby-jubjub/node_modules/@zk-kit/utils/dist/lib.commonjs/conversions.cjs:35 | `value.toString(16)` is one or more lower-case hex digits, starting with "0" exactly when the value is 0, and then being just "0" |
| `JsBigInt.ToBase16Value` | node_modules/@zk-kit/baby-jubjub/node_modules/@zk-kit/utils/dist/lib.commonjs/conversions.cjs:35 | the rendering read back in base 16 is the value |
| `JsBigInt.StringToBigInt` | node_modules/@zk-kit/baby-jubjub/node_modules/@zk-kit/utils/dist/lib.commonjs/conversions.cjs:54 | `BigInt(s)` succeeds exactly for the empty string (0), a `0x`/`0X`, `0o`/`0O` or `0b`/`0B` prefix followed by one or more digits of that base (their value in that base), or one or more decimal digits (their value); everything else is a `SyntaxError` |
| `JsBigInt.OctalExample` | node_modules/@zk-kit/baby-jubjub/node_modules/@zk-kit/utils/dist/lib.commonjs/conversions.cjs:158 | `BigInt("0o17")` is 15 |
| `JsBigInt.BinaryExample` | node_modules/@zk-kit/baby-jubjub/node_modules/@zk-kit/utils/dist/lib.commonjs/conversions.cjs:158 | `BigInt("0b101")` is 5 |
| `NodeBuffer.HexToBytes` | node_modules/@zk-kit/baby-jubjub/node_modules/@zk-kit/utils/dist/lib.commonjs/conversions.cjs:186 | `Buffer.from(h, "hex")` on an even-length hex string has one byte per digit pair |
| `NodeBuffer.HexToBytesValue` | node_modules/@zk-kit/baby-jubjub/node_modules/@zk-kit/utils/dist/lib.commonjs/conversions.cjs:186 | the decoded bytes read big-endian equal the digits read in base 16 |
| `NodeBuffer.BytesToHex` | node_modules/@zk-kit/baby-jubjub/node_modules/@zk-kit/utils/dist/lib.commonjs/conversions.cjs:196 | `buf.toString("hex")` is two lower-case hex digits per byte |
| `NodeBuffer.BytesToHexPairs` | node_modules/@zk-kit/baby-jubjub/node_modules/@zk-kit/utils/dist/lib.commonjs/conversions.cjs:196 | digit pair k of the rendering is byte k, high nibble first |
| `NodeBuffer.BytesToHexValue` | node_modules/@zk-kit/baby-jubjub/node_modules/@zk-kit/utils/dist/lib.commonjs/conversions.cjs:64 | the rendering read in base 16 is the bytes read big-endian |
| `NodeBuffer.BytesToHexRoundTrip` | node_modules/@zk-kit/baby-jubjub/node_modules/@zk-kit/utils/dist/lib.commonjs/conversions.cjs:186 | decoding the hex rendering of any bytes gives the same bytes |
| `NodeBuffer.HexToBytesRoundTrip` | node_modules/@zk-kit/baby-jubjub/node_modules/@zk-kit/utils/dist/lib.commonjs/conversions.cjs:196 | rendering the decoding of an even-length lower-case hex string gives the same string |
| `NodeBuffer.Alloc` | node_modules/@zk-kit/baby-jubjub/node_modules/@zk-kit/utils/dist/lib.commonjs/conversions.cjs:106 | `Buffer.alloc(size, 0)` is a new buffer of `size` zero bytes |
| `NodeBuffer.Copy` | node_modules/@zk-kit/baby-jubjub/node_modules/@zk-kit/utils/dist/lib.commonjs/conversions.cjs:108 | `source.copy(target, offset)` writes as much of the source as fits from `offset` on, returns that count, and leaves every other byte of the target unchanged |
| `TypeChecks.IsHexadecimal` | node_modules/@zk-kit/baby-jubjub/node_modules/@zk-kit/utils/dist/type-checks.d.ts:63-71 | `isHexadecimal(s, prefix)`: with a prefix, "0x" or "0X" then one or more hex digits of either case; without, one or more such digits and nothing else |
| `TypeChecks.PrefixedHexadecimal` | node_modules/@zk-kit/baby-jubjub/node_modules/@zk-kit/utils/dist/type-checks.d.ts:63-71 | a prefixed hexadecimal string is exactly "0x" or "0X" followed by an unprefixed one, and no string passes both forms of the guard |
| `Conversions.BigIntToHexadecimal` | node_modules/@zk-kit/baby-jubjub/node_modules/@zk-kit/utils/dist/lib.commonjs/conversions.cjs:33-41 | an even number (at least two) of lower-case hex digits, "00" for 0, with no whole leading zero byte |
| `Conversions.BigIntToHexadecimalValue` | node_modules/@zk-kit/baby-jubjub/node_modules/@zk-kit/utils/dist/lib.commonjs/conversions.cjs:33-41 | the padded rendering read in base 16 is the value |
| `Conversions.HexadecimalToBigInt` | node_modules/@zk-kit/baby-jubjub/node_modules/@zk-kit/utils/dist/lib.commonjs/conversions.cjs:48-55 | as written: a string the guard rejects is a `TypeError`; unprefixed and `0x`-prefixed digits give their value; `0X`-prefixed digits are a `SyntaxError` |
| `Conversions.HexadecimalToBigIntAnyPrefix` | node_modules/@zk-kit/baby-jubjub/node_modules/@zk-kit/utils/dist/lib.commonjs/conversions.cjs:48-55 | corrected: succeeds exactly when the guard admits the string, with the value of its digits under either prefix, and fails only with the guard's `TypeError` |
| `Conversions.UnprefixedIsNotPrefixed` | node_modules/@zk-kit/baby-jubjub/node_modules/@zk-kit/utils/dist/lib.commonjs/conversions.cjs:53 | unprefixed digits never start with `0x`, and prefixing them with `0x` gives a prefixed hex string with the same digits; a `0X` string prefixed again is not hexadecimal |
| `Conversions.BeBufferToBigInt` | node_modules/@zk-kit/baby-jubjub/node_modules/@zk-kit/utils/dist/lib.commonjs/conversions.cjs:62-65 | a non-empty buffer gives its big-endian value; the empty buffer gives "0x", a `SyntaxError` |
| `Conversions.LeBufferToBigInt` | node_modules/@zk-kit/baby-jubjub/node_modules/@zk-kit/utils/dist/lib.commonjs/conversions.cjs:72-75 | a non-empty buffer gives its little-endian value; the empty buffer is a `SyntaxError` |
| `Conversions.BufferToBigInt` | node_modules/@zk-kit/baby-jubjub/node_modules/@zk-kit/utils/dist/lib.commonjs/conversions.cjs:81-83 | the same results as the big-endian reading |
| `Conversions.MinBytes` | node_modules/@zk-kit/baby-jubjub/node_modules/@zk-kit/utils/dist/lib.commonjs/conversions.cjs:95-98 | the value's own bytes number `Math.ceil(hex.length / 2)`, at least one, with no leading zero byte unless there is only one |
| `Conversions.MinBytesValue` | node_modules/@zk-kit/baby-jubjub/node_modules/@zk-kit/utils/dist/lib.commonjs/conversions.cjs:107 | the value's own bytes read big-endian are the value |
| `Conversions.BeBigIntToBytes` | node_modules/@zk-kit/baby-jubjub/node_modules/@zk-kit/utils/dist/lib.commonjs/conversions.cjs:94-110 | fails exactly when a truthy size is below the minimum, with that size and minimum; otherwise the result has the requested size, or the minimum when the size is absent or 0 |
| `Conversions.BeBigIntToBytesValue` | node_modules/@zk-kit/baby-jubjub/node_modules/@zk-kit/utils/dist/lib.commonjs/conversions.cjs:94-110 | every big-endian result reads as the value, whatever the padding |
| `Conversions.LeBigIntToBytes` | node_modules/@zk-kit/baby-jubjub/node_modules/@zk-kit/utils/dist/lib.commonjs/conversions.cjs:121-137 | the same failure condition and size as the big-endian variant |
| `Conversions.LeBigIntToBytesValue` | node_modules/@zk-kit/baby-jubjub/node_modules/@zk-kit/utils/dist/lib.commonjs/conversions.cjs:121-137 | every little-endian result reads as the value, whatever the padding |
| `Conversions.BeCopiedLayout` | node_modules/@zk-kit/baby-jubjub/node_modules/@zk-kit/utils/dist/lib.commonjs/conversions.cjs:105-108 | a zero buffer with the value's bytes copied to offset `size - fromHex.length` is the big-endian result |
| `Conversions.LeCopiedLayout` | node_modules/@zk-kit/baby-jubjub/node_modules/@zk-kit/utils/dist/lib.commonjs/conversions.cjs:132-135 | a zero buffer with the reversed bytes copied to offset 0 is the little-endian result |
| `Conversions.BeBigIntToBuffer` | node_modules/@zk-kit/baby-jubjub/node_modules/@zk-kit/utils/dist/lib.commonjs/conversions.cjs:94-110 | the method throws exactly when the function fails, with the same error, and otherwise returns a new array holding exactly the function's bytes |
| `Conversions.LeBigIntToBuffer` | node_modules/@zk-kit/baby-jubjub/node_modules/@zk-kit/utils/dist/lib.commonjs/conversions.cjs:121-137 | the same for the little-endian method and function |
| `Conversions.BigIntToBuffer` | node_modules/@zk-kit/baby-jubjub/node_modules/@zk-kit/utils/dist/lib.commonjs/conversions.cjs:143-145 | without a size it never throws and returns a new array holding the value's own bytes, which read as the value |
| `Conversions.BigNumberishToBigInt` | node_modules/@zk-kit/baby-jubjub/node_modules/@zk-kit/utils/dist/lib.commonjs/conversions.cjs:153-159 | a number gives itself; bytes are read big-endian (empty bytes are a `SyntaxError`); a string succeeds exactly when `BigInt` parses it, with `BigInt`'s result (a prefixed hex or decimal string gives its value), and a string `BigInt` cannot parse is the guard's `TypeError` |
| `Conversions.BigNumberishToBuffer` | node_modules/@zk-kit/baby-jubjub/node_modules/@zk-kit/utils/dist/lib.commonjs/conversions.cjs:167-173 | a buffer is copied as it is; any other argument fails exactly when its bigint conversion fails and otherwise gives that bigint's own bytes |
| `Conversions.HexadecimalToBuffer` | node_modules/@zk-kit/baby-jubjub/node_modules/@zk-kit/utils/dist/lib.commonjs/conversions.cjs:180-187 | fails with the guard's `TypeError` exactly when the string is not unprefixed hex; otherwise has `ceil(length / 2)` bytes that read as the digits' value |
| `Conversions.BufferToHexadecimal` | node_modules/@zk-kit/baby-jubjub/node_modules/@zk-kit/utils/dist/lib.commonjs/conversions.cjs:194-197 | two lower-case digits per byte, pair k encoding byte k, and the digits' value is the bytes' big-endian value |
| `ConversionLaws.HexadecimalRoundTrip` | node_modules/@zk-kit/baby-jubjub/node_modules/@zk-kit/utils/dist/lib.commonjs/conversions.cjs:33-55 | parsing the rendering of a value, with or without `0x`, gives the value |
| `ConversionLaws.HexadecimalToBigIntUpperPrefix` | node_modules/@zk-kit/baby-jubjub/node_modules/@zk-kit/utils/dist/lib.commonjs/conversions.cjs:48-55 | the as-written and corrected parses agree except on `0X`-prefixed strings, which only the corrected one accepts |
| `ConversionLaws.UpperPrefixCounterexample` | node_modules/@zk-kit/baby-jubjub/node_modules/@zk-kit/utils/dist/lib.commonjs/conversions.cjs:49-54 | "0X1" passes the guard, is a `SyntaxError` as written, and is 1 when corrected |
| `ConversionLaws.MinSizeFits` | node_modules/@zk-kit/baby-jubjub/node_modules/@zk-kit/utils/dist/lib.commonjs/conversions.cjs:96-98 | the value is below 256 to the power of its minimum size |
| `ConversionLaws.MinSizeIsMinimal` | node_modules/@zk-kit/baby-jubjub/node_modules/@zk-kit/utils/dist/lib.commonjs/conversions.cjs:96-98 | no non-empty buffer shorter than the minimum size reads as the value |
| `ConversionLaws.BeRoundTrip` | node_modules/@zk-kit/baby-jubjub/node_modules/@zk-kit/utils/dist/lib.commonjs/conversions.cjs:62-110 | reading back any buffer `beBigIntToBuffer` returns gives the value |
| `ConversionLaws.LeRoundTrip` | node_modules/@zk-kit/baby-jubjub/node_modules/@zk-kit/utils/dist/lib.commonjs/conversions.cjs:72-137 | reading back any buffer `leBigIntToBuffer` returns gives the value |
| `ConversionLaws.BeBytesRoundTrip` | node_modules/@zk-kit/baby-jubjub/node_modules/@zk-kit/utils/dist/lib.commonjs/conversions.cjs:94-110 | a non-empty buffer's value converted at the buffer's length gives the same buffer back |
| `ConversionLaws.LeIsReversedBe` | node_modules/@zk-kit/baby-jubjub/node_modules/@zk-kit/utils/dist/lib.commonjs/conversions.cjs:94-137 | the little-endian conversion fails exactly when the big-endian one does, with the same error, and otherwise is its reversal |
| `ConversionLaws.LeBytesRoundTrip` | node_modules/@zk-kit/baby-jubjub/node_modules/@zk-kit/utils/dist/lib.commonjs/conversions.cjs:121-137 | a non-empty buffer's little-endian value converted at its length gives the same buffer back |
| `ConversionLaws.BufferHexadecimalRoundTrip` | node_modules/@zk-kit/baby-jubjub/node_modules/@zk-kit/utils/dist/lib.commonjs/conversions.cjs:180-197 | parsing the rendering of a non-empty buffer gives the buffer; the empty buffer renders as "", which the guard rejects |
| `ConversionLaws.HexadecimalBufferRoundTrip` | node_modules/@zk-kit/baby-jubjub/node_modules/@zk-kit/utils/dist/lib.commonjs/conversions.cjs:180-197 | rendering the parse of lower-case hex gives the string back, with a leading "0" when it had an odd number of digits |
| `ConversionLaws.BigNumberishRoundTrip` | node_modules/@zk-kit/baby-jubjub/node_modules/@zk-kit/utils/dist/lib.commonjs/conversions.cjs:153-173 | when an argument converts to a buffer, that buffer converts to the same bigint as the argument |

## Left out

- The base64 conversions (`bufferToBase64`, `base64ToBuffer`, `textToBase64`, `base64ToText`, conversions.cjs lines 203-237): they are outside the numeric conversions modelled here.
- Negative bigints and numbers, and non-integral, `NaN` or infinite numbers: every value is a `nat`, so `toString(16)` never gives a "-" and `BigInt(number)` never throws a `RangeError`.
- Arguments of the wrong JavaScript type (`requireBigInt`, `requireTypes`): the Dafny types rule them out; `Buffer` and `Uint8Array` are one case, `seq<Byte>`.
- `Buffer.alloc` of a size above Node's maximum buffer length (a `RangeError`): sizes are unbounded.
- `isHexadecimal`, `isBigNumberish` and the `require*` guards: their bodies are not part of this model. `isHexadecimal` follows its documentation for the prefixed form ("0x" or "0X", then one or more digits of either case); for the unprefixed form the documentation says only that no prefix is expected, and the model reads it as one or more digits, so the empty string is rejected (this decides `hexadecimalToBuffer("")` and the empty-buffer case of `BufferHexadecimalRoundTrip`). `requireBigNumberish` is taken to accept a string exactly when `BigInt` parses it.
- JsBigInt.StringToBigInt: does not model a sign, surrounding or whitespace-only text (JavaScript trims it, and parses a blank string as 0); such strings reach it only through `bigNumberishToBigInt`, where they are rejected here.
- NodeBuffer.HexToBytes: requires an even-length hex string, so Node's truncation of odd or malformed input is not modelled; the conversions only pass it well-formed strings.
- The in-place `.reverse()` of the little-endian conversions is modelled as `Reverse` on a sequence; only `beBigIntToBuffer`'s and `leBigIntToBuffer`'s allocated buffer is an array updated in place.
- The application code around the package (authentication, pages, the other zk-kit and Semaphore packages) is not part of this model.

## Findings

| source | as written | input that shows it | evidently intended | confidence | as-written member | corrected member |
|---|---|---|---|---|---|---|
| node_modules/@zk-kit/baby-jubjub/node_modules/@zk-kit/utils/dist/lib.commonjs/conversions.cjs:49-54 | the guard admits a `0X` prefix, but only `0x` is recognised as a prefix, so "0X1" becomes "0x0X1" and `BigInt` throws a `SyntaxError` | "0X1" | every string the guard admits is parsed: "0X1" gives 1 | not executed; medium (depends on `isHexadecimal` accepting `0X`, as its documentation says) | `Conversions.HexadecimalToBigInt`, `ConversionLaws.UpperPrefixCounterexample` | `Conversions.HexadecimalToBigIntAnyPrefix` |
