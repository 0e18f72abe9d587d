# tcpreplay utility routines in Dafny

This project models the parsing core of tcpreplay's `src/common/utils.c`:

- `read_hexstring` decodes the user's layer-2 header (the `-2` option), such as
  `"aa,bb,1,ff"`, into a caller's fixed-capacity byte buffer. It rejects a
  non-positive capacity and any byte value above 0xff, and it reports
  truncation by returning `hexlen + 1`.
- `argv_create` splits a writable command-line string into white-space
  separated words in place. It stores a pointer to each word in `argv`, at
  most `argc - 1` of them, followed by NULL.
- `safe_malloc` and `safe_strdup` are the allocation helpers the decoder
  depends on.

The library routines the decoder calls are modelled alongside it:

- `strtok_r(s, ",", &save)`: the GNU C library algorithm, that is, skip
  commas, find the next comma or the terminator, and write a NUL over that
  comma.
- `sscanf(token, "%x", &value)`.

| file | module | models |
|---|---|---|
| `cstrings.dfy` | `CStrings` | NUL-terminated strings in character arrays, `unsigned char`, C-locale `isspace` |
| `alloc.dfy` | `Alloc` | `safe_malloc`, `safe_strdup` |
| `strtok.dfy` | `Strtok` | comma tokens (`Tokens`) and one `strtok_r` call (`StrtokR`) |
| `hexscan.dfy` | `HexScan` | what `%x` stores into an `unsigned int` |
| `hexstring.dfy` | `HexString` | `read_hexstring` |
| `argv.dfy` | `Argv` | `argv_create` |

Each routine is an imperative method over arrays, and its contract is given
in terms of pure specification functions.

For `read_hexstring`:

- `Tokens` gives the non-empty comma tokens of the description.
- `ValueAfter` gives what `value` holds after each `sscanf`.
- `DecodeResult` gives the outcome of the call: either `Fatal(...)` for an
  `errx` exit or `Count(n)` for the value returned.
- `Expected` gives the buffer the call leaves behind.

Lemmas then state what these functions mean:

- the outcome in terms of the tokens;
- the buffer byte by byte;
- a round trip from bytes to their `%x` spelling and back;
- the fact that tokens beyond the capacity are never read.

For `argv_create`:

- `Starts` and `Stop` give the word offsets and the final cursor of its loop.
- `Words` is an independent definition of the white-space separated words.
- `Cut` describes the buffer the call leaves behind.
- `ArgvWords` proves that the C string at each stored offset is the
  corresponding word.

Loops become `while` loops with invariants. The body of the main loop of each
routine is a method of its own (`DecodeStep`, `ArgvStep`), and each inner
scanning loop is a method too (`SkipBlanks`, `SkipWord`, `Strspn`,
`Strcspn`).

Representation choices:

- A pointer into a buffer is an offset, and NULL is -1.
- An `errx` exit is a `Fatal` outcome rather than the end of the process.
- The uninitialised `unsigned int value` of `read_hexstring` is a parameter,
  `garbage`, at most UINT_MAX. A first token that `%x` cannot convert
  leaves it in place.
- Two details of `%x` follow the GNU C library on a platform with 64-bit
  `unsigned long`:
  - for a number that does not fit an `unsigned int`, `strtoul` saturates
    at 2^64 - 1, a minus sign negates modulo 2^64, and the result is
    truncated to 32 bits;
  - `0x` not followed by a hex digit is read as the number 0.

Behaviour of the decoder as written:

- A token such as `"fg"` is not rejected. `%x` reads its leading hex digits,
  so it decodes to 0x0f (`TrailingGarbageIgnored`).
- A token that `%x` cannot convert at all is not rejected either: there is
  no hex digit where the number must start, as in `"zz"`, `"z5"` or `"-"`.
  It repeats the previous byte (`NoDigitRepeatsPrevious`, `NonHexTokenRepeats`).
- On truncation the result is `hexlen + 1`, not the number of tokens seen.
- The private copy of the description is not released on the truncation
  path.

## Model

| member | source | states |
|---|---|---|
| Alloc.SafeMalloc | src/common/utils.c:47-65 | returns a fresh block of exactly `len` bytes, every one of them zero |
| Alloc.SafeStrdup | src/common/utils.c:98-111 | returns a fresh array of `strlen(str) + 1` characters equal to the string and its terminator, so it holds the same C string |
| Strtok.StrtokR | src/common/utils.c:171 | one `strtok_r` call returns NULL exactly when no token is left; otherwise it returns the offset of a C string equal to the first remaining token and leaves the rest of the tokens at the new save offset; StrtokWrites: when the token returned ends at a comma, just before the new save offset, that comma becomes a NUL and nothing else changes; otherwise the buffer is unchanged |
| Strtok.TokensSplit | src/common/utils.c:171 | The tokens of `a`, then a comma, then `b` are the tokens of `a` followed by the tokens of `b`. |
| Strtok.TokensOfJoin | src/common/utils.c:179 | splitting a comma-joined list of non-empty, comma-free tokens gives the list back |
| Strtok.EmptyTokensSkipped | src/common/utils.c:179 | a leading comma, a trailing comma or a doubled comma adds no token |
| HexScan.StoredValue | src/common/utils.c:172 | a number within `unsigned int` range is stored as it is, a negated one wraps modulo 2^32, and nothing above UINT_MAX is stored |
| HexScan.ScanInto | src/common/utils.c:172 | when the conversion fails (no hex digit where the number must start), `value` keeps what it held; a value that fits an `unsigned int` before the call still fits after it |
| HexScan.ScanHexPrefix | src/common/utils.c:172 | a token is read up to its first character that is not a hex digit, and the value is that of the digits before it |
| HexScan.ScanUnsigned | src/common/utils.c:172 | a token that starts with a hex digit is read as an unsigned number, with no white space or sign |
| HexScan.ScanHexSkipsSpace | src/common/utils.c:172 | white space in front of a token does not change the value read |
| HexScan.ScanFormatHex | src/common/utils.c:172 | scanning a byte written as `printf("%x")` writes it gives the byte back |
| HexScan.TrailingGarbageIgnored | src/common/utils.c:172-174 | `"fg"` is read as 0x0f and passes the range check |
| HexScan.HexPrefixWithoutDigit | src/common/utils.c:172 | `"0xg"` is read as 0: a `0x` with no hex digit after it is not a matching failure |
| HexScan.NineDigitTokenWraps | src/common/utils.c:172-174 | `"100000000"` is stored as 0 in the `unsigned int`, so the check against 0xff lets it through |
| HexString.ReadHexstring | src/common/utils.c:151-198 | for a capacity below INT_MAX and a first `value` that fits an `unsigned int`, the outcome is DecodeResult of the tokens of the description; a capacity of 0 or less is fatal and writes nothing; otherwise `hex[0..hexlen)` ends as Expected and the array beyond `hexlen` is untouched; the description itself is never written |
| HexString.DecodeResultSpec | src/common/utils.c:163-197 | the capacity error happens exactly when `hexlen <= 0`; a count is returned exactly when every token there is room for is a byte; a count lies in `[1, hexlen + 1]` and exceeds `hexlen` exactly when there are more tokens than room; without truncation it equals the number of tokens; an invalid-byte error names the first token above 0xff |
| HexString.ExpectedSpec | src/common/utils.c:166-189 | byte `k` of the buffer is the value of token `k` for each stored token, in input order, and 0 after them; a count means every token there was room for was stored; a fatal byte is the token right after the stored ones |
| HexString.FirstOverSpec | src/common/utils.c:173-187 | every token before FirstOver is a byte, and the token it names is not |
| HexString.FirstOverUnique | src/common/utils.c:173-187 | FirstOver is the only index with those two properties |
| HexString.BytesAt | src/common/utils.c:175-176 | stored byte `k` is the value of token `k` cast to `u_char` |
| HexString.DecodeSpelled | src/common/utils.c:151-198 | round trip: decoding the comma-joined `%x` spelling of a non-empty byte string gives its length and the bytes followed by zeros when it fits; when it does not fit, it gives `hexlen + 1` and its first `hexlen` bytes |
| HexString.SpelledValues | src/common/utils.c:172-185 | every spelled-out token scans to its byte, whatever `value` held before |
| HexString.SpelledBytes | src/common/utils.c:175-189 | the first `w` spelled-out tokens are stored as the first `w` bytes |
| HexString.SpelledTokens | src/common/utils.c:171-179 | the comma-joined spelling splits back into the spelled tokens |
| HexString.OnlyLeadingTokensParsed | src/common/utils.c:179-187 | two descriptions that overflow the capacity and agree on their first `hexlen` tokens give the same outcome and the same buffer, whatever follows |
| HexString.ValueAfterPrefix | src/common/utils.c:172-185 | the values of the first `n` tokens depend on those tokens alone |
| HexString.BytesPrefix | src/common/utils.c:175-189 | so do the bytes stored for them |
| HexString.NoDigitRepeatsPrevious | src/common/utils.c:185 | the result of `sscanf` is not checked: a token `%x` cannot convert gets the value of the token before it |
| HexString.NonHexTokenRepeats | src/common/utils.c:171-197 | `"aa,zz"` with capacity 2 returns 2 and fills the buffer with 0xaa twice |
| HexString.Memset | src/common/utils.c:166 | the first `n` bytes become zero and the rest of the array is unchanged |
| HexString.DecodeTokens | src/common/utils.c:170-197 | starting from the zeroed buffer, reading the first token and then running the loop gives DecodeResult and leaves Expected |
| HexString.DecodeRest | src/common/utils.c:178-197 | the `while` loop, entered with the first byte stored, ends with DecodeResult and Expected |
| HexString.DecodeStep | src/common/utils.c:179-190 | one pass of the loop either ends the call, with the outcome and buffer above, or stores one more byte and keeps the loop invariant Decoding |
| HexString.NextToken | src/common/utils.c:179 | the next `strtok_r` call returns NULL exactly when every token has been read; otherwise it returns the next token and leaves the rest |
| HexString.ScanStore | src/common/utils.c:185-189 | the scan yields ValueAfter; a value above 0xff is the fatal outcome of the call, with the buffer untouched; otherwise the byte is stored and the loop invariant holds with one more byte |
| HexString.StoreByte | src/common/utils.c:188-189 | storing byte `w` extends the stored prefix by one token's byte |
| HexString.DecodeStops | src/common/utils.c:186-187 | a token above 0xff, after bytes only, is the fatal outcome, and the buffer holds the bytes before it |
| HexString.DecodeRunsOut | src/common/utils.c:181-183 | when every token there is room for is a byte, the call returns `hexlen + 1` if tokens remain and the number of tokens otherwise, with all of them stored |
| Argv.SkipBlank | src/common/utils.c:208-209 | the first offset from `p` that is not white space, or the end of the text |
| Argv.WordEnd | src/common/utils.c:215-216 | the first offset from `p` that is white space, or the end of the text |
| Argv.SkipBlanks | src/common/utils.c:208-209 | the cursor stops at SkipBlank, and every white-space character passed has been overwritten with NUL |
| Argv.SkipWord | src/common/utils.c:215-216 | the cursor stops at WordEnd, and nothing is written |
| Argv.ArgvStep | src/common/utils.c:207-216 | one pass of the `for` loop keeps the loop invariant Scanning; it either reaches the `break`, when no word is left, or stores the offset of the next word |
| Argv.ArgvEnds | src/common/utils.c:219-221 | when the loop ends, the cursor is where the final NUL goes, every word offset has been stored, the count is the number of words capped at `argc - 1`, and each stored offset holds its word as a C string |
| Argv.ArgvCreate | src/common/utils.c:202-222 | returns the number of words, capped at `argc - 1` (so `0 <= i <= argc - 1` when `argc >= 1`); `argv[0..i)` holds their offsets and `argv[i]` is NULL, with the rest of `argv` untouched; the buffer is cut as Cut describes, and the C string at each `argv[j]` is word `j` of the original string |
| Argv.ArgvWords | src/common/utils.c:208-221 | in the buffer left behind, the C string at each stored offset is the corresponding word, and the number of offsets is the number of words, capped at the slots available |
| Argv.StartsCount | src/common/utils.c:207-213 | the loop finds as many words as there are, but no more than the slots available |
| Argv.StartsAt | src/common/utils.c:208-216 | each stored offset is the first character of a word, either preceded by white space or at the starting point, and it is where word `j` of the text starts; the word ends no later than the stop |
| Argv.StartsIncrease | src/common/utils.c:207-216 | the stored offsets strictly increase |
| Argv.WordCut | src/common/utils.c:208-219 | a word that ends by the stop survives the cut as a C string of its own |
| Argv.WordsAreWords | src/common/utils.c:208-216 | every word is a non-empty run of characters that are not white space |
| Argv.WordsSkipBlank | src/common/utils.c:208-209 | white space in front of the rest of the string adds no word |

## Left out

- `packet_stats` (src/common/utils.c:115-149) is not modelled. It reads the clock, does floating-point throughput arithmetic and prints to the error stream.
- `_our_safe_realloc` (src/common/utils.c:72-92) is not modelled, because there is no coherent behaviour to prove. Its "old size" is `sizeof(ptr)`, the size of a pointer. Its zeroing `memset` goes through the pointer from before the `realloc`, with length `len - oldlen - 1`.
- `get_layer4` (src/common/utils.c:228-234) is not modelled. It is a single pointer offset with no decision logic.
- Allocation failure is not modelled: `SafeMalloc` and `SafeStrdup` always succeed. In the source, a `malloc` that returns NULL ends the process.
- Freeing memory is not modelled, so there is no memory model for `free`:
  - the copy released at line 194;
  - the copy leaked by the truncation return at line 183.
- The text of the diagnostics is not modelled: the messages of `errx`, `warnx` and `dbg`, and the `debug` flag. `Failure` keeps only the kind of error and the offending token.
- `isspace` is fixed to the "C" locale. Characters are Dafny `char` values, so the undefined behaviour of `isspace` on a negative `char` is not represented.
- Values of `%x` conversions that do not fit an `unsigned long` follow the GNU C library on a 64-bit platform. Other C libraries may store other values.
- HexString.ReadHexstring: requires at least one non-empty token when `hexlen > 0`. On an input with no token, `strtok_r` returns NULL and the source passes it to `sscanf` (line 172), which is undefined behaviour.
- HexString.ReadHexstring: requires `hexlen <= hex.Length`. The source writes `hexlen` bytes to `hex` without a check.
- HexString.ReadHexstring: requires `hexlen < INT_MAX`. With `hexlen == INT_MAX` and more tokens than that, `numbytes + 1` (line 181) and `++numbytes` (line 183) overflow the `int`, which is undefined behaviour in C. The specification functions themselves use unbounded integers.
- HexString.ReadHexstring: requires `garbage <= UINT_MAX`, the range of the uninitialised `unsigned int value`.
- HexScan.Magnitude: follows the GNU C library in reading `0x` (or `0X`, or `-0x`) with no hex digit after it as 0. Section 7.21.6.2 of ISO C11 makes such an input a matching failure, which would leave `value` unchanged.
- Argv.ArgvCreate: requires `argv.Length >= 1` and `argc <= argv.Length`, the room the source assumes for `argc - 1` words and the NULL.
- Pointers are offsets into the arrays and NULL is -1. Aliasing between the description, the buffer and `argv` is not modelled: they are separate arrays.
