# A verified model of the UTF-8 codec in strutils.h

strutils.h is a small UTF-8 library for null-terminated C strings. It has:

- a classifier for leading bytes (`utf8_char_len`);
- a single-character decoder (`utf8_parse_char`);
- four scanners that walk a string character by character: validation, counting, finding
  the n-th character, and converting into a wide-character buffer;
- indexed decoding (`utf8_nth_char`);
- a decode cursor that moves forward over the character it decodes (`utf8_next_char`).

This project models each of them in Dafny and proves what they compute.

The modules:

- `Utf8Char` (utf8_char.dfy): bytes, the classifier and the decoder.
  - A byte is an `int` in 0..255.
  - A string is the sequence of its bytes before the terminator, none of them 0.
  - `At(s, j)` reads the terminator at and past the end.
  - The sentinels `UINT8_MAX` and `WCHAR_MAX` become `None`.
- `Utf8Walk` (utf8_walk.dfy): the specification the scanners are proved against.
  - `Scan` is the left-to-right walk every scanner performs. It records the decoded code
    points and why the walk stopped: at the terminator, at a malformed leading byte, or at
    a character whose declared length runs past the terminator.
  - `ValidUtf8` is the validator's notion of validity.
  - `Advance` and `AdvanceN` are the offsets a decode cursor moves through.
  - Lemmas link the walk to the cursor.
- `Utf8Encoding` (utf8_encoding.dfy): a reference encoder, which the library does not
  have. It is used to state the round trips and to characterise exactly what the
  validator accepts.
- `Utf8Scan` (utf8_scan.dfy): the four scanners and `utf8_nth_char`, as methods with
  `while` loops.
  - A pointer the C code advances becomes an offset `i`.
  - `utf8_to_wstr` writes into an `array<nat>`.
- `Utf8Cursor` (utf8_cursor.dfy): `utf8_next_char`.
  - The caller's `const char**` becomes a `Cursor` object whose `pos` field the call
    updates.
  - `ReadAll` drives it over a whole string.
- `Utf8RoundTrip` (utf8_round_trip.dfy): bulk conversion of text produced by the
  reference encoder.

The library is lenient, and the model keeps that leniency: overlong forms, surrogates and
values above U+10FFFF are accepted. A 2-, 3- or 4-byte character is any value that fits in
its 11, 16 or 21 payload bits.

The library reads past the terminator in some cases, which is undefined behaviour in C:
- The counter, the position lookup and the conversion step by the declared length
  without checking continuation bytes. A character cut short by the terminator makes
  them step past it.
- Those methods therefore require the string (or its first n characters) to be *framed*:
  each character's declared length fits before the terminator (`Framed`, `FramedFor`).
- `utf8_nth_char` and `utf8_next_char` also decode a character whose last byte read is
  the terminator itself. That is defined behaviour, and the model allows it (`ReadableAt`).

The position lookup checks the index before it classifies the byte (strutils.h:120-128).
So when the walk stops at a malformed leading byte after n characters, the lookup of index
n returns that byte's offset, not "not found". `utf8_nth_char` then returns None for that
index, because the byte does not classify. The model follows the code: `Positions` counts
the positions at which the walk reads a leading byte, including the one it stops at.

## Model

| member | source | states |
|---|---|---|
| Utf8Char.CharLen | strutils.h:11-34 | the length is 1, 2, 3 or 4 exactly for bytes 0xxxxxxx, 110xxxxx, 1110xxxx and 11110xxx; every other byte (10xxxxxx continuation bytes and F8–FF) is malformed (None) |
| Utf8Char.ParseChar | strutils.h:36-54 | a length of 1 to 4 gives a value, any other length gives None; a 1-byte character decodes to its byte; a character whose leading byte declares n bytes decodes below 2^7, 2^11, 2^16 or 2^21 |
| Utf8Char.ParseCharPrefix | strutils.h:36-49 | the decoder reads only the first n bytes: appending bytes after them does not change the value |
| Utf8Walk.Scan | strutils.h:56-78 | the walk decodes at most one character per byte, and it stops at the terminator with nothing decoded only on the empty string |
| Utf8Walk.Advance | strutils.h:152-166 | a cursor step leaves the cursor in place exactly when the leading byte is malformed |
| Utf8Walk.ValidIsFramed | strutils.h:80-96 | a string the validator accepts is well framed and has no malformed leading byte, so the counter, the lookup and the conversion are defined on it |
| Utf8Walk.AsciiDecoded | strutils.h:98-114 | on all-ASCII text every byte is one character decoding to itself, so the count is the byte length; the text is valid |
| Utf8Walk.WalkSplit | strutils.h:116-136 | after k cursor steps from offset 0, the walk from the cursor decodes exactly the characters after the first k and stops for the same reason as the whole walk |
| Utf8Walk.ScanPrepend | strutils.h:56-96 | a complete character followed by t is walked as its value then the walk of t; the two are valid together exactly when the character's following bytes are continuation bytes and t is valid |
| Utf8Walk.CursorReachesEnd | strutils.h:152-166 | one cursor step per character from offset 0 of a framed string with no malformed leading byte ends at the terminator |
| Utf8Walk.CursorDecodesInOrder | strutils.h:152-166 | the k-th cursor step starts at a valid leading byte whose character fits, and decodes the k-th character |
| Utf8Walk.WalkAt | strutils.h:116-136 | after k cursor steps the cursor is on the k-th character while there is one, and otherwise at the terminator, the malformed leading byte or the over-long character that stopped the walk |
| Utf8Walk.ThreeCharExample | strutils.h:56-96 | 41 C3 A9 E2 82 AC is valid and decodes to 0x41, 0xE9, 0x20AC |
| Utf8Walk.RejectedExamples | strutils.h:80-96 | a lone 0x80 is malformed and invalid; E2, E2 82 and C3 are invalid, because the terminator fails the continuation check, although decoding E2 82 or C3 alone yields a value |
| Utf8Walk.LenientExamples | strutils.h:84-92 | the overlong C0 80 and F4 90 80 80, which decodes to 0x110000 above U+10FFFF, are accepted |
| Utf8Walk.StoppedEarlyExamples | strutils.h:116-150 | in "A" C3 the lookup finds the character cut short by the terminator at offset 1 and decoding it reads the terminator; in "A" 80 it finds the malformed byte, which decodes to None |
| Utf8Encoding.DecodeEncodeChar | strutils.h:11-49 | for any value that fits in n bytes, its n-byte encoding classifies as length n, has continuation bytes after the first, decodes back to the value, and holds no 0 byte unless it is the 1-byte encoding of 0 |
| Utf8Encoding.DecodeEncode2 | strutils.h:41-43 | the 2-byte round trip from value to bytes and back |
| Utf8Encoding.DecodeEncode3 | strutils.h:44-46 | the 3-byte round trip from value to bytes and back |
| Utf8Encoding.DecodeEncode4 | strutils.h:47-49 | the 4-byte round trip from value to bytes and back |
| Utf8Encoding.EncodeDecodeChar | strutils.h:36-49 | re-encoding the value decoded from a complete n-byte character with continuation bytes gives back its bytes, and the value fits in n bytes |
| Utf8Encoding.EncodeDecode2 | strutils.h:41-43 | the 2-byte round trip from bytes to value and back |
| Utf8Encoding.EncodeDecode3 | strutils.h:44-46 | the 3-byte round trip from bytes to value and back |
| Utf8Encoding.EncodeDecode4 | strutils.h:47-49 | the 4-byte round trip from bytes to value and back |
| Utf8Encoding.FlattenDecodes | strutils.h:56-114 | a concatenation of encodable characters is 0-free, valid and well framed, and decodes to their values |
| Utf8Encoding.FrontCharacter | strutils.h:80-96 | a valid non-empty string starts with the encoding of an encodable character, followed by a valid rest |
| Utf8Encoding.Split | strutils.h:80-96 | every valid string is the concatenation of the encodings of some encodable characters |
| Utf8Encoding.ValidIffConcatenation | strutils.h:80-96 | the validator accepts a string exactly when it is a concatenation of n-byte encodings of values that fit in n bytes (leniency included) |
| Utf8Scan.Validate | strutils.h:80-96 | the result is true exactly when the string splits into characters with valid leading bytes each followed by as many continuation bytes as declared (`ValidUtf8`) |
| Utf8Scan.WcharCount | strutils.h:98-114 | on a well-framed string: None when the walk meets a malformed leading byte, and otherwise the number of characters |
| Utf8Scan.NthCharPos | strutils.h:116-136 | an offset is found exactly when n is below the number of leading positions the walk reads, and it is the offset a cursor from 0 reaches after n steps |
| Utf8Scan.NthChar | strutils.h:138-150 | the result is the decode at the offset found, or None when none is found; it is the n-th character while there is one, and on a well-framed string None past the last one |
| Utf8Scan.NthCharExample | strutils.h:138-150 | in 41 C3 A9 E2 82 AC, indices 0, 1 and 2 give 0x41, 0xE9 and 0x20AC and index 3 gives None |
| Utf8Scan.ToWstr | strutils.h:56-78 | None exactly when a malformed leading byte comes before cap characters, and otherwise min(count, cap); the first min(count, cap) slots hold the decoded characters in order, and no slot from there on changes |
| Utf8Cursor.Cursor.Next | strutils.h:152-166 | on a valid leading byte: returns the decoded character and advances by exactly its declared length; on a malformed one: returns None and leaves the cursor where it is |
| Utf8Cursor.ReadAll | strutils.h:152-166 | calling the cursor once per character from offset 0 of a framed string with no malformed leading byte returns every character in order and leaves the cursor at the terminator |
| Utf8RoundTrip.ConvertEncoded | strutils.h:56-78 | converting encoder output into a buffer large enough writes exactly the encoded values and returns their number |

## Left out

- main.c (`read_file_to_string`, `main`): file I/O, `malloc` and `setlocale`, which are environment plumbing with no codec logic.
- Platform widths: `wchar_t`, `size_t` and `uint8_t` are unbounded integers, and `UINT8_MAX`, `WCHAR_MAX`, `SIZE_MAX`, `(size_t)-1` and `NULL` are `None`. With a 16-bit `wchar_t`, the value 0xFFFF would collide with the sentinel; this is not modelled.
- The `WCHAR_MAX` checks after decoding (strutils.h:67, 159) are kept as branches that never run, because a length from the classifier is always 1 to 4.
- C `char` signedness and integer promotion in the masks: bytes are 0..255, and the masks give the same bits either way.
- Reads past the terminator, which are undefined behaviour, are excluded by preconditions:
  - the counter, the position lookup and the conversion require framing;
  - `utf8_nth_char` and `utf8_next_char` require that the bytes they read reach at most the terminator;
  - a second call of `utf8_next_char` after one at the terminator reads past it, so the cursor may stand one past the terminator but not be called there.
- Unicode scalar-value checks (surrogates, values above U+10FFFF, overlong forms) and any encoding direction. The library has neither. `Utf8Encoding` is a reference used only to state the round trips.
- Concurrency and aliasing between the string and the output buffer. The string is a value, so the buffer cannot overlap it.
