# str_transliterate, modelled in Dafny

`mysqludf_transliterate` is a MySQL user-defined function. For each row, its
callback `str_transliterate` walks the NUL-terminated argument with a read
counter (`original_counter`) and a write counter (`transliterated_counter`),
rewriting into an output buffer that `str_transliterate_init` allocated:

- the UTF-8 encoding of "á" (0xC3 0xA1) becomes the single byte `'a'`, and
  both input bytes are consumed;
- every other byte, ASCII or not, is copied through;
- a NUL terminator is written after the output, and the output length goes to
  `*res_length`;
- a SQL NULL argument returns NULL, sets `*res_length = 0` and
  `*null_value = 1`, and leaves the buffer untouched.

`transliterate.dfy` (module `Transliterate`) holds the whole model:

- `Transliterated` and `Occurrences` specify the output as pure functions of
  the input bytes.
- `StrTransliterate` is the callback itself. It is a method with the same
  two-counter loop, writing into an `array<bv8>`, and it is proved against
  `Transliterated`.
- The argument is an `Option<seq<bv8>>`. `None` is SQL NULL, and `Some(s)`
  carries the bytes before the terminator.
- The loop reads from `s + [NUL]`, so the lookahead `original[i + 1]` is an
  explicit read. On the last byte of the text it reads the terminator, and
  the model proves that read is in bounds. Because the terminator is never
  0xA1, a trailing 0xC3 is copied.
- The code therefore needs no separate bounds check for the lookahead, and
  adds none.
- The buffer's size is a precondition: room for the output plus its
  terminator. The allocation at transliterate.c:110 is modelled on its own,
  as written and as corrected (see Findings).

## Model

| member | source | states |
|---|---|---|
| Transliterate.StrTransliterate | transliterate.c:131-175 | NULL argument: returns null, `*res_length = 0`, `*null_value = 1`, buffer unchanged. Otherwise: returns the buffer; `*res_length` = input length minus occurrences of the pair and is below the buffer's size; the buffer's first `*res_length` bytes are the transliteration of the input; the next byte is NUL; every later byte is unchanged. |
| Transliterate.Transliterated | transliterate.c:149-169 | The output of the scan is never longer than its input. |
| Transliterate.StepOutput | transliterate.c:150-168 | When the cursors are in step and input remains, the byte the iteration writes is `'a'` if a pair starts at the read cursor and the byte under the read cursor otherwise. |
| Transliterate.StepAdvance | transliterate.c:149-169 | One iteration writes one byte and reads two bytes at a pair, one otherwise, and keeps the cursors in step. |
| Transliterate.LengthCount | transliterate.c:149-169 | The output length equals the input length minus the number of pair occurrences. |
| Transliterate.NoSelfOverlap | transliterate.c:152-157 | The pair's second byte never starts another pair, so skipping it loses no occurrence. |
| Transliterate.NoPairIffNoOccurrence | transliterate.c:149-169 | The occurrence count is zero exactly when the input has no 0xC3 0xA1. |
| Transliterate.IdentityIffNoPair | transliterate.c:149-173 | The output equals the input if and only if the input has no 0xC3 0xA1, for every input, the empty one included. |
| Transliterate.OutputBytes | transliterate.c:154-166 | Every output byte is `'a'` or a byte of the input, so NUL-free input gives NUL-free output and the terminator marks the end. |
| Transliterate.AsciiIdentity | transliterate.c:164-168 | Input made only of bytes at most 0x7F is copied unchanged. |
| Transliterate.NoPairInOutput | transliterate.c:149-169 | The output never holds 0xC3 followed by 0xA1. |
| Transliterate.Idempotent | transliterate.c:149-169 | Transliterating the output a second time changes nothing. |
| Transliterate.OccurrencesConcat | transliterate.c:149-169 | The occurrences in `a + b` are those of `a`, plus those of `b`, plus one when a pair straddles the join. |
| Transliterate.ConcatSplits | transliterate.c:149-169 | Unless a pair straddles the join, the output for `a + b` is the output for `a` followed by the output for `b`. |
| Transliterate.ConcatIff | transliterate.c:149-169 | The output splits at a join if and only if no pair straddles it. |
| Transliterate.TrailingLeadCopied | transliterate.c:150-162 | A 0xC3 as the last byte sees only the terminator after it and is copied. |
| Transliterate.FirstPairReplaced | transliterate.c:149-169 | When the first pair is at `k`, the output is the bytes before `k` unchanged, then `'a'`, then the output for what follows the pair. |
| Transliterate.CafeScenario | transliterate.c:152-157 | "café" becomes "cafa". |
| Transliterate.HelloScenario | transliterate.c:164-168 | "hello" is unchanged. |
| Transliterate.TwiceScenario | transliterate.c:152-157 | "áá" becomes "aa". |
| Transliterate.LoneLeadScenario | transliterate.c:150-162 | "a" followed by a lone 0xC3 is unchanged. |
| Transliterate.AsWrittenFitsIffPair | transliterate.c:110 | A buffer of `strlen(original)` bytes holds the output and its terminator if and only if the input contains a pair. |
| Transliterate.AsWrittenOverflowsOnHello | transliterate.c:110 | For "hello", the `strlen` buffer has 5 bytes, but 6 are needed. |
| Transliterate.CorrectedFits | transliterate.c:110 | `strlen + 1` bytes always suffice: they exceed what is needed by the number of pair occurrences. |
| Transliterate.Allocate | transliterate.c:110 | The corrected allocation is fresh, has `strlen + 1` bytes, and meets the capacity that `StrTransliterate` requires. |

## Left out

- Argument count and type validation in `str_transliterate_init`, and its `snprintf` messages (transliterate.c:89-106): host glue.
- The `malloc` failure path, `initid->ptr`, `maybe_null` and `str_transliterate_deinit`'s `free` (transliterate.c:112-129): allocation lifecycle. Only the size at line 110 is modelled.
- The buffer is sized once, from the argument seen at init time, and then reused for every row (transliterate.c:108-118). The model only requires that the buffer it is given is large enough for the current row.
- The `UDF_INIT`/`UDF_ARGS` structures and the `char *result` and `char *error` parameters. The assignment `result = NULL` at line 143 only changes a local, so the model returns null directly.
- `*null_value` is written only in the NULL case. On the other path, the model passes in the caller's value unchanged (`nullValueIn`).
- The argument is modelled as its byte sequence before the first NUL, not as a raw pointer. Bytes after an embedded NUL are never read by the loop, so they are outside the model.
- StrTransliterate: the counters are C `int`. For inputs of 2^31 bytes or more they would overflow; the model uses unbounded integers.
- Compiler and platform macros, the version string, the `HAVE_DLOPEN` guard and the `extern "C"` declarations (transliterate.c:39-86).
- Unicode normalisation and any other accented character: the code maps exactly one byte pair.

## Findings

| source | as written | input that shows it | evidently intended | confidence | as-written member | corrected member |
|---|---|---|---|---|---|---|
| transliterate.c:110 | The buffer gets `strlen(original)` bytes, but line 171 writes the terminator at index `transliterated_counter`. With no 0xC3 0xA1 in the input, that index equals `strlen(original)`, one past the end. | "hello" (5 bytes allocated, terminator at index 5); the empty string (0 bytes allocated, terminator at index 0) | allocate `strlen(original) + 1` bytes | not executed | Transliterate.AsWrittenFitsIffPair | Transliterate.Allocate |
