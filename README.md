# Tagged sentences and list chunking from `process_data/utils.py`

This project models three of the pieces of logic in `process_data/utils.py`
that do not touch files or third-party models:

- `sent_list_to_tagged_str`, the **encoder**. It writes a list of sentences as
  `" <t> s1 </t>  <t> s2 </t> ... "`.
- `sent_tokenize_by_tags`, the **decoder**. It strips the text. Then a
  `while` loop finds each `<t>` and checks that only whitespace precedes it.
  It collects the stripped text up to the next `</t>` and moves past that tag.
  After the loop, one more assertion checks what is left.
- `get_chunks`, the **chunker**. It cuts a list into slices of
  `len // num_chunks` elements. One slice starts at every multiple of that size
  below `len - 1`.

The model has three modules:

- `Builtins` (`builtins.dfy`) states the Python built-ins these functions rely
  on, with Python's edge cases:
  - `str.isspace`, `str.strip`, `str.find` (which returns -1) and `str.join`;
  - slicing with negative and out-of-range bounds;
  - floor division and `range`.
- `TagCodec` (`tag_codec.dfy`) holds the encoder as a function. The decoder is
  a method with the source's loop, proved equal to the specification function
  `Decoded`. Every `assert` of the decoder becomes a `Fail` value of a
  `Result`, one error kind per assertion.
- `Chunking` (`chunking.dfy`) holds the chunker as a function. Python's
  `ZeroDivisionError` and the `ValueError` raised by `range` become the two
  `ChunkError` values.

The model follows the code as written; in particular:

- The empty list encodes to `" <t>  </t> "`, not to `""`.
- A missing `</t>` is not rejected. Trailing text is rejected only beyond an
  offset; short trailing text is accepted.
- Asking for more chunks than there are items, or chunking an empty list,
  raises rather than returning a degenerate result.
- A negative chunk count on a non-empty list returns `[]` rather than failing.
- The source has no error taxonomy of its own: each failure is a bare
  `AssertionError` or a built-in exception. The error kinds here only name
  which assertion or built-in fails.

## Model

| member | source | states |
|---|---|---|
| `TagCodec.Encode` | process_data/utils.py:120-124 | the tagged string begins with `" <t> "` and ends with `" </t> "`; its length is the total sentence length plus 11 per sentence (11 for the empty list); the empty list gives `" <t>  </t> "` |
| `TagCodec.Decoded` | process_data/utils.py:95-117 | the decoder as a function: strip, then blank text gives `[]`, text without `<t>` fails, and otherwise `Scan` runs the loop; characterised by `DecodedEmpty`, `DecodedNoOpenTag`, `RoundTrip`, `MissingCloseTag` and the lemmas below |
| `TagCodec.Scan` | process_data/utils.py:104-116 | the loop from a remainder holding an open tag, with the check after it; a successful pass returns at least one sentence, and it never fails for lack of an open tag; `ScanIs` unfolds one pass |
| `TagCodec.DecodedStrict` | process_data/utils.py:95-117 | the corrected decoder, which also rejects a missing close tag and any text after the last close tag; characterised by the `Strict` lemmas |
| `TagCodec.Decode` | process_data/utils.py:95-117 | the loop as written (strip, the find/slice steps, the three assertions) returns exactly `Decoded(text)` |
| `TagCodec.RoundTrip` | process_data/utils.py:95-124 | a non-empty list whose sentences have no whitespace at either end and no `</t>` inside decodes back to itself; `<t>` inside a sentence does no harm |
| `TagCodec.RoundTripEmpty` | process_data/utils.py:120-124 | the empty list comes back as `[""]`, not as `[]` |
| `TagCodec.DecodedEmpty` | process_data/utils.py:97-99 | the decoder returns no sentence exactly when the text is all whitespace |
| `TagCodec.DecodedNoOpenTag` | process_data/utils.py:100-101 | the decoder fails for lack of an open tag exactly when the text is not blank and contains no `<t>` |
| `TagCodec.DecodedIgnoresOuterWhitespace` | process_data/utils.py:97 | whitespace added around the text does not change the result |
| `TagCodec.ScanSpaced` | process_data/utils.py:104-116 | sentences with no whitespace at either end and no `</t>`, written with any whitespace before each `<t>`, after it and before each `</t>`, come back exactly, both as written and in the corrected decoder |
| `TagCodec.DecodedSpaced` | process_data/utils.py:97-116 | the same holds for the whole decoder, with any whitespace also after the last `</t>`: sentences with no whitespace at either end and no `</t>` are decoded back exactly |
| `TagCodec.ScanPair` | process_data/utils.py:104-113 | after blank text, the sentence for `<t> m </t> z` is `strip(m)`, the first `</t>` ends it, and decoding continues on `z` |
| `TagCodec.ScanSentencesEncodable` | process_data/utils.py:104-113 | every sentence the loop collects is stripped and holds no `</t>` |
| `TagCodec.DecodeEncodeDecode` | process_data/utils.py:95-124 | re-encoding a successful non-empty decode and decoding again gives the same result |
| `TagCodec.TextBeforeFirstTag` | process_data/utils.py:105-107 | non-blank text before the first `<t>` is rejected |
| `TagCodec.ScanTextFirst` | process_data/utils.py:104-107 | a pass of the loop that finds non-blank text before its open tag fails |
| `TagCodec.TextBetweenTags` | process_data/utils.py:105-107 | non-blank text between the first `</t>` and the next `<t>` is rejected, whatever the first sentence holds |
| `TagCodec.ScanInnerThen` | process_data/utils.py:104-113 | the passes over encoded sentences `l` followed by a text `z` holding an open tag return `l` in front of what `z` decodes to |
| `TagCodec.TextAfterSentences` | process_data/utils.py:104-107 | non-blank text after any number of encoded sentences and before the next `<t>` is rejected |
| `TagCodec.ScanMissingClose` | process_data/utils.py:108-116 | a pass over `<t> r` where `r` holds no close tag takes `strip(r[:-1])` as the sentence and goes on at `r[3:]` |
| `TagCodec.MissingCloseTag` | process_data/utils.py:108-116 | `<t> r` without a close tag gives `strip(r[:-1])` followed by what `r[3:]` decodes to when `r[3:]` holds an open tag; otherwise it gives `[strip(r[:-1])]` when `r` has at most 6 characters and fails when it has more |
| `TagCodec.TrailingAfterClose` | process_data/utils.py:112-116 | for `m` holding no `</t>`, text `x` holding no `<t>` after the `</t>` of `<t> m </t> x` is accepted, giving `[strip(m)]`, whenever it has at most `len(m) + 4` characters, and rejected beyond that |
| `TagCodec.StrictMissingCloseTag` | process_data/utils.py:109-112 | the corrected decoder rejects text that strips to `<t> r` with no `</t>` in `r` as unterminated |
| `TagCodec.StrictTrailingAfterClose` | process_data/utils.py:115-116 | for `<t> m </t> x` with no `</t>` in `m` and no `<t>` in `x`, the corrected decoder accepts only an empty `x`, giving `[strip(m)]`, and rejects any other text after the `</t>` |
| `TagCodec.StrictEndsWithCloseTag` | process_data/utils.py:104-116 | whatever non-empty list the corrected decoder returns comes from a stripped text ending in `</t>` |
| `TagCodec.StrictAgrees` | process_data/utils.py:95-117 | wherever the corrected decoder succeeds, the decoder as written returns the same sentences |
| `TagCodec.EncodeTwoSentences` | process_data/utils.py:120-124 | `["Hi all.", "Bye."]` encodes to `" <t> Hi all. </t>  <t> Bye. </t> "` and decodes back |
| `TagCodec.TextBeforeTagsExample` | process_data/utils.py:105-107 | `"hello <t> a </t>"` is rejected |
| `TagCodec.TextBetweenTagsExample` | process_data/utils.py:105-107 | `"<t> a </t> x <t> b </t>"` is rejected |
| `TagCodec.TextAfterSentencesExample` | process_data/utils.py:105-107 | `"<t> a </t>  <t> b </t> x <t> c </t>"` is rejected |
| `TagCodec.NestedOpenTagExample` | process_data/utils.py:108-111 | `"<t> a <t> b </t>"` gives `["a <t> b"]` |
| `TagCodec.MissingCloseTagExample` | process_data/utils.py:109-112 | `"<t> abc"` gives `["ab"]`; the corrected decoder rejects it |
| `TagCodec.MissingCloseTagNestedExample` | process_data/utils.py:108-113 | `"<t> a <t> b"` gives `["a <t>", ""]`: the search goes on three characters after the tag |
| `TagCodec.MissingCloseTagShortExample` | process_data/utils.py:109-112 | `"<t> a"` gives `[""]` |
| `TagCodec.ShortTrailingTextExample` | process_data/utils.py:112-116 | `"<t> a </t> world"` gives `["a"]`; the corrected decoder rejects it |
| `TagCodec.LongTrailingTextExample` | process_data/utils.py:112-116 | `"<t> a </t> hello world"` is rejected |
| `Chunking.Chunks` | process_data/utils.py:90-92 | get_chunks as written; characterised by `ChunksErrors`, `ChunksShape` and `ChunksCover` |
| `Chunking.CoveringChunks` | process_data/utils.py:90-92 | get_chunks with `range` stopping at `len`; characterised by `CoveringChunksCover` and `CoveringChunksAgree` |
| `Chunking.ChunkSizeSign` | process_data/utils.py:91 | `len // n` is 0 exactly for an empty list or `n > len`; it is negative for `n < 0` on a non-empty list and at least 1 for `0 < n <= len` |
| `Chunking.ChunksErrors` | process_data/utils.py:90-92 | `n == 0` raises a division error; otherwise an empty list or `n > len` raises in `range`; the chunker succeeds exactly for `0 < n <= len` or for `n < 0` on a non-empty list, and the latter gives `[]` |
| `Chunking.ChunksShape` | process_data/utils.py:90-92 | for `0 < n <= len`, chunk k is `xs[k*cs : k*cs+cs]` cut at the end, with `k*cs < len-1`; every chunk is non-empty; all but the last have `cs` items; there are `ceil((len-1)/cs)` chunks |
| `Chunking.ChunksCover` | process_data/utils.py:92 | for `0 < n <= len`, the chunks concatenate to the whole list, except that the last item is lost exactly when `cs` divides `len - 1` |
| `Chunking.ChunksMoreThanAsked` | process_data/utils.py:90-92 | 11 items asked for in 3 chunks come back in 4 |
| `Chunking.SixInThree` | process_data/utils.py:90-92 | `[0..5]` in 3 chunks gives `[[0,1],[2,3],[4,5]]` with nothing lost |
| `Chunking.ThreeInThree` | process_data/utils.py:90-92 | `[0,1,2]` in 3 chunks gives `[[0],[1]]` |
| `Chunking.OneInOne` | process_data/utils.py:90-92 | a one-item list in one chunk gives `[]` |
| `Chunking.SixInSeven` | process_data/utils.py:90-92 | six items in seven chunks raise |
| `Chunking.CoveringChunksCover` | process_data/utils.py:92 | the corrected chunker fails in the same cases, and for `0 < n <= len` its chunks concatenate to the whole list |
| `Chunking.CoveringChunksAgree` | process_data/utils.py:92 | when `cs` does not divide `len - 1`, the corrected chunker returns the same chunks as the code as written |
| `Builtins.IsSpace` | process_data/utils.py:97 | the characters `str.isspace` accepts, which `strip()` removes |
| `Builtins.Strip` | process_data/utils.py:97 | `strip()` leaves no whitespace at either end, never lengthens, and is empty exactly for blank text |
| `Builtins.StripOf` | process_data/utils.py:97 | `strip()` of a stripped string padded with whitespace is that string |
| `Builtins.StripAt` | process_data/utils.py:97 | `strip()` removes only whitespace, and only from the two ends: its result occurs in the text with nothing but whitespace before and after it |
| `Builtins.Find` | process_data/utils.py:100 | `find` gives -1 exactly when the substring is absent; otherwise it gives an index where it occurs with no earlier occurrence |
| `Builtins.SliceBound` | process_data/utils.py:92 | a slice bound as Python reads it: a negative bound counts from the end, and the result lies between 0 and the length |
| `Builtins.PySlice` | process_data/utils.py:92 | `s[lo:hi]`: never longer than `s`; `Chunking.SliceIs` gives its value for a start inside the list |
| `Builtins.PySliceTo` | process_data/utils.py:110 | `s[:hi]`: never longer than `s`; `SliceToIs` gives it for a bound inside `s`, `TagCodec.DropLast` for `-1` |
| `Builtins.PySliceFrom` | process_data/utils.py:112 | `s[lo:]`: never longer than `s`; `SliceFromIs` gives it for a bound inside `s` |
| `Builtins.SliceToIs` | process_data/utils.py:110 | `s[:k]` for `0 <= k <= len(s)` is the first `k` elements |
| `Builtins.SliceFromIs` | process_data/utils.py:112 | `s[k:]` for `0 <= k <= len(s)` drops the first `k` elements |
| `Chunking.SliceIs` | process_data/utils.py:92 | `xs[i:i + size]` for a start inside the list runs to `i + size` or to the end of the list, whichever comes first |
| `Builtins.SliceFromTwice` | process_data/utils.py:112-115 | `s[i:][j:] == s[i + j:]`, the double slice the final check takes |
| `TagCodec.DropLast` | process_data/utils.py:110 | `s[:-1]` drops exactly the last character |
| `Builtins.Join` | process_data/utils.py:123 | `sep.join(l)` is `""` for the empty list; otherwise its length is the total length plus `len(sep)` per gap |
| `Builtins.FloorDiv` | process_data/utils.py:91 | `a // b` rounds towards minus infinity for either sign of `b` |
| `Builtins.Range` | process_data/utils.py:92 | `range(start, stop, step)` yields `start + k*step` for each k, all on the near side of `stop`, and the next would pass it |

## Left out

- `listdir_fullpath`, `get_pickle`, `write_pickle`, `read_file` and `apply_function_to_all_items_in_dir` (process_data/utils.py:8-37, 127-144) are not modelled. They do filesystem and pickle I/O and dispatch calls dynamically.
- `tokenize_file` and `retain_first_n_sent` (process_data/utils.py:40-54, 147-158) are not modelled. They do file I/O around a spaCy sentencizer. The tag template `tokenize_file` writes at line 52 is the encoder's expression, modelled by `TagCodec.Encode`; `retain_first_n_sent` writes its first `n` sentences joined by single spaces, without tags (line 155).
- `get_sent_tokenizer`, `get_word_tokenizer` and `sent_tokenize` (process_data/utils.py:57-87) are not modelled. They are wrappers over spaCy models, which are not part of this model.
- `get_sents_from_tags` (process_data/utils.py:161-164) is not modelled. Its result is decided by Python's regular-expression engine on a pattern built from its arguments.
- Running Python with `-O` removes the decoder's assertions. The model keeps them, as the code is written.
- `Builtins.IsSpace` is a fixed list of the characters `str.isspace` accepts. It does not follow future changes to the Unicode database.
- `TagCodec.Decode` returns its list as a value. The source appends to a Python list in place, and nothing else holds that list.
- Progress printing and error message texts are left out.

## Findings

| source | as written | input that shows it | evidently intended | confidence | as-written member | corrected member |
|---|---|---|---|---|---|---|
| process_data/utils.py:115 | the final check re-slices the already-advanced remainder at `e+4`, so up to `e+4` characters after the last `</t>` are never looked at | `"<t> a </t> world"` decodes to `["a"]` | "expect only blanks after last tag": any non-blank text after the last `</t>` is rejected | not executed | `TagCodec.TrailingAfterClose`, `TagCodec.ShortTrailingTextExample` | `TagCodec.StrictTrailingAfterClose`, `TagCodec.StrictEndsWithCloseTag` |
| process_data/utils.py:109-112 | a missing `</t>` gives `e == -1`, so `text[:-1]` drops a character and `text[3:]` goes on | `"<t> abc"` decodes to `["ab"]` | an open tag without a close tag is rejected | not executed | `TagCodec.MissingCloseTag`, `TagCodec.MissingCloseTagExample` | `TagCodec.StrictMissingCloseTag`, `TagCodec.StrictAgrees` |
| process_data/utils.py:92 | the slice starts stop below `len - 1`, so the last item is lost when the chunk size divides `len - 1` | `get_chunks([0, 1, 2], 3)` gives `[[0], [1]]` | the chunks cover the whole list | not executed | `Chunking.ChunksCover`, `Chunking.ThreeInThree` | `Chunking.CoveringChunksCover`, `Chunking.CoveringChunksAgree` |
