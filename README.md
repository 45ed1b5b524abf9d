# intset: a bounded set of ints for PostgreSQL, modelled in Dafny

The system is a PostgreSQL extension type `intset`. A value is a C struct
holding a count `num` and a fixed array `arr[MAX]` of ints, with
`MAX = 500`. Around it sit four groups of entry points:

- the text input `intset_in` and its validator `is_valid_input`;
- the text output `intset_out`;
- the binary codec `intset_send` / `intset_recv`;
- the set algebra: minus, disjunction, union, intersection, equal,
  subset, contains and cardinality.

This project models all of them in Dafny and proves what they compute.

The model is imperative, as the C is:

- `Intsets.Intset` is a class with the field `num` and the array `arr`
  (length `MAX`).
- Every entry point with a loop is a method with the loops of the C
  function, proved against a specification function over sequences.
  `Cardinality`, which only reads `num`, is a function.
- The specification functions live in three modules:
  - `SetSpec`: selection, union, disjunction, dedup and match counting;
  - `Text`: the acceptance rule, the digit/comma filter, strtok, atoi and
    the `"{a, b}"` layout;
  - `Wire`: big-endian 4-byte words.
- Lemmas about those functions (`SetSpec`, `Text`, `TextFacts`, `Wire`)
  state what the operations promise.
- `Findings` holds concrete inputs on which the C code goes wrong.

Undefined behaviour in the C has no faithful model. Where the C writes
past `result->arr` (in union, disjunction, recv and the copy loop of
`intset_in`) or `atoi` overflows, the model returns an explicit failure
(`Common.Error`). The other overruns are not modelled as failures: the
token array of `intset_in` is a sequence without a bound, and the
`temp[128]` and `numstr[10]` buffers of `intset_out` are strings without a
bound (see "## Left out"). The rest of the model then shows what the code
evidently intends. Each overrun is a row under "## Findings"; the copy
loop of `intset_in` can only overrun after more than MAX tokens, so its
case falls under the token-array row.

Files: `common.dfy` (MAX, int32, bytes, errors, `Result`), `setspec.dfy`,
`text.dfy`, `textfacts.dfy`, `wire.dfy`, `intsets.dfy` and `findings.dfy`.

## Model

| member | source | states |
|---|---|---|
| Intsets.Intset.constructor | Assignment/intset.c:23-27 | a new intset has `num == 0` and an array of exactly MAX slots |
| Intsets.Intset.Append | Assignment/intset.c:244 | `result->arr[result->num++] = x` appends x to the stored elements; it needs a free slot |
| Intsets.Intset.AppendAll | Assignment/intset.c:309-311 | the first loop of union appends every element of a, in order |
| Intsets.Intset.Offer | Assignment/intset.c:236-245 | one outer iteration: x is appended exactly when `(x in other) == keep`; it fails, writing nothing, only when x is due but all MAX slots are taken |
| Intsets.Intset.OfferNext | Assignment/intset.c:235-246 | offering element i extends the selection of the first i elements by one step, or shows that the whole selection cannot fit |
| Intsets.Intset.AppendSelect | Assignment/intset.c:235-246 | the found-flag loop appends exactly `Select(src, other, keep)` in src's order; it fails exactly when the result would need more than MAX slots |
| Intsets.Intset.Contains | Assignment/intset.c:425-431 | intset_contains is true iff x occurs in `arr[0..num)` |
| Intsets.Intset.Occurrences | Assignment/intset.c:372-376 | the inner counting loop of equal/subset counts the slots equal to x; for duplicate-free contents that is 1 iff x is present |
| Intsets.Intset.CountMatches | Assignment/intset.c:370-377 | numFoundinB is the number of equal (slot of a, slot of b) pairs; for duplicate-free b it is the number of elements of a found in b |
| Intsets.Intset.Cardinality | Assignment/intset.c:442 | cardinality is the stored count, between 0 and MAX; for duplicate-free contents it is the number of distinct values |
| Intsets.Intset.Minus | Assignment/intset.c:235-246 | minus is exactly the elements of a not in b, in a's order; the result is duplicate-free when a is, and has at most a.num elements; a returned set is freshly allocated, sharing no storage with the inputs |
| Intsets.Intset.Intersection | Assignment/intset.c:343-354 | intersection is exactly the elements of a that are in b, in a's order; duplicate-free when a is; at most a.num elements; a returned set is freshly allocated, sharing no storage with the inputs |
| Intsets.Intset.Union | Assignment/intset.c:309-324 | union is all of a, then the elements of b not in a; membership is "in a or in b"; duplicate-free for duplicate-free inputs; at most a.num + b.num elements; refused exactly when that exceeds MAX, so never refused when a.num + b.num <= MAX; a returned set is freshly allocated, sharing no storage with the inputs |
| Intsets.Intset.AppendDifferences | Assignment/intset.c:265-289 | the two loops of disjunction append a-minus-b, then b-minus-a, or report that these do not fit |
| Intsets.Intset.Disjunction | Assignment/intset.c:265-289 | disjunction is the elements of a not in b, then those of b not in a; membership is "in exactly one"; duplicate-free for duplicate-free inputs; at most a.num + b.num elements; refused exactly when that exceeds MAX; a returned set is freshly allocated, sharing no storage with the inputs |
| Intsets.Intset.Equal | Assignment/intset.c:370-388 | equal compares both match counts with the sizes, as written; for duplicate-free inputs that holds iff both contain the same values |
| Intsets.Intset.Subset | Assignment/intset.c:402-411 | subset compares the match count with a.num, as written; for duplicate-free b that holds iff every element of a is in b |
| Intsets.Intset.IsValidInput | Assignment/intset.c:34-78 | the scan with brace counters and the three sticky flags accepts exactly the strings of the rule `Accepts` |
| Intsets.Intset.KeepDigitsAndCommas | Assignment/intset.c:101-106 | tempstr receives exactly the digits and commas of the input, in order |
| Intsets.Intset.Convert | Assignment/intset.c:112-121 | the token loop converts every token in order; the first token that does not convert decides the error |
| Intsets.Intset.Store | Assignment/intset.c:124-139 | the copy loop stores the first occurrence of every value, in order (`Dedup`); more than MAX distinct values are refused; a returned set is freshly allocated, sharing no storage with the inputs |
| Intsets.Intset.In | Assignment/intset.c:84-142 | intset_in yields exactly `ParseSet(s)`: InvalidSyntax for refused text, otherwise the de-duplicated values of the tokens; a returned set is freshly allocated, sharing no storage with the inputs |
| Intsets.Intset.Out | Assignment/intset.c:150-173 | intset_out yields `"{" + decimals joined by ", " + "}"` with no trailing separator, and `"{}"` for an empty set |
| Intsets.Intset.Send | Assignment/intset.c:200-213 | intset_send writes the count and then every element as 4-byte words, and that message decodes back to the stored elements |
| Intsets.Intset.Recv | Assignment/intset.c:184-196 | intset_recv yields exactly `Wire.Decode(buf)`: the count, then that many words, with a count outside 0..MAX or a short message refused; a returned set is freshly allocated, sharing no storage with the inputs |
| Intsets.Intset.ReadBody | Assignment/intset.c:190-192 | the element loop fills slot i with word i of the body, for every slot below num; it succeeds iff the body holds num words, and then the elements are exactly those words |
| Intsets.SelectOverflow | Assignment/intset.c:243-244 | once the selected prefix fills all MAX slots, one more selected element makes the whole result too large |
| Intsets.FlagStep | Assignment/intset.c:58-69 | how one character moves digitSeen, spaceSeen and commaSeen: each flag is sticky |
| SetSpec.Select | Assignment/intset.c:235-246 | the selection holds exactly the elements of a whose membership in b equals keep; it is no longer than a and duplicate-free when a is |
| SetSpec.SelectStep | Assignment/intset.c:235-246 | the selection of a prefix grows by one element exactly when that element passes |
| SetSpec.SelectPrefix | Assignment/intset.c:235-246 | the selection of a prefix is a prefix of the selection, so it is never longer |
| SetSpec.SelectAll | Assignment/intset.c:235-246 | the selection is all of a iff every element of a passes |
| SetSpec.SelectNone | Assignment/intset.c:235-246 | the selection is empty when no element passes |
| SetSpec.MinusSelf | Assignment/intset.c:235-246 | a minus a is empty |
| SetSpec.IntersectionSelf | Assignment/intset.c:343-354 | a intersected with a is a |
| SetSpec.UnionFacts | Assignment/intset.c:309-324 | union membership is "in a or in b"; duplicate-free for duplicate-free inputs; length between that of a and the sum of both lengths |
| SetSpec.DisjunctionFacts | Assignment/intset.c:265-289 | disjunction membership is "in exactly one"; duplicate-free for duplicate-free inputs; length at most the sum of both lengths |
| SetSpec.DisjunctionIsUnionOfDifferences | Assignment/intset.c:265-289 | disjunction is the union of the two differences |
| SetSpec.UnionCommutes | Assignment/intset.c:309-324 | a union b and b union a hold the same values |
| SetSpec.CountInNoDups | Assignment/intset.c:372-376 | in a duplicate-free b, a value occurs once if present and otherwise not at all |
| SetSpec.MatchesNoDups | Assignment/intset.c:370-377 | for duplicate-free b the pair count is the number of elements of a found in b |
| SetSpec.SubsetRule | Assignment/intset.c:402-411 | for duplicate-free b, "match count equals the length of a" holds iff every element of a is in b |
| SetSpec.SelectFull | Assignment/intset.c:402-411 | a selection as long as a is all of a |
| SetSpec.EqualRule | Assignment/intset.c:370-388 | for duplicate-free a and b, both counts equal both sizes iff a and b hold the same values |
| SetSpec.SubsetRuleNeedsNoDups | Assignment/intset.c:402-411 | with duplicates in b the count rule breaks: [1, 2] has two matches in [1, 1] although 2 is missing |
| SetSpec.DedupFacts | Assignment/intset.c:128-139 | the dedup keeps exactly the input's values, without duplicates, and is no longer than the input |
| SetSpec.DedupPrefix | Assignment/intset.c:128-139 | the dedup of a prefix is a prefix of the dedup |
| SetSpec.DedupOfNoDups | Assignment/intset.c:128-139 | a duplicate-free sequence is its own dedup |
| SetSpec.DedupIdempotent | Assignment/intset.c:128-139 | dedup applied twice is dedup applied once |
| SetSpec.DedupOrder | Assignment/intset.c:128-139 | the dedup lists values in the order of their first occurrences |
| SetSpec.DistinctCount | Assignment/intset.c:442 | a duplicate-free sequence has as many distinct values as slots |
| Text.Keep | Assignment/intset.c:101-106 | the filter keeps only digits and commas (and '-' in the intended form), and never lengthens the text |
| Text.Tokens | Assignment/intset.c:112-121 | strtok's tokens are non-empty and comma-free, and consist of characters of the text |
| Text.TokensSep | Assignment/intset.c:112-121 | strtok on two texts joined by a comma gives the tokens of the first followed by those of the second |
| Text.ParseValues | Assignment/intset.c:112-121 | the conversion succeeds iff every token converts, and then yields one value per token, in order |
| Text.NatDigitsFacts | Assignment/intset.c:159-166 | the decimal digits written for n are non-empty digits whose value is n |
| Text.TokensAreDigits | Assignment/intset.c:101-117 | after the filter, every token atoi sees is a non-empty digit string |
| Text.TokensOfCommaJoin | Assignment/intset.c:112-121 | strtok splits a comma join of non-empty comma-free words back into those words |
| Text.ShowChars | Assignment/intset.c:159-166 | sprintf("%d") writes an optional '-' followed by at least one digit |
| Text.ShowKeep | Assignment/intset.c:101-106 | the filter keeps all of a decimal when '-' is kept, and only its magnitude otherwise |
| Text.DecimalOfShow | Assignment/intset.c:117 | atoi reads back what sprintf("%d") wrote |
| Text.JoinLast | Assignment/intset.c:157-171 | what the loop accumulates, followed by the last decimal, is the ", "-join of all decimals |
| Text.JoinGlue | Assignment/intset.c:157-171 | the join of the elements is the join of their decimals |
| Text.GlueLast | Assignment/intset.c:157-171 | every word but the last followed by ", ", then the last word, is the ", "-join |
| Text.PrefixCons | Assignment/intset.c:157-163 | the accumulated prefix of w followed by ws is w, ", " and the prefix of ws |
| Text.JoinStart | Assignment/intset.c:157-171 | the join starts with the decimal of the first element |
| Text.JoinChars | Assignment/intset.c:157-171 | the join holds only digits, '-', ',' and ' ', and every blank directly follows a comma |
| Text.RenderBraces | Assignment/intset.c:171 | a rendering holds exactly one '{' and one '}' |
| Text.RenderChars | Assignment/intset.c:46-48 | every character of a rendering is one the validator allows |
| Text.NoSpaceNoGap | Assignment/intset.c:58-69 | a text without blanks never trips the space/comma rule |
| Text.KeptWords | Assignment/intset.c:101-106 | the filtered words of a rendering, one per element |
| Text.KeepJoin | Assignment/intset.c:101-106 | filtering a join gives the comma join of the filtered decimals |
| Text.KeepRender | Assignment/intset.c:101-106 | the filter drops the braces of a rendering |
| Text.KeptWordsShape | Assignment/intset.c:101-121 | every filtered decimal is a non-empty comma-free word |
| Text.KeptShowShape | Assignment/intset.c:101-121 | one filtered decimal is a non-empty comma-free word |
| Text.TokensOfRender | Assignment/intset.c:101-121 | the tokens of a rendering are its filtered decimals |
| Text.ValuesPrefixError | Assignment/intset.c:117-118 | a failing conversion of a prefix of tokens is the failure of the whole list |
| TextFacts.ValuesOfTokens | Assignment/intset.c:101-118 | as written, conversion fails only by overflow, and every converted value is non-negative |
| TextFacts.FirstErrorOutOfRange | Assignment/intset.c:117 | if every failing token overflows, so does the list |
| TextFacts.ParseSetFacts | Assignment/intset.c:84-142 | InvalidSyntax exactly when the validator refuses; '-' never reaches atoi; the result is duplicate-free, has at most MAX and at most one element per token, and holds exactly the token values, in first-occurrence order |
| TextFacts.NoDigitsNoElements | Assignment/intset.c:108-122 | accepted text with no digit or comma, such as "{}", gives the empty set |
| TextFacts.EmptyPiecesSkipped | Assignment/intset.c:112-121 | leading empty pieces between commas produce no token |
| TextFacts.EmptyPiecesAnywhere | Assignment/intset.c:112-121 | strtok skips empty pieces anywhere: a double comma between any two texts, a trailing comma and a leading comma yield no token |
| TextFacts.TokensAfterCommas | Assignment/intset.c:112-121 | strtok skips leading commas |
| TextFacts.RenderAcceptance | Assignment/intset.c:34-78 | the validator accepts a rendering iff it has at most one element |
| TextFacts.GapAfterCommaSpace | Assignment/intset.c:58-69 | a digit after "d, " with no earlier blank and no comma since is refused |
| TextFacts.GapInLayout | Assignment/intset.c:58-69 | the layout "{w0, w1...}" of two numerals has a refused digit |
| TextFacts.RenderGap | Assignment/intset.c:58-69 | every rendering of two or more elements has a refused digit |
| TextFacts.RenderAcceptedIntended | Assignment/intset.c:34-78 | every rendering passes the intended rule |
| TextFacts.ValuesOfKeptWords | Assignment/intset.c:117 | with the sign kept, the filtered decimals convert back to the elements |
| TextFacts.ValuesPointwise | Assignment/intset.c:112-121 | tokens that each convert to the matching value convert to the whole list |
| TextFacts.RenderParseIntended | Assignment/intset.c:150-173 | the intended parser reads every rendering of a canonical value back exactly, order included |
| TextFacts.ParseRenderParseIntended | Assignment/intset.c:84-173 | every value the intended parser produces survives rendering and parsing again |
| TextFacts.RenderRejected | Assignment/intset.c:58-69 | as written, the rendering of two or more elements is refused as InvalidSyntax |
| TextFacts.RenderSingleton | Assignment/intset.c:101-117 | as written, a one-element rendering reads back as its magnitude; INT_MIN overflows |
| TextFacts.OneMagnitude | Assignment/intset.c:117 | a single decimal magnitude reads back when it fits in an int, and overflows otherwise |
| Wire.Unsigned | Assignment/intset.c:207-210 | the 32-bit pattern of an int, as an unsigned number below 2^32 |
| Wire.Signed | Assignment/intset.c:190-193 | the int whose two's-complement pattern is u |
| Wire.WordBytes | Assignment/intset.c:207-210 | pq_sendint writes four bytes |
| Wire.WordRoundTrip | Assignment/intset.c:190-193 | reading back a written word gives the same int |
| Wire.BytesRoundTrip | Assignment/intset.c:190-193 | writing back a read int gives the same four bytes |
| Wire.Words | Assignment/intset.c:208-210 | the element words take four bytes per element |
| Wire.Encode | Assignment/intset.c:200-213 | the message is 4 + 4·num bytes |
| Wire.ReadWords | Assignment/intset.c:191-193 | word i of the message body is element i |
| Wire.Decode | Assignment/intset.c:184-196 | a message decodes iff it has a header with a count in 0..MAX and that many words; the elements are those words |
| Wire.WordsAt | Assignment/intset.c:208-210 | word i of the body is the encoding of element i |
| Wire.ReadWordsOfWords | Assignment/intset.c:190-193 | the element words are read back in order, whatever follows them |
| Wire.DecodeEncode | Assignment/intset.c:190-193 | recv(send(s)) gives s back, element for element, even with bytes after the message |
| Wire.EncodeDecode | Assignment/intset.c:190-193 | an accepted message begins with the encoding of what it decodes to |
| Wire.HeaderOfDecode | Assignment/intset.c:190 | the header of an accepted message encodes its element count |
| Wire.WordsOfReadWords | Assignment/intset.c:191-193 | the words read from a buffer, written again, are its first bytes |
| Findings.RenderOneTwo | Assignment/intset.c:157-171 | intset_out writes "{1, 2}" for the elements 1, 2 |
| Findings.OwnOutputRejected | Assignment/intset.c:58-69 | that text is refused as written, and read back by the intended parser |
| Findings.RenderMinusFive | Assignment/intset.c:157-171 | intset_out writes "{-5}" for the element -5 |
| Findings.SignDropped | Assignment/intset.c:102 | that text reads back as {5} as written, and as {-5} with the intended parser |
| Findings.ManyTokensOneValue | Assignment/intset.c:87 | "{1,1,...,1}" with n ones is accepted, has n tokens and denotes {1}; with n > MAX the token array overflows |
| Findings.OnesValues | Assignment/intset.c:117 | each token "1" converts to 1 |
| Findings.OnesChars | Assignment/intset.c:101-106 | a comma join of ones holds only ones and commas |
| Findings.BracedAccepted | Assignment/intset.c:34-78 | braces around ones and commas pass the validator |
| Findings.KeepBraced | Assignment/intset.c:101-106 | the filter keeps such a text and drops its braces |
| Findings.DedupSame | Assignment/intset.c:128-139 | one or more copies of any value x collapse to [x] |
| Findings.UnionOverflows | Assignment/intset.c:265-324 | two disjoint 300-element sets fit, but their union and their disjunction have 600 elements |
| Findings.RecvTrustsHeader | Assignment/intset.c:190-193 | a header of 501 or of -1 is what intset_recv stores as num; the model refuses both |
| Findings.JoinLength | Assignment/intset.c:157-171 | a join of n decimals has at least 3n - 2 characters |
| Findings.TempOverflows | Assignment/intset.c:154 | the rendering of 44 or more elements does not fit `temp[128]` |
| Findings.DigitsAtLeast | Assignment/intset.c:158 | a number of at least 10^k has more than k digits |
| Findings.NumstrOverflows | Assignment/intset.c:157-158 | every ten-digit value, and every nine-digit negative value, does not fit `numstr[10]` with its NUL |

## Left out

- PostgreSQL glue (`PG_FUNCTION_INFO_V1`, `PG_GETARG_*`, `PG_RETURN_*`, `PG_MODULE_MAGIC`) is host dispatch and is not modelled.
- `palloc` is allocation with `new`. `psprintf` is string concatenation. `ereport(ERROR, ...)` becomes the result `Err(InvalidSyntax)`.
- `pq_getmsgint`, `pq_sendint`, `pq_begintypsend` and `pq_endtypsend`: their buffer framing and error handling are not modelled, and the bytea length header is left out. The 4-byte big-endian words (network byte order) they write and read are `Wire.WordBytes` and `Wire.WordValue`.
- `strtok` and `atoi` are modelled as specification functions over strings: `Text.Tokens` and `Text.Decimal`.
- Text.Decimal: an atoi value outside int32 is undefined in C; the model reports NumberOutOfRange instead.
- `isdigit` is the ASCII test '0'..'9'. Locales are not modelled.
- The `numComma` counter of `is_valid_input` is never read, so it is not modelled.
- Intsets.Intset.In: the local token array `arr[MAX]` is modelled without a bound. The C overruns it beyond MAX tokens; see Findings.
- Intsets.Intset.Out: `temp[128]` and `numstr[10]` are modelled as unbounded strings. The C overruns them; see Findings.
- Intsets.Intset.Union and Intsets.Intset.Disjunction: where the C would write past `result->arr[MAX - 1]`, they return CapacityExceeded.
- Intsets.Intset.Recv, Wire.Decode: a count outside 0..MAX and a short message are refused. The C trusts the count, and `pq_getmsgint` raises its own error on a short message. Bytes after the last element are not looked at, and a received set is not de-duplicated.
- Intsets.Intset.Equal and Intsets.Intset.Subset: the rules "same values" and "every element of a in b" are proved only for duplicate-free inputs. Every entry point but intset_recv produces such inputs. `SetSpec.SubsetRuleNeedsNoDups` shows the count rule failing on duplicates.
- The commented-out complex-number B-tree comparison code at the end of the file is dead and uses floating point. It is not modelled.

## Findings

| source | as written | input that shows it | evidently intended | confidence | as-written member | corrected member |
|---|---|---|---|---|---|---|
| Assignment/intset.c:58-69 | after a digit and a blank, every digit is refused until a comma follows that blank; intset_out writes the comma before the blank | "{1, 2}", the rendering of {1, 2} | every text intset_out writes is accepted and reads back | not executed | TextFacts.RenderRejected | TextFacts.RenderAcceptedIntended |
| Assignment/intset.c:102 | the filter keeps digits and commas only, so an accepted '-' is dropped | "{-5}" reads as {5}; "{-2147483648}" overflows atoi | negative elements keep their sign | not executed | TextFacts.RenderSingleton | TextFacts.RenderParseIntended |
| Assignment/intset.c:87 | every token is stored into the local `int arr[MAX]` before de-duplication, with no bound | "{1,1,...,1}" with 501 ones | duplicates collapse; only more than MAX distinct values are refused | not executed | Findings.ManyTokensOneValue | Intsets.Intset.In |
| Assignment/intset.c:309-324 | union appends into `result->arr` with no bound | a = 0..299, b = 300..599 | a result of more than MAX elements is refused | not executed | Findings.UnionOverflows | Intsets.Intset.Union |
| Assignment/intset.c:265-289 | disjunction appends into `result->arr` with no bound | a = 0..299, b = 300..599 | a result of more than MAX elements is refused | not executed | Findings.UnionOverflows | Intsets.Intset.Disjunction |
| Assignment/intset.c:190-193 | the count from the message is stored and looped over unchecked | a header of 501 followed by 501 words; a header of -1 | a count outside 0..MAX is refused | not executed | Findings.RecvTrustsHeader | Intsets.Intset.Recv |
| Assignment/intset.c:154 | the rendering is built in `char temp[128]` | any set of 44 elements, such as 1..44 | the rendering of any set up to MAX elements | not executed | Findings.TempOverflows | Intsets.Intset.Out |
| Assignment/intset.c:157-158 | each decimal is written into `char numstr[10]` | the element 1000000000, -100000000 (nine digits and the sign), or -2147483648 | every int is rendered | not executed | Findings.NumstrOverflows | Intsets.Intset.Out |
