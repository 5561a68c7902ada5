# Cursor pagination for the oscrud sqlike service

This project models the cursor paginator of the oscrud sqlike service and proves properties of it. The paginator is `Paginator` in `paginate.go`: its metadata (`BuildMeta`), its constant `OrderByDescending`, and the page step `GetResult`. The model also covers the request handlers in `service.go` that feed the paginator. Those handlers turn the `order` and `select` query strings into maps, decide whether `Get` found its entity, and shape the response of `Find`.

The modules:

- `Results`: the `Option` and `Result` types.
- `Base64`: the standard base64 alphabet with padding, from section 4 of RFC 4648. It follows the rules of Go's `base64.StdEncoding`:
  - decoding skips `\r` and `\n`;
  - the padded length must be a multiple of four;
  - only the last quantum may carry `=`;
  - unused trailing bits are ignored: `EncodeDecode` proves that an accepted text decodes to the bytes whose encoding is the text without line breaks and with those bits cleared (`Canon`).

  `DecodeEncode` proves that decoding an encoded byte string gives it back.
- `KeyText`: the `%v` text of a row key. A string key is its own bytes and an integer key is a signed decimal numeral. The integer text has a parse inverse.
- `Json`: the values a response carries.
- `Paginate`:
  - the query the paginator builds: limit, projections, filter and order clauses;
  - the database, as a `Table` oracle of three total functions. They model opening the paginated query, resuming at a cursor (`NextCursor`) and fetching the rows (`All`);
  - `Trim`, the function that decides the page and the next cursor from the fetched rows;
  - `PageOutcome`, which runs the steps of one call in the order paginate.go runs them (open, decode, resume, fetch);
  - the class `Paginator`, whose method `GetResult` updates its `cursor` field and the caller's `Slice` in place.
- `Keyset`: a reference store. It keeps rows in the order the store returns them, resumes at the row whose key text equals the decoded cursor, and returns at most the number of rows asked for. Against this store, feeding every cursor back walks the whole table, each row exactly once and in order.
- `Service`:
  - `strings.Split` on commas, with `Join` as its inverse;
  - the case-insensitive `desc` test;
  - the order loop: the `ParseOrder` method, specified by the fold `OrderOf`;
  - the select loop: `ParseSelect`, specified by `SelectFields`;
  - the handlers `Get` and `Find`.
- `Scenarios`: worked examples, proved as lemmas.
  - Five rows are paged two at a time, then all at once.
  - A malformed cursor is refused.
  - Two order strings show what `desc` does.

Line 104 of paginate.go takes the next cursor from the last fetched row, index `v-1`. That row is the sentinel that is dropped, not the last row kept. `Trim` does the same. `Keyset.PagesTile` shows why this is consistent: pages tile the table when the store resumes inclusively at the cursor row.

Three consequences follow from the code as written:

- A page size of zero asks for one row. When that row exists, the page is emptied and a cursor naming that same row is returned (`Keyset.ZeroLimitStalls`).
- A cursor is set only when the sentinel's key can be read. If it cannot, the page keeps all `limit + 1` rows and the old cursor stays.
- A sentinel whose key is the empty string is dropped, but its encoded text is the empty cursor. The caller is then told the table has ended while rows remain (`Paginate.EmptyKeyTextEndsEarly`).

Go iterates over maps in no fixed order. The select and order loops are therefore written with a nondeterministic choice of the next key. Their results are stated as permutation facts: one entry per key, distinct, and nothing else.

## Model

| member | source | states |
|---|---|---|
| Base64.Encode | paginate.go:107 | the text has a length that is a multiple of four, uses only alphabet characters and `=`, and is empty exactly for empty input |
| Base64.CharOfValueOf | paginate.go:87 | every alphabet character decodes to a six-bit value that encodes back to it |
| Base64.DecodeEncode | paginate.go:107 | decoding (line 87) the cursor produced at line 107 gives back the key text byte for byte |
| Base64.EncodeInjective | paginate.go:107 | different key texts give different cursors |
| Base64.StripNewlines | paginate.go:87 | the decoder's input without line breaks: no longer than the text, and every character kept comes from it and is not `\r` or `\n` |
| Base64.StripKeepsAll | paginate.go:87 | stripping keeps every character other than `\r` and `\n` exactly as many times as it occurs (multiset equality) |
| Base64.StripAppend | paginate.go:87 | stripping works piece by piece: stripping `a + b` is stripping `a` followed by stripping `b`, so the order of the kept characters is the text's own |
| Base64.DecodeFinal | paginate.go:87 | the last quantum is accepted exactly when it is two alphabet characters followed by `==`, three followed by `=`, or four alphabet characters. It then yields exactly one, two or three bytes, and those bytes encode back to the quantum with the ignored low bits (four before `==`, two before `=`) cleared, which fixes them |
| Base64.DecodeQuanta | paginate.go:87 | a successful decoding had a length that is a multiple of four and yields at most three bytes per four characters, and its bytes encode back to the text with the ignored bits of its last quantum cleared (`Canon`), which fixes them |
| Base64.WellPaddedDecodes | paginate.go:87 | the quanta decode exactly when the text is well padded: a multiple of four long, only alphabet characters except `=` in the last two places, and a `=` in the next-to-last place only when the last is `=` too |
| Base64.EncodeDecode | paginate.go:87 | the bytes of any accepted cursor, not only of one the encoder wrote, encode back to the cursor without line breaks and with the ignored bits of its last quantum cleared |
| Base64.DecodeDetermined | paginate.go:87 | an accepted cursor decodes to `b` exactly when `Encode(b)` is its canonical form, so its bytes are fixed for every accepted input |
| Base64.IgnoredBitsIgnored | paginate.go:87 | two accepted cursors that differ only in the bits the decoder ignores decode to the same bytes |
| Base64.CanonOfEncoding | paginate.go:107 | the encoder never sets an ignored bit: clearing them leaves an encoding unchanged |
| Base64.Decode | paginate.go:87 | `DecodeString`: a successful decoding yields at most three bytes per four characters of the cursor. Its round trip with `Encode` is `DecodeEncode`, and its rejection of foreign characters is `ForeignCharacterRejected` |
| Base64.DecodeAccepts | paginate.go:87-90 | `DecodeString` accepts a cursor exactly when the cursor, with its line breaks removed, is well padded; every other cursor is the error returned at line 89 |
| Base64.PaddingInsideRejected | paginate.go:87-90 | a quantum `xx=y` with a data character after the padding fails to decode |
| Base64.ExcessPaddingRejected | paginate.go:87-90 | a quantum `x===` with three padding characters fails to decode |
| Base64.EarlyPaddingRejected | paginate.go:87-90 | padding in a quantum that is not the last, as in `xx==yy==`, fails to decode |
| Base64.StandardVectorsShort | paginate.go:107 | the encoder gives the test vectors of section 10 of RFC 4648 for `f`, `fo` and `foo` |
| Base64.StandardVectorFoob | paginate.go:107 | the encoder gives `Zm9vYg==` for `foob`, as section 10 of RFC 4648 lists |
| Base64.StandardVectorFooba | paginate.go:107 | the encoder gives `Zm9vYmE=` for `fooba`, as section 10 of RFC 4648 lists |
| Base64.StandardVectorFoobar | paginate.go:107 | the encoder gives `Zm9vYmFy` for `foobar`, as section 10 of RFC 4648 lists |
| Base64.ForeignCharacterRejected | paginate.go:87-90 | a cursor holding a character outside the alphabet, other than `=`, `\r` or `\n`, fails to decode |
| Base64.NoNewlinesInEncoding | paginate.go:107 | an encoded cursor holds no line breaks, so the decoder's line-break skipping leaves it unchanged |
| KeyText.Digits | paginate.go:106 | the decimal digits of a natural number: non-empty, all digits, no leading zero unless the number is zero |
| KeyText.Format | paginate.go:106 | the `%v` text: a string key is its own bytes; an integer key's text is non-empty and starts with `-` exactly when the key is negative. `IntKeyRoundTrip` states that it reads back |
| KeyText.IntKeyRoundTrip | paginate.go:106 | the `%v` text of an integer key parses back to that integer and is a well-formed numeral |
| KeyText.IntKeyTextInjective | paginate.go:106 | different integer keys have different texts |
| Paginate.ProjectionFor | paginate.go:61-65 | a selected key becomes a column of that name, aliased exactly when its alias is non-empty and then with that alias, never `*` |
| Paginate.ClauseFor | paginate.go:74-78 | an order entry becomes a clause on that field, descending exactly when the value is `DESC`, case-sensitively |
| Paginate.MetaUnique | paginate.go:36-50 | the cursor, limit and page settings determine the metadata map completely |
| Paginate.Trim | paginate.go:102-113 | at most `limit` rows fetched: cursor cleared, rows kept. More fetched with a readable sentinel: the sentinel is dropped and the new cursor decodes to the sentinel's key text. More fetched with an unreadable sentinel: nothing changes |
| Paginate.TrimBounds | paginate.go:103-113 | if the store returns at most `limit + 1` rows, and a returned sentinel has a readable key with non-empty text, then the page holds at most `limit` of them, is a prefix of what was fetched, loses at most one row, and the cursor is set exactly when the sentinel came back |
| Paginate.EmptyKeyTextEndsEarly | paginate.go:106-109 | a readable sentinel whose key text is empty is dropped, and the cursor becomes the empty one, which reads as the end of the table |
| Paginate.Token | paginate.go:86-90 | an empty cursor gives no resume token; a non-empty cursor is an error exactly when it is not valid base64, and otherwise gives its decoded bytes |
| Paginate.PageOutcome | paginate.go:81-100 | the call fails with a corrupt cursor exactly when the query opened and a non-empty cursor does not decode; a successful call had the query open and the cursor valid |
| Paginate.Paginator.constructor | paginate.go:21-28 | a paginator holds the given cursor, page, limit, order, select and filter |
| Paginate.Paginator.BuildMeta | paginate.go:36-50 | `cursor`, `limit` and `page` appear exactly when the field is non-empty or non-zero, each with the field's value, and no other key appears |
| Paginate.Paginator.Projections | paginate.go:57-69 | no select entries give exactly `[*]`; otherwise one projection per select key, built from its alias, with no duplicates and nothing else |
| Paginate.Paginator.OrderClauses | paginate.go:73-79 | one clause per order entry, each descending exactly when its value is `DESC`, with no duplicates and nothing else |
| Paginate.Paginator.GetResult | paginate.go:53-116 | the query asks for `limit + 1` rows with these projections, filter and order clauses. On an open, cursor, resume or fetch error: that error is returned and the cursor is left as it was; the result is also untouched, except after a fetch error. On success: the new cursor and result are the trimmed page |
| Paginate.Paginator.TrimResult | paginate.go:102-113 | the cursor and the result slice become the page `Trim` decides from the old cursor and the fetched rows |
| Keyset.Seek | paginate.go:92 | the reference store resumes at the first row whose key text equals the decoded cursor, or past the end |
| Keyset.SeekCursor | paginate.go:86-92 | the cursor made from a row's key decodes back to that key, and the store resumes at that row |
| Keyset.PageAt | paginate.go:53-116 | one call from row `p` returns the next `limit` rows and the cursor of the row after them, or the rest of the table and no cursor |
| Keyset.PagesTile | paginate.go:102-109 | starting without a cursor and feeding each cursor back returns every row exactly once, in order, when the page size is at least one |
| Keyset.ZeroLimitStalls | paginate.go:55 | with a page size of zero over a non-empty table, the first call returns no rows and a non-empty cursor naming row 0; calling with that cursor returns the same empty page and the same cursor, so a client crawling the table collects no rows |
| Scenarios.FirstPage | paginate.go:102-109 | five rows, page size two, no cursor: rows 1 and 2, and the cursor decodes to the text `3` |
| Scenarios.SecondPage | paginate.go:86-109 | from that cursor: rows 3 and 4, and the cursor decodes to `5` |
| Scenarios.ThirdPage | paginate.go:111-112 | from that cursor: row 5 and the cursor cleared |
| Scenarios.WholeTable | paginate.go:111-112 | a page size of ten returns all five rows with no cursor |
| Scenarios.MalformedCursor | paginate.go:86-90 | the cursor `not-valid-base64!!` is refused as corrupt |
| Scenarios.LeadingDesc | service.go:178-183 | `desc,id` gives `"" -> DESC` and `id -> ""` |
| Scenarios.FieldThenDesc | service.go:179-187 | `name,DeSc,age` gives `name -> DESC` and `age -> ""` |
| Service.Split | service.go:177 | at least one piece, and no piece contains a comma |
| Service.JoinSplit | service.go:177 | joining the pieces with commas gives back the string |
| Service.SplitJoin | service.go:177 | splitting comma-joined, comma-free pieces gives back the pieces |
| Service.ToLower | service.go:180 | lower-casing keeps the length of the token, leaves no upper-case ASCII letter, and changes a character only by mapping `A`-`Z` to `a`-`z` |
| Service.DescSpellings | service.go:180 | `IsDesc`, the test `strings.ToLower(key) == "desc"`, holds exactly when the token is those four letters in any mix of cases |
| Service.ScanLastKey | service.go:178-186 | for the fold `Scan` of the loop step `ScanStep`: after each token, the pending field is that token, or nothing after a `desc` |
| Service.ScanKeys | service.go:179-187 | for `Scan`: the keys of the order map are exactly the fields the tokens write to |
| Service.ScanLastWrite | service.go:179-187 | for `Scan`: a key holds the value of its last write: `DESC` from a `desc`, `""` from the field itself |
| Service.ScanValues | service.go:181-185 | every direction in the order map is `""` or `DESC` |
| Service.OrderOf | service.go:175-188 | the order map of a string: every key is one of its comma-separated tokens or the empty key, and every value is `""` or `DESC` |
| Service.DescNeverAField | service.go:180-184 | `desc` in any case is never stored as a field name |
| Service.OrderKeys | service.go:175-187 | every token that is not `desc` is a key of the order map, and every value is `""` or `DESC` |
| Service.LastOccurrenceWins | service.go:179-186 | the last occurrence of a non-empty field decides it: `DESC` when the next token is `desc`, `""` otherwise, whatever came before. The empty field is excluded, because an orphan `desc` later in the string also writes under `""` (`OrphanDesc`) |
| Service.OrphanDesc | service.go:178-183 | a `desc` with no pending field, first or right after another `desc`, writes `DESC` under the empty key, which keeps it unless a later token writes there |
| Service.ParseOrder | service.go:175-188 | the loop computes the fold `OrderOf`, and an empty string gives the empty map |
| Service.SelectFields | service.go:190-196 | the select map holds exactly the comma-separated tokens, each with the empty alias; an empty string gives the empty map |
| Service.ParseSelect | service.go:136-142 | the loop builds exactly the select map |
| Service.SelectProjections | service.go:190-196 | the projections asked for are `[*]` for an empty select, otherwise exactly one plain column per token, never an alias |
| Service.OrderClausesOf | service.go:181 | a field is sorted descending exactly when a `desc` marked it, and ascending otherwise |
| Service.Get | service.go:144-159 | pages with limit 1, the parsed select, no order and no cursor. A paging error gives 500. Exactly one row left gives 200 with its converted result. Otherwise 404 "entity not found" |
| Service.GetFound | service.go:155-159 | the entity is found exactly when one row was fetched, or two with a readable sentinel, and it is the first row fetched |
| Service.ToResults | service.go:213-217 | the result has the page's length, and element `i` is the conversion of row `i` |
| Service.Find | service.go:198-223 | pages with the bound cursor, page and limit and the parsed order and select. A paging error gives 500. Otherwise 200 with exactly the keys `meta` and `result`: `meta` is the metadata of the updated paginator, and `result` holds the converted rows of the page in order |

## Left out

- HTTP binding, `ctx.Bind`/`BindAll`, and the `ctx.JSON`/`Stack`/`Error` plumbing are not modelled. A `Response` value carries the status and the body or the reason instead. A binding failure (500) is not modelled.
- `Create`, `Delete`, `Patch` and `Update` (service.go:62-121) only pass through errors and are not part of this model.
- `context.Context` (cancellation, deadlines) is not modelled.
- The sqlike client (`table.Paginate`, `NextCursor`, `All`) is an oracle, the `Table` parameter. Its errors are opaque strings. `Keyset` assumes the store resumes inclusively at the cursor row. That store is a reference for the cross-call lemmas, not a model of sqlike.
- Reflection (`reflect.ValueOf`, `FieldByName("Key")`, `CanInterface`, `slice.Set`) is not modelled. A row's `keyReadable` flag stands for `CanInterface`, and the result slice is the `Slice` object.
- The filter (`model.ToQuery()`) is an opaque value, and each row's `ToResult` is a function parameter.
- Paginate.Paginator.GetResult: does not model what a failed fetch leaves in the slice. After a `FetchFailed` the contract says nothing about `result.items`.
- Base64.Decode: reports a `CorruptInput` error without the byte offset Go's `CorruptInputError` carries.
- KeyText.Format: covers string and integer keys only. `%v` of other key types is not modelled.
- Service.ToLower: folds ASCII letters only. It is used only to compare with `desc`, and no other character lower-cases to `d`, `e`, `s` or `c`. Tokens that differ only in non-ASCII case are therefore classified the same.
- `Offset` (service.go:200) is set on a `Paginator` that has no such field in paginate.go, and service.go calls `GetResult` without the context argument. The model uses paginate.go's paginator and leaves `Offset` out.
- Paginate.Paginator: the limit is a natural number. The `uint(p.Limit + 1)` conversion of a negative limit is not modelled.
- Go's map iteration order is not modelled. The select and order loops pick keys nondeterministically, so no order of projections or clauses is claimed.
