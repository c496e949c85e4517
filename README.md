# Split cookies

A Dafny model of the cookie-chunking utility of the Kinde TypeScript SDK
(`lib/sdk/utilities/split-cookies.ts`). A cookie value longer than the
per-cookie limit is stored as several cookies: `getSplitCookies` cuts the
value into pieces of at most `maxCookieLength` characters and names them
`name`, `name1`, `name2`, ...; `getJoinedSplitCookieValue` reads a
name-to-value record back, walking `name`, `name1`, ... until the first name
that is not set; `getSplitCookieNamesToDelete` picks every existing cookie
name that starts with the base name.

Files and modules:

- `wrappers.dfy` (`Wrappers`): `Option` (a defined value or `undefined`) and
  `Result` (a value or the error that was thrown).
- `decimal.dfy` (`Decimal`): `String(n)` for the chunk indices that occur, its
  parser, and the proof that distinct indices give distinct suffixes.
- `js_utils.dfy` (`JsUtils`): a reference definition of `splitString` from
  the `@kinde/js-utils` package, with the contract the cookie code relies on.
  The package itself is not part of this model.
- `split_cookies.dfy` (`SplitCookies`): the three operations. Splitting and
  deletion are functions (the source is a `.map` and a `.filter`); joining is
  a method with the source's `while` loop, proved equal to the recursive
  function `JoinedValue`.
- `split_cookies_properties.dfy` (`SplitCookiesProperties`): the round trip,
  the stop at the first missing chunk, the empty-value and empty-cookie
  cases, stale chunks, deletion coverage and the concrete scenarios.

Modelling choices:

- `Record<string, string | undefined>` is `map<string, Option<string>>`;
  `Lookup` reads a missing key and a key set to `undefined` alike, as the
  source's `=== undefined` comparisons do, while `Some("")` stays present.
- `maxCookieLength` is an unbounded `int`; the error is a `Failure` carrying
  the offending value.
- The join loop terminates because chunk names of one base name are
  distinct: each iteration consumes a key of the record not consumed before
  (`ChunkNamesShrink`), so the loop runs at most `|cookies|` times.
- The caller's record built from a list of cookies is `ToRecord` (a later
  cookie with the same name overwrites an earlier one).

## Model

| member | source | states |
|---|---|---|
| Decimal.NatToString | lib/sdk/utilities/split-cookies.ts:30 | `String(index)` is a non-empty string of decimal digits with no leading zero (it starts with '0' only for index 0, and is then "0") |
| Decimal.ParseNatToString | lib/sdk/utilities/split-cookies.ts:30 | reading the decimal string back gives the index again |
| Decimal.NatToStringInjective | lib/sdk/utilities/split-cookies.ts:30 | distinct indices have distinct decimal strings |
| JsUtils.SplitString | lib/sdk/utilities/split-cookies.ts:28 | the pieces concatenate to the input; each holds 1 to `size` characters; all but the last hold exactly `size`; no pieces exactly for the empty string |
| SplitCookies.Lookup | lib/sdk/utilities/split-cookies.ts:45 | `cookies[key] === undefined` holds exactly when the key is missing or set to `undefined`; a defined result is a value stored in the record (so "" is defined) |
| SplitCookies.ChunkName | lib/sdk/utilities/split-cookies.ts:30 | every chunk name starts with the base name, and equals it exactly for chunk 0 and only for chunk 0 |
| SplitCookies.ChunkNameInjective | lib/sdk/utilities/split-cookies.ts:30 | two chunks of one base name with the same name have the same index |
| SplitCookies.ChunkNameOutside | lib/sdk/utilities/split-cookies.ts:53-58 | the name of chunk `index` is not among the names of the chunks before it |
| SplitCookies.ChunkNamesCount | lib/sdk/utilities/split-cookies.ts:53-58 | the first `n` chunk names are `n` distinct strings |
| SplitCookies.ChunkNamesShrink | lib/sdk/utilities/split-cookies.ts:53-58 | each chunk the join loop reads is a record key it has not read before, so the loop terminates |
| SplitCookies.GetSplitCookies | lib/sdk/utilities/split-cookies.ts:17-34 | fails, carrying the length, exactly when `maxCookieLength <= 0`; otherwise chunk `i` is named `ChunkName(name, i)`, the values concatenate to the input, each has 1 to `maxCookieLength` characters, all but the last exactly `maxCookieLength`, and the list is empty exactly for the empty value |
| SplitCookies.JoinFrom | lib/sdk/utilities/split-cookies.ts:53-58 | the recursive form of the loop from chunk `index` on: "" when that chunk is not set, otherwise a string that starts with that chunk's value |
| SplitCookies.JoinedValue | lib/sdk/utilities/split-cookies.ts:41-60 | the join is absent exactly when the base cookie is missing or `undefined`; otherwise it starts with the base cookie's value (so a base cookie of "" gives a defined result) |
| SplitCookies.GetJoinedSplitCookieValue | lib/sdk/utilities/split-cookies.ts:41-60 | the source's loop over `value`, `index`, `key` and `chunk` returns exactly `JoinedValue` |
| SplitCookies.GetSplitCookieNamesToDelete | lib/sdk/utilities/split-cookies.ts:65-70 | every name that starts with the base name occurs in the result as often as in the input and every other name not at all, and the result keeps the input's order (it is a subsequence of it) |
| SplitCookiesProperties.ToRecordAbsent | lib/sdk/utilities/split-cookies.ts:43 | caller side (the file does not build the record; line 43 is the record type it receives): a name no cookie carries is not set in the caller's record |
| SplitCookiesProperties.ToRecordPresent | lib/sdk/utilities/split-cookies.ts:43 | caller side (the file does not build the record; line 43 is the record type it receives): with distinct names, each cookie's value is what the record holds under its name |
| SplitCookiesProperties.SplitCookieNamesDistinct | lib/sdk/utilities/split-cookies.ts:28-33 | the cookies of one split never share a name |
| SplitCookiesProperties.JoinFromRun | lib/sdk/utilities/split-cookies.ts:53-58 | from chunk `index` on, the loop concatenates the set chunks up to the first missing one |
| SplitCookiesProperties.JoinReadsChunksUpToFirstGap | lib/sdk/utilities/split-cookies.ts:45-59 | if chunks 0..n-1 hold `values` and chunk n is missing, the join is the concatenation of `values` (absent when n is 0) |
| SplitCookiesProperties.PresentChunksBounded | lib/sdk/utilities/split-cookies.ts:53-58 | a run of set chunks is no longer than the record, so a first missing chunk exists |
| SplitCookiesProperties.ChunkNamesInRecord | lib/sdk/utilities/split-cookies.ts:53-58 | the names of a run of set chunks are keys of the record |
| SplitCookiesProperties.NamedRunJoins | lib/sdk/utilities/split-cookies.ts:41-60 | a record of cookies named chunk 0..n-1 of one base name joins to their values in order |
| SplitCookiesProperties.SplitThenJoin | lib/sdk/utilities/split-cookies.ts:17-60 | round trip: for a non-empty value and a positive length, joining the record of the split cookies gives back the value |
| SplitCookiesProperties.EmptyValueJoinsToAbsent | lib/sdk/utilities/split-cookies.ts:28-47 | the empty value splits into no cookies, and the empty record joins to absent rather than to "" |
| SplitCookiesProperties.EmptyBaseCookieIsPresent | lib/sdk/utilities/split-cookies.ts:45-53 | a base cookie set to "" with no chunk 1 joins to "", not to absent |
| SplitCookiesProperties.JoinFromIgnoresKeysAfterGap | lib/sdk/utilities/split-cookies.ts:53-58 | from any chunk before the first gap, changing a chunk after the gap does not change what the loop reads |
| SplitCookiesProperties.JoinIgnoresKeysAfterGap | lib/sdk/utilities/split-cookies.ts:49-59 | whatever is stored under a chunk name past the first missing chunk does not change the join |
| SplitCookiesProperties.StaleChunkIsAppended | lib/sdk/utilities/split-cookies.ts:62-70 | for every value, including the empty one, a leftover chunk right after the value's chunks is appended to the joined value, which is why old chunks must be deleted before writing |
| SplitCookiesProperties.ConcatOfSingles | lib/sdk/utilities/split-cookies.ts:28 | one-character pieces concatenate to a string whose characters are the pieces in order |
| SplitCookiesProperties.SplitByOneCharacter | lib/sdk/utilities/split-cookies.ts:22-33 | a maximum length of 1 succeeds with one cookie per character |
| SplitCookiesProperties.DeletionCoversSplitCookies | lib/sdk/utilities/split-cookies.ts:65-70 | every existing cookie name a split under the base name writes is selected for deletion |
| SplitCookiesProperties.ChunkNamesOverlapAcrossBases | lib/sdk/utilities/split-cookies.ts:30 | chunk names are distinct only per base name: chunk 11 of "x" is chunk 1 of "x1", and deletion for "x" selects "x1" |
| SplitCookiesProperties.JoinAbsorbsOtherBase | lib/sdk/utilities/split-cookies.ts:53-58 | the overlap reaches the join: {x:"a", x1:"b"} joins under "x" to "ab", absorbing the base cookie of "x1" |
| SplitCookiesProperties.SplitTokExample | lib/sdk/utilities/split-cookies.ts:17-34 | "abcdefgh" with length 3 splits into tok="abc", tok1="def", tok2="gh" |
| SplitCookiesProperties.JoinTokExample | lib/sdk/utilities/split-cookies.ts:41-60 | {tok:"abc", tok1:"def", tok2:"gh"} joins to "abcdefgh" |
| SplitCookiesProperties.AbsenceExamples | lib/sdk/utilities/split-cookies.ts:45-53 | {} and {x: undefined} join to absent; {x: ""} joins to "" |
| SplitCookiesProperties.GapStopExample | lib/sdk/utilities/split-cookies.ts:53-58 | {x:"a", x2:"b"} joins to "a": x2 after the missing x1 is ignored |
| SplitCookiesProperties.DeletionExample | lib/sdk/utilities/split-cookies.ts:65-70 | for "foo", ["foo","foo1","foo2","bar","foobar"] selects ["foo","foo1","foo2","foobar"] |

## Left out

- `getMaxCookieLength` (lines 3-5): it reads the global `storageSettings.maxLength` of `@kinde/js-utils`; the model takes the length as an explicit parameter instead of a default.
- `splitString` from `@kinde/js-utils` is not part of this model: `JsUtils.SplitString` is a reference definition with the contract the cookie code relies on, and its answer for the empty string (no pieces) is an assumption about that library.
- `Number.isInteger`: NaN, infinities and fractional lengths are floating-point concerns; with an integer length only the `<= 0` rejection remains.
- The wording of the thrown message: the error carries the offending length, not the text.
- Reading, writing and deleting the actual cookies belongs to the caller; the caller's record is modelled by `ToRecord`.
- Inherited properties of the record: the record is taken to hold only its own keys (an object with a null prototype). In JavaScript `cookies["toString"]`, `cookies["constructor"]` and similar names find `Object.prototype` members, which are not `undefined`, so `getJoinedSplitCookieValue("toString", {})` returns the function's source text where the model gives absent.
- `String(n)` from 10^21 on uses exponent form (`"1e+21"`); `Decimal.NatToString` models only the plain decimal form, which covers every index that occurs (array positions, and join indices bounded by the record's key count).
- UTF-16: JavaScript string lengths count UTF-16 code units; the model counts `char`s.
