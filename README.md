# golink decoders, cache and helpers in Dafny

golink is a Go client for the EVE Online XML API. This project models the
parts of it that turn an API response into typed values, and the cache that
holds responses:

- **`InMemoryAPICache`** (api.go): a map from cache keys to values with an
  expiration instant. `Get` evicts lazily and `Set` overwrites. It is the
  class `Cache.InMemoryAPICache`, whose field `entries` the methods update in
  place. Beside it are the functions `Lookup`, `AfterGet` and `AfterSet`,
  which state the result and the new map. A replay of any history of calls
  shows that lazy eviction cannot be observed.
- **The helpers of util.go**, modelled as pure functions:
  - `parseEveTs`: `time.Parse` with the layout `2006-01-02 15:04:05`, on a
    proleptic Gregorian calendar, giving Unix seconds.
  - `first`.
  - the `get*Value` helpers.
  - `extractKeyval`, a method with a loop, specified by `KeyvalMap`.
  - `parseMSDate`: Windows FILETIME ticks to Unix seconds, with Go's
    truncating division.
- **The account decoders** (account.go): `AccountStatus`,
  `AccountKeyInfo`, `AccountCharacters` and `key_types`.
- **The character decoders** (char.go): `handleAssetRowset`,
  `CharAssets`, `CharContractBids` and `CharContractItems`.

Every integer field goes through `strconv.ParseInt(s, 0, 64)`. Module
`Numbers` models it:

- an optional sign;
- a base the text chooses: `0x` for hexadecimal, a leading `0` for octal,
  decimal otherwise;
- a left-to-right scan that stops at the first bad digit or at a 64-bit
  overflow, whichever comes first;
- the int64 range.

Parsed XML is the datatype `Etree.Element`, with tag, attributes, text and
children. `Find`, `FindAll` and `Get` state what the package relies on from
go-etree. go-etree itself is not part of this model.

Each decoder takes what the request layer returned in place of the call
`a.Get(path, params)`: a `Result<Element>`. The request layer is not part of
this model.

Go's `(value, error)` pairs become `Errors.Result`. `handleAssetRowset`
returns a partial list together with its error, so it returns
`Errors.Partial`. Instants are integers: Unix seconds for parsed timestamps,
nanoseconds in the cache. `time.Now()` is a parameter.

The fixtures of api_test.go and account_test.go are proved as lemmas:

- the timestamps of `TestTimeParse` and of the envelope documents;
- the documents of `TestStatus`, `TestKeyInfo` and `TestCharacters`.

`InMemoryAPICache.Get` misses only when the read happens strictly after
`now + ttl` (api.go:27, `time.Now().After(r.Expiration)`). So a read at
exactly `now + ttl` still hits, even with a ttl of zero:
`Cache.SetThenGet` allows `d = 0` and `later = t`.

## Model

| member | source | states |
|---|---|---|
| Cache.Lookup | api.go:22-32 | what Get returns at `now`: nothing for an absent key or a nil entry, nothing once `now` is strictly after the entry's expiration, the stored value otherwise; its properties are GetMissing, GetExpiry and SetThenGet |
| Cache.AfterGet | api.go:22-32 | the map after Get: an entry read strictly after its expiration is overwritten with nil and its key stays; any other read leaves the map alone (see GetExpiry, EvictionUnobservable) |
| Cache.AfterSet | api.go:34-36 | the map after Set: the key maps to the value with expiration `now + duration` (see SetFrame) |
| Cache.InMemoryAPICache.constructor | api.go:20 | `make(InMemoryAPICache)`: a new cache holds no entry |
| Cache.InMemoryAPICache.Get | api.go:22-32 | returns nothing for an absent or nil entry, or once `now` is strictly after its expiration, when the entry is overwritten with nil; otherwise the stored value, with the map unchanged |
| Cache.InMemoryAPICache.Set | api.go:34-36 | the key now holds the value, expiring at `now + duration`; every other entry is kept |
| Cache.SetThenGet | api.go:22-36 | a value set with duration d is returned by Get at every instant up to t + d (TestCache), and that Get changes nothing |
| Cache.SetNegativeDuration | api.go:27-35 | after a Set with a negative duration, Get at the same or any later instant returns nothing (TestExpire) |
| Cache.SetFrame | api.go:34-36 | Set writes only its own key: every other key keeps its presence and its entry |
| Cache.GetMissing | api.go:23-26 | Get of a key never stored returns nothing and leaves the map as it was |
| Cache.GetExpiry | api.go:27-31 | past the expiration Get returns nothing and leaves the key mapped to nil; up to and at the expiration it returns the value and changes nothing |
| Cache.EvictionUnobservable | api.go:27-30 | the eviction done by Get changes nothing that a Get of any key, at the same or a later instant, returns |
| Cache.ReplayHoldsLastSet | api.go:20-36 | after any chronological history a key holds the entry of its last Set, or nil once that entry expired; a key never set is absent |
| Cache.ReplayObservesLastSet | api.go:22-36 | after any chronological history Get returns the value of the key's last Set exactly when `now` has not passed that Set's expiration |
| Numbers.ParseInt | util.go:40 | every value is within the int64 range; every error is a syntax or a range error naming the input text |
| Numbers.ParseIntWellFormed | util.go:40 | text that parses is a sign, a base prefix and digits of that base; such well-formed text fails only with a range error |
| Numbers.ParseIntDecimal | util.go:40 | plain decimal text reads as its signed decimal value, or as a range error outside the int64 range |
| Numbers.ParseIntHex | util.go:40 | `0x1F` is 31: the `0x` prefix selects hexadecimal |
| Numbers.ParseIntNegativeHex | util.go:40 | `-0Xff` is -255: the sign precedes the prefix, and both prefix and letters may be upper or lower case |
| Numbers.ParseIntOctal | util.go:40 | `017` is 15: a leading zero selects octal |
| Numbers.ParseIntSyntaxErrors | util.go:40 | `0x` without digits, `09` (no 9 in octal) and a lone sign are syntax errors |
| Numbers.ParseIntLeast | util.go:40 | the least int64 parses from its decimal text |
| Numbers.ParseIntPastGreatest | util.go:40 | one past the greatest int64 is a range error |
| Numbers.OverflowIgnoresRest | util.go:40 | once the digits read exceed 64 bits, the result is a range error whatever text follows |
| Numbers.ParseIntValue | char.go:128 | the number ParseInt returns beside its error: the parsed value, 0 after a syntax error, the int64 bound of the sign after a range error; always in int64 range |
| Numbers.ParseFormatRoundTrip | util.go:40 | every int64 parses back from its decimal rendering |
| Calendar.Epoch | util.go:11-13 | 1970-01-01 00:00:00 is Unix second 0 |
| Calendar.UnixSecondsInjective | util.go:11-13 | two valid date-times at the same Unix second are equal |
| Util.ParseEveTs | util.go:11-13 | `time.Parse` with the layout `2006-01-02 15:04:05`: text of that shape naming a valid date-time gives its Unix second, anything else is a timestamp error; its properties are the lemmas below |
| Util.ParseFormatEveTs | util.go:11-13 | any valid date-time with a four-digit year, written in the layout, parses back to its own fields and to its Unix second |
| Util.FormatParseEveTs | util.go:11-13 | text that parseEveTs accepts is exactly the layout rendering of a valid date-time |
| Util.FormatEveTsLayout | util.go:12 | the rendering has 19 characters: separators `-`, `-`, space, `:`, `:` at fixed places and two digits per field |
| Util.ParseEveTsInjective | util.go:11-13 | two accepted texts that give the same instant are the same text |
| Util.RejectsMonth13 | util.go:12 | month 13 is refused |
| Util.RejectsFebruary29 | util.go:12 | the day is checked against the month's length: 29 February of a common year is refused |
| Util.RejectsHour24 | util.go:12 | hour 24 is refused |
| Util.RejectsOtherShapes | util.go:12 | a `T` in place of the space, or text after the seconds, is refused |
| TimeFixtures.TimeParseFixture | api_test.go:16-24 | "2012-06-12 12:04:33" parses to 1339502673 |
| TimeFixtures.CurrentTimeFixture | api_test.go:64-69 | "2009-10-18 17:05:31" parses to 1255885531 |
| TimeFixtures.CachedUntilFixture | api_test.go:64-69 | "2009-11-18 17:05:31" parses to 1258563931 |
| TimeFixtures.ErrorCachedUntilFixture | api_test.go:101-106 | "2009-11-18 19:05:31" parses to 1258571131 |
| TimeFixtures.PaidUntilFixture | account_test.go:58 | "2011-01-01 00:00:00" parses to 1293840000 |
| TimeFixtures.CreateDateFixture | account_test.go:59 | "2004-01-01 00:00:00" parses to 1072915200 |
| TimeFixtures.ExpiresFixture | account_test.go:74 | "2011-09-11 00:00:00" parses to 1315699200 |
| Util.First | util.go:15-17 | `first` drops the found flag of a `(string, bool)` pair and keeps the string (see FirstOfGet) |
| Util.GetStrValue | util.go:19-25 | getStrValue: the error MissingChild naming the child and the parent's tag when the child is missing, its text otherwise (see MissingChildRule) |
| Util.GetTimeValue | util.go:27-33 | getTimeValue: MissingChild, or parseEveTs of the child's text (see MissingChildRule) |
| Util.GetIntValue | util.go:35-41 | getIntValue: MissingChild, or ParseInt of the child's text (see MissingChildRule) |
| Util.GetBoolValue | util.go:51-62 | getBoolValue: MissingChild, true for "True", false for "False", and the error UnknownBool for any other text (see GetBoolValueLiterals) |
| Util.FirstOfGet | util.go:15-17 | `first(e.Get(name))` is the attribute's value, or "" when it is absent, which ParseInt refuses as a syntax error |
| Util.MissingChildRule | util.go:19-41 | each get*Value helper fails with "unable to find child" exactly when the child is missing; otherwise it returns the child's text, parsed as its type |
| Util.GetBoolValueLiterals | util.go:51-62 | getBoolValue gives true or false exactly for the texts "True" and "False"; any other text, or a missing child, is an error |
| Util.Lines | util.go:65 | the fields split on newlines are never empty and hold no newline |
| Util.LinesOfJoin | util.go:65 | splitting non-empty lines joined by newlines gives back the same lines |
| Util.SepIndex | util.go:68 | the index of the first ": " of a line, or none when the line has none |
| Util.KeyvalMap | util.go:64-72 | the map that extractKeyval builds: the lines first to last, each storing its value under its key, so a later line overwrites an earlier one with the same key (see KeyvalKeys, KeyvalLastWins) |
| Util.ExtractKeyval | util.go:64-72 | the loop builds KeyvalMap of the non-empty lines, each split at its first ": " |
| Util.KeyvalKeys | util.go:64-72 | a key is in the map exactly when some line has it |
| Util.KeyvalLastWins | util.go:67-70 | a key maps to the value of the last line that has it |
| Util.KeyValueOfRender | util.go:68-69 | the line "k: v" splits back into k and v when neither holds a newline or ": " |
| Util.ExtractKeyvalOfRendered | util.go:64-72 | rendering pairs as "k: v" lines and extracting them gives the map of the pairs, later pairs winning |
| Util.ParseMSDate | util.go:74-81 | parseMSDate: the ParseInt error, or the tick count divided by 10000000 with truncation toward zero, minus 11644473600 (see ParseMSDateSpec, ParseMSDateOfTicks, ParseMSDateBefore1601, ParseMSDateHex) |
| Util.TruncDiv | util.go:79 | Go's integer division: the remainder has the sign of the dividend and is smaller than the divisor |
| Util.ParseMSDateSpec | util.go:74-81 | text that ParseInt refuses is ParseInt's error; any count it accepts reads as the count divided by 10000000 with truncation toward zero, minus 11644473600 |
| Util.ParseMSDateOfTicks | util.go:74-81 | a FILETIME count in decimal from 1601 on reads as the Unix second it falls in |
| Util.ParseMSDateBefore1601 | util.go:79 | a negative count truncates toward zero: a count that is not a whole number of seconds reads one second later than flooring gives |
| Util.ParseMSDateHex | util.go:75 | the count may be written with a base prefix: "0x0" is 1601 itself |
| Account.AccountStatus | account.go:19-38 | the request error, or paidUntil, createDate, logonCount and logonMinutes decoded in that order, the first failure aborting with its error (see AccountStatusSpec) |
| Account.AccountStatusSpec | account.go:19-38 | the request error is passed on; the status holds the four fields exactly when all four decode, and otherwise the error is the first field's error, in source order |
| Account.AccountStatusFixture | account_test.go:21-30 | the status document decodes to paid 1293840000, created 1072915200, 1234 logins and 9999 minutes |
| Account.DecodeCharacter | account.go:82-95 | one character row: characterID, the name attribute (`characterName` at account.go:86, `name` at account.go:116), corporationID and corporationName, in that order, the first failure aborting (see DecodeCharacterSpec) |
| Account.CharacterMap | account.go:81-96 | the rows decoded in order into the map, each character stored under its id, the first failing row aborting (see CharacterMapSnoc and the lemmas below) |
| Account.DecodeCharacterSpec | account.go:82-95 | a row decodes exactly when both ids parse and both names are present, into those four values; otherwise the error is that of the first failure in the order characterID, name, corporationID, corporationName |
| Account.DecodeCharacterRows | account.go:81-96 | the loop over the rows gives CharacterMap: the rows decoded in order, each stored under its id, the first failing row aborting |
| Account.CharacterMapSnoc | account.go:95 | a later row with an existing id overwrites that entry, and a failing last row makes the whole fail |
| Account.CharacterMapRowsDecode | account.go:81-96 | when the map is built, every row decoded |
| Account.CharacterMapKeys | account.go:81-96 | the ids in the map are exactly the ids of the rows |
| Account.CharacterMapIds | account.go:95 | each character is stored under its own id |
| Account.CharacterMapFirstError | account.go:83-94 | when some row fails, the result is the error of the first failing row |
| Account.KeyHeader | account.go:61-76 | the key's accessMask, its type mapped through key_types (NoKeyType when absent from the table) and its optional expires instant, in that order, the first failure aborting (see KeyHeaderSpec, KeyTypeMapping, ExpiresRule) |
| Account.KeyInfoOf | account.go:54-98 | what AccountKeyInfo returns: the request error, the KeyHeader error, or the header with the CharacterMap of the key's rowset under `characterName` |
| Account.AccountKeyInfo | account.go:54-98 | returns KeyInfoOf: the request error; else the access mask, the key type, the optional expiry and the character map, the first failure aborting |
| Account.KeyHeaderSpec | account.go:61-64 | the access mask is the first attribute read: a mask that does not parse is the header's error, and a header that decodes carries the parsed mask |
| Account.KeyTypeMapping | account.go:65-67 | the key type decodes exactly from "Account", "Character" and "Corporation", to "account", "char" and "corp"; anything else is the error NoKeyType |
| Account.ExpiresRule | account.go:68-76 | a missing `expires` gives no expiry; a present one gives its parsed instant, or the parse error |
| Account.KeyInfoFixture | account_test.go:32-42 | the key info document decodes to mask 59760264, type "char", expiry 1315699200 and the one character Desmont McCallock |
| Account.AccountCharacters | account.go:100-128 | the request error; the error NoRowset when there is no rowset; otherwise the CharacterMap of its rows under the attribute `name` |
| Account.CharactersFixture | account_test.go:44-53 | the characters document decodes to the one character Alexis Prey |
| Char.IntAttr | char.go:22 | `strconv.ParseInt(first(row.Get(name)), 0, 64)`: ParseInt of the attribute's value, or of "" when it is absent |
| Char.AssetFields | char.go:21-37 | the five integer attributes of an asset row in source order, the first failure aborting, and the packaged flag (see AssetFieldsSpec) |
| Char.AssetFieldsSpec | char.go:21-37 | an asset's fields decode exactly when its five integer attributes parse; the asset is packaged exactly when `singleton` is "0"; a failing attribute's error is returned in source order |
| Char.AssetRowsAsWritten | char.go:17-48 | what the loop as written returns on rows where it does not recurse on nil: each row's fields with no contents, up to the first error (see AsWrittenNoContents) |
| Char.HandleAssetRowsetAsWritten | char.go:17-48 | the loop as written returns AssetRowsAsWritten, the assets decoded in order up to the first error |
| Char.AsWrittenNoContents | char.go:38-44 | as written, no asset ever carries contents |
| Char.AsWrittenPanicsOnLeaf | char.go:38-40 | as written, a row without a nested rowset makes the loop recurse on nil; the corrected decoder returns the asset |
| Char.AsWrittenDropsContents | char.go:38-44 | as written, a container's nested assets are dropped; the corrected decoder keeps them |
| Char.AssetRowset | char.go:17-48 | the corrected handleAssetRowset: the decoding of the rowset's `row` children (see AssetRowsShape) |
| Char.AssetRow | char.go:21-45 | one row in the corrected decoder: its fields, with the nested rowset's assets as contents; a failure in the nested rowset fails the row (see AssetRowCases, AssetRowContents) |
| Char.AssetRows | char.go:20-47 | the rows' assets in order up to the first failing row, returned with that row's error (see AssetRowsShape) |
| Char.HandleAssetRowset | char.go:17-48 | the corrected recursive loop returns AssetRowset: every row's asset with its nested contents, or the assets before the first error together with that error |
| Char.AssetRowsShape | char.go:20-47 | the assets returned are the decodings of the leading rows; there is no error exactly when every row decoded, and otherwise the error is that of the first row not returned |
| Char.AssetRowContents | char.go:37-44 | a decoded asset has its row's fields; it has no contents without a nested rowset, and otherwise the nested rowset's assets, which decoded without error |
| Char.AssetRowCases | char.go:21-45 | a row fails with its field error, or decodes to its fields with no contents, or takes the nested rowset's assets or its error |
| Char.CharAssets | char.go:50-60 | the request error; an empty list and no error when there is no rowset; otherwise the rowset's assets |
| Char.DecodeAll | char.go:76-96 | the all-or-nothing loop of the contract decoders: every row's value in order, or the first failing row's error with nothing decoded (see DecodeAllOk, DecodeAllFirstError) |
| Char.DecodeRows | char.go:76-96 | the loop gives DecodeAll: every row decoded in order, or the first error |
| Char.DecodeAllOk | char.go:77-96 | the rows decode exactly when each row does, into one value per row in order |
| Char.DecodeAllFirstError | char.go:77-93 | when some row fails, the result is the error of the first failing row |
| Char.DecodeBid | char.go:78-93 | one bid row: bidID, contractID, bidderID and amount as integers, then dateBid through parseEveTs, the first failure aborting (see DecodeBidSpec) |
| Char.DecodeBidSpec | char.go:78-93 | a bid decodes exactly when its three ids (bidID, contractID, bidderID), its amount and its date parse, into those values; otherwise the error is that of the first failing attribute in that order, and a missing date is a timestamp error |
| Char.CharContractBids | char.go:67-97 | the request error; no bids when there is no rowset; otherwise every row's bid or the first row's error |
| Char.DecodeItem | char.go:118-141 | one item row: recordId, typeId and quantity as integers, rawQuantity read with its error ignored, then singleton and included, each required present (see DecodeItemIntegers, DecodeItemFlags, RawQuantityNeverFails) |
| Char.DecodeItemFlags | char.go:129-140 | an item is a singleton exactly when `singleton` is "1", and is "offered" when `included` is "1", "requested" otherwise; a missing attribute of the two is its own error |
| Char.DecodeItemIntegers | char.go:118-127 | an item that decodes has recordId, typeId and quantity as its parsed attributes; the first of the three that fails, in that order, is the row's error |
| Char.RawQuantityNeverFails | char.go:128 | the raw quantity never makes a row fail: changing it changes only the item's raw quantity, which is ParseIntValue of the text |
| Char.CharContractItems | char.go:105-144 | the request error; no items when there is no rowset; otherwise every row's item or the first row's error |

## Findings

| source | as written | input that shows it | evidently intended | confidence | as-written member | corrected member |
|---|---|---|---|---|---|---|
| char.go:38-44 | the recursion into a row's contents runs when `row.Find("rowset")` is nil, and is skipped when the row has a nested rowset | a row whose five integer attributes parse and that has no nested rowset: the loop calls `handleAssetRowset` on a nil element, which panics in Go. A container row with a nested rowset: its contents are never decoded | recurse when the nested rowset is present (`contents != nil`), so a container's assets become its Contents | not executed | Char.AsWrittenPanicsOnLeaf | Char.HandleAssetRowset |

`Char.HandleAssetRowsetAsWritten` models the loop as written. Its
precondition `AsWrittenSafe` excludes the inputs that panic.
`Char.AsWrittenNoContents` and `Char.AsWrittenDropsContents` show that,
as written, no asset ever has contents. `CharAssets` uses the corrected
decoder, `Char.AssetRowset`, whose shape `Char.AssetRowsShape` proves.

## Left out

- The request pipeline is not part of this model. That covers `API.Get`,
  `CredentialedAPI.Get`, `genCacheKey`, `NewAPI`, `NewCredentialedAPI`,
  and the HTTP fetcher. `API.Get` (api.go:39) is declared without a body,
  and the handling of the response envelope (currentTime, cachedUntil,
  error) would sit there. Each decoder takes the pipeline's result as a
  parameter.
- parser/parser.go is a stub `Unmarshal(data, v)` over `encoding/xml`.
  It returns nil at the first token that is not a processing instruction
  or a comment, and reads neither currentTime, cachedUntil nor error. It
  does not compile as written: `t, err` are not declared at
  parser/parser.go:12. It is not part of this model.
- The parameters of each endpoint (`url.Values`) are not modelled, so
  neither is `string(charId)` in them (a conversion of an integer to a
  one-rune string).
- Reading XML text into elements is left out, and so is go-etree; `Etree`
  states only what the decoders use. The fixture documents are built as
  elements, with their integers written by `FormatInt`.
- `getFloatValue` (util.go:43-49) is left out: floating point.
- `time.Now()` is a parameter of the cache methods, and time never comes
  from a clock.
- Concurrency is left out. The Go map behind `InMemoryAPICache` has no
  lock.
- The cache stores a value of any type `V`. Go's interface values, and a
  nil value stored with Set, are not distinguished beyond that.
- The cache tests call `Put`, the method name of the `APICache` interface,
  while `InMemoryAPICache` defines `Set`. The model follows the type
  (`Set`).
- Cache.InMemoryAPICache.Set: `time.Now().Add(duration)` saturates at the
  limits of `time.Time`; the model adds unbounded integers.
- Numbers.ParseInt: models base-0 parsing as Go has it before version
  1.13. It does not model the later `0b` and `0o` prefixes, or the
  underscores between digits that base 0 then allows.
- The standard library is that of Go 1.7 to 1.12. `strconv.ParseInt`
  has no `0b`, `0o` or underscores, which came in 1.13. `time.Parse`
  refuses a day past the end of its month, which releases before 1.7
  already did. It also refuses day 0, which it does from 1.7 on.
  `Util.RejectsFebruary29` rests on the first rule.
- Util.ParseEveTs: refuses a one-digit hour, a fractional second after
  the seconds, and a run of spaces where the layout has one space
  ("2012-06-12  12:04:33"). `time.Parse` accepts all three with this
  layout; it reads a run of spaces as the layout's single space. Only
  years 0000-9999 are modelled, and the result is Unix seconds rather
  than a `time.Time` with a location.
- Util.FormatParseEveTs: holds for the model's stricter parser. With
  `time.Parse`, a one-digit hour is accepted but is not the layout's
  rendering.
- Util.ParseEveTsInjective: holds only for the model's stricter parser.
  With `time.Parse`, a one-digit hour, a fraction or extra spaces give
  another text for the same instant ("2012-06-12 1:04:33" and
  "2012-06-12 01:04:33", say).
- Util.ExtractKeyval: requires every non-empty line to contain ": ". Go
  indexes `r[1]`, so a line without one panics.
- Account.AccountStatus: on an error Go also returns the fields decoded
  before it, in a partly filled `aStatus`. The model returns only the
  error.
- Account.AccountKeyInfo: on an error Go also returns the partly filled
  `aKInfo`. The model returns only the error.
- Account.AccountKeyInfo: requires `!KeyInfoPanics`. Go calls methods on
  a nil element, and panics, when the result has no `key`, or when a key
  that decodes has no `rowset`.
- Char.HandleAssetRowsetAsWritten: requires `AsWrittenSafe`. The code as
  written recurses on a nil element and panics (see Findings).
- The `locId` parameter of `handleAssetRowset` is never read in the
  source, so the model has no such parameter.
