# Pagination and preferences endpoints of the policies service, in Dafny

This project models three pieces of request handling in the policies web
service:

* **`Pager`**: a page index and a page size, with the builder defaults
  `page = 0` and `itemsPerPage = 10` and no validation (`pager.dfy`).
* **`PagingUtils`** (`paging_utils.dfy`):
  * `extractPager` reads the first `page` and `pageSize` query values with
    `Integer.parseInt`. It fails with `"<name> expects an int but found
    [<value>]"` on the first malformed one, `page` before `pageSize`.
  * `responseBuilder` answers an empty page with 204 and no headers. It
    answers any other page with 200, the page as entity, an `ETag` made
    from the page's hash, and a `TotalCount` header.
* **`UserPreferencesService.getSettingsSchema`** (`user_config_service.dfy`):
  * a caller that cannot read policies gets 403 with a fixed plain-text
    message, before any lookup;
  * otherwise the stored `SettingsValues` record is looked up, and its two
    flags (both `false` when there is no record) replace `%1` and then `%2`
    in the settings template;
  * the answer is 200 with the text and an `ETag` equal to the decimal
    `String.hashCode()` of the text;
  * a failing lookup gives 500 with the exception's message in a `Msg`
    entity.

The Java platform behaviour these rely on is in `java_lang.dfy`:

* `int`/`long` ranges and 32-bit wrap-around;
* `Integer.parseInt`: an optional `+`/`-`, one or more ASCII digits, and a
  value inside the `int` range;
* `Integer.toString`/`Long.toString`;
* `String.hashCode`: `h = 31*h + c` over UTF-16 code units, each `int`
  operation wrapping;
* `String.replace`: every non-overlapping occurrence, scanning left to right.

The JAX-RS response builder is in `http.dfy`. Option and Result values are
in `wrappers.dfy`.

Where the source changes things step by step, the model does too:

* `PagingUtils.ExtractPager` fills a `PagerBuilder` object.
* `PagingUtils.PageResponseBuilder` and
  `UserPreferencesService.GetSettingsSchema` add headers to a
  `ResponseBuilder` object.
* `GetSettingsSchema` reassigns the response text through successive
  replacements.

Each of these methods is proved equal to a reference function
(`PagerFromQuery`, `PageResponse`, `SettingsResponse`). The lemmas and
contracts state what the source promises about those functions.

Collaborators the model cannot see become inputs:

* `RhIdPrincipal` becomes a `Principal` value (name and `canReadPolicies`).
* `SettingsValues.findById` becomes a `SettingsStore` object. The object
  holds the records, an optional fault (the message of the exception a lookup
  throws) and a count of lookups. The count lets the model state that a
  forbidden caller causes no lookup.
* `Page.hashCode()` becomes a function parameter `pageHash`.
* The settings template `settingsString` becomes a string parameter.
* The query parameters become a `map<string, seq<string>>`.

Two behaviours of the code that a reader might not expect:

* `Pager` accepts any `int`, negative and zero included. Nothing validates
  it.
* `String.replace` replaces every occurrence of a placeholder, not just the
  first.

## Model

| member | source | states |
|---|---|---|
| `JavaLang.ParseInt` | src/main/java/com/redhat/cloud/custompolicies/app/rest/utils/PagingUtils.java:45 | `Integer.parseInt` succeeds exactly when the text is an optional sign plus digits whose value is in the `int` range, and then returns that value |
| `JavaLang.LiteralValue` | src/main/java/com/redhat/cloud/custompolicies/app/rest/utils/PagingUtils.java:58 | a literal is accepted exactly when it is digits, or a single `+`/`-` followed by digits; a `-` literal is non-positive, any other non-negative |
| `JavaLang.ParseIntOfDecimal` | src/main/java/com/redhat/cloud/custompolicies/app/rest/utils/PagingUtils.java:45 | `Integer.parseInt(String.valueOf(n)) == n` for every `int` n, negative and zero included |
| `JavaLang.LeadingZeroValue` | src/main/java/com/redhat/cloud/custompolicies/app/rest/utils/PagingUtils.java:45 | a leading zero does not change the value of a digit string, so `"007"` reads as 7 |
| `JavaLang.PlusAndZerosIgnored` | src/main/java/com/redhat/cloud/custompolicies/app/rest/utils/PagingUtils.java:45 | a `+` sign and leading zeros are ignored and `-` negates, so `"+5"`, `"007"`, `"-0"` and `"-05"` read as 5, 7, 0 and -5; with `CanonicalDecimalIsDecimalString` this fixes the value of every accepted literal |
| `JavaLang.LiteralValueOfDecimal` | src/main/java/com/redhat/cloud/custompolicies/app/rest/utils/PagingUtils.java:80 | the decimal text `Long.toString` writes for any integer reads back as that integer |
| `JavaLang.DecimalString` | src/main/java/com/redhat/cloud/custompolicies/app/rest/utils/PagingUtils.java:80 | the decimal text starts with `-` exactly for negative numbers and has the canonical form `Long.toString` writes: no `+`, no leading zero, no `-0` |
| `JavaLang.NatDigitsUnique` | src/main/java/com/redhat/cloud/custompolicies/app/rest/utils/PagingUtils.java:80 | digits without a leading zero are exactly the shortest digits of their value |
| `JavaLang.CanonicalDecimalIsDecimalString` | src/main/java/com/redhat/cloud/custompolicies/app/rest/utils/PagingUtils.java:80 | every canonical decimal text reads as an integer and is that integer's `DecimalString`, so the decimal form of each integer is unique |
| `JavaLang.Wrap32` | src/main/java/com/redhat/cloud/policies/app/rest/UserConfigService.java:88 | the wrapped `int` is congruent to the exact value modulo 2^32, and equal to it when that value is in range |
| `JavaLang.HashOfUnits` | src/main/java/com/redhat/cloud/policies/app/rest/UserConfigService.java:88 | the hash loop `h = 31*h + c`, wrapping after every step, gives the same `int` as wrapping the exact polynomial once |
| `JavaLang.HashCode` | src/main/java/com/redhat/cloud/policies/app/rest/UserConfigService.java:88 | `String.hashCode()` is the polynomial hash of the UTF-16 code units, reduced to an `int` |
| `JavaLang.Utf16` | src/main/java/com/redhat/cloud/policies/app/rest/UserConfigService.java:88 | the UTF-16 form has at least one code unit per character and every unit is in 0..0xFFFF |
| `JavaLang.Utf16RoundTrip` | src/main/java/com/redhat/cloud/policies/app/rest/UserConfigService.java:88 | the code units decode back to the string: a Basic Multilingual Plane character is one unit, a supplementary character the surrogate pair that decodes to it |
| `JavaLang.Utf16OfBmp` | src/main/java/com/redhat/cloud/policies/app/rest/UserConfigService.java:88 | a string of Basic Multilingual Plane characters is its own list of code units |
| `JavaLang.ReplaceAll` | src/main/java/com/redhat/cloud/policies/app/rest/UserConfigService.java:79-80 | `s.replace(t, r)` returns `s` unchanged when `t` does not occur in it; the lemmas below state the rest |
| `JavaLang.ReplaceAllKeepsPrefix` | src/main/java/com/redhat/cloud/policies/app/rest/UserConfigService.java:79-80 | until the output shows a character of a non-empty replacement, it is the input character for character |
| `JavaLang.ReplaceAllRemovesTarget` | src/main/java/com/redhat/cloud/policies/app/rest/UserConfigService.java:79-80 | when target and replacement are non-empty and share no character, no occurrence of the target is left |
| `JavaLang.ReplaceAllKeepsAbsent` | src/main/java/com/redhat/cloud/policies/app/rest/UserConfigService.java:80 | replacing a non-empty target with a non-empty text that shares no character with `u` does not create an occurrence of `u` in a string without one |
| `JavaLang.ReplaceAllSkipsPrefix` | src/main/java/com/redhat/cloud/policies/app/rest/UserConfigService.java:79 | text before the first character of the target passes through untouched and the scan continues after it |
| `JavaLang.ReplaceAllAtTarget` | src/main/java/com/redhat/cloud/policies/app/rest/UserConfigService.java:79 | an occurrence at the front is replaced and the scan resumes right after it (non-overlapping) |
| `Http.AddHeader` | src/main/java/com/redhat/cloud/custompolicies/app/rest/utils/PagingUtils.java:79-80 | `header(name, value)` appends the value to that header and leaves every other header as it was |
| `Http.ResponseBuilder.FromStatus` | src/main/java/com/redhat/cloud/custompolicies/app/rest/utils/PagingUtils.java:75 | `Response.status(s)` starts with status s, no headers, no media type and no entity |
| `Http.ResponseBuilder.WithEntity` | src/main/java/com/redhat/cloud/custompolicies/app/rest/utils/PagingUtils.java:77 | `Response.ok(e)` starts with status 200, entity e and no headers |
| `Http.ResponseBuilder.ServerError` | src/main/java/com/redhat/cloud/policies/app/rest/UserConfigService.java:92 | `Response.serverError()` starts with status 500, no headers and no entity |
| `Http.ResponseBuilder.Header` | src/main/java/com/redhat/cloud/custompolicies/app/rest/utils/PagingUtils.java:79 | adding a header changes only the headers, as `AddHeader` says |
| `Http.ResponseBuilder.Entity` | src/main/java/com/redhat/cloud/policies/app/rest/UserConfigService.java:93 | setting the entity changes only the entity |
| `Http.ResponseBuilder.Build` | src/main/java/com/redhat/cloud/policies/app/rest/UserConfigService.java:97 | `builder.build()` gives a response carrying exactly the builder's status, headers, media type and entity |
| `Http.ResponseBuilder.Type` | src/main/java/com/redhat/cloud/policies/app/rest/UserConfigService.java:68 | setting the media type changes only the media type |
| `Pagers.DefaultPager` | src/main/java/com/redhat/cloud/custompolicies/app/model/pager/Pager.java:25-30 | a pager built without setting anything has page 0 and itemsPerPage 10 |
| `Pagers.PagerBuilder.constructor` | src/main/java/com/redhat/cloud/custompolicies/app/model/pager/Pager.java:22 | a fresh builder has neither field set |
| `Pagers.PagerBuilder.Page` | src/main/java/com/redhat/cloud/custompolicies/app/model/pager/Pager.java:26-27 | setting the page marks it set with the given value and leaves the page size as it was |
| `Pagers.PagerBuilder.ItemsPerPage` | src/main/java/com/redhat/cloud/custompolicies/app/model/pager/Pager.java:29-30 | setting the page size marks it set with the given value and leaves the page as it was |
| `Pagers.BuildWithPageOnly` | src/main/java/com/redhat/cloud/custompolicies/app/model/pager/Pager.java:22-30 | setting only the page leaves itemsPerPage at its default 10 |
| `Pagers.BuildWithItemsPerPageOnly` | src/main/java/com/redhat/cloud/custompolicies/app/model/pager/Pager.java:22-30 | setting only the page size leaves page at its default 0 |
| `Pagers.BuildWithBoth` | src/main/java/com/redhat/cloud/custompolicies/app/model/pager/Pager.java:32-35 | setting both fields gives exactly the constructor's value, with no validation |
| `Pagers.PagerBuilder.Build` | src/main/java/com/redhat/cloud/custompolicies/app/model/pager/Pager.java:22-30 | `build()` uses each field's set value, and its `@Builder.Default` (0 or 10) for a field never set |
| `Pagers.BuildWithNothing` | src/main/java/com/redhat/cloud/custompolicies/app/model/pager/Pager.java:22-30 | a builder with nothing set builds the default pager |
| `PagingUtils.GetFirst` | src/main/java/com/redhat/cloud/custompolicies/app/rest/utils/PagingUtils.java:42 | `getFirst` yields the first value when the key has one, and nothing when it is absent or has no values |
| `PagingUtils.ExpectsIntMessage` | src/main/java/com/redhat/cloud/custompolicies/app/rest/utils/PagingUtils.java:47-51 | the message starts with the parameter name and ends with the offending value in square brackets |
| `PagingUtils.ReadParam` | src/main/java/com/redhat/cloud/custompolicies/app/rest/utils/PagingUtils.java:42-53 | one parameter succeeds exactly when its first value is absent or a valid int; absent gives the default, present gives the parsed value, and a malformed one fails with `ExpectsIntMessage` of its name and value |
| `PagingUtils.PagerFromQuery` | src/main/java/com/redhat/cloud/custompolicies/app/rest/utils/PagingUtils.java:35-69 | success exactly when both first values are absent or valid ints; each field is then its parsed value or its default; the first malformed parameter (page before pageSize) is the error |
| `PagingUtils.ExtractPager` | src/main/java/com/redhat/cloud/custompolicies/app/rest/utils/PagingUtils.java:35-69 | the builder-driven method returns exactly `PagerFromQuery` of the query |
| `PagingUtils.MalformedPageMessage` | src/main/java/com/redhat/cloud/custompolicies/app/rest/utils/PagingUtils.java:46-51 | a malformed first `page` value fails with exactly `"page expects an int but found [" + value + "]"` |
| `PagingUtils.MalformedPageSizeMessage` | src/main/java/com/redhat/cloud/custompolicies/app/rest/utils/PagingUtils.java:59-64 | a malformed first `pageSize` value, with `page` acceptable, fails with exactly `"pageSize expects an int but found [" + value + "]"` |
| `PagingUtils.NoParametersGiveDefaults` | src/main/java/com/redhat/cloud/custompolicies/app/rest/utils/PagingUtils.java:42-68 | an empty query gives `Pager(0, 10)` |
| `PagingUtils.OnlyFirstValuesMatter` | src/main/java/com/redhat/cloud/custompolicies/app/rest/utils/PagingUtils.java:42-55 | two queries with the same first values give the same result, whatever the later values |
| `PagingUtils.DecimalParametersRoundTrip` | src/main/java/com/redhat/cloud/custompolicies/app/rest/utils/PagingUtils.java:42-58 | any two ints, negative or zero included, written as first values of `page` and `pageSize` come back unchanged, whatever follows them |
| `PagingUtils.WordIsRejected` | src/main/java/com/redhat/cloud/custompolicies/app/rest/utils/PagingUtils.java:44-51 | `?page=abc` fails with `page expects an int but found [abc]` |
| `PagingUtils.PageCheckedFirst` | src/main/java/com/redhat/cloud/custompolicies/app/rest/utils/PagingUtils.java:42-66 | when both parameters are malformed the error names `page` |
| `PagingUtils.Page.IsEmpty` | src/main/java/com/redhat/cloud/custompolicies/app/rest/utils/PagingUtils.java:74 | `page.isEmpty()` holds exactly when the page has no items |
| `PagingUtils.PageResponse` | src/main/java/com/redhat/cloud/custompolicies/app/rest/utils/PagingUtils.java:71-84 | an empty page gives 204 with no headers and no entity; any other page gives 200 with the page as entity and exactly the headers `ETag` (one entity tag that parses back to the page hash) and `TotalCount` (one text that reads back as the total count), each the canonical decimal text of its number |
| `PagingUtils.PageResponseBuilder` | src/main/java/com/redhat/cloud/custompolicies/app/rest/utils/PagingUtils.java:71-84 | the builder the method returns builds exactly `PageResponse` of the page |
| `PagingUtils.PageHeadersDependOnHashAndCount` | src/main/java/com/redhat/cloud/custompolicies/app/rest/utils/PagingUtils.java:77-80 | two non-empty pages with equal hash and total count get the same status and headers, whatever their items |
| `PagingUtils.DifferentHashDifferentETag` | src/main/java/com/redhat/cloud/custompolicies/app/rest/utils/PagingUtils.java:78-79 | two non-empty pages with different hashes get different `ETag` headers |
| `UserPreferencesService.FlagText` | src/main/java/com/redhat/cloud/policies/app/rest/UserConfigService.java:51-52 | the flag text is `"true"` exactly when the flag is set, and `"false"` otherwise |
| `UserPreferencesService.FlagTextIsPlain` | src/main/java/com/redhat/cloud/policies/app/rest/UserConfigService.java:51-52 | both flag literals are non-empty and contain none of `%`, `1`, `2` |
| `UserPreferencesService.Rendered` | src/main/java/com/redhat/cloud/policies/app/rest/UserConfigService.java:78-86 | after replacing `%1` and then `%2`, neither placeholder is left, and a template without placeholders is unchanged |
| `UserPreferencesService.ReplaceAllOfPlain` | src/main/java/com/redhat/cloud/policies/app/rest/UserConfigService.java:79-80 | text without `%` is left alone by either replacement |
| `UserPreferencesService.ImmediatePass` | src/main/java/com/redhat/cloud/policies/app/rest/UserConfigService.java:79 | the `%1` pass over a two-slot template fills the first slot and leaves `%2` |
| `UserPreferencesService.DailyPass` | src/main/java/com/redhat/cloud/policies/app/rest/UserConfigService.java:80 | the `%2` pass fills the remaining slot |
| `UserPreferencesService.RenderedTwoSlots` | src/main/java/com/redhat/cloud/policies/app/rest/UserConfigService.java:78-86 | a template `a%1b%2c` with no other `%` renders to `a`, first flag, `b`, second flag, `c` |
| `UserPreferencesService.SettingsResponse` | src/main/java/com/redhat/cloud/policies/app/rest/UserConfigService.java:65-98 | 403 text/plain with the fixed message for a caller without permission; 500 with the exception's message and no ETag when the lookup throws; otherwise 200 with the rendered text (flags from the record, `false` for both without one), free of placeholders, and a single ETag that is the canonical decimal text of the text's `hashCode()` |
| `UserPreferencesService.ForbiddenIgnoresStore` | src/main/java/com/redhat/cloud/policies/app/rest/UserConfigService.java:67-69 | a caller without permission gets the same answer whatever the store holds |
| `UserPreferencesService.SameTextSameETag` | src/main/java/com/redhat/cloud/policies/app/rest/UserConfigService.java:87-89 | two successful answers with the same text are the same answer, ETag included |
| `UserPreferencesService.SettingsStore.constructor` | src/main/java/com/redhat/cloud/policies/app/rest/UserConfigService.java:77 | a new store holds the given records and fault and has made no lookups |
| `UserPreferencesService.SettingsStore.FindById` | src/main/java/com/redhat/cloud/policies/app/rest/UserConfigService.java:77 | a lookup yields the stored outcome for the id and counts one lookup |
| `UserPreferencesService.GetSettingsSchema` | src/main/java/com/redhat/cloud/policies/app/rest/UserConfigService.java:65-98 | the method's answer is exactly `SettingsResponse` for the caller, template and store; it makes one lookup for a permitted caller and none for a forbidden one |

## Left out

- `NotificationSystem`: a REST-client interface with no logic of its own.
- `Page`: reduced to its items and `getTotalCount()`; `isEmpty()` is taken
  to mean it has no items. `Page.hashCode()` is a parameter `pageHash`, so
  the model does not say that the `ETag` changes when a page's contents
  change.
- Unpaired surrogates: a Java `String` can hold them, but a Dafny `string`
  holds only Unicode scalar values. `JavaLang.Utf16`, `JavaLang.HashCode` and
  `JavaLang.ReplaceAll`, and with them the template and the query values,
  cover well-formed text only.
- JAX-RS internals: header serialisation (the quotes around an entity tag),
  media-type negotiation and the `@Produces`/`@Consumes` defaults. A response
  is a value with a status, headers, a media type and an entity.
- `RhIdPrincipal.canReadPolicies()` and `SettingsValues.findById`: these are
  collaborators, modelled as a `Principal` value and a `SettingsStore`
  object.
- The content of `settingsString`: it is not part of this model and is a
  parameter. A `null` template is not modelled; it would throw a
  `NullPointerException` inside the `try`.
- `e.getMessage()` may be `null` in Java. The model's failure message is
  always a string.
- Exceptions from anything other than the lookup: `String.replace`,
  `hashCode` and `new EntityTag` cannot throw on the non-null strings used.
- Logging, metrics annotations, CDI injection and the `@RequestScoped`
  lifecycle.
- `JavaLang.ParseInt`: ASCII digits only. Java also accepts other Unicode
  decimal digits through `Character.digit`.
- `JavaLang.ReplaceAll`: requires a non-empty target. Java's behaviour for an
  empty target is left out because the source only replaces `%1` and `%2`.
- `JavaLang.ReplaceAll`: works on characters rather than UTF-16 code units.
  The two agree for the placeholders here, which lie in the Basic
  Multilingual Plane.
