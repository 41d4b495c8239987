# svmeal-api core, modelled in Dafny

This project models the two pieces of logic at the centre of the svmeal API:

- **`DocumentMealPlanParser.convert`** turns a scraped weekly menu page into meal plans keyed by date. It walks day tabs 1 to 7 and stops at the first missing tab. It resolves a date for every day it visits. It builds one offer per menu item, with the description split on `<br>` and each piece trimmed. It stores each day's plan in a hash map, where a later day with the same date overwrites an earlier one. It returns `null` when nothing was stored.
- **`DefaultRestaurantService`** turns the vendor's restaurant search answer into the restaurant list:
  - it cuts the JSON payload out of the callback string, 36 characters from the front and 8 from the back;
  - it decodes the payload, and a decode failure becomes an `ExternalException`;
  - it keeps the entries whose link is non-empty and does not contain `sv-group`;
  - it upgrades each kept link from `http` to `https` in place;
  - `getRestaurantDtos` converts each kept entry, in order.

Files:

- `wrappers.dfy` (module `Wrappers`): `Option` and `Result`.
- `java_strings.dfy` (module `JavaStrings`): the `java.lang.String` operations the core uses: `contains`, `indexOf`, `trim`, and `split` with a literal separator and limit 0, which drops trailing empty pieces. It also has ASCII lower-casing.
- `java_url.dfy` (module `JavaUrl`): how the `java.net.URL` constructor finds the protocol of an absolute URL string. It ignores characters `<= ' '` at both ends. It skips an optional `url:`. A leading `#` means there is no protocol. The protocol is the text before the first `:` when no `/` comes before that `:`. It is lower-cased, and it must be a well-formed scheme name.
- `meal_plan_parser.dfy` (module `MealPlanParser`):
  - the page model;
  - `Convert`, the loop of `convert`, proved equal to the specification function `Extract`;
  - lemmas about `Extract`.
- `restaurant_service.dfy` (module `RestaurantService`):
  - `SvRestaurant` is a class with a mutable `link`;
  - the upgrade is a method that changes one entry in place;
  - `GetRestaurants` and `GetRestaurantDtos` are methods over the decoded entries;
  - the filter and the upgrade each have a specification function, with lemmas about them.

Collaborators are function parameters:

- `resolve` stands for the date resolver `DateUtil.tryParseDateFromRange`.
- `toPrice` stands for the price conversion.
- `parse` stands for the Jackson decoder.
- `convert` stands for the DTO conversion.
- `rejects` stands for the checks `new URL` makes once it has found the protocol: a known handler, and an authority it accepts.

## Model

| member | source | states |
|---|---|---|
| MealPlanParser.Convert | src/main/java/nu/peg/svmeal/converter/DocumentMealPlanParser.java:39-81 | the loop over day offsets 0..6 with its break on a missing tab computes exactly `Extract`: the plans of the visited days stored in visit order, or None when none was stored |
| MealPlanParser.DaysPresent | src/main/java/nu/peg/svmeal/converter/DocumentMealPlanParser.java:47-51 | the number of days visited is at most 7, tabs 1..k are all present, and tab k+1 is missing unless k is 7 |
| MealPlanParser.ContiguousFrom | src/main/java/nu/peg/svmeal/converter/DocumentMealPlanParser.java:47-51 | counting on from a present tab, the run of present tabs ends at 7 or just before a missing tab |
| MealPlanParser.DaysPresentUnique | src/main/java/nu/peg/svmeal/converter/DocumentMealPlanParser.java:47-51 | those three properties determine the number of visited days |
| MealPlanParser.Trimmings | src/main/java/nu/peg/svmeal/converter/DocumentMealPlanParser.java:62-65 | one trimming per `<br>` fragment, each the trimmed fragment, none containing `<br>`, and none starting or ending with a character <= ' ' |
| MealPlanParser.Offers | src/main/java/nu/peg/svmeal/converter/DocumentMealPlanParser.java:55-71 | one offer per item block, in page order, each built from its own block |
| MealPlanParser.PlansThroughKeys | src/main/java/nu/peg/svmeal/converter/DocumentMealPlanParser.java:53-73 | after k days, the keys are exactly the dates resolved for offsets 0..k-1, and there are at most k of them |
| MealPlanParser.UnresolvedDateAbsent | src/main/java/nu/peg/svmeal/converter/DocumentMealPlanParser.java:73 | a date that no visited offset resolves to is not a key |
| MealPlanParser.PlansThroughDistinct | src/main/java/nu/peg/svmeal/converter/DocumentMealPlanParser.java:73 | when k offsets resolve to k different dates, the map holds k plans |
| MealPlanParser.PlanDateIsKey | src/main/java/nu/peg/svmeal/converter/DocumentMealPlanParser.java:73 | every stored plan carries the date it is stored under |
| MealPlanParser.LastWriteWins | src/main/java/nu/peg/svmeal/converter/DocumentMealPlanParser.java:73 | under the date of day d is day d's plan when no later visited day resolves to that date (last write wins) |
| MealPlanParser.NullIffFirstTabMissing | src/main/java/nu/peg/svmeal/converter/DocumentMealPlanParser.java:47-80 | the result is null exactly when tab 1 is missing; otherwise it holds between 1 and 7 plans |
| MealPlanParser.ResultKeys | src/main/java/nu/peg/svmeal/converter/DocumentMealPlanParser.java:47-80 | the result's keys are exactly the dates of the visited days; there are at most as many keys as days, and exactly as many when those dates differ |
| MealPlanParser.ResultPlan | src/main/java/nu/peg/svmeal/converter/DocumentMealPlanParser.java:53-73 | for a visited day with no later duplicate date, the result maps its date to that day's plan: its date, and one offer per item block, in order (an empty tab gives an empty plan) |
| MealPlanParser.OnlyVisitedTabsMatter | src/main/java/nu/peg/svmeal/converter/DocumentMealPlanParser.java:47-51 | two pages that agree on the labels and on tabs up to the first gap (at most 7) give the same result, whatever comes later |
| MealPlanParser.PlansAgree | src/main/java/nu/peg/svmeal/converter/DocumentMealPlanParser.java:47-73 | pages that agree on tabs 1..k build the same map over k days |
| MealPlanParser.TrimmingsWithoutBreak | src/main/java/nu/peg/svmeal/converter/DocumentMealPlanParser.java:63-64 | a description without `<br>` gives the single trimming `trim(description)` |
| MealPlanParser.FragmentsRejoin | src/main/java/nu/peg/svmeal/converter/DocumentMealPlanParser.java:63 | a description not ending in `<br>` is its fragments joined back with `<br>` |
| MealPlanParser.BlankFragmentKept | src/main/java/nu/peg/svmeal/converter/DocumentMealPlanParser.java:63-64 | a fragment of blanks only is kept, as "" (no filtering after the trim) |
| MealPlanParser.FragmentsExample | src/main/java/nu/peg/svmeal/converter/DocumentMealPlanParser.java:63 | `" A <br> B "` splits into `" A "` and `" B "` |
| MealPlanParser.TrimmingsExample | src/main/java/nu/peg/svmeal/converter/DocumentMealPlanParser.java:62-65 | `" A <br> B "` gives the trimmings `["A", "B"]` |
| JavaStrings.IndexOf | src/main/java/nu/peg/svmeal/converter/DocumentMealPlanParser.java:63 | `indexOf` has no value exactly when there is no occurrence; otherwise the value is the first occurrence |
| JavaStrings.Trim | src/main/java/nu/peg/svmeal/converter/DocumentMealPlanParser.java:64 | `trim` removes exactly the characters <= ' ' at both ends: the string is blanks + result + blanks, and the result has no blank at either end |
| JavaStrings.TrimLacks | src/main/java/nu/peg/svmeal/converter/DocumentMealPlanParser.java:63-64 | trimming brings in no new occurrence of a pattern |
| JavaStrings.TrimBlank | src/main/java/nu/peg/svmeal/converter/DocumentMealPlanParser.java:64 | a string trims to "" exactly when all its characters are <= ' ' |
| JavaStrings.Pieces | src/main/java/nu/peg/svmeal/converter/DocumentMealPlanParser.java:63 | the pieces between the separator occurrences found left to right: at least one piece, and none contains the separator |
| JavaStrings.JoinPieces | src/main/java/nu/peg/svmeal/converter/DocumentMealPlanParser.java:63 | joining the pieces with the separator gives the string back |
| JavaStrings.DropTrailingEmpty | src/main/java/nu/peg/svmeal/converter/DocumentMealPlanParser.java:63 | split's limit 0: a prefix of the pieces, dropping only empty ones, and not ending with an empty one |
| JavaStrings.Split | src/main/java/nu/peg/svmeal/converter/DocumentMealPlanParser.java:63 | no element of `split` contains the separator |
| JavaStrings.SplitShape | src/main/java/nu/peg/svmeal/converter/DocumentMealPlanParser.java:63 | without a match, `split` gives `[s]`; with one, it gives the pieces up to the last non-empty one |
| JavaStrings.EmptyLastPiece | src/main/java/nu/peg/svmeal/converter/DocumentMealPlanParser.java:63 | an empty last piece after a match means the string ends with the separator |
| JavaStrings.SplitJoin | src/main/java/nu/peg/svmeal/converter/DocumentMealPlanParser.java:63 | a string not ending with the separator is rebuilt by joining its split |
| JavaUrl.SchemeColon | src/main/java/nu/peg/svmeal/service/internal/DefaultRestaurantService.java:94 | the protocol's ':' is the first ':' with no '/' before it; when none is found, every ':' before the limit has a '/' before it |
| JavaUrl.FirstColon | src/main/java/nu/peg/svmeal/service/internal/DefaultRestaurantService.java:94 | a ':' with no ':' or '/' before it is the one the scan finds |
| JavaUrl.SchemeOf | src/main/java/nu/peg/svmeal/service/internal/DefaultRestaurantService.java:94-96 | a protocol that `new URL` finds is a well-formed scheme name; it is the lower-cased text from the scan start, and a ':' follows it (the converse, that such a name before its ':' is always found, is SchemeOfPrefixed) |
| JavaUrl.SchemeOfPrefixed | src/main/java/nu/peg/svmeal/service/internal/DefaultRestaurantService.java:94-96 | for every string made of blanks, a well-formed scheme name in any case other than "url", ':' and anything after it, the protocol is that name lower-cased |
| JavaUrl.PrefixedScanStart | src/main/java/nu/peg/svmeal/service/internal/DefaultRestaurantService.java:94 | for such a string, the scan starts at the scheme name: the blanks are skipped and no "url:" prefix is seen |
| JavaUrl.PrefixedColon | src/main/java/nu/peg/svmeal/service/internal/DefaultRestaurantService.java:94 | for such a string, the scan stops at the ':' right after the scheme name |
| JavaUrl.NotUrlPrefix | src/main/java/nu/peg/svmeal/service/internal/DefaultRestaurantService.java:94 | text starting with a well-formed scheme other than "url" and its ':' does not start with "url:" |
| JavaUrl.HttpSchemeOf | src/main/java/nu/peg/svmeal/service/internal/DefaultRestaurantService.java:94-96 | "http" in any case, followed by ':' and anything, has protocol "http" |
| JavaUrl.HttpsPrefixIsNotHttp | src/main/java/nu/peg/svmeal/service/internal/DefaultRestaurantService.java:96-97 | a link starting with "https" never has protocol "http", so an upgraded link is not upgraded again |
| JavaUrl.HttpSchemeFifthChar | src/main/java/nu/peg/svmeal/service/internal/DefaultRestaurantService.java:96-97 | when the protocol is "http", index 4 of the link is a blank or a character of "url:http", so `substring(4)` cuts inside that region |
| JavaUrl.PlainHttpScheme | src/main/java/nu/peg/svmeal/service/internal/DefaultRestaurantService.java:94-96 | `http://y` has protocol "http" |
| JavaUrl.BlankHttpScheme | src/main/java/nu/peg/svmeal/service/internal/DefaultRestaurantService.java:94-96 | a leading blank is skipped: ` http://y` has protocol "http" |
| JavaUrl.NoColonNoScheme | src/main/java/nu/peg/svmeal/service/internal/DefaultRestaurantService.java:94-99 | `not a url` has no protocol, so `new URL` throws MalformedURLException |
| RestaurantService.Substring | src/main/java/nu/peg/svmeal/service/internal/DefaultRestaurantService.java:68 | `substring(b, e)` succeeds exactly when 0 <= b <= e <= length, with the string being prefix + result + suffix; otherwise it fails with an index fault |
| RestaurantService.UnwrapCallback | src/main/java/nu/peg/svmeal/service/internal/DefaultRestaurantService.java:67-68 | unwrapping succeeds exactly on strings of at least 44 characters; then the string is its first 36 characters + payload + its last 8 characters |
| RestaurantService.KeptIndices | src/main/java/nu/peg/svmeal/service/internal/DefaultRestaurantService.java:78 | every kept position holds a non-empty link without "sv-group" |
| RestaurantService.KeptIndicesIncreasing | src/main/java/nu/peg/svmeal/service/internal/DefaultRestaurantService.java:77-80 | kept positions come in strictly increasing order, so the stream's order is preserved |
| RestaurantService.KeptIndicesComplete | src/main/java/nu/peg/svmeal/service/internal/DefaultRestaurantService.java:78 | every listed position is kept (with KeptIndices: kept exactly when listed) |
| RestaurantService.KeptBelowAgree | src/main/java/nu/peg/svmeal/service/internal/DefaultRestaurantService.java:78 | the kept positions below n depend only on the first n links |
| RestaurantService.UpgradedLinkChange | src/main/java/nu/peg/svmeal/service/internal/DefaultRestaurantService.java:92-102 | the link changes exactly when `new URL(link)` succeeds with protocol "http"; then it becomes "https" followed by the link from index 4 on, one character longer |
| RestaurantService.HttpLinkUpgraded | src/main/java/nu/peg/svmeal/service/internal/DefaultRestaurantService.java:92-102 | for every link `p + ":" + rest` with `p` equal to "http" in any case that `new URL` accepts, the upgraded link is `"https:" + rest` |
| RestaurantService.UpgradedLacksMarkerAt | src/main/java/nu/peg/svmeal/service/internal/DefaultRestaurantService.java:78-79 | no "sv-group" starts at any index of the rewritten form of a listed http link |
| RestaurantService.UpgradeIdempotent | src/main/java/nu/peg/svmeal/service/internal/DefaultRestaurantService.java:92-102 | upgrading twice is upgrading once |
| RestaurantService.UpgradeKeepsListed | src/main/java/nu/peg/svmeal/service/internal/DefaultRestaurantService.java:78-79 | an upgraded listed link is still listed: the rewrite brings in no "sv-group" |
| RestaurantService.UpgradeRestaurantLinkToHttps | src/main/java/nu/peg/svmeal/service/internal/DefaultRestaurantService.java:92-102 | the entry's link becomes its upgraded link and nothing else changes; a malformed URL leaves it as it was |
| RestaurantService.NormalizedSelects | src/main/java/nu/peg/svmeal/service/internal/DefaultRestaurantService.java:77-80 | the pipeline's result is, position by position, the listed records in order with upgraded links, all still listed |
| RestaurantService.KeptOfAfterPass | src/main/java/nu/peg/svmeal/service/internal/DefaultRestaurantService.java:77-80 | the records at the listed positions, read after the pass, are the pipeline's result |
| RestaurantService.RetainAndUpgrade | src/main/java/nu/peg/svmeal/service/internal/DefaultRestaurantService.java:77-80 | the returned entries are the listed entries, the same objects in the same order; listed entries now carry upgraded links; the other entries are unchanged; every returned link is listed |
| RestaurantService.GetRestaurants | src/main/java/nu/peg/svmeal/service/internal/DefaultRestaurantService.java:55-81 | a too-short callback fails with the index fault; a payload that does not decode fails with ExternalException("Failed to parse restaurant search response"); it succeeds exactly when the payload decodes, and then returns the filtered, upgraded entries |
| RestaurantService.ConvertAll | src/main/java/nu/peg/svmeal/service/internal/DefaultRestaurantService.java:87-89 | one converted value per entry, in order |
| RestaurantService.GetRestaurantDtos | src/main/java/nu/peg/svmeal/service/internal/DefaultRestaurantService.java:86-90 | it fails as getRestaurants does; otherwise it returns the converted values of the normalized entries, in order, and leaves the decoded entries as getRestaurants does: listed ones upgraded, the others unchanged |
| RestaurantService.PlainLinkListed | src/main/java/nu/peg/svmeal/service/internal/DefaultRestaurantService.java:78 | `http://y` passes the filter |
| RestaurantService.FilterExample | src/main/java/nu/peg/svmeal/service/internal/DefaultRestaurantService.java:78 | of `""`, `http://x.sv-group.ch` and `http://y`, only the third is kept |
| RestaurantService.UpgradeExamples | src/main/java/nu/peg/svmeal/service/internal/DefaultRestaurantService.java:92-102 | `http://y` becomes `https://y` when `new URL` accepts it (`!rejects("http://y")`); `https://y` and `not a url` are unchanged |
| RestaurantService.UpgradeLeadingBlank | src/main/java/nu/peg/svmeal/service/internal/DefaultRestaurantService.java:94-97 | as written, ` http://y` becomes `httpsp://y`: `new URL` skips the blank but `substring(4)` does not |

## Behaviour of the code worth noting

- For a callback string shorter than 44 characters, `substring` at DefaultRestaurantService.java:68 throws `StringIndexOutOfBoundsException`. The `catch` at line 73 does not cover it. The model returns a separate `StringIndexOutOfBounds` failure, not `ExternalException`.
- `String.split` at DocumentMealPlanParser.java:63 uses limit 0, which drops trailing empty fragments, so `"A<br>"` gives `["A"]`. Leading and inner empty fragments, and fragments of blanks only, are kept.
- `DateUtil.tryParseDateFromRange` may return `null`, and the `HashMap` at DocumentMealPlanParser.java:73 stores a plan under the `null` key. The model keeps a `None` key.

## Left out

- The HTTP request at DefaultRestaurantService.java:56-65 is left out. The model starts from the callback string.
- The form data and `HttpUtil` are left out for the same reason.
- A null body or null envelope fields, which would throw `NullPointerException`, are not modelled.
- Caching (`@Cacheable`) and the circuit breaker are left out. They wrap the operations but do not change what a successful call returns.
- `getRestaurantDtos` calls `getRestaurants` on `this`, which bypasses the cache proxy. This is not modelled.
- Logging is not modelled.
- Jackson decoding is the `parse` parameter.
- A payload that decodes to `null`, or to an object whose `list` is `null`, makes `getList().stream()` at DefaultRestaurantService.java:77 throw `NullPointerException`. This is not modelled: `parse` yields either no value, which is a decode failure, or a list.
- A null `link` field, which would throw `NullPointerException` in the filter, is not modelled: links are strings.
- JavaUrl.Protocol: the checks `new URL` makes after finding the protocol are the `rejects` parameter. These are the handler lookup (`unknown protocol`) and the authority and port parsing. The `URLStreamHandler` code is not part of this model.
- JavaUrl.SchemeOf: accepts only ASCII letters in the scheme and lower-cases only ASCII. Java's `Character.isLetter`/`isLetterOrDigit` and `toLowerCase` also accept non-ASCII letters. Such a scheme never equals "http", so the upgrade does the same thing either way.
- JavaStrings: a Dafny `char` is a Unicode scalar value, while Java's `length()`, `substring` and `charAt` count UTF-16 code units. The two differ for characters outside the Basic Multilingual Plane. For example, a callback of at least 44 code units but fewer than 44 scalar values unwraps in Java but gives `StringIndexOutOfBounds` in the model, and its 36/8 cut falls at different places. Lone surrogates, which Java strings can hold, cannot be written as Dafny strings.
- jsoup is not part of this model. The page is reduced to the date-label texts and the item blocks under each present `#menu-plan-tabN`. The text extraction of `.menu-title`, `.menu-provenance` and the `.menu-description` inner HTML is taken as given.
- `DateUtil.tryParseDateFromRange` is the `resolve` parameter.
- The `ConversionService` calls are the `toPrice` and `convert` parameters.
- Exceptions thrown by any of these collaborators are not modelled.
- RestaurantService.RetainAndUpgrade: the stream runs the filter and the upgrade entry by entry, while the method filters first and then upgrades all kept entries in one aggregate update. The final state and result are the same for two reasons:
  - an entry is kept exactly when its own link is listed (KeptIndices and KeptIndicesComplete);
  - an entry holding several list positions is upgraded only once. That is the same because an upgraded listed link stays listed (UpgradeKeepsListed) and upgrading again changes nothing (UpgradeIdempotent).

  UpgradeRestaurantLinkToHttps models the per-entry rewrite on its own.
- RestaurantService.SvRestaurant: the fields other than `link` are one `attributes` map, and `name` and `attributes` are constants. The service never assigns them.
