# Coverity plugin: version numbers and the views client, in Dafny

This project models two parts of the Coverity build plugin and proves
properties of them:

- **`CoverityVersion`** is the value type for vendor version numbers
  `major.minor.patch[.hotfix]`. The model covers the constants
  (`VERSION_INDIO`, `VERSION_JASPER`, `MINIMUM_SUPPORTED_VERSION`), both
  constructors, the three-valued `compareTo`, field-wise `equals` and its
  `hashCode`, the major/minor-only `compareToAnalysis`, `toString`, and `parse`.
  `parse` is written as an explicit scanner over `seq<char>` (module
  `VersionParser`). It is proved equal to a declarative reading of the
  pattern `(\d+)\.(\d+)\.(\d+)(?:\.(\d+))?|(\d\d\d\d)\.(\d\d)` under
  `Matcher.find`:
  - the leftmost start position wins;
  - at each position the first alternative is tried before the second;
  - every `\d+` is greedy;
  - the optional `.hotfix` is taken when a dot and a digit follow;
  - `\d\d` takes exactly two digits, and nothing is required after them.
- **`ViewsService`** is the client of the Coverity Connect views JSON API.
  Only its decision logic is modelled, as pure functions:
  - the session bootstrap in the constructor;
  - the filter and fallbacks of `getViews`;
  - the request shape and outcome policy of `getViewContents`.

  The HTTP transport is a parameter `server: Request -> Response`. The JSON
  parser is a parameter that returns `None` where json-simple throws
  `ParseException`. A base URL that does not convert to a URI
  (`URISyntaxException`) is the client's `baseUri == None`.

Files:
- `wrappers.dfy` holds `Option` and `Result`.
- `decimal.dfy` holds digit strings, `Integer.parseInt` on digit runs, and
  Java's printing of an `int`.
- `version.dfy` is module `CoverityVersion`.
- `version_parser.dfy` holds `VersionParser`, plus the round-trip and
  `YYYY.MM` lemmas and worked examples.
- `http.dfy` holds the request, response, cookie and JSON values.
- `views_service.dfy` is module `ViewsService` and its properties.

Two facts about the client's code that the model keeps:
- The contents endpoint is `api/viewContents/issues/v1/<view>`
  (`ViewsService.java:110`).
- When the base URL does not convert to a URI, the constructor catches the
  `URISyntaxException` and leaves the session **null**
  (`ViewsService.java:63-67`). `ViewsServiceProperties.ConstructedNeverNullSession`
  proves that this null is never dereferenced: the same URI conversion fails
  first in `getViewContents`, which then returns the empty page.

`getViews` reads the body with the typed `get(String.class)`. By the JAX-RS
`SyncInvoker` contract, that call raises `WebApplicationException` for a
status outside 2xx. The model states this as `Failure(ReadFailed(status))`;
in the model's `GetViews` it is the only failure.

## Model

| member | source | states |
|---|---|---|
| CoverityVersion.OfMajorMinor | src/main/java/jenkins/plugins/coverity/CoverityVersion.java:43-48 | the two-argument constructor keeps major and minor and sets patch and hotfix to 0 |
| CoverityVersion.Cmp | src/main/java/jenkins/plugins/coverity/CoverityVersion.java:112-114 | returns only -1, 0 or 1; negative exactly when a < b, zero exactly when a == b |
| CoverityVersion.LexLessFields | src/main/java/jenkins/plugins/coverity/CoverityVersion.java:80-95 | the reference order (lexicographic order on the component sequence) holds exactly when the first differing component, in the order major, minor, patch, hotfix, is smaller |
| CoverityVersion.CompareTo | src/main/java/jenkins/plugins/coverity/CoverityVersion.java:80-95 | returns only -1, 0 or 1; 0 exactly for equal versions; negative exactly when the component sequence is lexicographically smaller, positive exactly when larger |
| CoverityVersion.CompareToAntisymmetric | src/main/java/jenkins/plugins/coverity/CoverityVersion.java:80-95 | compareTo(a, b) == -compareTo(b, a) |
| CoverityVersion.CompareToTransitive | src/main/java/jenkins/plugins/coverity/CoverityVersion.java:80-95 | a ≤ b and b ≤ c give a ≤ c, and a result of 0 then forces a == b == c |
| CoverityVersion.CompareToTotalOrder | src/main/java/jenkins/plugins/coverity/CoverityVersion.java:80-95 | `compareTo <= 0` is reflexive, total, antisymmetric and transitive |
| CoverityVersion.LexLessTransitive | src/main/java/jenkins/plugins/coverity/CoverityVersion.java:80-95 | the lexicographic reference order is transitive (by induction on the sequences) |
| CoverityVersion.LexLessTrichotomy | src/main/java/jenkins/plugins/coverity/CoverityVersion.java:80-95 | any two equal-length component sequences are equal or ordered one way or the other |
| CoverityVersion.LexLessAsymmetric | src/main/java/jenkins/plugins/coverity/CoverityVersion.java:80-95 | the reference order never holds both ways |
| CoverityVersion.LexLessIrreflexive | src/main/java/jenkins/plugins/coverity/CoverityVersion.java:80-95 | no version is below itself in the reference order |
| CoverityVersion.Equals | src/main/java/jenkins/plugins/coverity/CoverityVersion.java:117-140 | field-wise equality holds exactly when the versions are equal, and exactly when compareTo returns 0 |
| CoverityVersion.Wrap32 | src/main/java/jenkins/plugins/coverity/CoverityVersion.java:143-149 | Java `int` arithmetic: the result lies in [-2^31, 2^31) and is congruent to the exact value modulo 2^32 |
| CoverityVersion.HashCode | src/main/java/jenkins/plugins/coverity/CoverityVersion.java:142-150 | the stepwise wrapping hash is a Java `int` and equals the 32-bit wrap of 28629151 + 29791·major + 961·minor + 31·patch + hotfix |
| CoverityVersion.HashStepCongruent | src/main/java/jenkins/plugins/coverity/CoverityVersion.java:145-148 | one `31 * result + c` step on a wrapped accumulator agrees with the wrap of the exact step |
| CoverityVersion.EqualsImpliesEqualHash | src/main/java/jenkins/plugins/coverity/CoverityVersion.java:117-150 | versions that are `equals` have equal `hashCode` |
| CoverityVersion.CompareToAnalysis | src/main/java/jenkins/plugins/coverity/CoverityVersion.java:104-110 | true exactly when (major, minor) is at least the argument's (major, minor), i.e. compareTo of the two-component versions is ≥ 0 |
| CoverityVersion.CompareToAnalysisReflexive | src/main/java/jenkins/plugins/coverity/CoverityVersion.java:104-110 | every version passes the check against itself |
| CoverityVersion.CompareToAnalysisWeakerThanCompareTo | src/main/java/jenkins/plugins/coverity/CoverityVersion.java:80-110 | compareTo ≥ 0 implies the check, and changing patch or hotfix on either side never changes it |
| CoverityVersion.CompareToAnalysisTransitive | src/main/java/jenkins/plugins/coverity/CoverityVersion.java:104-110 | the check is transitive |
| CoverityVersion.MinimumSupportedBelowJasper | src/main/java/jenkins/plugins/coverity/CoverityVersion.java:23-26 | the minimum supported version is Indio 7.7.0.0, strictly below Jasper 8.0.0.0 in both compareTo and the analysis check |
| CoverityVersion.ToString | src/main/java/jenkins/plugins/coverity/CoverityVersion.java:76-78 | split at its dots, the text is exactly the decimal forms of major, minor and patch, then of hotfix exactly when hotfix > 0; it has two dots, three when hotfix > 0 |
| VersionParser.DigitRun | src/main/java/jenkins/plugins/coverity/CoverityVersion.java:29 | a greedy `\d+`: the run from i is all digits and is followed by a non-digit or the end |
| VersionParser.FirstFormPositions | src/main/java/jenkins/plugins/coverity/CoverityVersion.java:29 | the greedy scan finds the two dots and patch end exactly when the first alternative can match at i |
| VersionParser.Hotfix | src/main/java/jenkins/plugins/coverity/CoverityVersion.java:68-73 | the optional fourth group reads as the value of the greedy digit run after a dot, and as 0 when absent |
| VersionParser.FirstFormCorrect | src/main/java/jenkins/plugins/coverity/CoverityVersion.java:29 | the scanner's first alternative succeeds exactly when the pattern's first alternative can match, and then yields the version the match denotes |
| VersionParser.MatchAtCorrect | src/main/java/jenkins/plugins/coverity/CoverityVersion.java:56-61 | a match attempt at i succeeds exactly when either alternative can match there, and its version is the first alternative's when that one matches, else `(YYYY, MM, 0, 0)` |
| VersionParser.FindCorrect | src/main/java/jenkins/plugins/coverity/CoverityVersion.java:51-54 | the search from i finds nothing exactly when no position from i on matches; otherwise it reads the leftmost matching position |
| VersionParser.ParseCorrect | src/main/java/jenkins/plugins/coverity/CoverityVersion.java:50-63 | parse is null exactly when no position of the input matches either form; otherwise it is what the leftmost match denotes |
| VersionParser.Parse | src/main/java/jenkins/plugins/coverity/CoverityVersion.java:50-63 | a parsed version never has a negative component |
| VersionParser.ReadsAtIff | src/main/java/jenkins/plugins/coverity/CoverityVersion.java:29-61 | the declarative reading at a position denotes v exactly when the scanner yields v there, so the pattern determines the version |
| VersionParser.FirstFormReadsDetermined | src/main/java/jenkins/plugins/coverity/CoverityVersion.java:29 | any version a first-form match denotes is the one the scanner produces |
| VersionParser.RunEnd | src/main/java/jenkins/plugins/coverity/CoverityVersion.java:29 | a digit run that stops at a non-digit is the greedy run |
| VersionParser.FirstFormShapeGreedy | src/main/java/jenkins/plugins/coverity/CoverityVersion.java:29 | in any match of the first alternative the two dots and the end of the patch run sit exactly where the greedy digit runs stop |
| VersionParser.HotfixUnique | src/main/java/jenkins/plugins/coverity/CoverityVersion.java:29 | the optional `.hotfix` group reads as at most one value |
| VersionRoundTrip.ThreeRunsShape | src/main/java/jenkins/plugins/coverity/CoverityVersion.java:29 | text `a.b.c` followed by nothing or a dot matches the first alternative at 0, with runs a, b and c read as their decimal values |
| VersionRoundTrip.ParseToString | src/main/java/jenkins/plugins/coverity/CoverityVersion.java:50-78 | parse(toString(v)) == v for every version with non-negative components |
| VersionYearMonth.ParseYearMonth | src/main/java/jenkins/plugins/coverity/CoverityVersion.java:56-58 | non-digit text followed by `YYYY.MM` parses to (YYYY, MM, 0, 0) |
| VersionYearMonth.NoMatchAtNonDigit | src/main/java/jenkins/plugins/coverity/CoverityVersion.java:29 | no match of either form starts at a non-digit |
| VersionParserExamples.ExampleYearMonth | src/main/java/jenkins/plugins/coverity/CoverityVersion.java:56-58 | `v2019.03` parses to 2019.3.0.0 |
| VersionParserExamples.ExampleNone | src/main/java/jenkins/plugins/coverity/CoverityVersion.java:52-54 | `1.2` matches neither form and parses to null |
| VersionParserExamples.ExampleFull | src/main/java/jenkins/plugins/coverity/CoverityVersion.java:60-61 | `8.7.0.1` parses to 8.7.0.1 |
| ViewsService.Construct | src/main/java/jenkins/plugins/coverity/ws/ViewsService.java:44-68 | bootstrap raises exactly for a status other than 200; the session is the response's cookies, or the empty map when they are null; a bad base URI leaves it null; every constructed client is `Valid` |
| ViewsService.IssueViews | src/main/java/jenkins/plugins/coverity/ws/ViewsService.java:91-102 | the keys are exactly the ids of entries of type `issues` with non-null id and name, and each id maps to the name of the last such entry with that id |
| ViewsService.ListsIssueViewsAdd | src/main/java/jenkins/plugins/coverity/ws/ViewsService.java:95-100 | putting a qualifying entry's id and name into a correct listing of the entries before it gives a correct listing of them all |
| ViewsService.ListsIssueViewsSkip | src/main/java/jenkins/plugins/coverity/ws/ViewsService.java:95-98 | an entry that is not an issue view, or lacks an id or a name, leaves a correct listing correct |
| ViewsService.GetViews | src/main/java/jenkins/plugins/coverity/ws/ViewsService.java:72-105 | a bad base URI or a parse failure gives the empty map; a non-2xx read raises; otherwise the result is the filtered listing |
| ViewsService.SessionCookies | src/main/java/jenkins/plugins/coverity/ws/ViewsService.java:123-127 | every cookie of the session is attached, and only session cookies are |
| ViewsService.StatusMessage | src/main/java/jenkins/plugins/coverity/ws/ViewsService.java:131-135 | the error message contains the request URI and the status code and ends with the response body |
| ViewsService.GetViewContents | src/main/java/jenkins/plugins/coverity/ws/ViewsService.java:107-147 | a bad base URI gives the empty page; a status other than 200 raises with the status message; a parse failure gives the empty page; otherwise the `viewContentsV1` member is returned unchanged |
| ViewsServiceProperties.ContentsQueryText | src/main/java/jenkins/plugins/coverity/ws/ViewsService.java:109-116 | the request URI is the base, the path `api/viewContents/issues/v1/<view>` and the query `projectId=…&rowCount=<pageSize>&offset=<offset>` |
| ViewsServiceProperties.ContentsRequestShape | src/main/java/jenkins/plugins/coverity/ws/ViewsService.java:109-127 | the request carries projectId, rowCount = pageSize and offset as query parameters and attaches exactly the session's cookies |
| ViewsServiceProperties.ListingUnauthenticated | src/main/java/jenkins/plugins/coverity/ws/ViewsService.java:77-82 | the listing request goes to `api/views/v1` and carries no cookies |
| ViewsServiceProperties.ConstructedNeverNullSession | src/main/java/jenkins/plugins/coverity/ws/ViewsService.java:63-67 | on a constructed client, getViewContents never dereferences a null session |
| ViewsServiceProperties.GetViewsRaisesOnlyOnStatus | src/main/java/jenkins/plugins/coverity/ws/ViewsService.java:76-89 | getViews raises only when the base URI is usable and the read meets a non-2xx status |
| ViewsServiceProperties.ListViewsExample | src/main/java/jenkins/plugins/coverity/ws/ViewsService.java:91-102 | entries (1, X, issues), (2, Y, project), (3, null, issues) give exactly {1: X} |
| ViewsServiceProperties.ListViewsLaterWins | src/main/java/jenkins/plugins/coverity/ws/ViewsService.java:98-100 | of two issue views with the same id, the later name is kept |
| ViewsServiceProperties.ContentsRequestExample | src/main/java/jenkins/plugins/coverity/ws/ViewsService.java:109-114 | project p1, view v, 50 rows from 100 give the path `api/viewContents/issues/v1/v` and the query `projectId=p1&rowCount=50&offset=100` |
| ViewsServiceProperties.ContentsPassThrough | src/main/java/jenkins/plugins/coverity/ws/ViewsService.java:137-141 | a 200 response whose body parses to `{"viewContentsV1": payload}` yields exactly `payload` |

## Left out

- `CoverityMailSender.java`: it is HTML assembly over Jenkins and javax.mail objects. Its only logic is formatting and address checks done by libraries outside this model.
- The HTTP client, `UriBuilder` and json-simple are not modelled. Their outcomes are inputs: the transport is a function, the parser returns `None` for `ParseException`, and a bad base URL is `baseUri == None`. The model renders URIs as base, `/`, path, then `?` and the query, without percent-encoding or slash normalisation.
- Transport failures are not modelled. Every request (`ViewsService.java:58`, `:82`, `:129`) can throw `ProcessingException` when the connection itself fails, and it passes out of the constructor, `getViews` and `getViewContents` because only `ParseException` and `URISyntaxException` are caught. The model's `server: Request -> Response` always answers.
- Logging (`java.util.logging`) has no effect on results and is not modelled.
- Crashes on a malformed JSON shape are not modelled. In `getViews` these are a missing `views` key, a non-object entry, or a `type` that is not a string, an `id` that is not a `Long`, or a `name` that is not a string (the `(String)` cast at `ViewsService.java:97`). In `getViewContents` they are a body that is not an object, or a `viewContentsV1` that is not an object. These raise `NullPointerException` or `ClassCastException`. The model takes view entries as records with optional fields and the contents payload as any JSON value.
- `UriBuilder.path(null)` raises `IllegalArgumentException` on a null view name. Strings are never null in the model.
- VersionParser.Parse: components are unbounded. A digit run above 2^31-1 makes `Integer.parseInt` throw `NumberFormatException` out of `parse`; the model returns the large value instead.
- CoverityVersion.Version: components are unbounded integers rather than 32-bit. Only `hashCode` models 32-bit wrap-around, since only its arithmetic can overflow.
- CoverityVersion.Equals: the `this == o` shortcut, the null and class checks, and `Serializable` are Java object-identity details. The model compares two versions.
- `ViewContents` is taken as a plain wrapper around its JSON payload; its source is not part of this model.
- A second identical `getViews` call gives the same result only because the model is a pure function. No lemma states this.
