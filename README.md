# Resource server: role conversion and payload logging, in Dafny

This project models the two parts of the OAuth2 resource server that contain
logic rather than framework configuration, and proves their properties.

- **The Keycloak role converter** (`KeycloakRoleConverter.convert`). It reads
  the nested claim `realm_access.roles` of a verified JWT. It drops the entries
  that are null or blank after `String.trim()`. It turns every remaining role,
  untrimmed, into the granted authority `ROLE_<role>`. The result is a list:
  order and repetitions are kept. A missing or empty `realm_access`, a missing
  `roles` entry, or a `roles` value that is not a list all give the empty list.
- **The payload helpers of the request/response logging filter**:
  `truncatePayload` cuts a body longer than 10000 code units to its first 10000
  and appends `... [TRUNCATED]`. `formatPayload` shows a null or empty body as
  `[EMPTY BODY]`, re-serialises a body whose trimmed form starts with `{` or `[`
  through Jackson, and truncates every other body. `indentMultiLine` prefixes
  each line (as `String.lines()` splits them) and joins the lines with `\n`.

Files:

- `wrappers.dfy`: `Option`, used for Java's null and for a call that throws.
- `java_string.dfy` (module `JavaString`): a Java `String` as a sequence of
  UTF-16 code units (`CodeUnit`, `JString`). It holds the JDK operations the
  core relies on: `String.trim()` (`Trim`), `String.lines()` (`Lines`) and
  `Collectors.joining` (`Join`), with their round-trip lemmas.
- `keycloak_role_converter.dfy` (module `KeycloakRoleConverter`): claims,
  tokens, authorities, `Convert` and its properties.
- `request_response_logging_filter.dfy` (module `RequestResponseLoggingFilter`):
  `TruncatePayload`, `FormatPayload`, `IndentMultiLine` and their properties.

Modelling choices:

- Strings count UTF-16 code units. `length()`, `substring(0, 10000)`,
  `trim()` (every code unit at most U+0020 is blank) and the line terminators
  `\n`, `\r` and `\r\n` therefore behave as in Java.
- Jackson's `readValue` followed by `writeValueAsString` is a parameter of
  type `JString -> Option<JString>`. `None` stands for the exception path,
  which falls through to truncation.
- A null payload or text is `None`. Java's `prefix + null` produces
  `prefix + "null"`, and so does the model.
- `convert` collects into a list (`Collectors.toList()`), so order and
  duplicates are kept; nothing deduplicates (`ConvertMultiplicity`,
  `UntrimmedDuplicateExample`).

## Model

| member | source | states |
|---|---|---|
| `JavaString.Trim` | src/main/java/com/learning/oauth/resource_server/config/KeycloakRoleConverter.java:73 | `trim()` never lengthens the text. A non-empty result starts and ends with a code unit above U+0020. |
| `JavaString.SkipBlanksSpec` | src/main/java/com/learning/oauth/resource_server/config/KeycloakRoleConverter.java:73 | `trim()`'s forward scan passes only code units at most U+0020. It stops at the first code unit above U+0020, or at the end. |
| `JavaString.DropTrailingBlanksSpec` | src/main/java/com/learning/oauth/resource_server/config/KeycloakRoleConverter.java:73 | `trim()`'s backward scan passes only code units at most U+0020. It stops after the last code unit above U+0020, or at the start index. |
| `JavaString.TrimSlice` | src/main/java/com/learning/oauth/resource_server/config/RequestResponseLoggingFilter.java:144 | `trim()` returns the slice of the text from its first code unit above U+0020 to its last one. What it cuts off on both sides is at most U+0020. |
| `JavaString.TrimEmptyIffBlank` | src/main/java/com/learning/oauth/resource_server/config/KeycloakRoleConverter.java:73 | `trim()` returns an empty string exactly when every code unit of the text is at most U+0020. |
| `JavaString.LineEndSpec` | src/main/java/com/learning/oauth/resource_server/config/RequestResponseLoggingFilter.java:168 | The scan for the end of a line passes no `\n` or `\r`. It stops at the first one, or at the end of the text. |
| `JavaString.Lines` | src/main/java/com/learning/oauth/resource_server/config/RequestResponseLoggingFilter.java:168 | `lines()` returns no lines exactly when the text is empty. |
| `JavaString.LinesNoTerminator` | src/main/java/com/learning/oauth/resource_server/config/RequestResponseLoggingFilter.java:168 | No line that `lines()` returns contains `\n` or `\r`. |
| `JavaString.LinesCons` | src/main/java/com/learning/oauth/resource_server/config/RequestResponseLoggingFilter.java:168 | A terminator-free line followed by `\n` is the first line. What follows splits on its own. |
| `JavaString.LinesConsCr` | src/main/java/com/learning/oauth/resource_server/config/RequestResponseLoggingFilter.java:168 | A terminator-free line followed by a lone `\r` (not followed by `\n`) is the first line. What follows splits on its own. |
| `JavaString.LinesConsCrLf` | src/main/java/com/learning/oauth/resource_server/config/RequestResponseLoggingFilter.java:168 | A terminator-free line followed by `\r\n` is the first line: the pair counts as one terminator. What follows splits on its own. |
| `JavaString.LinesSingle` | src/main/java/com/learning/oauth/resource_server/config/RequestResponseLoggingFilter.java:168 | A non-empty text without terminators is exactly one line. |
| `JavaString.LinesOfJoin` | src/main/java/com/learning/oauth/resource_server/config/RequestResponseLoggingFilter.java:168-170 | Joining terminator-free lines with `\n` and splitting them again gives back the same lines, provided the last line is not empty. |
| `JavaString.JoinOfLines` | src/main/java/com/learning/oauth/resource_server/config/RequestResponseLoggingFilter.java:168-170 | A text that uses only `\n` and does not end with it is recovered by splitting it into lines and joining them with `\n`. |
| `JavaString.Join` | src/main/java/com/learning/oauth/resource_server/config/RequestResponseLoggingFilter.java:170 | `Collectors.joining` starts with the first part, when there is one. |
| `JavaString.JoinEndsWithLast` | src/main/java/com/learning/oauth/resource_server/config/RequestResponseLoggingFilter.java:170 | A join of at least one part ends with the last part. |
| `JavaString.NoCrInJoin` | src/main/java/com/learning/oauth/resource_server/config/RequestResponseLoggingFilter.java:170 | Joining parts that contain no `\r` with a separator that contains none gives a text with no `\r`. |
| `JavaString.LinesExample` | src/main/java/com/learning/oauth/resource_server/config/RequestResponseLoggingFilter.java:168 | `"a\r\nb\rc\n"` splits into `a`, `b`, `c`: all three terminators count, `\r\n` counts as one, and a final terminator adds no empty line. |
| `KeycloakRoleConverter.GetClaimAsMap` | src/main/java/com/learning/oauth/resource_server/config/KeycloakRoleConverter.java:58 | The `realm_access` lookup gives null exactly when the claim is absent. Otherwise it gives the fields of the claim's object. |
| `KeycloakRoleConverter.IsKeptIff` | src/main/java/com/learning/oauth/resource_server/config/KeycloakRoleConverter.java:73 | The filter keeps a role exactly when it is not null and not blank. |
| `KeycloakRoleConverter.KeptRoles` | src/main/java/com/learning/oauth/resource_server/config/KeycloakRoleConverter.java:72-73 | The filtered role list is never longer than the input. |
| `KeycloakRoleConverter.KeptRolesNotBlank` | src/main/java/com/learning/oauth/resource_server/config/KeycloakRoleConverter.java:72-73 | No role that passes the filter is blank. |
| `KeycloakRoleConverter.Convert` | src/main/java/com/learning/oauth/resource_server/config/KeycloakRoleConverter.java:57-77 | Every authority it returns is `ROLE_` followed by a role that is not blank. |
| `KeycloakRoleConverter.ConvertWithoutRealmAccess` | src/main/java/com/learning/oauth/resource_server/config/KeycloakRoleConverter.java:58-62 | A token with no `realm_access` claim, or with an empty one, yields no authorities. |
| `KeycloakRoleConverter.ConvertWithoutRoleList` | src/main/java/com/learning/oauth/resource_server/config/KeycloakRoleConverter.java:64-67 | If `realm_access` has no `roles` entry, or the entry is not a list, the result is empty. |
| `KeycloakRoleConverter.ConvertPrefixesKeptRoles` | src/main/java/com/learning/oauth/resource_server/config/KeycloakRoleConverter.java:72-76 | The result has one authority per kept role. The k-th authority is `ROLE_` followed by the k-th kept role, untrimmed. |
| `KeycloakRoleConverter.StripPrefixRoundTrip` | src/main/java/com/learning/oauth/resource_server/config/KeycloakRoleConverter.java:72-76 | Stripping `ROLE_` from every authority of the result gives back exactly the kept roles, in order. |
| `KeycloakRoleConverter.KeptRolesAppend` | src/main/java/com/learning/oauth/resource_server/config/KeycloakRoleConverter.java:72-73 | Filtering a concatenation is the concatenation of the filtered parts, so kept roles stay in their relative order. |
| `KeycloakRoleConverter.KeptRolesMultiplicity` | src/main/java/com/learning/oauth/resource_server/config/KeycloakRoleConverter.java:72-73 | A non-blank role is kept as many times as it occurs. A blank role is never kept, and null entries are never kept. |
| `KeycloakRoleConverter.AuthoritiesMultiplicity` | src/main/java/com/learning/oauth/resource_server/config/KeycloakRoleConverter.java:74-76 | `ROLE_<role>` occurs in the mapped list as often as `role` occurs among the kept roles, because prefixing is injective. |
| `KeycloakRoleConverter.ConvertMultiplicity` | src/main/java/com/learning/oauth/resource_server/config/KeycloakRoleConverter.java:72-76 | From token to result, `ROLE_<role>` occurs as often as `role` occurs in `realm_access.roles`, or never if the role is blank. There is no deduplication. |
| `KeycloakRoleConverter.ConvertGrantsIff` | src/main/java/com/learning/oauth/resource_server/config/KeycloakRoleConverter.java:73-74 | `ROLE_<role>` is granted if and only if the token lists `role` and `role` is not blank. |
| `KeycloakRoleConverter.DocumentedExample` | src/main/java/com/learning/oauth/resource_server/config/KeycloakRoleConverter.java:22-34 | Roles `["admin", "user"]` give `[ROLE_admin, ROLE_user]`. |
| `KeycloakRoleConverter.UntrimmedDuplicateExample` | src/main/java/com/learning/oauth/resource_server/config/KeycloakRoleConverter.java:72-76 | Roles `[" dev", null, "", "  ", " dev"]` give `ROLE_ dev` twice: untrimmed, duplicated, with the other three entries dropped. |
| `RequestResponseLoggingFilter.TruncatePayload` | src/main/java/com/learning/oauth/resource_server/config/RequestResponseLoggingFilter.java:157-162 | The result is never longer than 10000 plus the 15-unit marker. A payload of at most 10000 units is returned unchanged. A longer payload gives exactly 10015 units: its first 10000 units, then `... [TRUNCATED]`. |
| `RequestResponseLoggingFilter.TruncatePayloadIdempotent` | src/main/java/com/learning/oauth/resource_server/config/RequestResponseLoggingFilter.java:157-162 | Truncating an already truncated payload changes nothing. |
| `RequestResponseLoggingFilter.LooksLikeJsonIff` | src/main/java/com/learning/oauth/resource_server/config/RequestResponseLoggingFilter.java:144-145 | A payload is treated as JSON if and only if its first code unit above U+0020 is `{` or `[`. |
| `RequestResponseLoggingFilter.FormatPayload` | src/main/java/com/learning/oauth/resource_server/config/RequestResponseLoggingFilter.java:140-155 | The formatted body is at most 10015 code units long, unless it is Jackson's output for a payload that looks like JSON. |
| `RequestResponseLoggingFilter.FormatPayloadEmpty` | src/main/java/com/learning/oauth/resource_server/config/RequestResponseLoggingFilter.java:141-143 | A null or empty payload is formatted as `[EMPTY BODY]`. |
| `RequestResponseLoggingFilter.FormatPayloadPlain` | src/main/java/com/learning/oauth/resource_server/config/RequestResponseLoggingFilter.java:144-154 | A non-empty payload that does not look like JSON is formatted as its truncation. Jackson's behaviour has no effect on the result. |
| `RequestResponseLoggingFilter.FormatPayloadJson` | src/main/java/com/learning/oauth/resource_server/config/RequestResponseLoggingFilter.java:145-154 | For a JSON-looking payload, a successful parse gives Jackson's re-serialised text, untruncated. A failed parse falls back to truncating the payload. |
| `RequestResponseLoggingFilter.FormatPayloadBounded` | src/main/java/com/learning/oauth/resource_server/config/RequestResponseLoggingFilter.java:140-155 | Unless Jackson's output is used, the formatted body is at most 10015 code units long. |
| `RequestResponseLoggingFilter.IndentMultiLine` | src/main/java/com/learning/oauth/resource_server/config/RequestResponseLoggingFilter.java:164-171 | The result always starts with the prefix, whichever branch is taken. |
| `RequestResponseLoggingFilter.IndentMultiLineVerbatim` | src/main/java/com/learning/oauth/resource_server/config/RequestResponseLoggingFilter.java:165-166 | For an empty text or `[EMPTY BODY]`, the result is the prefix followed by the text. A null text gives the prefix followed by `null`. |
| `RequestResponseLoggingFilter.IndentMultiLineLines` | src/main/java/com/learning/oauth/resource_server/config/RequestResponseLoggingFilter.java:168-170 | For any other text, the result has the same number of lines, and each line is the prefix followed by the corresponding input line. The result contains no `\r` and does not end with a terminator, so its lines are joined by `\n` alone (with `JoinOfLines`, it is exactly their `\n`-join). |
| `RequestResponseLoggingFilter.LoggedBody` | src/main/java/com/learning/oauth/resource_server/config/RequestResponseLoggingFilter.java:90 | A logged body is either `║   ` followed by the empty or `[EMPTY BODY]` text, or the formatted payload's lines, each behind `║   `, joined by `\n` alone: the logged text holds no `\r` and does not end with a terminator. |
| `RequestResponseLoggingFilter.IndentExample` | src/main/java/com/learning/oauth/resource_server/config/RequestResponseLoggingFilter.java:164-171 | `"a\r\nb\n"` behind `> ` becomes `"> a\n> b"`. |

## Left out

- `doFilter`, `logRequest`, `logResponse` (RequestResponseLoggingFilter.java:38-126): servlet wrappers, the filter chain, a random log id, the wall clock and the logger. They are I/O. Only the body line at 90 and 120 is modelled, by `LoggedBody`.
- `getContentString` (RequestResponseLoggingFilter.java:128-138): character-set decoding by the JDK, a foreign call. The model starts from the decoded text.
- Jackson's `readValue` and `writeValueAsString`: library code. They are the `Reserializer` parameter, so whether the output is pretty-printed is not modelled. The warning that `formatPayload` logs when parsing fails (RequestResponseLoggingFilter.java:150) is logger I/O and is left out too; only the fall-through to truncation is modelled.
- KeycloakRoleConverter.Convert: requires that `realm_access` is absent or a JSON object. Spring's claim conversion for other kinds of values is framework behaviour that is not part of this model.
- KeycloakRoleConverter.Convert: the cast at KeycloakRoleConverter.java:70 is unchecked, so a `roles` list with a non-string element passes it; that element throws `ClassCastException` when the filter lambda receives it (KeycloakRoleConverter.java:73). The model's role lists hold only strings and nulls.
- RequestResponseLoggingFilter.IndentMultiLineLines: stated for a non-empty prefix without line terminators. The filter's only prefix, `║   `, is such a prefix (`LoggedBody`). A prefix with terminators would add lines of its own.
- The authorization rules behind `@Secured`, `@PreAuthorize` and `@PostAuthorize` (UserController.java:89-101): SpEL strings enforced by framework method security. SecurityConfig.java is commented out in full, so there is no rule list or rule evaluator in the code to model.
- GlobalExceptionHandler.java, ApplicationStartupListener.java, WebConfig.java and Example.java: exception-to-response glue, environment and host lookups, static CORS configuration and a demo. None of them contains an algorithm.
