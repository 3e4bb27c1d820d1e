# mcp-blob-server core, modelled in Dafny

The MCP blob server gives a coding agent tools to record its coding mistakes
in an Azure append blob and to fetch them back. It also has a tool that hands
out a Microsoft Entra sign-in URL and a store for session tokens. This project
models the sequential logic of those tools:

- **Tokens** (`tokens.dfy`): `TokenStore` is a dictionary from session id to
  `UserTokenInfo`. The store is a value, and `SaveToken`, `GetToken` and
  `RemoveToken` are functions on it. The map laws are proved for them. A
  sequence of calls is checked against a "last write wins" reference.
- **IncidentBlob** (`incident_blob.dfy`): `ToBlob` and
  `FetchMistakesAndUpdateInstructions`.
  - The remote blob is `Option<seq<byte>>`, with `None` meaning the blob does
    not exist yet.
  - `ToBlob` covers the blank-log guard, the settings checks, create-if-absent
    and the 4 MiB chunked append loop (`AppendInBlocks`, a method with loop
    invariants).
  - Fetch returns one of three results; the error path is modelled as well.
  - The loop is also modelled with the source's 32-bit `int` offset (`Run32`).
- **Hosting** (`hosting.dfy`): `IsRunningLocally`, both as written and as
  intended (see Findings). `Uri.TryCreate`, `IPAddress.TryParse` and
  `IPAddress.IsLoopback` are uninterpreted functions held in a `UriFacts` value.
- **SignIn** (`sign_in.dfy`): `GetEntraSignInUrl`, the authorization request of
  section 4.1.1 of RFC 6749.
  - `Uri.EscapeDataString` is defined concretely: characters outside the
    unreserved set of section 2.3 of RFC 3986 become `%XX` per UTF-8 byte.
  - The URL is read back by a reference parser into its endpoint and its five
    parameters, in order.
- Support modules:
  - `Wrappers`: `Option` stands for a nullable reference and `Result` for a
    thrown exception.
  - `Utf8`: `Encoding.UTF8`, as an encoder and a decoder that are proved
    inverse in both directions.
  - `Text`: `IsNullOrWhiteSpace`, `OrdinalIgnoreCase` and `Split`.
  - `AppConfig`: the configuration and the environment variables.

The fetch preamble is a C# verbatim literal, `@"""…"""`. In a verbatim literal
`""` is an escaped quote, so the text the tool returns starts with a `"` and a
line break and ends with 16 spaces and a `"` just before the log. The model
reproduces this text exactly (`IncidentBlob.FetchedPreamble`). The source file
uses LF line endings.

## Model

| member | source | states |
|---|---|---|
| Tokens.NewUserTokenInfo | mcp-blob-server/TokenStore.cs:32-38 | a fresh `UserTokenInfo` has empty access, refresh and id tokens and the default expiry (`DateTime.MinValue`, tick 0) |
| Tokens.GetToken | mcp-blob-server/TokenStore.cs:15-20 | returns a token exactly when the session has an entry, and then that entry; null otherwise |
| Tokens.SaveToken | mcp-blob-server/TokenStore.cs:7-13 | read-after-write gives the saved token; every other session reads as before; the key set gains exactly the session |
| Tokens.RemoveToken | mcp-blob-server/TokenStore.cs:23-29 | the removed session reads null; every other session reads as before; the key set loses exactly the session |
| Tokens.NeverSavedIsAbsent | mcp-blob-server/TokenStore.cs:4 | a session never saved into the fresh store reads null |
| Tokens.SaveOverwrites | mcp-blob-server/TokenStore.cs:11 | two saves to one session are the same as the second save alone (last write wins) |
| Tokens.SavesToDistinctSessionsCommute | mcp-blob-server/TokenStore.cs:11 | saves to different sessions commute, and each session reads its own token |
| Tokens.RemoveAbsentIsNoOp | mcp-blob-server/TokenStore.cs:27 | removing an absent session leaves the store unchanged; removing twice equals removing once |
| Tokens.RemoveUndoesSave | mcp-blob-server/TokenStore.cs:7-28 | removing right after a save equals removing alone, and restores the store if the session was absent |
| Tokens.ReplayLastWriteWins | mcp-blob-server/TokenStore.cs:7-28 | after any sequence of calls a session reads whatever its last save or remove decided; `GetToken` calls and calls on other sessions change nothing |
| Tokens.LastWriteIsInOps | mcp-blob-server/TokenStore.cs:7-28 | the deciding call is one of the calls, and is on that session |
| Tokens.ReadValueWasWritten | mcp-blob-server/TokenStore.cs:7-20 | starting from an empty store, any token a session reads was saved under that session by one of the calls |
| AppConfig.Setting | mcp-blob-server/Program.cs:154-157 | `Config?[key]` is non-null exactly when there is a configuration holding the key, and then it is the configured value |
| AppConfig.ProcessEnvironment.Get | mcp-blob-server/Program.cs:339-344 | an environment variable reads as its value when set and as null when unset |
| Text.ToUpper | mcp-blob-server/Program.cs:341 | upper-casing keeps the length and folds each character |
| Text.EqualsIgnoreCase | mcp-blob-server/Program.cs:341 | ordinal case-insensitive equality holds exactly when the upper-cased strings are equal |
| Text.IsWhiteSpace | mcp-blob-server/Program.cs:148 | below U+0100 the white-space characters are exactly tab, line feed, vertical tab, form feed, carriage return, space, U+0085 and U+00A0 |
| Text.IsNullOrWhiteSpace | mcp-blob-server/Program.cs:148 | a string is blank exactly when every character is white space, so the empty string is blank |
| Text.SplitAll | mcp-blob-server/Program.cs:346 | splitting yields at least one piece, and no piece contains the separator |
| Text.JoinSplitAll | mcp-blob-server/Program.cs:346 | joining the pieces of a split gives back the input |
| Text.SplitAllJoin | mcp-blob-server/Program.cs:346 | splitting a join of separator-free pieces gives back the pieces |
| Text.SplitAllCons | mcp-blob-server/Program.cs:346 | the first piece is everything before the first separator |
| Text.SplitWithoutSeparator | mcp-blob-server/Program.cs:343-346 | a string without the separator is one piece, both with and without `RemoveEmptyEntries` |
| Text.RemoveEmpty | mcp-blob-server/Program.cs:346 | `RemoveEmptyEntries` keeps exactly the non-empty pieces |
| Text.RemoveEmptyAppend | mcp-blob-server/Program.cs:346 | dropping empty pieces distributes over concatenation, so the kept pieces stay in order and keep their repeats |
| Text.RemoveEmptyOne | mcp-blob-server/Program.cs:346 | a single piece is kept exactly when it is non-empty |
| Text.SplitNonEmpty | mcp-blob-server/Program.cs:346 | the entries are non-empty and separator-free, and are exactly the non-empty pieces of the plain split |
| Text.SplitNonEmptyCons | mcp-blob-server/Program.cs:346 | the entries of `p;rest` are `p`, if it is non-empty, followed by the entries of `rest`, in order |
| Text.SplitAtFirst | mcp-blob-server/Program.cs:79-85 | splitting at the first `c` fails exactly when there is no `c`; otherwise the parts rebuild the input and the first part has no `c` |
| Text.SplitAtFirstOfJoin | mcp-blob-server/Program.cs:79-85 | a prefix without `c`, followed by `c`, is recovered by splitting at the first `c` |
| Hosting.ScanAsWritten | mcp-blob-server/Program.cs:346-357 | the loop as written can only throw a `NullReferenceException`, and only when some entry is not an absolute URI; when it answers true some entry is local |
| Hosting.ScanAsWrittenThrows | mcp-blob-server/Program.cs:346-357 | the loop as written throws exactly when an entry that is not an absolute URI comes before every local entry |
| Hosting.ScanAsWrittenAnswers | mcp-blob-server/Program.cs:346-357 | when the loop as written does not throw, it answers whether some entry is local |
| Hosting.IsRunningLocallyAsWritten | mcp-blob-server/Program.cs:337-358 | the probe as written answers true in a `Development` environment; otherwise it can only throw a `NullReferenceException`, and only when some entry of `ASPNETCORE_URLS` is not an absolute URI |
| Hosting.AsWrittenDependsOnOrder | mcp-blob-server/Program.cs:346-357 | for an unparsable entry and a local entry, the probe as written throws when the unparsable one comes first and answers true when the local one does, while the intended probe answers true for both orders |
| Hosting.AsWrittenThrowsOnRelativeUrl | mcp-blob-server/Program.cs:348-351 | with `ASPNETCORE_URLS=app` the source's probe throws a `NullReferenceException`, whereas the intended answer is false |
| Hosting.ScanLocalIsExists | mcp-blob-server/Program.cs:346-357 | the corrected scan returns true exactly when some entry is local |
| Hosting.IsRunningLocally | mcp-blob-server/Program.cs:337-358 | running locally means a `Development` environment (any case), or some non-empty `;`-separated entry of `ASPNETCORE_URLS` with a loopback IP host or host `localhost` |
| Hosting.UnsetUrlsIsLocal | mcp-blob-server/Program.cs:343-344 | with `ASPNETCORE_URLS` unset, the fallback `http://localhost` makes the probe answer true, both as written and as corrected |
| Hosting.AsWrittenAgreesWhenNoFault | mcp-blob-server/Program.cs:337-358 | whenever the as-written probe does not throw, it agrees with the corrected one; it never throws when every entry is an absolute URI |
| Utf8.EncodeChar | mcp-blob-server/Program.cs:206 | one to four bytes; one byte exactly for ASCII, carrying the code point; continuation bytes after the lead |
| Utf8.Encode | mcp-blob-server/Program.cs:206 | a string of n characters encodes to between n and 4n bytes |
| Utf8.DecodeEncode | mcp-blob-server/Program.cs:206 | decoding the UTF-8 bytes of any string gives the string back |
| Utf8.EncodeDecode | mcp-blob-server/Program.cs:206 | any byte sequence the decoder accepts is exactly the encoding of what it returns |
| Utf8.DecodeEncodeChar | mcp-blob-server/Program.cs:206 | one character's encoding decodes to that character, whatever bytes follow it |
| Utf8.EncodeDecodeChar | mcp-blob-server/Program.cs:206 | one accepted character is exactly the encoding of its value |
| Utf8.EncodeAppend | mcp-blob-server/Program.cs:206 | the encoding of a concatenation is the concatenation of the encodings |
| Utf8.EncodeAscii | mcp-blob-server/Program.cs:206 | an ASCII string is encoded byte for byte |
| SignIn.HexDigit | mcp-blob-server/Program.cs:75 | the upper-case hex digit of n is a hex digit whose value is n |
| SignIn.PercentByte | mcp-blob-server/Program.cs:75 | `%XX` is three characters whose hex digits recombine to the byte |
| SignIn.EscapeDataString | mcp-blob-server/Program.cs:75 | the escaped string holds only unreserved characters and `%` |
| SignIn.PercentDecodeEscape | mcp-blob-server/Program.cs:75 | percent-decoding an escaped string gives exactly the UTF-8 bytes of the original |
| SignIn.UnescapeEscape | mcp-blob-server/Program.cs:75 | unescaping an escaped string gives the original string back |
| SignIn.EscapeUnreservedIsIdentity | mcp-blob-server/Program.cs:75 | a string of unreserved characters is left as it is |
| SignIn.EscapeAppend | mcp-blob-server/Program.cs:75 | escaping distributes over concatenation |
| SignIn.EscapedHasNoDelimiter | mcp-blob-server/Program.cs:75-85 | an escaped value contains no `&`, `?` or `=`, so it cannot break the query |
| SignIn.ParameterRoundTrip | mcp-blob-server/Program.cs:80-85 | a `name=value` parameter whose name has no `=` reads back as the same name and value |
| SignIn.AuthorizeQueryRoundTrip | mcp-blob-server/Program.cs:80-85 | the query reads back as `client_id`, `response_type=code`, `redirect_uri`, `response_mode=query`, `scope`, in that order, when the values contain no `&` |
| SignIn.RequestUrlRoundTrip | mcp-blob-server/Program.cs:79-85 | an endpoint without `?`, followed by the authorization query, reads back as that endpoint and the five parameters |
| SignIn.AuthorizeUrlStarts | mcp-blob-server/Program.cs:79-80 | whatever the instance, tenant, client id, redirect URI and scope, the URL starts with `instance + tenantId + /oauth2/v2.0/authorize?client_id=` followed by the client id as configured |
| SignIn.SignInUrlRoundTrip | mcp-blob-server/Program.cs:66-86 | the sign-in URL is the endpoint `instance + tenantId + /oauth2/v2.0/authorize` (instance defaulting to `https://login.microsoftonline.com/`, missing tenant and client as empty), then the five parameters in order, with the escaped redirect URI and scope unescaping to the constants |
| IncidentBlob.MissingSetting | mcp-blob-server/Program.cs:154-165 | the tools proceed exactly when account, container, tenant and client id are configured, plus the client secret when running locally; otherwise one of the five "not configured" messages is reported, and the secret's only when local |
| IncidentBlob.AppendInBlocks | mcp-blob-server/Program.cs:209-229 | the blob ends as the prior content followed by the new bytes; there are ceil(Length / 4 MiB) blocks, each of 1..4 MiB, all but the last exactly 4 MiB; block i is the slice at offset i·4 MiB; the blocks concatenate to the content; block i is reference window i, at offset i·4 MiB with its length |
| IncidentBlob.BlocksBounded | mcp-blob-server/Program.cs:221-223 | a block cut at an offset below the length is non-empty and at most 4 MiB, and only the last one can be short |
| IncidentBlob.CeilDivBetween | mcp-blob-server/Program.cs:221 | a length between (k−1)·4 MiB (exclusive) and k·4 MiB (inclusive) takes k iterations |
| IncidentBlob.Wrap32 | mcp-blob-server/Program.cs:221-223 | unchecked `int` arithmetic: the result is in the 32-bit range, is the exact value when that fits, and is congruent to it modulo 2^32 |
| IncidentBlob.Run32 | mcp-blob-server/Program.cs:221-226 | with the 32-bit offset every window handed to `MemoryStream` is a non-empty range inside the content of at most 4 MiB, and the first starts at the starting offset |
| IncidentBlob.Run32Windows | mcp-blob-server/Program.cs:221-226 | with the 32-bit offset the loop still appends every reference window, and it throws afterwards exactly when the content is longer than 0x7FC00000 bytes |
| IncidentBlob.Run32AgreesBelowLimit | mcp-blob-server/Program.cs:221-226 | for content of at most 0x7FC00000 bytes the 32-bit loop is exactly the unbounded one |
| IncidentBlob.Run32ThrowsAboveLimit | mcp-blob-server/Program.cs:221-226 | content of 0x7FC00001 bytes makes the 32-bit loop throw after appending all of it |
| IncidentBlob.WindowsCover | mcp-blob-server/Program.cs:221-223 | the lengths of the windows add up to the content length |
| IncidentBlob.WindowsShape | mcp-blob-server/Program.cs:221-223 | window i starts at i·4 MiB and is min(4 MiB, Length − start) long, and there are ceil(Length / 4 MiB) windows; these are the blocks of `AppendInBlocks` |
| IncidentBlob.ToBlob | mcp-blob-server/Program.cs:144-238 | a blank log gives "No incident log provided. Nothing to push." and leaves the blob untouched; a missing setting gives the `ERROR – couldn't push logs to blob: ` message and leaves the blob untouched; success happens exactly when the log is not blank and nothing is missing, and then the blob is the prior content (empty if created) followed by the log's UTF-8 bytes, appended in ceil(Length / 4 MiB) blocks of 1..4 MiB |
| IncidentBlob.FetchMistakes | mcp-blob-server/Program.cs:249-335 | a missing setting gives the fetch error message; otherwise there are three cases: no blob gives "No coding incidents found…"; a blank download gives "…exists but is empty…"; any other download is returned in full, after the fixed preamble, so the result ends with the whole log |
| IncidentBlob.NotBlankAppend | mcp-blob-server/Program.cs:317 | appending a non-blank log to anything leaves it non-blank |
| IncidentBlob.PushedDecodes | mcp-blob-server/Program.cs:203-229 | after a push, a blob that held valid UTF-8 text decodes to that text followed by the log |
| IncidentBlob.FetchAfterPush | mcp-blob-server/Program.cs:203-328 | after a successful push, a fetch never reports the blob missing; with a faithful UTF-8 reader it returns the preamble, then the prior text, then the pushed log |

## Left out

- Server wiring (`Program.cs:25-58`): MCP host setup, Kestrel binding, the middleware that sets the ambient `HttpContext`, and the session notification and delay. These are framework calls and async I/O.
- Credential construction (`Program.cs:161-190`, `261-290`): the model keeps only the choice it makes, as the flag `runningLocally` that `ToBlob` and `FetchMistakes` receive. A local run needs the client secret; a deployed run needs nothing more.
- The blob SDK (`ExistsAsync`, `CreateAsync`, `AppendBlockAsync`, `DownloadAsync`) and the container URL: the remote blob is an abstract `Option<seq<byte>>`. Failures of the network or the service, and the error strings they would produce, are not modelled.
- `RecordCodingMistake` (`Program.cs:98-142`): the JSON serialization and `DateTime.UtcNow` are library code and wall-clock time.
- `IncidentBlob.FetchMistakes`: the `StreamReader` that decodes the download is a parameter `decode`. Its byte-order-mark detection and its replacement of invalid bytes are not modelled.
- `IncidentBlob.FetchAfterPush`: it assumes a reader that decodes valid UTF-8 faithfully, and its log is a string of Unicode scalar values (see `Utf8.Encode`).
- `Utf8.Encode`: a C# string is UTF-16 and may hold an unpaired surrogate, which `GetBytes` replaces by `EF BF BD`; a Dafny string holds only scalar values, so that case is not modelled. Per C# `char` the encoding is 1 to 3 bytes, and a surrogate pair gives 4; the model counts 1 to 4 bytes per scalar value.
- `IncidentBlob.PushedDecodes`: it holds for logs of scalar values only, for the reason given under `Utf8.Encode`; a log with an unpaired surrogate would read back with U+FFFD in its place.
- `SignIn.GetEntraSignInUrl`: it carries no contract of its own. `SignIn.AuthorizeUrlStarts` states the start of the URL for any values, and `SignIn.SignInUrlRoundTrip` reads the whole URL back.
- `SignIn.SignInUrlRoundTrip`: it needs a client id without `&` and an instance and tenant without `?`, because the source does not escape them.
- `AppConfig.Setting`: .NET configuration keys are case-insensitive; the model looks keys up exactly. The source reads only its own fixed keys, so this matters only for a configuration that spells them in another case.
- `Text.EqualsIgnoreCase`: case folding covers ASCII letters only. .NET's `OrdinalIgnoreCase` also folds other letters, some of which upper-case to ASCII. Both comparisons in the probe are against ASCII words, so only such exotic characters could differ.
- `Hosting.IsRunningLocally`: the URI and IP parsers are uninterpreted functions, so the answer is stated in terms of what they return.
- `Hosting.UnsetUrlsIsLocal`: it assumes that `http://localhost` parses with host `localhost`, which is not an IP address.
- `Tokens`: the model stores token values, so C# object aliasing is not modelled. A caller that mutates a `UserTokenInfo` after saving it changes the stored entry; in the model it does not.
- The `lock` in `TokenStore` and the `AsyncLocal` context accessor (`HttContext.cs`) exist for concurrency. Each store operation is atomic under the lock, so the sequential model covers the store's contract.
- The `AppSettings` class is not part of this model: a configuration is either absent (`Config` is null) or a finite map.
- Exception messages other than `NullReferenceException` and the "not configured" messages (for example the `MemoryStream` argument exception) are not reproduced. The model records only that the call throws.

## Findings

| source | as written | input that shows it | evidently intended | confidence | as-written member | corrected member |
|---|---|---|---|---|---|---|
| mcp-blob-server/Program.cs:348-351 | `TryCreate(url, …, out uri) && TryParse(uri.Host, …) ? IsLoopback(ip) : uri!.Host.Equals("localhost", …)` groups as `(TryCreate && TryParse) ? … : …`, so when `TryCreate` fails the else-branch dereferences a null `uri` | `ASPNETCORE_URLS=app` (not an absolute URI) with `ASPNETCORE_ENVIRONMENT` not `Development`: `NullReferenceException`, which both tools turn into an `ERROR –` string | `TryCreate && (TryParse ? IsLoopback : Host == "localhost")`, so an unparsable entry is simply not local | not executed; follows from C# operator precedence (`?:` binds looser than `&&`); wildcard entries such as `http://*:5000`, which ASP.NET Core accepts, are a likelier trigger than `app` if `Uri` rejects them | Hosting.AsWrittenThrowsOnRelativeUrl | Hosting.IsRunningLocally |
| mcp-blob-server/Program.cs:221-223 | `offset += MaxAppendBlock` on a 32-bit `int`, unchecked | `incidentLog` whose UTF-8 form has 0x7FC00001 bytes: after the block at offset 0x7FC00000 the offset wraps to −2^31, still `< Length`, and `new MemoryStream(…, offset, …)` throws after every block was appended, so `ToBlob` reports an error for a push that fully succeeded | stop once `offset >= Length`, as with unbounded integers | not executed; low: needs a direct `ToBlob` call with more than 2 GiB of text, since `RecordCodingMistake` only passes short JSON lines | IncidentBlob.Run32ThrowsAboveLimit | IncidentBlob.AppendInBlocks |

The rest of the model uses the corrected behaviour. `ToBlob` and `FetchMistakes`
take the answer of `Hosting.IsRunningLocally` as their `runningLocally` flag, and
`ToBlob` appends with `IncidentBlob.AppendInBlocks`.
