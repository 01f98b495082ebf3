# File System for Dropbox — a verified model of the provider core

This project models the core of a Chrome OS file system provider. The provider
mounts a Dropbox account as a file system. It answers the host's file system
requests (list, stat, open, read, write, close, create, delete, move, copy,
truncate, watch) by calling the Dropbox HTTP API. It keeps a per-account
metadata cache in front of those calls and polls watched directories for
changes.

Two generations of the provider are modelled:

- the current one (`src/scripts`), which uses the Dropbox API v2 and supports
  several accounts;
- the legacy one (`app/scripts`), which uses the API v1, supports a single
  account and has its own error policy.

Every remote call is an input. Each operation takes the answers the remote side
gives, in order. It returns the trace of requests it issues and the one reply it
hands to the host. If the answers run out first, the reply is "still pending".
State that the JavaScript keeps in objects is an immutable value here: the
clients per file system, the stored credentials, the caches, the watcher sets
and the open-file records. Each handler maps a state to a new state.

Modules, one per file:

| module | models |
|---|---|
| `Common` | option, byte, reply and error-code types; `Metadata` as the host sees it; JavaScript truthiness of optional strings |
| `Strings` | `indexOf`, `lastIndexOf`, `split`, `join`, `String(n)` and `toString(16)` over `seq<char>` |
| `MetadataCache` | the per-account listing cache: `put`, `get`, `remove` (`src/scripts/metadata_cache.js`) |
| `HttpFetcher` | the request executor: status classification and the re-issue loop (`src/scripts/http_fetcher.js`) |
| `Json` | `escapeUnicode` and `jsonStringify` for the `Dropbox-API-Arg` header, with a parser proving that the text decodes back |
| `Auth` | token extraction from the redirect URL, in the fragment-regex form and the parameter-loop form |
| `Content` | ranged reads, open/write/close of upload sessions, the chunked upload loop (intended and as written) and truncation |
| `Client` | stat with optional thumbnail, paginated listing, entry conversion and the thumbnail eligibility test |
| `Registry` | the current adapter: mount, resume, unmount, field trimming, cache-aware handlers, watchers and the resume-on-demand wrapper (`src/scripts/dropbox_fs.js`) |
| `Poller` | the change poller's diff of a new listing against the cached one |
| `LegacyClient` | the legacy client: error policy, stat, listing, chunked upload with `upload_id` carried between chunks, close and truncate |
| `LegacyFs` | the legacy adapter: single-account mount, resume, unmount, cache-aware handlers and event wrapper |

Both generations truncate a file by downloading it and re-uploading the
resized content as a chunked upload finished by a commit: the current one
through an upload session (src/scripts/dropbox_client.js:301-314), the legacy
one through `chunked_upload` calls that start without an upload id
(app/scripts/dropbox_client.js:357-369).

## Model

| member | source | states |
|---|---|---|
| Strings.IndexOf | src/scripts/dropbox_client.js:35 | `indexOf` gives -1 exactly when the character is absent; otherwise it gives the first position holding the character |
| Strings.LastIndexOf | src/scripts/metadata_cache.js:23-62 | `lastIndexOf` gives -1 exactly when the character is absent; otherwise it gives a position holding the character with none after it |
| Strings.Split | app/scripts/dropbox_client.js:552-556 | `split` on one character gives at least one piece; no piece holds the separator; joining the pieces with the separator gives back the string |
| Strings.SplitJoin | app/scripts/dropbox_client.js:552-556 | splitting undoes joining for separator-free pieces |
| Strings.IntToString | src/scripts/dropbox_client.js:218 | `String(n)` is a digit string denoting `n` with no leading zero, with a leading minus for negative `n` |
| Strings.ToBaseLower | src/scripts/dropbox_client.js:628-637 | `n.toString(base)` writes only lowercase digits |
| Strings.ParseToBase | src/scripts/dropbox_client.js:628-637 | parsing the digits of `n.toString(base)` gives back `n` |
| MetadataCache.ListingOf | src/scripts/metadata_cache.js:9-17 | a listing is keyed by entry name; for duplicated names the last entry wins |
| MetadataCache.Put | src/scripts/metadata_cache.js:9-17 | `put` replaces the whole listing of one directory; every other directory is unchanged |
| MetadataCache.SplitPath | src/scripts/metadata_cache.js:23-62 | a path splits at its last `/` into a parent and a `/`-free name; a top-level entry has parent `/` |
| MetadataCache.Get | src/scripts/metadata_cache.js:23-62 | the root is never answered from the cache; the directory is known iff the parent is listed; the file is known iff the listing holds the name; a hit returns the cached entry |
| MetadataCache.Remove | src/scripts/metadata_cache.js:64-74 | `remove` drops every listing whose path has the removed path as a prefix, and the removed path's parent listing unless the path is top-level; other listings are unchanged |
| MetadataCache.GetAfterPut | src/scripts/metadata_cache.js:9-62 | after the parent is listed, a lookup knows the directory; it finds the entry iff the listing holds the name, and then returns the last listed entry carrying the looked-up name |
| MetadataCache.RemoveForcesFetch | src/scripts/metadata_cache.js:64-74 | after removing a path, any entry below it is unknown, so the next stat goes to the remote side |
| MetadataCache.RemoveSubtreeExample | src/scripts/metadata_cache.js:64-74 | after removing `/a/b`, a lookup of `/a/b/c` is unknown |
| MetadataCache.RemoveParentRule | src/scripts/metadata_cache.js:64-74 | removing a top-level entry keeps the root's listing; removing a deeper entry drops its parent's listing |
| MetadataCache.RemoveIdempotent | src/scripts/metadata_cache.js:64-74 | removing the same path twice is the same as removing it once |
| HttpFetcher.RetryDelaySeconds | src/scripts/http_fetcher.js:41-56 | a `Retry-After` of `n` seconds, written in decimal with or without a leading zero, waits `n` × 1000 ms |
| HttpFetcher.Classify | src/scripts/http_fetcher.js:28-74 | 404 and 409 give NOT_FOUND; 416 gives an empty success; 401 gives INVALID_OPERATION and unmounts, and INVALID_OPERATION comes from nothing else; 0, and 429 with a `Retry-After`, re-issue; everything else gives FAILED, reported to the error sink unless the status is in 500-599 |
| HttpFetcher.Drive | src/scripts/http_fetcher.js:7-74 | every re-issue repeats the original request; each response causes one delivery or one re-issue; the run delivers the classification of the first non-retry response |
| HttpFetcher.DriveDelivers | src/scripts/http_fetcher.js:7-74 | with k retryable responses before a final one, the request is issued k + 1 times and the final classification is delivered |
| HttpFetcher.RetriesNeverDeliver | src/scripts/http_fetcher.js:41-61 | there is no retry bound: only retryable responses never deliver, and each of them re-issues once |
| HttpFetcher.RetryAfterHonoured | src/scripts/http_fetcher.js:41-56 | a 429 with `Retry-After: n` re-issues the identical request once, `n` × 1000 ms later |
| Json.CodeUnits | src/scripts/dropbox_client.js:628-637 | a character is one UTF-16 code unit below U+10000, and otherwise a high surrogate followed by a low surrogate |
| Json.Hex4 | src/scripts/dropbox_client.js:628-637 | a code unit is written as exactly four lowercase hex digits denoting it |
| Json.EscapeChar | src/scripts/dropbox_client.js:628-637 | word characters and `/` stay as they are; any other character becomes, for each of its UTF-16 code units in order, `\u` and four lowercase hex digits denoting that unit |
| Json.EscapeUnicode | src/scripts/dropbox_client.js:628-656 | the escaped header text holds only word characters, `/` and `\uXXXX` escapes, and no double quote |
| Json.EscapeQuotesNoQuote | src/scripts/dropbox_client.js:639-656 | on an already escaped text the quote escaping changes nothing |
| Json.UnescapeEscape | src/scripts/dropbox_client.js:628-637 | unescaping an escaped text gives back the original characters |
| Json.ValueRoundTrip | src/scripts/dropbox_client.js:639-656 | parsing a stringified value gives back the value and leaves the rest of the text |
| Json.NumberRoundTrip | src/scripts/dropbox_client.js:639-656 | parsing `String(n)` gives back the number `n` |
| Json.ObjectRoundTrip | src/scripts/dropbox_client.js:639-656 | parsing a stringified object gives back its fields in order |
| Json.StringifyRoundTrip | src/scripts/dropbox_client.js:639-656 | a `Dropbox-API-Arg` header decodes to the object it was made from |
| Auth.Hash | src/scripts/auth_strategies.js:3-17 | the URL's fragment: empty without `#` and when nothing follows the first `#`; otherwise `#` followed by everything after the first `#` |
| Auth.FirstMatch | src/scripts/auth_strategies.js:3-17 | the leftmost position at which `access_token=` is followed by a non-`&` character |
| Auth.MatchToken | src/scripts/auth_strategies.js:3-17 | the regex fails iff no position matches; otherwise the token is the non-empty `&`-free run after the leftmost match |
| Auth.TokenFromRedirectUrl | src/scripts/auth_strategies.js:3-17 | no URL gives "Authorization failed"; a fragment without a match gives "Access token not found in redirect URL"; otherwise the token is the leftmost match's run |
| Auth.QueryTokenIgnored | src/scripts/auth_strategies.js:3-17 | a token in the query string instead of the fragment is not found |
| Auth.FirstTokenWins | src/scripts/auth_strategies.js:3-17 | with two `access_token` parameters in the fragment, the first one is returned |
| Auth.ParametersText | src/scripts/dropbox_client.js:34-35 | the parameter text is everything after the first `#`, or the whole URL when there is no `#` |
| Auth.ScanParameters | src/scripts/dropbox_client.js:35-43 | the scan ends on the last parameter whose key is `access_token` and takes its value; it takes nothing iff no such parameter exists |
| Auth.Authorize | src/scripts/dropbox_client.js:24-57 | a flow error is passed on; no redirect URL gives "Authorization failed"; success is a non-empty value of the last `access_token` parameter; otherwise "Issuing Access token failed" |
| Auth.TwiceNamedParameters | src/scripts/dropbox_client.js:34-43 | a fragment naming the token twice splits into two parameters; the second is the last token parameter and holds the second value |
| Auth.AuthorizeLastToken | src/scripts/dropbox_client.js:24-57 | without a flow error, the callback returns exactly the non-empty value of the last `access_token` parameter |
| Auth.LastTokenWins | src/scripts/dropbox_client.js:24-57 | with two `access_token` parameters, the parameter loop returns the last one, unlike the fragment regex |
| Content.Plus | src/scripts/dropbox_client.js:420-457 | JavaScript addition: NaN if either operand is not a number, else the sum |
| Content.Minus | src/scripts/dropbox_client.js:420-422 | JavaScript subtraction: NaN if either operand is not a number, else the difference |
| Content.MinChunk | src/scripts/dropbox_client.js:422 | `Math.min(CHUNK_SIZE, x)` is at most both arguments and equal to one of them; NaN stays NaN |
| Content.RelativeIndex | src/scripts/dropbox_client.js:424 | a `slice` bound is clamped to the length; a negative bound counts from the end |
| Content.Slice | src/scripts/dropbox_client.js:424 | `slice(begin, end)` is the subrange for in-range bounds, empty when end is not after begin, and empty for a NaN end |
| Content.RangeRoundTrip | src/scripts/dropbox_client.js:216-235 | for a positive length the `Range` header denotes exactly the bytes from `offset` to `offset + length - 1` |
| Content.EmptyRangeInvalid | src/scripts/dropbox_client.js:218 | a zero-length read from offset 1 on sends a header that reads back with its last byte before its first; at offset 0 the header `bytes=0--1` does not read back as a range at all |
| Content.ReadFile | src/scripts/dropbox_client.js:216-235 | a read issues one download of the path; for a non-negative offset and a positive length its `Range` header reads back as exactly the bytes `offset` to `offset + length - 1`; the remote answer is handed back unchanged |
| Content.Record | src/scripts/dropbox_client.js:444-447 | after a chunk, the open file's record, if it has one, gets the new offset with its other fields kept; every other record is untouched and the table keeps its keys |
| Content.Send | src/scripts/dropbox_client.js:390-461 | every request of the upload loop uses the session id; a failure is the answer to the last request; every request before the last got a success; no other record changes |
| Content.Chunks | src/scripts/dropbox_client.js:420-424 | the chunks concatenate back to the data; none exceeds CHUNK_SIZE; all but the last are full; none is empty unless the data is |
| Content.ChunkCount | src/scripts/dropbox_client.js:420-423 | the number of chunks is the data length divided by CHUNK_SIZE, rounded up, and at least one |
| Content.ChunksOfBuffer | src/scripts/dropbox_client.js:420-423 | `k` full chunks and a non-empty tail take `k + 1` appends, so 5 × CHUNK_SIZE + 37 bytes take 6 |
| Content.Appends | src/scripts/dropbox_client.js:425-443 | one append per chunk, carrying that chunk and the session id |
| Content.AppendOffsets | src/scripts/dropbox_client.js:448-452 | the i-th append's offset is the start offset plus the bytes of all earlier chunks |
| Content.SendAllOk | src/scripts/dropbox_client.js:390-461 | with every answer a success, the loop appends each chunk at its offset, then finishes at the total offset if a commit is needed, then succeeds; the record ends at the offset after the last byte |
| Content.OpenFile | src/scripts/dropbox_client.js:175-178 | opening gives the request id a fresh record without session or offset; other records are unchanged |
| Content.WriteFile | src/scripts/dropbox_client.js:274-284 | an open file with a session id writes without starting a session; one without starts a session first, passes on its failure, and records the new id |
| Content.WriteAllOk | src/scripts/dropbox_client.js:274-284 | with every answer a success, a write starts a session only when none is recorded, then appends every chunk; the record ends at the offset after the data |
| Content.CloseFile | src/scripts/dropbox_client.js:180-214 | a close finishes the session exactly when the file was opened for writing and has a session id, at the recorded offset; otherwise it succeeds with no request |
| Content.OpenWriteClose | src/scripts/dropbox_client.js:175-214 | open, write and close finishes the new session at the offset after the written data |
| Content.CloseWithoutWrite | src/scripts/dropbox_client.js:175-214 | closing a file that was never written succeeds without a request |
| Content.ZeroBytes | src/scripts/dropbox_client.js:315-318 | padding is the requested number of NUL bytes |
| Content.Resize | src/scripts/dropbox_client.js:302-318 | a shorter length keeps the first `length` bytes; a longer one appends NUL bytes; the result has exactly the requested length |
| Content.Truncate | src/scripts/dropbox_client.js:286-337 | a truncation downloads the whole file first and passes on a download failure; then it starts a session and passes on its failure |
| Content.TruncateAllOk | src/scripts/dropbox_client.js:286-337 | with every answer a success, a truncation re-uploads the resized content from offset 0 and commits it at the requested length |
| Content.LiteralSmallAgrees | src/scripts/dropbox_client.js:390-461 | for data of at most one chunk, the loop as written behaves exactly like the intended loop |
| Content.LiteralUnderSends | src/scripts/dropbox_client.js:420-458 | for data longer than one chunk, the loop as written sends the first chunk, then an empty chunk, then stops, and records a NaN offset |
| Content.LiteralSecondChunkEmpty | src/scripts/dropbox_client.js:424 | `slice(sentBytes, sendLength)` for the second chunk is empty, where the intended chunk is not |
| Client.ToEntryMetadata | src/scripts/dropbox_client.js:573-587 | an entry is a directory iff its tag is `folder`; a missing size reads as 0; a missing modification time reads as now; it has no MIME type and no thumbnail |
| Client.ConvertAll | src/scripts/dropbox_client.js:573-587 | a page converts entry by entry, keeping order and length |
| Client.ConvertAppend | src/scripts/dropbox_client.js:530-587 | converting the concatenation of two pages gives the concatenation of their conversions |
| Client.ThumbnailExtensionIff | src/scripts/dropbox_client.js:361-366 | the extension test is the case-insensitive regex: at least one character before a final `.` and a listed image extension |
| Client.PatternMatchIsLastDot | src/scripts/dropbox_client.js:362 | a regex match ends at the name's last dot |
| Client.CanFetchThumbnailIff | src/scripts/dropbox_client.js:361-366 | a thumbnail is fetched iff the entry is a file smaller than 20971520 bytes whose name matches the extension regex |
| Client.ThumbnailExamples | src/scripts/dropbox_client.js:361-366 | `a.JPG` qualifies; `.png`, a 20 MiB file and a folder do not |
| Client.ThumbnailArgDecodes | src/scripts/dropbox_client.js:135-161 | the thumbnail request's header decodes to its path, format and size fields |
| Client.GetMetadata | src/scripts/dropbox_client.js:117-163 | the root is answered locally; otherwise one metadata call is made; a second thumbnail call is made iff the entry qualifies; a thumbnail failure fails the whole stat |
| Client.FolderMetadata | src/scripts/dropbox_client.js:117-163 | a folder is answered from one call, as a directory |
| Client.ListingPath | src/scripts/dropbox_client.js:165-173 | the root is listed as the empty path; every other path as itself |
| Client.Follow | src/scripts/dropbox_client.js:530-543 | a continuation is issued with the cursor of each page that has more; a failed page fails the listing; the result extends what was gathered |
| Client.ReadDirectory | src/scripts/dropbox_client.js:165-173 | a listing starts with one list call for the listing path |
| Client.FollowChain | src/scripts/dropbox_client.js:530-587 | over a chain of pages, the listing issues one continuation per page with more and returns all entries in page order |
| Client.ReadDirectoryComplete | src/scripts/dropbox_client.js:530-587 | a paginated listing returns the union of all pages' entries in fetch order, with no duplicates and no drops |
| Client.FollowFails | src/scripts/dropbox_client.js:530-543 | a failure on page k fails the listing with that error after k continuations |
| Registry.FileSystemId | src/scripts/dropbox_fs.js:410-412 | the file system id is the `dropboxfs://` prefix followed by the account id |
| Registry.UidRoundTrip | src/scripts/dropbox_fs.js:410-412 | the account id can be read back from the file system id |
| Registry.FileSystemIdInjective | src/scripts/dropbox_fs.js:410-412 | different accounts get different file system ids |
| Registry.OpenedFilesLimit | src/scripts/dropbox_fs.js:40-46 | an unset limit setting means 10; a setting of plain decimal digits is read as that number, and other settings are not modelled |
| Registry.OpenedFilesLimitRoundTrip | src/scripts/dropbox_fs.js:40-46 | a stored limit `k` is read back as `k` |
| Registry.Mount | src/scripts/dropbox_fs.js:21-64 | a mount succeeds iff authorization and the user lookup succeed and the account is not mounted yet; success files the client and the credential and requests a writable mount named after the user; a failure changes nothing |
| Registry.MountTwice | src/scripts/dropbox_fs.js:26-37 | mounting the same account twice gives ALREADY_MOUNTED and no change |
| Registry.Resume | src/scripts/dropbox_fs.js:66-80 | a resume succeeds iff a credential is stored, and then rebuilds the client from it; otherwise it gives CREDENTIAL_NOT_FOUND |
| Registry.DoUnmount | src/scripts/dropbox_fs.js:239-265 | an unmount removes the account's client, cache, watchers, credential and mount, and nothing of any other account |
| Registry.UnmountThenMount | src/scripts/dropbox_fs.js:239-265 | after an unmount the same account can be mounted again |
| Registry.UnmountRequested | src/scripts/dropbox_fs.js:346-361 | an unmount request succeeds iff a client is live or can be resumed, and then leaves nothing of that account |
| Registry.Expire | src/scripts/dropbox_client.js:339-343 | a 401 requests the unmount of the account of the client that sent it: once done, nothing of that account remains, and every other account is untouched |
| Registry.EnsureClient | src/scripts/dropbox_fs.js:300-333 | a live client is used as is; a stored credential is resumed; with neither, the request fails and the re-read credential, if any, is unmounted |
| Registry.ResumeFailureLeavesState | src/scripts/dropbox_fs.js:300-333 | a failed resume with no credential to re-read gives FAILED and changes nothing |
| Registry.Trim | src/scripts/dropbox_fs.js:202-220 | a trimmed entry keeps exactly the requested fields, each with its value |
| Registry.TrimAllLossless | src/scripts/dropbox_fs.js:202-220 | trimming with every field requested loses only the MIME type |
| Registry.TrimIdempotent | src/scripts/dropbox_fs.js:202-220 | for every request, the trimmed record depends exactly on the requested fields, so trimming an entry rebuilt from a trimmed record gives the same record |
| Registry.WithCache | src/scripts/dropbox_fs.js:395-403 | replacing one account's cache leaves clients, credentials, mounts and watchers alone |
| Registry.ReadDirectoryRequested | src/scripts/dropbox_fs.js:93-101 | a listing success caches the listing and returns every entry trimmed, in order; a 401 requests the account's unmount and replies INVALID_OPERATION without waiting for it; any other failure is passed on with no change |
| Registry.GetMetadataRequested | src/scripts/dropbox_fs.js:103-114 | a stat is served from the cache iff the entry is cached and no thumbnail is requested; otherwise the remote answer is trimmed or its error passed on, and a 401 requests the account's unmount and replies INVALID_OPERATION without waiting for it |
| Registry.StatAfterListing | src/scripts/dropbox_fs.js:93-114 | after listing a directory, a stat of a child without thumbnail is served from the cache iff the listing named it |
| Registry.RemoveAll | src/scripts/dropbox_fs.js:222-237 | removing several paths drops every listing under any of them and the parent listing each non-top-level path names; every other listing survives unchanged |
| Registry.ChangeRequested | src/scripts/dropbox_fs.js:136-176 | a successful change invalidates the touched paths; a 401 requests the account's unmount and replies INVALID_OPERATION without waiting for it; any other failure is passed on with no change |
| Registry.ChangeForcesFetch | src/scripts/dropbox_fs.js:136-176 | after a successful change, a stat inside a touched path goes to the remote side |
| Registry.MoveInvalidatesBoth | src/scripts/dropbox_fs.js:222-229 | a move invalidates both the source and the target |
| Registry.AddWatcher | src/scripts/dropbox_fs.js:178-182 | adding a watcher puts the path into the account's set and touches nothing else |
| Registry.RemoveWatcher | src/scripts/dropbox_fs.js:184-188 | removing a watcher takes the path out of the account's set and touches nothing else |
| Registry.AddRemoveWatcher | src/scripts/dropbox_fs.js:178-188 | adding then removing a new watcher restores the set |
| Registry.Dispatch | src/scripts/dropbox_fs.js:93-188 | a handler changes only its own account's cache and watchers, unless its request met an expired token, after which nothing of the account is left; other accounts are untouched either way |
| Registry.HandleEvent | src/scripts/dropbox_fs.js:300-333 | a request runs its handler with a live or resumed client, otherwise fails with FAILED; other accounts stay untouched when every client and credential is filed under its own account's id |
| Registry.ExpiredTokenUnmounts | src/scripts/http_fetcher.js:36-40 | a listing or a change answered with 401 is delivered as INVALID_OPERATION with the unmount, and leaves nothing of the account and every other account as it was |
| Poller.ChangedNames | src/scripts/dropbox_fs.js:468-487 | a name is reported changed iff it is listed and either new, or not a directory on both sides with its type, size or modification time differing from the cached entry |
| Poller.ChangedNamesInOrder | src/scripts/dropbox_fs.js:468-487 | the CHANGED notices follow listing order: a listing split in two gives the first part's notices, then the second's; one entry gives one notice iff it is reported |
| Poller.DeletedNames | src/scripts/dropbox_fs.js:488-494 | a name is reported deleted iff it was cached and is missing from the new listing |
| Poller.WatchDirectory | src/scripts/dropbox_fs.js:450-500 | polling off does nothing; a failed listing reports nothing, and a 401 (INVALID_OPERATION) also unmounts the account, leaving every other account as it was; a success reports the changed and deleted names and caches the new listing |
| Poller.QuietWhenNothingReported | src/scripts/dropbox_fs.js:468-487 | with no entry reportable, nothing is reported changed |
| Poller.NothingAgainstItself | src/scripts/dropbox_fs.js:468-494 | a listing compared with its own cache reports nothing |
| Poller.PollTwiceQuiet | src/scripts/dropbox_fs.js:457-500 | polling the same listing twice reports nothing the second time and changes nothing |
| Poller.AddedAndRemoved | src/scripts/dropbox_fs.js:468-494 | a new name is reported changed and a vanished name is reported deleted |
| LegacyClient.HandleError | app/scripts/dropbox_client.js:397-419 | 404 gives NOT_FOUND; 416 gives an empty success; 401 unmounts and gives INVALID_OPERATION; every other status gives FAILED |
| LegacyClient.Deliver | app/scripts/dropbox_client.js:397-419 | a success is delivered; an HTTP error goes through the error policy |
| LegacyClient.PoliciesCompared | app/scripts/dropbox_client.js:397-419 | the two generations agree on 404, 416 and 401; a 409 is FAILED in the legacy policy but NOT_FOUND in the current one; 0 and 429 fail in the legacy policy and re-issue in the current one |
| LegacyClient.NameFromPath | app/scripts/dropbox_client.js:552-556 | the name is the `/`-free end of the path, preceded by a `/` whenever it is shorter than the path |
| LegacyClient.NameAfterLastSlash | app/scripts/dropbox_client.js:552-556 | the name is everything after the path's last `/` |
| LegacyClient.NameOfChild | app/scripts/dropbox_client.js:552-556 | the name of `dir/name` is `name` |
| LegacyClient.StatMetadata | app/scripts/dropbox_client.js:133-157 | a stat entry keeps type and size, names the entry after its path, defaults a missing time to now and gives a MIME type only to files |
| LegacyClient.ListedMetadata | app/scripts/dropbox_client.js:483-517 | a listed entry keeps type and size and gives a MIME type only to files; a missing time becomes an invalid date |
| LegacyClient.GetMetadata | app/scripts/dropbox_client.js:121-163 | a deleted entry is NOT_FOUND; a thumbnail is fetched iff requested and the remote side says one exists; a delivered entry is the stat conversion of the answer, carrying the fetched thumbnail (`""` after a 416) exactly then; a failed thumbnail fails the stat with its own error |
| LegacyClient.StatAgreesWithListing | app/scripts/dropbox_client.js:133-157 | a remote stat of a child without a thumbnail names the child and reports what a listing of the parent would, except that a missing instant reads as now |
| LegacyClient.ReadDirectory | app/scripts/dropbox_client.js:165-181 | one listing call; an HTTP error never replies; a deleted directory is NOT_FOUND; otherwise every entry is converted in order |
| LegacyClient.ListingWithoutInstant | app/scripts/dropbox_client.js:483-517 | a listed file without a modification time gets an invalid date |
| LegacyClient.Carried | app/scripts/dropbox_client.js:448-451 | an upload id is sent iff it is truthy |
| LegacyClient.StoreId | app/scripts/dropbox_client.js:462-465 | each chunk's answer stores the returned upload id in the open file's record and touches no other record |
| LegacyClient.Send | app/scripts/dropbox_client.js:421-481 | the upload loop keeps every record's mode; it replies within the answers it is given |
| LegacyClient.Reference | app/scripts/dropbox_client.js:421-481 | the reference trace: one chunked upload per chunk, then a commit of the path when one is needed; the first chunk carries the initial id if it is truthy and each later chunk the id returned for the chunk before |
| LegacyClient.SendAllDone | app/scripts/dropbox_client.js:421-481 | with every answer a success, the loop issues the reference trace and stores the last upload id |
| LegacyClient.OpenFile | app/scripts/dropbox_client.js:183-188 | opening gives the request id a record holding only the mode |
| LegacyClient.WriteFile | app/scripts/dropbox_client.js:331-345 | a write starts at its offset and carries the recorded upload id only if it is truthy; an unknown request id sends nothing |
| LegacyClient.FirstChunkWithoutId | app/scripts/dropbox_client.js:331-345 | the first write after an open sends no upload id and ends with the last returned id recorded |
| LegacyClient.CloseFile | app/scripts/dropbox_client.js:190-216 | a close commits iff the file was opened for writing and has an upload id; otherwise it succeeds with no request |
| LegacyClient.ReadHandleNeverCommits | app/scripts/dropbox_client.js:190-216 | closing a file opened for reading never commits |
| LegacyClient.Truncate | app/scripts/dropbox_client.js:347-393 | a truncation downloads the file first and passes a download failure through the error policy |
| LegacyClient.TruncateAllDone | app/scripts/dropbox_client.js:347-393 | with every answer a success, a truncation re-uploads the resized content from offset 0 without an initial id and commits it |
| LegacyFs.Mount | app/scripts/dropbox_fs.js:21-59 | a mount succeeds iff nothing is mounted and authorization and the mount succeed; success stores the token; a mount error drops the client |
| LegacyFs.Resume | app/scripts/dropbox_fs.js:61-76 | a live client is kept; a stored token rebuilds it; otherwise the resume gives ACCESS_TOKEN_NOT_FOUND |
| LegacyFs.DoUnmount | app/scripts/dropbox_fs.js:210-226 | an unmount forgets the stored token and the mount whether or not revocation succeeded; the client object, its records, the open files and the cache stay; the client loses its token exactly when the revocation of a truthy token succeeded |
| LegacyFs.UnmountEitherWay | app/scripts/dropbox_client.js:68-90 | a failed revocation unmounts just as a successful one, except that only a successful revocation clears the client's token; a later resume without a client finds no stored token |
| LegacyFs.Conclude | app/scripts/dropbox_client.js:397-419 | a refusal with unmount unmounts, with the revocation taken as failed, before replying; an empty success is a success; a missing delivery replies nothing and changes nothing |
| LegacyFs.ReadDirectoryRequested | app/scripts/dropbox_fs.js:82-89 | a listing success caches and returns the entries; a deleted directory is NOT_FOUND; an HTTP error never replies |
| LegacyFs.GetMetadataRequested | app/scripts/dropbox_fs.js:91-111 | a stat makes no call iff no thumbnail is wanted and the entry is cached, and then answers from the cache; otherwise it replies with the client's entry or error, and a 401 unmounts before the reply; the cache never changes |
| LegacyFs.StatAfterListing | app/scripts/dropbox_fs.js:82-111 | after listing a directory, a stat of a child is served from the cache iff the listing named it |
| LegacyFs.PathOf | app/scripts/dropbox_fs.js:122-140 | the path of an open request is the one recorded when it was opened |
| LegacyFs.OpenFileRequested | app/scripts/dropbox_fs.js:113-120 | opening records the path and the client record and replies at once |
| LegacyFs.CloseFileRequested | app/scripts/dropbox_fs.js:133-140 | a close forgets the open path only when the client's close succeeded, and then replies with no value |
| LegacyFs.OpenReadClose | app/scripts/dropbox_fs.js:113-140 | opening for reading then closing makes no call and forgets the path |
| LegacyFs.Invalidated | app/scripts/dropbox_fs.js:142-208 | the legacy handlers invalidate a subset of the paths the current ones invalidate |
| LegacyFs.InvalidationCompared | app/scripts/dropbox_fs.js:142-208 | creating a directory, writing and truncating invalidate nothing; delete, move, copy and file creation invalidate what the current generation does |
| LegacyFs.ChangeRequested | app/scripts/dropbox_fs.js:142-208 | a success, and a 416, invalidate the touched paths and reply with no value; a 401 unmounts and gives INVALID_OPERATION; other errors change nothing |
| LegacyFs.WriteFileRequested | app/scripts/dropbox_fs.js:182-189 | a write issues the client's calls for the recorded path, never touches the cache, and a success replies with no value |
| LegacyFs.TruncateRequested | app/scripts/dropbox_fs.js:191-198 | a truncation issues the client's calls, never touches the cache, and a success replies with no value |
| LegacyFs.WriteKeepsStaleEntry | app/scripts/dropbox_fs.js:182-189 | after a write, a stat of the written file is still served from the cached entry |
| LegacyFs.Dispatch | app/scripts/dropbox_fs.js:78-80 | an unmount request unmounts and replies at once |
| LegacyFs.HandleEvent | app/scripts/dropbox_fs.js:230-243 | a request runs with the live client, or with one rebuilt from the stored token; with neither, it fails with FAILED and changes nothing |
| LegacyFs.UnmountKeepsClient | app/scripts/dropbox_fs.js:210-243 | after an unmount the client object is still live, so later requests still run against it |
| LegacyFs.RestartForgetsUploads | app/scripts/dropbox_fs.js:61-76 | a client rebuilt by resume has no open-file records, so a write to a file opened before sends nothing and never replies |

## Left out

- Timers and scheduling: the one-minute alarm and the loop over accounts and watched directories (src/scripts/dropbox_fs.js:190-198) are left out. `Poller.WatchDirectory` models one poll of one directory.
- Asynchronous interleaving is left out. Every operation runs to completion on the answers it is given, so races between operations on the same path are not modelled.
- Clocks are parameters: `new Date()` is the parameter `now`. One `now` serves a whole listing, where the source reads the clock once per entry.
- Date parsing is left out. Modification times are millisecond integers, and the legacy `new Date(undefined)` is `InvalidDate`.
- `Number()` of a `Retry-After` header is modelled only for the delay-seconds form of section 10.2.3 of RFC 9110 (one or more decimal digits). The HTTP-date form, whitespace and other numeric spellings read as a 0 ms delay.
- Thumbnail bytes become a data URL through `FileReader` and `Blob` in the source. The model carries the thumbnail as an opaque string.
- LegacyClient.GetMetadata: a 416 on the legacy thumbnail call hands the empty `ArrayBuffer` to the thumbnail's reader. The model writes that thumbnail as the empty string.
- The grow path of a truncation builds a `Blob` from a NUL string. The model appends zero bytes directly.
- The empty-string `server_modified` is modelled like a missing one, as JavaScript's falsy test treats it.
- `Poller.WatchDirectory`: the deleted names form a set, so the order in which DELETED notices are sent is not modelled.
- Poller.WatchDirectory: the alarm handler polls with whatever `getDropboxClient` returns (src/scripts/dropbox_fs.js:190-198). For a watched file system without a live client that is `undefined`, and the listing call throws. The model polls only file systems that have a client.
- Observability is left out: console logging, notifications, Sentry/Raven reporting and the `report` flag's sink. Only the flag itself is modelled.
- The `chrome.*` APIs are left out: storage, identity, the file system provider registry and `runtime.lastError`. Their outcomes are inputs.
- jQuery's binary transport and the HTTP layer are left out. Each call's answer is an input.
- `getOpenedFile` failing for an unknown open request is not modelled separately. An unknown request id leads to "no reply", which is where the source's exception ends.
- `Content.WriteFile`: an unknown request id makes the source throw at src/scripts/dropbox_client.js:276. The model replies nothing and sends nothing.
- The legacy `readFile` is not modelled separately. It builds the same range header as `Content.ReadFile`.
- The legacy `createDirectory`, `deleteEntry`, `moveEntry`, `copyEntry` and `createFile` client calls are modelled only through their remote answer in `LegacyFs.ChangeRequested`.
- The legacy `unauthorize` call is not traced: `LegacyFs.DoUnmount` only takes whether it succeeded.
- `LegacyFs.Mount`: the authorization failure reason is modelled as the error code of the token reply, and the mount's `lastError` as a free-text reason.
- `LegacyClient.Send` models the intended loop. The legacy loop carries the same two defects as the current one: `slice(sentBytes, sendLength)` at app/scripts/dropbox_client.js:447 and `options.sendBytes` at app/scripts/dropbox_client.js:470. They are exhibited once, on the current loop, under Findings.
- `LegacyClient.Send` states mode preservation and the reply bound for every input. The full trace is stated by `LegacyClient.SendAllDone` only for runs where every answer succeeds.
- `Content.Send` likewise states the full trace only through `Content.SendAllOk`, for runs where every answer succeeds.
- `Registry.Dispatch`: reading, opening and closing files reach it as a `ContentEvent` carrying the content side's reply. Their traces are stated in `Content`.
- The legacy client's `readDirectory` (app/scripts/dropbox_client.js:165-180) has no failure handler, so an HTTP error never replies. This is modelled as the reply `None`, not as a hang.
- MetadataCache.Get: the source keeps listings in plain JavaScript objects, so a name such as `constructor` finds an inherited `Object.prototype` member (src/scripts/metadata_cache.js:14 and 42), and `put` of an entry named `__proto__` does not store it. The model's maps have no inherited keys.
- Poller.ChangedNames: the same lookup of a cached entry by name (src/scripts/dropbox_fs.js:470) finds an inherited member for a name such as `constructor`, and the comparison at line 476 then throws. The model compares only entries that were cached.
- Auth.Hash: `new URL(urlWithToken)` (src/scripts/auth_strategies.js:5) throws on a string that is not an absolute URL, and the URL parser percent-encodes some characters of the fragment. The model reads the fragment straight from the text.
- Json.CodeUnits: a Dafny `char` is a Unicode scalar value, so a JavaScript string holding a lone surrogate, which `escapeUnicode` escapes one code unit at a time, cannot be represented.
- Registry.Mount: a 401 from the user lookup makes the source run its unmount for a client whose account is not known yet. The model changes nothing on that failure.
- Registry.HandleEvent: that other accounts stay untouched is stated for states in which every client and credential is filed under its own account's id (`Registry.Keyed`, which every operation preserves). An expired token unmounts by the client's account, which is this file system only then.
- LegacyFs.Conclude: the unmount a 401 triggers first tries to revoke the token the server has just refused. The model takes that revocation as failed, so the client keeps its token.
- Registry.Expire: a 401 only requests the unmount, which completes in later storage callbacks (src/scripts/dropbox_fs.js:247-265), and the INVALID_OPERATION reply is sent without waiting (src/scripts/http_fetcher.js:39-40). The model applies the unmount in the same step as the reply.
- Registry.ChangeRequested: for a truncation the source passes `false` to the host's success callback (src/scripts/dropbox_fs.js:169), which takes no value. The model replies with no value.
- LegacyFs.TruncateRequested: the source passes `false` to the host's success callback, which takes no value. The model replies with no value.
- `app/scripts/metadata_cache.js` is not part of this model. The legacy adapter reuses `MetadataCache`.
- The window, background, auth-window and base-window scripts, the top-level `dropbox_fs.js`, the Gruntfile and the gulpfile are left out. They are UI, build scripts, or an older copy outside the core.

## Findings

| source | as written | input that shows it | evidently intended | confidence | as-written member | corrected member |
|---|---|---|---|---|---|---|
| src/scripts/dropbox_client.js:424 | `options.data.slice(options.sentBytes, sendLength)` passes a length where `slice` expects an end position | data of CHUNK_SIZE + 1 bytes: the second chunk is `slice(CHUNK_SIZE, 1)`, which is empty | `slice(sentBytes, sentBytes + sendLength)`, so each append sends the next chunk | high; not executed | Content.LiteralSecondChunkEmpty | Content.SendAllOk |
| src/scripts/dropbox_client.js:452 | `sentBytes: options.sendBytes + sendLength` reads an undefined property, so `sentBytes` becomes NaN after the first chunk | data of CHUNK_SIZE + 1 bytes with every answer a success: the loop sends one full chunk and one empty chunk, stops, and records a NaN offset | `options.sentBytes + sendLength` | high; not executed | Content.LiteralUnderSends | Content.SendAllOk |
