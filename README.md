# Asotabsicon site: offline cache worker and chat assistant, modelled in Dafny

The model covers two small stateful engines of the Asotabsicon real-estate site.

**The service worker** (`service-worker.js`) keeps page caches in the browser.
- **install** opens the cache generation `asotabsicon-v1` and fills it with the twelve manifest pages (`addAll`). Only on success does it call `skipWaiting`. A failure is caught and logged.
- **activate** deletes every cache whose name is not the current one, then claims its clients.
- **fetch** is cache-first.
  - A hit in *any* cache is returned without going to the network.
  - On a miss the network response is returned unchanged.
  - That response is also written into the current cache when its status is exactly 200, its type is `basic`, and the URL passes the same-origin or manifest test.

The platform's cache storage (section 5 of the W3C Service Workers specification) is modelled as an ordered map from cache name to cache. `CacheStorage` holds it and `ServiceWorker` holds the handlers.
- `caches.match` searches every cache in creation order.
- `cache.put` refuses non-GET requests, non-http(s) URLs and 206 responses.
- `cache.addAll` is all-or-nothing.

**The chat assistant** (`script.js:87-307`) keeps the transcript `chatHistory`, the busy flag `isAILoading` and the Firestore document reference `fsChatDocRef`.
- `handleSendMessage` ignores a blank message or one sent while busy. Otherwise it shows the message, sets the busy flag and calls `sendMessageToAPI`.
- Each invocation of `sendMessageToAPI` pushes the user message and posts the whole history.
- On HTTP 429 with `retryCount < 5` it sleeps `2^retryCount * 1000 ms` plus jitter, then re-invokes itself.
- Any other reply of the modelled shapes ends the send with exactly one `model` message:
  - the candidate's text, with its grounding sources shown;
  - the apology text, when there is no text;
  - the error text, on a network failure, a non-ok status or a body that is not JSON.
- The history is then saved with a guarded, error-swallowing merge write.
- `loadChatHistory` chooses the document path and replaces the history with the stored one when there is one.

The pure parts are functions in `ChatModel`. `SendFrom` follows the recursive retry call by call. The class `ChatSession.Chat` runs the same steps on its fields, with `SendMessageToAPI` recursive on `retryCount` as the source's function is. Each method is proved equal to the function that specifies it.

Files:
- `wrappers.dfy`: `Option`.
- `strings.dfy`: JavaScript `indexOf`, `includes`, `replace` and `startsWith` on strings.
- `cache_storage.dfy`: the platform cache storage.
- `service_worker.dfy`: the handlers, their storage effects, the lemmas, and `class Worker`.
- `chat_model.dfy`: the pure chat logic and the lemmas about a send, a save and a load.
- `chat_session.dfy`: `class Chat`.

Oracles:
- Everything the code gets from outside is a parameter:
  - fetch results: one `Option<Response>` per manifest page, one per intercepted request, and one `Reply` per chat request;
  - `Math.random` (an integer jitter in [0, 1000));
  - the clock;
  - the Firestore documents (a map) and whether a read or a write rejects;
  - the `window.db`, `window.auth`, `window.appId` and `currentUser` environment.
- The origin is the worker's `self.location.origin`.

## Model

| member | source | states |
|---|---|---|
| `Strings.IndexOfFrom` | service-worker.js:83 | the result is -1 or an index at or after `from` where the pattern occurs, and no earlier index from `from` holds an occurrence |
| `Strings.Includes` | service-worker.js:83 | `includes` holds exactly when the pattern occurs somewhere in the string |
| `Strings.ReplaceFirst` | service-worker.js:83 | a string `replace` returns the input when the pattern is absent, else replaces only the first occurrence |
| `CacheStorage.UrlKey` | service-worker.js:64 | the key a request is cached and matched under is the URL up to its first `#`: a prefix of the URL with no `#` in it |
| `CacheStorage.Open` | service-worker.js:28 | `caches.open` returns the existing cache unchanged, or appends a new empty cache at the end of the order |
| `CacheStorage.Delete` | service-worker.js:51 | `caches.delete` removes exactly that name and its cache and keeps the storage well-formed |
| `CacheStorage.CacheMatch` | service-worker.js:64 | a single cache answers exactly a GET whose fragment-free URL it holds, with a response it stores |
| `CacheStorage.Match` | service-worker.js:64 | `caches.match` answers nothing for a non-GET; it answers nothing exactly when no listed cache holds the request, and otherwise the answer of the first listed cache, in creation order, that holds it |
| `CacheStorage.MatchIgnoresFragment` | service-worker.js:64 | adding a fragment to a URL never changes what is matched |
| `CacheStorage.MatchIn` | service-worker.js:64 | the storage-wide match is None exactly when no listed cache holds the request; otherwise it is the response of the first cache that does |
| `CacheStorage.Put` | service-worker.js:88 | `put` changes only the named cache and only the request's key; it changes nothing for a non-GET, non-http(s) or 206 exchange; otherwise the cache then matches the request with that response |
| `CacheStorage.PutAll` | service-worker.js:31 | storing a list of key/response pairs adds exactly those keys and leaves every other key's response alone |
| `CacheStorage.PutAllAt` | service-worker.js:31 | with distinct keys, each key ends up holding its own response |
| `CacheStorage.AddAll` | service-worker.js:31 | `addAll` succeeds exactly when every request is cacheable and every fetch gave an ok, non-206, non-error response; it then writes all pairs into the one cache, and otherwise writes nothing |
| `CacheStorage.PutThenMatch` | service-worker.js:86-88 | a response just put is what the next storage-wide match returns, when no older cache holds that request |
| `ServiceWorker.Resolve` | service-worker.js:5-31 | a manifest path resolves to a URL that starts with the origin and `/`, and gains no fragment |
| `ServiceWorker.ResolveInjective` | service-worker.js:5-31 | two different manifest paths (`/` or relative) never resolve to the same URL |
| `ServiceWorker.ManifestKeysDistinct` | service-worker.js:5-21 | the twelve manifest paths give twelve distinct cache keys |
| `ServiceWorker.ManifestRequestsCacheable` | service-worker.js:5-31 | under an http(s) origin, every manifest request is one `addAll` accepts |
| `ServiceWorker.InstallEffect` | service-worker.js:25-38 | install keeps every other cache intact, leaves the current cache present, and on failure leaves exactly the storage `caches.open` made |
| `ServiceWorker.InstallAllOrNothing` | service-worker.js:27-36 | install caches, and so reaches `skipWaiting`, exactly when every manifest fetch produced an acceptable response |
| `ServiceWorker.InstallWritesManifest` | service-worker.js:28-33 | a successful install adds exactly the manifest keys to the current cache, each holding the response fetched for it |
| `ServiceWorker.Worker.Install` | service-worker.js:25-38 | the install handler's new storage is `InstallEffect`, and `skipWaiting` is recorded only on success |
| `ServiceWorker.Purge` | service-worker.js:43-55 | after activate only the current name can remain, and the current cache, when present, is untouched |
| `ServiceWorker.PurgeIdempotent` | service-worker.js:45-53 | on already purged storage activate deletes nothing and changes nothing |
| `ServiceWorker.PurgedMatch` | service-worker.js:43-64 | after activate a lookup is answered by the current cache alone |
| `ServiceWorker.DeleteStale` | service-worker.js:45-54 | the deletion loop over the enumerated names keeps the storage well-formed |
| `ServiceWorker.DeleteStaleIsPurge` | service-worker.js:45-54 | deleting every enumerated name other than the current one, in order, yields exactly `Purge` |
| `ServiceWorker.Worker.Activate` | service-worker.js:42-57 | the activate handler leaves exactly `Purge` of the old storage, deletes exactly the stale names, in order, and claims the clients |
| `ServiceWorker.CacheableUrl` | service-worker.js:83 | the URL test amounts to: the URL contains the origin, or it is itself a manifest path |
| `ServiceWorker.HandleFetch` | service-worker.js:61-105 | a hit returns the stored response with storage untouched and no network use; a miss returns the network response unchanged (none if the fetch rejected); storage changes only for a 200 `basic` response to a URL that passes the test, and then only by a put into the current cache |
| `ServiceWorker.FetchIsLocal` | service-worker.js:83-90 | a fetch changes no cache but the current one and no key but the request's; the only name it can add is the current one, at the end |
| `ServiceWorker.StoredResponseServesNextFetch` | service-worker.js:64-92 | a response the handler stored is served for the next fetch of the same request without the network |
| `ServiceWorker.InstalledPagesServedFromCache` | service-worker.js:64-70 | after a successful install, every manifest page is served from the cache |
| `ServiceWorker.Worker.Fetch` | service-worker.js:61-105 | the fetch handler answers and updates storage as `HandleFetch` says and counts a network request only on a miss |
| `ChatModel.ExtractSources` | script.js:262-267 | extraction never yields more sources than attributions |
| `ChatModel.ExtractSourcesSound` | script.js:262-267 | every source comes from an attribution whose `web.uri` and `web.title` are both non-empty |
| `ChatModel.ExtractSourcesComplete` | script.js:262-267 | every attribution with both fields yields its source |
| `ChatModel.ExtractSourcesAppend` | script.js:262-267 | extraction distributes over concatenation, so the attributions' order is kept |
| `ChatModel.ExtractSourcesAllKept` | script.js:262-267 | when every attribution has both fields, the sources are the attributions one for one |
| `ChatModel.ExtractSourcesNoneKept` | script.js:262-267 | when no attribution has both fields, there are no sources |
| `ChatModel.AnswerOf` | script.js:250-269 | the answer text is never empty, and sources appear only when the first candidate has text |
| `ChatModel.AnswerOfCases` | script.js:251-269 | with a first candidate's non-empty text that text is shown, with the sources extracted from its grounding attributions (none when it has no attributions); otherwise the apology with no sources; every source has both fields |
| `ChatModel.Outcome` | script.js:241-283 | a rejected fetch, a non-ok status (including a 429 at the retry bound) and an unparsable body all give the error text with no sources; an ok parsed reply gives the first candidate's text with its extracted sources, or the apology |
| `ChatModel.BackoffDelay` | script.js:243 | with a jitter in [0, 1000), the delay after the call with retry count i lies in [2^i*1000, 2^i*1000+1000) |
| `ChatModel.DelayGrows` | script.js:243 | each backoff delay is longer than every earlier one, whatever the jitters |
| `ChatModel.ChatDocPath` | script.js:189-198 | the document path is the application's `users/` prefix, the user id and the fixed `/chats/ai_assistant` suffix, so the user id can be read back from it |
| `ChatModel.ChatDocPathInjective` | script.js:189-198 | within one application, two different user ids (`temp_user` among them) never share a chat document |
| `ChatModel.TrimStart` | script.js:293 | the result is a suffix of the input after only whitespace, and it does not start with whitespace |
| `ChatModel.TrimEnd` | script.js:293 | the result is a prefix of the input before only whitespace, and it does not end with whitespace |
| `ChatModel.TrimMiddle` | script.js:293 | the trimmed message is a contiguous part of the input with only whitespace before and after it |
| `ChatModel.TrimEmptyIff` | script.js:293-294 | the trimmed message is empty exactly when the input is all JavaScript whitespace; otherwise it neither starts nor ends with whitespace |
| `ChatModel.SendFrom` | script.js:224-287 | a send makes one more request than it sleeps, and never more retries than the bound allows from its retry count |
| `ChatModel.SendHistory` | script.js:225-272 | k retries leave the old history, then k+1 copies of the user message, then the one model message |
| `ChatModel.SendRequests` | script.js:225-245 | the i-th request's `contents` are the old history followed by i+1 copies of the user message |
| `ChatModel.SendRetries` | script.js:241-247 | the retries are exactly the leading replies that are a 429 under the bound, and the last is not; the answer is the last reply's outcome |
| `ChatModel.SendDelays` | script.js:243-245 | the i-th sleep is the backoff of retry number i, computed from that call's jitter |
| `ChatModel.SendBusy` | script.js:241-286 | the busy flag is as the caller left it for the first request and clear for every retry, because the caller's `finally` runs while the re-invocation is in flight |
| `ChatModel.SendBounds` | script.js:93 | a send makes between one and six requests and at most five sleeps, each inside its backoff window |
| `ChatModel.SendRateLimitedThroughout` | script.js:241-283 | six 429 replies give six requests, six copies of the user message and the error text |
| `ChatModel.SendAnsweredAtOnce` | script.js:250-274 | an ok first reply with text gives one request, no sleep, and that text as the model message |
| `ChatModel.SendRetriedOnce` | script.js:224-274 | a 429 then an ok reply gives two requests, the second carrying the user message twice, with the busy flag set and then clear |
| `ChatModel.Saved` | script.js:168-181 | with an incomplete environment, no document reference or a rejected write, nothing changes; otherwise only that document changes, its history and timestamp are set, and its other fields are kept, or empty when the write creates it |
| `ChatModel.SaveIdempotent` | script.js:174-177 | the same merge write twice is the same as once |
| `ChatModel.HistoryBubbles` | script.js:204 | a loaded history shows one bubble per message, its text under its role |
| `ChatModel.Load` | script.js:186-216 | the document reference is the signed-in user's document when `db`, `auth`, `appId` and a user are present, else the `temp_user` one; a signed-in read that finds a stored history makes it the history and shows it bubble by bubble; otherwise the history is kept; the greeting is shown alone, on the fallback and failed-read paths only when the history is empty, and always for a signed-in user with no stored history |
| `ChatModel.GreetingNeverStored` | script.js:191-213 | the greeting is displayed but never enters the history |
| `ChatModel.SaveThenLoad` | script.js:168-203 | what a signed-in session saves, a later load of that user reads back |
| `ChatModel.FailedSaveLoadsOld` | script.js:178-180 | a rejected write is swallowed, and a later load sees the store as before |
| `ChatSession.Chat.ToggleLoading` | script.js:138-163 | the busy flag becomes the argument; nothing else in the state changes |
| `ChatSession.Chat.SaveChatHistory` | script.js:168-181 | the store becomes `Saved` of the current history under the current reference; nothing else changes |
| `ChatSession.Chat.LoadChatHistory` | script.js:186-216 | the reference, history and shown bubbles become those of `Load` |
| `ChatSession.Chat.SendMessageToAPI` | script.js:224-287 | from any retry count, the history, the requests, the busy flag for each request and the delays are those of `SendFrom`; one answer bubble is shown; the store is the save of the final history; the busy flag ends clear |
| `ChatSession.Chat.Conclude` | script.js:271-286 | a call that does not retry pushes the model message, shows its bubble, saves the history and clears the busy flag |
| `ChatSession.Chat.HandleSendMessage` | script.js:292-307 | it sends exactly when the trimmed input is non-empty and the assistant is not busy; otherwise nothing changes; when sending, it shows the user bubble and sets the busy flag, so the first request goes out while busy; the history, requests, busy flags, delays and answer are those of `SendFrom` from a busy start |

## Left out

- The page's DOM work is not modelled:
  - the HTML built by `displayMessage`, beyond the bubble's text, sender and sources;
  - the loading indicator element, disabling, clearing and focusing the input box;
  - the mobile menu and the event-listener wiring (script.js:1-77, script.js:313-338).
- `console` logging is not modelled; it has no effect on the state.
- Every handler is sequential: interleavings of events are not modelled.
  - The unawaited `caches.open().then(put)` of the fetch handler completes before its answer is used.
  - The unawaited `saveChatHistory()` completes where it is called.
  - `Promise.all` in activate runs its deletions in the order of `caches.keys()`.
  - While a retry is in flight the busy flag is already clear, so a second `handleSendMessage` could be accepted and interleave with it. The model records the flag's value per request (`busyDuring`), not that interleaving.
  - The caller's `finally` clears the busy flag just after the re-invocation's request goes out. `ChatSession.Chat.SendMessageToAPI` clears it just before the re-invocation; nothing in a sequential model can observe the difference.
- `skipWaiting` and `clients.claim` are recorded as flags. What they do to the browser's worker lifecycle is not modelled.
- The timer is not modelled. Each delay is recorded and nothing waits.
- `Math.random() * 1000` is an integer jitter in [0, 1000). Fractional milliseconds are not modelled.
- Chat requests: fetching, HTTP and JSON parsing are an oracle of replies.
  - Only `contents` of each payload is recorded. `tools`, `systemInstruction` and the endpoint URL are constants of the source.
  - Absent JSON fields are `None`, and the model's text field is a string. JSON values of another shape are not modelled:
    - a null body (script.js:251), a `groundingAttributions` that is not an array (script.js:262-263) and a null attribution (script.js:264) throw inside the `try` before anything is pushed, so the send ends with the error text as its one `model` message;
    - a truthy text that is not a string is pushed as a `model` message (script.js:271-272) before `displayMessage` throws on it (script.js:112); the `catch` then pushes the error text (script.js:281-282), so the history gains two `model` messages and both are saved.
  - A missing `candidates` array is the empty list.
- Cache matching compares the method and the URL without fragment. These are not modelled:
  - `Vary` headers and request modes;
  - opaque responses' padding;
  - storage quota errors;
  - a rejected `caches.delete` or `caches.keys`.
- `CacheStorage.AddAll`: duplicate requests in one batch are not modelled. The W3C Service Workers specification rejects such a batch with an `InvalidStateError`; the model lets the last response written win. The only batch built, the manifest, has distinct keys (`ServiceWorker.ManifestKeysDistinct`).
- Manifest paths are resolved against the origin followed by `/`. The model assumes the worker is served from the site root.
- A failed install writes no entries, but the empty cache that `caches.open` created stays, and the model keeps it. Likewise, in the fetch handler, `caches.open` creates the current cache even when the `put` after it is refused.
- Firestore:
  - `doc(collection(…))` is treated as total. On the fallback path (script.js:189) the real SDK would throw when `window.db` is absent, and that is not modelled.
  - Stored documents are assumed well-formed (`msg.parts[0].text` exists).
  - A stored empty `history` array counts as present, as the source's truthiness test does.
- Timestamps are integers.
- script.js:339-344 is not modelled. Its `const fsChatDocRef` at script.js:339 redeclares the `let fsChatDocRef` of script.js:99 in the same top-level scope. That is an early SyntaxError, so the browser would reject script.js as written before running any of it. The model describes script.js with lines 339-344 removed. That code also reads an undefined `userId`, and the `if` after it has no effect.

Each invocation re-appends the user message (script.js:226, script.js:245), so after k retries the history holds k+1 copies (`ChatModel.SendHistory`).
