# Request caches of zebar, modelled in Dafny

This project models three caching and configuration pieces of zebar:

- **The desktop app's service worker** (`ServiceWorker`, `service_worker.dfy`). It has a gate that lets non-GET requests, navigations and same-origin requests pass through. It also has a cache proxy that answers the other requests from the `v1` store: it serves hits, fetches misses, stores ok and opaque responses, and substitutes a fixed 503 response when the network fails or the store rejects the write. Finally, it has a message listener that handles `CLEAR_CACHE` and `SET_CONFIG`.
  - The worker is a class whose fields are the store and the configuration cell.
  - The proxy's effect is specified by the pure function `FetchStep`, and the class methods are proved equal to it.
- **The disk cache behind the desktop app's custom protocol** (`CacheProtocol`, `cache_protocol.dfy`, with `Base64Url` in `base64url.dfy`).
  - A URL is cached in a file named by the URL's base64url encoding with padding (section 5 of RFC 4648). The name gets `.` and the URL path's extension when the path has one.
  - `Fetch` probes that file. On a miss it fetches the URL and writes the body under the name with the extension, defaulting to `js`.
  - The cache directory is a map from file name to bytes, held by a class.
- **The bar component** (`BarComponent`, `bar_component.dfy`). It resolves the two template aliases, and folds the `slot` and `slot/<name>` settings into a map from slot name to value.

`Strings` (`strings.dfy`) holds `Option` and the split-on-one-character operation that both `key.split('/')` and Rust's path handling use.

Foreign calls become parameters:

- The network outcome of each fetch: a response or a transport failure in the worker; a body with an optional Content-Type, or an error, in the disk cache.
- Whether the worker's `cache.put` rejects the write (as it does for a 206 response or over quota).
- The outcomes of the file read and the file write.
- `Url::parse` (only the path it yields is used) and `MimeGuess`, as functions given to the disk-cache handler.
- The text of the built-in templates.

A URL in the disk cache is the sequence of its UTF-8 bytes.

## Model

| member | source | states |
|---|---|---|
| `ServiceWorker.FetchStep` | packages/desktop/resources/sw.js:68-104 | A hit returns the stored response, does not fetch, and leaves the store unchanged. A miss fetches. A delivered response that is not ok (200-299) and not opaque is returned unchanged and not stored. An ok or opaque one is stored under the request key and returned unchanged when the write succeeds. A transport failure, or a rejected write of a cacheable response, returns the whole fallback response `Offline()` (status 503, `Service Unavailable`, `Offline or network error occurred.`, `Content-Type: text/plain`), with the store unchanged. Every other key keeps its entry. |
| `ServiceWorker.FetchStepKeepsOnlyCacheable` | packages/desktop/resources/sw.js:89-94 | The proxy keeps the store invariant that every entry is ok or opaque. |
| `ServiceWorker.MissThenHit` | packages/desktop/resources/sw.js:76-96 | After a miss whose cacheable response was written, the same request is answered from the store with the same response, without a fetch. |
| `ServiceWorker.NotCacheableRefetched` | packages/desktop/resources/sw.js:89-103 | After a non-cacheable response, a rejected write or a transport failure, the same request goes to the network again. |
| `ServiceWorker.ClearedStoreMisses` | packages/desktop/resources/sw.js:62-84 | On an empty store every request is fetched, and a delivered response is returned when its write is not rejected. |
| `ServiceWorker.CacheWorker.constructor` | packages/desktop/resources/sw.js:37-43 | A started worker has the `v1` store as it persists from earlier runs (empty on a first install; only ok or opaque entries) and an unresolved configuration whose value is `null`. |
| `ServiceWorker.CacheWorker.ClearCache` | packages/desktop/resources/sw.js:62-66 | Deleting the keys one by one leaves the store empty; the configuration is untouched. |
| `ServiceWorker.CacheWorker.HandleFetch` | packages/desktop/resources/sw.js:68-104 | Entered only after the configuration has resolved. Its response, new store and fetch flag are those of `FetchStep`, including the 503 for a rejected write; the configuration is untouched. |
| `ServiceWorker.CacheWorker.OnFetch` | packages/desktop/resources/sw.js:15-29 | A non-GET, navigation or same-origin request is passed through without reading or writing the store and without a fetch. Any other request gets the proxy's answer. |
| `ServiceWorker.CacheWorker.OnMessage` | packages/desktop/resources/sw.js:45-60 | `CLEAR_CACHE` empties the store. `SET_CONFIG` sets the value to the message's config and marks the configuration resolved. Any other tag changes neither the store nor the configuration. |
| `Base64Url.EncodeWellFormed` | packages/desktop/src/cache_protocol.rs:27 | The encoding has four characters per started group of three bytes and is a well-formed padded encoding. |
| `Base64Url.DecodeEncode` | packages/desktop/src/cache_protocol.rs:27 | Decoding the encoding of any bytes gives back those bytes. |
| `Base64Url.EncodeInjective` | packages/desktop/src/cache_protocol.rs:27 | Distinct byte strings have distinct encodings. |
| `Base64Url.EncodeAlphabet` | packages/desktop/src/cache_protocol.rs:27-32 | The encoding uses only the 64 letters of the URL-safe alphabet and `=`, so it never contains `.` or `/`. |
| `CacheProtocol.Components` | packages/desktop/src/cache_protocol.rs:39-40 | A part is a component exactly when it is neither empty nor `.`; there are none exactly when every part is dropped; the last component is a part after which every part is dropped. |
| `CacheProtocol.ComponentsSnoc` | packages/desktop/src/cache_protocol.rs:39-40 | One more part at the end is appended as the last component unless it is empty or `.`, which with the empty case fixes the components in order. |
| `CacheProtocol.FileName` | packages/desktop/src/cache_protocol.rs:39-40 | A file name is a part after which every part is empty or `.` (the last component); it is not empty, `.` or `..` and has no `/`. There is none exactly when no part is kept or the last one kept is `..`. |
| `CacheProtocol.NameExtension` | packages/desktop/src/cache_protocol.rs:39-42 | An extension is the text after a `.` at a position other than the first, and contains no `.`, so it is the text after the last `.`. There is none exactly when the name is `..` or has no `.` after its first character. |
| `CacheProtocol.PathExtension` | packages/desktop/src/cache_protocol.rs:38-42 | A path's extension is the extension of its file name; a path without a file name has none. It contains neither `.` nor `/`. |
| `CacheProtocol.ExtractExtension` | packages/desktop/src/cache_protocol.rs:36-46 | None when the URL does not parse; otherwise the extension of the parsed path's file name, which contains no `.` and no `/`. |
| `CacheProtocol.CacheFileNameInjective` | packages/desktop/src/cache_protocol.rs:26-33 | Distinct (URL, extension) pairs get distinct cache file names. |
| `CacheProtocol.CacheFileNameExtension` | packages/desktop/src/cache_protocol.rs:26-33 | The extension `Path::extension` finds in a cache file name is the one the name was made with, for a non-empty URL; a name made without one has none. |
| `CacheProtocol.FetchSpec` | packages/desktop/src/cache_protocol.rs:91-132 | A hit returns the stored bytes, with the MIME type guessed from the file's extension, or `application/octet-stream` when it has none. A miss with a fetched body writes it under the name with the extension or `js`, and returns it with the Content-Type or the guessed type. Read, network and write failures give `Err`. Nothing is written except that one file. |
| `CacheProtocol.HitMimeFromUrlExtension` | packages/desktop/src/cache_protocol.rs:99-111 | On a hit the MIME type is guessed from the URL's own extension, or is `application/octet-stream` when the URL has none; nothing is written. |
| `CacheProtocol.MissThenHit` | packages/desktop/src/cache_protocol.rs:96-120 | For a URL with an extension, a successful miss is followed by a hit that returns the same bytes without writing. |
| `CacheProtocol.NoExtensionAlwaysMisses` | packages/desktop/src/cache_protocol.rs:96-117 | For a URL without an extension, a fetch never creates the file the probe looks for, so the next fetch misses again. |
| `CacheProtocol.IntendedFetchSpec` | packages/desktop/src/cache_protocol.rs:114-117 | With `js` applied before the probe, the probe and the write use the same file name. |
| `CacheProtocol.IntendedMissThenHit` | packages/desktop/src/cache_protocol.rs:96-131 | With `js` applied before the probe, every non-empty URL round-trips: miss, then a hit with the same bytes. |
| `CacheProtocol.CacheProtocolHandler.constructor` | packages/desktop/src/cache_protocol.rs:17-23 | A handler on a cache directory starts with that directory's files. |
| `CacheProtocol.CacheProtocolHandler.Fetch` | packages/desktop/src/cache_protocol.rs:91-132 | The returned result and the new directory are exactly those of `FetchSpec`. |
| `BarComponent.ResolveTemplate` | apps/frontend/src/app/bar/bar-component.component.ts:16-25 | `template.glazewm_workspaces` gives the workspaces template, `template.weather` gives the weather template, and any other string is returned unchanged. |
| `BarComponent.ResolveTemplateIdempotent` | apps/frontend/src/app/bar/bar-component.component.ts:16-25 | When the built-in templates are not aliases themselves, resolving an already resolved template changes nothing. |
| `Strings.Split` | apps/frontend/src/app/bar/bar-component.component.ts:33 | Splitting gives at least one part. No part contains the separator. There is one part exactly when the string has no separator. |
| `Strings.JoinSplit` | apps/frontend/src/app/bar/bar-component.component.ts:33 | Joining the parts with the separator gives back the string. |
| `Strings.SplitJoin` | apps/frontend/src/app/bar/bar-component.component.ts:33 | Splitting parts joined by a separator they lack gives back the parts. |
| `BarComponent.SlotNameOfKey` | apps/frontend/src/app/bar/bar-component.component.ts:33 | `slot` names the slot `default`. `slot/<rest>` names the text of `<rest>` up to its first `/`. |
| `BarComponent.SlotNameOfSegment` | apps/frontend/src/app/bar/bar-component.component.ts:33 | `slot/<name>` and `slot/<name>/<more>` both name `<name>` when it has no `/`. |
| `BarComponent.SlotNameExamples` | apps/frontend/src/app/bar/bar-component.component.ts:28-33 | `slot` gives `default`, `slot/top` gives `top`, `slot/a/b` gives `a`, and `slot/` gives the empty name, not `default`. |
| `BarComponent.SlotEntries` | apps/frontend/src/app/bar/bar-component.component.ts:31 | The filter keeps only keys equal to `slot` or starting with `slot/`. |
| `BarComponent.SlotsSnoc` | apps/frontend/src/app/bar/bar-component.component.ts:30-39 | A further slot key overwrites its slot name; any other key leaves the slot map unchanged. |
| `BarComponent.SlotsKeys` | apps/frontend/src/app/bar/bar-component.component.ts:30-39 | The slot names are exactly the names of the slot keys among the settings. |
| `BarComponent.SlotsLastWins` | apps/frontend/src/app/bar/bar-component.component.ts:32-38 | Each slot name maps to the value of the last slot key that gives that name. |

## Findings

| source | as written | input that shows it | evidently intended | confidence | as-written member | corrected member |
|---|---|---|---|---|---|---|
| packages/desktop/src/cache_protocol.rs:96-117 | The probe uses the bare name when the URL path has no extension, but the write uses the `.js` name. | Any URL whose path has no extension, such as `https://example.com/api`. Each fetch misses and writes `<base64>.js`, which is never read. | Apply the `js` default before the probe, so that the written file is hit by the next fetch (and the hit's MIME type matches the miss's). | high; not executed | `CacheProtocol.NoExtensionAlwaysMisses` | `CacheProtocol.IntendedMissThenHit` |

`CacheProtocol.CacheProtocolHandler.Fetch` and `FetchSpec` keep the behaviour as written. `IntendedFetchSpec` is the corrected definition the finding's proof is about.

## Left out

- The `deferredConfig` promise and its `setTimeout` (sw.js:37-43) are not modelled. The proxy's wait for the configuration is a precondition: `HandleFetch` requires the configuration to have resolved. The race in which `SET_CONFIG` arrives before `resolve` is assigned (calling `null`) is not modelled.
- The `install`/`activate` handlers (`skipWaiting`, `clients.claim`) are service-worker lifecycle plumbing.
- Concurrent requests are not modelled: interleaved misses on the same key and a clear racing with a fetch. Each operation runs to completion.
- `Response.clone()` and body streams are not modelled. Responses are immutable values, and the stored copy equals the returned one.
- `console.error` for unknown messages is not modelled. Such messages leave the state unchanged.
- FetchStep and CacheWorker.HandleFetch have no path for a rejected `caches.open('v1')` or `cache.match` (sw.js:75-76, outside the `try`). There the proxy's promise rejects and the request fails with a network error, without the 503 or any response. The model assumes the store opens and answers lookups.
- The cache store's matching is reduced to equality of method and URL. `Vary` headers and URL fragments are not considered.
- The origin of a request URL (`new URL(url).origin`) is a field of the request, not parsed from the URL.
- The configuration's content is opaque (a string). The proxy never reads it.
- `CacheProtocolHandler.new` is not modelled as fallible. Creating the directory (`create_dir_all`) and its failure are left out; the constructor takes the directory's existing files.
- `reqwest::get` and the `tokio::fs` read and write are outcome parameters of `Fetch`, and `Url::parse` and `MimeGuess` are functions given to the handler.
- The `fs::metadata` probe is modelled as presence of the name in the directory map, which cannot fail for a name that is present. A `metadata` call that fails on an existing file (permissions, an I/O error), which the source treats as a miss that fetches again and overwrites the file, is not modelled.
- A failed write leaves the directory unchanged. A partially written file is not modelled.
- CacheFileNameInjective: file names are matched exactly. On a case-insensitive file system (NTFS, APFS by default) two encodings that differ only in letter case, such as those of `.../main.js` and `.../mGin.js`, name the same file, and the second URL is served the first one's bytes.
- Only files in the cache directory are modelled. The probe of the empty name (an empty URL without an extension) finds the directory itself, and reading it fails.
- UTF-8 encoding of the URL is not modelled: a URL is given as its bytes.
- `Path::components` is modelled for the `/`-separated paths that `Url::path` yields. Windows path prefixes and separators are not modelled.
- `BarComponent` is modelled only for its two memos. Creating the template element and Solid's reactivity are not modelled.
- `Object.keys` order is taken as the order of the settings given. No slot key looks like an array index, so the filtered keys keep insertion order.
- `use-current-window.hook.ts`, `app.component.ts`, `weather-component.tsx` and `providers/index.ts` are not part of this model: they are window, DOM and view glue, or re-exports.
