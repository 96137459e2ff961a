# Interceptor registry for Next.js middleware, in Dafny

This project models the `InterceptorRegistry` class of `nextjs-interceptor`. The registry is an
ordered set of request interceptors. Each interceptor has an `id`, one or more path patterns,
an optional priority and optional conditions on headers, query parameters and cookies. A host
web framework calls `handle` once per request. `handle` runs the handlers of the matching
interceptors in priority order and stops at the first one that produces a result.

The model has five modules:

- `Types` (types.dfy): the configuration, pattern, condition, request and handler-result values.
  It also holds the priority default `priority || 0` and the normalised copy of a configuration
  that `use` stores.
- `Matcher` (matcher.dfy): `matchesPattern`, `matchesRecord`, `matchesConditions` and `matches`
  as pure predicates. It also holds the request records, which are built from name/value pairs
  so that the last value wins. A declarative reference, `Admits`, states matching directly on
  the request's pairs, and `MatchesIffAdmits` proves that the matcher decides exactly that.
- `Ordering` (ordering.dfy): the stable sort by priority behind `getSortedInterceptors`,
  written as an insertion sort. It is proved sorted, a permutation and stable. Stable means
  that each priority's entries keep their registry order.
- `Dispatcher` (dispatcher.dfy): `Dispatch`, a function that follows the `handle` loop. It is
  proved equal to a reference reading: the first result among the matching handlers that is
  not `null`. It is also proved to short-circuit and to respect priority.
- `Registry` (registry.dfy): the class itself. It keeps the map's keys in insertion order
  (`order`) and the map (`interceptors`). `Use` updates the map in place. `GetPatterns`,
  `GetMatchers` and `GetSortedInterceptors` are functions of the state. `Handle` is the `for`
  loop with its `continue` and early `return`, proved against `Dispatch`.

Modelling choices:

- The regular-expression engine is a parameter `test: RegexTest`, a function from a regular
  expression and a text to a boolean that the model does not interpret. Every property holds
  for every engine. A string pattern `p` is tested as `Regex(p, "")`, because `new RegExp(p)`
  is built without flags.
- A handler is a function from the request to `HandlerResult`, which is `Null`, `Undefined`
  or `Resp(response)`. Only `Null` continues the loop (src/index.ts:84). A handler that returns
  nothing, and so yields `undefined`, stops the dispatch, and `handle` returns `undefined`.
- `Handle` also returns `invoked`, the ids whose handlers it called, in order. This is how the
  model states which handlers ran, a side effect that the source does not return.
- `await` is an ordinary sequential call.
- The overwrite warning of `use` is the ghost field `warnings`, which lists the overwritten ids.

The comment at src/index.ts:89 says that `handle` returns `null` when every interceptor has run,
but line 90 returns `undefined`. The model follows the code: the fallthrough result is
`Undefined`.

## Model

| member | source | states |
|---|---|---|
| Types.Normalize | src/index.ts:49-53 | the stored copy keeps id, pattern and conditions, its priority is always set, and that priority equals the given priority, or 0 when it is absent |
| Matcher.FromEntries | src/index.ts:121-140 | the record built from the request's name/value pairs has exactly the names that occur in them |
| Matcher.FromEntriesLastWins | src/index.ts:137-140 | the record holds, under each name, the value of the last pair with that name |
| Matcher.AnyMatches | src/index.ts:105-110 | `some` over the patterns is true iff at least one pattern tests true against the path |
| Matcher.MatchesPattern | src/index.ts:98-111 | true iff some pattern of the single pattern or the array tests true against the pathname; an empty array never matches; a single pattern behaves like a one-element array |
| Matcher.CategoryPassesIffHolds | src/index.ts:148-161 | a present category passes iff every expected key's last value in the request exists, is non-empty, and equals the string or passes the regex test |
| Matcher.MatchesIffAdmits | src/index.ts:113-168 | `matches` holds iff a pattern matches (OR) and every present category holds (AND), with a missing key or an empty value failing; absent conditions and absent categories pass |
| Matcher.MissingOrEmptyFails | src/index.ts:152-154 | an expected cookie that the request lacks, or carries only with an empty last value, fails the whole match |
| Matcher.EmptyCategoriesPass | src/index.ts:148-161 | present but empty expected records pass vacuously |
| Matcher.SessionCookieExample | src/index.ts:137-143 | with `session` expected to match `/^valid-/`, `session=valid-123` matches, while `session=`, a missing `session`, and `session=valid-1` followed by `session=` do not |
| Ordering.Insert | src/index.ts:93-96 | inserting one entry yields a permutation of the entries plus it |
| Ordering.SortByPriority | src/index.ts:93-96 | the sorted entries are a permutation of the registry's entries |
| Ordering.SortByPriorityCorrect | src/index.ts:93-96 | the sort result is ordered by non-decreasing priority, is a permutation, leaves each priority's entries in registry order (stable), and keeps ids distinct |
| Ordering.TiesKeepRegistryOrder | src/index.ts:93-96 | two entries of equal priority come out of the sort in the order they had in the registry |
| Dispatcher.Dispatch | src/index.ts:70-91 | the dispatch loop never returns `null` and calls no more handlers than there are entries |
| Dispatcher.FirstNonNull | src/index.ts:84-86 | the index of the first result that is not `null`: every earlier one is `null` |
| Dispatcher.DispatchIsFirstNonNull | src/index.ts:70-91 | dispatch calls the matching handlers in sorted order up to and including the first whose result is not `null`, and returns that result; when there is none it calls them all and returns `undefined` |
| Dispatcher.MatchingOnlyMatches | src/index.ts:76-78 | the entries considered are exactly those for which `matches` is true |
| Dispatcher.NoMatchFallsThrough | src/index.ts:74-90 | when no entry matches, no handler runs and the result is `undefined` |
| Dispatcher.AllNullFallsThrough | src/index.ts:74-90 | when every matching handler returns `null`, all of them run in order and the result is `undefined` |
| Dispatcher.ResponseStopsLaterEntries | src/index.ts:80-86 | once a matching handler returns something other than `null`, no later entry's handler runs |
| Dispatcher.DispatchCallsEachOnce | src/index.ts:74-87 | with distinct ids, no handler runs twice in one dispatch, and only matching entries' handlers run |
| Dispatcher.LowerPriorityWins | src/index.ts:70-96 | on sorted entries, a matching lower-priority entry that responds keeps every higher-priority entry from running |
| Dispatcher.AdminExample | src/index.ts:70-96 | A (priority 1, returns `null`) and B (priority 2, returns 403), registered B first: a request to `/admin/x` calls A, then B, and returns B's 403 |
| Registry.LookupUpdate | src/index.ts:49 | `Map.set` on an existing key changes its value in place and keeps its position |
| Registry.LookupAppend | src/index.ts:49 | `Map.set` on a new key appends it at the end of the iteration order |
| Registry.Flatten | src/index.ts:60-62 | a pattern is in the flattened list iff it is among the patterns of some entry |
| Registry.FlattenAppend | src/index.ts:59-63 | the patterns of concatenated entries are the concatenation of their patterns, so they follow registry order |
| Registry.FlattenReplace | src/index.ts:59-63 | replacing an entry replaces its patterns in the position where they stood |
| Registry.InterceptorRegistry.constructor | src/index.ts:42 | a new registry is empty |
| Registry.InterceptorRegistry.Values | src/index.ts:94 | the entries in insertion order, one per id, with distinct ids |
| Registry.InterceptorRegistry.Use | src/index.ts:44-57 | exactly one entry under `config.id`, holding the normalised copy and the handler; every other entry unchanged; a new id is appended, an existing id keeps its position and logs a warning; returns the registry itself |
| Registry.InterceptorRegistry.GetPatterns | src/index.ts:59-63 | a pattern is returned iff it belongs to some registered entry |
| Registry.InterceptorRegistry.GetMatchers | src/index.ts:65-67 | the same sequence as `getPatterns` |
| Registry.InterceptorRegistry.GetSortedInterceptors | src/index.ts:93-96 | the registry's entries sorted by non-decreasing priority, as a permutation, stable on ties, with distinct ids |
| Registry.InterceptorRegistry.Handle | src/index.ts:70-91 | the loop's result and the handlers it calls are those of `Dispatch` over the sorted entries |
| Registry.HandleHonoursPriority | src/index.ts:70-96 | in a registry, a matching lower-priority entry that responds keeps a higher-priority entry's handler from running |

## Left out

- The regular-expression engine (`new RegExp(p)`, `.test`): it is a parameter the model does not interpret. The state kept by `/g` and `/y` regular expressions in `lastIndex` and the error thrown for a malformed pattern are not modelled.
- The Next.js types (`NextRequest`, `NextResponse`, `NextFetchEvent`): a request is a path plus three lists of name/value pairs. The lower-casing and merging of headers by the Fetch `Headers` object happens before those lists exist.
- The optional `event` argument, which `handle` passes through to handlers: it is framework plumbing and handlers here take only the request.
- Handlers are functions of the request. A handler with its own state, one that returns different results on different calls, and exceptions thrown by handlers are not modelled. Nor is asynchronous scheduling.
- Priorities are integers. JavaScript numbers that are not integers, and `NaN` (which `|| 0` also turns into 0), are not modelled.
- Lookups in a record built by `Object.fromEntries` can find inherited properties such as `constructor`. These are truthy and would pass the non-empty check. The model's records hold only the request's own names.
- Matcher.FromEntries: the cookie record is filled by assignment (src/index.ts:137-140), and assigning to a cookie named `__proto__` goes to the prototype setter and stores nothing, so the lookup at src/index.ts:153 finds `Object.prototype`, which is truthy and fails an exact match. The model stores `__proto__` like any other name, so for that one name an exact cookie condition can match in the model where the source's does not.
- Types.Normalize: `{...config, priority}` (src/index.ts:50-53) is a shallow copy, so the stored entry shares the caller's `pattern` array and `conditions` records; a caller who mutates them afterwards changes what the registered interceptor matches. The model stores plain values, so this aliasing is not captured.
- The `globalThis` singleton and the `NODE_ENV` check (src/index.ts:171-184): this is process-lifecycle glue.
- `console.warn` on overwrite: only recorded in the ghost field `warnings`.
- Registry.InterceptorRegistry.GetPatterns: its own contract states membership. The order of the result, which is registry order, is stated by `FlattenAppend` and `FlattenReplace`, together with how `Use` changes `Values()`.
