# SkPy utility core, modelled in Dafny

This project models the helpers in SkPy's `SkypeUtils` class (`skpy/util.py`). Every
entity, directory and listing in the library builds on them:

- **Identifier extraction** (module `Identifiers`):
  - `noPrefix` strips the `<n>:` type prefix from an identifier.
  - `userToId` and `chatToId` pull contact and conversation identifiers out of service URLs.
  - Each URL pattern is a regular expression in the library. Here it is a hand-written
    matcher anchored at a position, with the same capture group and the same greedy
    choices. One generic search tries it at every position from the left, as `re.search` does.
- **Attribute schema constructor** (modules `Schema` and `StrOrder`). `initAttrs` gives an
  entity type an initializer that works in three steps:
  1. It merges positional arguments into keyword arguments by schema position.
  2. It rejects unknown keyword names with a `TypeError`, whose message lists them in
     Python's `sorted` order.
  3. Otherwise it sets every attribute to its supplied value, else its default, else `None`.

  `StrOrder` models Python's string order and `sorted()` of a set of strings.
- **Identifier reference resolver** (module `References`). `convertIds` derives read-only
  properties from the shorthand tokens `"user"`, `"users"` and `"chat"` and from the `user=`,
  `users=` and `chat=` name lists.
  - The declarations are modelled as a table from property name to accessor, attached in
    order, so a later declaration wins.
  - Reading a property (`userObj`, `userObjs`, `chatObj`) looks the stored identifier(s)
    up in the session's contacts or chats directory.
- **Memoising decorator** (module `Memo`). `cacheResult` caches by the key made of the
  positional arguments plus the rendered keyword arguments. The wrapped function receives
  its own invocation count, so it may be impure.
- **Pager** (module `Paging`). `exhaust` calls a state-synced function until it returns a
  falsy result, yielding the items of every truthy result, through `transform` when one is
  given. The function's successive results are a sequence.

`IdentifierExamples` proves the documented URL shapes. `Wrappers` holds `Option` and `Result`.

## Model

| member | source | states |
|---|---|---|
| Identifiers.NoPrefix | skpy/util.py:33-43 | `None` passes through. A string succeeds exactly when it contains a colon, and the result is what follows the first colon: the input is a colon-free prefix, a colon, then the result. A string without a colon is the `IndexError` failure. |
| Identifiers.NoPrefixInverse | skpy/util.py:43 | For any colon-free prefix and any remainder, stripping the prefix from `prefix:rest` gives back exactly `rest`. |
| Text.FirstIndexOf | skpy/util.py:43 | `split(":", 1)` splits at the first colon: `None` exactly when there is no colon, else the position of a colon with none before it. |
| Identifiers.PrefixedIdAtFinds | skpy/util.py:58 | Both patterns contain `[0-9]+:` followed by a greedy run of identifier characters. From a given position such a run, with its colon and its end, is unique, and the matcher finds it. |
| Identifiers.PrefixedIdAt | skpy/util.py:58 | A run found at a position is non-empty digits, a colon and a non-empty identifier run that no identifier character extends. |
| Identifiers.SearchNone | skpy/util.py:58-59 | `re.search` tries every start position from left to right. It finds nothing exactly when the anchored pattern matches at no position. |
| Identifiers.SearchFirst | skpy/util.py:58-59 | A successful search returns the match at a matching position before which no position matches: the leftmost one. |
| Identifiers.SearchFrom | skpy/util.py:58-59 | When nothing matches before a position and the pattern matches there, the search returns that match. |
| Identifiers.UserTail | skpy/util.py:58 | A capture of `/[0-9]+:(ID)` is a non-empty run of identifier characters that follows a colon in the URL. |
| Identifiers.UserTailRuns | skpy/util.py:58 | `/[0-9]+:(ID)` matches exactly when a slash, digits, a colon and an identifier run follow. The capture is that whole maximal run. |
| Identifiers.MatchUserAt | skpy/util.py:58 | A match anchored at a position starts with `users`. Its capture is a non-empty run of identifier characters following a colon. |
| Identifiers.MatchUserAtBranches | skpy/util.py:58 | The pattern matches at a position exactly when `users` starts there and the `/ME/contacts` branch or the direct branch matches after it. The `/ME/contacts` branch is taken whenever it matches; otherwise the capture is the direct branch's. |
| Identifiers.MatchUserAtRuns | skpy/util.py:58 | The pattern matches at a position exactly when `users` starts there and a slash, digits, a colon and an identifier run follow where `/[0-9]+:` is tried: after `/ME/contacts` when that follows `users`, else right after `users`. The capture is that whole maximal run. |
| Identifiers.DirectFailsBeforeContacts | skpy/util.py:58 | Where `/ME/contacts` follows `users`, the branch without the group cannot match, because `M` is no digit. |
| Identifiers.UserToIdSpec | skpy/util.py:58-59 | The result is `None` exactly when the user pattern matches at no position of the URL. Otherwise it is the capture at the leftmost matching position: a non-empty run of identifier characters following a colon. |
| Identifiers.UserToIdNeedsUsers | skpy/util.py:58-59 | A URL that contains no `u` cannot contain `users`, so extraction returns `None`. |
| Identifiers.UserToIdRoundTrip | skpy/util.py:46-59 | Take any URL built as a prefix inside which no match starts, then `users/` or `users/ME/contacts/`, then `digits:id`, then text that ends the identifier run. Extraction returns exactly `id`. |
| Identifiers.UserToIdAfterPlainPrefix | skpy/util.py:46-59 | The same round trip for any prefix without the letter `u`, such as a scheme and host name. |
| Identifiers.NoUserMatchWithout | skpy/util.py:58 | No match starts at a position where `users` does not start. |
| Identifiers.UserToIdWithoutUsers | skpy/util.py:58-59 | A URL with no `users` segment anywhere yields `None`. |
| Identifiers.NoUserMatchIn | skpy/util.py:58 | No match starts inside a prefix that contains no `u`. |
| Identifiers.ChatIdAt | skpy/util.py:74 | A capture of the group is the URL text at the position. It has the shape `<digits>:<id chars>`, optionally followed by `@thread.skype`. |
| Identifiers.ChatIdAtRuns | skpy/util.py:74 | The group matches exactly when an identifier run `<digits>:<id chars>` starts at the position. The capture is the maximal run, plus `@thread.skype` exactly when that suffix follows the run. |
| Identifiers.MatchChatAt | skpy/util.py:74 | A match anchored at a position starts with `conversations/`. Its capture is the URL text right after it. |
| Identifiers.MatchChatAtRuns | skpy/util.py:74 | The pattern matches at a position exactly when `conversations/` starts there and an identifier run follows it. The capture is that maximal run, plus `@thread.skype` exactly when that suffix follows. |
| Identifiers.ChatToIdSpec | skpy/util.py:74-75 | The result is `None` exactly when the conversation pattern matches at no position of the URL. Otherwise it is the capture at the leftmost matching position, which has the conversation-identifier shape. |
| Identifiers.ChatToIdRoundTrip | skpy/util.py:62-75 | Take any URL built as a prefix inside which no match starts, `conversations/`, `digits:id`, an optional `@thread.skype` and a remainder that ends the identifier. Extraction returns `digits:id` with the suffix exactly when the URL carries it. |
| Identifiers.ChatToIdThreadRoundTrip | skpy/util.py:74-75 | A group conversation URL built from a prefix inside which no match starts, `conversations/`, `digits:id`, `@thread.skype` and any remainder yields `digits:id@thread.skype`. |
| Identifiers.ChatToIdPlainRoundTrip | skpy/util.py:74-75 | A conversation URL built the same way, whose identifier run is not followed by `@thread.skype`, yields `digits:id` alone. |
| Identifiers.ChatToIdAfterPlainPrefix | skpy/util.py:62-75 | The same round trip for any prefix without the letter `c`, such as a scheme and host name. |
| Identifiers.NoChatMatchWithout | skpy/util.py:74 | No match starts at a position where `conversations/` does not start. |
| Identifiers.ChatToIdWithoutConversations | skpy/util.py:74-75 | A URL with no `conversations/` segment anywhere yields `None`. |
| Identifiers.NoChatMatchIn | skpy/util.py:74 | No match starts inside a prefix that contains no `c`. |
| IdentifierExamples.UserToIdDirectExample | skpy/util.py:50 | A `users/8:alice` URL yields `alice`. |
| IdentifierExamples.UserToIdContactsExample | skpy/util.py:50 | A `users/ME/contacts/8:bob` URL yields `bob`. |
| IdentifierExamples.ChatToIdThreadExample | skpy/util.py:66 | `conversations/19:abc@thread.skype` yields `19:abc@thread.skype`, suffix included. |
| IdentifierExamples.ChatToIdSingleExample | skpy/util.py:66 | `conversations/8:bob` yields `8:bob`. |
| IdentifierExamples.UserToIdFullUrlExample | skpy/util.py:50-59 | `https://api/users/8:alice` yields `alice`: the search skips the scheme and host. |
| IdentifierExamples.ChatToIdFullUrlExample | skpy/util.py:66-75 | `https://api/conversations/8:bob` yields `8:bob`: the search skips the scheme and host. |
| StrOrder.BelowReflexive | skpy/util.py:98 | Python's string order is reflexive. |
| StrOrder.BelowAntisymmetric | skpy/util.py:98 | Two strings each below the other are equal. |
| StrOrder.BelowTransitive | skpy/util.py:98 | The order is transitive. |
| StrOrder.BelowTotal | skpy/util.py:98 | Any two strings are comparable, so `sorted` is well defined. |
| StrOrder.LeastExists | skpy/util.py:98 | Every non-empty finite set of strings has a least element. |
| StrOrder.Sorted | skpy/util.py:98 | `sorted` of a set lists every element exactly once, nothing else, in strictly ascending order. |
| StrOrder.SortedUnique | skpy/util.py:98 | Any strictly ascending listing of a set is `sorted` of that set, so the message order is determined. |
| Schema.MergeFrom | skpy/util.py:92-93 | Merging from a position succeeds exactly when there are no more positionals than attributes. Otherwise it is `IndexError`. The merged keys are the old keys plus the bound schema names. Each position not rebound later holds its positional value. Every other keyword keeps its value. |
| Schema.MergePositional | skpy/util.py:92-93 | The whole merge has the same properties as `MergeFrom`, starting at position 0. |
| Schema.AttrValue | skpy/util.py:101-102 | An attribute gets its supplied value, else its class default, else `None`. |
| Schema.BuildFields | skpy/util.py:100-102 | Setting the attributes one by one in schema order leaves exactly the schema attributes, each holding its supplied value, else its default, else `None`. |
| Schema.UnknownAfterMerge | skpy/util.py:92-96 | Positional merging never introduces an unknown name. The unknown names are those of the caller's keywords, and there are none exactly when every keyword is in the schema. |
| Schema.InitAttrs | skpy/util.py:89-102 | Too many positionals is `IndexError`. Otherwise construction succeeds exactly when every keyword names a schema attribute. Unknown keywords give the `TypeError` naming all of them, with no attribute set. A success sets exactly the schema attributes. Positional values win, then keyword values, then defaults, then `None`. |
| Schema.PositionalOverridesKeyword | skpy/util.py:92-96 | A keyword that a positional argument also binds is silently overwritten, not reported. |
| Schema.UnknownMessage | skpy/util.py:96-99 | The `TypeError` message: the singular wording for one unknown name, the plural otherwise, then the names in `sorted` order. |
| Schema.JoinQuoted | skpy/util.py:98 | Each name in single quotes, separated by a comma and a space. |
| Schema.OneUnknownMessage | skpy/util.py:95-99 | One unknown name gives `__init__() got an unexpected keyword argument 'k'`. |
| Schema.TwoUnknownMessage | skpy/util.py:95-99 | Two unknown names give the plural wording and both names, in ascending order. |
| Schema.JoinQuotedTwo | skpy/util.py:98 | Two names are joined as `'a', 'b'`. |
| Schema.UnquoteJoinQuoted | skpy/util.py:98 | Take names that contain no quote character. The quoted, comma-joined list parses back to exactly those names, so the message determines the unknown names. |
| References.ShorthandIsNamed | skpy/util.py:150-163 | The tokens `user`, `users` and `chat` declare exactly what `user=["user"]`, `users=["user"]` and `chat=["chat"]` declare. Every other token declares nothing. |
| References.Shorthand | skpy/util.py:150-156 | Exactly the tokens `user`, `users` and `chat` declare an accessor, under the token's own name; only `users` declares a list accessor. |
| References.Named | skpy/util.py:158-163 | A `user=` or `chat=` name `f` declares property `f` reading `fId`; a `users=` name declares `fs` reading `fIds`. |
| References.NamedAll | skpy/util.py:158-163 | The loop over one keyword's names attaches one accessor per name, in the order given, each derived from its name. |
| References.Attach | skpy/util.py:136-146 | Each accessor is installed on the class under its property name, in order, replacing any earlier one of that name. |
| References.Shorthands | skpy/util.py:150-156 | The shorthand declarations are exactly the accessors of the recognised tokens, never more than the tokens. |
| References.AttachKeepsLast | skpy/util.py:136-146 | Attaching in order defines a property exactly when some declaration names it or it existed before. Its accessor is the last declaration naming it, and untouched properties keep their value. |
| References.ConvertIds | skpy/util.py:148-164 | The decorated class defines exactly the declared properties. Each is bound to the last declaration naming it. |
| References.LastForFinds | skpy/util.py:148-164 | A declaration that no later declaration overrides is the one the property resolves to. |
| References.NamedUserDeclared | skpy/util.py:158-159 | A `user=[f]` name not overridden later yields property `f`, which reads contacts through `fId`. |
| References.NamedUsersDeclared | skpy/util.py:160-161 | A `users=[f]` name not overridden later yields property `fs`, which reads contacts through the list field `fIds`. |
| References.NamedChatDeclared | skpy/util.py:162-163 | A `chat=[f]` name not overridden later yields property `f`, which reads chats through `fId`. |
| References.IgnoredTokens | skpy/util.py:150-156 | Appending an unrecognised token changes no declaration. |
| References.Lookup | skpy/util.py:128 | A directory lookup succeeds exactly for a stored identifier present in the directory and returns its entry. Otherwise it is a lookup miss naming the key. |
| References.UserObj | skpy/util.py:127-128 | A missing id field is an attribute error. The read succeeds exactly when the field holds an identifier present in contacts, and it returns that contact. |
| References.ChatObj | skpy/util.py:133-134 | The same as `UserObj`, against the chats directory. |
| References.LookupAll | skpy/util.py:131 | The lookups succeed exactly when every identifier is present, giving the entries in list order. Otherwise the error names the first missing identifier. |
| References.UserObjs | skpy/util.py:130-131 | A missing field is an attribute error, and a `None` field is not iterable. A list field succeeds exactly when every identifier is a contact, giving the contacts in order. A single string id is iterated character by character, as Python iterates a string: each one-character string is looked up in turn. |
| References.Access | skpy/util.py:146 | A name missing from the derived-property table gives `NoAttribute`. A list accessor yields many entities and a single accessor yields one. |
| References.ListAgreesWithSingle | skpy/util.py:127-131 | Item `i` of a list read is what a single read of identifier `i` gives. |
| References.AccessDispatch | skpy/util.py:146-163 | Reading a property runs its kind's accessor on its id field: `userObj`, `chatObj` or `userObjs`. It succeeds exactly when that accessor does, with its value, and otherwise fails with that accessor's error. |
| References.ReadNamedUser | skpy/util.py:158-159 | On a class decorated with `user=[..., f, ...]`, where no later declaration takes the name `f`, reading `f` gives `userObj` on the field `fId`: its contact, or its error unchanged. |
| References.ReadNamedUsers | skpy/util.py:160-161 | With `users=[..., f, ...]` and no later declaration taking `fs`, reading `fs` gives `userObjs` on `fIds`: the contacts in order, or its error unchanged. |
| References.ReadNamedChat | skpy/util.py:162-163 | With `chat=[..., f, ...]` and no later declaration taking `f`, reading `f` gives `chatObj` on `fId`: the conversation, or its error unchanged. |
| References.UserShorthandExample | skpy/util.py:151-152 | With `@convertIds("user")`, `user` is the contact for `userId`, or a lookup miss. |
| References.UserListExample | skpy/util.py:160-161 | With `@convertIds(users=["member"])`, `members` is the contacts for `memberIds`, in order. |
| Memo.HashesPassesGuard | skpy/util.py:187 | Every key that hashes passes the `Hashable` guard. |
| Memo.Hashes | skpy/util.py:186-190 | Whether `hash` succeeds on an argument: never for a list, and for a tuple only when all its items hash. |
| Memo.GuardPasses | skpy/util.py:187 | The guard: every key element is an instance of `Hashable`, which excludes lists only. |
| Memo.Invoke | skpy/util.py:185-192 | An unhashable key runs the wrapped function and leaves the cache alone. A hashable key returns its cached entry, and a hit changes nothing. A miss runs the function once and stores exactly its result under that key. Old entries never change, and the function runs exactly on misses and unhashable calls. |
| Memo.InvokeAsWritten | skpy/util.py:185-192 | The wrapper as written fails exactly when the key passes the guard but cannot be hashed. Otherwise it behaves as `Invoke`. |
| Memo.TupleHoldingListRaises | skpy/util.py:187-190 | A positional tuple holding a list makes the wrapper as written raise, while the intended wrapper runs the function uncached. |
| Memo.Run | skpy/util.py:182-192 | A sequence of calls threads one cache through them and gives one result per call. |
| Memo.RunCaches | skpy/util.py:182-192 | After any run of calls, entries that were cached before are unchanged. Every hashable key called is cached, and each of its calls returned the cached value. |
| Memo.RunConsistent | skpy/util.py:190-192 | Two calls with the same hashable key return the same value, even for an impure function. |
| Memo.RunInvocations | skpy/util.py:187-192 | The wrapped function runs exactly once per newly cached key plus once per unhashable call. |
| Memo.RunTransparent | skpy/util.py:169-192 | For a pure wrapped function, caching is invisible: every call returns the function's own result, and the cache stays faithful. |
| Memo.RepeatedCallRunsOnce | skpy/util.py:190-192 | Two identical hashable calls run the function once and return its value twice. |
| Memo.UnhashableCallRunsEveryTime | skpy/util.py:187-189 | Two calls with a list argument run the function twice and cache nothing. |
| Paging.FirstFalsy | skpy/util.py:217-223 | The stopping call is the first falsy result, and every earlier result is truthy. |
| Paging.Expand | skpy/util.py:220 | A truthy result contributes `transform(result)` when a transform is given, else its own items. |
| Paging.Exhaust | skpy/util.py:217-223 | The generator makes calls up to and including the first falsy result. It yields, in order, the expansion of every earlier result: `transform(result)` when given, else the result's items. |
| Paging.ConcatAppend | skpy/util.py:220-221 | The items of two runs of results are the items of the first followed by those of the second. |
| Paging.LaterPagesIgnored | skpy/util.py:219-223 | Results after the first falsy one never affect where the pager stops. |
| Paging.EmptyTruthyPageContinues | skpy/util.py:219-221 | A truthy result that yields nothing does not stop the pager and adds no items. |
| Paging.ListPagesExample | skpy/util.py:217-223 | Results `[1, 2]`, `[3]`, `[]` yield 1, 2, 3, stopping at the third call. |
| Paging.TransformExample | skpy/util.py:220 | Results `{"x": 1, "y": 2}` then `{}`, with a by-value transform, yield 1 and 2. |

## Left out

- The `Status` enum and the module imports are not modelled: they are declarations, not behaviour.
- `initAttrs` passes `skype` and `raw` to the base initializer. That call is left out.
- Schema.InitAttrs: the initializer's first two positional arguments, and keyword arguments named `skype` or `raw`, bind those two parameters and never reach the schema check. The model's positional and keyword arguments are the ones left after them.
- The `__init__` is installed with `setattr`, and the wrapper is bound with `functools.wraps`/`functools.partial`/`property`. These are modelled as pure functions returning the attribute map and the property table.
- The two URL regular expressions are modelled as dedicated matchers, not as a general regular-expression engine.
- Memo.Invoke: the rendered keyword arguments `str(kwargs)` are an opaque string. Two keyword orders rendering differently are different keys, as in the library. The model does not say how `str` renders a dictionary.
- Memo.Hashes: hashability is modelled for `None`, integers, strings, lists and tuples only. Other argument types are not part of this model.
- The `wrapper.cache` attribute, which exposes the cache for outside inspection and clearing, is left out. The model's `State` carries the cache explicitly instead.
- The wrapped function raising is left out. If it raises, Python stores nothing, which matches the model's "store only after computing".
- Paging.Exhaust: the model runs the generator to completion. A consumer stopping early, and the laziness between fetches, are left out. `Paging.LaterPagesIgnored` states the part that is visible: results after the stop are never requested.
- Paging.Exhaust: it requires that some call returns a falsy result. Without one, the library loops forever, and the model does not describe that endless run.
- References.UserObjs: the library returns a lazy generator, so a missing contact surfaces while iterating. The model computes the whole list eagerly, and the first missing identifier is the error.
- References.Access: an entity built without a session has `skype` set to `None`. Reading a `user`- or `chat`-kind property then raises `AttributeError` on `None`. A `users`-kind property returns a generator, which raises only when it yields its first item, and never for an empty identifier list. The model always has a `Session`, so it describes none of these failures.
- References.Access: the model reads derived properties only. A name that is not in the derived-property table gives `NoAttribute`, even when Python would find it as a stored field such as `userId` or as another attribute of the entity.
- Directory lookups (`skype.contacts[...]`, `skype.chats[...]`) are modelled as map lookups. The directories' own fetching on a miss belongs to their classes, which are not part of this model.
- Remote calls, network I/O and the clock are not modelled. The paged function and the memoised function are parameters.

## Findings

| source | as written | input that shows it | evidently intended | confidence | as-written member | corrected member |
|---|---|---|---|---|---|---|
| skpy/util.py:187-191 | The guard only checks that each key element is an instance of `Hashable`. A tuple passes, whatever it holds, so `key not in cache` then raises `TypeError: unhashable type` | a positional argument `(1, [])` | a call whose key cannot be hashed bypasses the cache and runs the function, as the comment on line 188 says | high, not executed | Memo.InvokeAsWritten (shown by Memo.TupleHoldingListRaises) | Memo.Invoke |
