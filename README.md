# CharacterChatApp core, modelled in Dafny

CharacterChatApp is a chat web application. A signed-in user picks one of five
fixed personas and exchanges messages with it. Most of the repository is pages
and authentication wiring. This project models the four pieces that have
behaviour of their own, one Dafny module per source file:

- `Translation` (lib/useTranslation.ts) models the translation function `t`.
  It splits a dotted key on `.` and walks the active message table one segment
  per step. Each step is a JavaScript property access (`value?.[k]`). If it
  reaches a string, the `{name}` placeholders are filled from the parameters;
  in every other case the key itself is returned. The Turkish table is chosen
  for locale `tr` and the English one otherwise. The two tables are left abstract
  as values of the `Json` datatype.
- `ChatRoute` (app/api/chat/route.ts) models the stub `POST /api/chat` handler.
  It takes the content of the last `user` entry of the posted history. If that
  content is non-empty, the reply echoes at most its first 120 characters;
  otherwise the reply is a greeting. For every history whose entries are shaped
  like `Message` the answer is status 200, and a body that is not valid JSON is
  treated as `{}`.
- `Characters` (lib/characters.ts) holds the five-entry persona table and
  `getCharacterById`, an exact-id linear search.
- `I18nClient` (lib/i18n-client.tsx) models the locale provider. The class
  `LocaleProvider` holds the current locale, the browser's storage and the
  document language. A stored `en` or `tr` is adopted, and anything else gives
  `tr`. Every change of locale is written back to storage under the key `locale`.

Helper modules: `Wrappers` defines `Option`, which stands for `undefined`.
`ArrayOps` defines `Array.prototype.find` and the reversal of a copy. `Types`
defines the `Message` record of lib/types.ts.

Strings are `seq<char>`. The handler's input is the already-parsed body, given
as a `Request` value. Browser storage and the document's `lang` attribute are
fields of the provider object.

The endpoint is a stub: it validates nothing, calls no model provider, and
answers with a Turkish reply that echoes at most 120 characters.

## Model

| member | source | states |
|---|---|---|
| ArrayOps.Find | app/api/chat/route.ts:9 | `find` returns an element of the array that satisfies the test; it returns nothing exactly when no element does |
| ArrayOps.FindReturnsFirstMatch | lib/characters.ts:54 | the first element satisfying the test is the one `find` returns |
| ArrayOps.FindIsFirstMatch | lib/characters.ts:54 | whatever `find` returns sits at the first matching position |
| ArrayOps.Reverse | app/api/chat/route.ts:9 | the reversed copy has the same length, and its element i is element n-1-i of the input |
| Characters.RosterIds | lib/characters.ts:10-51 | the table has exactly five entries, with ids pirl, ozkan, deniz, arda, elif in that order |
| Characters.RosterIdsDistinct | lib/characters.ts:10-51 | no two entries share an id |
| Characters.GetCharacterById | lib/characters.ts:53-55 | the result is undefined exactly when no entry has the id; any entry with that id is the result; the result is a table entry whose id equals the argument |
| Characters.KnownIds | lib/characters.ts:53-55 | a lookup succeeds exactly for the five table ids |
| Characters.LookupIsCaseSensitive | lib/characters.ts:54 | ids differing only in case (`Pirl`, `ARDA`) are not found, while `arda` finds the fourth entry |
| ChatRoute.BodyOf | app/api/chat/route.ts:4-5 | a body that fails to parse reads as `{}`, with no characterId and no history; a parsed body is used as it is |
| ChatRoute.ShowId | app/api/chat/route.ts:13-14 | `${characterId}` renders a string id as itself and an absent id as `undefined` |
| ChatRoute.Echoed | app/api/chat/route.ts:13 | `slice(0, 120)` gives a prefix of the content of length at most 120: the whole content when it is short, exactly 120 characters otherwise |
| ChatRoute.Post | app/api/chat/route.ts:3-20 | for a history of `Message`-shaped entries, the handler answers status 200 |
| ChatRoute.LastUserContent | app/api/chat/route.ts:8-10 | the content of the last user-role entry: absent when history is absent or not an array, absent exactly when no entry has role user, and otherwise the content of an entry after which no user entry follows (with LastUserContentIsLast, NoUserNoContent) |
| ChatRoute.LastUserContentIsLast | app/api/chat/route.ts:8-9 | the content looked up is that of the last user-role entry, not an earlier one |
| ChatRoute.NoUserNoContent | app/api/chat/route.ts:8-10 | no content is found exactly when the history has no user-role entry |
| ChatRoute.PostEchoesLastUser | app/api/chat/route.ts:12-13 | with non-empty last-user content, the reply is `(<id>) Düşündüm: ` + its first 120 characters + ` — harika bir fikir!` |
| ChatRoute.PostGreets | app/api/chat/route.ts:8-14 | when history is absent or not an array, has no user entry, or its last user entry is empty, the reply is `(<id>) Merhaba!` with status 200 |
| ChatRoute.PostUnparsable | app/api/chat/route.ts:4-17 | a malformed JSON body still gets status 200 and the reply `(undefined) Merhaba!` |
| ChatRoute.NoFallbackToEarlierUser | app/api/chat/route.ts:9-14 | an empty last user message yields the greeting even when an earlier user message has text |
| ChatRoute.PostDependsOnlyOnLastUser | app/api/chat/route.ts:5-14 | two requests with the same characterId and the same last-user content get the same response |
| I18nClient.ValidateStored | lib/i18n-client.tsx:16 | a stored `en` or `tr` is adopted; the result is `en` exactly when `en` was stored, so a missing or any other value gives `tr` |
| I18nClient.InitialLocale | lib/i18n-client.tsx:13-17 | without a window the locale is `tr`; with no stored value it is `tr`; a stored `en` or `tr` is taken as it is; the result is `en` exactly when storage holds `en` under `locale` |
| I18nClient.StoredLocaleRoundTrip | lib/i18n-client.tsx:15-20 | a locale written under the storage key is the locale read back by the next initialisation |
| I18nClient.LocaleProvider.constructor | lib/i18n-client.tsx:13-22 | mounting takes the validated stored locale, and the first effect run writes it to storage and to the document language |
| I18nClient.LocaleProvider.PersistLocale | lib/i18n-client.tsx:19-22 | the effect sets storage key `locale` and the document language to the current locale, changing no other key |
| I18nClient.LocaleProvider.SetLocale | lib/i18n-client.tsx:24-26 | afterwards the locale is the argument, storage key `locale` holds it, the document language equals it, and no other storage key changes |
| I18nClient.ReloadAfterSetLocale | lib/i18n-client.tsx:13-26 | after `setLocale(l)` a provider mounted again from the same storage starts with `l` |
| Translation.CatalogFor | lib/useTranslation.ts:11 | locale `tr` selects the Turkish table and locale `en` the English table |
| Translation.UseTranslationT | lib/useTranslation.ts:10-13 | `t` under locale `tr` translates against the Turkish table, under `en` against the English one |
| Translation.Split | lib/useTranslation.ts:14 | `split('.')` yields at least one segment, and no segment contains a dot |
| Translation.JoinSplit | lib/useTranslation.ts:14 | joining the segments with `.` gives back the key |
| Translation.SplitJoin | lib/useTranslation.ts:14 | splitting a `.`-join of dot-free segments gives back those segments |
| Translation.Decimal | lib/useTranslation.ts:18 | the decimal form of a number is a non-empty string of digits |
| Translation.DecimalIsIndex | lib/useTranslation.ts:18 | every number's decimal form is a canonical index that denotes that number |
| Translation.IndexIsDecimal | lib/useTranslation.ts:18 | a canonical index key is exactly the decimal form of the position it selects |
| Translation.Step | lib/useTranslation.ts:18 | `value?.[k]` on an object reads its own field `k`; on a string or array at an in-range canonical index it yields that character (as a string) or that element; `length` yields a number; anything else on a string, array, number, boolean or null is undefined |
| Translation.Walk | lib/useTranslation.ts:17-20 | the descent along the segments: the empty path stays at the table, one segment is one `value?.[k]` step, nothing lies under a number, boolean or null; in order segment by segment (WalkAppend) and undefined once a segment is missing (MissingSegmentGivesKey) |
| Translation.WalkAppend | lib/useTranslation.ts:17-20 | the walk descends segment by segment, in order: walking `a + b` is walking `a` and then `b` from where it ended |
| Translation.WordRun | lib/useTranslation.ts:26 | the greedy `\w+` takes the longest run of word characters |
| Translation.PlaceholderAt | lib/useTranslation.ts:26 | it recognises `{name}` at the start of the text exactly when the text starts with a placeholder, and returns that name |
| Translation.Scan | lib/useTranslation.ts:26 | every placeholder the scan finds has a name of one or more `[A-Za-z0-9_]` |
| Translation.ScanRender | lib/useTranslation.ts:26 | cutting a template into literal characters and placeholders loses and reorders nothing |
| Translation.FillUnmatched | lib/useTranslation.ts:27 | placeholders whose name is not a parameter are kept verbatim |
| Translation.Interpolate | lib/useTranslation.ts:25-28 | the `replace` call: a template with no placeholder named in the parameters comes back unchanged; characterised fully by InterpolateEmpty, InterpolateLiteral and InterpolatePlaceholder |
| Translation.InterpolateNoParams | lib/useTranslation.ts:25-28 | with an empty parameter object every template is returned unchanged |
| Translation.InterpolateEmpty | lib/useTranslation.ts:26 | the empty template fills to the empty string |
| Translation.InterpolatePlaceholder | lib/useTranslation.ts:26-28 | a leading `{n}` becomes the value of parameter `n`, or stays as written when `n` is not a parameter, and the rest is filled independently |
| Translation.InterpolateLiteral | lib/useTranslation.ts:26 | a character that does not open a placeholder is copied as it is and the scan resumes at the next character; with the two lemmas above this is the regex's leftmost, non-overlapping replacement |
| Translation.InterpolatePlainPrefix | lib/useTranslation.ts:26 | text without `{` is copied unchanged and in order ahead of the filled remainder |
| Translation.DoubledBraces | lib/useTranslation.ts:26-27 | `{{x}}` with `x = 1` becomes `{1}`: the outer braces are text, the inner placeholder is filled |
| Translation.ValuesAreNotRescanned | lib/useTranslation.ts:26-27 | a substituted value that looks like a placeholder (`{b}`) is inserted verbatim, not filled again |
| Translation.Translate | lib/useTranslation.ts:13-32 | what `t` returns: any result other than the key comes from a path that ends on a string (and MissingSegmentGivesKey, TranslateOutcome) |
| Translation.T | lib/useTranslation.ts:13-32 | the loop over the segments, with its early return and the checks after it, computes `Translate` |
| Translation.MissingSegmentGivesKey | lib/useTranslation.ts:17-19 | if any segment is absent at its level, the result is exactly the key |
| Translation.TranslateOutcome | lib/useTranslation.ts:22-31 | if the path does not end on a string, the result is the key; if it ends on a string and no parameters are given, the result is that string unchanged |
| Translation.NestedKey | lib/useTranslation.ts:14-20 | `t("a.b")` reads field `b` of field `a` of the table |

## Left out

- Inherited JavaScript properties are not modelled. `value?.[k]` and `params[paramKey]` can also reach prototype members such as `toString` or `constructor`. The model only sees a table's own fields, array and string indices, and `length`.
- Numeric translation parameters and their `toString()` formatting are not modelled: parameters are strings.
- Characters are Unicode code points, while JavaScript's `slice` and string indexing count UTF-16 code units. Text outside the Basic Multilingual Plane is therefore measured differently by `Echoed` and `Step`.
- ChatRoute.ShowId: only a string `characterId` or an absent one is modelled. Other JSON values would be converted to text by the template literal (`null`, `[object Object]`, …).
- History entries not shaped like `Message` are not modelled; history is a sequence of `Message` values, so the status-200 result of ChatRoute.Post holds only for such entries. `find` runs on the reversed copy and stops at the first user-role entry it meets, so a `null` or `undefined` entry is read, and makes `m.role` throw, only when it comes after the last user entry or when the history has no user entry at all; a `null` before the last user entry (`[null, {role: 'user', content: 'hi'}]`) is never read, and the echo of `hi` is sent with status 200. Falsy non-string content (`0`, `false`, `null`, a missing field) fails the `lastUser ?` test, so the greeting is sent and `slice` is never called. Array content has a `slice` method, so the reply holds the comma-joined array. Truthy content without a `slice` method (a number, `true`, a plain object) throws, and the framework then answers with an error status instead of 200.
- The response object is reduced to its status and its `reply` field. The `Content-Type` header and JSON serialisation are left out, and so is JSON parsing of the request.
- The contents of the English and Turkish message tables are not part of the source shown, so they stay abstract.
- React rendering, the locale context and `useLocale`'s error outside a provider are not modelled. Nothing runs effects on the server, so the server side is modelled only as `InitialLocale(None)`.
- Changes to browser storage by anything other than the provider are not modelled.
- Authentication (components/SupabaseProvider.tsx, lib/supabase.ts), the pages, layouts, navigation, animations and styling are not part of this model.
- The chat page's send, retry and rate-limit logic and its conversation storage are not part of this model. Neither is any call to a language-model provider: none appears in the modelled endpoint.
