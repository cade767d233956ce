# Bayfront Lighting site: slide paths, hash routing and the slide cycle

This project models the logic of the Bayfront Lighting single-page site
(`src/Site.jsx`) in Dafny and proves what it promises:

- **The slide-path sanitiser.**
  - `encodePaths` walks a list of candidate image references and drops non-strings and entries that are blank after `trim()`.
  - It de-duplicates case-insensitively on the trimmed, lower-cased key; the first occurrence wins and order is kept.
  - It prefixes relative names with `/` and leaves `/…`, `http:`/`https:` (any case) and `data:` entries alone.
  - It passes each result through `encodeURI`.
  - `computeSlides` falls back to a built-in 1x1 PNG data URI when nothing survives.
- **Hash routing.** `isGallery` says whether a location fragment starts with `#/gallery`. `useRoute` reads the fragment, with `#/` standing in for an empty or absent one, initially and after each `hashchange`.
- **The hero slideshow.** The visible-slide index moves forward on "next" and on the 5-second interval tick, and backward on "prev", modulo the number of slides. With a single slide nothing moves.

Modules, one per file:

| file | module | what it holds |
|---|---|---|
| `wrappers.dfy` | `Wrappers` | `Option` (a `null`/`undefined` list versus an array) |
| `js_text.dfy` | `JsText` | JavaScript values as far as the core inspects them; `trim` (the exact ECMAScript whitespace set), `toLowerCase`, `startsWith` |
| `uri_encoding.dfy` | `UriEncoding` | `encodeURI` (section 19.2.6.3 of ECMA-262) over UTF-8 (RFC 3629) with upper-case `%XY` escapes (section 2.1 of RFC 3986), and a percent-decoder as its partner |
| `path_sanitizer.dfy` | `PathSanitizer` | `encodePaths` as a loop method proved equal to a specification function, `computeSlides`, and their properties |
| `router.dfy` | `Router` | `isGallery` and the `useRoute` fallback, over an explicit location argument |
| `slide_cycle.dfy` | `SlideCycle` | the index arithmetic, and a `Hero` class whose `index` field `Next`, `Prev` and `Tick` update |
| `sanitizer_examples.dfy` | `SanitizerExamples` | worked inputs (single entries, names differing only in case such as `a.jpg` and `A.JPG`, blank lists, a space in a name), each proved from the general lemmas |

`Survivors(xs)` is the specification of the `encodePaths` loop: the trimmed entries the loop emits, in input order. It is defined one entry at a time, as the loop proceeds. `EncodePaths` is the loop itself, with the `seen` set and the `out` array. Its contract ties the output to `EmitAll(Survivors(...))`, and the lemmas state what `Survivors` means. The survivors are exactly the first occurrence of each usable key, in input order (`FirstOccurrences`). There is one per distinct usable key (`SurvivorCount`). Entries that are skipped change nothing wherever they stand (`IgnoredEntry`).

Three details of the code that the model follows:
- The code's absolute test for URLs is `/^https?:/i`, which accepts `http:` with no slashes, not only `http://`.
- The `data:` test is `startsWith`, so it is case-sensitive; `DATA:x` gets a `/` prefix.
- `encodeURI` escapes `%` again: an entry that already holds `%20` comes out with `%2520` (`UriEncoding.PercentIsReescaped`), so already-encoded input is not left alone.

## Model

| member | source | states |
|---|---|---|
| JsText.TrimStart | src/Site.jsx:54 | the leading-whitespace removal in `trim()`: never longer, and the result does not start with whitespace |
| JsText.TrimEnd | src/Site.jsx:54 | the trailing-whitespace removal in `trim()`: never longer, does not end with whitespace, keeps the first character |
| JsText.Trim | src/Site.jsx:54 | `f.trim()` is never longer than `f` and has no ECMAScript whitespace at either end |
| JsText.TrimStartSplit | src/Site.jsx:54 | the leading part `trim` removes is all whitespace and the rest is kept as a suffix |
| JsText.TrimEndSplit | src/Site.jsx:54 | the trailing part `trim` removes is all whitespace and the rest is kept as a prefix |
| JsText.TrimBlank | src/Site.jsx:55 | `!trimmed` holds exactly when the entry is all whitespace (or empty) |
| JsText.TrimPadding | src/Site.jsx:54 | trimming whitespace padding around an already-trimmed text gives back exactly that text |
| JsText.TrimStartPadding | src/Site.jsx:54 | leading whitespace padding is removed exactly |
| JsText.TrimEndPadding | src/Site.jsx:54 | trailing whitespace padding is removed exactly |
| JsText.LowerChar | src/Site.jsx:56 | an upper-case ASCII letter becomes the lower-case letter at the same place in the alphabet, every other character is kept, and no upper-case letter is left |
| JsText.LowerCharSame | src/Site.jsx:56 | two characters lower-case alike exactly when they are equal or the two cases of one ASCII letter |
| JsText.ToLower | src/Site.jsx:56 | `trimmed.toLowerCase()` has the same length, leaves no upper-case ASCII letter, and each character differs from the original at most in case |
| JsText.ToLowerSame | src/Site.jsx:56 | two texts have the same lower-cased key exactly when they have the same length and differ at most in the case of ASCII letters, both directions |
| JsText.ToLowerIdempotent | src/Site.jsx:56 | lower-casing a key again changes nothing |
| JsText.StartsWith | src/Site.jsx:60 | `startsWith` and a `^`-anchored literal hold exactly when the first characters of the text are those of the prefix |
| JsText.StartsWithNoCase | src/Site.jsx:60 | a `^`-anchored literal under the `i` flag matches exactly when each of the first characters of the text is the prefix character or its other ASCII case |
| UriEncoding.HexValue | src/Site.jsx:62 | a hexadecimal digit's value is below 16 |
| UriEncoding.HexDigit | src/Site.jsx:62 | `encodeURI` writes upper-case hex digits, and each one reads back as its value |
| UriEncoding.Escape | src/Site.jsx:62 | one byte becomes `%XY`, three characters that read back as that byte |
| UriEncoding.EscapeAll | src/Site.jsx:62 | a byte string becomes three escape characters per byte |
| UriEncoding.Utf8 | src/Site.jsx:62 | a character is one to four UTF-8 bytes, one byte exactly for ASCII, which is then the character itself |
| UriEncoding.EncodeURI | src/Site.jsx:62 | `encodeURI` output holds only unescaped characters and `%`, is never shorter, and equals its input exactly when nothing needed escaping |
| UriEncoding.EncodeAppend | src/Site.jsx:62 | encoding distributes over concatenation |
| UriEncoding.EncodeKeepsPrefix | src/Site.jsx:62 | a prefix made of unescaped characters (such as `/` or `data:`) passes through unchanged |
| UriEncoding.DecodeEscape | src/Site.jsx:62 | decoding one escape gives back its byte |
| UriEncoding.DecodeEscapes | src/Site.jsx:62 | decoding a run of escapes gives back the bytes |
| UriEncoding.DecodeChar | src/Site.jsx:62 | decoding one encoded character gives back its UTF-8 bytes |
| UriEncoding.DecodeEncode | src/Site.jsx:62 | percent-decoding `encodeURI(s)` gives back the UTF-8 bytes of `s` |
| UriEncoding.Utf8Lead | src/Site.jsx:62 | the lead byte of a UTF-8 form announces its length |
| UriEncoding.Utf8Injective | src/Site.jsx:62 | different characters have different UTF-8 forms |
| UriEncoding.Utf8StringInjective | src/Site.jsx:62 | different strings have different UTF-8 forms |
| UriEncoding.EncodeInjective | src/Site.jsx:62 | `encodeURI` loses nothing: equal outputs come from equal inputs |
| UriEncoding.SpaceEncoding | src/Site.jsx:62 | a space becomes `%20` |
| UriEncoding.PercentIsReescaped | src/Site.jsx:62 | an existing `%20` becomes `%2520` |
| PathSanitizer.Usable | src/Site.jsx:53-55 | an entry passes the two `continue` tests exactly when it is a string that is not all whitespace |
| PathSanitizer.EntryKey | src/Site.jsx:56 | the key is as long as the trimmed entry and holds no upper-case ASCII letter |
| PathSanitizer.SameKey | src/Site.jsx:56-57 | two entries share a key exactly when their trimmed texts have the same length and differ at most in ASCII case |
| PathSanitizer.KeysOfAppend | src/Site.jsx:58 | `seen.add(key)` adds exactly the new entry's key |
| PathSanitizer.DistinctAppend | src/Site.jsx:57-58 | adding an entry whose key is not yet seen keeps the keys distinct |
| PathSanitizer.Keep | src/Site.jsx:53-58 | one loop iteration keeps everything kept so far and adds at most one entry, its trimmed text, exactly when it is usable with an unseen key |
| PathSanitizer.Survivors | src/Site.jsx:52-58 | the kept entries are never more than the input, each is non-blank and trimmed, and no two share a key |
| PathSanitizer.SurvivorsStep | src/Site.jsx:52-58 | one more input entry changes the kept entries exactly as one loop iteration does |
| PathSanitizer.LooksAbsolute | src/Site.jsx:59-60 | an absolute-looking entry is non-empty and starts with `/`, `h`/`H` or `d` |
| PathSanitizer.AbsoluteForms | src/Site.jsx:59-60 | `/…`, `data:…`, `HTTP:…` and `Https:…` look absolute; `DATA:…` does not, since the `data:` test is case-sensitive |
| PathSanitizer.WithPrefix | src/Site.jsx:61 | `withPrefix` always looks absolute, equals the entry exactly when the entry looked absolute, and is `/` plus the entry otherwise |
| PathSanitizer.Emit | src/Site.jsx:61-62 | the pushed path is the entry's encoding, with `/` before it exactly when the entry did not look absolute |
| PathSanitizer.EmitAll | src/Site.jsx:62 | one pushed path per kept entry, each `encodeURI(withPrefix)` of it, in order |
| PathSanitizer.EmitAllAppend | src/Site.jsx:62 | keeping one more entry pushes exactly one more path at the end |
| PathSanitizer.KeepCases | src/Site.jsx:53-62 | a non-string, blank or already-seen entry changes nothing; a new one adds its key to `seen` and pushes its encoded path |
| PathSanitizer.Items | src/Site.jsx:52 | `files \|\| []`: a `null`/`undefined` list reads as empty, an array as itself |
| PathSanitizer.PathsOf | src/Site.jsx:49-65 | `encodePaths` never returns more paths than entries, and returns none for a `null`/`undefined` list |
| PathSanitizer.EncodePaths | src/Site.jsx:49-65 | the loop with its `seen` set and `out` array returns exactly the encoded survivors |
| PathSanitizer.ComputeSlides | src/Site.jsx:69-72 | `computeSlides` is never empty: the encoded paths when there are any, exactly `[BLANK_IMG]` otherwise |
| PathSanitizer.UsableKeysAppend | src/Site.jsx:53-56 | the usable keys of a longer list are the old ones plus the new entry's key if it is usable |
| PathSanitizer.SurvivorKeys | src/Site.jsx:51-58 | the keys of the kept entries are exactly the keys of the usable input entries |
| PathSanitizer.LastKeyNew | src/Site.jsx:57 | with distinct keys, the last kept entry's key was not seen before it |
| PathSanitizer.DistinctKeysCount | src/Site.jsx:56-58 | with distinct keys there are as many keys as entries |
| PathSanitizer.SurvivorCount | src/Site.jsx:52-58 | one output per distinct usable key |
| PathSanitizer.NothingUsable | src/Site.jsx:52-55 | `encodePaths` returns nothing exactly when no entry is a non-blank string, both directions |
| PathSanitizer.IgnoredEntry | src/Site.jsx:53-57 | a non-string, a blank string, or one whose key was seen earlier contributes nothing, wherever it stands |
| PathSanitizer.SurvivorsPrefix | src/Site.jsx:57-58 | later entries never displace earlier survivors |
| PathSanitizer.KeySeenBefore | src/Site.jsx:57 | an entry whose key an earlier usable entry has is not a first occurrence |
| PathSanitizer.KeyNotSeen | src/Site.jsx:57 | a usable entry with an unseen key is a first occurrence |
| PathSanitizer.FirstOfLast | src/Site.jsx:53-57 | the newest entry is a first occurrence exactly when it is usable and its key is not among the earlier usable keys |
| PathSanitizer.FirstInPrefix | src/Site.jsx:57 | being a first occurrence does not depend on later entries |
| PathSanitizer.OriginsMatch | src/Site.jsx:52-58 | each survivor is the trimmed text of the input entry it came from, and those positions increase |
| PathSanitizer.OriginsAreFirst | src/Site.jsx:56-58 | every survivor comes from a first occurrence of its key |
| PathSanitizer.FirstAreOrigins | src/Site.jsx:56-58 | every first occurrence of a usable key survives |
| PathSanitizer.FirstOccurrences | src/Site.jsx:52-58 | the survivors are exactly the first occurrences of each key, in input order, each trimmed |
| PathSanitizer.EmitForm | src/Site.jsx:59-62 | a relative entry is emitted as `/` plus its encoding, an absolute-looking one as its encoding alone, and every emitted path looks absolute |
| PathSanitizer.EncodeStaysAbsolute | src/Site.jsx:60-62 | encoding an absolute-looking entry leaves it absolute-looking, whichever of the four starts it has |
| PathSanitizer.AbsoluteStartsUnescaped | src/Site.jsx:60 | none of the starts `/`, `data:`, `http:`, `https:` needs escaping |
| PathSanitizer.KeepsPrefix | src/Site.jsx:60 | encoding keeps a `/` or `data:` start |
| PathSanitizer.NoCaseKeepsPrefix | src/Site.jsx:60 | encoding keeps an `http:`/`https:` start in any case |
| PathSanitizer.PathsOfForm | src/Site.jsx:59-62 | each returned path is its survivor's encoding, `/`-prefixed exactly when the survivor did not look absolute |
| PathSanitizer.BlankImgForm | src/Site.jsx:68 | the fallback image is a `data:` URI |
| PathSanitizer.SlidesCount | src/Site.jsx:69-72 | one slide per distinct usable key, or exactly the fallback when there is none |
| PathSanitizer.SlidesLookAbsolute | src/Site.jsx:59-72 | every slide, the fallback included, looks absolute |
| Router.IsGallery | src/Site.jsx:74 | `isGallery(hash)` holds exactly when `hash` is a string whose first nine characters are `#/gallery` |
| Router.ViewOf | src/Site.jsx:74 | the gallery shows exactly when the route's first nine characters are `#/gallery` |
| Router.Normalize | src/Site.jsx:81 | `hash \|\| '#/'` is never empty, keeps a non-empty hash and turns an empty one into `#/` |
| Router.InitialRoute | src/Site.jsx:77 | the first route is never empty: `#/` without a window, the normalised hash otherwise |
| Router.RouteAfter | src/Site.jsx:77-81 | after `hashchange` events the route is the normalised latest hash; without a window it stays `#/` |
| Router.RouteNeverEmpty | src/Site.jsx:77-81 | the route is never empty, and is `#/` when there is no window |
| Router.NormalizeKeepsView | src/Site.jsx:74-81 | the `#/` fallback never changes the view and is idempotent |
| Router.ViewAfter | src/Site.jsx:76-86 | the view follows the latest `hashchange`, or the initial hash, and is home without a window |
| Router.GallerySubpaths | src/Site.jsx:74 | any extension of a gallery route is still the gallery |
| Router.GalleryExamples | src/Site.jsx:74 | `#/gallery` and `#/gallery/foo` are the gallery; `#/`, the empty string, `#/galler` and non-strings are not |
| SlideCycle.NextIndex | src/Site.jsx:150 | `(v+1)%n` stays below `n` and wraps from the last slide to the first |
| SlideCycle.PrevIndex | src/Site.jsx:151 | `(v-1+n)%n` stays below `n` and wraps from the first slide to the last |
| SlideCycle.Advance | src/Site.jsx:147 | the index after any number of ticks stays below `n` |
| SlideCycle.NextPrevInverse | src/Site.jsx:150-151 | prev undoes next and next undoes prev |
| SlideCycle.AdvanceInRange | src/Site.jsx:147 | ticks that do not reach the end move one slide each |
| SlideCycle.AdvanceAdd | src/Site.jsx:147 | `a` ticks then `b` ticks is `a + b` ticks |
| SlideCycle.FullCycle | src/Site.jsx:147 | after `n` ticks the index is back where it started |
| SlideCycle.Periodic | src/Site.jsx:147 | the sequence of indices repeats with period `n` |
| SlideCycle.Hero.Many | src/Site.jsx:144 | `many` holds exactly when there are at least two slides |
| SlideCycle.Hero.constructor | src/Site.jsx:142-143 | mounting computes the slides from the file list and shows the first one |
| SlideCycle.Hero.Next | src/Site.jsx:150 | next moves the index by `NextIndex` when there are several slides and not at all otherwise; the index stays in range |
| SlideCycle.Hero.Prev | src/Site.jsx:151 | prev moves the index by `PrevIndex` when there are several slides and not at all otherwise; the index stays in range |
| SlideCycle.Hero.Tick | src/Site.jsx:145-147 | a tick, which only exists with several slides, moves the index by `NextIndex` |
| SlideCycle.ThreeSlides | src/Site.jsx:145-151 | with three slides, prev from 0 wraps to 2, next returns to 0, and five ticks visit 1, 2, 0, 1, 2 |
| SlideCycle.OneSlide | src/Site.jsx:144-151 | with one slide, next and prev leave the index at 0 |
| SanitizerExamples.SingleEntry | src/Site.jsx:52-58 | a single non-blank entry survives as its trimmed text |
| SanitizerExamples.NoFiles | src/Site.jsx:69-72 | a `null` or empty list gives only the fallback image |
| SanitizerExamples.BlankFiles | src/Site.jsx:53-55 | a whitespace-only string and a `null` give only the fallback image |
| SanitizerExamples.TwoEntries | src/Site.jsx:52-58 | two entries: the first survives and the second is kept or dropped by its key |
| SanitizerExamples.CaseVariants | src/Site.jsx:56-57 | two names whose trimmed texts differ only in ASCII case give one slide, from the first |
| SanitizerExamples.PlainRelativeName | src/Site.jsx:59-60 | `a.jpg` does not look absolute |
| SanitizerExamples.PlainRelativeEmit | src/Site.jsx:61-62 | `a.jpg` is emitted as `/a.jpg` |
| SanitizerExamples.CaseVariantsExample | src/Site.jsx:49-65 | `encodePaths(["a.jpg", "A.JPG"])` is exactly `["/a.jpg"]` |
| SanitizerExamples.SpaceEscaped | src/Site.jsx:62 | a space in a name becomes `%20` where it stands |
| SanitizerExamples.SpacedNameRelative | src/Site.jsx:60 | `my photo.jpg` does not look absolute |
| SanitizerExamples.SpacedNameWords | src/Site.jsx:62 | `my` and `photo.jpg` need no escaping |
| SanitizerExamples.SpacedNameEmit | src/Site.jsx:59-62 | `my photo.jpg` is emitted as `/my%20photo.jpg` |
| SanitizerExamples.AbsoluteUnchanged | src/Site.jsx:59-62 | an absolute entry that needs no escaping comes out unchanged |
| SanitizerExamples.RootedTrimmed | src/Site.jsx:54 | putting `/` before a trimmed name leaves it trimmed |
| SanitizerExamples.RelativeAndRooted | src/Site.jsx:56-58 | `t` and `/t` have different keys, so both survive |
| SanitizerExamples.SameEmit | src/Site.jsx:59-62 | `t` and `/t` are emitted as the same path |
| SanitizerExamples.DuplicatePaths | src/Site.jsx:56-62 | keys are unique but returned paths need not be: `t` and `/t` both give `/t` |

## Left out

- `src/main.jsx` (React root bootstrap) and the font `<style>` injection (src/Site.jsx:28-33): DOM side effects with no logic.
- Theme tokens, contexts and all JSX markup and copy (header menu, offerings, call to action, estimate form): presentational.
- The form POST to the external form host: an opaque collaborator.
- The 5000 ms period of the interval is timing: only the step a tick takes is modelled.
- The `setInterval`/`clearInterval` scheduling and the `hashchange` listener registration and removal (src/Site.jsx:79-84, 145-149) are timer and event plumbing. Only the state change a tick or a navigation causes is modelled (`Hero.Tick`, `Router.RouteAfter`).
- The `<img onError>` swap to the blank image (src/Site.jsx:160): a browser load callback that mutates the DOM.
- `Hero` takes its file list as an argument; the four literal file names are configuration.
- `Hero`'s slide list is a constant, so a change of the slide count while the interval runs is not modelled.
- JsText.LowerChar: lower-cases ASCII letters only; the Unicode case mappings of `toLowerCase` for other characters are not modelled. Two keys that differ only in non-ASCII case count as different here.
- UriEncoding.EncodeURI: the `URIError` on a lone surrogate is not modelled, because strings here are sequences of Unicode scalar values and cannot hold one.
- PathSanitizer.Items: only a list, `null` or `undefined` is modelled as `files`. Another truthy value (a string iterated character by character, or a non-iterable that throws `TypeError`) is not.
- Router.InitialRoute: a `window` without a `location` object is not modelled; it would also give `#/`.
