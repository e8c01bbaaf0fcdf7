# Public-form deep-link resolver

A Dafny model of the route resolver in `web/flutter_web_config.js`, the
script the Flutter web build loads before the app starts. The script looks at
the page path and, when the page is a shareable public form, tells Flutter to
start on that form's route.

The script does three things:

- `isPublicFormPage()` tests whether the path contains the text `/forms/public/` anywhere.
- `extractFormId()` runs `path.match(/\/forms\/public\/([a-f0-9]{24})/)` and
  returns capture group 1, or `null` when nothing matches.
- When the page is a public form page and the id is truthy, the top-level
  block sets `window.flutter_web_initial_route` to `/forms/public/<formId>`.

The browser path is modelled as the `path: string` parameter. The global
initial route is modelled as an `Option<string>` result: `None` means the
script left it unset.

Files:

- `wrappers.dfy` holds the `Option` datatype.
- `text_search.dfy` models `String.prototype.includes` as a left-to-right
  search. It is proved to return the least index where the pattern occurs.
- `flutter_web_config.dfy` holds the regular expression. `MatchesAt(path, i)`
  is the declarative statement "the pattern matches at index `i`". `MatchFrom`
  is the engine's left-to-right search, and `Match` is proved to return the
  leftmost matching index. The module also holds `ExtractFormId`,
  `IsPublicFormPage` and `InitialRoute`.
- `route_properties.dfy` holds lemmas and worked examples. They cover the
  guard structure, the missing anchors, the missing boundary after the 24th
  character, and the rejected shapes of path.

Two details of the pattern decide which paths get a route:

- The pattern has no boundary after `{24}`. Longer hex runs still match, and
  only the first 24 characters are captured (`TrailingTextIgnored`).
- The regular expression takes the leftmost match. That can be a later
  occurrence of the segment when the first one is followed by a malformed id
  (`ExampleLeftmostMatchNotFirstOccurrence`).

## Model

| member | source | states |
|---|---|---|
| TextSearch.IndexOfFrom | web/flutter_web_config.js:10 | the substring search returns the least index at or after the start where the pattern occurs, and None only when it occurs at no such index |
| TextSearch.Includes | web/flutter_web_config.js:10 | `includes` is true exactly when the pattern occurs at some index of the string |
| FlutterWebConfig.IsPublicFormPage | web/flutter_web_config.js:8-11 | the page is a public form page iff `/forms/public/` occurs somewhere in the path |
| FlutterWebConfig.AllLowerHex | web/flutter_web_config.js:16 | the character class `[a-f0-9]` holds of a string iff it holds of every character |
| FlutterWebConfig.TryMatchAt | web/flutter_web_config.js:16 | one attempt of the pattern at a fixed index succeeds iff the pattern matches there, and then reports that index and the 24 characters after the segment as the capture |
| FlutterWebConfig.MatchFrom | web/flutter_web_config.js:16 | the engine's scan returns the least matching index at or after the start, and None only when no index from there on matches |
| FlutterWebConfig.Match | web/flutter_web_config.js:16 | `path.match` returns the leftmost match with its capture group, and null iff the pattern matches nowhere |
| FlutterWebConfig.ExtractFormId | web/flutter_web_config.js:14-18 | an id is returned iff the pattern matches somewhere; it is always 24 characters of `[a-f0-9]`; it is the capture at the leftmost matching index |
| FlutterWebConfig.ExtractImpliesPublicPage | web/flutter_web_config.js:21-23 | whenever an id is extracted the page is also a public form page |
| FlutterWebConfig.InitialRoute | web/flutter_web_config.js:21-26 | the route is set iff the pattern matches somewhere; when set it is 38 characters long, starts with `/forms/public/` followed by a well-formed id, and carries the id of the leftmost match |
| RouteProperties.RouteSetIffIdExtracted | web/flutter_web_config.js:21-25 | the route is set exactly when `extractFormId` returns an id, and is then `/forms/public/` followed by that id |
| RouteProperties.NoSegmentNoRoute | web/flutter_web_config.js:21-26 | a path that is not a public form page yields no id and no route |
| RouteProperties.MatchesAtPrefix | web/flutter_web_config.js:16 | whether the pattern matches at an index depends only on the 38 characters from there, not on text appended after them |
| RouteProperties.MatchesAtShift | web/flutter_web_config.js:16 | the pattern matches in a path at an index iff it matches at the same place after any text is prepended |
| RouteProperties.MatchesAtSegmentStart | web/flutter_web_config.js:16 | the segment followed by a well-formed id matches at index 0 and captures that id, whatever follows |
| RouteProperties.TrailingTextIgnored | web/flutter_web_config.js:16 | after a well-formed id any text is ignored, including more hex digits: the first 24 characters are the id and the route is the segment plus that id |
| RouteProperties.SuffixKeepsId | web/flutter_web_config.js:16 | appending text to a path that yields an id changes neither the id nor the route |
| RouteProperties.SlashFreePrefixStartsNoMatch | web/flutter_web_config.js:16 | no match starts inside a prepended text that holds no `/` |
| RouteProperties.PrefixKeepsOutcome | web/flutter_web_config.js:16 | prepending any text inside which no match of the combined path starts (a base path such as `/app`, say) changes neither the id nor the route, whether the path matches or not |
| RouteProperties.SlashFreePrefixKeepsOutcome | web/flutter_web_config.js:16 | prepending text without `/` changes neither the id nor the route, whether the path matches or not |
| RouteProperties.MatchingPrefixWins | web/flutter_web_config.js:16 | a prefix that holds a match of its own decides the id: `/forms/public/<id2>` in front of `/forms/public/<id1>` yields `id2`, where the path alone yields `id1` |
| RouteProperties.EmbeddedIdAlwaysRoutes | web/flutter_web_config.js:14-26 | a segment followed by a well-formed id anywhere in the path, with any text around it, always yields an id and a route |
| RouteProperties.ExampleCanonicalLink | web/flutter_web_config.js:21-26 | `/forms/public/5f2e1a9b7c3d4e6f8a1b2c3d` resolves to itself |
| RouteProperties.ExampleShortId | web/flutter_web_config.js:21-26 | `/forms/public/short123` is a public form page but yields no id and no route |
| RouteProperties.ExampleOtherPage | web/flutter_web_config.js:21-26 | `/dashboard/settings` yields no route |
| RouteProperties.ExampleUppercaseRejected | web/flutter_web_config.js:16 | an id written in upper-case hex is a public form page but yields no route |
| RouteProperties.MalformedHeadStartsNoMatch | web/flutter_web_config.js:16 | when `/forms/public/abc` is followed by text starting with `/`, no match starts in its first 17 characters, though the segment occurs at index 0 |
| RouteProperties.ExampleLeftmostMatchNotFirstOccurrence | web/flutter_web_config.js:16 | in `/forms/public/abc/forms/public/<id>` the segment first occurs at index 0 but no match starts there, the leftmost match is at index 17, and the route carries the id that follows it |

## Left out

- Reading `window.location.pathname` and writing `window.flutter_web_initial_route` are not modelled as browser state. They become the `path` parameter and the `Option` result. A route already set by someone else before the script runs is not modelled.
- The `console.log` diagnostic (web/flutter_web_config.js:29-34) is not modelled. It is output only and never affects the route.
- Determinism has no lemma. Every operation is a Dafny function of the path alone, so evaluating twice on the same path gives the same id and route by construction. This includes the second evaluation the diagnostic performs.
- Strings are sequences of Dafny `char`s. JavaScript's UTF-16 code units and any URL percent-decoding of the path are not modelled. The pattern only ever compares against ASCII characters.
- General regular-expression semantics are not modelled. Only this one fixed pattern is specified, by `MatchesAt`.
- `ios/Runner/AppDelegate.swift` is not part of this model. It loads a plist, configures the Google Sign-In SDK and forwards every opened URL to `GIDSignIn.sharedInstance.handle`. These are calls into the Google Sign-In SDK, `Bundle`/`NSDictionary` plist loading and the generated plugin registrant, whose code this repository does not contain.
