# chemija-org redirect and exam-title model

A Dafny model of the two pieces of pure logic in the chemija-org site.

- **Redirect generation for the hosting configuration** (`misc/scripts/generate-vercel-config.ts`).
  Every legacy URL of an article becomes a permanent redirect to `/<slug>`. A URL that lacks a
  leading `/` gets one. A fixed list of global rules sends two old `.html` pages to their
  clean paths. Article redirects come first, then the global ones. The combined list is
  de-duplicated by source path through a JavaScript `Map`.
- **The exam preview title in the content studio** (`studio/src/schemaTypes/documents/exam.ts`).
  The title is `"<year> <VBE|MBE> <first word of session>"`.

Modules:

- `Optional`: `Maybe`, for TypeScript properties that may be `undefined`.
- `Strings`: `startsWith` and `split` with a one-character argument, `join`, and an
  independent definition of "the text before the first separator".
- `JsMap`: an insertion-ordered map with JavaScript `Map` semantics. A key keeps the place
  where it was first set, and the value is the last one set. `new Map(entries)` is a left
  fold of `set`.
- `Redirects`: articles, redirect records, `generateArticleRedirects`, `getGlobalRedirects`,
  `processRedirects`, and the composition in `main`.
- `Exam`: the preview selection and `preview.prepare`.

## Model

| member | source | states |
|---|---|---|
| Strings.Split | studio/src/schemaTypes/documents/exam.ts:72 | `split` with a one-character separator always yields at least one piece, and no piece contains the separator |
| Strings.JoinSplit | studio/src/schemaTypes/documents/exam.ts:72 | splitting loses nothing: joining the pieces with the separator gives back the original string |
| Strings.PrefixBefore | studio/src/schemaTypes/documents/exam.ts:72 | the text before the first separator is a prefix of the string and holds no separator; it stops at the first separator, or is the whole string when there is none |
| Strings.SplitHead | studio/src/schemaTypes/documents/exam.ts:72 | `s.split(sep)[0]` is exactly the text before the first separator |
| Strings.PrefixBeforeUnique | studio/src/schemaTypes/documents/exam.ts:72 | any prefix that avoids the separator and ends at a separator or at the end of the string is the text before the first separator |
| Strings.SplitWithoutSeparator | studio/src/schemaTypes/documents/exam.ts:72 | a string without the separator splits into itself alone |
| Strings.SplitConcat | studio/src/schemaTypes/documents/exam.ts:72 | a separator placed between two strings splits them apart, and the pieces of each are kept |
| JsMap.Set | misc/scripts/generate-vercel-config.ts:106-108 | `Map.set` keeps the map well formed and stores the new value. An existing key keeps its position; a new key goes after all others; other keys keep their values |
| JsMap.FromEntries | misc/scripts/generate-vercel-config.ts:106-108 | `new Map(entries)` yields a well-formed map: each key is listed once, and exactly the listed keys carry a value |
| JsMap.FromEntriesKeys | misc/scripts/generate-vercel-config.ts:106-108 | the map's keys are exactly the keys occurring in the entries |
| JsMap.FromEntriesLastWins | misc/scripts/generate-vercel-config.ts:106-108 | each key carries the value of the last entry with that key |
| JsMap.FromEntriesFirstOrder | misc/scripts/generate-vercel-config.ts:106-109 | the keys are listed in order of their first occurrence in the entries |
| JsMap.FromEntriesDistinct | misc/scripts/generate-vercel-config.ts:106-109 | when the entry keys are already distinct, the keys and values come out in entry order, unchanged |
| JsMap.FromEntriesSize | misc/scripts/generate-vercel-config.ts:106-108 | the map never holds more keys than there are entries |
| JsMap.Values | misc/scripts/generate-vercel-config.ts:109 | `Array.from(map.values())` has as many elements as the map has entries, and element `i` is the value stored under the `i`-th inserted key |
| Redirects.NormalizeSource | misc/scripts/generate-vercel-config.ts:65 | the source starts with `/`. A URL already starting with `/` is kept. Otherwise the source is the URL with at most one character in front |
| Redirects.NormalizeSourcePrependsOne | misc/scripts/generate-vercel-config.ts:65 | a URL without a leading `/` gets exactly one `/` prepended |
| Redirects.NormalizeSourceIdempotent | misc/scripts/generate-vercel-config.ts:65 | normalising an already normalised source changes nothing |
| Redirects.GenerateArticleRedirects | misc/scripts/generate-vercel-config.ts:62-70 | one redirect per legacy URL, a missing list counting 0. Every source starts with `/` and every redirect is permanent |
| Redirects.GenerateArticleRedirectsAt | misc/scripts/generate-vercel-config.ts:62-70 | URL `j` of article `i` yields the redirect at position (URLs of earlier articles) + `j`. It has the normalised source, destination `/` + slug, and is permanent: article order, then URL order |
| Redirects.GenerateArticleRedirectsOrigin | misc/scripts/generate-vercel-config.ts:62-70 | conversely, every generated redirect comes from some URL of some article, at that position, with that article's slug as destination |
| Redirects.GlobalRedirects | misc/scripts/generate-vercel-config.ts:75-88 | two rules, all permanent, with distinct sources starting with `/`; each source is its destination plus `.html` |
| Redirects.Entries | misc/scripts/generate-vercel-config.ts:107 | the entries handed to the `Map` are `[source, redirect]` pairs: entry `i` is keyed by the source of redirect `i` and carries redirect `i` itself |
| Redirects.MapHoldsLast | misc/scripts/generate-vercel-config.ts:106-108 | every key of the built map is an input source, and it stores the last input redirect with that source |
| Redirects.ProcessRedirects | misc/scripts/generate-vercel-config.ts:105-110 | the output sources are pairwise distinct and are the keys of the built map in order; the output is never longer than the input |
| Redirects.ProcessRedirectsSameSources | misc/scripts/generate-vercel-config.ts:105-110 | the output's set of sources equals the input's: only duplicates are dropped |
| Redirects.ProcessRedirectsKeepsLast | misc/scripts/generate-vercel-config.ts:106-109 | each output redirect is the last input redirect with its source |
| Redirects.ProcessRedirectsFirstOccurrenceOrder | misc/scripts/generate-vercel-config.ts:106-109 | output redirects are ordered by where their source first appeared in the input |
| Redirects.ProcessRedirectsOfDistinct | misc/scripts/generate-vercel-config.ts:105-110 | on a list whose sources are already distinct, de-duplication is the identity |
| Redirects.ProcessRedirectsIdempotent | misc/scripts/generate-vercel-config.ts:105-110 | de-duplicating twice is the same as de-duplicating once |
| Redirects.ProcessRedirectsKeepsUnrepeated | misc/scripts/generate-vercel-config.ts:105-110 | a redirect whose source path no later redirect reuses appears in the output unchanged |
| Redirects.FinalRedirects | misc/scripts/generate-vercel-config.ts:120-125 | the written redirects have distinct sources, all starting with `/`, and all are permanent |
| Redirects.GlobalRedirectsOverride | misc/scripts/generate-vercel-config.ts:120-125 | every global rule survives. A global rule replaces any article redirect with the same source, because the globals are concatenated last |
| Redirects.ArticleRedirectSurvives | misc/scripts/generate-vercel-config.ts:120-125 | an article redirect whose source no later article redirect and no global rule reuses reaches the output unchanged |
| Exam.FirstPiece | studio/src/schemaTypes/documents/exam.ts:72 | the first split piece of an optional text, with the empty string as fallback, is the text before the first separator (the whole text if there is none) and holds no separator; it is empty when the text is unset. With `-` this is the year part (`2023-01-01` gives `2023`), with a space the session part |
| Exam.LevelCode | studio/src/schemaTypes/documents/exam.ts:72 | the code is `VBE` exactly when the level is `Valstybinis`; every other value, including an unset one, gives `MBE` |
| Exam.Title | studio/src/schemaTypes/documents/exam.ts:69-74 | split at spaces, the title ends with the session part, preceded by the level code; the pieces before them join back to the year part |
| Exam.TitleSplits | studio/src/schemaTypes/documents/exam.ts:72 | a title assembled from a year, a space-free code and a space-free session splits back into those parts |
| Exam.TitleParts | studio/src/schemaTypes/documents/exam.ts:72 | when the year part holds no space, the title splits into exactly year part, level code and session part |
| Exam.TitleOfNothing | studio/src/schemaTypes/documents/exam.ts:69-72 | with no selection, with the default empty selection, or with every field unset, the title is `" MBE "` |
| Exam.TitleOfDateAndSession | studio/src/schemaTypes/documents/exam.ts:72 | a date `Y-…` with a dash-free `Y` and a session `W …` with a space-free `W` give the title `Y <code> W` |

## Left out

- `fetchArticles` (the content-store query), `Bun.write` of the configuration file and the `console.log` calls. These are network and file I/O. The model's input is the list of fetched articles.
- `getDesiredRewrites` and assembling the `VercelConfig` object. The rewrite list is one constant proxy rule with no logic, and the object is only serialised to JSON. JSON serialisation is not modelled.
- JavaScript strings are sequences of UTF-16 code units; here they are sequences of Unicode characters. Every separator involved (`/`, `-`, space) is a single ASCII character, so splitting and prefix tests agree.
- The `Map` key comparison (SameValueZero) is plain string equality here, which is what it amounts to for string keys.
- The chemical equation balancer (`ChemicalBalancer.jsx` imports it from `./chemicalEquationBalancer`). Its source is not part of this model. The component around it is React state and event handling.
- The quadratic, concentration, molar-mass and temperature calculators are floating-point arithmetic inside React event handlers.
- Studio and site configuration, the other schema types, the image helpers and the date formatting helper. These are declarative configuration or thin wrappers over third-party libraries.
