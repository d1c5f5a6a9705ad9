# ai-image-generator: host routing, generation requests and prompt titles

This project models, in Dafny, the logic at the centre of a multi-tenant
AI image generator built on Next.js:

- **Host routing** (`middleware.ts`). Every request is mapped to a tenant
  name, taken from the URL and the `Host` header. Three rules are tried in
  a fixed order: local development, Vercel preview hosts, then production
  subdomains of the root domain. The middleware then decides whether the
  auth gate runs. A request with a tenant is rewritten to
  `/s/<tenant><path>`, unless its path is an internal asset. A request
  whose gate fails is rejected; every other request is passed through.
- **Image generation** (`actions/ai-related-tasks.ts`). This covers:
  - `clamp`;
  - prompt validation;
  - the extension fallback;
  - the clamping of width, height and step count, and the seed choice;
  - the credit rule: a user with credits left spends one per generation;
    once they run out, only the pro plan grants more;
  - the ordered steps of `generateImageV1`, over a store of credits and
    image rows;
  - the guard and answer handling of `enhancePrompt`.
- **Prompt titles** (`components/ModalWithCopyPrompt.tsx`). `sliceWords`
  cuts a prompt down to a number of space-separated words and appends `...`.

The model has five modules:

- `Wrappers`: `Option`, used for JavaScript's `null` or `undefined`.
- `JsStrings`: the JavaScript string built-ins the code relies on, with
  their ECMAScript meaning. These are `indexOf`, `includes`, `startsWith`,
  `endsWith`, `split` with a string separator, `join`, `replace` with a
  string pattern (first occurrence only), and `trim` (ECMAScript white
  space and line terminators).
- `HostRouter`: `middleware.ts`, which is pure.
- `ImageGeneration`: `actions/ai-related-tasks.ts`. The credit store is the
  `Store` class. Its credit map and image list are updated in place by
  `CheckImageGenerationEligibility` and `GenerateImageV1`.
- `PromptModal`: `sliceWords`.

Where the code does something other than what its names or comments
suggest, the model follows the code:

- **Preview hosts.** The rule commented "Handle Vercel preview format"
  (middleware.ts:31) applies only to hostnames that end in `.vercel.app`
  (line 32). A `---` host under any other domain is handled by the
  production rule, not the preview rule.
- **Production rule.** The host passes the `isSubdomain` test because it
  *ends* with `.<root>` (middleware.ts:40), but `replace` then removes the
  *first* occurrence of `.<root>` (line 42), not the trailing one.
  `FirstOccurrenceExample` shows a host where the two differ.
- **Internal assets.** The dot test carries the comment "static files like
  .css, .js" (middleware.ts:60), but `/\.(.*)$/` matches a dot in *any*
  segment followed by no line terminator, not only a file extension in the
  last segment.
- **Preview host starting with `---`.** `extractSubdomain` returns `null`
  where there is no subdomain (middleware.ts:43), but such a host yields
  the empty string (line 34). `!!subdomain` then treats the empty string as
  absent, so routing is the same either way.

A root domain that is itself a preview host has its tenants resolved by
the preview rule, because that rule comes first (`PreviewBeforeProduction`).

## Model

| member | source | states |
|---|---|---|
| JsStrings.IndexOf | middleware.ts:19 | The result is -1 exactly when the pattern occurs nowhere; otherwise the pattern occurs there and at no earlier position (`indexOf`, on which `includes` rests). |
| JsStrings.ReplaceFirst | middleware.ts:42 | If the pattern is absent the string is unchanged; otherwise only its first occurrence is replaced. |
| JsStrings.SplitOn | middleware.ts:16 | `split` gives at least one piece, and the first piece is the text before the first separator, or the whole string. |
| JsStrings.JoinSplit | components/ModalWithCopyPrompt.tsx:25-27 | Joining the pieces of a split with the same separator gives back the original string. |
| JsStrings.SplitJoinChar | components/ModalWithCopyPrompt.tsx:25-27 | Splitting a join of space-free pieces on the space gives back exactly those pieces. |
| JsStrings.Join | components/ModalWithCopyPrompt.tsx:27 | `join`. `JoinSplit` and `SplitJoinChar` tie it to `split`. |
| JsStrings.Trim | actions/ai-related-tasks.ts:41 | `trim` as `trimEnd` after `trimStart`. `TrimEmptyIff`, `TrimEnds` and `TrimIdempotent` carry its properties. |
| JsStrings.StartsWith | middleware.ts:58-59 | `pathname.startsWith(p)`: `p` is a prefix of the string. `IsPublicRoute`, `IsInternalAsset` and `RouteOutcomes` rest on it. |
| JsStrings.EndsWith | middleware.ts:32 | `hostname.endsWith(s)` (also line 40): `s` is a suffix of the string. `EndsWithAppended` states that a string ends with what was appended last. |
| JsStrings.Includes | middleware.ts:19 | `includes(t)` (also lines 23 and 32) holds exactly when `indexOf(t)` is not -1, that is when `t` occurs somewhere; `MissingCharNotIncluded` gives the missing case. |
| JsStrings.IsWhiteSpace | actions/ai-related-tasks.ts:41 | The characters `prompt.trim()` removes: ECMAScript WhiteSpace and LineTerminator. `TrimEmptyIff` relates them to an empty trim. |
| JsStrings.TrimEnds | actions/ai-related-tasks.ts:65 | A non-empty trimmed string starts and ends with a non-white character. |
| JsStrings.TrimStart | actions/ai-related-tasks.ts:41 | The result is a suffix of the input, only white space was dropped, and it starts with a non-white character (or is empty). |
| JsStrings.TrimEnd | actions/ai-related-tasks.ts:41 | The result is a prefix of the input, only white space was dropped, and it ends with a non-white character (or is empty). |
| JsStrings.TrimEmptyIff | actions/ai-related-tasks.ts:41 | `trim()` gives the empty string exactly when every character is white space. |
| JsStrings.TrimIdempotent | actions/ai-related-tasks.ts:114 | Trimming an already trimmed string changes nothing. |
| HostRouter.ExtractSubdomain | middleware.ts:13-43 | `extractSubdomain`: the local, preview and production rules in that order. Its properties are the lemmas below, from `PortsIgnored` to `LocalIgnoresRootDomain`. |
| HostRouter.LocalRule | middleware.ts:20-25 | A local tenant never contains a dot. Its order of rules is stated by `LeftmostLocalUrlMatchDecides` (a URL match at any position), `LocalhostUrlTenant` and `LocalHostnameSegment`. |
| HostRouter.LocalUrlCapture | middleware.ts:20-21 | `url.match(...)[1]` at the leftmost match. `LocalUrlCaptureIsLabel`, `LocalUrlLabelAtSound` and `LocalUrlLabelAtComplete` carry its properties. |
| HostRouter.LocalUrlCaptureIsLabel | middleware.ts:20-21 | A capture is a non-empty label without dots. |
| HostRouter.LocalUrlLabelAt | middleware.ts:20 | The capture for a match starting at one position. `LocalUrlLabelAtSound` and `LocalUrlLabelAtComplete` tie it to `LabelMatchesAt`, an independent statement of the pattern. |
| HostRouter.IsPreviewHost | middleware.ts:32 | The preview test. `PreviewHostTenant`, `PreviewHostOf` and `PreviewBeforeProduction` carry its consequences. |
| HostRouter.ProductionRule | middleware.ts:37-42 | The production test and the replace. `ProductionTenant`, `ProductionRemovesFirstOccurrence`, `NoTenantWithoutDot` and `RootDomainHasNoTenant` carry its properties. |
| HostRouter.IsPublicRoute | middleware.ts:6-10 | The three public patterns as prefix tests. `GateIffTenant` states the consequence that `/(.*)` covers every path. |
| HostRouter.HasDotSuffix | middleware.ts:60 | `/\.(.*)$/`. `HasDotSuffixIffDot` and `DotSuffixExamples` carry its properties. |
| HostRouter.IsInternalAsset | middleware.ts:57-60 | The three asset tests. `RouteOutcomes` and `TenantAssetNotRewritten` carry their effect. |
| HostRouter.Route | middleware.ts:46-70 | The middleware callback. `RouteOutcomes`, `GateIffTenant`, `EmptyTenantIsAbsent`, `TenantRequest` and `RootRequest` carry its properties. |
| HostRouter.StripPort | middleware.ts:16 | `host.split(":")[0]` is a colon-free prefix of the header, the whole header when it has no colon. |
| HostRouter.Hostname | middleware.ts:15-16 | The `host` header, or `""` when it is missing, cut at its first colon with `split(":")[0]`. `HostnameOfHeader` and `MissingHostIsEmpty` carry its properties. |
| HostRouter.IsLocalUrl | middleware.ts:19 | The URL contains `localhost` or `127.0.0.1`, the test that selects the local rule. `LocalIgnoresRootDomain` and `LeftmostLocalUrlMatchDecides` carry its consequences. |
| HostRouter.Present | middleware.ts:50 | `!!subdomain` (also line 63): a tenant other than null and `""`. `GateIffTenant` and `EmptyTenantIsAbsent` carry its properties. |
| HostRouter.HostnameOfHeader | middleware.ts:15-16 | A colon-free host, with or without a `:port`, has that host as its hostname. |
| HostRouter.PortsIgnored | middleware.ts:15-29 | Adding a port to the `Host` header, to the root domain, or to both never changes the tenant found. |
| HostRouter.MissingHostIsEmpty | middleware.ts:15 | A missing `Host` header behaves as an empty one, which outside local development has no tenant. |
| HostRouter.RootDomainHasNoTenant | middleware.ts:37-42 | Outside local development, the root domain and its `www.` alias yield no tenant. |
| HostRouter.ProductionTenant | middleware.ts:37-42 | The production rule maps `<name>.<root>`, for a dot-free name other than `www`, to exactly that name. |
| HostRouter.TenantOfRootDomain | middleware.ts:13-43 | Outside local development, `<name>.<root>` (port-free root) yields exactly the name when it is not a preview host. |
| HostRouter.ProductionRemovesFirstOccurrence | middleware.ts:42 | For `a.<root>b.<root>` the production rule removes the first `.<root>`, giving `ab.<root>`. |
| HostRouter.FirstOccurrenceExample | middleware.ts:42 | `x.example.comy.example.com` yields `xy.example.com`, not `x.example.comy`. |
| HostRouter.NoTenantWithoutDot | middleware.ts:37-42 | A hostname that ends in the root domain with no dot before it yields no tenant. |
| HostRouter.NotExampleIsNoTenant | middleware.ts:40 | `notexample.com` is not a tenant host of `example.com`. |
| HostRouter.PreviewHostTenant | middleware.ts:32-35 | Outside local development a preview host yields the text before its first `---`: that text followed by `---` begins the hostname, and no `---` starts inside it. This holds whatever the root domain. |
| HostRouter.PreviewHostOf | middleware.ts:32-35 | `<name>---<rest>.vercel.app`, for a hyphen-free name, yields exactly that name. |
| HostRouter.PreviewBeforeProduction | middleware.ts:28-42 | Outside local development every preview host yields the first piece of its split on `---`, and the root domain makes no difference, so the production rule is never consulted for it. |
| HostRouter.PreviewBeforeProductionExample | middleware.ts:28-35 | `acme---x.vercel.app` under the root domain `vercel.app` yields `acme`, by the preview rule. |
| HostRouter.ProductionAnswerForPreviewHost | middleware.ts:37-42 | The same host under the same root domain passes the production test, which alone would yield `acme---x`; the preview rule comes first and overrides it. |
| HostRouter.PreviewHostExample | middleware.ts:32-35 | `tenant---myapp-abc123.vercel.app` yields `tenant`. |
| HostRouter.PreviewHostEmptyLabel | middleware.ts:33-34 | A preview host beginning with `---` yields the empty label. |
| HostRouter.LocalUrlLabelAtSound | middleware.ts:20 | A capture computed at a position is a non-empty, dot-free label that the pattern `http://<label>.localhost` matches there. |
| HostRouter.LocalUrlLabelAtComplete | middleware.ts:20 | A label the pattern matches at a position is the capture computed there. |
| HostRouter.FirstLocalUrlMatch | middleware.ts:20 | `match` finds the leftmost position where the pattern matches. It finds none exactly when no position matches. |
| HostRouter.NoDotNoCapture | middleware.ts:20-21 | A URL with no dot has no `http://<label>.localhost` match. |
| HostRouter.LocalhostUrlTenant | middleware.ts:19-21 | A URL `http://<name>.localhost...` yields exactly the name, whatever the host and root domain. |
| HostRouter.LeftmostLocalUrlMatchDecides | middleware.ts:19-21 | In a local request, the leftmost position where `http://<name>.localhost` matches decides the tenant, wherever in the URL that position is, whatever the host and root domain. |
| HostRouter.LocalhostExample | middleware.ts:19-21 | `http://acme.localhost:3000/x` yields `acme`. |
| HostRouter.LocalHostnameSegment | middleware.ts:19-25 | With no URL match, a local request takes the dot-free first segment of a `.localhost` hostname. Any other hostname gets no tenant. |
| HostRouter.LocalIgnoresRootDomain | middleware.ts:19-26 | A local request never consults the root domain, so the preview and production rules never apply to it. |
| HostRouter.HasDotSuffixIffDot | middleware.ts:60 | For a path without line terminators, `/\.(.*)$/` matches exactly when the path contains a dot in any segment. |
| HostRouter.DotSuffixExamples | middleware.ts:60 | `/a.b/c` matches the dot pattern and `/x.css` followed by a newline does not. |
| HostRouter.GateIffTenant | middleware.ts:50-54 | Every path matches `/(.*)`, so the gate runs exactly when a non-empty tenant was found. |
| HostRouter.RouteOutcomes | middleware.ts:50-69 | Each response has exact conditions. A rejection happens exactly when the gate ran and failed. A rewrite to `/s/<tenant><path>` happens exactly when the gate passes, the tenant is non-empty and the path is not under `/_next` or `/api` and has no dot suffix. Every other request passes through. |
| HostRouter.EmptyTenantIsAbsent | middleware.ts:50-69 | An empty tenant runs no gate and passes through, as if absent. |
| HostRouter.TenantRequest | middleware.ts:46-69 | In production a request to `<name>.<root>` runs the gate. It is rejected if the gate fails, else passed through if it is an internal asset, else rewritten to `/s/<name><path>`. |
| HostRouter.RootRequest | middleware.ts:46-69 | In production a request to the root domain or its `www.` alias runs no gate and passes through. |
| HostRouter.TenantRequestRewritten | middleware.ts:63-65 | `acme.example.com/generate` runs the gate and is rewritten to `/s/acme/generate`. |
| HostRouter.TenantRequestRejected | middleware.ts:50-54 | The same request is rejected when the gate fails. |
| HostRouter.TenantAssetNotRewritten | middleware.ts:57-63 | `acme.example.com/logo.png` runs the gate but is not rewritten. |
| HostRouter.RootRequestPassesThrough | middleware.ts:68-69 | `example.com/pricing` runs no gate and passes through. |
| ImageGeneration.Clamp | actions/ai-related-tasks.ts:14-16 | When `min <= max` the result lies in the range, equals the value when it is in range, and equals the nearer bound otherwise. When `max < min` the result is `min`. |
| ImageGeneration.ClampIdempotent | actions/ai-related-tasks.ts:14-16 | Clamping twice equals clamping once. |
| ImageGeneration.IsValidPrompt | actions/ai-related-tasks.ts:41 | The prompt guard shared with `enhancePrompt`. `ValidPromptIff` states exactly which prompts it rejects. |
| ImageGeneration.ValidPromptIff | actions/ai-related-tasks.ts:41-43 | A prompt is rejected exactly when it is not a string or consists only of white space. |
| ImageGeneration.NormaliseExtension | actions/ai-related-tasks.ts:45-48 | The extension sent is `png` or `jpg`. Those two are kept and anything else becomes `png`. |
| ImageGeneration.IsValidExtension | actions/ai-related-tasks.ts:45-46 | `validExts.includes(responseExt)` with `validExts` being `["png", "jpg"]`. `NormaliseExtension` carries its consequences. |
| ImageGeneration.HasImageUrl | actions/ai-related-tasks.ts:69 | `response?.data?.[0]?.url` is truthy: the call answered, with a first image whose URL is a non-empty string. `Store.GenerateImageV1` stores a row exactly when it holds. |
| ImageGeneration.SafeSeed | actions/ai-related-tasks.ts:54 | The seed sent is non-negative. A non-negative seed is kept, and a negative one is replaced by the random draw in `[0, 1000000)`. |
| ImageGeneration.InferenceRequestFor | actions/ai-related-tasks.ts:45-66 | The inference call uses the fixed model and the `url` format. Width and height lie in `[64, 2048]` and steps in `[1, 100]`: each is unchanged when in range and otherwise the nearer bound. The extension is the given one when `png` or `jpg`, otherwise `png`. The seed is the given one when non-negative, otherwise the random draw. The prompt is trimmed. |
| ImageGeneration.RecordFor | actions/ai-related-tasks.ts:70-81 | From the caller's raw arguments, the stored row has the given format when `png` or `jpg` and `png` otherwise, and width and height unchanged when in `[64, 2048]` and otherwise the nearer bound. The prompt, negative prompt, seed and step count are stored exactly as given. |
| ImageGeneration.RecordKeepsRawInputs | actions/ai-related-tasks.ts:51-81 | The stored row has the same format, width and height as the call. Its seed, steps and prompt differ from what was sent exactly when normalisation changed them. |
| ImageGeneration.RawSeedAndStepsStored | actions/ai-related-tasks.ts:51-81 | A `webp`, 4000x10, seed -1, 500-step request is sent as `png`, 2048x64, random seed, 100 steps. It is stored as `png`, 2048x64, seed -1, 500 steps. |
| ImageGeneration.CheckEligibility | actions/ai-related-tasks.ts:121-148 | Eligible exactly when the user has a record and either the user's credits are positive or the user has the pro plan. Exactly one credit of that user is spent exactly when the balance was positive, and no other balance or key changes. |
| ImageGeneration.CheckKeepsNonNegative | actions/ai-related-tasks.ts:131-141 | A check never drives a balance below zero. |
| ImageGeneration.FreeGenerationsAreCredits | actions/ai-related-tasks.ts:129-147 | Without the pro plan, a user with `n >= 0` credits is granted exactly `min(k, n)` of `k` consecutive generations. |
| ImageGeneration.Store.CheckImageGenerationEligibility | actions/ai-related-tasks.ts:121-148 | Updates the stored credits as `CheckEligibility` says, returns its answer, and leaves the images alone. |
| ImageGeneration.Store.GenerateImageV1 | actions/ai-related-tasks.ts:18-95 | The steps run in order. No user gives null and changes nothing. An ineligible user gets the 403 object. A credit is spent before the prompt is validated, so an invalid prompt still costs a credit and gives null with no call. A valid prompt sends the normalised request; the stored row is appended and returned only when the reply carries a URL, otherwise the result is null. |
| ImageGeneration.EnhancePrompt | actions/ai-related-tasks.ts:97-119 | The model is called exactly when the prompt is valid; a missing or blank prompt gives null without a call. After a call the result is the trimmed answer exactly when that is non-empty, and null when the call fails or the answer is missing or blank. |
| ImageGeneration.EnhancedPromptIsTrimmedAndValid | actions/ai-related-tasks.ts:112-114 | An enhanced prompt is non-empty, already trimmed and itself a valid prompt. |
| ImageGeneration.BlankPromptNotEnhanced | actions/ai-related-tasks.ts:98-100 | A white-space-only prompt is never sent to the model and gives null. |
| PromptModal.SliceEnd | components/ModalWithCopyPrompt.tsx:27 | `slice(0, end)` keeps `min(end, n)` items when `end >= 0`. A negative `end` counts back from the end, down to zero items. |
| PromptModal.Words | components/ModalWithCopyPrompt.tsx:25 | `text.split(" ")` gives at least one space-free word, and joining the words with spaces gives the text back. |
| PromptModal.SliceWords | components/ModalWithCopyPrompt.tsx:24-28 | The result is the text itself or ends in `...`. `ShortTextUnchanged`, `TruncatedIsPrefix`, `TruncatedWords` and `SliceWordsIdempotent` carry the rest. |
| PromptModal.ShortTextUnchanged | components/ModalWithCopyPrompt.tsx:26 | A text of at most `maxWords` words is returned unchanged. |
| PromptModal.TruncatedIsPrefix | components/ModalWithCopyPrompt.tsx:27 | A longer text becomes one of its own prefixes followed by `...`. |
| PromptModal.TruncatedWords | components/ModalWithCopyPrompt.tsx:24-28 | For `maxWords >= 1`, a cut text splits into exactly its first `maxWords` words, with `...` on the last. |
| PromptModal.SliceWordsIdempotent | components/ModalWithCopyPrompt.tsx:24-28 | For `maxWords >= 0`, cutting an already cut text changes nothing. |
| PromptModal.ModalTitle | components/ModalWithCopyPrompt.tsx:119 | The title has at most six words and is the whole prompt when the prompt has at most six. |
| PromptModal.WordsAfterFirstSpace | components/ModalWithCopyPrompt.tsx:25 | The words of `a b...` for a space-free `a` are `a` followed by the words of the rest. |
| PromptModal.EmptyWordsCount | components/ModalWithCopyPrompt.tsx:25 | Two spaces in a row make an empty word that counts. `a  b` with limit 2 becomes `a ...`. |
| PromptModal.NegativeLimitNotIdempotent | components/ModalWithCopyPrompt.tsx:24-28 | With a negative limit, cutting is not idempotent. `a b c` with -1 gives `a b...`, which gives `a...`. |

## Left out

- The Clerk calls (`auth.protect()`, `currentUser()`, `has({ plan: "pro" })`), because they belong to a foreign auth provider. Their results are inputs: `authPasses` (the gate also stands for the redirect it sends), `user` and `hasProPlan`.
- `rootDomain`, because it comes from `lib/utils`, which is not part of this model. It is a parameter.
- Prisma, because it is an external database client. It is reduced to the `Store` class: a credit map keyed by Clerk id, and the list of stored image rows. A failure of the database calls (which would also end in `null`) is not modelled.
- The image-inference and Gemini clients, because they are network calls with no logic of their own. Their replies are the inputs `reply`; the arguments of the image call are the output `sent`.
- `Math.random()`, because it is nondeterministic. The draw `Math.floor(Math.random() * 1000000)` is the input `randomDraw`, required to lie in `[0, 1000000)`.
- The logging through `console.warn` and `console.error`, because it has no effect on results.
- The `config.matcher` regular expressions (middleware.ts:73-78), because they are framework configuration that decides whether the middleware runs at all.
- `new URL(..., req.url)` and `NextResponse.rewrite`, because they are platform URL handling. The rewrite target is modelled as the path string, with no query string.
- HostRouter.IsPublicRoute: Clerk's route matcher is modelled as prefix tests on the path. Its own normalisation (case, trailing slashes) is not, because it is library behaviour; since `/(.*)` matches every path, the gate depends only on the tenant.
- ImageGeneration.Store.CheckImageGenerationEligibility: the balance check and the decrement are one atomic step, and generations run one at a time. In the code the read (actions/ai-related-tasks.ts:123) and the decrement (lines 132-141) are separate database calls, and the decrement does not check the balance again. Two concurrent generations by a user with one credit can therefore both be granted and leave -1. `CheckKeepsNonNegative` and `FreeGenerationsAreCredits` hold only for checks made one after another.
- ImageGeneration.Store.GenerateImageV1: every argument is mandatory. An omitted argument is modelled by passing its default from actions/ai-related-tasks.ts:20-25: `""` for `negativePrompt`, `-1` for `seed`, `"png"` for `responseExt` and `4` for `numInferenceSteps`.
- ImageGeneration.Clamp: JavaScript numbers are modelled as integers. Fractions, `NaN` and infinities are out of scope.
- ImageGeneration.Store.GenerateImageV1: `negativePrompt` is modelled as a string. Passing `null` explicitly is not modelled, so `negativePrompt || ""` is the identity.
- Strings are sequences of characters, not UTF-16 code units. Surrogate pairs are not modelled.
- All UI, because it is out of scope: React state, clipboard, share, download, timeouts and date formatting in the prompt modal, and the other pages and components.
