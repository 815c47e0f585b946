# cspheader in Dafny

A model of the core of `cspheader`, a Go package that turns a `Policy` record into the HTTP
headers of a Content Security Policy. The model covers three parts of the package:

- the five built-in directive templates of `template.go`, as rendering functions;
- the five `Parse` methods of `option.go`, each rendering one option record through a compiled
  template or failing with that template's error;
- `Policy.Load` of `csp.go`. It compiles the templates and runs the `report-to` check. It then
  renders `default-src`, the sixteen fetch directives (dropping those identical to
  `default-src`), `base-uri` and `form-action`, and the five remaining directives. Each
  rendering goes into a static or a dynamic map. Finally it flattens both maps into the
  `Content-Security-Policy` value and returns the header table.

`Load` is an imperative method (`Assembly.Load`), with its rendering phase in
`Assembly.RenderDirectives`. Its loops range over Go maps, so each loop picks its next key
arbitrarily. The two placement loops (`Assembly.PlaceFetch`, `Assembly.PlaceNonFetch`) carry
invariants that tie the maps built so far to `Policies.Placed`, the specification function that
says where each directive lands. The flattening loop (`Assembly.AppendFragments`) carries
invariants that tie the fragments appended so far to `Headers.Fragments`. The method's
postcondition is `Assembly.LoadOutcome`:

- the error of the first template that does not compile;
- else the `report-to` error;
- else, when every directive renders, a header table whose policy value flattens the two
  specified maps in some iteration order;
- else the error of a directive that fails after every earlier step rendered.

Modules, in dependency order:

- `Strings` (strings.dfy): substring search, `Join`, and reading a string back as
  space-separated words.
- `Options` (options.dfy): the option records of option.go, `Result` and the error kinds.
- `Templates` (templates.dfy): the built-in templates.
- `Parse` (parse.dfy): the `Parse` methods.
- `Directives` (directives.dfy): the 24 directives, their header names and the step of `Load`
  that renders each.
- `Policies` (policies.dfy): `Policy`, compiling, the `report-to` check, rendering and placement.
- `Headers` (headers.dfy): the flattening and the header table.
- `Assembly` (assembly.dfy): `Load` and its parts.
- `Preset` (preset.dfy): the React preset of preset.go as a concrete case.

The built-in templates and `Load` produce these renderings:

- With `allow-downloads` unset and some other flag set, the sandbox rendering starts with a
  space (template.go:20-21). For example, forms and scripts render as
  ` allow-forms allow-scripts`. `Templates.SandboxLeadingSpace` states exactly when this
  happens, and `Templates.SandboxRendersWords` states it as a leading empty word.
- The unquoted multi-value template leaves a space after every value, including the last
  (template.go:41). A `report-uri` fragment therefore ends in ` ;`.
- The nonce and the hash are appended with no separating space (template.go:12-13).
- An allowed source list with values but without `'self'` starts with a space, so its fragment
  holds two spaces after the directive name (template.go:6-7, `Templates.SourceLeadingSpace`).
- The value stored for `upgrade-insecure-requests` is the directive's own name (csp.go:288-291).
  When the flag is set, the fragment is `upgrade-insecure-requests upgrade-insecure-requests;`.

## Model

| member | source | states |
|---|---|---|
| Templates.SandboxFlags | option.go:64-79 | there are thirteen sandbox flags, one per sandbox token |
| Templates.RenderSource | template.go:4-16 | a disallowed source list renders as `'none'`; the rendering is empty exactly when the directive is allowed and no field is set |
| Templates.SourceRendersWords | template.go:4-16 | read back as words, a source list is `'none'` when disallowed; otherwise it is the self word, the values verbatim and in order, the four unsafe keywords, the nonce and hash fused onto the preceding word, then `'strict-dynamic'` and `'report-sample'` |
| Templates.SourceLeadingSpace | template.go:6-7 | an allowed source list with values but without `'self'` starts with a space |
| Templates.NonceAndHashVerbatim | template.go:12-13 | an allowed source list contains its nonce immediately followed by its hash |
| Templates.RenderSandbox | template.go:19-32 | the sandbox rendering is empty exactly when no flag is set |
| Templates.SandboxRendersWords | template.go:19-32 | the sandbox rendering is the set tokens in canonical order, after an empty word when `allow-downloads` is unset |
| Templates.SandboxLeadingSpace | template.go:19-32 | the sandbox rendering starts with a space exactly when `allow-downloads` is unset and some other flag is set |
| Templates.RenderFrameAncestors | template.go:34-39 | frame-ancestors renders as `'none'` when disallowed, and is empty exactly when allowed with neither `'self'` nor any host or scheme source |
| Templates.FrameAncestorsRendersWords | template.go:34-39 | frame-ancestors is `'none'` when disallowed; otherwise it is the self word, the host sources, then the scheme sources |
| Templates.RenderUnquotedMulti | template.go:41 | the multi-value rendering is empty exactly when there are no values, and otherwise ends with a space |
| Templates.UnquotedMultiRendersWords | template.go:41 | the multi-value rendering is the values in order, then an empty word left by the trailing space |
| Templates.RenderUnquotedSingle | template.go:43 | the single-value rendering is the value, unchanged |
| Parse.Executed | option.go:29-33 | executing a custom template succeeds exactly when it writes a text, returns that text verbatim, and otherwise fails with `ExecuteFailed` carrying the engine's reason |
| Parse.ParseSource | option.go:27-34 | the built-in template gives its rendering, `'none'` when disallowed, with nonce and hash verbatim; a compiled template gives the text it writes or fails with `ExecuteFailed`; no other error is possible |
| Parse.ParseSandbox | option.go:81-88 | the built-in template gives the sandbox rendering, empty exactly when no flag is set; a compiled template gives the text it writes or fails with `ExecuteFailed` |
| Parse.ParseFrameAncestors | option.go:98-105 | the built-in template gives the rendering, `'none'` when disallowed; a compiled template gives the text it writes or fails with `ExecuteFailed` |
| Parse.ParseUnquotedMulti | option.go:55-62 | the built-in template gives the rendering, empty exactly when there are no values; a compiled template gives the text it writes or fails with `ExecuteFailed` |
| Parse.ParseUnquoted | option.go:41-48 | the built-in template gives the value unchanged; a compiled template gives the text it writes or fails with `ExecuteFailed` |
| Directives.NameStartsWithLetter | csp.go:191-216 | every directive name used as a map key is a non-empty word, free of spaces, starting with a lower-case letter |
| Directives.StepOwner | csp.go:218-291 | the steps of `Load` render `default-src`, then the fetch directives, then `base-uri` and `form-action`, then the remaining five one at a time; every directive belongs to one of these eight steps |
| Policies.Compile | csp.go:123-168 | an empty text compiles to the built-in template, a malformed text fails with that template's name, and any other text compiles |
| Policies.CompileTemplates | csp.go:123-168 | compiling succeeds exactly when no text is malformed; otherwise the error names the first malformed text in the order SourceOption, Sandbox, FrameAncestorOptions, UnquotedOptions, UnquotedOption, with its reason; each compiled template is built-in exactly when its text is empty |
| Policies.CheckReportTo | csp.go:173-184 | the check fails with `ReportToMissing` exactly when a group is set and the payload is empty, and with `ReportToNotFound` exactly when the payload is non-empty and does not contain the group; it passes exactly when no group is set or the payload contains it |
| Policies.FetchOptionsStep | csp.go:191-209 | the fetch map has sixteen entries, exactly the directives `Load` renders in its fetch step |
| Policies.NonFetchOptionsStep | csp.go:210-216 | the second map has two entries, exactly the directives of the `base-uri`/`form-action` step, and shares no key with the fetch map |
| Policies.Render | csp.go:218-291 | rendering a directive fails only when a caller-supplied template renders it, and only with `ExecuteFailed` |
| Policies.FirstFailureUnique | csp.go:218-291 | the error `Load` reports on a rendering failure is unique when `default-src` fails or when every source-list directive renders, since each later step renders one directive |
| Policies.Place | csp.go:232-260 | a directive is dropped exactly when it is a fetch directive rendered like `default-src`; a kept directive is dynamic exactly when it differs per response |
| Policies.PlacedEntries | csp.go:225-291 | the static and dynamic maps hold only rendered directives, each with its own text, and every rendered directive is in one of them unless it is a fetch directive rendered like `default-src` |
| Policies.DefaultSrcStatic | csp.go:218 | `default-src` is always static, with its rendering, and never dynamic |
| Policies.RedundantFetchOmitted | csp.go:231-234 | a fetch directive is in neither map exactly when its text equals `default-src`'s |
| Policies.IdenticalFetchOmitted | csp.go:223-234 | a fetch directive configured exactly like `default-src` is dropped |
| Policies.Partitioned | csp.go:236-260 | no directive is in both maps |
| Policies.DynamicIffNonceOrHash | csp.go:236-260 | a kept fetch directive, `base-uri` or `form-action` is dynamic exactly when it carries a nonce or a hash and static otherwise; no other directive is dynamic |
| Policies.NonFetchSourcesKept | csp.go:246-261 | `base-uri` and `form-action` are always in one of the maps |
| Policies.FixedStaticEntries | csp.go:263-291 | the last five directives are always static, with their texts |
| Policies.UpgradeInsecureRequestsText | csp.go:288-291 | upgrade-insecure-requests is stored as its own name when set and as the empty text otherwise, whatever the templates |
| Strings.ContainsIff | csp.go:181 | the substring test holds exactly when the substring occurs at some index |
| Strings.JoinEnds | csp.go:308 | a join of non-empty parts is empty exactly when there are none, and otherwise begins with its whole first part and ends with its whole last part |
| Strings.JoinContains | csp.go:308 | every part occurs in the join |
| Strings.SplitInjective | template.go:4-43 | two texts read back as the same words are the same text, so the word-list lemmas about the templates determine each rendering exactly |
| Headers.FragmentParts | csp.go:300 | a fragment reads back as the directive name, one space, the value verbatim, and a semicolon |
| Headers.LiveKeys | csp.go:296-307 | ranging over a map skips exactly the entries with an empty value, and visits each key once |
| Headers.FlattenedEntries | csp.go:293-308 | the policy value is one fragment per entry with a non-empty value, static entries first, joined with single spaces |
| Headers.FragmentPresent | csp.go:296-308 | every entry with a non-empty value has its `name value;` fragment in the policy value |
| Headers.FlattenedEnds | csp.go:293-308 | the policy value is empty exactly when every value is empty; otherwise it starts with the whole fragment of an entry with a non-empty value (a static one when there is one) and ends with a semicolon, with no stray separator |
| Headers.FragsPermutation | csp.go:296-307 | two orders of the same keys give the same fragments, up to order |
| Headers.FlattenedUpToOrder | csp.go:293-308 | two flattenings of the same maps are joins of the same multiset of pieces, and every piece is the fragment of an entry with a non-empty value: they differ only in the order of their fragments |
| Assembly.Load | csp.go:118-317 | the result is `LoadOutcome`: the first compile error, else the report-to error, else the header table of the specified maps when every directive renders, else the error of a directive that fails after every earlier step rendered |
| Assembly.RenderDirectives | csp.go:218-291 | on success every directive has rendered and the two maps are exactly the specified static and dynamic maps; on failure the error is a first failure |
| Assembly.PlaceFetch | csp.go:223-244 | after the fetch loop, the maps hold exactly the placements of the directives rendered so far, or the loop's error is a first failure |
| Assembly.PlaceNonFetch | csp.go:246-261 | after the `base-uri`/`form-action` loop, the maps hold exactly the placements so far, or the error is a first failure |
| Assembly.PlaceFixed | csp.go:263-291 | after the last five directives, every directive has rendered and the static map holds the full placement, or the error is a first failure |
| Assembly.AppendFragments | csp.go:294-307 | ranging over a map in some order appends the fragment of every entry with a non-empty value, in that order |
| Assembly.Flatten | csp.go:293-308 | the value is a flattening of the two maps in some iteration order |
| Assembly.HeaderTableBuilt | csp.go:310-314 | the table holds the policy value and, only when the payload is non-empty, the payload under `Report-To` |
| Assembly.ReportToErrors | csp.go:173-184 | once the templates compile, a `report-to` group with an empty payload makes `Load` fail with `ReportToMissing`, and a group the payload does not contain makes it fail with `ReportToNotFound` |
| Assembly.LoadErrorCauses | csp.go:121-184 | a `Load` error is `TemplateInvalid` exactly when a template text is malformed, and then it is the compile error of the first malformed text; each reporting error holds exactly in its own situation, and `ExecuteFailed` exactly when the templates compile and the reporting check passes |
| Assembly.LoadedHeaders | csp.go:310-316 | a successful `Load` returns the policy header, plus `Report-To` with the payload verbatim exactly when the payload is non-empty |
| Assembly.LoadedFragments | csp.go:218-308 | after a successful `Load`, every directive with a non-empty rendering has its fragment in the policy value, except a fetch directive rendered like `default-src` |
| Assembly.LoadDeterministic | csp.go:225-308 | two runs on the same policy agree on success, header names and the `Report-To` value; their policy values are joins of the same multiset of fragments of the specified maps' non-empty entries; their errors are identical unless the first failure lies in the fetch step or the `base-uri`/`form-action` step |
| Assembly.BuiltinRenders | csp.go:218-291 | with the built-in templates every directive renders |
| Assembly.BuiltinLoad | csp.go:121-184 | with every template text empty, `Load` fails only on the report-to check |
| Preset.ReactPolicyLoads | preset.go:4-31 | `Load` succeeds on the React preset and returns both headers, with the payload verbatim |
| Preset.ReactFetchFragments | preset.go:9-17 | the React policy value holds `default-src 'none';`, `script-src 'self';` and `style-src-attr 'self' 'unsafe-inline';` |
| Preset.ReactBaseUriFragment | preset.go:19-20 | the React policy value holds `base-uri 'none';` |
| Preset.ReactFormActionFragment | preset.go:22-23 | the React policy value holds `form-action 'self';` |
| Preset.ReactFrameAncestorsFragment | preset.go:4-29 | the React policy value holds `frame-ancestors 'none';`, the rendering of the zero value |
| Preset.ReactReportToFragment | preset.go:25-26 | the React policy value holds `report-to default;` |

## Left out

- The text/template engine. A caller-supplied template text is `Malformed(reason)` or
  `Custom(execute)`: any deterministic rendering that writes a text or fails with the engine's
  reason, which the model reports as `ExecuteFailed`. The engine's parser, its template language
  and its error texts are not modelled. An empty text stands for the default
  text, which compiles to the built-in rendering.
- Which rendering error `Load` returns when several fetch directives fail, or when both
  `base-uri` and `form-action` fail. Go picks by its random map order. The model allows the error
  of any failing directive whose earlier steps all rendered.
- The order of the fragments in the policy value is fixed only up to permutation, because both
  maps are ranged over in Go's unspecified order.
- The empty string each `Parse` method returns beside an error; the model returns `Err` alone.
- The fields `Load` assigns on its receiver (compiled templates, directive maps). The receiver
  is a copy, so these writes are invisible to callers. The model keeps them as locals of
  `Assembly.Load`. The policy and the option records are Dafny values, so neither `Load` nor a
  `Parse` method can change the caller's copy.
- Go strings are byte strings; the model uses Dafny strings and no encoding.
- Go returns a nil map beside every error; the model returns `Err`. Errors are modelled by
  kind, with the failing template's name and the engine's reason; the message texts of Go's
  error values are not modelled.
- Setting the headers on an HTTP response and any validation of the `Report-To` JSON: `Load` does
  neither.
- Templates.SourceRendersWords: holds only for values, nonces and hashes without spaces.
  Otherwise one value reads back as several words.
- Templates.FrameAncestorsRendersWords: holds only for host and scheme sources without spaces,
  for the same reason.
- Templates.UnquotedMultiRendersWords: holds only for values without spaces, for the same
  reason.
- Assembly.LoadDeterministic: does not claim that two runs failing in the fetch step or the
  `base-uri`/`form-action` step return the same error. With custom templates the Go code can
  report different ones there, depending on map order.
