# CSP nonce edge function — Dafny model

The Netlify edge function `handler` in `netlify/functions/edge-functions/nothing.js`
adds a Content-Security-Policy nonce to every response it sees. This project models
its two pieces of logic and proves properties of them:

- **Header selection** (lines 20-42). A rollout distribution setting
  (`CSP_NONCE_DISTRIBUTION`) and a random draw decide which header the policy goes
  to: `content-security-policy` (enforcing) or
  `content-security-policy-report-only`. The model works over `real`. The
  distribution arrives as the number `parseFloat` reads plus an "ends with `%`"
  flag. The draw is a real in [0, 1).
- **Policy merge** (lines 44-85). The handler builds the injected `script-src`
  directive from the nonce, the `'strict-dynamic'` source and the fallback sources.
  It builds a `report-uri` directive for the violation endpoint. It then merges both
  into the existing header value:
  - split the value on `;`, trim each piece and drop the empty ones;
  - put the injected directive in front of every `script-src ` directive;
  - keep every other directive as it is;
  - push the injected `script-src` and the `report-uri` only when missing;
  - join with `"; "`.

  An absent or empty header gets just the two injected directives.

Modules:

- `Wrappers`: the `Option` type.
- `Text`: the JavaScript string operations the handler uses:
  - `trim`, over the ECMAScript white-space and line-terminator characters;
  - `split` on one character;
  - `join`;
  - `startsWith`;
  - first-occurrence `replace`;
  - `filter(Boolean)`.

  It also holds lemmas relating `Split` and `Join`.
- `HeaderSelection`: the threshold, the header choice, and lemmas about them.
- `CspMerge`: the injected directives and the merge as the code performs it:
  - `Rewrite` per piece;
  - `FindPrefixed` for `array.find`;
  - `PushMissing`;
  - `MergeDirectives` and `MergedDirectives`;
  - `MergeCsp`.
- `CspMergeProperties`: the reference merge `MergeSpec` over the header's
  directives, the proof that the code's merge equals it, and the properties that
  follow from it.
- `Handler`: the response headers as a map. It covers the debug marker (line 8), the
  header chosen by the selection, and the merged value written to that header.
- `Scenarios`: worked cases on concrete headers.

Consequences of the code that are easy to miss:

- The merge does not deduplicate. A `script-src 'self'` directive comes out with
  `'self'` both among the injected sources and after them
  (`Scenarios.SelfRepeated`).
- With a distribution of `"0%"`, a draw of exactly 0 keeps the enforcing header.
  `Math.random()` may return 0, and `0 > 0` is false
  (`HeaderSelection.ZeroDistribution`).
- The "return the response unmodified" branch (line 39) never runs. `header` is
  always `content-security-policy` when line 34 tests it, so `Select` never yields
  `Unmodified` (its `ensures s.Apply?`).
- The `threshold <= 1` conjunct on line 33 never changes the outcome. A draw below 1
  that exceeds the threshold already puts the threshold below 1
  (`HeaderSelection.ThresholdTestRedundant`).

## Model

| member | source | states |
|---|---|---|
| HeaderSelection.Threshold | netlify/functions/edge-functions/nothing.js:27-30 | The threshold is never negative. It is 0 exactly when the setting is 0 or below. It is at most 1 exactly when the setting is at most 100. |
| HeaderSelection.ThresholdScales | netlify/functions/edge-functions/nothing.js:22-30 | `"50%"`, `"50"` and `"0.5"` give the same share. A non-negative percentage gives v/100. A fraction in [0, 1] is taken as it is. Above 1, the `%` sign makes no difference. |
| HeaderSelection.Degrade | netlify/functions/edge-functions/nothing.js:34-40 | The degrade step yields "unmodified" exactly for a report-only header. Otherwise it switches to the other header. |
| HeaderSelection.Select | netlify/functions/edge-functions/nothing.js:20-42 | The selection always writes the policy to some header. The unmodified-response branch is unreachable. |
| HeaderSelection.ThresholdTestRedundant | netlify/functions/edge-functions/nothing.js:31-33 | For a draw in [0, 1), `random > threshold && threshold <= 1` holds exactly when `random > threshold` does. |
| HeaderSelection.SelectReportOnly | netlify/functions/edge-functions/nothing.js:20-42 | The report-only header is chosen if and only if a distribution is set and the draw exceeds its threshold. Otherwise the enforcing header is chosen, also as an if-and-only-if. |
| HeaderSelection.UnsetEnforces | netlify/functions/edge-functions/nothing.js:20-26 | Without a distribution, every response is enforced. |
| HeaderSelection.FullDistributionEnforces | netlify/functions/edge-functions/nothing.js:27-33 | A threshold of 1 or more (`"100%"`, `"1"`) never degrades. |
| HeaderSelection.ZeroDistribution | netlify/functions/edge-functions/nothing.js:27-36 | With a setting of 0 or below, the response degrades exactly when the draw is above 0. |
| HeaderSelection.SelectMonotone | netlify/functions/edge-functions/nothing.js:27-33 | Raising the threshold never moves a draw from enforcing to report-only. |
| CspMerge.Base64IsNonce | netlify/functions/edge-functions/nothing.js:44 | A base64 nonce contains neither `;` nor `$`. These are the only characters the merge requires the nonce to avoid. |
| CspMerge.ScriptSrcText | netlify/functions/edge-functions/nothing.js:49-52 | The injected directive is `script-src `, then `'nonce-N'`, then `'strict-dynamic' 'unsafe-inline' 'self' https: http:`, each separated by one space. None of the rules is dropped by `filter(Boolean)`. |
| CspMerge.ScriptSrcShape | netlify/functions/edge-functions/nothing.js:44-52 | For a nonce without `;` or `$`, the injected directive starts with `script-src `. It is non-empty and trimmed, and contains neither `;` nor `$`. |
| CspMerge.Rewrite | netlify/functions/edge-functions/nothing.js:59-70 | The map step: trim, then `replace` plus `trim` on a `script-src ` directive. It equals the slice-based reading: the injected directive, a space, and the directive's own sources. |
| CspMerge.FindPrefixed | netlify/functions/edge-functions/nothing.js:73-78 | `find` returns a directive of the list with the prefix, or reports that none has it. |
| CspMerge.Prefixed | netlify/functions/edge-functions/nothing.js:63-78 | The directives with a prefix are exactly the list's members that start with it. |
| CspMerge.Unprefixed | netlify/functions/edge-functions/nothing.js:63-69 | The directives without a prefix are exactly the list's members that do not start with it. |
| CspMerge.ScriptSrc | netlify/functions/edge-functions/nothing.js:49-52 | The injected directive starts with `script-src `, the nonce source expression and a space. `ScriptSrcText` spells out the rest, and `ScriptSrcShape` shows it is a well-formed, `;`-free directive. |
| CspMerge.PushMissing | netlify/functions/edge-functions/nothing.js:72-78 | The pushes keep the directives as a prefix and add at most two: only the injected `script-src` and the `report-uri` directive. `CspMergeProperties.PushMissingSpec` says exactly when each is added. |
| CspMerge.MergeDirectives | netlify/functions/edge-functions/nothing.js:57-78 | Every merged directive is non-empty. `CspMergeProperties.MergeShape` shows the whole list equals the reference merge. |
| CspMerge.MergedDirectives | netlify/functions/edge-functions/nothing.js:55-84 | Every directive written is non-empty, whether or not a header existed. `CspMergeProperties.MergedDirectivesWellFormed` and `MergedDirectivesInstallNonce` give its shape for every old value. |
| CspMerge.MergeCsp | netlify/functions/edge-functions/nothing.js:55-85 | The header value written. Its contract lives in `CspMergeProperties.MergeCspRoundTrip`: the value splits back into exactly the merged directives. `MergeAbsentHeader` fixes the value for a missing or empty header. |
| CspMergeProperties.InjectKeepsKind | netlify/functions/edge-functions/nothing.js:63-69 | Rewriting keeps each directive's kind, in both directions, for `script-src ` and for `report-uri`. A rewritten `script-src ` directive starts with the injected one. Only an empty directive rewrites to empty. |
| CspMergeProperties.InjectDirective | netlify/functions/edge-functions/nothing.js:61-66 | A well-formed directive stays well formed after rewriting: non-empty, trimmed, no `;`. |
| CspMergeProperties.ReportUriShape | netlify/functions/edge-functions/nothing.js:53 | The added `report-uri` directive is well formed. It is a reporting directive, not a `script-src ` one. |
| CspMergeProperties.RewriteThenFilter | netlify/functions/edge-functions/nothing.js:57-71 | Mapping every piece and then dropping empties equals trimming, dropping empties, then rewriting each directive. |
| CspMergeProperties.TokensWellFormed | netlify/functions/edge-functions/nothing.js:57-71 | The directives taken from `;`-free pieces are non-empty, trimmed and free of `;`. |
| CspMergeProperties.TokensOfBlank | netlify/functions/edge-functions/nothing.js:61-71 | Pieces made only of whitespace hold no directive. |
| CspMergeProperties.FindMeansPresent | netlify/functions/edge-functions/nothing.js:73-78 | A `find` result is truthy exactly when some directive has the prefix. |
| CspMergeProperties.PushMissingSpec | netlify/functions/edge-functions/nothing.js:72-78 | The two conditional pushes append the injected `script-src` only if no `script-src ` directive exists. They append `report-uri` only if no reporting directive exists. Pushing `script-src` never changes whether a reporting directive exists. |
| CspMergeProperties.MergeShape | netlify/functions/edge-functions/nothing.js:55-78 | The merged list equals the reference merge: the header's directives in order with `script-src ` ones rewritten, then the injected `script-src` if none existed, then `report-uri` if none existed. |
| CspMergeProperties.MergeCount | netlify/functions/edge-functions/nothing.js:72-78 | The output has one directive per non-empty input piece. It adds one if there was no `script-src ` directive and one if there was no `report-uri` directive. |
| CspMergeProperties.MergeInstallsNonce | netlify/functions/edge-functions/nothing.js:72-78 | The merged list always has a `script-src ` directive and a `report-uri` directive. Every `script-src ` directive in it begins with the injected directive. |
| CspMergeProperties.ScriptSrcDirectivesRewritten | netlify/functions/edge-functions/nothing.js:61-75 | Each `script-src ` directive of the header is rewritten in place, in order, with none dropped or added. The injected directive appears alone only when the header had none. |
| CspMergeProperties.ReportUriKept | netlify/functions/edge-functions/nothing.js:68-78 | Existing `report-uri` directives come through unchanged, and no second one is added. The handler's own is added only when the header had none. |
| CspMergeProperties.OtherDirectivesVerbatim | netlify/functions/edge-functions/nothing.js:59-69 | Every directive other than a `script-src ` one comes through as its trimmed text, in the original order. This includes `script-src-elem` and a bare `script-src`. Only the added `report-uri` follows them. |
| CspMergeProperties.MergeDirectivesWellFormed | netlify/functions/edge-functions/nothing.js:57-78 | Every merged directive is non-empty, trimmed and free of `;`. |
| CspMergeProperties.MergeAbsentHeader | netlify/functions/edge-functions/nothing.js:55-84 | A missing or empty header yields exactly the injected `script-src`, `"; "`, then the `report-uri` directive. |
| CspMergeProperties.SeparatorsOnlyLikeAbsent | netlify/functions/edge-functions/nothing.js:56-84 | A header made only of `;` and whitespace produces the same directives and value as an absent header. |
| CspMergeProperties.SplitJoinedDirectives | netlify/functions/edge-functions/nothing.js:57-79 | Joining well-formed directives with `"; "`, splitting the result on `;` and trimming each piece gives the directives back. |
| CspMergeProperties.MergedDirectivesWellFormed | netlify/functions/edge-functions/nothing.js:55-85 | Whatever the old value, at least two directives are written, and each is well formed. |
| CspMergeProperties.MergedDirectivesInstallNonce | netlify/functions/edge-functions/nothing.js:55-85 | Whatever the old value, the written policy has a `script-src ` directive and a `report-uri` directive. Every `script-src ` directive carries the nonce's directive first. |
| CspMergeProperties.MergeCspRoundTrip | netlify/functions/edge-functions/nothing.js:57-84 | Splitting the written value on `;` and trimming each piece gives back exactly the merged directives. Dropping empty pieces changes nothing. |
| CspMergeProperties.MergeCspReadsBack | netlify/functions/edge-functions/nothing.js:57-84 | The written value re-reads as well-formed directives, with a `script-src ` directive led by the nonce's directive and a `report-uri` directive. |
| Text.Trim | netlify/functions/edge-functions/nothing.js:61-66 | `trim` leaves no white space at either end. `TrimEmptyIffBlank` says when the result is empty, and `TrimTrimmed` shows it leaves trimmed strings alone. |
| Text.Join | netlify/functions/edge-functions/nothing.js:79 | The value `join` builds. Its contract is `CspMergeProperties.SplitJoinedDirectives`: splitting the `"; "`-join of well-formed directives on `;` and trimming gives them back. |
| Text.TrimEmptyIffBlank | netlify/functions/edge-functions/nothing.js:61-71 | A piece trims to empty exactly when it is all white space. |
| Text.NonEmpty | netlify/functions/edge-functions/nothing.js:49-71 | `filter(Boolean)` keeps exactly the non-empty strings and never lengthens the list. It keeps a list with no empty strings whole. |
| Text.Split | netlify/functions/edge-functions/nothing.js:58 | `split(';')` yields one more piece than there are separators, and no piece contains the separator. |
| Text.SplitJoin | netlify/functions/edge-functions/nothing.js:58 | A property of the `split` model: splitting the join of separator-free parts with the same one-character separator gives the parts back. |
| Text.JoinSplit | netlify/functions/edge-functions/nothing.js:58 | A property of the `split` model: joining its pieces with the separator gives the string back, so no character is lost or added. |
| Text.ReplaceFirst | netlify/functions/edge-functions/nothing.js:66 | `replace` on a string that starts with the pattern swaps that prefix for the replacement. A string without the pattern is returned unchanged. |
| Handler.HandleHeaders | netlify/functions/edge-functions/nothing.js:8-85 | The handler keeps every header, sets the debug marker to `invoked`, and writes the header the selection chose. `HandleHeadersWrites` states every value written. |
| Handler.HandleHeadersWrites | netlify/functions/edge-functions/nothing.js:8-85 | The handler sets the debug marker, and writes the merge of the chosen header's old value to that header. The other policy header and every other header are unchanged. |
| Handler.HandleHeadersInstallsNonce | netlify/functions/edge-functions/nothing.js:20-85 | The chosen header always ends up holding a policy that re-reads as well-formed directives. It has a `script-src ` directive led by the nonce's directive and a `report-uri` directive. |
| Scenarios.NoPolicyScenario | netlify/functions/edge-functions/nothing.js:20-84 | No policy and no distribution: the enforcing header becomes `script-src 'nonce-N' 'strict-dynamic' 'unsafe-inline' 'self' https: http:; report-uri /.netlify/functions/__csp-violations`. |
| Scenarios.ExistingPolicyScenario | netlify/functions/edge-functions/nothing.js:55-80 | `default-src 'self'; script-src 'self' https://cdn.example.com` keeps `default-src 'self'` verbatim. The injected directive is prefixed to `'self' https://cdn.example.com`, and `report-uri` is appended. |
| Scenarios.SelfRepeated | netlify/functions/edge-functions/nothing.js:49-66 | `script-src 'self'` comes out with `'self'` both among the injected sources and after them, so it is not deduplicated. |
| Scenarios.HalfDistributionScenario | netlify/functions/edge-functions/nothing.js:27-36 | With `"50%"`, a draw of 0.7 is report-only and a draw of 0.3 is enforcing. |

## Left out

- Body rewriting with `HTMLRewriter` and its selector list (lines 1, 87-98). It is a foreign streaming HTML library.
- The `catch` path that logs the error and returns `undefined` (lines 99-107). It is error handling of the asynchronous rewriter.
- `context.next(request)` and `console.log` (lines 4-5, 97, 100). They are I/O.
- `randomBytes(24).toString('base64')` (line 44). The nonce is a parameter. The model requires it to avoid `;` and `$`, and `CspMerge.Base64IsNonce` shows that any base64 string does.
- `Netlify.env.get`, `parseFloat` and `Math.random` (lines 25, 27-31). They are replaced by their results:
  - a real number and an "ends with `%`" flag for the setting;
  - a real draw in [0, 1).

  An unset or empty setting (`!!distribution` false) is `None`. Settings `parseFloat` reads as NaN are not modelled, because reals have no NaN. Floating-point rounding of `/ 100` is not modelled either.
- Response header objects are a map from lower-case names to one value each. Case-insensitive lookup and multi-value headers are not modelled.
- `String.prototype.replace` is modelled only for a replacement without `$` patterns. The injected directive never contains `$` when the nonce does not.
- CspMerge.Rewrite: its contract ties it to the slice-based `Inject` only. That a piece rewrites to empty exactly when it is blank is stated through `InjectKeepsKind` and `TrimEmptyIffBlank`, not on `Rewrite` itself.
