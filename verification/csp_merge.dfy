/** The Content-Security-Policy header merge of the nonce edge function: the
    `script-src` directive carrying the request's nonce and the `report-uri`
    directive are built, then merged into whatever policy the response already has.
    The existing value is cut into directives by splitting on `;`, trimming each
    piece with JavaScript's `trim` and dropping empty pieces. This resembles the
    parsing of a serialized policy in section 2.2.1 of W3C Content Security Policy
    Level 3 but is not the same: `trim` removes every ECMAScript white-space
    character rather than only ASCII white space, non-ASCII directives are kept,
    directive names are matched by a case-sensitive prefix, and every
    `script-src ` directive is rewritten, where the standard ignores repeats. */
module CspMerge {
  import opened Wrappers
  import opened Text

  /** The prefix of the directives the merge rewrites. The trailing space keeps
      `script-src-elem`, `script-src-attr` and a bare `script-src` out. */
  const ScriptSrcPrefix: string := "script-src "

  /** The prefix that marks an existing reporting directive (no trailing space). */
  const ReportUriPrefix: string := "report-uri"

  /** The endpoint violation reports are sent to. */
  const ViolationsPath: string := "/.netlify/functions/__csp-violations"

  /** The reporting directive the merge adds when the policy has none. */
  const ReportUri: string := "report-uri " + ViolationsPath

  /** What the merge needs of a nonce: no `;`, which would split the injected
      directive, and no `$`, which `replace` would read as a substitution pattern. */
  predicate IsNonce(nonce: string) {
    ';' !in nonce && '$' !in nonce
  }

  /** A character of the base64 alphabet (with padding). */
  predicate IsBase64Char(c: char) {
    ('A' <= c <= 'Z') || ('a' <= c <= 'z') || ('0' <= c <= '9') || c == '+' || c == '/' || c == '='
  }

  /** The handler's nonce, random bytes rendered in base64, is a nonce the merge
      accepts. */
  lemma Base64IsNonce(nonce: string)
    requires forall i :: 0 <= i < |nonce| ==> IsBase64Char(nonce[i])
    ensures IsNonce(nonce)
  {
    assert forall i :: 0 <= i < |nonce| ==> nonce[i] != ';' && nonce[i] != '$';
  }

  /** The source expressions that follow the nonce in the injected `script-src`:
      `'strict-dynamic'` for browsers that support it, the rest as a fallback for
      browsers that do not. */
  const FallbackRules: seq<string> := ["'strict-dynamic'", "'unsafe-inline'", "'self'", "https:", "http:"]

  /** The source expressions placed in front of every `script-src` directive. */
  function Rules(nonce: string): seq<string> {
    [NonceSource(nonce)] + FallbackRules
  }

  /** The source expression that allows scripts carrying the nonce. */
  function NonceSource(nonce: string): string {
    "'nonce-" + nonce + "'"
  }

  /** The `script-src` directive the handler injects: the rules, with empty ones
      dropped, joined by spaces after the directive name. */
  function ScriptSrc(nonce: string): (r: string)
    ensures StartsWith(r, ScriptSrcPrefix + NonceSource(nonce) + " ")
  {
    RulesNonEmpty(nonce);
    ScriptSrcPrefix + Join(NonEmpty(Rules(nonce)), " ")
  }

  /** The injected directive, spelled out: the nonce source expression first, then
      the fallback sources in the order the handler lists them, one space apart. */
  lemma ScriptSrcText(nonce: string)
    ensures ScriptSrc(nonce) == ScriptSrcPrefix + NonceSource(nonce) + " " + Join(FallbackRules, " ")
  {
    var rules := Rules(nonce);
    RulesNonEmpty(nonce);
    assert rules[1..] == FallbackRules;
  }

  /** `filter(Boolean)` drops none of the rules. */
  lemma RulesNonEmpty(nonce: string)
    ensures NonEmpty(Rules(nonce)) == Rules(nonce)
  {
    var rules := Rules(nonce);
    assert rules[0][0] == '\'';
    assert rules[1] == "'strict-dynamic'";
    assert rules[2] == "'unsafe-inline'";
    assert rules[3] == "'self'";
    assert rules[4] == "https:";
    assert rules[5] == "http:";
  }

  /** What the merge needs to know about the injected directive: it is a
      `script-src ` directive, is free of whitespace at either end, and holds no
      `;` (which would split it) and no `$` (which `replace` would interpret). */
  lemma ScriptSrcShape(nonce: string)
    requires IsNonce(nonce)
    ensures IsScriptSrc(ScriptSrc(nonce))
  {
    ScriptSrcText(nonce);
    FallbackSourcesPlain();
    NonceSourcePlain(nonce);
    ScriptSrcOfParts(NonceSource(nonce), Join(FallbackRules, " "));
  }

  /** A `script-src ` directive built from parts without `;` or `$` that ends in a
      non-whitespace character is one the merge can inject. */
  lemma ScriptSrcOfParts(n: string, f: string)
    requires ';' !in n && '$' !in n && ';' !in f && '$' !in f
    requires |f| > 0 && f[|f| - 1] == ':'
    ensures IsScriptSrc(ScriptSrcPrefix + n + " " + f)
  {
    PrefixPlain();
    var s := ScriptSrcPrefix + n + " " + f;
    assert s[0] == ScriptSrcPrefix[0];
    assert s[|s| - 1] == f[|f| - 1];
  }

  /** The directive name holds neither `;` nor `$` and starts with `s`. */
  lemma PrefixPlain()
    ensures ';' !in ScriptSrcPrefix && '$' !in ScriptSrcPrefix && ScriptSrcPrefix[0] == 's'
  {
  }

  /** The nonce source expression inherits the nonce's freedom from `;` and `$`. */
  lemma NonceSourcePlain(nonce: string)
    requires IsNonce(nonce)
    ensures ';' !in NonceSource(nonce) && '$' !in NonceSource(nonce)
  {
  }

  /** The fallback sources hold neither `;` nor `$`, and end in the `:` of `http:`. */
  lemma FallbackSourcesPlain()
    ensures ';' !in Join(FallbackRules, " ") && '$' !in Join(FallbackRules, " ")
    ensures |Join(FallbackRules, " ")| > 0
    ensures Join(FallbackRules, " ")[|Join(FallbackRules, " ")| - 1] == ':'
  {
    FallbackRulesPlain();
    JoinAvoids(FallbackRules, " ", ';');
    JoinAvoids(FallbackRules, " ", '$');
    JoinLast(FallbackRules, " ");
  }

  /** No fallback source holds `;` or `$`, and the last one is `http:`. */
  lemma FallbackRulesPlain()
    ensures forall i :: 0 <= i < |FallbackRules| ==> ';' !in FallbackRules[i] && '$' !in FallbackRules[i]
    ensures FallbackRules[|FallbackRules| - 1] == "http:"
  {
    var f := FallbackRules;
    assert '$' !in f[0] && ';' !in f[0];
    assert '$' !in f[1] && ';' !in f[1];
    assert '$' !in f[2] && ';' !in f[2];
    assert '$' !in f[3] && ';' !in f[3];
    assert '$' !in f[4] && ';' !in f[4];
  }


  /** A directive as the merge emits it: non-empty, without surrounding whitespace,
      without the `;` that separates directives. */
  predicate IsDirective(d: string) {
    d != [] && Trimmed(d) && ';' !in d
  }

  /** What the merge relies on about the directive it injects: it is a well-formed
      `script-src ` directive without `$` (which `replace` would interpret). The
      handler's `ScriptSrc(nonce)` is one (`ScriptSrcShape`). */
  predicate IsScriptSrc(scriptSrc: string) {
    StartsWith(scriptSrc, ScriptSrcPrefix) && IsDirective(scriptSrc) && '$' !in scriptSrc
  }

  /** The reading of one merge step: a `script-src ` directive gets the injected
      directive in front of its own source expressions; any other stays as it is. */
  function Inject(d: string, scriptSrc: string): string {
    if StartsWith(d, ScriptSrcPrefix) then scriptSrc + " " + d[|ScriptSrcPrefix|..] else d
  }

  /** The mapping applied to each piece of the existing header: trim it, and in a
      `script-src ` directive replace the name by the injected directive and a space,
      then trim again. */
  function Rewrite(piece: string, scriptSrc: string): (r: string)
    requires IsScriptSrc(scriptSrc)
    ensures r == Inject(Trim(piece), scriptSrc)
  {
    var d := Trim(piece);
    if StartsWith(d, ScriptSrcPrefix) then
      var replaced := ReplaceFirst(d, ScriptSrcPrefix, scriptSrc + " ");
      assert |d| > |ScriptSrcPrefix| by {
        assert d[|d| - 1] != ' ';
      }
      assert Trimmed(replaced) by {
        assert replaced[0] == scriptSrc[0];
        assert replaced[|replaced| - 1] == d[|d| - 1];
      }
      TrimTrimmed(replaced);
      Trim(replaced)
    else
      d
  }

  /** `Rewrite` applied to every piece (the `map` over the split header). */
  function RewriteAll(pieces: seq<string>, scriptSrc: string): seq<string>
    requires IsScriptSrc(scriptSrc)
  {
    seq(|pieces|, i requires 0 <= i < |pieces| => Rewrite(pieces[i], scriptSrc))
  }

  /** `Inject` applied to every directive. */
  function InjectAll(ds: seq<string>, scriptSrc: string): seq<string> {
    seq(|ds|, i requires 0 <= i < |ds| => Inject(ds[i], scriptSrc))
  }

  /** The directives of a split header value: its pieces trimmed, empty ones dropped. */
  function Tokens(pieces: seq<string>): seq<string> {
    NonEmpty(TrimAll(pieces))
  }

  /** The first directive that starts with `prefix` (`array.find`). */
  function FindPrefixed(ds: seq<string>, prefix: string): (r: Option<string>)
    ensures r.Some? ==> r.value in ds && StartsWith(r.value, prefix)
    ensures r.None? ==> forall i :: 0 <= i < |ds| ==> !StartsWith(ds[i], prefix)
  {
    if |ds| == 0 then None
    else if StartsWith(ds[0], prefix) then Some(ds[0])
    else FindPrefixed(ds[1..], prefix)
  }

  /** JavaScript truthiness of a `find` result: `undefined` and `""` are falsy. */
  predicate Truthy(found: Option<string>) {
    found.Some? && found.value != []
  }

  /** Some directive starts with `prefix`. */
  predicate HasPrefixed(ds: seq<string>, prefix: string) {
    exists i :: 0 <= i < |ds| && StartsWith(ds[i], prefix)
  }

  /** The directives that start with `prefix`, in order. */
  function Prefixed(ds: seq<string>, prefix: string): (r: seq<string>)
    ensures forall d :: d in r <==> d in ds && StartsWith(d, prefix)
  {
    if |ds| == 0 then []
    else (if StartsWith(ds[0], prefix) then [ds[0]] else []) + Prefixed(ds[1..], prefix)
  }

  /** The directives that do not start with `prefix`, in order. */
  function Unprefixed(ds: seq<string>, prefix: string): (r: seq<string>)
    ensures forall d :: d in r <==> d in ds && !StartsWith(d, prefix)
  {
    if |ds| == 0 then []
    else (if StartsWith(ds[0], prefix) then [] else [ds[0]]) + Unprefixed(ds[1..], prefix)
  }

  /** The last step of the merge: the injected `script-src` is pushed when no
      directive is a `script-src ` one, then the `report-uri` directive when none is
      a reporting one. */
  function PushMissing(directives: seq<string>, scriptSrc: string): (r: seq<string>)
    ensures directives <= r && |r| <= |directives| + 2
    ensures forall i :: |directives| <= i < |r| ==> r[i] == scriptSrc || r[i] == ReportUri
  {
    var withScriptSrc :=
      if Truthy(FindPrefixed(directives, ScriptSrcPrefix)) then directives
      else directives + [scriptSrc];
    if Truthy(FindPrefixed(withScriptSrc, ReportUriPrefix)) then withScriptSrc
    else withScriptSrc + [ReportUri]
  }

  /** The merged directive list for the pieces of an existing header: every piece
      rewritten, empties dropped, then the missing directives pushed. */
  function MergeDirectives(pieces: seq<string>, scriptSrc: string): (r: seq<string>)
    requires IsScriptSrc(scriptSrc)
    ensures forall d :: d in r ==> d != []
  {
    PushMissing(NonEmpty(RewriteAll(pieces, scriptSrc)), scriptSrc)
  }

  /** The directives the handler writes for an existing header value, or for none:
      a missing or empty header gets just the two injected directives. */
  function MergedDirectives(existing: Option<string>, nonce: string): (r: seq<string>)
    requires IsNonce(nonce)
    ensures forall d :: d in r ==> d != []
  {
    var scriptSrc := ScriptSrc(nonce);
    ScriptSrcShape(nonce);
    match existing
    case Some(csp) => if csp != [] then MergeDirectives(Split(csp, ';'), scriptSrc) else [scriptSrc, ReportUri]
    case None => [scriptSrc, ReportUri]
  }

  /** The header value the handler writes: the merged directives joined by `"; "`. */
  function MergeCsp(existing: Option<string>, nonce: string): string
    requires IsNonce(nonce)
  {
    Join(MergedDirectives(existing, nonce), "; ")
  }
}
