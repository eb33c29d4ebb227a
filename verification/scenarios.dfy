/** Worked cases of the handler on concrete headers: a response without a policy,
    a policy with a `default-src` and a `script-src` directive, and a `script-src`
    that already allows `'self'`. */
module Scenarios {
  import opened Wrappers
  import opened Text
  import opened CspMerge
  import opened CspMergeProperties
  import opened HeaderSelection
  import opened Handler

  /** A response without a policy and without a distribution gets the enforcing
      header holding just the two injected directives. */
  lemma NoPolicyScenario(random: real, nonce: string)
    requires 0.0 <= random < 1.0
    requires IsNonce(nonce)
    ensures var r := HandleHeaders(map[], None, random, nonce);
      && r.Keys == {DebugHeader, Enforcing.Name()}
      && r[Enforcing.Name()]
         == ScriptSrcPrefix + NonceSource(nonce) + " " + Join(FallbackRules, " ") + "; " + ReportUri
  {
    UnsetEnforces(random);
    HandleHeadersWrites(map[], None, random, nonce);
    MergeAbsentHeader(nonce);
    ScriptSrcText(nonce);
  }

  const DefaultSrc: string := "default-src 'self'"
  const CdnSources: string := "'self' https://cdn.example.com"

  /** `default-src 'self'` is a well-formed directive of neither special kind. */
  lemma DefaultSrcShape()
    ensures IsDirective(DefaultSrc)
    ensures !StartsWith(DefaultSrc, ScriptSrcPrefix) && !StartsWith(DefaultSrc, ReportUriPrefix)
  {
    assert DefaultSrc[0] == 'd';
    assert DefaultSrc[|DefaultSrc| - 1] == '\'';
  }

  /** `script-src 'self' https://cdn.example.com` is a well-formed `script-src `
      directive. */
  lemma CdnScriptSrcShape()
    ensures IsDirective(ScriptSrcPrefix + CdnSources)
    ensures StartsWith(ScriptSrcPrefix + CdnSources, ScriptSrcPrefix)
    ensures !StartsWith(ScriptSrcPrefix + CdnSources, ReportUriPrefix)
  {
    var d := ScriptSrcPrefix + CdnSources;
    assert ';' !in CdnSources;
    assert d[0] == 's';
    assert d[|d| - 1] == CdnSources[|CdnSources| - 1] == 'm';
    assert d[..|ScriptSrcPrefix|] == ScriptSrcPrefix;
  }

  /** The header `default-src 'self'; script-src 'self' https://cdn.example.com`
      keeps its `default-src` directive as it is, gets the nonce's directive in
      front of its own script sources, and gains the `report-uri` directive. */
  lemma ExistingPolicyScenario(nonce: string)
    requires IsNonce(nonce)
    ensures MergedDirectives(Some(DefaultSrc + "; " + (ScriptSrcPrefix + CdnSources)), nonce)
         == [DefaultSrc, ScriptSrc(nonce) + " " + CdnSources, ReportUri]
  {
    DefaultSrcShape();
    CdnScriptSrcShape();
    MergedOfTwo(DefaultSrc, ScriptSrcPrefix + CdnSources, nonce);
    InjectScriptSrc(CdnSources, ScriptSrc(nonce));
  }

  /** A `script-src ` directive gets the injected directive in front of its own
      sources. */
  lemma InjectScriptSrc(sources: string, scriptSrc: string)
    ensures Inject(ScriptSrcPrefix + sources, scriptSrc) == scriptSrc + " " + sources
  {
    assert (ScriptSrcPrefix + sources)[|ScriptSrcPrefix|..] == sources;
  }

  /** A header of two directives, the first neither a script nor a reporting
      directive, the second a `script-src ` directive. */
  lemma MergedOfTwo(a: string, b: string, nonce: string)
    requires IsNonce(nonce)
    requires IsDirective(a) && IsDirective(b)
    requires !StartsWith(a, ScriptSrcPrefix) && !StartsWith(a, ReportUriPrefix)
    requires StartsWith(b, ScriptSrcPrefix) && !StartsWith(b, ReportUriPrefix)
    ensures MergedDirectives(Some(a + "; " + b), nonce) == [a, Inject(b, ScriptSrc(nonce)), ReportUri]
  {
    var pieces := Split(a + "; " + b, ';');
    TokensOfTwo(a, b);
    ScriptSrcShape(nonce);
    MergeShape(pieces, ScriptSrc(nonce));
    PolicyOfTwo(a, b, ScriptSrc(nonce));
  }

  /** Two well-formed directives joined by `"; "` split back into the two. */
  lemma TokensOfTwo(a: string, b: string)
    requires IsDirective(a) && IsDirective(b)
    ensures Tokens(Split(a + "; " + b, ';')) == [a, b]
  {
    JoinedHead(a, b);
    JoinedLast(b);
  }

  /** The reference merge of a non-script directive followed by a `script-src `
      one, neither a reporting directive. */
  lemma PolicyOfTwo(a: string, b: string, scriptSrc: string)
    requires IsScriptSrc(scriptSrc)
    requires !StartsWith(a, ScriptSrcPrefix) && !StartsWith(a, ReportUriPrefix)
    requires StartsWith(b, ScriptSrcPrefix) && !StartsWith(b, ReportUriPrefix)
    ensures MergeSpec([a, b], scriptSrc) == [a, Inject(b, scriptSrc), ReportUri]
  {
    assert HasPrefixed([a, b], ScriptSrcPrefix) by {
      assert StartsWith([a, b][1], ScriptSrcPrefix);
    }
  }

  /** The merge does not remove duplicates: a `script-src 'self'` directive comes
      out with `'self'` both among the injected fallback sources and after them. */
  lemma SelfRepeated(nonce: string)
    requires IsNonce(nonce)
    ensures "'self'" in FallbackRules
    ensures MergedDirectives(Some(ScriptSrcPrefix + "'self'"), nonce)
         == [ScriptSrc(nonce) + " " + "'self'", ReportUri]
  {
    assert FallbackRules[2] == "'self'";
    SelfScriptSrcShape();
    MergedOfOne(ScriptSrcPrefix + "'self'", nonce);
    InjectScriptSrc("'self'", ScriptSrc(nonce));
  }

  /** `script-src 'self'` is a well-formed `script-src ` directive. */
  lemma SelfScriptSrcShape()
    ensures IsDirective(ScriptSrcPrefix + "'self'")
    ensures StartsWith(ScriptSrcPrefix + "'self'", ScriptSrcPrefix)
    ensures !StartsWith(ScriptSrcPrefix + "'self'", ReportUriPrefix)
  {
    var d := ScriptSrcPrefix + "'self'";
    assert ';' !in "'self'";
    assert d[0] == 's' && d[|d| - 1] == '\'';
    assert d[..|ScriptSrcPrefix|] == ScriptSrcPrefix;
  }

  /** A header of one `script-src ` directive. */
  lemma MergedOfOne(d: string, nonce: string)
    requires IsNonce(nonce)
    requires IsDirective(d)
    requires StartsWith(d, ScriptSrcPrefix) && !StartsWith(d, ReportUriPrefix)
    ensures MergedDirectives(Some(d), nonce) == [Inject(d, ScriptSrc(nonce)), ReportUri]
  {
    TokensOfOne(d);
    ScriptSrcShape(nonce);
    MergeShape(Split(d, ';'), ScriptSrc(nonce));
    PolicyOfOne(d, ScriptSrc(nonce));
  }

  /** A well-formed directive alone splits back into itself. */
  lemma TokensOfOne(d: string)
    requires IsDirective(d)
    ensures Tokens(Split(d, ';')) == [d]
  {
    JoinedLast(d);
  }

  /** The reference merge of a lone `script-src ` directive. */
  lemma PolicyOfOne(d: string, scriptSrc: string)
    requires IsScriptSrc(scriptSrc)
    requires StartsWith(d, ScriptSrcPrefix) && !StartsWith(d, ReportUriPrefix)
    ensures MergeSpec([d], scriptSrc) == [Inject(d, scriptSrc), ReportUri]
  {
    assert HasPrefixed([d], ScriptSrcPrefix) by {
      assert StartsWith([d][0], ScriptSrcPrefix);
    }
  }

  /** A distribution of `"50%"`: a draw of 0.7 moves the response to report-only,
      a draw of 0.3 keeps it enforcing. */
  lemma HalfDistributionScenario()
    ensures Select(Some(Distribution(50.0, true)), 0.7) == Apply(ReportOnly)
    ensures Select(Some(Distribution(50.0, true)), 0.3) == Apply(Enforcing)
  {
  }
}
