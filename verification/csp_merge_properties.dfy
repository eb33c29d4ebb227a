/** What the CSP merge guarantees: the shape of the merged directive list, which
    directives are rewritten, kept, or added, and that the joined header value
    parses back into the same directives. */
module CspMergeProperties {
  import opened Wrappers
  import opened Text
  import opened CspMerge

  // ---------------------------------------------------------------------------
  // List helpers: the filters distribute over concatenation.

  /** Dropping empties distributes over concatenation. */
  lemma {:induction false} NonEmptyConcat(a: seq<string>, b: seq<string>)
    ensures NonEmpty(a + b) == NonEmpty(a) + NonEmpty(b)
  {
    if |a| > 0 {
      assert (a + b)[1..] == a[1..] + b;
      NonEmptyConcat(a[1..], b);
    } else {
      assert a + b == b;
    }
  }

  /** Injection distributes over concatenation. */
  lemma {:induction false} InjectAllConcat(a: seq<string>, b: seq<string>, scriptSrc: string)
    ensures InjectAll(a + b, scriptSrc) == InjectAll(a, scriptSrc) + InjectAll(b, scriptSrc)
  {
  }

  /** Selecting the prefixed directives distributes over concatenation. */
  lemma {:induction false} PrefixedConcat(a: seq<string>, b: seq<string>, prefix: string)
    ensures Prefixed(a + b, prefix) == Prefixed(a, prefix) + Prefixed(b, prefix)
  {
    if |a| > 0 {
      assert (a + b)[1..] == a[1..] + b;
      PrefixedConcat(a[1..], b, prefix);
    } else {
      assert a + b == b;
    }
  }

  /** Selecting the unprefixed directives distributes over concatenation. */
  lemma {:induction false} UnprefixedConcat(a: seq<string>, b: seq<string>, prefix: string)
    ensures Unprefixed(a + b, prefix) == Unprefixed(a, prefix) + Unprefixed(b, prefix)
  {
    if |a| > 0 {
      assert (a + b)[1..] == a[1..] + b;
      UnprefixedConcat(a[1..], b, prefix);
    } else {
      assert a + b == b;
    }
  }

  /** No directive has the prefix exactly when none is selected for it. */
  lemma PrefixedEmpty(ds: seq<string>, prefix: string)
    ensures Prefixed(ds, prefix) == [] <==> !HasPrefixed(ds, prefix)
  {
    if HasPrefixed(ds, prefix) {
      var i :| 0 <= i < |ds| && StartsWith(ds[i], prefix);
      assert ds[i] in Prefixed(ds, prefix);
    }
  }

  // ---------------------------------------------------------------------------
  // One directive.

  /** Rewriting keeps the kind of a directive: it starts with `script-src ` after
      injection exactly when it did before, and likewise for `report-uri`. */
  lemma InjectKeepsKind(d: string, scriptSrc: string)
    requires IsScriptSrc(scriptSrc)
    ensures StartsWith(Inject(d, scriptSrc), ScriptSrcPrefix) <==> StartsWith(d, ScriptSrcPrefix)
    ensures StartsWith(Inject(d, scriptSrc), ReportUriPrefix) <==> StartsWith(d, ReportUriPrefix)
    ensures StartsWith(d, ScriptSrcPrefix) ==> StartsWith(Inject(d, scriptSrc), scriptSrc)
    ensures Inject(d, scriptSrc) == [] <==> d == []
  {
    if StartsWith(d, ScriptSrcPrefix) {
      var r := Inject(d, scriptSrc);
      assert r[0] == 's';
      assert d[0] == 's';
      assert r[..|scriptSrc|] == scriptSrc;
      assert r[..|ScriptSrcPrefix|] == scriptSrc[..|ScriptSrcPrefix|];
    }
  }

  /** The injected directive is a well-formed directive, as is every rewritten one. */
  lemma InjectDirective(d: string, scriptSrc: string)
    requires IsScriptSrc(scriptSrc)
    requires IsDirective(d)
    ensures IsDirective(Inject(d, scriptSrc))
  {
    if StartsWith(d, ScriptSrcPrefix) {
      var rest := d[|ScriptSrcPrefix|..];
      assert d[|d| - 1] != ' ';
      assert |rest| > 0;
      assert rest[|rest| - 1] == d[|d| - 1];
      var r := scriptSrc + " " + rest;
      assert r[0] == scriptSrc[0];
      assert r[|r| - 1] == rest[|rest| - 1];
      assert ';' !in rest by {
        assert forall i :: 0 <= i < |rest| ==> rest[i] == d[i + |ScriptSrcPrefix|];
      }
    }
  }

  /** The added `report-uri` directive is a well-formed reporting directive. */
  lemma ReportUriShape()
    ensures IsDirective(ReportUri)
    ensures StartsWith(ReportUri, ReportUriPrefix)
    ensures !StartsWith(ReportUri, ScriptSrcPrefix)
  {
    ViolationsPathPlain();
    ReportUriOfPath(ViolationsPath);
  }

  /** The violation endpoint path holds no `;` and ends in `s`. */
  lemma ViolationsPathPlain()
    ensures ';' !in ViolationsPath
    ensures |ViolationsPath| > 0 && ViolationsPath[|ViolationsPath| - 1] == 's'
  {
  }

  /** A `report-uri` directive for a `;`-free path ending in a letter is a
      well-formed reporting directive and not a `script-src ` one. */
  lemma ReportUriOfPath(path: string)
    requires ';' !in path
    requires |path| > 0 && path[|path| - 1] == 's'
    ensures IsDirective("report-uri " + path)
    ensures StartsWith("report-uri " + path, ReportUriPrefix)
    ensures !StartsWith("report-uri " + path, ScriptSrcPrefix)
  {
    var r := "report-uri " + path;
    assert r[0] == 'r';
    assert r[|r| - 1] == 's';
    assert r[..|ReportUriPrefix|] == ReportUriPrefix;
  }

  /** An injected directive is dropped by `NonEmpty` exactly when the directive was. */
  lemma InjectOne(t: string, scriptSrc: string)
    ensures NonEmpty([Inject(t, scriptSrc)]) == InjectAll(NonEmpty([t]), scriptSrc)
  {
    if t == [] {
    } else {
    }
  }

  // ---------------------------------------------------------------------------
  // From the pieces of the header to its directives.

  /** Rewriting every piece and then dropping empties is the same as taking the
      header's directives (pieces trimmed, empties dropped) and injecting into each. */
  lemma {:induction false} RewriteThenFilter(pieces: seq<string>, scriptSrc: string)
    requires IsScriptSrc(scriptSrc)
    ensures NonEmpty(RewriteAll(pieces, scriptSrc)) == InjectAll(Tokens(pieces), scriptSrc)
  {
    if |pieces| > 0 {
      var p := pieces[0];
      var rest := pieces[1..];
      var head := NonEmpty([Trim(p)]);
      RewriteThenFilter(rest, scriptSrc);
      RewriteAllCons(pieces, scriptSrc);
      TokensCons(pieces);
      InjectAllConcat(head, Tokens(rest), scriptSrc);
      InjectOne(Trim(p), scriptSrc);
    }
  }

  /** Rewriting and filtering, one piece at a time. */
  lemma RewriteAllCons(pieces: seq<string>, scriptSrc: string)
    requires IsScriptSrc(scriptSrc)
    requires |pieces| > 0
    ensures NonEmpty(RewriteAll(pieces, scriptSrc))
         == NonEmpty([Inject(Trim(pieces[0]), scriptSrc)]) + NonEmpty(RewriteAll(pieces[1..], scriptSrc))
  {
    assert RewriteAll(pieces, scriptSrc) == [Rewrite(pieces[0], scriptSrc)] + RewriteAll(pieces[1..], scriptSrc);
    NonEmptyConcat([Rewrite(pieces[0], scriptSrc)], RewriteAll(pieces[1..], scriptSrc));
  }

  /** Taking the directives of the pieces, one piece at a time. */
  lemma TokensCons(pieces: seq<string>)
    requires |pieces| > 0
    ensures Tokens(pieces) == NonEmpty([Trim(pieces[0])]) + Tokens(pieces[1..])
  {
    assert TrimAll(pieces) == [Trim(pieces[0])] + TrimAll(pieces[1..]);
    NonEmptyConcat([Trim(pieces[0])], TrimAll(pieces[1..]));
  }

  /** The directives of pieces free of `;` are well formed. */
  lemma TokensWellFormed(pieces: seq<string>)
    requires forall i :: 0 <= i < |pieces| ==> ';' !in pieces[i]
    ensures forall d :: d in Tokens(pieces) ==> IsDirective(d)
  {
    forall d | d in Tokens(pieces) ensures IsDirective(d) {
      assert d in TrimAll(pieces);
      var i :| 0 <= i < |pieces| && d == Trim(pieces[i]);
      TrimKeepsChars(pieces[i]);
    }
  }

  /** Pieces made only of whitespace hold no directive. */
  lemma {:induction false} TokensOfBlank(pieces: seq<string>)
    requires forall i :: 0 <= i < |pieces| ==> IsBlank(pieces[i])
    ensures Tokens(pieces) == []
  {
    if |pieces| > 0 {
      TokensOfBlank(pieces[1..]);
      TokensCons(pieces);
      TrimEmptyIffBlank(pieces[0]);
    }
  }

  // ---------------------------------------------------------------------------
  // The merge over the header's directives.

  /** The merge as a reference definition over the header's directives: each one
      injected, then the injected `script-src` when none was a `script-src `
      directive, then the `report-uri` directive when none was a reporting one. */
  function MergeSpec(ts: seq<string>, scriptSrc: string): seq<string> {
    InjectAll(ts, scriptSrc) + MissingScriptSrc(ts, scriptSrc) + MissingReportUri(ts)
  }

  /** The injected `script-src`, when the directives have no `script-src ` one. */
  function MissingScriptSrc(ts: seq<string>, scriptSrc: string): seq<string> {
    if HasPrefixed(ts, ScriptSrcPrefix) then [] else [scriptSrc]
  }

  /** The `report-uri` directive, when the directives have no reporting one. */
  function MissingReportUri(ts: seq<string>): seq<string> {
    if HasPrefixed(ts, ReportUriPrefix) then [] else [ReportUri]
  }

  /** Both filters split over the three parts of the reference merge. */
  lemma FiltersOfSpec(ts: seq<string>, scriptSrc: string, prefix: string)
    ensures Prefixed(MergeSpec(ts, scriptSrc), prefix)
         == Prefixed(InjectAll(ts, scriptSrc), prefix) + Prefixed(MissingScriptSrc(ts, scriptSrc), prefix)
            + Prefixed(MissingReportUri(ts), prefix)
    ensures Unprefixed(MergeSpec(ts, scriptSrc), prefix)
         == Unprefixed(InjectAll(ts, scriptSrc), prefix) + Unprefixed(MissingScriptSrc(ts, scriptSrc), prefix)
            + Unprefixed(MissingReportUri(ts), prefix)
  {
    var injected := InjectAll(ts, scriptSrc);
    var extraScript := MissingScriptSrc(ts, scriptSrc);
    PrefixedConcat(injected + extraScript, MissingReportUri(ts), prefix);
    PrefixedConcat(injected, extraScript, prefix);
    UnprefixedConcat(injected + extraScript, MissingReportUri(ts), prefix);
    UnprefixedConcat(injected, extraScript, prefix);
  }

  /** The added directives sort by kind: the injected one is a `script-src ` one and
      not a reporting one, the `report-uri` directive the other way round. */
  lemma MissingKinds(ts: seq<string>, scriptSrc: string)
    requires IsScriptSrc(scriptSrc)
    ensures Prefixed(MissingScriptSrc(ts, scriptSrc), ScriptSrcPrefix) == MissingScriptSrc(ts, scriptSrc)
    ensures Unprefixed(MissingScriptSrc(ts, scriptSrc), ScriptSrcPrefix) == []
    ensures Prefixed(MissingScriptSrc(ts, scriptSrc), ReportUriPrefix) == []
    ensures Prefixed(MissingReportUri(ts), ScriptSrcPrefix) == []
    ensures Unprefixed(MissingReportUri(ts), ScriptSrcPrefix) == MissingReportUri(ts)
    ensures Prefixed(MissingReportUri(ts), ReportUriPrefix) == MissingReportUri(ts)
  {
    assert !StartsWith(scriptSrc, ReportUriPrefix) by {
      assert scriptSrc[0] == 's';
    }
    ReportUriShape();
  }

  /** Injection changes neither whether a `script-src ` directive exists nor whether a
      reporting one does. */
  lemma InjectAllKeepsKind(ds: seq<string>, scriptSrc: string)
    requires IsScriptSrc(scriptSrc)
    ensures HasPrefixed(InjectAll(ds, scriptSrc), ScriptSrcPrefix) <==> HasPrefixed(ds, ScriptSrcPrefix)
    ensures HasPrefixed(InjectAll(ds, scriptSrc), ReportUriPrefix) <==> HasPrefixed(ds, ReportUriPrefix)
  {
    var injected := InjectAll(ds, scriptSrc);
    forall i | 0 <= i < |ds|
      ensures StartsWith(injected[i], ScriptSrcPrefix) <==> StartsWith(ds[i], ScriptSrcPrefix)
      ensures StartsWith(injected[i], ReportUriPrefix) <==> StartsWith(ds[i], ReportUriPrefix)
    {
      InjectKeepsKind(ds[i], scriptSrc);
    }
  }

  /** `find` with a non-empty prefix is truthy exactly when some directive has it. */
  lemma FindMeansPresent(ds: seq<string>, prefix: string)
    requires |prefix| > 0
    ensures Truthy(FindPrefixed(ds, prefix)) <==> HasPrefixed(ds, prefix)
  {
    var found := FindPrefixed(ds, prefix);
    if found.Some? {
      var i :| 0 <= i < |ds| && ds[i] == found.value;
    }
  }

  /** Pushing the injected directive does not create a reporting directive. */
  lemma AppendScriptSrcKeepsReport(ds: seq<string>, scriptSrc: string)
    requires IsScriptSrc(scriptSrc)
    ensures HasPrefixed(ds + [scriptSrc], ReportUriPrefix) <==> HasPrefixed(ds, ReportUriPrefix)
  {
    assert !StartsWith(scriptSrc, ReportUriPrefix) by {
      assert scriptSrc[0] == 's';
    }
    if HasPrefixed(ds + [scriptSrc], ReportUriPrefix) {
      var i :| 0 <= i < |ds| + 1 && StartsWith((ds + [scriptSrc])[i], ReportUriPrefix);
      assert i < |ds|;
    }
    if HasPrefixed(ds, ReportUriPrefix) {
      var i :| 0 <= i < |ds| && StartsWith(ds[i], ReportUriPrefix);
      assert (ds + [scriptSrc])[i] == ds[i];
    }
  }

  /** Pushing the missing directives onto the injected directives gives the
      reference merge. */
  lemma PushMissingSpec(ts: seq<string>, scriptSrc: string)
    requires IsScriptSrc(scriptSrc)
    ensures PushMissing(InjectAll(ts, scriptSrc), scriptSrc) == MergeSpec(ts, scriptSrc)
  {
    var injected := InjectAll(ts, scriptSrc);
    InjectAllKeepsKind(ts, scriptSrc);
    FindMeansPresent(injected, ScriptSrcPrefix);
    var withScriptSrc := if HasPrefixed(ts, ScriptSrcPrefix) then injected else injected + [scriptSrc];
    AppendScriptSrcKeepsReport(injected, scriptSrc);
    FindMeansPresent(withScriptSrc, ReportUriPrefix);
  }

  /** The merged directive list, read off: the header's directives in their order,
      each `script-src ` directive with the injected one in front, then the injected
      `script-src` when the header had none, then the `report-uri` directive when the
      header had none. */
  lemma MergeShape(pieces: seq<string>, scriptSrc: string)
    requires IsScriptSrc(scriptSrc)
    ensures MergeDirectives(pieces, scriptSrc) == MergeSpec(Tokens(pieces), scriptSrc)
  {
    RewriteThenFilter(pieces, scriptSrc);
    PushMissingSpec(Tokens(pieces), scriptSrc);
  }

  /** One output directive per directive of the header, plus one for each of
      `script-src` and `report-uri` the header lacked. */
  lemma MergeCount(pieces: seq<string>, scriptSrc: string)
    requires IsScriptSrc(scriptSrc)
    ensures var ts := Tokens(pieces);
      |MergeDirectives(pieces, scriptSrc)|
      == |ts| + (if HasPrefixed(ts, ScriptSrcPrefix) then 0 else 1) + (if HasPrefixed(ts, ReportUriPrefix) then 0 else 1)
  {
    MergeShape(pieces, scriptSrc);
  }

  /** The reference merge has both kinds of directive, and its `script-src `
      directives all begin with the injected one. */
  lemma SpecInstallsNonce(ts: seq<string>, scriptSrc: string)
    requires IsScriptSrc(scriptSrc)
    ensures HasPrefixed(MergeSpec(ts, scriptSrc), ScriptSrcPrefix)
    ensures HasPrefixed(MergeSpec(ts, scriptSrc), ReportUriPrefix)
    ensures forall d :: d in MergeSpec(ts, scriptSrc) && StartsWith(d, ScriptSrcPrefix)
                     ==> StartsWith(d, scriptSrc)
  {
    var r := MergeSpec(ts, scriptSrc);
    var injected := InjectAll(ts, scriptSrc);
    InjectAllKeepsKind(ts, scriptSrc);
    ReportUriShape();
    if HasPrefixed(ts, ScriptSrcPrefix) {
      var i :| 0 <= i < |injected| && StartsWith(injected[i], ScriptSrcPrefix);
      assert r[i] == injected[i];
    } else {
      assert r[|injected|] == scriptSrc;
    }
    if HasPrefixed(ts, ReportUriPrefix) {
      var i :| 0 <= i < |injected| && StartsWith(injected[i], ReportUriPrefix);
      assert r[i] == injected[i];
    } else {
      assert r[|r| - 1] == ReportUri;
    }
    forall d | d in r && StartsWith(d, ScriptSrcPrefix)
      ensures StartsWith(d, scriptSrc)
    {
      var k :| 0 <= k < |r| && r[k] == d;
      if k < |injected| {
        InjectKeepsKind(ts[k], scriptSrc);
      }
    }
  }

  /** The merged policy always has a `script-src ` directive and a `report-uri` one,
      and every `script-src ` directive in it begins with the injected directive,
      so every script source list carries the nonce. */
  lemma MergeInstallsNonce(pieces: seq<string>, scriptSrc: string)
    requires IsScriptSrc(scriptSrc)
    ensures HasPrefixed(MergeDirectives(pieces, scriptSrc), ScriptSrcPrefix)
    ensures HasPrefixed(MergeDirectives(pieces, scriptSrc), ReportUriPrefix)
    ensures forall d :: d in MergeDirectives(pieces, scriptSrc) && StartsWith(d, ScriptSrcPrefix)
                     ==> StartsWith(d, scriptSrc)
  {
    MergeShape(pieces, scriptSrc);
    SpecInstallsNonce(Tokens(pieces), scriptSrc);
  }

  /** Injection keeps the `script-src ` directives in place, rewriting each. */
  lemma {:induction false} PrefixedInjectAll(ds: seq<string>, scriptSrc: string)
    requires IsScriptSrc(scriptSrc)
    ensures Prefixed(InjectAll(ds, scriptSrc), ScriptSrcPrefix) == InjectAll(Prefixed(ds, ScriptSrcPrefix), scriptSrc)
  {
    if |ds| > 0 {
      PrefixedInjectAll(ds[1..], scriptSrc);
      InjectKeepsKind(ds[0], scriptSrc);
      var head: seq<string> := if StartsWith(ds[0], ScriptSrcPrefix) then [ds[0]] else [];
      assert InjectAll(ds, scriptSrc)[1..] == InjectAll(ds[1..], scriptSrc);
      InjectAllConcat(head, Prefixed(ds[1..], ScriptSrcPrefix), scriptSrc);
    }
  }

  /** Injection leaves the reporting directives as they are. */
  lemma {:induction false} ReportsInjectAll(ds: seq<string>, scriptSrc: string)
    requires IsScriptSrc(scriptSrc)
    ensures Prefixed(InjectAll(ds, scriptSrc), ReportUriPrefix) == Prefixed(ds, ReportUriPrefix)
  {
    if |ds| > 0 {
      ReportsInjectAll(ds[1..], scriptSrc);
      InjectKeepsKind(ds[0], scriptSrc);
      assert InjectAll(ds, scriptSrc)[1..] == InjectAll(ds[1..], scriptSrc);
      assert StartsWith(ds[0], ReportUriPrefix) ==> !StartsWith(ds[0], ScriptSrcPrefix);
    }
  }

  /** Injection leaves the directives other than `script-src ` ones as they are. */
  lemma {:induction false} OthersInjectAll(ds: seq<string>, scriptSrc: string)
    requires IsScriptSrc(scriptSrc)
    ensures Unprefixed(InjectAll(ds, scriptSrc), ScriptSrcPrefix) == Unprefixed(ds, ScriptSrcPrefix)
  {
    if |ds| > 0 {
      OthersInjectAll(ds[1..], scriptSrc);
      InjectKeepsKind(ds[0], scriptSrc);
      assert InjectAll(ds, scriptSrc)[1..] == InjectAll(ds[1..], scriptSrc);
    }
  }

  /** The `script-src ` directives of the reference merge. */
  lemma SpecScriptSrcDirectives(ts: seq<string>, scriptSrc: string)
    requires IsScriptSrc(scriptSrc)
    ensures Prefixed(MergeSpec(ts, scriptSrc), ScriptSrcPrefix)
      == if HasPrefixed(ts, ScriptSrcPrefix) then InjectAll(Prefixed(ts, ScriptSrcPrefix), scriptSrc)
         else [scriptSrc]
  {
    FiltersOfSpec(ts, scriptSrc, ScriptSrcPrefix);
    PrefixedInjectAll(ts, scriptSrc);
    MissingKinds(ts, scriptSrc);
    PrefixedEmpty(ts, ScriptSrcPrefix);
  }

  /** Each `script-src ` directive of the header is rewritten, none is dropped and
      none is added; the injected one is added only when there was none. */
  lemma ScriptSrcDirectivesRewritten(pieces: seq<string>, scriptSrc: string)
    requires IsScriptSrc(scriptSrc)
    ensures var ts := Tokens(pieces);
      Prefixed(MergeDirectives(pieces, scriptSrc), ScriptSrcPrefix)
      == if HasPrefixed(ts, ScriptSrcPrefix) then InjectAll(Prefixed(ts, ScriptSrcPrefix), scriptSrc)
         else [scriptSrc]
  {
    MergeShape(pieces, scriptSrc);
    SpecScriptSrcDirectives(Tokens(pieces), scriptSrc);
  }

  /** The reporting directives of the reference merge. */
  lemma SpecReportUri(ts: seq<string>, scriptSrc: string)
    requires IsScriptSrc(scriptSrc)
    ensures Prefixed(MergeSpec(ts, scriptSrc), ReportUriPrefix)
      == if HasPrefixed(ts, ReportUriPrefix) then Prefixed(ts, ReportUriPrefix) else [ReportUri]
  {
    FiltersOfSpec(ts, scriptSrc, ReportUriPrefix);
    ReportsInjectAll(ts, scriptSrc);
    MissingKinds(ts, scriptSrc);
    PrefixedEmpty(ts, ReportUriPrefix);
  }

  /** An existing `report-uri` directive is kept as it is and never joined by a
      second one; the handler's own is added only when the header had none. */
  lemma ReportUriKept(pieces: seq<string>, scriptSrc: string)
    requires IsScriptSrc(scriptSrc)
    ensures var ts := Tokens(pieces);
      Prefixed(MergeDirectives(pieces, scriptSrc), ReportUriPrefix)
      == if HasPrefixed(ts, ReportUriPrefix) then Prefixed(ts, ReportUriPrefix) else [ReportUri]
  {
    MergeShape(pieces, scriptSrc);
    SpecReportUri(Tokens(pieces), scriptSrc);
  }

  /** The directives of the reference merge other than `script-src ` ones. */
  lemma SpecOthersVerbatim(ts: seq<string>, scriptSrc: string)
    requires IsScriptSrc(scriptSrc)
    ensures Unprefixed(MergeSpec(ts, scriptSrc), ScriptSrcPrefix)
      == Unprefixed(ts, ScriptSrcPrefix) + (if HasPrefixed(ts, ReportUriPrefix) then [] else [ReportUri])
  {
    FiltersOfSpec(ts, scriptSrc, ScriptSrcPrefix);
    OthersInjectAll(ts, scriptSrc);
    MissingKinds(ts, scriptSrc);
  }

  /** Every directive other than a `script-src ` one (`script-src-elem`, a bare
      `script-src`, `report-uri`, ...) comes through as its trimmed text, in its
      original order, followed only by the added `report-uri` when there was none. */
  lemma OtherDirectivesVerbatim(pieces: seq<string>, scriptSrc: string)
    requires IsScriptSrc(scriptSrc)
    ensures var ts := Tokens(pieces);
      Unprefixed(MergeDirectives(pieces, scriptSrc), ScriptSrcPrefix)
      == Unprefixed(ts, ScriptSrcPrefix) + (if HasPrefixed(ts, ReportUriPrefix) then [] else [ReportUri])
  {
    MergeShape(pieces, scriptSrc);
    SpecOthersVerbatim(Tokens(pieces), scriptSrc);
  }

  /** The reference merge of well-formed directives is well formed. */
  lemma SpecWellFormed(ts: seq<string>, scriptSrc: string)
    requires IsScriptSrc(scriptSrc)
    requires forall d :: d in ts ==> IsDirective(d)
    ensures forall d :: d in MergeSpec(ts, scriptSrc) ==> IsDirective(d)
  {
    var r := MergeSpec(ts, scriptSrc);
    ReportUriShape();
    forall d | d in r ensures IsDirective(d) {
      var k :| 0 <= k < |r| && r[k] == d;
      if k < |ts| {
        assert ts[k] in ts;
        InjectDirective(ts[k], scriptSrc);
      }
    }
  }

  /** Every merged directive is well formed, given pieces free of `;` (as `Split`
      produces them). */
  lemma MergeDirectivesWellFormed(pieces: seq<string>, scriptSrc: string)
    requires IsScriptSrc(scriptSrc)
    requires forall i :: 0 <= i < |pieces| ==> ';' !in pieces[i]
    ensures forall d :: d in MergeDirectives(pieces, scriptSrc) ==> IsDirective(d)
  {
    MergeShape(pieces, scriptSrc);
    TokensWellFormed(pieces);
    SpecWellFormed(Tokens(pieces), scriptSrc);
  }

  // ---------------------------------------------------------------------------
  // The header value.

  /** Joining two strings puts the separator between them. */
  lemma JoinTwo(a: string, b: string, sep: string)
    ensures Join([a, b], sep) == a + sep + b
  {
    assert [a, b][1..] == [b];
  }

  /** A header that is missing or empty gets exactly the injected `script-src` and
      the `report-uri` directive, joined by `"; "`. */
  lemma MergeAbsentHeader(nonce: string)
    requires IsNonce(nonce)
    ensures MergeCsp(None, nonce) == ScriptSrc(nonce) + "; " + ReportUri
    ensures MergeCsp(Some(""), nonce) == ScriptSrc(nonce) + "; " + ReportUri
  {
    JoinTwo(ScriptSrc(nonce), ReportUri, "; ");
  }

  /** A string of separators and whitespace splits into blank pieces. */
  lemma {:induction false} SplitBlankPieces(s: string, sep: char)
    requires forall i :: 0 <= i < |s| ==> s[i] == sep || IsWhitespace(s[i])
    ensures forall i :: 0 <= i < |Split(s, sep)| ==> IsBlank(Split(s, sep)[i])
  {
    if |s| > 0 {
      SplitBlankPieces(s[1..], sep);
    }
  }

  /** A header made only of separators and whitespace (`";"`, `" ; ;"`) is treated
      like a missing one. */
  lemma SeparatorsOnlyLikeAbsent(csp: string, nonce: string)
    requires IsNonce(nonce)
    requires forall i :: 0 <= i < |csp| ==> csp[i] == ';' || IsWhitespace(csp[i])
    ensures MergedDirectives(Some(csp), nonce) == MergedDirectives(None, nonce)
    ensures MergeCsp(Some(csp), nonce) == MergeCsp(None, nonce)
  {
    var pieces := Split(csp, ';');
    SplitBlankPieces(csp, ';');
    TokensOfBlank(pieces);
    ScriptSrcShape(nonce);
    MergeOfNoDirectives(pieces, ScriptSrc(nonce));
  }

  /** Pieces that hold no directive merge into just the two injected directives. */
  lemma MergeOfNoDirectives(pieces: seq<string>, scriptSrc: string)
    requires IsScriptSrc(scriptSrc)
    requires Tokens(pieces) == []
    ensures MergeDirectives(pieces, scriptSrc) == [scriptSrc, ReportUri]
  {
    MergeShape(pieces, scriptSrc);
    assert InjectAll([], scriptSrc) == [];
    assert !HasPrefixed([], ScriptSrcPrefix) && !HasPrefixed([], ReportUriPrefix);
  }

  /** Trimming every element, one element at a time. */
  lemma TrimAllCons(x: string, xs: seq<string>)
    ensures TrimAll([x] + xs) == [Trim(x)] + TrimAll(xs)
  {
  }

  /** Trimming the pieces of `" " + s` gives the same as trimming those of `s`. */
  lemma TrimAllSplitSpaced(s: string)
    ensures TrimAll(Split([' '] + s, ';')) == TrimAll(Split(s, ';'))
  {
    var pieces := Split(s, ';');
    SplitCons(' ', s, ';');
    TrimSkipsLeadingWhitespace(' ', pieces[0]);
    TrimAllCons([' '] + pieces[0], pieces[1..]);
    TrimAllCons(pieces[0], pieces[1..]);
    assert pieces == [pieces[0]] + pieces[1..];
  }

  /** The first directive of a `"; "`-joined list comes back from the split as its
      own piece, trimmed to itself. */
  lemma JoinedHead(d: string, tail: string)
    requires IsDirective(d)
    ensures TrimAll(Split(d + "; " + tail, ';')) == [d] + TrimAll(Split(tail, ';'))
  {
    assert d + "; " + tail == d + [';'] + ([' '] + tail);
    SplitAtSeparator(d, ';', [' '] + tail);
    TrimAllSplitSpaced(tail);
    TrimAllCons(d, Split([' '] + tail, ';'));
    TrimTrimmed(d);
  }

  /** A lone directive comes back from the split unchanged. */
  lemma JoinedLast(d: string)
    requires IsDirective(d)
    ensures TrimAll(Split(d, ';')) == [d]
  {
    SplitWithoutSeparator(d, ';');
    TrimAllCons(d, []);
    TrimTrimmed(d);
  }

  /** Splitting `"; "`-joined directives on `;` and trimming each piece gives the
      directives back. */
  lemma {:induction false} SplitJoinedDirectives(ds: seq<string>)
    requires |ds| >= 1
    requires forall i :: 0 <= i < |ds| ==> IsDirective(ds[i])
    ensures TrimAll(Split(Join(ds, "; "), ';')) == ds
  {
    if |ds| == 1 {
      JoinedLast(ds[0]);
    } else {
      SplitJoinedDirectives(ds[1..]);
      JoinedHead(ds[0], Join(ds[1..], "; "));
      assert ds == [ds[0]] + ds[1..];
    }
  }

  /** The merged directives: never empty, each well formed. */
  lemma MergedDirectivesWellFormed(existing: Option<string>, nonce: string)
    requires IsNonce(nonce)
    ensures |MergedDirectives(existing, nonce)| >= 2
    ensures forall d :: d in MergedDirectives(existing, nonce) ==> IsDirective(d)
  {
    ScriptSrcShape(nonce);
    ReportUriShape();
    if existing.Some? && existing.value != [] {
      var pieces := Split(existing.value, ';');
      MergeDirectivesWellFormed(pieces, ScriptSrc(nonce));
      MergeInstallsNonce(pieces, ScriptSrc(nonce));
      var r := MergeDirectives(pieces, ScriptSrc(nonce));
      var i :| 0 <= i < |r| && StartsWith(r[i], ScriptSrcPrefix);
      var j :| 0 <= j < |r| && StartsWith(r[j], ReportUriPrefix);
      assert r[i][0] == 's' && r[j][0] == 'r';
    }
  }

  /** Whatever the existing header, the merged policy has a `script-src ` directive
      and a `report-uri` one, and every `script-src ` directive begins with the
      nonce's directive. */
  lemma MergedDirectivesInstallNonce(existing: Option<string>, nonce: string)
    requires IsNonce(nonce)
    ensures var ds := MergedDirectives(existing, nonce);
      && HasPrefixed(ds, ScriptSrcPrefix)
      && HasPrefixed(ds, ReportUriPrefix)
      && forall d :: d in ds && StartsWith(d, ScriptSrcPrefix) ==> StartsWith(d, ScriptSrc(nonce))
  {
    ScriptSrcShape(nonce);
    if existing.Some? && existing.value != [] {
      MergeInstallsNonce(Split(existing.value, ';'), ScriptSrc(nonce));
    } else {
      SpecInstallsNonce([], ScriptSrc(nonce));
      assert MergeSpec([], ScriptSrc(nonce)) == [ScriptSrc(nonce), ReportUri];
    }
  }

  /** Round trip: the header value the handler writes, split on `;` and trimmed
      piece by piece, gives back exactly the merged directives; dropping empty
      pieces changes nothing, so the value re-reads as the same policy. */
  lemma MergeCspRoundTrip(existing: Option<string>, nonce: string)
    requires IsNonce(nonce)
    ensures TrimAll(Split(MergeCsp(existing, nonce), ';')) == MergedDirectives(existing, nonce)
    ensures Tokens(Split(MergeCsp(existing, nonce), ';')) == MergedDirectives(existing, nonce)
  {
    var ds := MergedDirectives(existing, nonce);
    MergedDirectivesWellFormed(existing, nonce);
    SplitJoinedDirectives(ds);
    assert forall i :: 0 <= i < |ds| ==> ds[i] in ds;
  }

  /** The header value the handler writes re-reads, split on `;` and trimmed, as
      well-formed directives with a `script-src ` one led by the nonce's directive
      and a `report-uri` one. */
  lemma MergeCspReadsBack(existing: Option<string>, nonce: string)
    requires IsNonce(nonce)
    ensures var ds := TrimAll(Split(MergeCsp(existing, nonce), ';'));
      && (forall i :: 0 <= i < |ds| ==> IsDirective(ds[i]))
      && HasPrefixed(ds, ScriptSrcPrefix)
      && HasPrefixed(ds, ReportUriPrefix)
      && (forall i :: 0 <= i < |ds| && StartsWith(ds[i], ScriptSrcPrefix) ==> StartsWith(ds[i], ScriptSrc(nonce)))
  {
    MergeCspRoundTrip(existing, nonce);
    MergedDirectivesFacts(existing, nonce);
  }

  /** The merged directives are well formed and hold both kinds, the `script-src `
      ones led by the nonce's directive. */
  lemma MergedDirectivesFacts(existing: Option<string>, nonce: string)
    requires IsNonce(nonce)
    ensures var ds := MergedDirectives(existing, nonce);
      && (forall i :: 0 <= i < |ds| ==> IsDirective(ds[i]))
      && HasPrefixed(ds, ScriptSrcPrefix)
      && HasPrefixed(ds, ReportUriPrefix)
      && (forall i :: 0 <= i < |ds| && StartsWith(ds[i], ScriptSrcPrefix) ==> StartsWith(ds[i], ScriptSrc(nonce)))
  {
    var ds := MergedDirectives(existing, nonce);
    MergedDirectivesWellFormed(existing, nonce);
    MergedDirectivesInstallNonce(existing, nonce);
    assert forall i :: 0 <= i < |ds| ==> ds[i] in ds;
  }

}
