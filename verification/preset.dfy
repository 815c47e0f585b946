/** The ready-made React policy of preset.go, used as a concrete case of `Load`. */
module Preset {
  import opened Options
  import opened Templates
  import opened Strings
  import opened Directives
  import opened Policies
  import opened Headers
  import opened Assembly

  /** Every directive at its zero value: disallowed source lists, no sandbox flag, no
      reporting, no upgrade. */
  const ZeroCSP := CSP(
    NoSource, NoSource, NoSource, NoSource, NoSource, NoSource, NoSource, NoSource, NoSource,
    NoSource, NoSource, NoSource, NoSource, NoSource, NoSource, NoSource, NoSource, NoSource,
    NoSandbox, NoSource, FrameAncestorOptions(false, false, [], []), UnquotedOptions([]),
    UnquotedOption(""), false)

  const SelfOnly := NoSource.(allow := true, allowSelf := true)

  /** The `Report-To` payload of the preset, around its group name. */
  const PayloadHead := "{\"group\":\""
  const PayloadTail := "\",\"max_age\": 86400, \"endpoints\": [{\"url\":\"/_/csp-reports\" }]}"
  const ReactPayload := PayloadHead + "default" + PayloadTail

  /** `SecurityOptionsReactJS`: the built-in templates, `default-src` and `base-uri`
      disallowed, `'self'` for scripts and form targets, `'self' 'unsafe-inline'` for style
      attributes, and the `default` reporting group. */
  function ReactPolicy(): Policy
  {
    Policy(Unset, Unset, Unset, Unset, Unset,
           ZeroCSP.(scriptSrc := SelfOnly, styleSrcAttr := SelfOnly.(unsafeInline := true),
                    formAction := SelfOnly, reportTo := UnquotedOption("default")),
           ReactPayload)
  }

  /** `Load` succeeds on the React policy, and the table carries the payload under
      `Report-To`. */
  lemma ReactPolicyLoads(r: Result<map<string, string>>)
    requires LoadOutcome(ReactPolicy(), r)
    ensures r.Ok? && r.value.Keys == {CspHeader, ReportToHeader}
    ensures r.value[ReportToHeader] == ReactPayload
  {
    var pol := ReactPolicy();
    OccursAppended(PayloadHead, "default");
    OccursExtended(PayloadHead + "default", "default", |PayloadHead|, PayloadTail);
    BuiltinLoad(pol, r);
    LoadedHeaders(pol, r);
  }

  /** The policy value of the React policy holds the fragments of `default-src` and of the two
      fetch directives the preset sets. */
  lemma ReactFetchFragments(r: Result<map<string, string>>)
    requires LoadOutcome(ReactPolicy(), r)
    ensures r.Ok? && CspHeader in r.value
    ensures var v := r.value[CspHeader];
      && (exists k :: OccursAt(v, "default-src 'none';", k))
      && (exists k :: OccursAt(v, "script-src 'self';", k))
      && (exists k :: OccursAt(v, "style-src-attr 'self' 'unsafe-inline';", k))
  {
    ReactPolicyLoads(r);
    var ts := CompileTemplates(ReactPolicy()).value;
    ReactFetchRenders(ts);
    FetchStep(DefaultSrc);
    KeptFragment(r, DefaultSrc, "'none'");
    KeptFragment(r, ScriptSrc, "'self'");
    KeptFragment(r, StyleSrcAttr, "'self' 'unsafe-inline'");
    FetchFragmentTexts();
  }

  /** The renderings of `default-src` and of the fetch directives the preset sets. */
  lemma ReactFetchRenders(ts: TemplateSet)
    requires ts == CompileTemplates(ReactPolicy()).value
    ensures var csp := ReactPolicy().csp;
      && Render(ts, csp, DefaultSrc) == Ok("'none'")
      && Render(ts, csp, ScriptSrc) == Ok("'self'")
      && Render(ts, csp, StyleSrcAttr) == Ok("'self' 'unsafe-inline'")
  {
    var csp := ReactPolicy().csp;
    ReactOptions();
    SourceRenderings();
    SourceRender(ts, csp, DefaultSrc);
    SourceRender(ts, csp, ScriptSrc);
    SourceRender(ts, csp, StyleSrcAttr);
  }

  /** The renderings of `base-uri` and `form-action`. */
  lemma ReactNavigationRenders(ts: TemplateSet)
    requires ts == CompileTemplates(ReactPolicy()).value
    ensures var csp := ReactPolicy().csp;
      && Render(ts, csp, BaseUri) == Ok("'none'")
      && Render(ts, csp, FormAction) == Ok("'self'")
  {
    var csp := ReactPolicy().csp;
    ReactOptions();
    SourceRenderings();
    SourceRender(ts, csp, BaseUri);
    SourceRender(ts, csp, FormAction);
  }

  /** The policy value of the React policy holds the `base-uri` fragment. */
  lemma ReactBaseUriFragment(r: Result<map<string, string>>)
    requires LoadOutcome(ReactPolicy(), r)
    ensures r.Ok? && CspHeader in r.value
    ensures exists k :: OccursAt(r.value[CspHeader], "base-uri 'none';", k)
  {
    ReactPolicyLoads(r);
    var ts := CompileTemplates(ReactPolicy()).value;
    ReactFetchRenders(ts);
    ReactNavigationRenders(ts);
    NavigationSteps();
    KeptFragment(r, BaseUri, "'none'");
    OtherFragmentTexts();
  }

  /** The policy value of the React policy holds the `form-action` fragment. */
  lemma ReactFormActionFragment(r: Result<map<string, string>>)
    requires LoadOutcome(ReactPolicy(), r)
    ensures r.Ok? && CspHeader in r.value
    ensures exists k :: OccursAt(r.value[CspHeader], "form-action 'self';", k)
  {
    ReactPolicyLoads(r);
    var ts := CompileTemplates(ReactPolicy()).value;
    ReactFetchRenders(ts);
    ReactNavigationRenders(ts);
    NavigationSteps();
    KeptFragment(r, FormAction, "'self'");
    OtherFragmentTexts();
  }

  /** The policy value of the React policy holds the `frame-ancestors` fragment of the zero
      value. */
  lemma ReactFrameAncestorsFragment(r: Result<map<string, string>>)
    requires LoadOutcome(ReactPolicy(), r)
    ensures r.Ok? && CspHeader in r.value
    ensures exists k :: OccursAt(r.value[CspHeader], "frame-ancestors 'none';", k)
  {
    ReactPolicyLoads(r);
    var ts := CompileTemplates(ReactPolicy()).value;
    ReactFetchRenders(ts);
    ReactFixedRenders(ts);
    FixedSteps();
    KeptFragment(r, FrameAncestors, "'none'");
    OtherFragmentTexts();
  }

  /** The policy value of the React policy holds the `report-to` fragment. */
  lemma ReactReportToFragment(r: Result<map<string, string>>)
    requires LoadOutcome(ReactPolicy(), r)
    ensures r.Ok? && CspHeader in r.value
    ensures exists k :: OccursAt(r.value[CspHeader], "report-to default;", k)
  {
    ReactPolicyLoads(r);
    var ts := CompileTemplates(ReactPolicy()).value;
    ReactFetchRenders(ts);
    ReactFixedRenders(ts);
    FixedSteps();
    KeptFragment(r, ReportTo, "default");
    OtherFragmentTexts();
  }

  /** The renderings of `frame-ancestors` and `report-to`. */
  lemma ReactFixedRenders(ts: TemplateSet)
    requires ts == CompileTemplates(ReactPolicy()).value
    ensures var csp := ReactPolicy().csp;
      && Render(ts, csp, FrameAncestors) == Ok("'none'")
      && Render(ts, csp, ReportTo) == Ok("default")
  {
    var csp := ReactPolicy().csp;
    ReactOptions();
    SourceRenderings();
    FrameAncestorsRendered(ts, csp);
    ReportingRendered(ts, csp);
  }

  /** The options the preset gives each directive it mentions. */
  lemma ReactOptions()
    ensures var csp := ReactPolicy().csp;
      && csp.defaultSrc == NoSource && csp.scriptSrc == SelfOnly
      && csp.styleSrcAttr == SelfOnly.(unsafeInline := true)
      && csp.baseUri == NoSource && csp.formAction == SelfOnly
      && csp.frameAncestors == FrameAncestorOptions(false, false, [], [])
      && csp.reportTo == UnquotedOption("default")
  {
  }

  /** The built-in renderings of the preset's source lists. */
  lemma SourceRenderings()
    ensures RenderSource(NoSource) == "'none'"
    ensures RenderSource(SelfOnly) == "'self'"
    ensures RenderSource(SelfOnly.(unsafeInline := true)) == "'self' 'unsafe-inline'"
    ensures RenderFrameAncestors(FrameAncestorOptions(false, false, [], [])) == "'none'"
  {
    SelfRendering();
    SelfInlineRendering();
  }

  lemma SelfRendering()
    ensures RenderSource(SelfOnly) == "'self'"
  {
  }

  lemma SelfInlineRendering()
    ensures RenderSource(SelfOnly.(unsafeInline := true)) == "'self' 'unsafe-inline'"
  {
  }

  /** A directive of the preset with a non-empty rendering other than `'none'` for a fetch
      directive is in the policy value. */
  lemma KeptFragment(r: Result<map<string, string>>, d: Directive, text: string)
    requires LoadOutcome(ReactPolicy(), r) && r.Ok?
    requires CompileTemplates(ReactPolicy()).Ok?
    requires Render(CompileTemplates(ReactPolicy()).value, ReactPolicy().csp, d) == Ok(text)
    requires Render(CompileTemplates(ReactPolicy()).value, ReactPolicy().csp, DefaultSrc) == Ok("'none'")
    requires text != "" && (Step(d) == 1 ==> text != "'none'")
    ensures CspHeader in r.value && exists k :: OccursAt(r.value[CspHeader], Fragment(d, text), k)
  {
    FetchStep(d);
    LoadedFragments(ReactPolicy(), r, d);
  }

  /** The fragments of the preset's kept fetch directives, written out. */
  lemma FetchFragmentTexts()
    ensures Fragment(DefaultSrc, "'none'") == "default-src 'none';"
    ensures Fragment(ScriptSrc, "'self'") == "script-src 'self';"
    ensures Fragment(StyleSrcAttr, "'self' 'unsafe-inline'") == "style-src-attr 'self' 'unsafe-inline';"
  {
  }

  /** The fragments of the preset's other kept directives, written out. */
  lemma OtherFragmentTexts()
    ensures Fragment(BaseUri, "'none'") == "base-uri 'none';"
    ensures Fragment(FormAction, "'self'") == "form-action 'self';"
    ensures Fragment(FrameAncestors, "'none'") == "frame-ancestors 'none';"
    ensures Fragment(ReportTo, "default") == "report-to default;"
  {
  }
}
