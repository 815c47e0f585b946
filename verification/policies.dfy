/** The `Policy` record of csp.go and the specification of `Load`: the templates it compiles, the
    reporting check it runs first, the rendering of every directive, and the map (static or
    dynamic) in which each rendering lands, if any. */
module Policies {
  import opened Options
  import opened Strings
  import opened Templates
  import opened Parse
  import opened Directives

  /** The directive values of a policy (the `CSP` member of `Policy`). */
  datatype CSP = CSP(
    defaultSrc: SourceOptions,
    childSrc: SourceOptions,
    connectSrc: SourceOptions,
    fontSrc: SourceOptions,
    frameSrc: SourceOptions,
    imgSrc: SourceOptions,
    manifestSrc: SourceOptions,
    mediaSrc: SourceOptions,
    objectSrc: SourceOptions,
    prefetchSrc: SourceOptions,
    scriptSrc: SourceOptions,
    scriptSrcElem: SourceOptions,
    scriptSrcAttr: SourceOptions,
    styleSrc: SourceOptions,
    styleSrcElem: SourceOptions,
    styleSrcAttr: SourceOptions,
    workerSrc: SourceOptions,
    baseUri: SourceOptions,
    sandbox: SandboxOptions,
    formAction: SourceOptions,
    frameAncestors: FrameAncestorOptions,
    reportUri: UnquotedOptions,
    reportTo: UnquotedOption,
    upgradeInsecureRequests: bool)

  /** The options of a source-list directive. */
  function SourceOf(csp: CSP, d: Directive): SourceOptions
    requires IsSourceDirective(d)
  {
    match d
    case DefaultSrc => csp.defaultSrc
    case ChildSrc => csp.childSrc
    case ConnectSrc => csp.connectSrc
    case FontSrc => csp.fontSrc
    case FrameSrc => csp.frameSrc
    case ImgSrc => csp.imgSrc
    case ManifestSrc => csp.manifestSrc
    case MediaSrc => csp.mediaSrc
    case ObjectSrc => csp.objectSrc
    case PrefetchSrc => csp.prefetchSrc
    case ScriptSrc => csp.scriptSrc
    case ScriptSrcElem => csp.scriptSrcElem
    case ScriptSrcAttr => csp.scriptSrcAttr
    case StyleSrc => csp.styleSrc
    case StyleSrcElem => csp.styleSrcElem
    case StyleSrcAttr => csp.styleSrcAttr
    case WorkerSrc => csp.workerSrc
    case BaseUri => csp.baseUri
    case FormAction => csp.formAction
  }

  /** The options of the sixteen fetch directives, keyed by directive. */
  function FetchOptions(csp: CSP): (opts: map<Directive, SourceOptions>)
    ensures opts.Keys == FetchDirectives
    ensures forall d :: d in opts ==> opts[d] == SourceOf(csp, d)
  {
    map d | d in FetchDirectives :: SourceOf(csp, d)
  }

  /** The options of `base-uri` and `form-action`, keyed by directive. */
  function NonFetchOptions(csp: CSP): (opts: map<Directive, SourceOptions>)
    ensures opts.Keys == NonFetchSources
    ensures forall d :: d in opts ==> opts[d] == SourceOf(csp, d)
  {
    map d | d in NonFetchSources :: SourceOf(csp, d)
  }

  /** The fetch map has sixteen entries: exactly the directives `Load` renders in its fetch
      step. */
  lemma FetchOptionsStep(csp: CSP)
    ensures |FetchOptions(csp)| == 16
    ensures forall d :: d in FetchOptions(csp) <==> Step(d) == 1
  {
    DirectiveCounts();
    assert |FetchOptions(csp)| == |FetchOptions(csp).Keys|;
    forall d ensures d in FetchOptions(csp) <==> Step(d) == 1 {
      FetchStep(d);
    }
  }

  /** The second map has two entries: exactly the directives `Load` renders after the fetch
      step, so none of them is also in the fetch map. */
  lemma NonFetchOptionsStep(csp: CSP)
    ensures |NonFetchOptions(csp)| == 2
    ensures forall d :: d in NonFetchOptions(csp) <==> Step(d) == 2
    ensures NonFetchOptions(csp).Keys !! FetchOptions(csp).Keys
  {
    DirectiveCounts();
    assert |NonFetchOptions(csp)| == |NonFetchOptions(csp).Keys|;
    forall d ensures d in NonFetchOptions(csp) <==> Step(d) == 2 {
      StepOwner(d);
    }
    FetchOptionsStep(csp);
  }


  /** A caller-supplied template text: none (the built-in text is used), a text that does not
      compile, or a text that compiles to some rendering, which may itself fail. */
  datatype TemplateText<-T> = Unset | Malformed(reason: string) | Custom(execute: T -> Execution)

  datatype Policy = Policy(
    sourceText: TemplateText<SourceOptions>,
    sandboxText: TemplateText<SandboxOptions>,
    frameAncestorsText: TemplateText<FrameAncestorOptions>,
    unquotedMultiText: TemplateText<UnquotedOptions>,
    unquotedSingleText: TemplateText<UnquotedOption>,
    csp: CSP,
    reportToPayload: string)      // the body of the separate `Report-To` header

  /** Compiling one template text: an empty text falls back to the built-in template. */
  function Compile<T>(name: string, text: TemplateText<T>): (r: Result<Template<T>>)
    ensures r.Err? <==> text.Malformed?
    ensures r.Ok? ==> (r.value.Builtin? <==> text.Unset?)
    ensures text.Malformed? ==> r.error == TemplateInvalid(name, text.reason)
  {
    match text
    case Unset => Ok(Builtin)
    case Malformed(reason) => Err(TemplateInvalid(name, reason))
    case Custom(execute) => Ok(Compiled(execute))
  }

  datatype TemplateSet = TemplateSet(
    source: Template<SourceOptions>,
    sandbox: Template<SandboxOptions>,
    frameAncestors: Template<FrameAncestorOptions>,
    unquotedMulti: Template<UnquotedOptions>,
    unquotedSingle: Template<UnquotedOption>)

  predicate Compiles(pol: Policy)
  {
    !pol.sourceText.Malformed? && !pol.sandboxText.Malformed? && !pol.frameAncestorsText.Malformed?
    && !pol.unquotedMultiText.Malformed? && !pol.unquotedSingleText.Malformed?
  }

  /** The five templates, compiled in a fixed order; the first text that does not compile is
      the error. */
  function CompileTemplates(pol: Policy): (r: Result<TemplateSet>)
    ensures r.Ok? <==> Compiles(pol)
    ensures pol.sourceText.Malformed? ==> r == Err(TemplateInvalid("SourceOption", pol.sourceText.reason))
    ensures !pol.sourceText.Malformed? && pol.sandboxText.Malformed? ==>
      r == Err(TemplateInvalid("Sandbox", pol.sandboxText.reason))
    ensures !pol.sourceText.Malformed? && !pol.sandboxText.Malformed? && pol.frameAncestorsText.Malformed? ==>
      r == Err(TemplateInvalid("FrameAncestorOptions", pol.frameAncestorsText.reason))
    ensures (!pol.sourceText.Malformed? && !pol.sandboxText.Malformed? && !pol.frameAncestorsText.Malformed?
             && pol.unquotedMultiText.Malformed?) ==>
      r == Err(TemplateInvalid("UnquotedOptions", pol.unquotedMultiText.reason))
    ensures (!pol.sourceText.Malformed? && !pol.sandboxText.Malformed? && !pol.frameAncestorsText.Malformed?
             && !pol.unquotedMultiText.Malformed? && pol.unquotedSingleText.Malformed?) ==>
      r == Err(TemplateInvalid("UnquotedOption", pol.unquotedSingleText.reason))
    ensures r.Err? ==> r.error.TemplateInvalid?
    ensures r.Ok? ==>
      && (r.value.source.Builtin? <==> pol.sourceText.Unset?)
      && (r.value.sandbox.Builtin? <==> pol.sandboxText.Unset?)
      && (r.value.frameAncestors.Builtin? <==> pol.frameAncestorsText.Unset?)
      && (r.value.unquotedMulti.Builtin? <==> pol.unquotedMultiText.Unset?)
      && (r.value.unquotedSingle.Builtin? <==> pol.unquotedSingleText.Unset?)
  {
    var source := Compile("SourceOption", pol.sourceText);
    var sandbox := Compile("Sandbox", pol.sandboxText);
    var frameAncestors := Compile("FrameAncestorOptions", pol.frameAncestorsText);
    var multi := Compile("UnquotedOptions", pol.unquotedMultiText);
    var single := Compile("UnquotedOption", pol.unquotedSingleText);
    if source.Err? then Err(source.error)
    else if sandbox.Err? then Err(sandbox.error)
    else if frameAncestors.Err? then Err(frameAncestors.error)
    else if multi.Err? then Err(multi.error)
    else if single.Err? then Err(single.error)
    else Ok(TemplateSet(source.value, sandbox.value, frameAncestors.value, multi.value, single.value))
  }

  /** The reporting check: a `report-to` group name requires a non-empty `Report-To` payload
      that contains the name as a substring. */
  function CheckReportTo(group: string, payload: string): (r: Result<()>)
    ensures r == Err(ReportToMissing) <==> group != "" && payload == ""
    ensures r == Err(ReportToNotFound) <==>
      group != "" && payload != "" && !(exists i :: OccursAt(payload, group, i))
    ensures r.Ok? <==> group == "" || exists i :: OccursAt(payload, group, i)
  {
    ContainsIff(payload, group);
    if |group| != 0 then
      if |payload| == 0 then Err(ReportToMissing)
      else if !Contains(payload, group) then Err(ReportToNotFound)
      else Ok(())
    else Ok(())
  }

  /** The caller-supplied template that renders `d`, if any: upgrade-insecure-requests is
      rendered without a template. */
  predicate CustomRendered(ts: TemplateSet, d: Directive)
  {
    if IsSourceDirective(d) then ts.source.Compiled?
    else if d == Sandbox then ts.sandbox.Compiled?
    else if d == FrameAncestors then ts.frameAncestors.Compiled?
    else if d == ReportUri then ts.unquotedMulti.Compiled?
    else if d == ReportTo then ts.unquotedSingle.Compiled?
    else false
  }

  /** The rendering of one directive's value with the compiled templates. Only a
      caller-supplied template can fail, and only with its execution error. */
  function Render(ts: TemplateSet, csp: CSP, d: Directive): (r: Result<string>)
    ensures r.Err? ==> CustomRendered(ts, d) && r.error.ExecuteFailed?
  {
    if IsSourceDirective(d) then ParseSource(SourceOf(csp, d), ts.source)
    else if d == Sandbox then ParseSandbox(csp.sandbox, ts.sandbox)
    else if d == FrameAncestors then ParseFrameAncestors(csp.frameAncestors, ts.frameAncestors)
    else if d == ReportUri then ParseUnquotedMulti(csp.reportUri, ts.unquotedMulti)
    else if d == ReportTo then ParseUnquoted(csp.reportTo, ts.unquotedSingle)
    else Ok(if csp.upgradeInsecureRequests then "upgrade-insecure-requests" else "")
  }

  /** Proof helper: the directives of the last five steps are rendered by their own templates,
      and upgrade-insecure-requests by its flag. */
  lemma FixedRenders(ts: TemplateSet, csp: CSP)
    ensures Render(ts, csp, Sandbox) == ParseSandbox(csp.sandbox, ts.sandbox)
    ensures Render(ts, csp, FrameAncestors) == ParseFrameAncestors(csp.frameAncestors, ts.frameAncestors)
    ensures Render(ts, csp, ReportUri) == ParseUnquotedMulti(csp.reportUri, ts.unquotedMulti)
    ensures Render(ts, csp, ReportTo) == ParseUnquoted(csp.reportTo, ts.unquotedSingle)
    ensures Render(ts, csp, UpgradeInsecureRequests) ==
      Ok(if csp.upgradeInsecureRequests then "upgrade-insecure-requests" else "")
  {
    SandboxRendered(ts, csp);
    FrameAncestorsRendered(ts, csp);
    ReportingRendered(ts, csp);
    UpgradeRendered(ts, csp);
  }

  // Proof helpers, one branch of `Render` each, so that a caller unfolds only the one it needs.

  lemma SandboxRendered(ts: TemplateSet, csp: CSP)
    ensures Render(ts, csp, Sandbox) == ParseSandbox(csp.sandbox, ts.sandbox)
  {
  }

  lemma FrameAncestorsRendered(ts: TemplateSet, csp: CSP)
    ensures Render(ts, csp, FrameAncestors) == ParseFrameAncestors(csp.frameAncestors, ts.frameAncestors)
  {
  }

  lemma ReportingRendered(ts: TemplateSet, csp: CSP)
    ensures Render(ts, csp, ReportUri) == ParseUnquotedMulti(csp.reportUri, ts.unquotedMulti)
    ensures Render(ts, csp, ReportTo) == ParseUnquoted(csp.reportTo, ts.unquotedSingle)
  {
  }

  lemma UpgradeRendered(ts: TemplateSet, csp: CSP)
    ensures Render(ts, csp, UpgradeInsecureRequests) ==
      Ok(if csp.upgradeInsecureRequests then "upgrade-insecure-requests" else "")
  {
  }

  /** The rendered text of a directive that renders successfully. */
  function Text(ts: TemplateSet, csp: CSP, d: Directive): string
  {
    match Render(ts, csp, d)
    case Ok(text) => text
    case Err(_) => ""
  }

  /** Every directive renders successfully. */
  predicate AllRender(ts: TemplateSet, csp: CSP)
  {
    forall d :: Render(ts, csp, d).Ok?
  }

  /** `e` is the error of a directive that fails to render while every directive of an earlier
      step renders. */
  ghost predicate FirstFailure(ts: TemplateSet, csp: CSP, e: Error)
  {
    exists d :: Render(ts, csp, d) == Err(e)
      && forall d' :: Step(d') < Step(d) ==> Render(ts, csp, d').Ok?
  }

  /** Every directive of the steps before step `n` renders successfully. */
  ghost predicate RenderedBefore(ts: TemplateSet, csp: CSP, n: nat)
  {
    forall d :: Step(d) < n ==> Render(ts, csp, d).Ok?
  }

  /** Proof helper: a directive that fails to render after every earlier step rendered gives
      the first failure. */
  lemma FirstFailureAt(ts: TemplateSet, csp: CSP, d: Directive, e: Error)
    requires Render(ts, csp, d) == Err(e)
    requires RenderedBefore(ts, csp, Step(d))
    ensures FirstFailure(ts, csp, e)
    ensures !AllRender(ts, csp)
  {
  }

  /** The first failure is unique when `default-src` fails, or when the source-list steps all
      render, since every other step renders a single directive; only the fetch step and the
      `base-uri`/`form-action` step range over a map. */
  lemma FirstFailureUnique(ts: TemplateSet, csp: CSP, e1: Error, e2: Error)
    requires FirstFailure(ts, csp, e1) && FirstFailure(ts, csp, e2)
    requires Render(ts, csp, DefaultSrc).Err? || RenderedBefore(ts, csp, 3)
    ensures e1 == e2
  {
    var d1 :| Render(ts, csp, d1) == Err(e1) && forall d' :: Step(d') < Step(d1) ==> Render(ts, csp, d').Ok?;
    var d2 :| Render(ts, csp, d2) == Err(e2) && forall d' :: Step(d') < Step(d2) ==> Render(ts, csp, d').Ok?;
    StepOwner(d1);
    StepOwner(d2);
    StepOwner(DefaultSrc);
    assert Step(d1) == Step(d2);
  }

  /** The rendered text of every directive. */
  function Texts(ts: TemplateSet, csp: CSP): (texts: map<Directive, string>)
    ensures Complete(texts)
  {
    AllDirectivesComplete();
    map d | d in AllDirectives :: Text(ts, csp, d)
  }

  /** The rendered texts cover exactly the directives. */
  lemma TextsKeys(ts: TemplateSet, csp: CSP)
    ensures Texts(ts, csp).Keys == AllDirectives
  {
  }

  /** The text stored for `d` is its rendering, when that succeeds. */
  lemma TextsAt(ts: TemplateSet, csp: CSP, d: Directive)
    ensures Render(ts, csp, d).Ok? ==> Texts(ts, csp)[d] == Render(ts, csp, d).value
  {
    IsListed(d);
  }

  predicate Complete(texts: map<Directive, string>)
  {
    forall d :: d in texts
  }

  datatype Placement = Static | Dynamic | Omitted

  /** `d` is a source-list directive other than `default-src` whose options carry a nonce or
      a hash. */
  predicate PerResponse(csp: CSP, d: Directive)
  {
    (d in FetchDirectives || d in NonFetchSources) && CarriesNonceOrHash(SourceOf(csp, d))
  }

  /** Where `Load` stores a directive rendered as `text` when `default-src` renders as
      `defaultText`: a fetch directive identical to `default-src` is dropped, a directive that
      differs per response is dynamic, and everything else is static. */
  function Place(d: Directive, text: string, defaultText: string, perResponse: bool): (p: Placement)
    ensures p == Omitted <==> d in FetchDirectives && text == defaultText
    ensures p != Omitted ==> (p == Dynamic <==> perResponse)
  {
    if d in FetchDirectives && text == defaultText then Omitted
    else if perResponse then Dynamic
    else Static
  }

  /** Where a fetch directive lands. */
  lemma PlaceFetchSource(csp: CSP, texts: map<Directive, string>, k: Directive)
    requires Complete(texts) && k in FetchDirectives
    ensures Place(k, texts[k], texts[DefaultSrc], PerResponse(csp, k)) ==
      if texts[k] == texts[DefaultSrc] then Omitted
      else if CarriesNonceOrHash(SourceOf(csp, k)) then Dynamic
      else Static
  {
  }

  /** Where `base-uri` and `form-action` land. */
  lemma PlaceNonFetchSource(csp: CSP, texts: map<Directive, string>, k: Directive)
    requires Complete(texts) && k in NonFetchSources
    ensures Place(k, texts[k], texts[DefaultSrc], PerResponse(csp, k)) ==
      if CarriesNonceOrHash(SourceOf(csp, k)) then Dynamic else Static
  {
    assert k !in FetchDirectives;
  }

  /** The texts of the directives of `ds` that land in `p`. */
  function Placed(csp: CSP, texts: map<Directive, string>, ds: set<Directive>, p: Placement): (m: map<Directive, string>)
    requires Complete(texts)
  {
    map d | d in ds && Place(d, texts[d], texts[DefaultSrc], PerResponse(csp, d)) == p :: texts[d]
  }

  /** The static and dynamic maps of a set of rendered directives hold only those directives,
      each with its own text, and every one of them lands in one of the two maps unless it is a
      fetch directive rendered like `default-src`. */
  lemma PlacedEntries(csp: CSP, texts: map<Directive, string>, ds: set<Directive>)
    requires Complete(texts)
    ensures var st, dy := Placed(csp, texts, ds, Static), Placed(csp, texts, ds, Dynamic);
      && st.Keys <= ds && dy.Keys <= ds
      && (forall d :: d in st ==> st[d] == texts[d])
      && (forall d :: d in dy ==> dy[d] == texts[d])
      && forall d :: d in ds ==>
           d in st || d in dy || (d in FetchDirectives && texts[d] == texts[DefaultSrc])
  {
  }

  /** Adding one directive to the rendered set changes at most its own entry. */
  lemma PlacedAdd(csp: CSP, texts: map<Directive, string>, ds: set<Directive>, k: Directive, p: Placement)
    requires Complete(texts)
    ensures Placed(csp, texts, ds + {k}, p) ==
      if Place(k, texts[k], texts[DefaultSrc], PerResponse(csp, k)) == p
      then Placed(csp, texts, ds, p)[k := texts[k]]
      else Placed(csp, texts, ds, p)
  {
  }

  /** The static directive map that `Load` builds from the rendered texts. */
  function StaticDirectives(csp: CSP, texts: map<Directive, string>): map<Directive, string>
    requires Complete(texts)
  {
    Placed(csp, texts, texts.Keys, Static)
  }

  /** The dynamic directive map that `Load` builds from the rendered texts. */
  function DynamicDirectives(csp: CSP, texts: map<Directive, string>): map<Directive, string>
    requires Complete(texts)
  {
    Placed(csp, texts, texts.Keys, Dynamic)
  }

  // ---------------------------------------------------------------------------------------
  // What the two maps hold.

  /** `default-src` is always static and never filtered. */
  lemma DefaultSrcStatic(csp: CSP, texts: map<Directive, string>)
    requires Complete(texts)
    ensures DefaultSrc in StaticDirectives(csp, texts)
    ensures StaticDirectives(csp, texts)[DefaultSrc] == texts[DefaultSrc]
    ensures DefaultSrc !in DynamicDirectives(csp, texts)
  {
    assert Place(DefaultSrc, texts[DefaultSrc], texts[DefaultSrc], PerResponse(csp, DefaultSrc)) == Static;
  }

  /** A fetch directive is in neither map exactly when its rendering equals `default-src`'s. */
  lemma RedundantFetchOmitted(csp: CSP, texts: map<Directive, string>, d: Directive)
    requires Complete(texts) && d in FetchDirectives
    ensures d !in StaticDirectives(csp, texts) && d !in DynamicDirectives(csp, texts)
        <==> texts[d] == texts[DefaultSrc]
  {
    var place := Place(d, texts[d], texts[DefaultSrc], PerResponse(csp, d));
    assert place == Omitted <==> texts[d] == texts[DefaultSrc];
  }

  /** A fetch directive configured exactly like `default-src` is dropped. */
  lemma IdenticalFetchOmitted(ts: TemplateSet, csp: CSP, d: Directive)
    requires d in FetchDirectives && SourceOf(csp, d) == csp.defaultSrc
    ensures d !in StaticDirectives(csp, Texts(ts, csp)) && d !in DynamicDirectives(csp, Texts(ts, csp))
  {
    SameOptionsSameText(ts, csp, d);
    RedundantFetchOmitted(csp, Texts(ts, csp), d);
  }

  lemma SameOptionsSameText(ts: TemplateSet, csp: CSP, d: Directive)
    requires d in FetchDirectives && SourceOf(csp, d) == csp.defaultSrc
    ensures Texts(ts, csp)[d] == Texts(ts, csp)[DefaultSrc]
  {
    IsListed(d);
    IsListed(DefaultSrc);
    SourceRender(ts, csp, d);
    SourceRender(ts, csp, DefaultSrc);
  }

  /** A source-list directive is rendered by the source-option template. */
  lemma SourceRender(ts: TemplateSet, csp: CSP, d: Directive)
    requires IsSourceDirective(d)
    ensures Render(ts, csp, d) == ParseSource(SourceOf(csp, d), ts.source)
  {
  }

  /** No directive is in both maps. */
  lemma Partitioned(csp: CSP, texts: map<Directive, string>)
    requires Complete(texts)
    ensures StaticDirectives(csp, texts).Keys !! DynamicDirectives(csp, texts).Keys
  {
  }

  /** A kept fetch directive, `base-uri` and `form-action` are dynamic exactly when they carry a
      nonce or a hash, and static otherwise; no other directive is ever dynamic. */
  lemma DynamicIffNonceOrHash(csp: CSP, texts: map<Directive, string>, d: Directive)
    requires Complete(texts)
    ensures d in DynamicDirectives(csp, texts) <==>
      (d in NonFetchSources || (d in FetchDirectives && texts[d] != texts[DefaultSrc]))
      && CarriesNonceOrHash(SourceOf(csp, d))
    ensures d in NonFetchSources || (d in FetchDirectives && texts[d] != texts[DefaultSrc]) ==>
      (d in StaticDirectives(csp, texts) <==> !CarriesNonceOrHash(SourceOf(csp, d)))
  {
    var place := Place(d, texts[d], texts[DefaultSrc], PerResponse(csp, d));
    assert d in DynamicDirectives(csp, texts) <==> place == Dynamic;
    assert d in StaticDirectives(csp, texts) <==> place == Static;
  }

  /** `base-uri` and `form-action` are never compared with `default-src`: each is in one map. */
  lemma NonFetchSourcesKept(csp: CSP, texts: map<Directive, string>, d: Directive)
    requires Complete(texts) && d in NonFetchSources
    ensures d in StaticDirectives(csp, texts) || d in DynamicDirectives(csp, texts)
  {
    assert Place(d, texts[d], texts[DefaultSrc], PerResponse(csp, d)) != Omitted;
  }

  /** Sandbox, frame-ancestors, the two reporting directives and upgrade-insecure-requests are
      always static, with their texts as values. */
  lemma FixedStaticEntries(csp: CSP, texts: map<Directive, string>, d: Directive)
    requires Complete(texts)
    requires d in {Sandbox, FrameAncestors, ReportUri, ReportTo, UpgradeInsecureRequests}
    ensures d in StaticDirectives(csp, texts) && StaticDirectives(csp, texts)[d] == texts[d]
  {
    assert Place(d, texts[d], texts[DefaultSrc], PerResponse(csp, d)) == Static;
  }

  /** upgrade-insecure-requests renders as its own name when set and as the empty text
      otherwise, whatever the templates. */
  lemma UpgradeInsecureRequestsText(ts: TemplateSet, csp: CSP)
    ensures Texts(ts, csp)[UpgradeInsecureRequests] ==
      if csp.upgradeInsecureRequests then Name(UpgradeInsecureRequests) else ""
  {
    UpgradeRendered(ts, csp);
    TextsAt(ts, csp, UpgradeInsecureRequests);
  }
}
