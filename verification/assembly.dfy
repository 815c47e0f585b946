/** `Policy.Load` of csp.go: compile the templates, run the reporting check, render every
    directive into the static or the dynamic map, flatten both maps into the
    `Content-Security-Policy` value and build the header table. The receiver is a copy, so the
    maps `Load` fills are local to one call. Go ranges over its maps in an unspecified order;
    the loops here pick each next key arbitrarily. */
module Assembly {
  import opened Options
  import opened Strings
  import opened Parse
  import opened Directives
  import opened Policies
  import opened Headers

  /** What `Load` returns for `pol`: the first template that does not compile, else the
      reporting error, else, when every directive renders, the header table of the two
      directive maps, and otherwise the error of a directive that fails to render after every
      earlier step succeeded. */
  ghost predicate LoadOutcome(pol: Policy, r: Result<map<string, string>>)
  {
    match CompileTemplates(pol)
    case Err(e) => r == Err(e)
    case Ok(ts) =>
      var check := CheckReportTo(pol.csp.reportTo.value, pol.reportToPayload);
      if check.Err? then r == Err(check.error)
      else if AllRender(ts, pol.csp) then
        var texts := Texts(ts, pol.csp);
        r.Ok? && IsHeaderTable(r.value, StaticDirectives(pol.csp, texts), DynamicDirectives(pol.csp, texts),
                               pol.reportToPayload)
      else r.Err? && FirstFailure(ts, pol.csp, r.error)
  }

  method Load(pol: Policy) returns (r: Result<map<string, string>>)
    ensures LoadOutcome(pol, r)
  {
    var compiled := CompileTemplates(pol);
    if compiled.Err? {
      return Err(compiled.error);
    }
    var ts := compiled.value;
    var csp := pol.csp;
    var check := CheckReportTo(csp.reportTo.value, pol.reportToPayload);
    if check.Err? {
      return Err(check.error);
    }
    var outcome, staticDirs, dynamicDirs := RenderDirectives(ts, csp);
    if outcome.Err? {
      RenderingFails(pol, ts, outcome.error);
      return Err(outcome.error);
    }

    var value := Flatten(staticDirs, dynamicDirs);
    var table := map[CspHeader := value];
    if |pol.reportToPayload| > 0 {
      table := table[ReportToHeader := pol.reportToPayload];
    }
    HeaderTableBuilt(value, staticDirs, dynamicDirs, pol.reportToPayload);
    LoadSucceeds(pol, ts, table);
    return Ok(table);
  }

  /** The rendering part of `Load`: `default-src`, then the fetch directives, `base-uri` and
      `form-action`, and the five remaining directives, each stored in the map its placement
      names; the first rendering error ends it. */
  method RenderDirectives(ts: TemplateSet, csp: CSP)
    returns (outcome: Result<()>, staticDirs: map<Directive, string>, dynamicDirs: map<Directive, string>)
    ensures outcome.Ok? ==> AllRender(ts, csp)
    ensures outcome.Ok? ==> staticDirs == StaticDirectives(csp, Texts(ts, csp))
    ensures outcome.Ok? ==> dynamicDirs == DynamicDirectives(csp, Texts(ts, csp))
    ensures outcome.Err? ==> FirstFailure(ts, csp, outcome.error)
  {
    ghost var texts := Texts(ts, csp);
    ghost var before := {DefaultSrc};
    staticDirs, dynamicDirs := map[], map[];

    var defaultText := ParseSource(csp.defaultSrc, ts.source);
    SourceRender(ts, csp, DefaultSrc);
    if defaultText.Err? {
      FirstFailureAt(ts, csp, DefaultSrc, defaultText.error);
      return Err(defaultText.error), staticDirs, dynamicDirs;
    }
    staticDirs := staticDirs[DefaultSrc := defaultText.value];
    TextsAt(ts, csp, DefaultSrc);
    StoreFirst(csp, texts);

    outcome, staticDirs, dynamicDirs := PlaceFetch(ts, csp, texts, before, staticDirs, dynamicDirs);
    before := before + FetchDirectives;
    if outcome.Err? {
      return;
    }
    outcome, staticDirs, dynamicDirs := PlaceNonFetch(ts, csp, texts, before, staticDirs, dynamicDirs);
    before := before + NonFetchSources;
    if outcome.Err? {
      return;
    }
    outcome, staticDirs := PlaceFixed(ts, csp, texts, before, staticDirs, dynamicDirs);
    if outcome.Err? {
      return;
    }
    StepsCover();
    TextsKeys(ts, csp);
    assert staticDirs == StaticDirectives(csp, texts);
    assert dynamicDirs == DynamicDirectives(csp, texts);

    return Ok(()), staticDirs, dynamicDirs;
  }

  /** A rendering failure after the reporting check passed is the outcome. */
  lemma RenderingFails(pol: Policy, ts: TemplateSet, e: Error)
    requires CompileTemplates(pol) == Ok(ts)
    requires CheckReportTo(pol.csp.reportTo.value, pol.reportToPayload).Ok?
    requires FirstFailure(ts, pol.csp, e)
    ensures LoadOutcome(pol, Err(e))
  {
  }

  /** The table built from a flattened value is a header table. */
  lemma HeaderTableBuilt(value: string, st: map<Directive, string>, dy: map<Directive, string>, payload: string)
    requires FlattensTo(st, dy, value)
    ensures payload == "" ==> IsHeaderTable(map[CspHeader := value], st, dy, payload)
    ensures payload != "" ==> IsHeaderTable(map[CspHeader := value][ReportToHeader := payload], st, dy, payload)
  {
    assert CspHeader != ReportToHeader by {
      assert |CspHeader| != |ReportToHeader|;
    }
  }

  /** When compiling, the reporting check and every rendering succeed, the header table of the
      two maps is the outcome. */
  lemma LoadSucceeds(pol: Policy, ts: TemplateSet, table: map<string, string>)
    requires CompileTemplates(pol) == Ok(ts)
    requires CheckReportTo(pol.csp.reportTo.value, pol.reportToPayload).Ok?
    requires AllRender(ts, pol.csp)
    requires IsHeaderTable(table, StaticDirectives(pol.csp, Texts(ts, pol.csp)),
                           DynamicDirectives(pol.csp, Texts(ts, pol.csp)), pol.reportToPayload)
    ensures LoadOutcome(pol, Ok(table))
  {
  }

  /** The two maps after `default-src` is stored. */
  lemma StoreFirst(csp: CSP, texts: map<Directive, string>)
    requires Complete(texts)
    ensures Placed(csp, texts, {DefaultSrc}, Static) == map[DefaultSrc := texts[DefaultSrc]]
    ensures Placed(csp, texts, {DefaultSrc}, Dynamic) == map[]
  {
    assert Place(DefaultSrc, texts[DefaultSrc], texts[DefaultSrc], PerResponse(csp, DefaultSrc)) == Static;
  }

  /** The fetch directives: each is rendered, dropped when its text equals `default-src`'s,
      and stored as dynamic when it carries a nonce or a hash, as static otherwise. */
  method PlaceFetch(ts: TemplateSet, csp: CSP, ghost texts: map<Directive, string>, ghost before: set<Directive>,
                    st0: map<Directive, string>, dy0: map<Directive, string>)
    returns (outcome: Result<()>, st: map<Directive, string>, dy: map<Directive, string>)
    requires texts == Texts(ts, csp) && RenderedBefore(ts, csp, 1)
    requires st0 == Placed(csp, texts, before, Static) && dy0 == Placed(csp, texts, before, Dynamic)
    requires DefaultSrc in st0 && st0[DefaultSrc] == texts[DefaultSrc]
    ensures outcome.Ok? ==> RenderedBefore(ts, csp, 2)
    ensures outcome.Ok? ==> st == Placed(csp, texts, before + FetchDirectives, Static)
    ensures outcome.Ok? ==> dy == Placed(csp, texts, before + FetchDirectives, Dynamic)
    ensures outcome.Err? ==> FirstFailure(ts, csp, outcome.error)
  {
    var fetch := FetchOptions(csp);
    st, dy := st0, dy0;
    ghost var done := before;
    var remaining := fetch.Keys;
    while remaining != {}
      invariant remaining <= fetch.Keys
      invariant done + remaining == before + fetch.Keys
      invariant forall d :: d in fetch && d !in remaining ==> Render(ts, csp, d).Ok?
      invariant DefaultSrc in st && st[DefaultSrc] == texts[DefaultSrc]
      invariant st == Placed(csp, texts, done, Static) && dy == Placed(csp, texts, done, Dynamic)
      decreases remaining
    {
      var k :| k in remaining;
      Moved(done, remaining, k, before + fetch.Keys);
      remaining := remaining - {k};
      var v := fetch[k];
      var text := ParseSource(v, ts.source);
      SourceDirectives(k);
      SourceRender(ts, csp, k);
      if text.Err? {
        FetchStep(k);
        FirstFailureAt(ts, csp, k, text.error);
        return Err(text.error), st, dy;
      }
      TextsAt(ts, csp, k);
      PlaceFetchSource(csp, texts, k);
      PlacedAdd(csp, texts, done, k, Static);
      PlacedAdd(csp, texts, done, k, Dynamic);
      done := done + {k};
      if st[DefaultSrc] == text.value {
        continue;
      }
      if |v.nonce| > 0 || |v.hash| > 0 {
        dy := dy[k := text.value];
        continue;
      }
      st := st[k := text.value];
    }
    UnionEmpty(done, remaining);
    assert done == before + FetchDirectives;
    forall d | Step(d) == 1
      ensures Render(ts, csp, d).Ok?
    {
      FetchStep(d);
    }
    RenderedStep(ts, csp, 1);
    return Ok(()), st, dy;
  }

  /** `base-uri` and `form-action`: each is rendered and stored as dynamic when it carries a
      nonce or a hash, as static otherwise; they are never compared with `default-src`. */
  method PlaceNonFetch(ts: TemplateSet, csp: CSP, ghost texts: map<Directive, string>, ghost before: set<Directive>,
                       st0: map<Directive, string>, dy0: map<Directive, string>)
    returns (outcome: Result<()>, st: map<Directive, string>, dy: map<Directive, string>)
    requires texts == Texts(ts, csp) && RenderedBefore(ts, csp, 2)
    requires st0 == Placed(csp, texts, before, Static) && dy0 == Placed(csp, texts, before, Dynamic)
    ensures outcome.Ok? ==> RenderedBefore(ts, csp, 3)
    ensures outcome.Ok? ==> st == Placed(csp, texts, before + NonFetchSources, Static)
    ensures outcome.Ok? ==> dy == Placed(csp, texts, before + NonFetchSources, Dynamic)
    ensures outcome.Err? ==> FirstFailure(ts, csp, outcome.error)
  {
    var nonFetch := NonFetchOptions(csp);
    st, dy := st0, dy0;
    ghost var done := before;
    var remaining := nonFetch.Keys;
    while remaining != {}
      invariant remaining <= nonFetch.Keys
      invariant done + remaining == before + nonFetch.Keys
      invariant forall d :: d in nonFetch && d !in remaining ==> Render(ts, csp, d).Ok?
      invariant st == Placed(csp, texts, done, Static) && dy == Placed(csp, texts, done, Dynamic)
      decreases remaining
    {
      var k :| k in remaining;
      Moved(done, remaining, k, before + nonFetch.Keys);
      remaining := remaining - {k};
      var v := nonFetch[k];
      SourceDirectives(k);
      SourceRender(ts, csp, k);
      if |v.nonce| > 0 || |v.hash| > 0 {
        var text := ParseSource(v, ts.source);
        if text.Err? {
          NonFetchFails(ts, csp, k, text.error);
          return Err(text.error), st, dy;
        }
        StoreNonFetch(ts, csp, texts, done, k, st, dy);
        dy, done := dy[k := text.value], done + {k};
        continue;
      }
      var text := ParseSource(v, ts.source);
      if text.Err? {
        NonFetchFails(ts, csp, k, text.error);
        return Err(text.error), st, dy;
      }
      StoreNonFetch(ts, csp, texts, done, k, st, dy);
      st, done := st[k := text.value], done + {k};
    }
    UnionEmpty(done, remaining);
    NonFetchRendered(ts, csp);
    return Ok(()), st, dy;
  }

  /** Storing a rendered `base-uri` or `form-action` in the map its nonce and hash select. */
  lemma StoreNonFetch(ts: TemplateSet, csp: CSP, texts: map<Directive, string>, done: set<Directive>,
                      k: Directive, st: map<Directive, string>, dy: map<Directive, string>)
    requires texts == Texts(ts, csp) && k in NonFetchSources && Render(ts, csp, k).Ok?
    requires st == Placed(csp, texts, done, Static) && dy == Placed(csp, texts, done, Dynamic)
    ensures CarriesNonceOrHash(SourceOf(csp, k)) ==>
      && st == Placed(csp, texts, done + {k}, Static)
      && dy[k := Render(ts, csp, k).value] == Placed(csp, texts, done + {k}, Dynamic)
    ensures !CarriesNonceOrHash(SourceOf(csp, k)) ==>
      && st[k := Render(ts, csp, k).value] == Placed(csp, texts, done + {k}, Static)
      && dy == Placed(csp, texts, done + {k}, Dynamic)
  {
    TextsAt(ts, csp, k);
    PlaceNonFetchSource(csp, texts, k);
    PlacedAdd(csp, texts, done, k, Static);
    PlacedAdd(csp, texts, done, k, Dynamic);
  }

  /** Once `base-uri` and `form-action` render, the first three steps have rendered. */
  lemma NonFetchRendered(ts: TemplateSet, csp: CSP)
    requires RenderedBefore(ts, csp, 2)
    requires forall d :: d in NonFetchSources ==> Render(ts, csp, d).Ok?
    ensures RenderedBefore(ts, csp, 3)
  {
    forall d | Step(d) == 2
      ensures Render(ts, csp, d).Ok?
    {
      StepOwner(d);
    }
    RenderedStep(ts, csp, 2);
  }

  /** Moving one key from the keys still to place to the keys placed keeps their union. */
  lemma Moved(done: set<Directive>, remaining: set<Directive>, k: Directive, total: set<Directive>)
    requires k in remaining && done + remaining == total
    ensures (done + {k}) + (remaining - {k}) == total
  {
  }

  lemma UnionEmpty(a: set<Directive>, b: set<Directive>)
    requires b == {}
    ensures a + b == a
  {
  }

  lemma NonFetchFails(ts: TemplateSet, csp: CSP, k: Directive, e: Error)
    requires k in NonFetchSources && Render(ts, csp, k) == Err(e) && RenderedBefore(ts, csp, 2)
    ensures FirstFailure(ts, csp, e)
  {
    StepOwner(k);
    FirstFailureAt(ts, csp, k, e);
  }

  /** The flattening: the fragments of the static entries with a non-empty value, then those
      of the dynamic ones, joined with single spaces. */
  method Flatten(st: map<Directive, string>, dy: map<Directive, string>) returns (value: string)
    ensures FlattensTo(st, dy, value)
  {
    var fragments: seq<string> := [];
    ghost var os, od;
    fragments, os := AppendFragments(fragments, st);
    fragments, od := AppendFragments(fragments, dy);
    assert [] + Fragments(os, st) == Fragments(os, st);
    value := Join(fragments, " ");
    FlattenedWith(st, dy, os, od, value);
  }

  /** Ranging over `m` in some order, appending the fragment of every entry whose value is not
      empty; `order` is the order the keys were visited in. */
  method AppendFragments(active: seq<string>, m: map<Directive, string>)
    returns (r: seq<string>, ghost order: seq<Directive>)
    ensures Enumerates(order, m)
    ensures r == active + Fragments(order, m)
  {
    r, order := active, [];
    var remaining := m.Keys;
    while remaining != {}
      invariant remaining <= m.Keys
      invariant Distinct(order)
      invariant forall d :: d in order <==> d in m && d !in remaining
      invariant r == active + Fragments(order, m)
      decreases remaining
    {
      var k :| k in remaining;
      var v := m[k];
      remaining := remaining - {k};
      FragmentsAppend(order, m, k);
      DistinctAppend(order, k);
      order := order + [k];
      if |v| == 0 {
        continue;
      }
      r := r + [Fragment(k, v)];
    }
  }

  lemma DistinctAppend(s: seq<Directive>, x: Directive)
    requires Distinct(s) && x !in s
    ensures Distinct(s + [x])
  {
  }

  /** Sandbox, frame-ancestors, report-uri, report-to and upgrade-insecure-requests, in this
      order, each stored as static. */
  method PlaceFixed(ts: TemplateSet, csp: CSP, ghost texts: map<Directive, string>, ghost before: set<Directive>,
                    st0: map<Directive, string>, ghost dy: map<Directive, string>)
    returns (outcome: Result<()>, st: map<Directive, string>)
    requires texts == Texts(ts, csp) && RenderedBefore(ts, csp, 3)
    requires st0 == Placed(csp, texts, before, Static) && dy == Placed(csp, texts, before, Dynamic)
    ensures outcome.Ok? ==> AllRender(ts, csp)
    ensures outcome.Ok? ==> st == Placed(csp, texts, before + FixedDirectives, Static)
    ensures outcome.Ok? ==> dy == Placed(csp, texts, before + FixedDirectives, Dynamic)
    ensures outcome.Err? ==> FirstFailure(ts, csp, outcome.error)
  {
    st := st0;
    FixedRenders(ts, csp);
    FixedSteps();
    ghost var done := before;
    var sandbox := ParseSandbox(csp.sandbox, ts.sandbox);
    if sandbox.Err? {
      FailsAlone(ts, csp, Sandbox, 3, sandbox.error);
      return Err(sandbox.error), st;
    }
    StoreStatic(ts, csp, texts, done, Sandbox, 3, st, dy);
    st, done := st[Sandbox := sandbox.value], done + {Sandbox};

    var frameAncestors := ParseFrameAncestors(csp.frameAncestors, ts.frameAncestors);
    if frameAncestors.Err? {
      FailsAlone(ts, csp, FrameAncestors, 4, frameAncestors.error);
      return Err(frameAncestors.error), st;
    }
    StoreStatic(ts, csp, texts, done, FrameAncestors, 4, st, dy);
    st, done := st[FrameAncestors := frameAncestors.value], done + {FrameAncestors};

    var reportUri := ParseUnquotedMulti(csp.reportUri, ts.unquotedMulti);
    if reportUri.Err? {
      FailsAlone(ts, csp, ReportUri, 5, reportUri.error);
      return Err(reportUri.error), st;
    }
    StoreStatic(ts, csp, texts, done, ReportUri, 5, st, dy);
    st, done := st[ReportUri := reportUri.value], done + {ReportUri};

    var reportTo := ParseUnquoted(csp.reportTo, ts.unquotedSingle);
    if reportTo.Err? {
      FailsAlone(ts, csp, ReportTo, 6, reportTo.error);
      return Err(reportTo.error), st;
    }
    StoreStatic(ts, csp, texts, done, ReportTo, 6, st, dy);
    st, done := st[ReportTo := reportTo.value], done + {ReportTo};

    var upgrade := "";
    if csp.upgradeInsecureRequests {
      upgrade := "upgrade-insecure-requests";
    }
    StoreStatic(ts, csp, texts, done, UpgradeInsecureRequests, 7, st, dy);
    st, done := st[UpgradeInsecureRequests := upgrade], done + {UpgradeInsecureRequests};
    FixedCover(before);
    AllStepsRendered(ts, csp);
    return Ok(()), st;
  }

  /** Storing a directive of the last five steps adds its text to the static map only. */
  lemma StoreStatic(ts: TemplateSet, csp: CSP, texts: map<Directive, string>, done: set<Directive>,
                    k: Directive, n: nat, st: map<Directive, string>, dy: map<Directive, string>)
    requires texts == Texts(ts, csp) && Step(k) == n >= 3
    requires RenderedBefore(ts, csp, n) && Render(ts, csp, k).Ok?
    requires st == Placed(csp, texts, done, Static) && dy == Placed(csp, texts, done, Dynamic)
    ensures RenderedBefore(ts, csp, n + 1)
    ensures st[k := Render(ts, csp, k).value] == Placed(csp, texts, done + {k}, Static)
    ensures dy == Placed(csp, texts, done + {k}, Dynamic)
  {
    StepOwner(k);
    forall d | Step(d) == n
      ensures Render(ts, csp, d).Ok?
    {
      StepOwner(d);
    }
    TextsAt(ts, csp, k);
    PlacedAdd(csp, texts, done, k, Static);
    PlacedAdd(csp, texts, done, k, Dynamic);
    assert Place(k, texts[k], texts[DefaultSrc], PerResponse(csp, k)) == Static;
  }

  /** Every step of `Load` renders every directive. */
  lemma AllStepsRendered(ts: TemplateSet, csp: CSP)
    requires RenderedBefore(ts, csp, 8)
    ensures AllRender(ts, csp)
  {
    forall d
      ensures Render(ts, csp, d).Ok?
    {
      StepOwner(d);
    }
  }

  /** A failing directive that is alone in its step, after every earlier step rendered. */
  lemma FailsAlone(ts: TemplateSet, csp: CSP, k: Directive, n: nat, e: Error)
    requires Render(ts, csp, k) == Err(e) && Step(k) == n && RenderedBefore(ts, csp, n)
    ensures FirstFailure(ts, csp, e)
  {
    FirstFailureAt(ts, csp, k, e);
  }

  /** A step whose every directive renders extends the rendered prefix by one. */
  lemma RenderedStep(ts: TemplateSet, csp: CSP, n: nat)
    requires RenderedBefore(ts, csp, n)
    requires forall d :: Step(d) == n ==> Render(ts, csp, d).Ok?
    ensures RenderedBefore(ts, csp, n + 1)
  {
  }

  // ---------------------------------------------------------------------------------------
  // What the outcome of `Load` says about the policy.

  /** The header table of a successful `Load` always holds the policy value, and holds the
      payload verbatim under `Report-To` exactly when the payload is not empty. */
  lemma LoadedHeaders(pol: Policy, r: Result<map<string, string>>)
    requires LoadOutcome(pol, r) && r.Ok?
    ensures CspHeader in r.value
    ensures ReportToHeader in r.value <==> pol.reportToPayload != ""
    ensures ReportToHeader in r.value ==> r.value[ReportToHeader] == pol.reportToPayload
    ensures |r.value| == if pol.reportToPayload == "" then 1 else 2
  {
    assert CspHeader != ReportToHeader by { assert |CspHeader| != |ReportToHeader|; }
  }

  /** Once the templates compile, a `report-to` group without a payload fails with
      `ReportToMissing`, and a group the payload does not contain fails with
      `ReportToNotFound`; no header table is returned. */
  lemma ReportToErrors(pol: Policy, r: Result<map<string, string>>)
    requires LoadOutcome(pol, r) && Compiles(pol)
    ensures pol.csp.reportTo.value != "" && pol.reportToPayload == "" ==> r == Err(ReportToMissing)
    ensures (pol.csp.reportTo.value != "" && pol.reportToPayload != ""
             && !Contains(pol.reportToPayload, pol.csp.reportTo.value)) ==> r == Err(ReportToNotFound)
  {
    ContainsIff(pol.reportToPayload, pol.csp.reportTo.value);
  }

  /** Each error of `Load` has one cause: a template error only when a text does not compile,
      each reporting error only in its own situation, and an execution error only when the
      templates compile and the reporting check passes. */
  lemma LoadErrorCauses(pol: Policy, r: Result<map<string, string>>)
    requires LoadOutcome(pol, r) && r.Err?
    ensures r.error.TemplateInvalid? <==> !Compiles(pol)
    ensures r.error.TemplateInvalid? ==> CompileTemplates(pol) == Err(r.error)
    ensures r.error == ReportToMissing <==>
      Compiles(pol) && pol.csp.reportTo.value != "" && pol.reportToPayload == ""
    ensures r.error == ReportToNotFound <==>
      (Compiles(pol) && pol.csp.reportTo.value != "" && pol.reportToPayload != ""
       && !Contains(pol.reportToPayload, pol.csp.reportTo.value))
    ensures r.error.ExecuteFailed? <==>
      Compiles(pol) && CheckReportTo(pol.csp.reportTo.value, pol.reportToPayload).Ok?
  {
    ContainsIff(pol.reportToPayload, pol.csp.reportTo.value);
    var compiled := CompileTemplates(pol);
    if compiled.Ok? && CheckReportTo(pol.csp.reportTo.value, pol.reportToPayload).Ok? {
      var ts := compiled.value;
      var d :| Render(ts, pol.csp, d) == Err(r.error)
        && forall d' :: Step(d') < Step(d) ==> Render(ts, pol.csp, d').Ok?;
      assert r.error.ExecuteFailed?;
    }
  }

  /** Every directive `Load` keeps contributes its fragment to the policy value: each directive
      with a non-empty rendering, except a fetch directive rendered like `default-src`. */
  lemma LoadedFragments(pol: Policy, r: Result<map<string, string>>, d: Directive)
    requires LoadOutcome(pol, r) && r.Ok?
    ensures CspHeader in r.value
    ensures CompileTemplates(pol).Ok? && AllRender(CompileTemplates(pol).value, pol.csp)
    ensures var ts := CompileTemplates(pol).value;
      var text := Render(ts, pol.csp, d).value;
      text != "" && (d in FetchDirectives ==> text != Render(ts, pol.csp, DefaultSrc).value) ==>
      exists k :: OccursAt(r.value[CspHeader], Fragment(d, text), k)
  {
    var ts := CompileTemplates(pol).value;
    var csp := pol.csp;
    var texts := Texts(ts, csp);
    TextsAt(ts, csp, d);
    TextsAt(ts, csp, DefaultSrc);
    var st, dy := StaticDirectives(csp, texts), DynamicDirectives(csp, texts);
    if texts[d] != "" && (d in FetchDirectives ==> texts[d] != texts[DefaultSrc]) {
      var place := Place(d, texts[d], texts[DefaultSrc], PerResponse(csp, d));
      assert place == Static ==> d in st && st[d] == texts[d];
      assert place == Dynamic ==> d in dy && dy[d] == texts[d];
      FragmentPresent(st, dy, r.value[CspHeader], d);
    }
  }

  /** Two runs of `Load` on the same policy agree on whether it succeeds, on the header names,
      on the `Report-To` value and, up to order, on the fragments of the policy value; an error
      from compiling or from the reporting check is the same error. */
  lemma LoadDeterministic(pol: Policy, r1: Result<map<string, string>>, r2: Result<map<string, string>>)
    requires LoadOutcome(pol, r1) && LoadOutcome(pol, r2)
    ensures r1.Ok? <==> r2.Ok?
    ensures r1.Ok? && r2.Ok? ==>
      && r1.value.Keys == r2.value.Keys
      && (ReportToHeader in r1.value ==> r1.value[ReportToHeader] == r2.value[ReportToHeader])
      && CspHeader in r1.value && CspHeader in r2.value
      && Compiles(pol)
      && var texts := Texts(CompileTemplates(pol).value, pol.csp);
         var st, dy := StaticDirectives(pol.csp, texts), DynamicDirectives(pol.csp, texts);
         exists fs1, fs2 ::
           && r1.value[CspHeader] == Join(fs1, " ") && r2.value[CspHeader] == Join(fs2, " ")
           && multiset(fs1) == multiset(fs2)
           && forall f :: f in fs1 ==> LiveFragment(f, st, dy)
    ensures !Compiles(pol) || CheckReportTo(pol.csp.reportTo.value, pol.reportToPayload).Err? ==> r1 == r2
    ensures Compiles(pol) && r1.Err? && r2.Err?
      && (Render(CompileTemplates(pol).value, pol.csp, DefaultSrc).Err?
          || RenderedBefore(CompileTemplates(pol).value, pol.csp, 3))
      ==> r1 == r2
  {
    if Compiles(pol) && r1.Err? && r2.Err?
      && CheckReportTo(pol.csp.reportTo.value, pol.reportToPayload).Ok?
    {
      var ts := CompileTemplates(pol).value;
      if Render(ts, pol.csp, DefaultSrc).Err? || RenderedBefore(ts, pol.csp, 3) {
        FirstFailureUnique(ts, pol.csp, r1.error, r2.error);
      }
    }
    if r1.Ok? && r2.Ok? {
      LoadedHeaders(pol, r1);
      LoadedHeaders(pol, r2);
      var ts := CompileTemplates(pol).value;
      var texts := Texts(ts, pol.csp);
      FlattenedUpToOrder(StaticDirectives(pol.csp, texts), DynamicDirectives(pol.csp, texts),
                         r1.value[CspHeader], r2.value[CspHeader]);
    }
  }

  /** With every template text unset no rendering can fail, so `Load` fails only on the
      reporting check. */
  lemma BuiltinLoad(pol: Policy, r: Result<map<string, string>>)
    requires LoadOutcome(pol, r)
    requires pol.sourceText.Unset? && pol.sandboxText.Unset? && pol.frameAncestorsText.Unset?
    requires pol.unquotedMultiText.Unset? && pol.unquotedSingleText.Unset?
    ensures r.Ok? <==> CheckReportTo(pol.csp.reportTo.value, pol.reportToPayload).Ok?
    ensures r.Err? ==> r.error == ReportToMissing || r.error == ReportToNotFound
  {
    var ts := CompileTemplates(pol).value;
    BuiltinRenders(ts, pol.csp);
  }

  /** The built-in templates render every directive. */
  lemma BuiltinRenders(ts: TemplateSet, csp: CSP)
    requires ts.source.Builtin? && ts.sandbox.Builtin? && ts.frameAncestors.Builtin?
    requires ts.unquotedMulti.Builtin? && ts.unquotedSingle.Builtin?
    ensures AllRender(ts, csp)
  {
    FixedRenders(ts, csp);
    forall d
      ensures Render(ts, csp, d).Ok?
    {
      StepOwner(d);
      if IsSourceDirective(d) {
        SourceRender(ts, csp, d);
      }
    }
  }
}
