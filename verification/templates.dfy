/** The five built-in directive templates of template.go, as rendering functions, and what a
    rendering says when it is read back as space-separated words. */
module Templates {
  import opened Options
  import opened Strings

  /** `{{ range $v := .Values }} {{$v}}{{ end }}`: every value preceded by one space. */
  function Spaced(vs: seq<string>): (r: string)
    ensures r == "" <==> vs == []
    ensures vs != [] ==> r[0] == ' '
  {
    if vs == [] then "" else " " + vs[0] + Spaced(vs[1..])
  }

  /** `{{ range $v := .Values }}{{$v}} {{ end }}`: every value followed by one space. */
  function Terminated(vs: seq<string>): (r: string)
    ensures r == "" <==> vs == []
    ensures vs != [] ==> r[|r| - 1] == ' '
  {
    if vs == [] then "" else vs[0] + " " + Terminated(vs[1..])
  }

  /** The quoted keywords of the source-option and frame-ancestors templates. */
  const None: Word := "'none'"
  const Self: Word := "'self'"
  const UnsafeEval: Word := "'unsafe-eval'"
  const WasmUnsafeEval: Word := "'wasm-unsafe-eval'"
  const UnsafeHashes: Word := "'unsafe-hashes'"
  const UnsafeInline: Word := "'unsafe-inline'"
  const StrictDynamic: Word := "'strict-dynamic'"
  const ReportSample: Word := "'report-sample'"

  /** `{{ if b }}text{{ end }}` */
  function When(b: bool, text: string): string
  {
    if b then text else ""
  }

  /** The source-option template. Each token after `'self'` brings its own leading space, except
      the nonce and the hash, which are appended with no separator. */
  function RenderSource(o: SourceOptions): (r: string)
    ensures !o.allow ==> r == None
    ensures r == "" <==>
      o.allow && !o.allowSelf && o.values == [] && !o.unsafeEval && !o.wasmUnsafeEval
      && !o.unsafeHashes && !o.unsafeInline && o.nonce == "" && o.hash == ""
      && !o.strictDynamic && !o.reportSample
  {
    if !o.allow then None
    else
      When(o.allowSelf, Self)
      + Spaced(o.values)
      + When(o.unsafeEval, " " + UnsafeEval)
      + When(o.wasmUnsafeEval, " " + WasmUnsafeEval)
      + When(o.unsafeHashes, " " + UnsafeHashes)
      + When(o.unsafeInline, " " + UnsafeInline)
      + When(|o.nonce| > 0, o.nonce)
      + When(|o.hash| > 0, o.hash)
      + When(o.strictDynamic, " " + StrictDynamic)
      + When(o.reportSample, " " + ReportSample)
  }

  /** The sandbox tokens in canonical order, one per flag of `SandboxOptions`. */
  const SandboxTokens: seq<Word> := [
    "allow-downloads", "allow-forms", "allow-modals", "allow-orientation-lock",
    "allow-pointer-lock", "allow-popups", "allow-popups-to-escape-sandbox", "allow-presentation",
    "allow-same-origin", "allow-scripts", "allow-top-navigation",
    "allow-top-navigation-by-user-activation", "allow-top-navigation-to-custom-protocols"]

  /** The flags of `s` in the order of `SandboxTokens`. */
  function SandboxFlags(s: SandboxOptions): (f: seq<bool>)
    ensures |f| == |SandboxTokens| == 13
  {
    [s.allowDownloads, s.allowForms, s.allowModals, s.allowOrientationLock, s.allowPointerLock,
     s.allowPopups, s.allowPopupsToEscapeSandbox, s.allowPresentation, s.allowSameOrigin,
     s.allowScripts, s.allowTopNavigation, s.allowTopNavigationByUserActivation,
     s.allowTopNavigationToCustomProtocols]
  }

  /** `{{ if flag }} token{{ end }}` for each flag and token in turn. */
  function SpacedWhen(flags: seq<bool>, tokens: seq<string>): (r: string)
    requires |flags| == |tokens|
    ensures r != "" ==> r[0] == ' '
  {
    if flags == [] then "" else When(flags[0], " " + tokens[0]) + SpacedWhen(flags[1..], tokens[1..])
  }

  /** The sandbox template: `allow-downloads` bare, then every other set token, in the order of
      `SandboxTokens`, with one leading space each. */
  function RenderSandbox(s: SandboxOptions): (r: string)
    ensures r == "" <==> true !in SandboxFlags(s)
  {
    var f := SandboxFlags(s);
    FlaggedEmpty(f, SandboxTokens);
    When(f[0], SandboxTokens[0]) + SpacedWhen(f[1..], SandboxTokens[1..])
  }

  /** The frame-ancestors template. */
  function RenderFrameAncestors(o: FrameAncestorOptions): (r: string)
    ensures !o.allow ==> r == None
    ensures r == "" <==> o.allow && !o.allowSelf && o.hostSources == [] && o.schemeSources == []
  {
    if !o.allow then None
    else When(o.allowSelf, Self) + Spaced(o.hostSources) + Spaced(o.schemeSources)
  }

  /** The unquoted multi-value template (a trailing space after every value). */
  function RenderUnquotedMulti(o: UnquotedOptions): (r: string)
    ensures r == "" <==> o.values == []
    ensures o.values != [] ==> r[|r| - 1] == ' '
  {
    Terminated(o.values)
  }

  /** The unquoted single-value template. */
  function RenderUnquotedSingle(o: UnquotedOption): (r: string)
    ensures r == o.value
  {
    o.value
  }

  // ---------------------------------------------------------------------------------------
  // The token lists the renderings stand for.

  function Opt(b: bool, w: string): seq<string>
  {
    if b then [w] else []
  }

  /** The words of a source-option rendering: `'none'` when disallowed; otherwise the self word
      (empty when `'self'` is absent, because the next token brings its own space), the values,
      the four unsafe keywords, with the nonce and the hash fused onto whatever word precedes
      them, and then the two trailing keywords. */
  function SourceWords(o: SourceOptions): seq<string>
  {
    if !o.allow then [None]
    else
      Glue([if o.allowSelf then Self else ""] + o.values
             + Opt(o.unsafeEval, UnsafeEval) + Opt(o.wasmUnsafeEval, WasmUnsafeEval)
             + Opt(o.unsafeHashes, UnsafeHashes) + Opt(o.unsafeInline, UnsafeInline),
           [o.nonce + o.hash])
      + Opt(o.strictDynamic, StrictDynamic) + Opt(o.reportSample, ReportSample)
  }

  /** The tokens whose flag is set, in order. */
  function Enabled(flags: seq<bool>, tokens: seq<string>): seq<string>
    requires |flags| == |tokens|
  {
    if flags == [] then [] else Opt(flags[0], tokens[0]) + Enabled(flags[1..], tokens[1..])
  }

  /** The words of a sandbox rendering: the set tokens, preceded by an empty word when
      `allow-downloads` is not set (the first token then brings a leading space). */
  function SandboxWords(s: SandboxOptions): seq<string>
  {
    (if s.allowDownloads then [] else [""]) + Enabled(SandboxFlags(s), SandboxTokens)
  }

  function FrameAncestorWords(o: FrameAncestorOptions): seq<string>
  {
    if !o.allow then [None]
    else [if o.allowSelf then Self else ""] + o.hostSources + o.schemeSources
  }

  // ---------------------------------------------------------------------------------------
  // Reading renderings back.

  lemma KeywordsAreWords()
    ensures NoSpace(None) && NoSpace(Self) && NoSpace(UnsafeEval) && NoSpace(WasmUnsafeEval)
    ensures NoSpace(UnsafeHashes) && NoSpace(UnsafeInline) && NoSpace(StrictDynamic)
    ensures NoSpace(ReportSample)
  {
  }

  lemma SandboxTokensAreWords()
    ensures NoSpaces(SandboxTokens)
  {
  }

  /** Each ranged value becomes one word, verbatim and in order. */
  lemma {:induction false} SplitSpaced(a: string, vs: seq<string>)
    requires NoSpaces(vs)
    ensures Split(a + Spaced(vs)) == Split(a) + vs
    decreases |vs|
  {
    if vs == [] {
      assert a + Spaced(vs) == a;
    } else {
      var rest := Spaced(vs[1..]);
      assert a + Spaced(vs) == (a + (" " + vs[0])) + rest;
      SplitAddWord(a, vs[0]);
      SplitSpaced(a + (" " + vs[0]), vs[1..]);
      assert [vs[0]] + vs[1..] == vs;
      assert Split(a) + [vs[0]] + vs[1..] == Split(a) + vs;
    }
  }

  lemma SplitWhen(a: string, b: bool, w: string)
    requires NoSpace(w)
    ensures Split(a + When(b, " " + w)) == Split(a) + Opt(b, w)
  {
    if b {
      SplitAddWord(a, w);
    } else {
      assert a + "" == a;
    }
  }

  lemma SplitWhenGlued(a: string, w: string)
    requires NoSpace(w)
    ensures Split(a + When(|w| > 0, w)) == Glue(Split(a), [w])
  {
    assert When(|w| > 0, w) == w;
    SplitGlueWord(a, w);
  }

  /** The source-option rendering, read back as words, is exactly `SourceWords`: every value and
      keyword verbatim and in the template's order, an empty first word when `'self'` is absent,
      and the nonce and hash fused onto the preceding word. */
  lemma SourceRendersWords(o: SourceOptions)
    requires NoSpaces(o.values) && NoSpace(o.nonce) && NoSpace(o.hash)
    ensures Split(RenderSource(o)) == SourceWords(o)
  {
    KeywordsAreWords();
    if !o.allow {
      SplitWord(None);
    } else {
      var head := SourceHead(o);
      SourceHeadWords(o);
      var nh := o.nonce + o.hash;
      var a6 := head + When(|o.nonce| > 0, o.nonce);
      SplitWhenGlued(head, o.nonce);
      var a7 := a6 + When(|o.hash| > 0, o.hash);
      SplitWhenGlued(a6, o.hash);
      GlueGlue(Split(head), o.nonce, o.hash);
      assert Split(a7) == Glue(Split(head), [nh]);
      var a8 := a7 + When(o.strictDynamic, " " + StrictDynamic);
      SplitWhen(a7, o.strictDynamic, StrictDynamic);
      var a9 := a8 + When(o.reportSample, " " + ReportSample);
      SplitWhen(a8, o.reportSample, ReportSample);
      assert RenderSource(o) == a9;
      assert Split(a9) == Glue(Split(head), [nh]) + Opt(o.strictDynamic, StrictDynamic)
                                                 + Opt(o.reportSample, ReportSample);
    }
  }

  /** The part of an allowed source-option rendering before the nonce. */
  function SourceHead(o: SourceOptions): string
  {
    When(o.allowSelf, Self)
    + Spaced(o.values)
    + When(o.unsafeEval, " " + UnsafeEval)
    + When(o.wasmUnsafeEval, " " + WasmUnsafeEval)
    + When(o.unsafeHashes, " " + UnsafeHashes)
    + When(o.unsafeInline, " " + UnsafeInline)
  }

  lemma SourceHeadWords(o: SourceOptions)
    requires NoSpaces(o.values)
    ensures Split(SourceHead(o)) == [if o.allowSelf then Self else ""] + o.values
        + Opt(o.unsafeEval, UnsafeEval) + Opt(o.wasmUnsafeEval, WasmUnsafeEval)
        + Opt(o.unsafeHashes, UnsafeHashes) + Opt(o.unsafeInline, UnsafeInline)
  {
    KeywordsAreWords();
    var a0 := When(o.allowSelf, Self);
    SplitWord(a0);
    var a1 := a0 + Spaced(o.values);
    SplitSpaced(a0, o.values);
    var a2 := a1 + When(o.unsafeEval, " " + UnsafeEval);
    SplitWhen(a1, o.unsafeEval, UnsafeEval);
    var a3 := a2 + When(o.wasmUnsafeEval, " " + WasmUnsafeEval);
    SplitWhen(a2, o.wasmUnsafeEval, WasmUnsafeEval);
    var a4 := a3 + When(o.unsafeHashes, " " + UnsafeHashes);
    SplitWhen(a3, o.unsafeHashes, UnsafeHashes);
    SplitWhen(a4, o.unsafeInline, UnsafeInline);
  }

  /** Without `'self'`, an allowed directive with a value starts with a space. */
  lemma SourceLeadingSpace(o: SourceOptions)
    requires o.allow && !o.allowSelf && o.values != []
    ensures RenderSource(o) != "" && RenderSource(o)[0] == ' '
  {
    var a1 := When(o.allowSelf, Self) + Spaced(o.values);
    assert a1 == Spaced(o.values) && a1[0] == ' ';
    var a2 := a1 + When(o.unsafeEval, " " + UnsafeEval);
    FirstOfAppend(a1, When(o.unsafeEval, " " + UnsafeEval));
    var a3 := a2 + When(o.wasmUnsafeEval, " " + WasmUnsafeEval);
    FirstOfAppend(a2, When(o.wasmUnsafeEval, " " + WasmUnsafeEval));
    var a4 := a3 + When(o.unsafeHashes, " " + UnsafeHashes);
    FirstOfAppend(a3, When(o.unsafeHashes, " " + UnsafeHashes));
    var a5 := a4 + When(o.unsafeInline, " " + UnsafeInline);
    FirstOfAppend(a4, When(o.unsafeInline, " " + UnsafeInline));
    var a6 := a5 + When(|o.nonce| > 0, o.nonce);
    FirstOfAppend(a5, When(|o.nonce| > 0, o.nonce));
    var a7 := a6 + When(|o.hash| > 0, o.hash);
    FirstOfAppend(a6, When(|o.hash| > 0, o.hash));
    var a8 := a7 + When(o.strictDynamic, " " + StrictDynamic);
    FirstOfAppend(a7, When(o.strictDynamic, " " + StrictDynamic));
    FirstOfAppend(a8, When(o.reportSample, " " + ReportSample));
  }

  /** An allowed directive carries its nonce followed directly by its hash, verbatim. */
  lemma NonceAndHashVerbatim(o: SourceOptions)
    requires o.allow
    ensures Contains(RenderSource(o), o.nonce + o.hash)
  {
    var head, nh := SourceHead(o), o.nonce + o.hash;
    assert When(|o.nonce| > 0, o.nonce) == o.nonce && When(|o.hash| > 0, o.hash) == o.hash;
    var a7 := head + o.nonce + o.hash;
    assert a7 == head + nh;
    OccursAppended(head, nh);
    var a8 := a7 + When(o.strictDynamic, " " + StrictDynamic);
    OccursExtended(a7, nh, |head|, When(o.strictDynamic, " " + StrictDynamic));
    var a9 := a8 + When(o.reportSample, " " + ReportSample);
    OccursExtended(a8, nh, |head|, When(o.reportSample, " " + ReportSample));
    assert RenderSource(o) == a9;
    OccursImpliesContains(a9, nh, |head|);
  }

  /** The tokens of set flags, each with a leading space, are the enabled tokens spaced. */
  lemma {:induction false} SpacedWhenIsSpaced(flags: seq<bool>, tokens: seq<string>)
    requires |flags| == |tokens|
    ensures SpacedWhen(flags, tokens) == Spaced(Enabled(flags, tokens))
    decreases |flags|
  {
    if flags != [] {
      var rest := Enabled(flags[1..], tokens[1..]);
      SpacedWhenIsSpaced(flags[1..], tokens[1..]);
      if flags[0] {
        assert ([tokens[0]] + rest)[1..] == rest;
      } else {
        assert [] + rest == rest;
      }
    }
  }

  /** Every enabled token is one of the tokens. */
  lemma {:induction false} EnabledFromTokens(flags: seq<bool>, tokens: seq<string>)
    requires |flags| == |tokens|
    ensures forall w :: w in Enabled(flags, tokens) ==> w in tokens
    decreases |flags|
  {
    if flags != [] {
      EnabledFromTokens(flags[1..], tokens[1..]);
      assert forall w :: w in tokens[1..] ==> w in tokens;
    }
  }

  /** Each spaced sandbox token whose flag is set becomes one word, in order. */
  lemma {:induction false} SplitSpacedWhen(a: string, flags: seq<bool>, tokens: seq<string>)
    requires |flags| == |tokens| && NoSpaces(tokens)
    ensures Split(a + SpacedWhen(flags, tokens)) == Split(a) + Enabled(flags, tokens)
  {
    SpacedWhenIsSpaced(flags, tokens);
    EnabledFromTokens(flags, tokens);
    SplitSpaced(a, Enabled(flags, tokens));
  }

  /** The sandbox rendering, read back as words, is exactly the tokens of the set flags in the
      canonical order, after an empty word when `allow-downloads` is not set. */
  lemma SandboxRendersWords(s: SandboxOptions)
    ensures Split(RenderSandbox(s)) == SandboxWords(s)
  {
    SandboxTokensAreWords();
    SplitFlagged(SandboxFlags(s), SandboxTokens);
  }

  /** The shape of the sandbox template over any flag and token table. */
  lemma {:induction false} SplitFlagged(f: seq<bool>, t: seq<string>)
    requires |f| == |t| >= 1 && NoSpaces(t)
    ensures Split(When(f[0], t[0]) + SpacedWhen(f[1..], t[1..]))
         == (if f[0] then [] else [""]) + Enabled(f, t)
  {
    var a0 := When(f[0], t[0]);
    NoSpacesSplit(t);
    SplitWord(a0);
    SplitSpacedWhen(a0, f[1..], t[1..]);
    var rest := Enabled(f[1..], t[1..]);
    assert Enabled(f, t) == Opt(f[0], t[0]) + rest;
    if f[0] {
      assert [a0] + rest == [] + ([t[0]] + rest);
    } else {
      assert [a0] + rest == [""] + ([] + rest);
    }
  }

  lemma {:induction false} SpacedWhenEmpty(flags: seq<bool>, tokens: seq<string>)
    requires |flags| == |tokens|
    ensures SpacedWhen(flags, tokens) == "" <==> true !in flags
    decreases |flags|
  {
    if flags != [] {
      SpacedWhenEmpty(flags[1..], tokens[1..]);
      assert flags == [flags[0]] + flags[1..];
    }
  }

  lemma {:induction false} FlaggedEmpty(f: seq<bool>, t: seq<string>)
    requires |f| == |t| >= 1 && t[0] != ""
    ensures When(f[0], t[0]) + SpacedWhen(f[1..], t[1..]) == "" <==> true !in f
  {
    SpacedWhenEmpty(f[1..], t[1..]);
    assert f == [f[0]] + f[1..];
  }

  /** The sandbox rendering starts with a space exactly when `allow-downloads` is unset and
      some other flag is set. */
  lemma SandboxLeadingSpace(s: SandboxOptions)
    ensures RenderSandbox(s) != "" && RenderSandbox(s)[0] == ' ' <==>
      !s.allowDownloads && true in SandboxFlags(s)
  {
    FlaggedLeadingSpace(SandboxFlags(s), SandboxTokens);
  }

  /** The shape of the sandbox template over any flag and token table whose first token does
      not start with a space. */
  lemma {:induction false} FlaggedLeadingSpace(f: seq<bool>, t: seq<string>)
    requires |f| == |t| >= 1 && t[0] != "" && t[0][0] != ' '
    ensures var r := When(f[0], t[0]) + SpacedWhen(f[1..], t[1..]);
      r != "" && r[0] == ' ' <==> !f[0] && true in f
  {
    SpacedWhenEmpty(f[1..], t[1..]);
    assert f == [f[0]] + f[1..];
    if f[0] {
      FirstOfAppend(t[0], SpacedWhen(f[1..], t[1..]));
    }
  }

  /** The frame-ancestors rendering, read back as words: `'none'` when disallowed, otherwise the
      self word (empty without `'self'`), the host sources and then the scheme sources. */
  lemma FrameAncestorsRendersWords(o: FrameAncestorOptions)
    requires NoSpaces(o.hostSources) && NoSpaces(o.schemeSources)
    ensures Split(RenderFrameAncestors(o)) == FrameAncestorWords(o)
  {
    KeywordsAreWords();
    if !o.allow {
      SplitWord(None);
    } else {
      var a0 := When(o.allowSelf, Self);
      SplitWord(a0);
      SplitSpaced(a0, o.hostSources);
      SplitSpaced(a0 + Spaced(o.hostSources), o.schemeSources);
    }
  }

  /** The unquoted multi-value rendering, read back as words: the values, then one empty word
      left by the trailing space (the only word when there are no values). */
  lemma {:induction false} UnquotedMultiRendersWords(o: UnquotedOptions)
    requires NoSpaces(o.values)
    ensures Split(RenderUnquotedMulti(o)) == o.values + [""]
    decreases |o.values|
  {
    var vs := o.values;
    if vs != [] {
      var rest := UnquotedOptions(vs[1..]);
      assert forall w :: w in vs[1..] ==> w in vs;
      UnquotedMultiRendersWords(rest);
      assert vs[0] in vs;
      SplitTrailingSpace(vs[0]);
      assert RenderUnquotedMulti(o) == (vs[0] + " ") + RenderUnquotedMulti(rest);
      SplitAppend(vs[0] + " ", RenderUnquotedMulti(rest));
      assert [vs[0], ""] == [vs[0]] + [""];
      GlueAfterEmpty([vs[0]], vs[1..] + [""]);
      assert vs == [vs[0]] + vs[1..];
      assert [vs[0]] + (vs[1..] + [""]) == vs + [""];
    }
  }
}
