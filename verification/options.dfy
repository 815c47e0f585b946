/** The option records of option.go: one per kind of directive value, plus the outcome type
    that every rendering returns and the compiled-template handle that rendering is given. */
module Options {

  /** The failures the assembler reports. */
  datatype Error =
    | TemplateInvalid(template: string, reason: string)  // a caller-supplied template text does not compile
    | ExecuteFailed(reason: string)                      // a caller-supplied template fails while rendering
    | ReportToMissing                                    // `report-to` is set but there is no Report-To payload
    | ReportToNotFound                                   // the payload does not mention the `report-to` group

  datatype Result<+T> = Ok(value: T) | Err(error: Error)

  /** What executing a caller-supplied template writes: the text, or the engine's own failure.
      The engine never reports the assembler's errors. */
  datatype Execution = Written(text: string) | Failed(reason: string)

  /** A compiled template for option records of type `T`: either the built-in default text of its
      kind, or a caller-supplied text whose behaviour is any deterministic rendering that may fail. */
  datatype Template<-T> = Builtin | Compiled(execute: T -> Execution)

  /** The value of a directive governed by source-list grammar (`default-src`, `script-src`, ...).
      `allow = false` stands for `'none'` and overrides every other field. */
  datatype SourceOptions = SourceOptions(
    allow: bool,
    allowSelf: bool,
    values: seq<string>,            // host and scheme sources, emitted verbatim and in order
    unsafeEval: bool,
    wasmUnsafeEval: bool,
    unsafeHashes: bool,
    unsafeInline: bool,
    nonce: string,                  // a pre-formatted `'nonce-…'` token, or empty
    hash: string,                   // a pre-formatted `'<algorithm>-…'` token, or empty
    strictDynamic: bool,
    reportSample: bool)

  /** A directive that carries a nonce or a hash differs per response. */
  predicate CarriesNonceOrHash(o: SourceOptions)
  {
    |o.nonce| > 0 || |o.hash| > 0
  }

  /** An unquoted single value (`report-to`). */
  datatype UnquotedOption = UnquotedOption(value: string)

  /** Unquoted values (`report-uri`). */
  datatype UnquotedOptions = UnquotedOptions(values: seq<string>)

  /** The thirteen sandbox flags, in the canonical token order. */
  datatype SandboxOptions = SandboxOptions(
    allowDownloads: bool,
    allowForms: bool,
    allowModals: bool,
    allowOrientationLock: bool,
    allowPointerLock: bool,
    allowPopups: bool,
    allowPopupsToEscapeSandbox: bool,
    allowPresentation: bool,
    allowSameOrigin: bool,
    allowScripts: bool,
    allowTopNavigation: bool,
    allowTopNavigationByUserActivation: bool,
    allowTopNavigationToCustomProtocols: bool)

  /** The value of `frame-ancestors`; `allow = false` stands for `'none'` and overrides the rest. */
  datatype FrameAncestorOptions = FrameAncestorOptions(
    allow: bool,
    allowSelf: bool,
    hostSources: seq<string>,
    schemeSources: seq<string>)

  /** The zero values of the records, as a Go struct literal leaves them. */
  const NoSource := SourceOptions(false, false, [], false, false, false, false, "", "", false, false)
  const NoSandbox := SandboxOptions(false, false, false, false, false, false, false, false, false, false, false, false, false)
  const NoFrameAncestors := FrameAncestorOptions(false, false, [], [])
}
