/** The `Parse` methods of option.go: each executes a compiled template on its (copied) record
    and returns either the rendered text or the template's error. With the built-in template the
    rendering is one of the functions of `Templates`, which cannot fail. */
module Parse {
  import opened Options
  import opened Strings
  import opened Templates

  /** The outcome of executing a caller-supplied template: the text it wrote, or its failure
      reported as `ExecuteFailed`. */
  function Executed(x: Execution): (r: Result<string>)
    ensures r.Ok? <==> x.Written?
    ensures r.Ok? ==> r.value == x.text
    ensures r.Err? ==> r.error == ExecuteFailed(x.reason)
  {
    match x
    case Written(text) => Ok(text)
    case Failed(reason) => Err(ExecuteFailed(reason))
  }

  /** `CSPSourceOptions.Parse`. */
  function ParseSource(o: SourceOptions, t: Template<SourceOptions>): (r: Result<string>)
    ensures t.Builtin? ==> r.Ok? && r.value == RenderSource(o)
    ensures t.Compiled? ==> r == Executed(t.execute(o))
    ensures r.Err? ==> t.Compiled? && r.error.ExecuteFailed?
    ensures t.Builtin? && !o.allow ==> r == Ok(None)
    ensures t.Builtin? && o.allow ==> Contains(r.value, o.nonce + o.hash)
  {
    match t
    case Builtin =>
      if o.allow then NonceAndHashVerbatim(o); Ok(RenderSource(o)) else Ok(RenderSource(o))
    case Compiled(execute) => Executed(execute(o))
  }

  /** `SandboxOptions.Parse`. */
  function ParseSandbox(o: SandboxOptions, t: Template<SandboxOptions>): (r: Result<string>)
    ensures t.Builtin? ==> r.Ok? && r.value == RenderSandbox(o)
    ensures t.Compiled? ==> r == Executed(t.execute(o))
    ensures r.Err? ==> t.Compiled? && r.error.ExecuteFailed?
    ensures t.Builtin? ==> (r.value == "" <==> true !in SandboxFlags(o))
  {
    match t
    case Builtin => Ok(RenderSandbox(o))
    case Compiled(execute) => Executed(execute(o))
  }

  /** `FrameAncestorOptions.Parse`. */
  function ParseFrameAncestors(o: FrameAncestorOptions, t: Template<FrameAncestorOptions>): (r: Result<string>)
    ensures t.Builtin? ==> r.Ok? && r.value == RenderFrameAncestors(o)
    ensures t.Compiled? ==> r == Executed(t.execute(o))
    ensures r.Err? ==> t.Compiled? && r.error.ExecuteFailed?
    ensures t.Builtin? && !o.allow ==> r == Ok(None)
  {
    match t
    case Builtin => Ok(RenderFrameAncestors(o))
    case Compiled(execute) => Executed(execute(o))
  }

  /** `UnquotedOptions.Parse`. */
  function ParseUnquotedMulti(o: UnquotedOptions, t: Template<UnquotedOptions>): (r: Result<string>)
    ensures t.Builtin? ==> r.Ok? && r.value == RenderUnquotedMulti(o)
    ensures t.Compiled? ==> r == Executed(t.execute(o))
    ensures r.Err? ==> t.Compiled? && r.error.ExecuteFailed?
    ensures t.Builtin? ==> (r.value == "" <==> o.values == [])
  {
    match t
    case Builtin => Ok(RenderUnquotedMulti(o))
    case Compiled(execute) => Executed(execute(o))
  }

  /** `UnquotedOption.Parse`. */
  function ParseUnquoted(o: UnquotedOption, t: Template<UnquotedOption>): (r: Result<string>)
    ensures t.Builtin? ==> r == Ok(o.value)
    ensures t.Compiled? ==> r == Executed(t.execute(o))
    ensures r.Err? ==> t.Compiled? && r.error.ExecuteFailed?
  {
    match t
    case Builtin => Ok(RenderUnquotedSingle(o))
    case Compiled(execute) => Executed(execute(o))
  }
}
