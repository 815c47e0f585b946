/** The directives a policy can emit, their header names, and the categories `Load` treats
    differently: `default-src`, the sixteen fetch directives compared against it, the two other
    source-list directives, and the directives that are always static. */
module Directives {
  import opened Strings

  datatype Directive =
    | DefaultSrc
    | ChildSrc | ConnectSrc | FontSrc | FrameSrc | ImgSrc | ManifestSrc | MediaSrc | ObjectSrc
    | PrefetchSrc | ScriptSrc | ScriptSrcElem | ScriptSrcAttr | StyleSrc | StyleSrcElem
    | StyleSrcAttr | WorkerSrc
    | BaseUri | Sandbox | FormAction | FrameAncestors | ReportUri | ReportTo
    | UpgradeInsecureRequests

  /** The directive name as written in the header. */
  function Name(d: Directive): string
  {
    match d
    case DefaultSrc => "default-src"
    case ChildSrc => "child-src"
    case ConnectSrc => "connect-src"
    case FontSrc => "font-src"
    case FrameSrc => "frame-src"
    case ImgSrc => "img-src"
    case ManifestSrc => "manifest-src"
    case MediaSrc => "media-src"
    case ObjectSrc => "object-src"
    case PrefetchSrc => "prefetch-src"
    case ScriptSrc => "script-src"
    case ScriptSrcElem => "script-src-elem"
    case ScriptSrcAttr => "script-src-attr"
    case StyleSrc => "style-src"
    case StyleSrcElem => "style-src-elem"
    case StyleSrcAttr => "style-src-attr"
    case WorkerSrc => "worker-src"
    case BaseUri => "base-uri"
    case Sandbox => "sandbox"
    case FormAction => "form-action"
    case FrameAncestors => "frame-ancestors"
    case ReportUri => "report-uri"
    case ReportTo => "report-to"
    case UpgradeInsecureRequests => "upgrade-insecure-requests"
  }

  /** Every directive name is a non-empty word, free of spaces, that starts with a lower-case
      letter. */
  lemma NameStartsWithLetter(d: Directive)
    ensures |Name(d)| > 0 && 'a' <= Name(d)[0] <= 'z'
    ensures NoSpace(Name(d))
  {
  }

  /** The fetch directives that are compared against `default-src`. */
  const FetchDirectives: set<Directive> := {
    ChildSrc, ConnectSrc, FontSrc, FrameSrc, ImgSrc, ManifestSrc, MediaSrc, ObjectSrc,
    PrefetchSrc, ScriptSrc, ScriptSrcElem, ScriptSrcAttr, StyleSrc, StyleSrcElem,
    StyleSrcAttr, WorkerSrc}

  /** There are sixteen fetch directives and two other source-list directives. */
  lemma DirectiveCounts()
    ensures |FetchDirectives| == 16 && |NonFetchSources| == 2
  {
  }

  /** The source-list directives that are never compared against `default-src`. */
  const NonFetchSources: set<Directive> := {BaseUri, FormAction}

  /** The directives with a source-list value: all but the five rendered one at a time. */
  predicate IsSourceDirective(d: Directive)
  {
    match d
    case Sandbox | FrameAncestors | ReportUri | ReportTo | UpgradeInsecureRequests => false
    case _ => true
  }

  /** The source-list directives are `default-src`, the fetch directives, `base-uri` and
      `form-action`. */
  lemma SourceDirectives(d: Directive)
    ensures IsSourceDirective(d) <==> d == DefaultSrc || d in FetchDirectives || d in NonFetchSources
  {
  }

  const AllDirectives: set<Directive> :=
    {DefaultSrc} + FetchDirectives + NonFetchSources
    + FixedDirectives

  /** Proof helper: every directive is in `AllDirectives` (the enumeration is exhaustive). */
  lemma AllDirectivesComplete()
    ensures forall d :: d in AllDirectives
  {
    forall d ensures d in AllDirectives {
      IsListed(d);
    }
  }

  /** The directives rendered one at a time, after the source-list directives. */
  const FixedDirectives: set<Directive> := {Sandbox, FrameAncestors, ReportUri, ReportTo, UpgradeInsecureRequests}

  /** Proof helper: the directives of the eight steps are all the directives. */
  lemma StepsCover()
    ensures {DefaultSrc} + FetchDirectives + NonFetchSources + FixedDirectives == AllDirectives
  {
  }

  /** Adding the last five directives one at a time adds `FixedDirectives`. */
  lemma FixedCover(before: set<Directive>)
    ensures before + {Sandbox} + {FrameAncestors} + {ReportUri} + {ReportTo} + {UpgradeInsecureRequests}
      == before + FixedDirectives
  {
  }

  /** Proof helper: one directive is in `AllDirectives`. */
  lemma IsListed(d: Directive)
    ensures d in AllDirectives
  {
  }

  /** The step of `Load` that renders `d`; a failure in an earlier step ends `Load` before `d`
      is rendered. */
  function Step(d: Directive): nat
  {
    match d
    case DefaultSrc => 0
    case BaseUri => 2
    case FormAction => 2
    case Sandbox => 3
    case FrameAncestors => 4
    case ReportUri => 5
    case ReportTo => 6
    case UpgradeInsecureRequests => 7
    case _ => 1
  }

  /** The fetch directives are exactly those of step 1. */
  lemma FetchStep(d: Directive)
    ensures d in FetchDirectives <==> Step(d) == 1
  {
  }

  /** Proof helper: the steps of the directives rendered one at a time. */
  lemma FixedSteps()
    ensures Step(DefaultSrc) == 0 && Step(Sandbox) == 3 && Step(FrameAncestors) == 4
    ensures Step(ReportUri) == 5 && Step(ReportTo) == 6 && Step(UpgradeInsecureRequests) == 7
  {
  }

  /** Proof helper: `base-uri` and `form-action` share the step after the fetch directives. */
  lemma NavigationSteps()
    ensures Step(BaseUri) == 2 && Step(FormAction) == 2
  {
  }

  /** The directives each step of `Load` renders, and the eight steps. */
  lemma StepOwner(d: Directive)
    ensures Step(d) == 0 <==> d == DefaultSrc
    ensures Step(d) == 1 <==> d in FetchDirectives
    ensures Step(d) == 2 <==> d in NonFetchSources
    ensures Step(d) == 3 <==> d == Sandbox
    ensures Step(d) == 4 <==> d == FrameAncestors
    ensures Step(d) == 5 <==> d == ReportUri
    ensures Step(d) == 6 <==> d == ReportTo
    ensures Step(d) == 7 <==> d == UpgradeInsecureRequests
    ensures Step(d) <= 7
  {
  }
}
