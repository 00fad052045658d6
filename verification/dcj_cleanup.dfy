/** The page-cleanup transformer. The before hook removes translation,
    read-aloud, skip-link and quick-exit widgets by selector; the after hook
    removes embeds and scripts-off fallbacks, then rewrites the class
    attribute of every element. The selector-based removal itself belongs to
    the import library and is recorded here as the list of selectors handed
    to it. */
module DcjCleanup {
  import opened JsText
  import opened ClassRewrite

  const BeforeTransform := "beforeTransform"
  const AfterTransform := "afterTransform"

  /** One removal, by the import library, of the elements below `element`
      that match a selector list, or the pass
      over every element that rewrites its class attribute. */
  datatype Step = Remove(selectors: seq<string>) | RewriteClasses

  const TranslateWidget: seq<string> := [".skiptranslate", ".goog-te-gadget", "iframe.VIpgJd-ZVi9od-ORHb-OEVmcd"]
  const ReadSpeaker: seq<string> := ["#listenbutton", "#readspeaker_button1", ".rs_skip", ".rsbtn"]
  const SkipLinks: seq<string> := [".skiplink-container", ".skiplink"]
  const QuickExit: seq<string> := [".quick-exit"]
  const Iframes: seq<string> := ["iframe"]
  const NoscriptAndLinks: seq<string> := ["noscript", "link"]

  const BeforeSteps: seq<Step> := [Remove(TranslateWidget), Remove(ReadSpeaker), Remove(SkipLinks), Remove(QuickExit)]
  const AfterSteps: seq<Step> := [Remove(Iframes), Remove(NoscriptAndLinks), RewriteClasses]

  /** What the transformer does for a hook name, in order. The two
      hook branches are separate `if` statements; at most one of them runs,
      and any other hook name does nothing. */
  function Steps(hookName: string): (r: seq<Step>)
    ensures hookName == BeforeTransform ==> r == BeforeSteps
    ensures hookName == AfterTransform ==> r == AfterSteps
    ensures hookName != BeforeTransform && hookName != AfterTransform ==> r == []
    ensures RewriteClasses in r <==> hookName == AfterTransform
  {
    assert BeforeTransform != AfterTransform by {
      assert BeforeTransform[0] != AfterTransform[0];
    }
    assert RewriteClasses !in BeforeSteps;
    (if hookName == BeforeTransform then BeforeSteps else [])
    + (if hookName == AfterTransform then AfterSteps else [])
  }

  /** An element's `className`: a string for HTML elements, or some other
      value (an SVG element's animated string, say). */
  datatype ClassName = ClassString(s: string) | NotAString

  /** What the rewrite pass does to one element's class attribute. */
  datatype ClassEdit = Untouched | SetClass(value: string) | RemoveClass

  /** The class edit of one element. An empty or non-string `className` is
      skipped. Otherwise the attribute is set to the rewritten string, or
      removed when that string is empty, so a class attribute that is kept
      is never empty and never has white space at either end. */
  function RewriteElement(c: ClassName): (e: ClassEdit)
    ensures e == Untouched <==> c.NotAString? || c.s == []
    ensures e == RemoveClass <==> c.ClassString? && c.s != [] && RewriteClassName(c.s) == []
    ensures e.SetClass? ==> e.value == RewriteClassName(c.s) && e.value != [] && IsTrimmed(e.value) && |e.value| <= |c.s|
  {
    match c
    case NotAString => Untouched
    case ClassString(s) =>
      if s == [] then Untouched
      else
        var r := RewriteClassName(s);
        if r == [] then RemoveClass else SetClass(r)
  }

  /** A class string with nothing to delete and no white space at its ends
      is written back as it is. */
  lemma CleanClassKept(s: string)
    requires s != [] && IsTrimmed(s) && !Contains(s, AemGrid) && !Contains(s, ResponsiveGrid)
    ensures RewriteElement(ClassString(s)) == SetClass(s)
  {
    RewriteFixedPoints(s);
  }

  /** The class edits of a hook over all elements below `element`, in
      document order: each element is rewritten independently by the after
      hook and left alone by every other hook. */
  function ClassEdits(hookName: string, classNames: seq<ClassName>): (r: seq<ClassEdit>)
    ensures |r| == |classNames|
    ensures hookName == AfterTransform ==> forall i :: 0 <= i < |r| ==> r[i] == RewriteElement(classNames[i])
    ensures hookName != AfterTransform ==> forall i :: 0 <= i < |r| ==> r[i] == Untouched
  {
    if RewriteClasses in Steps(hookName) then
      seq(|classNames|, i requires 0 <= i < |classNames| => RewriteElement(classNames[i]))
    else
      seq(|classNames|, i => Untouched)
  }
}
