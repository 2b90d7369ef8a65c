// The engine object of etemplate.js: the state it keeps between a render and the
// later `sync()` / `syncCss()` calls, and the steps that write that state.

module Engine {
  import opened JsText
  import opened Segmenter
  import opened Blocks
  import opened Anchors
  import opened Interpreter
  import opened Css
  import opened CssSync

  /** The segments `seperateCode(text, mode)` returns. */
  function Separated(text: string, mode: Mode): (s: Segments)
    ensures s.Parallel() && NoAdjacentHtml(s.types)
  {
    var c := Segmenter.Classify(EnginePieces(text), mode);
    Merge(c.types, c.codes)
  }

  /** Segments with their group ids, as `readFurther` hands them to `insertSync`. */
  datatype Prepared = Prepared(types: seq<Kind>, codes: seq<string>, sync: seq<nat>)

  /** When the page opens with a directive, a literal " " with group 0 is put in front
      and every other id moves up by one, so that each anchor has a literal before it. */
  function Lead(types: seq<Kind>, codes: seq<string>, sync: seq<nat>): (p: Prepared)
    requires |types| == |codes| == |sync|
    ensures |p.types| == |p.codes| == |p.sync| >= |types|
    ensures |types| > 0 ==> p.types[0] == Html
  {
    if |types| == 0 || types[0] == Html then Prepared(types, codes, sync)
    else Prepared([Html] + types, [" "] + codes, Shifted(sync))
  }

  /** The ids behind a new leading literal: 0 for it, each old id one up. */
  function Shifted(sync: seq<nat>): (s: seq<nat>)
    ensures |s| == |sync| + 1 && s[0] == 0
    ensures forall k :: 0 <= k < |sync| ==> s[k + 1] == sync[k] + 1
  {
    [0] + seq(|sync|, k requires 0 <= k < |sync| => sync[k] + 1)
  }

  /** The prepared segments open with a literal, keep the originals behind it in
      order, and keep one group id per segment, still starting at 0 and stepping
      by at most one. */
  lemma LeadShape(types: seq<Kind>, codes: seq<string>, sync: seq<nat>)
    requires |types| == |codes| == |sync|
    requires StepsByOne(sync) && (|sync| > 0 ==> sync[0] == 0)
    ensures var p := Lead(types, codes, sync);
      && (|types| > 0 ==> p.sync[0] == 0)
      && p.types[|p.types| - |types|..] == types && p.codes[|p.codes| - |codes|..] == codes
      && StepsByOne(p.sync)
  {
    var p := Lead(types, codes, sync);
    if |types| == 0 || types[0] == Html {
      assert p == Prepared(types, codes, sync);
      assert p.types[0..] == types && p.codes[0..] == codes;
    } else {
      var shifted := Shifted(sync);
      assert p == Prepared([Html] + types, [" "] + codes, shifted);
      assert p.types[1..] == types && p.codes[1..] == codes;
      assert shifted[0] == 0;
      ShiftedSteps(sync);
    }
  }

  /** Putting id 0 in front of ids that start at 0 and moving them up by one keeps
      them stepping by at most one. */
  lemma ShiftedSteps(sync: seq<nat>)
    requires StepsByOne(sync) && (|sync| > 0 ==> sync[0] == 0)
    ensures StepsByOne(Shifted(sync))
  {
    var s := Shifted(sync);
    forall k | 0 < k < |s|
      ensures s[k] == s[k - 1] || s[k] == s[k - 1] + 1
    {
      if k > 1 {
        assert s[k] == sync[k - 1] + 1 && s[k - 1] == sync[k - 2] + 1;
      }
    }
  }

  /** The sheet the browser builds from a serialised rule list. */
  function LiveOf(rules: seq<Rule>): seq<LiveRule>
  {
    seq(|rules|, k requires 0 <= k < |rules| => ToLive(rules[k]))
  }

  /** The segments of a page ready for `insertSync`. */
  function PreparedOf(html: string): (p: Prepared)
    ensures |p.types| == |p.codes| == |p.sync|
    ensures |p.types| > 0 ==> p.types[0] == Html
  {
    var s := Separated(html, Second);
    Lead(s.types, s.codes, SyncFrom(GroupEnds(s.types, s.codes), 0, 0))
  }

  /** What the compile step of a render leaves behind. */
  function Compiled(eval: string -> Completion, eClass: string, html: string, templateInClass: map<nat, string>)
    : (r: Result<(Prepared, Anchoring)>)
    ensures r.Success? ==> |r.value.0.types| == |r.value.0.codes| == |r.value.0.sync|
    ensures r.Success? ==> Fits(r.value.0.types, r.value.1)
  {
    var p := PreparedOf(html);
    match InsertFrom(eval, eClass, p.types, Anchoring(p.codes, p.sync, 0, templateInClass), -1, 0)
    case Failure(e) => Failure(e)
    case Success(a) => Success((p, a))
  }

  /** The `templateInClass` a render leaves in the engine: the anchoring run's
      entries, also when the run throws part way. */
  function ClassesAfter(eval: string -> Completion, eClass: string, html: string, templateInClass: map<nat, string>)
    : map<nat, string>
  {
    var p := PreparedOf(html);
    ClassesKept(eval, eClass, p.types, Anchoring(p.codes, p.sync, 0, templateInClass), -1, 0)
  }

  /** The text the rendered style segments join into. */
  function StyleText(eval: string -> Completion, types: seq<Kind>, codes: seq<string>): string
    requires |types| == |codes|
  {
    Join(Interpreted(eval, types, codes, 0), "")
  }

  /** `readFurther` from `seperateCode` up to the `types[0]` check (etemplate.js:94-103). */
  method Prepare(html: string) returns (p: Prepared)
    ensures p == PreparedOf(html)
  {
    var types, codes := SeparateCode(html, Second);
    var sync := MakeSyncBlock(types, codes);
    if |types| > 0 && types[0] == Js {
      types := [Html] + types;
      codes := [" "] + codes;
      sync := [0] + seq(|sync|, k requires 0 <= k < |sync| => sync[k] + 1);
    }
    p := Prepared(types, codes, sync);
  }

  /** `readFurther` up to `insertSync` (etemplate.js:94-108), with the counter reset by `render` (etemplate.js:41). */
  method Compile(eval: string -> Completion, eClass: string, html: string, templateInClass: map<nat, string>)
    returns (r: Result<(Prepared, Anchoring)>, kept: map<nat, string>)
    ensures r == Compiled(eval, eClass, html, templateInClass)
    ensures kept == ClassesAfter(eval, eClass, html, templateInClass)
  {
    var p := Prepare(html);
    var a;
    a, kept := InsertSync(eval, eClass, p.types, p.codes, p.sync, 0, templateInClass);
    if a.Failure? {
      return Failure(a.error), kept;
    }
    r := Success((p, a.value));
  }

  /** Interpreting the anchored page (etemplate.js:110). Entries `insertSync` appended
      past the last segment have no type, so `interpret` renders nothing for them. */
  method RenderAnchored(eval: string -> Completion, p: Prepared, a: Anchoring) returns (block: seq<string>)
    requires Fits(p.types, a)
    ensures block == Interpreted(eval, p.types, a.code[..|p.types|], 0)
  {
    block := Interpret(eval, p.types, a.code[..|p.types|]);
  }

  /** Interpreting the style segments and parsing the result (etemplate.js:211-212, 1098-1101). */
  method ParseStyle(eval: string -> Completion, m: Matchers, types: seq<Kind>, codes: seq<string>)
    returns (r: Result<seq<Rule>>)
    requires Tame(m) && |types| == |codes|
    ensures r == ParseCssOf(m, Some(StyleText(eval, types, codes)))
  {
    var block := Interpret(eval, types, codes);
    r := ParseCss(m, Some(Join(block, "")));
  }

  /** The page state a render keeps: the anchored segments, their types and group ids,
      the anchor counter and the class templates. */
  datatype PageState = PageState(code: seq<string>, types: seq<Kind>, sync: seq<nat>, syncCnt: nat,
                                 templateInClass: map<nat, string>)

  /** A rendered page: the state kept for `sync()` and the rendered units. */
  datatype Page = Page(state: PageState, block: seq<string>)

  /** The style state: the kept rules, the style segments, the sheet and the calls made on it. */
  datatype StyleState = StyleState(cssRules: seq<Rule>, cssCode: seq<string>, cssType: seq<Kind>,
                                   sheet: seq<LiveRule>, sheetCalls: seq<Op>)

  /** The outcome of the compile step of a render. On success the kept types open with
      a literal, carry one group id each, and the anchored code has at least one entry
      per type. */
  function Rendered(eval: string -> Completion, eClass: string, html: string, templateInClass: map<nat, string>)
    : (r: Result<Page>)
    ensures r.Success? ==>
      var st := r.value.state;
      && st.types == PreparedOf(html).types
      && |st.sync| == |st.types| <= |st.code|
      && (|st.types| > 0 ==> st.types[0] == Html)
  {
    match Compiled(eval, eClass, html, templateInClass)
    case Failure(e) => Failure(e)
    case Success(pa) =>
      var p := pa.0;
      var a := pa.1;
      Success(Page(PageState(a.code, p.types, a.sync, a.syncCnt, a.templateInClass),
                   Interpreted(eval, p.types, a.code[..|p.types|], 0)))
  }

  /** `readFurther` from `seperateCode` on (etemplate.js:94-113). */
  method RenderPage(eval: string -> Completion, eClass: string, html: string, templateInClass: map<nat, string>)
    returns (r: Result<Page>, kept: map<nat, string>)
    ensures r == Rendered(eval, eClass, html, templateInClass)
    ensures kept == ClassesAfter(eval, eClass, html, templateInClass)
  {
    var c;
    c, kept := Compile(eval, eClass, html, templateInClass);
    if c.Failure? {
      return Failure(c.error), kept;
    }
    var p := c.value.0;
    var a := c.value.1;
    var block := RenderAnchored(eval, p, a);
    r := Success(Page(PageState(a.code, p.types, a.sync, a.syncCnt, a.templateInClass), block));
  }

  /** What `changeCss` leaves behind once the styles are fetched: the style segments
      are always kept; the parsed rules are kept when parsing succeeds; the sheet is
      rebuilt from them, with an empty call log, when they serialise to a non-empty
      text. */
  function Loaded(eval: string -> Completion, m: Matchers, st: StyleState, combinedStyle: string)
    : (r: (Result<string>, StyleState))
    requires Tame(m)
    ensures var s := Separated(combinedStyle, Second);
      r.1.cssType == s.types && r.1.cssCode == s.codes
    ensures r.0.Failure? ==> r.1.sheet == st.sheet && r.1.sheetCalls == st.sheetCalls
    ensures ParseCssOf(m, Some(StyleText(eval, r.1.cssType, r.1.cssCode))).Success? ==>
      r.1.cssRules == ParseCssOf(m, Some(StyleText(eval, r.1.cssType, r.1.cssCode))).value
    ensures ParseCssOf(m, Some(StyleText(eval, r.1.cssType, r.1.cssCode))).Failure? ==>
      r.0.Failure? && r.1.cssRules == st.cssRules
  {
    var s := Separated(combinedStyle, Second);
    var st1 := st.(cssCode := s.codes, cssType := s.types);
    match ParseCssOf(m, Some(StyleText(eval, s.types, s.codes)))
    case Failure(e) => (Failure(e), st1)
    case Success(rules) =>
      var text := TextStyle(rules, |rules|);
      if text.Success? && text.value != "" then (text, st1.(cssRules := rules, sheet := LiveOf(rules), sheetCalls := []))
      else (text, st1.(cssRules := rules))
  }

  /** `changeCss` from `seperateCode` on (etemplate.js:1093-1112). */
  method LoadStyle(eval: string -> Completion, m: Matchers, st: StyleState, combinedStyle: string)
    returns (r: Result<string>, st': StyleState)
    requires Tame(m)
    ensures (r, st') == Loaded(eval, m, st, combinedStyle)
  {
    var types, codes := SeparateCode(combinedStyle, Second);
    st' := st.(cssCode := codes, cssType := types);
    var parsed := ParseStyle(eval, m, types, codes);
    if parsed.Failure? {
      return Failure(parsed.error), st';
    }
    var rules := parsed.value;
    st' := st'.(cssRules := rules);
    r := CreateTextStyle(rules);
    if r.Success? && r.value != "" {
      st' := st'.(sheet := LiveOf(rules), sheetCalls := []);
    }
  }

  /** What `syncCss()` leaves behind: the exception it throws, if any, and the new
      style state. Without a directive among the style segments nothing changes. */
  function Resynced(eval: string -> Completion, m: Matchers, st: StyleState): (r: (Option<string>, StyleState))
    requires Tame(m) && |st.cssType| == |st.cssCode|
    ensures Js !in st.cssType ==> r == (None, st)
  {
    if Js !in st.cssType then (None, st)
    else match ParseCssOf(m, Some(StyleText(eval, st.cssType, st.cssCode)))
      case Failure(e) => (Some(e), st)
      case Success(rules) =>
        var run := SyncRun(st.cssRules, rules, st.sheet);
        (run.thrown, st.(cssRules := if run.thrown.None? then rules else st.cssRules,
                         sheet := run.sheet, sheetCalls := st.sheetCalls + run.calls))
  }

  /** `syncCss()` (etemplate.js:205-456) on the style state. */
  method SyncStyle(eval: string -> Completion, m: Matchers, st: StyleState) returns (thrown: Option<string>, st': StyleState)
    requires Tame(m) && |st.cssType| == |st.cssCode|
    ensures (thrown, st') == Resynced(eval, m, st)
  {
    if |st.cssType| == 0 || Js !in st.cssType {
      return None, st;
    }
    var parsed := ParseStyle(eval, m, st.cssType, st.cssCode);
    if parsed.Failure? {
      return Some(parsed.error), st;
    }
    var run := SyncRules(st.cssRules, parsed.value, st.sheet);
    thrown := run.thrown;
    st' := st.(cssRules := if thrown.None? then parsed.value else st.cssRules,
               sheet := run.sheet, sheetCalls := st.sheetCalls + run.calls);
  }

  /** `syncCss()` keeps the style segments; the kept rules change only when nothing
      was thrown, and then become the freshly parsed rules; the calls it makes are
      appended to the log, and they are the calls of the differ: rewrites first, then
      removals from the last old rule to the first, then the queued additions. */
  lemma ResyncedEffect(eval: string -> Completion, m: Matchers, st: StyleState)
    requires Tame(m) && |st.cssType| == |st.cssCode| && Js in st.cssType
    ensures var (thrown, st') := Resynced(eval, m, st);
      var parsed := ParseCssOf(m, Some(StyleText(eval, st.cssType, st.cssCode)));
      && st'.cssType == st.cssType && st'.cssCode == st.cssCode
      && (parsed.Failure? ==> thrown == Some(parsed.error) && st' == st)
      && (parsed.Success? ==>
            && st.sheetCalls <= st'.sheetCalls
            && (thrown.None? ==> st'.cssRules == parsed.value)
            && (thrown.Some? ==> st'.cssRules == st.cssRules)
            && st'.sheetCalls[|st.sheetCalls|..] == SyncRun(st.cssRules, parsed.value, st.sheet).calls)
  {
    var parsed := ParseCssOf(m, Some(StyleText(eval, st.cssType, st.cssCode)));
    if parsed.Success? {
      var run := SyncRun(st.cssRules, parsed.value, st.sheet);
      var st' := Resynced(eval, m, st).1;
      assert st'.sheetCalls == st.sheetCalls + run.calls;
      assert st'.sheetCalls[|st.sheetCalls|..] == run.calls;
    }
  }

  /** The retained state of an `eTemplate` object (etemplate.js:16-29), with the
      style sheet the engine writes (`document.styleSheets[sheetNo]`) as a rule list
      and the calls made on that sheet as a log. */
  class ETemplate {
    var htmlCode: seq<string>
    var htmlType: seq<Kind>
    var htmlSync: seq<nat>
    var cssRules: seq<Rule>
    var cssCode: seq<string>
    var cssType: seq<Kind>
    var syncCnt: nat
    var templateInClass: map<nat, string>
    var sheet: seq<LiveRule>
    var sheetCalls: seq<Op>
    const syncClass: string

    /** The style segments line up one type per code. */
    predicate Valid()
      reads this
    {
      |cssType| == |cssCode|
    }

    /** The fields a render writes. */
    function PageNow(): PageState
      reads this
    {
      PageState(htmlCode, htmlType, htmlSync, syncCnt, templateInClass)
    }

    /** The fields the style steps write. */
    function StyleNow(): StyleState
      reads this
    {
      StyleState(cssRules, cssCode, cssType, sheet, sheetCalls)
    }

    /** A fresh engine keeps nothing. */
    constructor (syncClass: string)
      ensures Valid()
      ensures PageNow() == PageState([], [], [], 0, map[])
      ensures StyleNow() == StyleState([], [], [], [], [])
      ensures this.syncClass == syncClass
    {
      htmlCode := [];
      htmlType := [];
      htmlSync := [];
      cssRules := [];
      cssCode := [];
      cssType := [];
      syncCnt := 0;
      templateInClass := map[];
      sheet := [];
      sheetCalls := [];
      this.syncClass := syncClass;
    }

    /** Writes the page fields. */
    method KeepPage(pg: PageState)
      modifies this
      ensures PageNow() == pg && StyleNow() == old(StyleNow())
    {
      htmlCode, htmlType, htmlSync, syncCnt, templateInClass := pg.code, pg.types, pg.sync, pg.syncCnt, pg.templateInClass;
    }

    /** Writes the style fields. */
    method KeepStyle(st: StyleState)
      modifies this
      ensures StyleNow() == st && PageNow() == old(PageNow())
    {
      cssRules, cssCode, cssType, sheet, sheetCalls := st.cssRules, st.cssCode, st.cssType, st.sheet, st.sheetCalls;
    }

    /** The compile step of `render` and `readFurther` for a page whose includes are
        already resolved: the counter is reset, the page is segmented, grouped,
        anchored and interpreted, and the anchored page is kept for `sync()`. A thrown
        TypeError leaves the counter reset and the `templateInClass` entries the
        anchors wrote before the throw; the rest of the page state stays. */
    method Render(eval: string -> Completion, html: string) returns (r: Result<Page>)
      requires Valid()
      modifies this
      ensures Valid()
      ensures r == Rendered(eval, syncClass, html, old(templateInClass))
      ensures PageNow() == if r.Success? then r.value.state
        else old(PageNow()).(syncCnt := 0, templateInClass := ClassesAfter(eval, syncClass, html, old(templateInClass)))
      ensures StyleNow() == old(StyleNow())
    {
      var kept;
      r, kept := RenderPage(eval, syncClass, html, templateInClass);
      KeepPage(if r.Success? then r.value.state else PageNow().(syncCnt := 0, templateInClass := kept));
    }

    /** `changeCss` once the styles are fetched (etemplate.js:1093-1112). */
    method LoadCss(eval: string -> Completion, m: Matchers, combinedStyle: string) returns (r: Result<string>)
      requires Tame(m)
      modifies this
      ensures Valid()
      ensures (r, StyleNow()) == Loaded(eval, m, old(StyleNow()), combinedStyle)
      ensures PageNow() == old(PageNow())
    {
      var st;
      r, st := LoadStyle(eval, m, StyleNow(), combinedStyle);
      KeepStyle(st);
    }

    /** `syncCss()` (etemplate.js:205-456). */
    method SyncCss(eval: string -> Completion, m: Matchers) returns (thrown: Option<string>)
      requires Valid() && Tame(m)
      modifies this
      ensures Valid()
      ensures (thrown, StyleNow()) == Resynced(eval, m, old(StyleNow()))
      ensures PageNow() == old(PageNow())
    {
      var st;
      thrown, st := SyncStyle(eval, m, StyleNow());
      KeepStyle(st);
    }
  }
}
