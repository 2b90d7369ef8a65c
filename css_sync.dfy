/** The rule differ `syncCss`. It compares the rules parsed from the freshly
    interpreted style text with the rules kept from the previous pass, and edits the
    page's live stylesheet in three passes: values of matched declarations are
    rewritten while the new rules are walked, declarations and rules nobody matched
    are removed walking the old rules from the last to the first, and what is new
    is added last, in the order it was found. The live stylesheet is an abstract
    list of rules and every call made on it is logged. */
module CssSync {
  import opened JsText
  import opened Css

  // ---------------------------------------------------------------- the live stylesheet

  /** A rule of the live stylesheet, as far as the differ reads it: a style rule and
      its properties, a grouping rule and its nested rules, or any other rule (a
      keyframes or an import rule), which has neither `style` nor `deleteRule`. */
  datatype LiveRule = LiveStyle(props: seq<Decl>) | LiveGroup(rules: seq<LiveRule>) | LiveOther

  /** One call on the live stylesheet. `rule` indexes the sheet's rules; `sub` indexes
      the nested rules of a group, or is -1 for the rule itself. `InsertRule` carries
      the rule the browser builds from `text`. */
  datatype Op =
    | SetProperty(rule: nat, sub: int, key: string, value: string)
    | RemoveProperty(rule: nat, sub: int, key: string)
    | DeleteRule(rule: nat, sub: int)
    | InsertRule(rule: nat, sub: int, text: string, built: LiveRule)

  /** The `DOMException` of `deleteRule` and `insertRule` for an index out of range. */
  const IndexSizeError: string := "IndexSizeError: the index is not in the allowed range"

  /** The live rule the browser builds from the text of a parsed rule. */
  function ToLive(r: Rule): LiveRule
  {
    match r
    case Style(_, _, ds) => LiveStyle(ds)
    case Group(_, _, subs) => LiveGroup(seq(|subs|, j requires 0 <= j < |subs| => ToLive(subs[j])))
    case Verbatim(_, _, _) => LiveOther
  }

  /** Index of the first element from `c` on that satisfies `p`, or -1: the search
      loops `syncCss` runs over rules, nested rules and declarations. */
  function First<T>(xs: seq<T>, p: T -> bool, c: nat): (k: int)
    requires c <= |xs|
    ensures -1 <= k < |xs|
    ensures k >= 0 ==> c <= k && p(xs[k]) && forall j :: c <= j < k ==> !p(xs[j])
    ensures k < 0 ==> forall j :: c <= j < |xs| ==> !p(xs[j])
    decreases |xs| - c
  {
    if c == |xs| then -1 else if p(xs[c]) then c else First(xs, p, c + 1)
  }

  /** The test of the declaration search: the same key. */
  function KeyIs(key: string): Decl -> bool
  {
    (d: Decl) => d.key == key
  }

  /** The test of the selector search: the same selector, whatever the rule's type. */
  function SelectorIs(selector: string): Rule -> bool
  {
    (r: Rule) => r.selector == selector
  }

  /** The test of the group search: the same type and the same selector. */
  function GroupIs(supports: bool, selector: string): Rule -> bool
  {
    (r: Rule) => r.Group? && r.supports == supports && r.selector == selector
  }

  /** No key occurs twice: the shape of a live style's property list. */
  predicate UniqueKeys(props: seq<Decl>)
  {
    forall a, b :: 0 <= a < b < |props| ==> props[a].key != props[b].key
  }

  /** `style.removeProperty(key)`. */
  function RemoveProp(props: seq<Decl>, key: string): (r: seq<Decl>)
  {
    var k := First(props, KeyIs(key), 0);
    if k < 0 then props else props[..k] + props[k + 1..]
  }

  /** `style.setProperty(key, value)`: an empty value removes the property, an existing
      property takes the new value in place, a new one is appended. */
  function SetProp(props: seq<Decl>, key: string, value: string): (r: seq<Decl>)
  {
    if value == "" then RemoveProp(props, key)
    else
      var k := First(props, KeyIs(key), 0);
      if k < 0 then props + [Decl(key, value)] else props[k := Decl(key, value)]
  }

  /** The elements of `xs` without its element at `k`, by position. */
  lemma WithoutAt<T>(xs: seq<T>, k: nat)
    requires k < |xs|
    ensures forall a :: 0 <= a < k ==> Without(xs, k)[a] == xs[a]
    ensures forall a :: k < a < |xs| ==> Without(xs, k)[a - 1] == xs[a]
  {
  }

  /** After `removeProperty` the key is gone and no key occurs twice. */
  lemma RemovePropDrops(props: seq<Decl>, key: string)
    requires UniqueKeys(props)
    ensures var r := RemoveProp(props, key);
      && UniqueKeys(r)
      && (forall d :: d in r ==> d.key != key)
  {
    var k := First(props, KeyIs(key), 0);
    if k >= 0 {
      var r := Without(props, k);
      WithoutAt(props, k);
      assert props[k].key == key;
      forall a | 0 <= a < |r|
        ensures r[a] == props[if a < k then a else a + 1]
      {
      }
      forall a, b | 0 <= a < b < |r|
        ensures r[a].key != r[b].key
      {
        assert r[a].key == props[if a < k then a else a + 1].key;
        assert r[b].key == props[if b < k then b else b + 1].key;
      }
      forall d | d in r
        ensures d.key != key
      {
        var a :| 0 <= a < |r| && r[a] == d;
        var i := if a < k then a else a + 1;
        assert i != k && props[i] == d;
      }
    }
  }

  /** `removeProperty` keeps every other property and adds none. */
  lemma RemovePropKeeps(props: seq<Decl>, key: string)
    requires UniqueKeys(props)
    ensures var r := RemoveProp(props, key);
      && (forall d :: d in props && d.key != key ==> d in r)
      && (forall d :: d in r ==> d in props)
  {
    var k := First(props, KeyIs(key), 0);
    if k >= 0 {
      assert RemoveProp(props, key) == Without(props, k);
      WithoutKeeps(props, k);
      WithoutAddsNone(props, k);
    }
  }

  /** Removing the entry at `k` keeps every value other than the one at `k`. */
  lemma WithoutKeeps(props: seq<Decl>, k: nat)
    requires k < |props|
    ensures forall d :: d in props && d.key != props[k].key ==> d in Without(props, k)
  {
    var r := Without(props, k);
    WithoutAt(props, k);
    forall d | d in props && d.key != props[k].key
      ensures d in r
    {
      var a :| 0 <= a < |props| && props[a] == d;
      if a < k { assert r[a] == d; } else { assert r[a - 1] == d; }
    }
  }

  /** Removing an entry adds no value. */
  lemma WithoutAddsNone(props: seq<Decl>, k: nat)
    requires k < |props|
    ensures forall d :: d in Without(props, k) ==> d in props
  {
    var r := Without(props, k);
    WithoutAt(props, k);
    forall d | d in r
      ensures d in props
    {
      var a :| 0 <= a < |r| && r[a] == d;
      if a < k { assert props[a] == d; } else { assert props[a + 1] == d; }
    }
  }

  /** After `setProperty` with a non-empty value the key holds exactly that value, and
      every other property stays. */
  lemma SetPropSpec(props: seq<Decl>, key: string, value: string)
    requires UniqueKeys(props) && value != ""
    ensures var r := SetProp(props, key, value);
      && UniqueKeys(r)
      && Decl(key, value) in r
      && (forall d :: d in r && d.key == key ==> d.value == value)
      && (forall d :: d in props && d.key != key ==> d in r)
      && (forall d :: d in r && d.key != key ==> d in props)
  {
    var k := First(props, KeyIs(key), 0);
    var r := SetProp(props, key, value);
    if k < 0 {
      assert r == props + [Decl(key, value)];
      assert r[|props|] == Decl(key, value);
      forall a, b | 0 <= a < b < |r|
        ensures r[a].key != r[b].key
      {
        if b == |props| { assert !KeyIs(key)(props[a]); }
      }
    } else {
      assert r == props[k := Decl(key, value)];
      assert r[k] == Decl(key, value);
      assert forall a :: 0 <= a < |r| && a != k ==> r[a].key != key;
      forall d | d in props && d.key != key
        ensures d in r
      {
        var a :| 0 <= a < |props| && props[a] == d;
        assert r[a] == d;
      }
    }
  }

  /** `cssRules[i].style`, or `cssRules[i].cssRules[sub].style` for `sub >= 0`: reading
      through a missing rule, or a rule without `style`, throws. */
  function StyleOf(sheet: seq<LiveRule>, i: int, sub: int): Result<seq<Decl>>
  {
    if !(0 <= i < |sheet|) then Failure(UndefinedRead)
    else if sub < 0 then
      if sheet[i].LiveStyle? then Success(sheet[i].props) else Failure(UndefinedRead)
    else if sheet[i].LiveGroup? && sub < |sheet[i].rules| && sheet[i].rules[sub].LiveStyle? then
      Success(sheet[i].rules[sub].props)
    else Failure(UndefinedRead)
  }

  /** The sheet with the style `StyleOf` reads replaced by `props`. */
  function WithStyle(sheet: seq<LiveRule>, i: int, sub: int, props: seq<Decl>): seq<LiveRule>
    requires StyleOf(sheet, i, sub).Success?
  {
    if sub < 0 then sheet[i := LiveStyle(props)]
    else sheet[i := LiveGroup(sheet[i].rules[sub := LiveStyle(props)])]
  }

  /** `cssRules[i].cssRules.length`. */
  function NestedCount(sheet: seq<LiveRule>, i: int): Result<nat>
  {
    if 0 <= i < |sheet| && sheet[i].LiveGroup? then Success(|sheet[i].rules|) else Failure(UndefinedRead)
  }

  /** `xs` without its element at `k`. */
  function Without<T>(xs: seq<T>, k: nat): (r: seq<T>)
    requires k < |xs|
    ensures |r| == |xs| - 1
  {
    xs[..k] + xs[k + 1..]
  }

  /** `xs` with `x` inserted at `k`. */
  function Inserted<T>(xs: seq<T>, k: nat, x: T): (r: seq<T>)
    requires k <= |xs|
    ensures |r| == |xs| + 1 && r[k] == x
  {
    xs[..k] + [x] + xs[k..]
  }

  /** The sheet after one call, or the exception the call throws. */
  function Perform(sheet: seq<LiveRule>, op: Op): Result<seq<LiveRule>>
  {
    match op
    case SetProperty(i, sub, key, value) =>
      (match StyleOf(sheet, i, sub)
       case Failure(e) => Failure(e)
       case Success(props) => Success(WithStyle(sheet, i, sub, SetProp(props, key, value))))
    case RemoveProperty(i, sub, key) =>
      (match StyleOf(sheet, i, sub)
       case Failure(e) => Failure(e)
       case Success(props) => Success(WithStyle(sheet, i, sub, RemoveProp(props, key))))
    case DeleteRule(i, sub) =>
      if sub < 0 then
        if i < |sheet| then Success(Without(sheet, i)) else Failure(IndexSizeError)
      else if i < |sheet| && sheet[i].LiveGroup? then
        if sub < |sheet[i].rules| then Success(sheet[i := LiveGroup(Without(sheet[i].rules, sub))])
        else Failure(IndexSizeError)
      else Failure(UndefinedRead)
    case InsertRule(i, sub, _, built) =>
      if sub < 0 then
        if i <= |sheet| then Success(Inserted(sheet, i, built)) else Failure(IndexSizeError)
      else if i < |sheet| && sheet[i].LiveGroup? then
        if sub <= |sheet[i].rules| then Success(sheet[i := LiveGroup(Inserted(sheet[i].rules, sub, built))])
        else Failure(IndexSizeError)
      else Failure(UndefinedRead)
  }

  // ---------------------------------------------------------------- the state of one pass

  /** An entry of `toAdd`: a declaration for an existing rule (`"style"`), or the
      text of a new rule (`"rule"`). `rule` and `sub` index the NEW rules. A queued
      declaration also carries `oldRule` and `oldSub`, the OLD rule (and nested rule,
      or -1) its rule was matched with: `syncCss` does not keep them, and only the
      corrected last pass (`FixedSyncRun`) reads them. */
  datatype Addition =
    | AddStyle(rule: nat, sub: int, style: nat, key: string, value: string, oldRule: nat, oldSub: int)
    | AddRule(rule: nat, sub: int, text: string, built: LiveRule)

  /** What `syncCss` has done so far: the live sheet, the calls made on it, the
      exception that aborted it, `updatedRules` and `toAdd`. Once an exception is
      recorded every later step leaves the run as it is, since the call has ended. */
  datatype Run = Run(sheet: seq<LiveRule>, calls: seq<Op>, thrown: Option<string>,
                     updated: seq<seq<int>>, toAdd: seq<Addition>)

  /** The run before the first rule is looked at. */
  function Start(sheet: seq<LiveRule>): Run
  {
    Run(sheet, [], None, [], [])
  }

  /** A call on the live sheet: logged, and either applied or thrown. */
  function Call(r: Run, op: Op): (r': Run)
    ensures r'.updated == r.updated && r'.toAdd == r.toAdd
    ensures r.thrown.Some? ==> r' == r
    ensures r.thrown.None? ==> r'.calls == r.calls + [op]
  {
    if r.thrown.Some? then r
    else match Perform(r.sheet, op)
      case Success(s) => r.(sheet := s, calls := r.calls + [op])
      case Failure(e) => r.(calls := r.calls + [op], thrown := Some(e))
  }

  /** An exception thrown by the differ itself, reading a field a rule does not have. */
  function Throw(r: Run, e: string): (r': Run)
    ensures r'.calls == r.calls && r'.updated == r.updated && r'.toAdd == r.toAdd && r'.thrown.Some?
  {
    if r.thrown.Some? then r else r.(thrown := Some(e))
  }

  /** `updatedRules.push(t)`. */
  function Record(r: Run, t: seq<int>): (r': Run)
    ensures r'.calls == r.calls && r'.toAdd == r.toAdd && r'.thrown == r.thrown
    ensures r'.updated == if r.thrown.None? then r.updated + [t] else r.updated
  {
    if r.thrown.Some? then r else r.(updated := r.updated + [t])
  }

  /** `toAdd.push(a)`. */
  function Add(r: Run, a: Addition): (r': Run)
    ensures r'.calls == r.calls && r'.updated == r.updated && r'.thrown == r.thrown
    ensures r'.toAdd == if r.thrown.None? then r.toAdd + [a] else r.toAdd
  {
    if r.thrown.Some? then r else r.(toAdd := r.toAdd + [a])
  }

  // ---------------------------------------------------------------- checking for changes

  /** The number recorded with a matched declaration for the type of its rule: 1 for a
      plain rule, 5 for `@font-face`, 4 for `@media`, 12 for `@supports`, and 7 for
      keyframes. */
  function TypeNo(r: Rule): int
  {
    match r
    case Style(_, fontFace, _) => if fontFace then 5 else 1
    case Group(_, supports, _) => if supports then 12 else 4
    case Verbatim(_, _, _) => 7
  }

  /** `rule.rules`, which only a plain or `@font-face` rule has. */
  function DeclsOf(r: Rule): Result<seq<Decl>>
  {
    if r.Style? then Success(r.decls) else Failure(UndefinedRead)
  }

  /** Where declarations are matched: the old rule `ci` and its nested rule `csi` (or
      -1), the type number, and the new rule `i` and its nested rule `j` (or -1). */
  datatype Site = Site(ci: nat, csi: int, typeNo: int, i: nat, j: int)

  /** The new declaration `d`, number `k`, looked up by key among the old declarations
      `ods`: a match is recorded, and written when its value changed; a declaration
      without a match is queued. */
  function MatchDecl(r: Run, ods: seq<Decl>, at: Site, k: nat, d: Decl): Run
  {
    var c := First(ods, KeyIs(d.key), 0);
    if c < 0 then Add(r, AddStyle(at.i, at.j, k, d.key, d.value, at.ci, at.csi))
    else
      var r1 := if ods[c].value != d.value then Call(r, SetProperty(at.ci, at.csi, ods[c].key, d.value)) else r;
      Record(r1, [at.ci, at.csi, c, at.typeNo])
  }

  /** The first `n` new declarations matched. The old declarations are read once per
      new declaration, and reading them throws when the old rule has none. */
  function MatchDecls(r: Run, olds: Result<seq<Decl>>, at: Site, ds: seq<Decl>, n: nat): Run
    requires n <= |ds|
  {
    if n == 0 then r
    else
      var r1 := MatchDecls(r, olds, at, ds, n - 1);
      match olds
      case Failure(e) => Throw(r1, e)
      case Success(ods) => MatchDecl(r1, ods, at, n - 1, ds[n - 1])
  }

  /** The nested rule `sub`, number `j` of the new group `i`, looked up by selector
      among the nested rules `osubs` of the old group `ci`: a match has its
      declarations matched, anything else has its text queued. */
  function DiscoverSub(r: Run, osubs: seq<Rule>, ci: nat, typeNo: int, i: nat, j: nat, sub: Rule): Run
  {
    var c := First(osubs, SelectorIs(sub.selector), 0);
    if c >= 0 then
      (match sub
       case Style(_, _, ds) => MatchDecls(r, DeclsOf(osubs[c]), Site(ci, c, typeNo, i, j), ds, |ds|)
       case _ => Throw(r, UndefinedRead))
    else
      match SubStyleText(sub)
      case Failure(e) => Throw(r, e)
      case Success(t) => Add(r, AddRule(i, j, t, ToLive(sub)))
  }

  /** The first `n` nested rules of a new group discovered. */
  function DiscoverSubs(r: Run, osubs: seq<Rule>, ci: nat, typeNo: int, i: nat, subs: seq<Rule>, n: nat): Run
    requires n <= |subs|
  {
    if n == 0 then r
    else DiscoverSub(DiscoverSubs(r, osubs, ci, typeNo, i, subs, n - 1), osubs, ci, typeNo, i, n - 1, subs[n - 1])
  }

  /** The name of a keyframes text: what precedes its first `{`, trimmed. */
  function FrameName(styles: string): string
  {
    Trim(Substring(styles, 0, IndexOf(styles, "{")))
  }

  /** The keyframes search from `ci` on: the first old keyframes rule with the name, or
      -1. Every rule it passes has its `styles` read before its type is checked, so
      reaching a rule without `styles` throws. */
  function FrameSearch(cRules: seq<Rule>, name: string, ci: nat): (r: Result<int>)
    requires ci <= |cRules|
    ensures r.Success? ==> -1 <= r.value < |cRules|
    ensures r.Success? && r.value >= 0 ==>
      ci <= r.value && cRules[r.value].Verbatim? && cRules[r.value].keyframes && FrameName(cRules[r.value].styles) == name
    decreases |cRules| - ci
  {
    if ci == |cRules| then Success(-1)
    else if !cRules[ci].Verbatim? then Failure(UndefinedRead)
    else if cRules[ci].keyframes && FrameName(cRules[ci].styles) == name then Success(ci)
    else FrameSearch(cRules, name, ci + 1)
  }

  /** The keyframes search throws exactly when a rule without `styles` comes before
      any old keyframes rule with the name. */
  lemma FrameSearchFails(cRules: seq<Rule>, name: string, ci: nat)
    requires ci <= |cRules|
    ensures FrameSearch(cRules, name, ci).Failure? <==>
      exists j :: ci <= j < |cRules| && !cRules[j].Verbatim? && NoFrameBefore(cRules, name, ci, j)
  {
    if FrameSearch(cRules, name, ci).Failure? {
      FrameSearchThrowsAt(cRules, name, ci);
    }
    if exists j :: ci <= j < |cRules| && !cRules[j].Verbatim? && NoFrameBefore(cRules, name, ci, j) {
      var j :| ci <= j < |cRules| && !cRules[j].Verbatim? && NoFrameBefore(cRules, name, ci, j);
      FrameSearchThrowsIf(cRules, name, ci, j);
    }
  }

  /** A keyframes search that throws has passed a rule without `styles`. */
  lemma {:induction false} FrameSearchThrowsAt(cRules: seq<Rule>, name: string, ci: nat)
    requires ci <= |cRules| && FrameSearch(cRules, name, ci).Failure?
    ensures exists j :: ci <= j < |cRules| && !cRules[j].Verbatim? && NoFrameBefore(cRules, name, ci, j)
    decreases |cRules| - ci
  {
    if !cRules[ci].Verbatim? {
      assert NoFrameBefore(cRules, name, ci, ci);
    } else {
      FrameSearchThrowsAt(cRules, name, ci + 1);
      var j :| ci + 1 <= j < |cRules| && !cRules[j].Verbatim? && NoFrameBefore(cRules, name, ci + 1, j);
      assert NoFrameBefore(cRules, name, ci, j);
    }
  }

  /** A rule without `styles` before any keyframes rule with the name makes the search throw. */
  lemma {:induction false} FrameSearchThrowsIf(cRules: seq<Rule>, name: string, ci: nat, j: nat)
    requires ci <= j < |cRules| && !cRules[j].Verbatim? && NoFrameBefore(cRules, name, ci, j)
    ensures FrameSearch(cRules, name, ci).Failure?
    decreases j - ci
  {
    if ci < j && cRules[ci].Verbatim? {
      assert !(cRules[ci].keyframes && FrameName(cRules[ci].styles) == name);
      assert NoFrameBefore(cRules, name, ci + 1, j);
      FrameSearchThrowsIf(cRules, name, ci + 1, j);
    }
  }

  /** No rule from `ci` up to `j` is a keyframes rule with the name. */
  predicate NoFrameBefore(cRules: seq<Rule>, name: string, ci: nat, j: nat)
    requires j <= |cRules|
  {
    forall k :: ci <= k < j ==> !(cRules[k].Verbatim? && cRules[k].keyframes && FrameName(cRules[k].styles) == name)
  }

  /** `s.replace(/\s+|\\n/g, "")`: the text without its white space and without the
      two-character sequences backslash-n. */
  function Squeezed(s: string): (r: string)
    ensures |r| <= |s|
    ensures forall c :: c in r ==> !IsSpace(c)
    decreases |s|
  {
    if |s| == 0 then ""
    else if IsSpace(s[0]) then Squeezed(s[1..])
    else if |s| >= 2 && s[0] == '\\' && s[1] == 'n' then Squeezed(s[2..])
    else [s[0]] + Squeezed(s[1..])
  }

  /** A new keyframes rule: an old one with the same name is replaced when its text
      differs beyond white space, and recorded; otherwise the text is queued. */
  function DiscoverFrames(r: Run, cRules: seq<Rule>, i: nat, styles: string): Run
  {
    match FrameSearch(cRules, FrameName(styles), 0)
    case Failure(e) => Throw(r, e)
    case Success(ci) =>
      if ci < 0 then Add(r, AddRule(i, -1, styles, LiveOther))
      else
        var r1 :=
          if Squeezed(cRules[ci].styles) != Squeezed(styles) then
            Call(Call(r, DeleteRule(ci, -1)), InsertRule(ci, -1, styles, LiveOther))
          else r;
        Record(r1, [ci, -2, 0, 7])
  }

  /** The new rule `rule`, number `i`, compared with the old rules. A group is looked
      up by type and selector, a plain or `@font-face` rule by selector alone; an
      import rule is passed over. */
  function DiscoverRule(r: Run, cRules: seq<Rule>, i: nat, rule: Rule): Run
  {
    match rule
    case Verbatim(_, keyframes, styles) => if keyframes then DiscoverFrames(r, cRules, i, styles) else r
    case Group(selector, supports, subs) =>
      var ci := First(cRules, GroupIs(supports, selector), 0);
      if ci >= 0 then DiscoverSubs(r, cRules[ci].subStyles, ci, TypeNo(rule), i, subs, |subs|)
      else
        (match RuleText(rule)
         case Failure(e) => Throw(r, e)
         case Success(t) => Add(r, AddRule(i, -1, t, ToLive(rule))))
    case Style(selector, _, ds) =>
      var ci := First(cRules, SelectorIs(selector), 0);
      if ci >= 0 then MatchDecls(r, DeclsOf(cRules[ci]), Site(ci, -1, TypeNo(rule), i, -1), ds, |ds|)
      else Add(r, AddRule(i, -1, RuleText(rule).value, ToLive(rule)))
  }

  /** The first `n` new rules compared with the old ones. */
  function Discover(r: Run, cRules: seq<Rule>, cssRules: seq<Rule>, n: nat): Run
    requires n <= |cssRules|
  {
    if n == 0 then r else DiscoverRule(Discover(r, cRules, cssRules, n - 1), cRules, n - 1, cssRules[n - 1])
  }

  // ---------------------------------------------------------------- deleting what nobody matched

  /** The old declaration `d`, number `k` of the old rule `i` (nested rule `sub`, or
      -1): removed from the live rule unless it was recorded. */
  function RemoveStep(r: Run, i: nat, sub: int, typeNo: int, k: nat, d: Decl): Run
  {
    if LastKeyIndex(r.updated, TupleKey([i, sub, k, typeNo]), |r.updated|) < 0 then
      Call(r, RemoveProperty(i, sub, d.key))
    else r
  }

  /** The old declarations from the last down to number `m`, each removed unless
      recorded. */
  function Removed(r: Run, i: nat, sub: int, typeNo: int, ds: seq<Decl>, m: nat): Run
    requires m <= |ds|
    decreases |ds| - m
  {
    if m == |ds| then r else RemoveStep(Removed(r, i, sub, typeNo, ds, m + 1), i, sub, typeNo, m, ds[m])
  }

  /** A live rule whose `style.length` is 0 is deleted. */
  function DeleteIfEmpty(r: Run, i: nat, sub: int): Run
  {
    if r.thrown.Some? then r
    else match StyleOf(r.sheet, i, sub)
      case Failure(e) => Throw(r, e)
      case Success(props) => if |props| == 0 then Call(r, DeleteRule(i, sub)) else r
  }

  /** The old nested rule `sub`, number `j` of the old group `i`, pruned. */
  function PruneSub(r: Run, i: nat, typeNo: int, j: nat, sub: Rule): Run
  {
    match DeclsOf(sub)
    case Failure(e) => Throw(r, e)
    case Success(ds) => DeleteIfEmpty(Removed(r, i, j, typeNo, ds, 0), i, j)
  }

  /** The old nested rules from the last down to number `m` pruned. */
  function PrunedSubs(r: Run, i: nat, typeNo: int, subs: seq<Rule>, m: nat): Run
    requires m <= |subs|
    decreases |subs| - m
  {
    if m == |subs| then r else PruneSub(PrunedSubs(r, i, typeNo, subs, m + 1), i, typeNo, m, subs[m])
  }

  /** A live group whose `cssRules.length` is 0 is deleted. */
  function DeleteIfNoRules(r: Run, i: nat): Run
  {
    if r.thrown.Some? then r
    else match NestedCount(r.sheet, i)
      case Failure(e) => Throw(r, e)
      case Success(n) => if n == 0 then Call(r, DeleteRule(i, -1)) else r
  }

  /** The old rule `rule`, number `i`, pruned by its type. Keyframes and import rules
      are left alone: the branch meant for keyframes tests the type against the
      number 7, which a type string never equals. */
  function PruneRule(r: Run, i: nat, rule: Rule): Run
  {
    match rule
    case Style(_, _, ds) => DeleteIfEmpty(Removed(r, i, -1, TypeNo(rule), ds, 0), i, -1)
    case Group(_, _, subs) => DeleteIfNoRules(PrunedSubs(r, i, TypeNo(rule), subs, 0), i)
    case Verbatim(_, _, _) => r
  }

  /** The old rules from the last down to number `m` pruned. */
  function Pruned(r: Run, cRules: seq<Rule>, m: nat): Run
    requires m <= |cRules|
    decreases |cRules| - m
  {
    if m == |cRules| then r else PruneRule(Pruned(r, cRules, m + 1), m, cRules[m])
  }

  // ---------------------------------------------------------------- adding what is new

  /** The call an entry of `toAdd` makes: `setProperty` on the rule (or nested rule)
      at its NEW index, or `insertRule` there. */
  function AddCall(a: Addition): Op
  {
    match a
    case AddStyle(rule, sub, _, key, value, _, _) => SetProperty(rule, sub, key, value)
    case AddRule(rule, sub, text, built) => InsertRule(rule, sub, text, built)
  }

  /** The first `n` entries of `toAdd` applied, in order. */
  function Applied(r: Run, adds: seq<Addition>, n: nat): Run
    requires n <= |adds|
  {
    if n == 0 then r else Call(Applied(r, adds, n - 1), AddCall(adds[n - 1]))
  }

  /** The three passes of `syncCss` over the old rules `cRules` and the new rules
      `cssRules`, on the live sheet `sheet`. */
  function SyncRun(cRules: seq<Rule>, cssRules: seq<Rule>, sheet: seq<LiveRule>): Run
  {
    var found := Discover(Start(sheet), cRules, cssRules, |cssRules|);
    Applied(Pruned(found, cRules, 0), found.toAdd, |found.toAdd|)
  }

  // ---------------------------------------------------------------- the loops of syncCss

  /** A search loop that stops at the first element satisfying `p`. */
  method FindFirst<T>(xs: seq<T>, p: T -> bool) returns (k: int)
    ensures k == First(xs, p, 0)
  {
    var c := 0;
    while c < |xs|
      invariant c <= |xs| && First(xs, p, c) == First(xs, p, 0)
    {
      if p(xs[c]) {
        return c;
      }
      c := c + 1;
    }
    return -1;
  }

  /** The keyframes search loop. */
  method FindFrame(cRules: seq<Rule>, name: string) returns (r: Result<int>)
    ensures r == FrameSearch(cRules, name, 0)
  {
    var ci := 0;
    while ci < |cRules|
      invariant ci <= |cRules| && FrameSearch(cRules, name, ci) == FrameSearch(cRules, name, 0)
    {
      if !cRules[ci].Verbatim? {
        return Failure(UndefinedRead);
      }
      if cRules[ci].keyframes && FrameName(cRules[ci].styles) == name {
        return Success(ci);
      }
      ci := ci + 1;
    }
    return Success(-1);
  }

  /** The body of the loop over new declarations. */
  method MatchOne(r: Run, ods: seq<Decl>, at: Site, k: nat, d: Decl) returns (r': Run)
    ensures r' == MatchDecl(r, ods, at, k, d)
  {
    var c := FindFirst(ods, KeyIs(d.key));
    if c < 0 {
      return Add(r, AddStyle(at.i, at.j, k, d.key, d.value, at.ci, at.csi));
    }
    r' := r;
    if ods[c].value != d.value {
      r' := Call(r', SetProperty(at.ci, at.csi, ods[c].key, d.value));
    }
    r' := Record(r', [at.ci, at.csi, c, at.typeNo]);
  }

  /** The loop over the new declarations of a matched rule. */
  method MatchAll(r: Run, olds: Result<seq<Decl>>, at: Site, ds: seq<Decl>) returns (r': Run)
    ensures r' == MatchDecls(r, olds, at, ds, |ds|)
  {
    r' := r;
    for k := 0 to |ds|
      invariant r' == MatchDecls(r, olds, at, ds, k)
    {
      match olds {
        case Failure(e) =>
          r' := Throw(r', e);
        case Success(ods) =>
          r' := MatchOne(r', ods, at, k, ds[k]);
      }
    }
  }

  /** The body of the loop over the nested rules of a matched group. */
  method DiscoverSubOne(r: Run, osubs: seq<Rule>, ci: nat, typeNo: int, i: nat, j: nat, sub: Rule) returns (r': Run)
    ensures r' == DiscoverSub(r, osubs, ci, typeNo, i, j, sub)
  {
    var c := FindFirst(osubs, SelectorIs(sub.selector));
    if c >= 0 {
      if sub.Style? {
        r' := MatchAll(r, DeclsOf(osubs[c]), Site(ci, c, typeNo, i, j), sub.decls);
      } else {
        r' := Throw(r, UndefinedRead);
      }
    } else {
      var text := SubStyleText(sub);
      if text.Failure? {
        r' := Throw(r, text.error);
      } else {
        r' := Add(r, AddRule(i, j, text.value, ToLive(sub)));
      }
    }
  }

  /** The loop over the nested rules of a matched group. */
  method DiscoverSubsAll(r: Run, osubs: seq<Rule>, ci: nat, typeNo: int, i: nat, subs: seq<Rule>) returns (r': Run)
    ensures r' == DiscoverSubs(r, osubs, ci, typeNo, i, subs, |subs|)
  {
    r' := r;
    for j := 0 to |subs|
      invariant r' == DiscoverSubs(r, osubs, ci, typeNo, i, subs, j)
    {
      r' := DiscoverSubOne(r', osubs, ci, typeNo, i, j, subs[j]);
    }
  }

  /** The `keyframes` case. */
  method DiscoverFramesOne(r: Run, cRules: seq<Rule>, i: nat, styles: string) returns (r': Run)
    ensures r' == DiscoverFrames(r, cRules, i, styles)
  {
    var found := FindFrame(cRules, FrameName(styles));
    if found.Failure? {
      return Throw(r, found.error);
    }
    var ci := found.value;
    if ci < 0 {
      return Add(r, AddRule(i, -1, styles, LiveOther));
    }
    r' := r;
    if Squeezed(cRules[ci].styles) != Squeezed(styles) {
      r' := Call(r', DeleteRule(ci, -1));
      r' := Call(r', InsertRule(ci, -1, styles, LiveOther));
    }
    r' := Record(r', [ci, -2, 0, 7]);
  }

  /** The body of the loop over the new rules: the `switch` on the rule's type. */
  method DiscoverOne(r: Run, cRules: seq<Rule>, i: nat, rule: Rule) returns (r': Run)
    ensures r' == DiscoverRule(r, cRules, i, rule)
  {
    match rule {
      case Verbatim(_, keyframes, styles) =>
        if keyframes {
          r' := DiscoverFramesOne(r, cRules, i, styles);
        } else {
          r' := r;
        }
      case Group(selector, supports, subs) =>
        var ci := FindFirst(cRules, GroupIs(supports, selector));
        if ci >= 0 {
          r' := DiscoverSubsAll(r, cRules[ci].subStyles, ci, TypeNo(rule), i, subs);
        } else {
          var text := RuleText(rule);
          if text.Failure? {
            r' := Throw(r, text.error);
          } else {
            r' := Add(r, AddRule(i, -1, text.value, ToLive(rule)));
          }
        }
      case Style(selector, _, ds) =>
        var ci := FindFirst(cRules, SelectorIs(selector));
        if ci >= 0 {
          r' := MatchAll(r, DeclsOf(cRules[ci]), Site(ci, -1, TypeNo(rule), i, -1), ds);
        } else {
          r' := Add(r, AddRule(i, -1, RuleText(rule).value, ToLive(rule)));
        }
    }
  }

  /** The loop over the new rules. */
  method DiscoverAll(r: Run, cRules: seq<Rule>, cssRules: seq<Rule>) returns (r': Run)
    ensures r' == Discover(r, cRules, cssRules, |cssRules|)
  {
    r' := r;
    for i := 0 to |cssRules|
      invariant r' == Discover(r, cRules, cssRules, i)
    {
      r' := DiscoverOne(r', cRules, i, cssRules[i]);
    }
  }

  /** The loop over the declarations of an old rule, from the last to the first. */
  method RemoveAll(r: Run, i: nat, sub: int, typeNo: int, ds: seq<Decl>) returns (r': Run)
    ensures r' == Removed(r, i, sub, typeNo, ds, 0)
  {
    r' := r;
    var k := |ds|;
    while k > 0
      invariant 0 <= k <= |ds| && r' == Removed(r, i, sub, typeNo, ds, k)
    {
      k := k - 1;
      var isUpdated := ArrayFind(r'.updated, [i, sub, k, typeNo]);
      if isUpdated < 0 {
        r' := Call(r', RemoveProperty(i, sub, ds[k].key));
      }
    }
  }

  /** `style.length == 0` read from the live rule, then `deleteRule`. */
  method DeleteEmpty(r: Run, i: nat, sub: int) returns (r': Run)
    ensures r' == DeleteIfEmpty(r, i, sub)
  {
    if r.thrown.Some? {
      return r;
    }
    var style := StyleOf(r.sheet, i, sub);
    if style.Failure? {
      return Throw(r, style.error);
    }
    r' := r;
    if |style.value| == 0 {
      r' := Call(r, DeleteRule(i, sub));
    }
  }

  /** The loop over the nested rules of an old group, from the last to the first. */
  method PruneSubsAll(r: Run, i: nat, typeNo: int, subs: seq<Rule>) returns (r': Run)
    ensures r' == PrunedSubs(r, i, typeNo, subs, 0)
  {
    r' := r;
    var j := |subs|;
    while j > 0
      invariant 0 <= j <= |subs| && r' == PrunedSubs(r, i, typeNo, subs, j)
    {
      j := j - 1;
      var decls := DeclsOf(subs[j]);
      if decls.Failure? {
        r' := Throw(r', decls.error);
      } else {
        r' := RemoveAll(r', i, j, typeNo, decls.value);
        r' := DeleteEmpty(r', i, j);
      }
    }
  }

  /** The body of the loop over the old rules: the `switch` on the rule's type. */
  method PruneOne(r: Run, i: nat, rule: Rule) returns (r': Run)
    ensures r' == PruneRule(r, i, rule)
  {
    match rule {
      case Style(_, _, ds) =>
        r' := RemoveAll(r, i, -1, TypeNo(rule), ds);
        r' := DeleteEmpty(r', i, -1);
      case Group(_, _, subs) =>
        r' := PruneSubsAll(r, i, TypeNo(rule), subs);
        if r'.thrown.None? {
          var count := NestedCount(r'.sheet, i);
          if count.Failure? {
            r' := Throw(r', count.error);
          } else if count.value == 0 {
            r' := Call(r', DeleteRule(i, -1));
          }
        }
      case Verbatim(_, _, _) =>
        r' := r;
    }
  }

  /** The loop over the old rules, from the last to the first. */
  method PruneAll(r: Run, cRules: seq<Rule>) returns (r': Run)
    ensures r' == Pruned(r, cRules, 0)
  {
    r' := r;
    var i := |cRules|;
    while i > 0
      invariant 0 <= i <= |cRules| && r' == Pruned(r, cRules, i)
    {
      i := i - 1;
      r' := PruneOne(r', i, cRules[i]);
    }
  }

  /** The loop over `toAdd`. */
  method ApplyAll(r: Run, adds: seq<Addition>) returns (r': Run)
    ensures r' == Applied(r, adds, |adds|)
  {
    r' := r;
    for n := 0 to |adds|
      invariant r' == Applied(r, adds, n)
    {
      r' := Call(r', AddCall(adds[n]));
    }
  }

  /** The three passes of `syncCss`, from the live sheet `sheet`. */
  method SyncRules(cRules: seq<Rule>, cssRules: seq<Rule>, sheet: seq<LiveRule>) returns (r: Run)
    ensures r == SyncRun(cRules, cssRules, sheet)
  {
    var found := DiscoverAll(Start(sheet), cRules, cssRules);
    r := PruneAll(found, cRules);
    r := ApplyAll(r, found.toAdd);
  }

  // ---------------------------------------------------------------- what the first pass calls

  /** The declarations of the old rule `ci`, or of its nested rule `sub` when `sub >= 0`;
      none when there is no such plain rule. */
  function OldDecls(cRules: seq<Rule>, ci: int, sub: int): seq<Decl>
  {
    if !(0 <= ci < |cRules|) then []
    else if sub < 0 then (if cRules[ci].Style? then cRules[ci].decls else [])
    else if cRules[ci].Group? && sub < |cRules[ci].subStyles| && cRules[ci].subStyles[sub].Style? then
      cRules[ci].subStyles[sub].decls
    else []
  }

  /** A keyframes rule. */
  predicate IsFrames(r: Rule)
  {
    r.Verbatim? && r.keyframes
  }

  /** A call the first pass may make: a CHANGED value written over an old declaration
      with the key, or an old keyframes rule deleted and, in its place, a new text
      inserted that differs from it beyond white space. */
  predicate Rewrite(cRules: seq<Rule>, c: Op)
  {
    match c
    case SetProperty(ci, sub, key, value) =>
      exists d :: d in OldDecls(cRules, ci, sub) && d.key == key && d.value != value
    case DeleteRule(ci, sub) => sub == -1 && ci < |cRules| && IsFrames(cRules[ci])
    case InsertRule(ci, sub, text, built) =>
      sub == -1 && ci < |cRules| && IsFrames(cRules[ci]) && built == LiveOther
      && Squeezed(cRules[ci].styles) != Squeezed(text)
    case RemoveProperty(_, _, _) => false
  }

  /** `after` is `before` followed by calls of the first pass only. */
  predicate Rewrites(cRules: seq<Rule>, before: seq<Op>, after: seq<Op>)
  {
    before <= after && forall k :: |before| <= k < |after| ==> Rewrite(cRules, after[k])
  }

  lemma RewritesChain(cRules: seq<Rule>, a: seq<Op>, b: seq<Op>, c: seq<Op>)
    requires Rewrites(cRules, a, b) && Rewrites(cRules, b, c)
    ensures Rewrites(cRules, a, c)
  {
  }

  /** Matching one declaration writes only a changed value. */
  lemma MatchDeclRewrites(cRules: seq<Rule>, r: Run, ods: seq<Decl>, at: Site, k: nat, d: Decl)
    requires ods == OldDecls(cRules, at.ci, at.csi)
    ensures Rewrites(cRules, r.calls, MatchDecl(r, ods, at, k, d).calls)
  {
    var c := First(ods, KeyIs(d.key), 0);
    if c >= 0 && ods[c].value != d.value {
      assert ods[c] in ods && ods[c].key == d.key;
      assert Rewrite(cRules, SetProperty(at.ci, at.csi, ods[c].key, d.value));
    }
  }

  lemma {:induction false} MatchDeclsRewrites(cRules: seq<Rule>, r: Run, olds: Result<seq<Decl>>, at: Site, ds: seq<Decl>, n: nat)
    requires n <= |ds|
    requires olds.Success? ==> olds.value == OldDecls(cRules, at.ci, at.csi)
    ensures Rewrites(cRules, r.calls, MatchDecls(r, olds, at, ds, n).calls)
  {
    if n > 0 {
      MatchDeclsRewrites(cRules, r, olds, at, ds, n - 1);
      var r1 := MatchDecls(r, olds, at, ds, n - 1);
      if olds.Success? {
        MatchDeclRewrites(cRules, r1, olds.value, at, n - 1, ds[n - 1]);
      }
    }
  }

  lemma DiscoverSubRewrites(cRules: seq<Rule>, r: Run, ci: nat, typeNo: int, i: nat, j: nat, sub: Rule)
    requires ci < |cRules| && cRules[ci].Group?
    ensures Rewrites(cRules, r.calls, DiscoverSub(r, cRules[ci].subStyles, ci, typeNo, i, j, sub).calls)
  {
    var osubs := cRules[ci].subStyles;
    var c := First(osubs, SelectorIs(sub.selector), 0);
    if c >= 0 && sub.Style? {
      MatchDeclsRewrites(cRules, r, DeclsOf(osubs[c]), Site(ci, c, typeNo, i, j), sub.decls, |sub.decls|);
    }
  }

  lemma {:induction false} DiscoverSubsRewrites(cRules: seq<Rule>, r: Run, ci: nat, typeNo: int, i: nat, subs: seq<Rule>, n: nat)
    requires ci < |cRules| && cRules[ci].Group? && n <= |subs|
    ensures Rewrites(cRules, r.calls, DiscoverSubs(r, cRules[ci].subStyles, ci, typeNo, i, subs, n).calls)
  {
    if n > 0 {
      DiscoverSubsRewrites(cRules, r, ci, typeNo, i, subs, n - 1);
      DiscoverSubRewrites(cRules, DiscoverSubs(r, cRules[ci].subStyles, ci, typeNo, i, subs, n - 1), ci, typeNo, i, n - 1, subs[n - 1]);
    }
  }

  lemma ReplaceRewrites(cRules: seq<Rule>, r: Run, ci: nat, styles: string)
    requires ci < |cRules| && IsFrames(cRules[ci]) && Squeezed(cRules[ci].styles) != Squeezed(styles)
    ensures Rewrites(cRules, r.calls, Call(Call(r, DeleteRule(ci, -1)), InsertRule(ci, -1, styles, LiveOther)).calls)
  {
    var r1 := Call(r, DeleteRule(ci, -1));
    assert Rewrites(cRules, r.calls, r1.calls);
    assert Rewrites(cRules, r1.calls, Call(r1, InsertRule(ci, -1, styles, LiveOther)).calls);
  }

  lemma DiscoverFramesRewrites(cRules: seq<Rule>, r: Run, i: nat, styles: string)
    ensures Rewrites(cRules, r.calls, DiscoverFrames(r, cRules, i, styles).calls)
  {
    var found := FrameSearch(cRules, FrameName(styles), 0);
    if found.Success? && found.value >= 0 {
      var ci := found.value;
      if Squeezed(cRules[ci].styles) != Squeezed(styles) {
        ReplaceRewrites(cRules, r, ci, styles);
      }
    }
  }

  lemma DiscoverRuleRewrites(cRules: seq<Rule>, r: Run, i: nat, rule: Rule)
    ensures Rewrites(cRules, r.calls, DiscoverRule(r, cRules, i, rule).calls)
  {
    match rule {
      case Verbatim(_, _, styles) =>
        DiscoverFramesRewrites(cRules, r, i, styles);
      case Group(selector, supports, subs) =>
        var ci := First(cRules, GroupIs(supports, selector), 0);
        if ci >= 0 {
          DiscoverSubsRewrites(cRules, r, ci, TypeNo(rule), i, subs, |subs|);
        }
      case Style(selector, _, ds) =>
        var ci := First(cRules, SelectorIs(selector), 0);
        if ci >= 0 {
          MatchDeclsRewrites(cRules, r, DeclsOf(cRules[ci]), Site(ci, -1, TypeNo(rule), i, -1), ds, |ds|);
        }
    }
  }

  /** The first pass calls nothing but rewrites: a property is written only when its
      value changed, and an old keyframes rule is replaced only when its text changed
      beyond white space. */
  lemma {:induction false} DiscoverRewrites(r: Run, cRules: seq<Rule>, cssRules: seq<Rule>, n: nat)
    requires n <= |cssRules|
    ensures Rewrites(cRules, r.calls, Discover(r, cRules, cssRules, n).calls)
  {
    if n > 0 {
      DiscoverRewrites(r, cRules, cssRules, n - 1);
      DiscoverStepRewrites(r, cRules, cssRules, n);
      RewritesChain(cRules, r.calls, Discover(r, cRules, cssRules, n - 1).calls, Discover(r, cRules, cssRules, n).calls);
    }
  }

  /** Comparing one more new rule only adds rewrites. */
  lemma DiscoverStepRewrites(r: Run, cRules: seq<Rule>, cssRules: seq<Rule>, n: nat)
    requires 0 < n <= |cssRules|
    ensures Rewrites(cRules, Discover(r, cRules, cssRules, n - 1).calls, Discover(r, cRules, cssRules, n).calls)
  {
    var before := Discover(r, cRules, cssRules, n - 1);
    assert Discover(r, cRules, cssRules, n) == DiscoverRule(before, cRules, n - 1, cssRules[n - 1]);
    DiscoverRuleRewrites(cRules, before, n - 1, cssRules[n - 1]);
  }

  // ---------------------------------------------------------------- what the deletion pass calls

  /** A call the deletion pass may make on the old rule `i`, which is a plain rule or a
      group (never a keyframes or an import rule): an old declaration that no new
      declaration was matched with (its tuple is not in `updated`) is removed, or the
      rule or one of its nested rules is deleted. */
  predicate Prune(cRules: seq<Rule>, updated: seq<seq<int>>, i: nat, c: Op)
  {
    && c.rule == i && i < |cRules| && !cRules[i].Verbatim?
    && match c
       case RemoveProperty(_, sub, key) =>
         exists k :: 0 <= k < |OldDecls(cRules, i, sub)| && OldDecls(cRules, i, sub)[k].key == key
           && [i, sub, k, TypeNo(cRules[i])] !in updated
       case DeleteRule(_, sub) => sub == -1 || (cRules[i].Group? && sub < |cRules[i].subStyles|)
       case _ => false
  }

  /** `after` is `before` followed by deletion calls on the old rule `i` only. */
  predicate Prunes(cRules: seq<Rule>, updated: seq<seq<int>>, i: nat, before: seq<Op>, after: seq<Op>)
  {
    before <= after && forall k :: |before| <= k < |after| ==> Prune(cRules, updated, i, after[k])
  }

  lemma PrunesChain(cRules: seq<Rule>, updated: seq<seq<int>>, i: nat, a: seq<Op>, b: seq<Op>, c: seq<Op>)
    requires Prunes(cRules, updated, i, a, b) && Prunes(cRules, updated, i, b, c)
    ensures Prunes(cRules, updated, i, a, c)
  {
  }

  /** One old declaration: removed only when unrecorded. */
  lemma RemoveStepPrunes(cRules: seq<Rule>, r: Run, i: nat, sub: int, k: nat)
    requires i < |cRules| && !cRules[i].Verbatim? && k < |OldDecls(cRules, i, sub)|
    ensures var r' := RemoveStep(r, i, sub, TypeNo(cRules[i]), k, OldDecls(cRules, i, sub)[k]);
      r'.updated == r.updated && r'.toAdd == r.toAdd && Prunes(cRules, r.updated, i, r.calls, r'.calls)
  {
    var t := [i, sub, k, TypeNo(cRules[i])];
    if LastKeyIndex(r.updated, TupleKey(t), |r.updated|) < 0 {
      LastKeyIndexFinds(r.updated, t, |r.updated|);
      assert t !in r.updated;
      assert Prune(cRules, r.updated, i, RemoveProperty(i, sub, OldDecls(cRules, i, sub)[k].key));
    }
  }

  lemma {:induction false} RemovedPrunes(cRules: seq<Rule>, r: Run, i: nat, sub: int, m: nat)
    requires i < |cRules| && !cRules[i].Verbatim? && m <= |OldDecls(cRules, i, sub)|
    ensures var r' := Removed(r, i, sub, TypeNo(cRules[i]), OldDecls(cRules, i, sub), m);
      r'.updated == r.updated && r'.toAdd == r.toAdd && Prunes(cRules, r.updated, i, r.calls, r'.calls)
    decreases |OldDecls(cRules, i, sub)| - m
  {
    var ds := OldDecls(cRules, i, sub);
    if m < |ds| {
      RemovedPrunes(cRules, r, i, sub, m + 1);
      var r1 := Removed(r, i, sub, TypeNo(cRules[i]), ds, m + 1);
      RemoveStepPrunes(cRules, r1, i, sub, m);
      PrunesChain(cRules, r.updated, i, r.calls, r1.calls, RemoveStep(r1, i, sub, TypeNo(cRules[i]), m, ds[m]).calls);
    }
  }

  lemma DeleteIfEmptyPrunes(cRules: seq<Rule>, r: Run, i: nat, sub: int)
    requires i < |cRules| && !cRules[i].Verbatim?
    requires sub == -1 || (cRules[i].Group? && sub < |cRules[i].subStyles|)
    ensures var r' := DeleteIfEmpty(r, i, sub);
      r'.updated == r.updated && r'.toAdd == r.toAdd && Prunes(cRules, r.updated, i, r.calls, r'.calls)
  {
    assert Prune(cRules, r.updated, i, DeleteRule(i, sub));
  }

  lemma PruneSubPrunes(cRules: seq<Rule>, r: Run, i: nat, j: nat)
    requires i < |cRules| && cRules[i].Group? && j < |cRules[i].subStyles|
    ensures var r' := PruneSub(r, i, TypeNo(cRules[i]), j, cRules[i].subStyles[j]);
      r'.updated == r.updated && r'.toAdd == r.toAdd && Prunes(cRules, r.updated, i, r.calls, r'.calls)
  {
    var sub := cRules[i].subStyles[j];
    if sub.Style? {
      assert sub.decls == OldDecls(cRules, i, j);
      RemovedPrunes(cRules, r, i, j, 0);
      var r1 := Removed(r, i, j, TypeNo(cRules[i]), sub.decls, 0);
      DeleteIfEmptyPrunes(cRules, r1, i, j);
    }
  }

  lemma {:induction false} PrunedSubsPrunes(cRules: seq<Rule>, r: Run, i: nat, m: nat)
    requires i < |cRules| && cRules[i].Group? && m <= |cRules[i].subStyles|
    ensures var r' := PrunedSubs(r, i, TypeNo(cRules[i]), cRules[i].subStyles, m);
      r'.updated == r.updated && r'.toAdd == r.toAdd && Prunes(cRules, r.updated, i, r.calls, r'.calls)
    decreases |cRules[i].subStyles| - m
  {
    var subs := cRules[i].subStyles;
    if m < |subs| {
      PrunedSubsPrunes(cRules, r, i, m + 1);
      var r1 := PrunedSubs(r, i, TypeNo(cRules[i]), subs, m + 1);
      PruneSubPrunes(cRules, r1, i, m);
      PrunesChain(cRules, r.updated, i, r.calls, r1.calls, PruneSub(r1, i, TypeNo(cRules[i]), m, subs[m]).calls);
    }
  }

  lemma PruneRulePrunes(cRules: seq<Rule>, r: Run, i: nat)
    requires i < |cRules|
    ensures var r' := PruneRule(r, i, cRules[i]);
      r'.updated == r.updated && r'.toAdd == r.toAdd && Prunes(cRules, r.updated, i, r.calls, r'.calls)
  {
    var rule := cRules[i];
    match rule {
      case Style(_, _, ds) =>
        assert ds == OldDecls(cRules, i, -1);
        RemovedPrunes(cRules, r, i, -1, 0);
        DeleteIfEmptyPrunes(cRules, Removed(r, i, -1, TypeNo(rule), ds, 0), i, -1);
      case Group(_, _, subs) =>
        PrunedSubsPrunes(cRules, r, i, 0);
        var r1 := PrunedSubs(r, i, TypeNo(rule), subs, 0);
        assert Prune(cRules, r.updated, i, DeleteRule(i, -1));
      case Verbatim(_, _, _) =>
    }
  }

  /** The deletion pass leaves `updatedRules` and `toAdd` as they are; every call it
      makes is a deletion call on an old plain rule or group, so old keyframes and
      import rules are never deleted; and the calls go from the last old rule to the
      first. */
  lemma {:induction false} PrunedCalls(r: Run, cRules: seq<Rule>, m: nat)
    requires m <= |cRules|
    ensures var r' := Pruned(r, cRules, m);
      && r'.updated == r.updated && r'.toAdd == r.toAdd && r.calls <= r'.calls
      && (forall k :: |r.calls| <= k < |r'.calls| ==>
            m <= r'.calls[k].rule && Prune(cRules, r.updated, r'.calls[k].rule, r'.calls[k]))
      && (forall a, b :: |r.calls| <= a < b < |r'.calls| ==> r'.calls[a].rule >= r'.calls[b].rule)
    decreases |cRules| - m
  {
    if m < |cRules| {
      PrunedCalls(r, cRules, m + 1);
      var r1 := Pruned(r, cRules, m + 1);
      PruneRulePrunes(cRules, r1, m);
    }
  }

  // ---------------------------------------------------------------- what the deletion pass must call

  /** The removals the deletion pass owes the old declarations from number `m` on, in
      the order it walks them (from the last down): one `removeProperty` for each
      declaration whose tuple is not in `updated`, and nothing else. */
  function Removals(updated: seq<seq<int>>, i: nat, sub: int, typeNo: int, ds: seq<Decl>, m: nat): (calls: seq<Op>)
    requires m <= |ds|
    ensures forall k :: m <= k < |ds| && [i, sub, k, typeNo] !in updated ==> RemoveProperty(i, sub, ds[k].key) in calls
    ensures forall c :: c in calls ==> c.RemoveProperty? && c.rule == i && c.sub == sub
    decreases |ds| - m
  {
    if m == |ds| then []
    else
      Removals(updated, i, sub, typeNo, ds, m + 1)
        + (if [i, sub, m, typeNo] in updated then [] else [RemoveProperty(i, sub, ds[m].key)])
  }

  /** One old declaration: if nothing is thrown, it is removed exactly when its tuple
      is not recorded. */
  lemma RemoveStepRemoves(r: Run, i: nat, sub: int, typeNo: int, k: nat, d: Decl)
    ensures var r' := RemoveStep(r, i, sub, typeNo, k, d);
      && r'.updated == r.updated && r'.toAdd == r.toAdd
      && (r'.thrown.None? ==> r.thrown.None?)
      && (r'.thrown.None? ==>
            r'.calls == r.calls + if [i, sub, k, typeNo] in r.updated then [] else [RemoveProperty(i, sub, d.key)])
  {
    LastKeyIndexFinds(r.updated, [i, sub, k, typeNo], |r.updated|);
  }

  /** If nothing is thrown, the old declarations from number `m` on cost exactly the
      removals owed to them. */
  lemma {:induction false} RemovedCalls(r: Run, i: nat, sub: int, typeNo: int, ds: seq<Decl>, m: nat)
    requires m <= |ds|
    ensures var r' := Removed(r, i, sub, typeNo, ds, m);
      && r'.updated == r.updated && r'.toAdd == r.toAdd
      && (r'.thrown.None? ==> r.thrown.None? && r'.calls == r.calls + Removals(r.updated, i, sub, typeNo, ds, m))
    decreases |ds| - m
  {
    if m < |ds| {
      RemovedCalls(r, i, sub, typeNo, ds, m + 1);
      var r1 := Removed(r, i, sub, typeNo, ds, m + 1);
      RemoveStepRemoves(r1, i, sub, typeNo, m, ds[m]);
      var tail := Removals(r.updated, i, sub, typeNo, ds, m + 1);
      var step := if [i, sub, m, typeNo] in r.updated then [] else [RemoveProperty(i, sub, ds[m].key)];
      assert r.calls + tail + step == r.calls + (tail + step);
    }
  }

  /** A style checked for emptiness: if nothing is thrown, `deleteRule` is called
      exactly when the live style has no declaration left, and nothing else is
      called. */
  lemma DeleteIfEmptyExact(r: Run, i: nat, sub: int)
    ensures var r' := DeleteIfEmpty(r, i, sub);
      && r'.updated == r.updated && r'.toAdd == r.toAdd
      && (r'.thrown.None? ==> r.thrown.None? && StyleOf(r.sheet, i, sub).Success?)
      && (r'.thrown.None? ==>
            r'.calls == r.calls + if StyleOf(r.sheet, i, sub).value == [] then [DeleteRule(i, sub)] else [])
  {
  }

  /** A style of the old rules pruned (the rule `i` itself when `sub` is -1, else its
      nested rule `sub`): if nothing is thrown, the calls are the removals owed to its
      declarations, then `deleteRule` exactly when the live style has no declaration
      left after them. */
  lemma StylePruned(r: Run, i: nat, sub: int, typeNo: int, ds: seq<Decl>)
    ensures var r1 := Removed(r, i, sub, typeNo, ds, 0);
      var r' := DeleteIfEmpty(r1, i, sub);
      && r'.updated == r.updated && r'.toAdd == r.toAdd
      && (r'.thrown.None? ==> r.thrown.None? && StyleOf(r1.sheet, i, sub).Success?)
      && (r'.thrown.None? ==>
            r'.calls == r.calls + Removals(r.updated, i, sub, typeNo, ds, 0)
                        + if StyleOf(r1.sheet, i, sub).value == [] then [DeleteRule(i, sub)] else [])
  {
    RemovedCalls(r, i, sub, typeNo, ds, 0);
    DeleteIfEmptyExact(Removed(r, i, sub, typeNo, ds, 0), i, sub);
  }

  /** The old plain rule `i` pruned: if nothing is thrown, `deleteRule(i)` is called
      exactly when the live rule has no declaration left after the removals. */
  lemma PruneStyleDeletes(cRules: seq<Rule>, r: Run, i: nat)
    requires i < |cRules| && cRules[i].Style?
    ensures var r1 := Removed(r, i, -1, TypeNo(cRules[i]), cRules[i].decls, 0);
      var r' := PruneRule(r, i, cRules[i]);
      r'.thrown.None? ==>
        && StyleOf(r1.sheet, i, -1).Success? && r.calls <= r'.calls
        && (DeleteRule(i, -1) in r'.calls[|r.calls|..] <==> StyleOf(r1.sheet, i, -1).value == [])
  {
    var typeNo, ds := TypeNo(cRules[i]), cRules[i].decls;
    var r1 := Removed(r, i, -1, typeNo, ds, 0);
    var r' := PruneRule(r, i, cRules[i]);
    assert r' == DeleteIfEmpty(r1, i, -1);
    StylePruned(r, i, -1, typeNo, ds);
    if r'.thrown.None? {
      var owed := Removals(r.updated, i, -1, typeNo, ds, 0);
      EndsWithDelete(r.calls, r'.calls, owed, DeleteRule(i, -1), StyleOf(r1.sheet, i, -1).value == []);
    }
  }

  /** Calls made of the ones before, then removals, then possibly one `deleteRule`:
      the `deleteRule` is among the new calls exactly when it was made. */
  lemma EndsWithDelete(calls: seq<Op>, calls': seq<Op>, owed: seq<Op>, del: Op, made: bool)
    requires calls' == calls + owed + (if made then [del] else [])
    requires del.DeleteRule? && forall c :: c in owed ==> c.RemoveProperty?
    ensures calls <= calls' && (del in calls'[|calls|..] <==> made)
  {
    assert calls'[|calls|..] == owed + (if made then [del] else []);
  }

  /** The nested rule `j` of the old group `i` pruned: if nothing is thrown, it is a
      plain style and the calls are its owed removals, then `deleteRule(j)` on the
      group exactly when the live nested style has no declaration left after them. */
  lemma PruneSubExact(r: Run, i: nat, typeNo: int, j: nat, sub: Rule)
    ensures var r' := PruneSub(r, i, typeNo, j, sub);
      && r'.updated == r.updated && r'.toAdd == r.toAdd
      && (r'.thrown.None? ==> r.thrown.None? && sub.Style?)
      && (r'.thrown.None? ==>
            var r1 := Removed(r, i, j, typeNo, sub.decls, 0);
            && StyleOf(r1.sheet, i, j).Success?
            && r'.calls == r.calls + Removals(r.updated, i, j, typeNo, sub.decls, 0)
                           + if StyleOf(r1.sheet, i, j).value == [] then [DeleteRule(i, j)] else [])
  {
    if sub.Style? {
      StylePruned(r, i, j, typeNo, sub.decls);
    }
  }

  /** What pruning the nested rules of group `i` from number `m` on owes, between the
      run `r` before and the run `r'` after: if nothing is thrown, they are all plain
      styles, the calls before are kept, every new call is on one of them, and every
      unrecorded declaration of theirs is removed. */
  ghost predicate SubsOwed(r: Run, r': Run, i: nat, typeNo: int, subs: seq<Rule>, m: nat)
  {
    r'.thrown.None? ==>
      && r.thrown.None? && r.calls <= r'.calls
      && (forall k :: |r.calls| <= k < |r'.calls| ==> r'.calls[k].rule == i && r'.calls[k].sub >= 0)
      && (forall j :: m <= j < |subs| ==> subs[j].Style?)
      && (forall j, k ::
            (m <= j < |subs| && subs[j].Style? && 0 <= k < |subs[j].decls| && [i, j, k, typeNo] !in r.updated) ==>
            RemoveProperty(i, j, subs[j].decls[k].key) in r'.calls)
  }

  /** A prefix of calls keeps its members. */
  lemma PrefixKeeps(a: seq<Op>, b: seq<Op>, c: Op)
    requires a <= b && c in a
    ensures c in b
  {
    var k :| 0 <= k < |a| && a[k] == c;
    assert b[k] == c;
  }

  /** Pruning nested rule `m` on top of what the later nested rules owe settles what
      the nested rules from `m` on owe. */
  lemma SubsOwedStep(r: Run, r1: Run, r2: Run, i: nat, typeNo: int, subs: seq<Rule>, m: nat)
    requires m < |subs| && r1.updated == r.updated
    requires SubsOwed(r, r1, i, typeNo, subs, m + 1)
    requires r2.thrown.None? ==>
      && r1.thrown.None? && subs[m].Style? && r1.calls <= r2.calls
      && (forall k :: |r1.calls| <= k < |r2.calls| ==> r2.calls[k].rule == i && r2.calls[k].sub == m)
      && (forall k :: (0 <= k < |subs[m].decls| && [i, m, k, typeNo] !in r1.updated) ==>
            RemoveProperty(i, m, subs[m].decls[k].key) in r2.calls)
    ensures SubsOwed(r, r2, i, typeNo, subs, m)
  {
    if r2.thrown.None? {
      forall j, k | m < j < |subs| && subs[j].Style? && 0 <= k < |subs[j].decls| && [i, j, k, typeNo] !in r.updated
        ensures RemoveProperty(i, j, subs[j].decls[k].key) in r2.calls
      {
        PrefixKeeps(r1.calls, r2.calls, RemoveProperty(i, j, subs[j].decls[k].key));
      }
    }
  }

  /** One nested rule pruned: if nothing is thrown, it is a plain style, the calls
      before stay, the new ones are on the nested rule `j`, and its unrecorded
      declarations are removed. */
  lemma SubStep(r: Run, i: nat, typeNo: int, j: nat, sub: Rule)
    ensures var r' := PruneSub(r, i, typeNo, j, sub);
      && r'.updated == r.updated && r'.toAdd == r.toAdd
      && (r'.thrown.None? ==>
        && r.thrown.None? && sub.Style? && r.calls <= r'.calls
        && (forall k :: |r.calls| <= k < |r'.calls| ==> r'.calls[k].rule == i && r'.calls[k].sub == j)
        && (forall k :: (0 <= k < |sub.decls| && [i, j, k, typeNo] !in r.updated) ==>
              RemoveProperty(i, j, sub.decls[k].key) in r'.calls))
  {
    PruneSubExact(r, i, typeNo, j, sub);
    var r' := PruneSub(r, i, typeNo, j, sub);
    if r'.thrown.None? {
      var owed := Removals(r.updated, i, j, typeNo, sub.decls, 0);
      var r1 := Removed(r, i, j, typeNo, sub.decls, 0);
      var tail := if StyleOf(r1.sheet, i, j).value == [] then [DeleteRule(i, j)] else [];
      assert r'.calls == r.calls + (owed + tail);
      forall k | |r.calls| <= k < |r'.calls|
        ensures r'.calls[k].rule == i && r'.calls[k].sub == j
      {
        if k - |r.calls| < |owed| {
          assert r'.calls[k] == owed[k - |r.calls|];
        }
      }
    }
  }

  /** The nested rules of the old group `i` from number `m` on pruned settle what they
      owe (`SubsOwed`) and leave the record of the first pass alone. */
  lemma {:induction false} PrunedSubsRemoves(r: Run, i: nat, typeNo: int, subs: seq<Rule>, m: nat)
    requires m <= |subs|
    ensures var r' := PrunedSubs(r, i, typeNo, subs, m);
      && r'.updated == r.updated && r'.toAdd == r.toAdd
      && SubsOwed(r, r', i, typeNo, subs, m)
    decreases |subs| - m
  {
    if m < |subs| {
      PrunedSubsRemoves(r, i, typeNo, subs, m + 1);
      var r1 := PrunedSubs(r, i, typeNo, subs, m + 1);
      SubStep(r1, i, typeNo, m, subs[m]);
      SubsOwedStep(r, r1, PruneSub(r1, i, typeNo, m, subs[m]), i, typeNo, subs, m);
    }
  }

  /** The old group `i` pruned: if nothing is thrown, `deleteRule(i)` is called exactly
      when the live group has no nested rule left after its nested rules were
      pruned. */
  lemma PruneGroupDeletes(cRules: seq<Rule>, r: Run, i: nat)
    requires i < |cRules| && cRules[i].Group?
    ensures var r1 := PrunedSubs(r, i, TypeNo(cRules[i]), cRules[i].subStyles, 0);
      var r' := PruneRule(r, i, cRules[i]);
      r'.thrown.None? ==>
        && NestedCount(r1.sheet, i).Success? && r.calls <= r'.calls
        && (DeleteRule(i, -1) in r'.calls[|r.calls|..] <==> NestedCount(r1.sheet, i).value == 0)
  {
    var r1 := PrunedSubs(r, i, TypeNo(cRules[i]), cRules[i].subStyles, 0);
    PrunedSubsRemoves(r, i, TypeNo(cRules[i]), cRules[i].subStyles, 0);
    var r' := PruneRule(r, i, cRules[i]);
    if r'.thrown.None? {
      assert r1.thrown.None? && NestedCount(r1.sheet, i).Success?;
      if NestedCount(r1.sheet, i).value == 0 {
        assert r'.calls == r1.calls + [DeleteRule(i, -1)];
        assert r'.calls[|r.calls|..][|r1.calls| - |r.calls|] == DeleteRule(i, -1);
      } else {
        assert r'.calls == r1.calls;
        forall c | c in r'.calls[|r.calls|..]
          ensures c.sub >= 0
        {
          var k :| 0 <= k < |r'.calls[|r.calls|..]| && r'.calls[|r.calls|..][k] == c;
          assert c == r1.calls[|r.calls| + k];
        }
      }
    }
  }

  /** The old rule `i` pruned: if nothing is thrown, every declaration of it (or of one
      of its nested styles) whose tuple is not in `updatedRules` is removed. */
  lemma PruneRuleRemoves(cRules: seq<Rule>, r: Run, i: nat)
    requires i < |cRules|
    ensures var r' := PruneRule(r, i, cRules[i]);
      && (r'.thrown.None? ==> r.thrown.None? && r.calls <= r'.calls)
      && (r'.thrown.None? ==> forall sub, k ::
            (-1 <= sub && 0 <= k < |OldDecls(cRules, i, sub)| && [i, sub, k, TypeNo(cRules[i])] !in r.updated) ==>
            RemoveProperty(i, sub, OldDecls(cRules, i, sub)[k].key) in r'.calls)
  {
    match cRules[i] {
      case Style(_, _, _) => StyleRuleRemoves(cRules, r, i);
      case Group(_, _, _) => GroupRuleRemoves(cRules, r, i);
      case Verbatim(_, _, _) =>
    }
  }

  /** `PruneRuleRemoves` for an old plain style. */
  lemma StyleRuleRemoves(cRules: seq<Rule>, r: Run, i: nat)
    requires i < |cRules| && cRules[i].Style?
    ensures var r' := PruneRule(r, i, cRules[i]);
      && (r'.thrown.None? ==> r.thrown.None? && r.calls <= r'.calls)
      && (r'.thrown.None? ==> forall sub, k ::
            (-1 <= sub && 0 <= k < |OldDecls(cRules, i, sub)| && [i, sub, k, TypeNo(cRules[i])] !in r.updated) ==>
            RemoveProperty(i, sub, OldDecls(cRules, i, sub)[k].key) in r'.calls)
  {
    StylePruned(r, i, -1, TypeNo(cRules[i]), cRules[i].decls);
  }

  /** `PruneRuleRemoves` for an old group. */
  lemma GroupRuleRemoves(cRules: seq<Rule>, r: Run, i: nat)
    requires i < |cRules| && cRules[i].Group?
    ensures var r' := PruneRule(r, i, cRules[i]);
      && (r'.thrown.None? ==> r.thrown.None? && r.calls <= r'.calls)
      && (r'.thrown.None? ==> forall sub, k ::
            (-1 <= sub && 0 <= k < |OldDecls(cRules, i, sub)| && [i, sub, k, TypeNo(cRules[i])] !in r.updated) ==>
            RemoveProperty(i, sub, OldDecls(cRules, i, sub)[k].key) in r'.calls)
  {
    var subs := cRules[i].subStyles;
    PrunedSubsRemoves(r, i, TypeNo(cRules[i]), subs, 0);
    var r1 := PrunedSubs(r, i, TypeNo(cRules[i]), subs, 0);
    assert r1.calls <= PruneRule(r, i, cRules[i]).calls;
  }

  /** The deletion pass over the old rules from number `m` on: if nothing is thrown,
      every old declaration whose tuple the first pass did not record in
      `updatedRules` gets a `removeProperty` call. */
  lemma {:induction false} PrunedRemoves(r: Run, cRules: seq<Rule>, m: nat)
    requires m <= |cRules|
    ensures var r' := Pruned(r, cRules, m);
      && (r'.thrown.None? ==> r.thrown.None?)
      && (r'.thrown.None? ==> forall i, sub, k ::
            (m <= i < |cRules| && -1 <= sub && 0 <= k < |OldDecls(cRules, i, sub)|
             && [i, sub, k, TypeNo(cRules[i])] !in r.updated) ==>
            RemoveProperty(i, sub, OldDecls(cRules, i, sub)[k].key) in r'.calls)
    decreases |cRules| - m
  {
    if m < |cRules| {
      PrunedRemoves(r, cRules, m + 1);
      PrunedCalls(r, cRules, m + 1);
      var r1 := Pruned(r, cRules, m + 1);
      PruneRuleRemoves(cRules, r1, m);
      var r' := Pruned(r, cRules, m);
      if r'.thrown.None? {
        forall i, sub, k | m < i < |cRules| && -1 <= sub && 0 <= k < |OldDecls(cRules, i, sub)|
            && [i, sub, k, TypeNo(cRules[i])] !in r.updated
          ensures RemoveProperty(i, sub, OldDecls(cRules, i, sub)[k].key) in r'.calls
        {
          PrefixKeeps(r1.calls, r'.calls, RemoveProperty(i, sub, OldDecls(cRules, i, sub)[k].key));
        }
      }
    }
  }

  /** A `syncCss` run that throws nothing has removed from the live sheet every old
      declaration that no new declaration was matched with. */
  lemma SyncRemovesUnmatched(cRules: seq<Rule>, cssRules: seq<Rule>, sheet: seq<LiveRule>)
    ensures var found := Discover(Start(sheet), cRules, cssRules, |cssRules|);
      var r := SyncRun(cRules, cssRules, sheet);
      r.thrown.None? ==> forall i, sub, k ::
        (0 <= i < |cRules| && -1 <= sub && 0 <= k < |OldDecls(cRules, i, sub)|
         && [i, sub, k, TypeNo(cRules[i])] !in found.updated) ==>
        RemoveProperty(i, sub, OldDecls(cRules, i, sub)[k].key) in r.calls
  {
    var found := Discover(Start(sheet), cRules, cssRules, |cssRules|);
    var pruned := Pruned(found, cRules, 0);
    PrunedRemoves(found, cRules, 0);
    AppliedCalls(pruned, found.toAdd, |found.toAdd|);
    var r := SyncRun(cRules, cssRules, sheet);
    assert forall c :: c in pruned.calls ==> c in r.calls;
  }

  // ---------------------------------------------------------------- what the last pass calls

  /** The last pass makes the calls of `toAdd` in order, one per entry, until one of
      them throws. */
  lemma {:induction false} AppliedCalls(r: Run, adds: seq<Addition>, n: nat)
    requires n <= |adds|
    ensures var r' := Applied(r, adds, n);
      && r'.updated == r.updated && r'.toAdd == r.toAdd
      && r.calls <= r'.calls && |r'.calls| <= |r.calls| + n
      && (forall k :: |r.calls| <= k < |r'.calls| ==> r'.calls[k] == AddCall(adds[k - |r.calls|]))
      && (r'.thrown.None? ==> |r'.calls| == |r.calls| + n)
      && (r'.thrown.None? ==> r.thrown.None?)
  {
    if n > 0 {
      AppliedCalls(r, adds, n - 1);
    }
  }

  /** The calls after the discovery pass: the deletion pass takes the run `found` to
      `pruned`, only removing unrecorded old declarations and deleting old plain rules
      and groups, walking the old rules from the last to the first; then `r` holds
      the calls of `toAdd`, in the order their entries were found, all of them
      unless one throws. */
  ghost predicate LaterPasses(cRules: seq<Rule>, found: Run, pruned: Run, r: Run)
  {
    && found.calls <= pruned.calls
    && (forall k :: |found.calls| <= k < |pruned.calls| ==>
          Prune(cRules, found.updated, pruned.calls[k].rule, pruned.calls[k]))
    && (forall a, b :: |found.calls| <= a < b < |pruned.calls| ==> pruned.calls[a].rule >= pruned.calls[b].rule)
    && pruned.calls <= r.calls && |r.calls| <= |pruned.calls| + |found.toAdd|
    && (forall k :: |pruned.calls| <= k < |r.calls| ==> r.calls[k] == AddCall(found.toAdd[k - |pruned.calls|]))
    && (r.thrown.None? ==> |r.calls| == |pruned.calls| + |found.toAdd|)
  }

  /** The three passes in order. Every call of the first pass is a rewrite of a changed
      value or of a changed keyframes rule; the deletion and insertion passes follow
      as `LaterPasses` describes. */
  lemma SyncCalls(cRules: seq<Rule>, cssRules: seq<Rule>, sheet: seq<LiveRule>)
    ensures var found := Discover(Start(sheet), cRules, cssRules, |cssRules|);
      && Rewrites(cRules, [], found.calls)
      && LaterPasses(cRules, found, Pruned(found, cRules, 0), SyncRun(cRules, cssRules, sheet))
  {
    var found := Discover(Start(sheet), cRules, cssRules, |cssRules|);
    DiscoverRewrites(Start(sheet), cRules, cssRules, |cssRules|);
    assert Start(sheet).calls == [];
    PassesAfterDiscovery(cRules, found);
  }

  /** The deletion pass and the insertion pass after any discovery pass. */
  lemma PassesAfterDiscovery(cRules: seq<Rule>, found: Run)
    ensures var pruned := Pruned(found, cRules, 0);
      LaterPasses(cRules, found, pruned, Applied(pruned, found.toAdd, |found.toAdd|))
  {
    PrunedCalls(found, cRules, 0);
    AppliedCalls(Pruned(found, cRules, 0), found.toAdd, |found.toAdd|);
  }

  // ---------------------------------------------------------------- recorded or queued

  /** The lists only grow, and a run that has thrown stays thrown. */
  predicate Grows(r: Run, r': Run)
  {
    r.updated <= r'.updated && r.toAdd <= r'.toAdd && (r'.thrown.None? ==> r.thrown.None?)
  }

  /** The new declaration `d`, number `k`, is recorded against the first old
      declaration with its key, or queued when there is none. */
  predicate Kept(r: Run, ods: seq<Decl>, at: Site, k: nat, d: Decl)
  {
    var c := First(ods, KeyIs(d.key), 0);
    && (c >= 0 ==> [at.ci, at.csi, c, at.typeNo] in r.updated)
    && (c < 0 ==> AddStyle(at.i, at.j, k, d.key, d.value, at.ci, at.csi) in r.toAdd)
  }

  /** What is kept stays kept as the lists grow. */
  lemma KeptGrows(r: Run, r': Run, ods: seq<Decl>, at: Site, k: nat, d: Decl)
    requires Kept(r, ods, at, k, d) && Grows(r, r')
    ensures Kept(r', ods, at, k, d)
  {
    var c := First(ods, KeyIs(d.key), 0);
    if c >= 0 {
      assert [at.ci, at.csi, c, at.typeNo] in r.updated;
    } else {
      assert AddStyle(at.i, at.j, k, d.key, d.value, at.ci, at.csi) in r.toAdd;
    }
  }

  /** One new declaration is recorded when an old one has its key, and queued when none
      has. */
  lemma MatchDeclOutcome(r: Run, ods: seq<Decl>, at: Site, k: nat, d: Decl)
    ensures var r' := MatchDecl(r, ods, at, k, d);
      Grows(r, r') && (r'.thrown.None? ==> Kept(r', ods, at, k, d))
  {
    var c := First(ods, KeyIs(d.key), 0);
    if c >= 0 {
      var r1 := if ods[c].value != d.value then Call(r, SetProperty(at.ci, at.csi, ods[c].key, d.value)) else r;
      assert Grows(r, r1);
    }
  }

  /** Matching the declarations of a rule loses none of them: when nothing throws,
      each new declaration is either recorded against the first old declaration with
      its key, so that the deletion pass keeps that one, or queued for the last pass. */
  lemma {:induction false} MatchedOrQueued(r: Run, ods: seq<Decl>, at: Site, ds: seq<Decl>, n: nat)
    requires n <= |ds|
    ensures var r' := MatchDecls(r, Success(ods), at, ds, n);
      && Grows(r, r')
      && (r'.thrown.None? ==> forall k :: 0 <= k < n ==> Kept(r', ods, at, k, ds[k]))
  {
    if n > 0 {
      MatchedOrQueued(r, ods, at, ds, n - 1);
      var r1 := MatchDecls(r, Success(ods), at, ds, n - 1);
      MatchDeclOutcome(r1, ods, at, n - 1, ds[n - 1]);
      var r' := MatchDecl(r1, ods, at, n - 1, ds[n - 1]);
      assert MatchDecls(r, Success(ods), at, ds, n) == r';
      KeptStep(r, r1, r', ods, at, ds, n);
    }
  }

  /** What the first `n - 1` declarations left kept stays kept after declaration `n - 1`. */
  lemma KeptStep(r: Run, r1: Run, r': Run, ods: seq<Decl>, at: Site, ds: seq<Decl>, n: nat)
    requires 0 < n <= |ds|
    requires Grows(r, r1) && (r1.thrown.None? ==> forall k :: 0 <= k < n - 1 ==> Kept(r1, ods, at, k, ds[k]))
    requires Grows(r1, r') && (r'.thrown.None? ==> Kept(r', ods, at, n - 1, ds[n - 1]))
    ensures Grows(r, r') && (r'.thrown.None? ==> forall k :: 0 <= k < n ==> Kept(r', ods, at, k, ds[k]))
  {
    if r'.thrown.None? {
      forall k | 0 <= k < n - 1
        ensures Kept(r', ods, at, k, ds[k])
      {
        KeptGrows(r1, r', ods, at, k, ds[k]);
      }
    }
  }

  // ---------------------------------------------------------------- two runs worked out

  /** A changed value is written in place and nothing else is called. */
  lemma ChangedValueWritten()
    ensures var r := SyncRun([Style("a", false, [Decl("x", "1")])], [Style("a", false, [Decl("x", "2")])],
                             [LiveStyle([Decl("x", "1")])]);
      && r.thrown == None && r.calls == [SetProperty(0, -1, "x", "2")]
      && r.sheet == [LiveStyle([Decl("x", "2")])]
  {
    var cRules, cssRules := [Style("a", false, [Decl("x", "1")])], [Style("a", false, [Decl("x", "2")])];
    var at := Site(0, -1, 1, 0, -1);
    assert First(cRules, SelectorIs("a"), 0) == 0;
    assert First([Decl("x", "1")], KeyIs("x"), 0) == 0;
    var start := Start([LiveStyle([Decl("x", "1")])]);
    assert SetProp([Decl("x", "1")], "x", "2") == [Decl("x", "2")];
    assert StyleOf(start.sheet, 0, -1) == Success([Decl("x", "1")]);
    assert WithStyle(start.sheet, 0, -1, [Decl("x", "2")]) == [LiveStyle([Decl("x", "2")])];
    assert Perform(start.sheet, SetProperty(0, -1, "x", "2")) == Success([LiveStyle([Decl("x", "2")])]);
    var written := Call(start, SetProperty(0, -1, "x", "2"));
    assert written == start.(sheet := [LiveStyle([Decl("x", "2")])], calls := [SetProperty(0, -1, "x", "2")]);
    assert MatchDecl(start, [Decl("x", "1")], at, 0, Decl("x", "2")) == Record(written, [0, -1, 0, 1]);
    assert MatchDecls(start, Success([Decl("x", "1")]), at, [Decl("x", "2")], 1) == Record(written, [0, -1, 0, 1]);
    assert DiscoverRule(start, cRules, 0, cssRules[0]) == Record(written, [0, -1, 0, 1]);
    var found := Discover(start, cRules, cssRules, 1);
    assert found == Run([LiveStyle([Decl("x", "2")])], [SetProperty(0, -1, "x", "2")], None, [[0, -1, 0, 1]], []);
    assert LastKeyIndex(found.updated, TupleKey([0, -1, 0, 1]), 1) == 0;
    assert Pruned(found, cRules, 0) == found;
  }

  /** Renaming the only property of a rule makes `syncCss` throw: the deletion pass
      removes the old property and, the rule being empty, deletes it, and the last pass
      then sets the new property on the rule at index 0, which is gone. The rule is
      lost from the live sheet. */
  lemma RenamedPropertyThrows()
    ensures var r := SyncRun([Style("a", false, [Decl("x", "1")])], [Style("a", false, [Decl("y", "2")])],
                             [LiveStyle([Decl("x", "1")])]);
      && r.thrown == Some(UndefinedRead) && r.sheet == []
      && r.calls == [RemoveProperty(0, -1, "x"), DeleteRule(0, -1), SetProperty(0, -1, "y", "2")]
  {
    var cRules := [Style("a", false, [Decl("x", "1")])];
    var found := RenamedDiscovery();
    RenamedPruning(found);
    var pruned := Pruned(found, cRules, 0);
    assert Applied(pruned, found.toAdd, 1) == Call(Applied(pruned, found.toAdd, 0), SetProperty(0, -1, "y", "2"));
    RenamedAddThrows(pruned);
  }

  /** The last pass of the renaming: the rule the new property is set on is gone. */
  lemma RenamedAddThrows(pruned: Run)
    requires pruned.sheet == [] && pruned.thrown == None
    ensures var r := Call(pruned, SetProperty(0, -1, "y", "2"));
      r.thrown == Some(UndefinedRead) && r.sheet == [] && r.calls == pruned.calls + [SetProperty(0, -1, "y", "2")]
  {
    assert StyleOf([], 0, -1) == Failure(UndefinedRead);
  }

  /** The discovery pass of the renaming: the new property is queued for rule 0. */
  lemma RenamedDiscovery() returns (found: Run)
    ensures found == Discover(Start([LiveStyle([Decl("x", "1")])]), [Style("a", false, [Decl("x", "1")])],
                              [Style("a", false, [Decl("y", "2")])], 1)
    ensures found == Run([LiveStyle([Decl("x", "1")])], [], None, [], [AddStyle(0, -1, 0, "y", "2", 0, -1)])
  {
    var cRules, cssRules := [Style("a", false, [Decl("x", "1")])], [Style("a", false, [Decl("y", "2")])];
    assert First(cRules, SelectorIs("a"), 0) == 0;
    assert First([Decl("x", "1")], KeyIs("y"), 0) == -1;
    found := Discover(Start([LiveStyle([Decl("x", "1")])]), cRules, cssRules, 1);
  }

  /** The deletion pass of the renaming: the old property goes, and the emptied rule
      with it. */
  lemma RenamedPruning(found: Run)
    requires found == Run([LiveStyle([Decl("x", "1")])], [], None, [], [AddStyle(0, -1, 0, "y", "2", 0, -1)])
    ensures Pruned(found, [Style("a", false, [Decl("x", "1")])], 0)
      == found.(sheet := [], calls := [RemoveProperty(0, -1, "x"), DeleteRule(0, -1)])
  {
    assert First([Decl("x", "1")], KeyIs("x"), 0) == 0;
    assert RemoveProp([Decl("x", "1")], "x") == [];
    assert LastKeyIndex(found.updated, TupleKey([0, -1, 0, 1]), 0) == -1;
    assert StyleOf(found.sheet, 0, -1) == Success([Decl("x", "1")]);
    assert WithStyle(found.sheet, 0, -1, []) == [LiveStyle([])];
    assert Perform(found.sheet, RemoveProperty(0, -1, "x")) == Success([LiveStyle([])]);
    var removed := Removed(found, 0, -1, 1, [Decl("x", "1")], 0);
    assert removed == RemoveStep(found, 0, -1, 1, 0, Decl("x", "1"));
    assert removed == found.(sheet := [LiveStyle([])], calls := [RemoveProperty(0, -1, "x")]);
  }

  // ---------------------------------------------------------------- the last pass corrected

  /** The corrected last pass, first half: each queued declaration set on the old rule
      its rule was matched with, at that rule's OLD index, while the sheet still has the
      old layout. Queued rules are left for the second half. */
  function StylesAtOld(r: Run, adds: seq<Addition>, n: nat): Run
    requires n <= |adds|
  {
    if n == 0 then r
    else
      var r1 := StylesAtOld(r, adds, n - 1);
      match adds[n - 1]
      case AddStyle(_, _, _, key, value, ci, csi) => Call(r1, SetProperty(ci, csi, key, value))
      case AddRule(_, _, _, _) => r1
  }

  /** The queued rules, in their order. */
  function Insertions(adds: seq<Addition>): (ins: seq<Addition>)
    ensures forall a :: a in ins <==> a in adds && a.AddRule?
  {
    if adds == [] then []
    else
      assert adds == [adds[0]] + adds[1..];
      (if adds[0].AddRule? then [adds[0]] else []) + Insertions(adds[1..])
  }

  /** `syncCss` with its last pass corrected: the queued declarations are set before
      the deletion pass, on the old rules they were matched with, so that the deletion
      pass neither empties nor shifts the rule they belong to; the queued rules are
      inserted after it, at their new indices, as before. */
  function FixedSyncRun(cRules: seq<Rule>, cssRules: seq<Rule>, sheet: seq<LiveRule>): Run
  {
    var found := Discover(Start(sheet), cRules, cssRules, |cssRules|);
    var ins := Insertions(found.toAdd);
    Applied(Pruned(StylesAtOld(found, found.toAdd, |found.toAdd|), cRules, 0), ins, |ins|)
  }

  /** The renaming of `RenamedPropertyThrows` under the corrected last pass: nothing
      is thrown, the new property is set on the old rule, the old property is removed,
      and the rule stays with the new property only. */
  lemma RenamedPropertyFixed()
    ensures var r := FixedSyncRun([Style("a", false, [Decl("x", "1")])], [Style("a", false, [Decl("y", "2")])],
                                  [LiveStyle([Decl("x", "1")])]);
      && r.thrown == None && r.sheet == [LiveStyle([Decl("y", "2")])]
      && r.calls == [SetProperty(0, -1, "y", "2"), RemoveProperty(0, -1, "x")]
  {
    var cRules := [Style("a", false, [Decl("x", "1")])];
    var found := RenamedDiscovery();
    var styled := StylesAtOld(found, found.toAdd, 1);
    assert First([Decl("x", "1")], KeyIs("y"), 0) == -1;
    assert SetProp([Decl("x", "1")], "y", "2") == [Decl("x", "1"), Decl("y", "2")];
    assert StylesAtOld(found, found.toAdd, 0) == found;
    assert styled == found.(sheet := [LiveStyle([Decl("x", "1"), Decl("y", "2")])], calls := [SetProperty(0, -1, "y", "2")]);
    RenamedFixedPruning(styled);
    assert Insertions(found.toAdd) == [];
  }

  /** The deletion pass of the corrected renaming: the old property goes, and the rule,
      holding the new one, stays. */
  lemma RenamedFixedPruning(styled: Run)
    requires styled == Run([LiveStyle([Decl("x", "1"), Decl("y", "2")])], [SetProperty(0, -1, "y", "2")], None, [],
                           [AddStyle(0, -1, 0, "y", "2", 0, -1)])
    ensures Pruned(styled, [Style("a", false, [Decl("x", "1")])], 0)
      == styled.(sheet := [LiveStyle([Decl("y", "2")])], calls := [SetProperty(0, -1, "y", "2"), RemoveProperty(0, -1, "x")])
  {
    assert First([Decl("x", "1"), Decl("y", "2")], KeyIs("x"), 0) == 0;
    assert [Decl("x", "1"), Decl("y", "2")][1..] == [Decl("y", "2")];
    assert RemoveProp([Decl("x", "1"), Decl("y", "2")], "x") == [Decl("y", "2")];
    assert StyleOf(styled.sheet, 0, -1) == Success([Decl("x", "1"), Decl("y", "2")]);
    assert WithStyle(styled.sheet, 0, -1, [Decl("y", "2")]) == [LiveStyle([Decl("y", "2")])];
    assert LastKeyIndex(styled.updated, TupleKey([0, -1, 0, 1]), 0) == -1;
    assert Perform(styled.sheet, RemoveProperty(0, -1, "x")) == Success([LiveStyle([Decl("y", "2")])]);
    var removed := Removed(styled, 0, -1, 1, [Decl("x", "1")], 0);
    assert removed == RemoveStep(styled, 0, -1, 1, 0, Decl("x", "1"));
    assert removed == styled.(sheet := [LiveStyle([Decl("y", "2")])],
                              calls := [SetProperty(0, -1, "y", "2"), RemoveProperty(0, -1, "x")]);
    assert StyleOf(removed.sheet, 0, -1) == Success([Decl("y", "2")]);
  }

  /** No declaration in `ds` has the key. */
  predicate KeyAbsent(ds: seq<Decl>, key: string)
  {
    forall k :: 0 <= k < |ds| ==> ds[k].key != key
  }

  /** Every queued declaration has a key that no old declaration of the old rule it
      was matched with has. */
  predicate QueuedFresh(cRules: seq<Rule>, adds: seq<Addition>)
  {
    forall a :: a in adds && a.AddStyle? ==> KeyAbsent(OldDecls(cRules, a.oldRule, a.oldSub), a.key)
  }

  /** Queuing something other than a declaration, or a declaration with a fresh key,
      keeps the queue fresh. */
  lemma FreshAdd(cRules: seq<Rule>, r: Run, a: Addition)
    requires QueuedFresh(cRules, r.toAdd)
    requires a.AddStyle? ==> KeyAbsent(OldDecls(cRules, a.oldRule, a.oldSub), a.key)
    ensures QueuedFresh(cRules, Add(r, a).toAdd)
  {
  }

  /** Matching the declarations of a rule against the old ones `ods` of the site
      queues only declarations whose key none of them has. */
  lemma {:induction false} MatchDeclsFresh(cRules: seq<Rule>, r: Run, olds: Result<seq<Decl>>, at: Site, ds: seq<Decl>, n: nat)
    requires n <= |ds| && QueuedFresh(cRules, r.toAdd)
    requires olds.Success? ==> olds.value == OldDecls(cRules, at.ci, at.csi)
    ensures QueuedFresh(cRules, MatchDecls(r, olds, at, ds, n).toAdd)
  {
    if n > 0 {
      MatchDeclsFresh(cRules, r, olds, at, ds, n - 1);
      var r1 := MatchDecls(r, olds, at, ds, n - 1);
      if olds.Success? {
        var d := ds[n - 1];
        var c := First(olds.value, KeyIs(d.key), 0);
        if c < 0 {
          assert forall j :: 0 <= j < |olds.value| ==> !KeyIs(d.key)(olds.value[j]);
          FreshAdd(cRules, r1, AddStyle(at.i, at.j, n - 1, d.key, d.value, at.ci, at.csi));
        }
      }
    }
  }

  /** One new nested rule discovered keeps the queue fresh. */
  lemma DiscoverSubFresh(cRules: seq<Rule>, r: Run, ci: nat, typeNo: int, i: nat, j: nat, sub: Rule)
    requires ci < |cRules| && cRules[ci].Group? && QueuedFresh(cRules, r.toAdd)
    ensures QueuedFresh(cRules, DiscoverSub(r, cRules[ci].subStyles, ci, typeNo, i, j, sub).toAdd)
  {
    var osubs := cRules[ci].subStyles;
    var c := First(osubs, SelectorIs(sub.selector), 0);
    if c >= 0 && sub.Style? {
      MatchDeclsFresh(cRules, r, DeclsOf(osubs[c]), Site(ci, c, typeNo, i, j), sub.decls, |sub.decls|);
    }
  }

  /** The first `n` nested rules of a new group discovered keep the queue fresh. */
  lemma {:induction false} DiscoverSubsFresh(cRules: seq<Rule>, r: Run, ci: nat, typeNo: int, i: nat, subs: seq<Rule>, n: nat)
    requires n <= |subs| && ci < |cRules| && cRules[ci].Group? && QueuedFresh(cRules, r.toAdd)
    ensures QueuedFresh(cRules, DiscoverSubs(r, cRules[ci].subStyles, ci, typeNo, i, subs, n).toAdd)
  {
    if n > 0 {
      DiscoverSubsFresh(cRules, r, ci, typeNo, i, subs, n - 1);
      DiscoverSubFresh(cRules, DiscoverSubs(r, cRules[ci].subStyles, ci, typeNo, i, subs, n - 1), ci, typeNo, i, n - 1, subs[n - 1]);
    }
  }

  /** One new rule discovered keeps the queue fresh. */
  lemma DiscoverRuleFresh(cRules: seq<Rule>, r: Run, i: nat, rule: Rule)
    requires QueuedFresh(cRules, r.toAdd)
    ensures QueuedFresh(cRules, DiscoverRule(r, cRules, i, rule).toAdd)
  {
    match rule
    case Verbatim(_, _, _) =>
    case Group(selector, supports, subs) =>
      var ci := First(cRules, GroupIs(supports, selector), 0);
      if ci >= 0 {
        DiscoverSubsFresh(cRules, r, ci, TypeNo(rule), i, subs, |subs|);
      }
    case Style(selector, _, ds) =>
      var ci := First(cRules, SelectorIs(selector), 0);
      if ci >= 0 {
        MatchDeclsFresh(cRules, r, DeclsOf(cRules[ci]), Site(ci, -1, TypeNo(rule), i, -1), ds, |ds|);
      }
  }

  /** The discovery pass queues only declarations whose key the old rule they were
      matched with lacks. */
  lemma {:induction false} DiscoverFresh(cRules: seq<Rule>, r: Run, cssRules: seq<Rule>, n: nat)
    requires n <= |cssRules| && QueuedFresh(cRules, r.toAdd)
    ensures QueuedFresh(cRules, Discover(r, cRules, cssRules, n).toAdd)
  {
    if n > 0 {
      DiscoverFresh(cRules, r, cssRules, n - 1);
      DiscoverRuleFresh(cRules, Discover(r, cRules, cssRules, n - 1), n - 1, cssRules[n - 1]);
    }
  }

  /** The corrected first half keeps `updatedRules` and `toAdd`. */
  lemma {:induction false} StylesAtOldKeeps(r: Run, adds: seq<Addition>, n: nat)
    requires n <= |adds|
    ensures var r' := StylesAtOld(r, adds, n);
      r'.updated == r.updated && r'.toAdd == r.toAdd
  {
    if n > 0 {
      StylesAtOldKeeps(r, adds, n - 1);
    }
  }

  /** In the corrected run, the deletion pass never removes a queued declaration from
      the rule it was set on: every old declaration it removes from that rule has a
      different key. */
  lemma FixedKeepsQueued(cRules: seq<Rule>, cssRules: seq<Rule>, sheet: seq<LiveRule>)
    ensures var found := Discover(Start(sheet), cRules, cssRules, |cssRules|);
      var styled := StylesAtOld(found, found.toAdd, |found.toAdd|);
      var pruned := Pruned(styled, cRules, 0);
      forall a, k :: (a in found.toAdd && a.AddStyle? && |styled.calls| <= k < |pruned.calls|) ==>
        pruned.calls[k] != RemoveProperty(a.oldRule, a.oldSub, a.key)
  {
    var found := Discover(Start(sheet), cRules, cssRules, |cssRules|);
    DiscoverFresh(cRules, Start(sheet), cssRules, |cssRules|);
    var styled := StylesAtOld(found, found.toAdd, |found.toAdd|);
    StylesAtOldKeeps(found, found.toAdd, |found.toAdd|);
    PrunedCalls(styled, cRules, 0);
    var pruned := Pruned(styled, cRules, 0);
    forall a, k | a in found.toAdd && a.AddStyle? && |styled.calls| <= k < |pruned.calls|
      ensures pruned.calls[k] != RemoveProperty(a.oldRule, a.oldSub, a.key)
    {
      assert KeyAbsent(OldDecls(cRules, a.oldRule, a.oldSub), a.key);
      assert Prune(cRules, styled.updated, pruned.calls[k].rule, pruned.calls[k]);
    }
  }
}
