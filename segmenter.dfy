/** Segmentation of template text into literal ("HTML") and directive ("JS")
    entries: `seperateCode` of the engine and its variant in the worker. */
module Segmenter {
  import opened JsText

  /** The type tags of the parallel `types` array: "HTML" (literal text) and "JS" (a directive). */
  datatype Kind = Html | Js

  /** `calltype`: "first" keeps directives as written, "second" strips their delimiters. */
  datatype Mode = First | Second

  /** The parallel `types`/`codes` arrays returned by `seperateCode`. */
  datatype Segments = Segments(types: seq<Kind>, codes: seq<string>)
  {
    predicate Parallel()
    {
      |types| == |codes|
    }
  }

  /** No two consecutive entries are both literal text. */
  predicate NoAdjacentHtml(types: seq<Kind>)
  {
    forall k :: 0 <= k < |types| - 1 ==> !(types[k] == Html && types[k + 1] == Html)
  }

  /** The texts of the directive entries, in order. */
  function Directives(types: seq<Kind>, codes: seq<string>): seq<string>
    requires |types| == |codes|
  {
    if |types| == 0 then []
    else (if types[0] == Js then [codes[0]] else []) + Directives(types[1..], codes[1..])
  }

  lemma JoinCons(a: string, rest: seq<string>)
    ensures Join([a] + rest, "") == a + Join(rest, "")
  {
    if |rest| > 0 {
      assert ([a] + rest)[1..] == rest;
    }
  }

  // ---- the directive pattern ----

  /** The characters `.` does not match in a JavaScript regular expression. */
  predicate IsLineTerminator(c: char)
  {
    c == '\n' || c == '\r' || c == '\U{2028}' || c == '\U{2029}'
  }

  /** The lazy tail `.*?%>` (or `[\s\S]*?%>` when `spanLines`) tried from position `k`:
      the end of the first `%>` at or after `k`, provided no line terminator comes
      before it when lines may not be spanned. */
  function CloseFrom(s: string, k: nat, spanLines: bool): (r: Option<nat>)
    requires k <= |s|
    ensures r.Some? ==> k + 2 <= r.value <= |s| && OccursAt(s, "%>", r.value - 2)
    ensures r.Some? ==> forall j :: k <= j < r.value - 2 ==> !OccursAt(s, "%>", j)
    ensures r.Some? && !spanLines ==> forall j :: k <= j < r.value - 2 ==> !IsLineTerminator(s[j])
    ensures r.None? && spanLines ==> forall j :: k <= j ==> !OccursAt(s, "%>", j)
    decreases |s| - k
  {
    if OccursAt(s, "%>", k) then Some(k + 2)
    else if k == |s| || (!spanLines && IsLineTerminator(s[k])) then None
    else CloseFrom(s, k + 1, spanLines)
  }

  /** The end of a match of `<%[^%].*?%>` (etemplate.js) or `<%[^%][\s\S]*?%>`
      (worker.js, `spanLines`) that starts at `q`, if one does. */
  function DirectiveAt(s: string, q: nat, spanLines: bool): (r: Option<nat>)
    requires q <= |s|
    ensures r.Some? ==> q + 5 <= r.value <= |s|
    ensures r.Some? ==> s[q] == '<' && s[q + 1] == '%' && s[q + 2] != '%'
  {
    if q + 3 <= |s| && s[q] == '<' && s[q + 1] == '%' && s[q + 2] != '%' then CloseFrom(s, q + 3, spanLines)
    else None
  }

  /** The leftmost match starting at or after `q`: its start and end. */
  function FindDirective(s: string, q: nat, spanLines: bool): (r: Option<(nat, nat)>)
    requires q <= |s|
    ensures r.Some? ==> q <= r.value.0 && r.value.0 + 5 <= r.value.1 <= |s|
    ensures r.Some? ==> DirectiveAt(s, r.value.0, spanLines) == Some(r.value.1)
    ensures forall j :: q <= j < (if r.Some? then r.value.0 else |s|) ==> DirectiveAt(s, j, spanLines).None?
    decreases |s| - q
  {
    if q == |s| then None
    else match DirectiveAt(s, q, spanLines)
      case Some(e) => Some((q, e))
      case None => FindDirective(s, q + 1, spanLines)
  }

  /** `s.split(templateRegex)` from position `p`: the literal pieces between the
      leftmost matches alternate with the captured matches themselves. */
  function SplitDirectives(s: string, p: nat, spanLines: bool): (pieces: seq<string>)
    requires p <= |s|
    ensures Join(pieces, "") == s[p..]
    decreases |s| - p
  {
    match FindDirective(s, p, spanLines)
    case None => [s[p..]]
    case Some((a, e)) =>
      var rest := SplitDirectives(s, e, spanLines);
      JoinPair(s[p..a], s[a..e], rest);
      SliceThree(s, p, a, e);
      [s[p..a], s[a..e]] + rest
  }

  lemma JoinPair(x: string, y: string, rest: seq<string>)
    ensures Join([x, y] + rest, "") == x + y + Join(rest, "")
  {
    JoinCons(y, rest);
    JoinCons(x, [y] + rest);
    assert [x, y] + rest == [x] + ([y] + rest);
  }

  lemma SliceThree(s: string, p: nat, a: nat, e: nat)
    requires p <= a <= e <= |s|
    ensures s[p..] == s[p..a] + s[a..e] + s[e..]
  {
  }

  // ---- classification ----

  /** The engine's test for a directive entry: it starts with the open delimiter, its
      first close delimiter ends it, and it does not mention `closeDelimiter:`. */
  predicate LooksLikeDirective(code: string)
  {
    IndexOf(code, "<%") == 0 && IndexOf(code, "%>") == |code| - 2 && !Includes(code, "closeDelimiter:")
  }

  /** A directive's text in "second" mode: two characters cut from each end, then trimmed. */
  function Strip(code: string): (r: string)
    ensures |r| <= |code|
    ensures |code| >= 4 ==> r == Trim(code[2..|code| - 2])
  {
    Trim(Substring(code, 2, |code| - 2))
  }

  function Rewritten(code: string, kind: Kind, mode: Mode): string
  {
    if kind == Js && mode == Second then Strip(code) else code
  }

  // ---- merging ----

  /** The result of the backward merge of adjacent literal entries, stated from the
      back: the tail is merged first, and a literal entry absorbs the merged tail's
      first entry when that is literal too. */
  function Merge(types: seq<Kind>, codes: seq<string>): (m: Segments)
    requires |types| == |codes|
    ensures m.Parallel() && |m.types| <= |types|
    ensures NoAdjacentHtml(m.types)
    ensures |types| > 0 ==> |m.types| > 0 && m.types[0] == types[0]
    ensures |types| > 0 ==> m.types[|m.types| - 1] == types[|types| - 1]
  {
    if |types| == 0 then Segments([], [])
    else
      var m := Merge(types[1..], codes[1..]);
      if types[0] == Html && |m.types| > 0 && m.types[0] == Html then
        Segments(m.types, [codes[0] + m.codes[0]] + m.codes[1..])
      else
        var r := Segments([types[0]] + m.types, [codes[0]] + m.codes);
        assert r.types[1..] == m.types;
        r
  }

  /** Merging loses no text: the concatenation of the entries is unchanged. */
  lemma {:induction false} MergeKeepsText(types: seq<Kind>, codes: seq<string>)
    requires |types| == |codes|
    ensures Join(Merge(types, codes).codes, "") == Join(codes, "")
  {
    if |types| > 0 {
      MergeKeepsText(types[1..], codes[1..]);
      MergeStepText(types, codes);
    }
  }

  /** One step of `Merge` keeps the text once the rest of the merge does. */
  lemma {:induction false} MergeStepText(types: seq<Kind>, codes: seq<string>)
    requires |types| == |codes| > 0
    requires Join(Merge(types[1..], codes[1..]).codes, "") == Join(codes[1..], "")
    ensures Join(Merge(types, codes).codes, "") == Join(codes, "")
  {
    var m := Merge(types[1..], codes[1..]);
    JoinCons(codes[0], codes[1..]);
    assert codes == [codes[0]] + codes[1..];
    if types[0] == Html && |m.types| > 0 && m.types[0] == Html {
      FoldedText(codes[0], m.codes);
    } else {
      JoinCons(codes[0], m.codes);
    }
  }

  /** Gluing a literal onto the first of the merged entries keeps the text. */
  lemma {:induction false} FoldedText(a: string, ms: seq<string>)
    requires |ms| > 0
    ensures Join([a + ms[0]] + ms[1..], "") == a + Join(ms, "")
  {
    JoinCons(ms[0], ms[1..]);
    JoinCons(a + ms[0], ms[1..]);
    assert ms == [ms[0]] + ms[1..];
  }

  /** Merging only touches literal entries: the directive entries are unchanged. */
  lemma {:induction false} MergeKeepsDirectives(types: seq<Kind>, codes: seq<string>)
    requires |types| == |codes|
    ensures var m := Merge(types, codes); Directives(m.types, m.codes) == Directives(types, codes)
  {
    if |types| > 0 {
      var m := Merge(types[1..], codes[1..]);
      MergeKeepsDirectives(types[1..], codes[1..]);
      if types[0] == Html && |m.types| > 0 && m.types[0] == Html {
        assert Directives(m.types, m.codes) == Directives(m.types[1..], m.codes[1..]);
        var r := Merge(types, codes);
        assert r.types[1..] == m.types[1..] && r.codes[1..] == m.codes[1..];
      } else {
        var r := Merge(types, codes);
        assert r.types[1..] == m.types && r.codes[1..] == m.codes;
      }
    }
  }

  /** One step of `Merge`, seen from position `j` of the full arrays. */
  lemma MergeUnfold(t: seq<Kind>, c: seq<string>, j: nat)
    requires |t| == |c| && j < |t|
    ensures var m := Merge(t[j + 1..], c[j + 1..]);
      Merge(t[j..], c[j..]) ==
        if t[j] == Html && |m.types| > 0 && m.types[0] == Html
        then Segments(m.types, [c[j] + m.codes[0]] + m.codes[1..])
        else Segments([t[j]] + m.types, [c[j]] + m.codes)
  {
    assert t[j..][1..] == t[j + 1..] && c[j..][1..] == c[j + 1..];
  }

  lemma MergeSingle(types: seq<Kind>, codes: seq<string>)
    requires |types| == |codes| <= 1
    ensures Merge(types, codes) == Segments(types, codes)
  {
    if |types| == 1 {
      assert types[1..] == [] && codes[1..] == [];
      assert [types[0]] == types && [codes[0]] == codes;
    }
  }

  lemma TakeSnoc<T>(s: seq<T>, i: nat)
    requires 0 < i <= |s|
    ensures s[..i] == s[..i - 1] + [s[i - 1]]
  {
  }

  /** Splicing out the entry after position `|p|` of `p + [x] + q`. */
  lemma DropAt<T>(p: seq<T>, x: T, q: seq<T>)
    requires |q| > 0 && q[0] == x
    ensures var s := p + [x] + q; s[..|p| + 1] + s[|p| + 2..] == p + q
  {
    var s := p + [x] + q;
    assert s[..|p| + 1] == p + [x] && s[|p| + 2..] == q[1..];
    assert q == [x] + q[1..];
  }

  /** Appending the entry after position `|p|` of `p + [x] + q` to it. */
  lemma FuseAt(p: seq<string>, x: string, q: seq<string>)
    requires |q| > 0
    ensures var s := p + [x] + q; s[..|p|] + [s[|p|] + s[|p| + 1]] + s[|p| + 2..] == p + ([x + q[0]] + q[1..])
  {
    var s := p + [x] + q;
    assert s[..|p|] == p && s[|p|] == x && s[|p| + 1] == q[0] && s[|p| + 2..] == q[1..];
  }

  /** The "combine adjacent HTML" loop (etemplate.js:589-599, worker.js:121-131): walks
      from the last entry to the second, appending each literal entry to a literal
      predecessor and splicing it out. */
  method MergeAdjacentHtml(types0: seq<Kind>, codes0: seq<string>) returns (types: seq<Kind>, codes: seq<string>)
    requires |types0| == |codes0|
    ensures Segments(types, codes) == Merge(types0, codes0)
    ensures |types| == |codes| && NoAdjacentHtml(types)
    ensures Join(codes, "") == Join(codes0, "")
  {
    types, codes := types0, codes0;
    var n := |types0|;
    if n > 1 {
      var i := n - 1;
      MergedFromLast(types0, codes0);
      while i >= 1
        invariant 0 <= i <= n - 1
        invariant Segments(types, codes) == MergedFrom(types0, codes0, i)
        decreases i
      {
        if types[i] == types[i - 1] && types[i] == Html {
          MergeFuse(types0, codes0, i, types, codes);
          codes := codes[..i - 1] + [codes[i - 1] + codes[i]] + codes[i + 1..];
          types := types[..i] + types[i + 1..];
        } else {
          MergeKeep(types0, codes0, i, types, codes);
        }
        i := i - 1;
      }
      MergedFromStart(types0, codes0);
    } else {
      MergeSingle(types0, codes0);
    }
    MergeKeepsText(types0, codes0);
  }

  /** The state of the merge loop once the entries from `i` on are merged. */
  ghost function MergedFrom(t0: seq<Kind>, c0: seq<string>, i: nat): Segments
    requires |t0| == |c0| && i <= |t0|
  {
    var m := Merge(t0[i..], c0[i..]);
    Segments(t0[..i] + m.types, c0[..i] + m.codes)
  }

  lemma MergedFromLast(t0: seq<Kind>, c0: seq<string>)
    requires |t0| == |c0| > 0
    ensures MergedFrom(t0, c0, |t0| - 1) == Segments(t0, c0)
  {
    var i := |t0| - 1;
    assert t0[i..] == [t0[i]] && c0[i..] == [c0[i]];
    MergeSingle(t0[i..], c0[i..]);
    TakeSnoc(t0, |t0|);
    TakeSnoc(c0, |c0|);
  }

  lemma MergedFromStart(t0: seq<Kind>, c0: seq<string>)
    requires |t0| == |c0|
    ensures MergedFrom(t0, c0, 0) == Merge(t0, c0)
  {
    assert t0[0..] == t0 && c0[0..] == c0;
  }

  /** The pass that fuses entry `i` into entry `i - 1`: splicing a literal entry into
      its literal predecessor moves the merged suffix one place to the left. */
  lemma MergeFuse(t0: seq<Kind>, c0: seq<string>, i: nat, types: seq<Kind>, codes: seq<string>)
    requires |t0| == |c0| && 1 <= i < |t0|
    requires Segments(types, codes) == MergedFrom(t0, c0, i)
    requires i < |types| && types[i] == types[i - 1] && types[i] == Html
    ensures i < |codes|
    ensures Segments(types[..i] + types[i + 1..], codes[..i - 1] + [codes[i - 1] + codes[i]] + codes[i + 1..])
      == MergedFrom(t0, c0, i - 1)
  {
    var m := Merge(t0[i..], c0[i..]);
    MergeUnfold(t0, c0, i - 1);
    TakeSnoc(t0, i);
    TakeSnoc(c0, i);
    assert types == t0[..i - 1] + [t0[i - 1]] + m.types;
    assert codes == c0[..i - 1] + [c0[i - 1]] + m.codes;
    MergeStepFuse(t0[..i - 1], c0[..i - 1], c0[i - 1], m);
  }

  /** The pass that leaves entries `i - 1` and `i` apart. */
  lemma MergeKeep(t0: seq<Kind>, c0: seq<string>, i: nat, types: seq<Kind>, codes: seq<string>)
    requires |t0| == |c0| && 1 <= i < |t0|
    requires Segments(types, codes) == MergedFrom(t0, c0, i)
    requires i < |types| && !(types[i] == types[i - 1] && types[i] == Html)
    ensures Segments(types, codes) == MergedFrom(t0, c0, i - 1)
  {
    var m := Merge(t0[i..], c0[i..]);
    MergeUnfold(t0, c0, i - 1);
    TakeSnoc(t0, i);
    TakeSnoc(c0, i);
    assert types == t0[..i - 1] + [t0[i - 1]] + m.types;
    assert codes == c0[..i - 1] + [c0[i - 1]] + m.codes;
    MergeStepKeep(t0[..i - 1], c0[..i - 1], t0[i - 1], c0[i - 1], m);
  }

  lemma MergeStepFuse(pt: seq<Kind>, pc: seq<string>, x: string, m: Segments)
    requires |m.types| > 0 && m.types[0] == Html && |m.codes| > 0 && |pt| == |pc|
    ensures var ts, cs := pt + [Html] + m.types, pc + [x] + m.codes; var i := |pt| + 1;
      ts[..i] + ts[i + 1..] == pt + m.types &&
      cs[..i - 1] + [cs[i - 1] + cs[i]] + cs[i + 1..] == pc + ([x + m.codes[0]] + m.codes[1..])
  {
    DropAt(pt, Html, m.types);
    FuseAt(pc, x, m.codes);
  }

  lemma MergeStepKeep(pt: seq<Kind>, pc: seq<string>, t: Kind, x: string, m: Segments)
    ensures pt + [t] + m.types == pt + ([t] + m.types)
    ensures pc + [x] + m.codes == pc + ([x] + m.codes)
  {
  }

  // ---- the two segmenters ----

  /** The pieces of `html` as `String.prototype.split` with the engine's pattern yields them. */
  function EnginePieces(html: string): seq<string>
  {
    SplitDirectives(html, 0, false)
  }

  /** The engine's tag for one piece. */
  function KindOf(code: string): Kind
  {
    if LooksLikeDirective(code) then Js else Html
  }

  /** The classification pass of the engine: every piece tagged by `KindOf`, its text
      rewritten for `mode`. */
  function Classify(pieces: seq<string>, mode: Mode): (s: Segments)
    ensures s.Parallel() && |s.types| == |pieces|
  {
    if |pieces| == 0 then Segments([], [])
    else
      var k := KindOf(pieces[0]);
      var r := Classify(pieces[1..], mode);
      Segments([k] + r.types, [Rewritten(pieces[0], k, mode)] + r.codes)
  }

  /** The loop state after `i` pieces: what is classified, followed by the
      classification of the rest, is the classification of all. */
  predicate ClassifiedUpTo(pieces: seq<string>, mode: Mode, ts: seq<Kind>, cs: seq<string>, i: nat)
  {
    i <= |pieces| &&
    var r := Classify(pieces[i..], mode);
    ts + r.types == Classify(pieces, mode).types && cs + r.codes == Classify(pieces, mode).codes
  }

  lemma ClassifyStart(pieces: seq<string>, mode: Mode)
    ensures ClassifiedUpTo(pieces, mode, [], [], 0)
  {
    var r := Classify(pieces, mode);
    assert pieces[0..] == pieces;
    assert [] + r.types == r.types && [] + r.codes == r.codes;
  }

  lemma ClassifyStep(pieces: seq<string>, mode: Mode, ts: seq<Kind>, cs: seq<string>, i: nat)
    requires ClassifiedUpTo(pieces, mode, ts, cs, i) && i < |pieces|
    ensures var k := KindOf(pieces[i]);
      ClassifiedUpTo(pieces, mode, ts + [k], cs + [Rewritten(pieces[i], k, mode)], i + 1)
  {
    var k := KindOf(pieces[i]);
    var r := Classify(pieces[i + 1..], mode);
    assert pieces[i..][1..] == pieces[i + 1..];
    ConcatAssoc(ts, [k], r.types);
    ConcatAssoc(cs, [Rewritten(pieces[i], k, mode)], r.codes);
  }

  lemma ClassifyDone(pieces: seq<string>, mode: Mode, ts: seq<Kind>, cs: seq<string>, i: nat)
    requires ClassifiedUpTo(pieces, mode, ts, cs, i) && i >= |pieces|
    ensures Segments(ts, cs) == Classify(pieces, mode)
  {
    assert pieces[i..] == [];
    assert ts + [] == ts && cs + [] == cs;
  }

  /** In "first" mode classification rewrites nothing. */
  lemma {:induction false} ClassifyFirst(pieces: seq<string>)
    ensures Classify(pieces, First).codes == pieces
  {
    if |pieces| > 0 {
      ClassifyFirst(pieces[1..]);
      assert pieces == [pieces[0]] + pieces[1..];
    }
  }

  /** The directive pieces of a split, stripped in "second" mode. */
  function StrippedDirectives(pieces: seq<string>, mode: Mode): seq<string>
  {
    if |pieces| == 0 then []
    else
      var head := if LooksLikeDirective(pieces[0]) then [Rewritten(pieces[0], Js, mode)] else [];
      head + StrippedDirectives(pieces[1..], mode)
  }

  /** The directive entries of the classification are the directive pieces, rewritten. */
  lemma {:induction false} ClassifiedDirectives(pieces: seq<string>, mode: Mode)
    ensures var s := Classify(pieces, mode); Directives(s.types, s.codes) == StrippedDirectives(pieces, mode)
  {
    if |pieces| > 0 {
      var s := Classify(pieces, mode);
      var r := Classify(pieces[1..], mode);
      ClassifiedDirectives(pieces[1..], mode);
      assert s.types[1..] == r.types && s.codes[1..] == r.codes;
    }
  }

  /** `seperateCode` of the engine (etemplate.js:569-601): split on `<%[^%].*?%>`,
      classify each piece, strip directives in "second" mode, merge adjacent literals. */
  method SeparateCode(html: string, mode: Mode) returns (types: seq<Kind>, codes: seq<string>)
    ensures var c := Classify(EnginePieces(html), mode); Segments(types, codes) == Merge(c.types, c.codes)
    ensures |types| == |codes| && NoAdjacentHtml(types)
    ensures mode == First ==> Join(codes, "") == html
    ensures Directives(types, codes) == StrippedDirectives(EnginePieces(html), mode)
  {
    var pieces := EnginePieces(html);
    var ts: seq<Kind> := [];
    var cs: seq<string> := [];
    var i := 0;
    ClassifyStart(pieces, mode);
    while i < |pieces|
      invariant ClassifiedUpTo(pieces, mode, ts, cs, i)
      decreases |pieces| - i
    {
      var code := pieces[i];
      var kind := if LooksLikeDirective(code) then Js else Html;
      ClassifyStep(pieces, mode, ts, cs, i);
      cs := cs + [Rewritten(code, kind, mode)];
      ts := ts + [kind];
      i := i + 1;
    }
    ClassifyDone(pieces, mode, ts, cs, i);
    types, codes := MergeAdjacentHtml(ts, cs);
    MergeKeepsDirectives(ts, cs);
    ClassifiedDirectives(pieces, mode);
    if mode == First {
      ClassifyFirst(pieces);
      assert html[0..] == html;
    }
  }

  /** `templateRegex.test(code)` on a pattern with the `g` flag: the search starts at
      `lastIndex`; success leaves `lastIndex` after the match, failure resets it to 0. */
  function TestGlobal(code: string, lastIndex: nat): (r: (bool, nat))
    ensures r.0 <==> lastIndex <= |code| && FindDirective(code, lastIndex, true).Some?
    ensures !r.0 ==> r.1 == 0
  {
    if lastIndex > |code| then (false, 0)
    else match FindDirective(code, lastIndex, true)
      case Some((_, e)) => (true, e)
      case None => (false, 0)
  }

  /** The pieces of `html` as `split` with the worker's pattern yields them. */
  function WorkerPieces(html: string): seq<string>
  {
    SplitDirectives(html, 0, true)
  }

  /** The classification pass of the worker: each piece is tagged by `test` on the
      shared global pattern, starting from the `lastIndex` the previous test left. */
  function WorkerClassify(pieces: seq<string>, lastIndex: nat, mode: Mode): (s: Segments)
    ensures s.Parallel() && |s.types| == |pieces|
  {
    if |pieces| == 0 then Segments([], [])
    else
      var t := TestGlobal(pieces[0], lastIndex);
      var k := if t.0 then Js else Html;
      var r := WorkerClassify(pieces[1..], t.1, mode);
      Segments([k] + r.types, [Rewritten(pieces[0], k, mode)] + r.codes)
  }

  predicate WorkerClassifiedUpTo(pieces: seq<string>, mode: Mode, ts: seq<Kind>, cs: seq<string>, i: nat, lastIndex: nat)
  {
    i <= |pieces| &&
    var r := WorkerClassify(pieces[i..], lastIndex, mode);
    ts + r.types == WorkerClassify(pieces, 0, mode).types && cs + r.codes == WorkerClassify(pieces, 0, mode).codes
  }

  lemma WorkerClassifyStart(pieces: seq<string>, mode: Mode)
    ensures WorkerClassifiedUpTo(pieces, mode, [], [], 0, 0)
  {
    var r := WorkerClassify(pieces, 0, mode);
    assert pieces[0..] == pieces;
    assert [] + r.types == r.types && [] + r.codes == r.codes;
  }

  lemma WorkerClassifyStep(pieces: seq<string>, mode: Mode, ts: seq<Kind>, cs: seq<string>, i: nat, lastIndex: nat)
    requires WorkerClassifiedUpTo(pieces, mode, ts, cs, i, lastIndex) && i < |pieces|
    ensures var t := TestGlobal(pieces[i], lastIndex); var k := if t.0 then Js else Html;
      WorkerClassifiedUpTo(pieces, mode, ts + [k], cs + [Rewritten(pieces[i], k, mode)], i + 1, t.1)
  {
    var t := TestGlobal(pieces[i], lastIndex);
    var k := if t.0 then Js else Html;
    var r := WorkerClassify(pieces[i + 1..], t.1, mode);
    assert pieces[i..][1..] == pieces[i + 1..];
    ConcatAssoc(ts, [k], r.types);
    ConcatAssoc(cs, [Rewritten(pieces[i], k, mode)], r.codes);
  }

  lemma WorkerClassifyDone(pieces: seq<string>, mode: Mode, ts: seq<Kind>, cs: seq<string>, i: nat, lastIndex: nat)
    requires WorkerClassifiedUpTo(pieces, mode, ts, cs, i, lastIndex) && i >= |pieces|
    ensures Segments(ts, cs) == WorkerClassify(pieces, 0, mode)
  {
    assert pieces[i..] == [];
    assert ts + [] == ts && cs + [] == cs;
  }

  /** In "first" mode the worker's classification rewrites nothing either. */
  lemma {:induction false} WorkerClassifyFirst(pieces: seq<string>, lastIndex: nat)
    ensures WorkerClassify(pieces, lastIndex, First).codes == pieces
  {
    if |pieces| > 0 {
      WorkerClassifyFirst(pieces[1..], TestGlobal(pieces[0], lastIndex).1);
      assert pieces == [pieces[0]] + pieces[1..];
    }
  }

  /** `seperateCode` of the worker (worker.js:109-133): the pattern spans line breaks
      and each piece is classified by `test` on the same global pattern, whose
      `lastIndex` carries over from one piece to the next. */
  method WorkerSeparateCode(html: string, mode: Mode) returns (types: seq<Kind>, codes: seq<string>)
    ensures var c := WorkerClassify(WorkerPieces(html), 0, mode); Segments(types, codes) == Merge(c.types, c.codes)
    ensures |types| == |codes| && NoAdjacentHtml(types)
    ensures mode == First ==> Join(codes, "") == html
  {
    var pieces := WorkerPieces(html);
    var ts: seq<Kind> := [];
    var cs: seq<string> := [];
    var lastIndex := 0;
    var i := 0;
    WorkerClassifyStart(pieces, mode);
    while i < |pieces|
      invariant WorkerClassifiedUpTo(pieces, mode, ts, cs, i, lastIndex)
      decreases |pieces| - i
    {
      var code := pieces[i];
      WorkerClassifyStep(pieces, mode, ts, cs, i, lastIndex);
      var found;
      found, lastIndex := TestGlobal(code, lastIndex).0, TestGlobal(code, lastIndex).1;
      var kind := if found then Js else Html;
      cs := cs + [Rewritten(code, kind, mode)];
      ts := ts + [kind];
      i := i + 1;
    }
    WorkerClassifyDone(pieces, mode, ts, cs, i, lastIndex);
    types, codes := MergeAdjacentHtml(ts, cs);
    if mode == First {
      WorkerClassifyFirst(pieces, 0);
      assert html[0..] == html;
    }
  }
}
