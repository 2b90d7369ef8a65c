/** Evaluation of segments into rendered pieces: `basicCode`, `controlCode`,
    `interpret` and `interpretPart` of etemplate.js. Running a generated function
    body is left to an evaluator handed in as a parameter. */
module Interpreter {
  import opened JsText
  import opened Segmenter
  import opened Blocks

  /** What running a generated function body does: it returns a value (written
      here as its string rendering) or throws with a message. */
  datatype Completion = Normal(value: string) | Thrown(message: string)

  const OpenDelimiter: string := "<%"
  const CloseDelimiter: string := "%>"
  /** `openDelimiter + "%"`: a template written `<%% … %>` is shown, not run. */
  const CommentDelimiter: string := OpenDelimiter + "%"

  /** `escapeHtml(commentDelimiter.replace(commentDelimiter, openDelimiter))`. */
  function EscapedOpenComment(): string
  {
    EscapeHtml(ReplaceFirst(CommentDelimiter, CommentDelimiter, OpenDelimiter))
  }

  /** `escapeHtml(closeDelimiter)`. */
  function EscapedCloseComment(): string
  {
    EscapeHtml(CloseDelimiter)
  }

  /** A comment opener is shown as `<%` and a closer as `%>`, both as entities. */
  lemma EscapedDelimiters()
    ensures EscapedOpenComment() == "&lt;%"
    ensures EscapedCloseComment() == "%&gt;"
  {
    assert OccursAt(CommentDelimiter, CommentDelimiter, 0);
    assert ReplaceFirst(CommentDelimiter, CommentDelimiter, OpenDelimiter) == "<%";
    assert EscapeHtml("%") == "%";
    assert EscapeHtml(">") == "&gt;";
  }

  // ---- the two evaluation wrappers ----

  /** The function body `basicCode` builds: the expression after the sign. */
  function BasicBody(script: string): string
  {
    "\"use strict\"; return ( " + SubstringFrom(script, 1) + " )"
  }

  /** `basicCode(script)` (etemplate.js:1295-1301): the value of the expression, or the
      message of the error it throws. */
  function BasicCode(eval: string -> Completion, script: string): string
  {
    match eval(BasicBody(script))
    case Normal(v) => v
    case Thrown(m) => m
  }

  /** The sign in front of an output expression is never evaluated: `<%= e %>` and
      `<%- e %>` render alike. */
  lemma BasicCodeDropsSign(eval: string -> Completion, a: string, b: string)
    requires |a| > 0 && |b| > 0 && a[1..] == b[1..]
    ensures BasicCode(eval, a) == BasicCode(eval, b)
  {
  }

  /** An error thrown by the expression is rendered as its message. */
  lemma BasicCodeShowsError(eval: string -> Completion, script: string)
    requires eval(BasicBody(script)).Thrown?
    ensures BasicCode(eval, script) == eval(BasicBody(script)).message
  {
  }

  /** The function body `controlCode` builds: the block script without line breaks and tabs. */
  function ControlBody(script: string): string
  {
    "\"use strict\"; " + RemoveControlText(script)
  }

  const InvalidBlock: string := "invalid template block"

  /** `controlCode(script)` (etemplate.js:1303-1309): the value the block returns, or a
      fixed diagnostic when it throws. */
  function ControlCode(eval: string -> Completion, script: string): string
  {
    match eval(ControlBody(script))
    case Normal(v) => v
    case Thrown(_) => InvalidBlock
  }

  /** Whatever a block throws, the same diagnostic is rendered. */
  lemma ControlCodeMasksError(eval: string -> Completion, script: string)
    requires eval(ControlBody(script)).Thrown?
    ensures ControlCode(eval, script) == InvalidBlock
  {
  }

  /** A line break or tab anywhere in a block script does not change what it renders. */
  lemma ControlCodeIgnoresLayout(eval: string -> Completion, a: string, c: char, b: string)
    requires IsControl(c)
    ensures ControlCode(eval, a + [c] + b) == ControlCode(eval, a + b)
  {
    RemoveControlTextConcat(a + [c], b);
    RemoveControlTextConcat(a, [c]);
    RemoveControlTextConcat(a, b);
    assert RemoveControlText([c]) == [];
    assert RemoveControlText(a + [c]) == RemoveControlText(a);
    assert ControlBody(a + [c] + b) == ControlBody(a + b);
  }

  // ---- literals ----

  /** How a literal is rendered: comment openers `<%%` and closers `%>` become entities. */
  function EscapeComments(code: string): string
  {
    ReplaceAll(ReplaceAll(code, CommentDelimiter, EscapedOpenComment()), CloseDelimiter, EscapedCloseComment())
  }

  /** No `%` directly followed by `>`. */
  predicate NoClose(s: string)
  {
    forall k :: 0 <= k < |s| - 1 ==> !(s[k] == '%' && s[k + 1] == '>')
  }

  lemma NoCloseIncludes(s: string)
    ensures NoClose(s) <==> !Includes(s, CloseDelimiter)
  {
    if Includes(s, CloseDelimiter) {
      var r := IndexOf(s, CloseDelimiter);
      var w := s[r..r + 2];
      assert w == CloseDelimiter;
      assert w[0] == s[r] && w[1] == s[r + 1];
    }
    if !NoClose(s) {
      var k :| 0 <= k < |s| - 1 && s[k] == '%' && s[k + 1] == '>';
      assert s[k..k + 2] == CloseDelimiter;
      IncludesAt(s, CloseDelimiter, k);
    }
  }

  lemma NoCloseConcat(a: string, b: string)
    requires NoClose(a) && NoClose(b)
    requires a == [] || b == [] || !(a[|a| - 1] == '%' && b[0] == '>')
    ensures NoClose(a + b)
  {
    var s := a + b;
    forall k | 0 <= k < |s| - 1
      ensures !(s[k] == '%' && s[k + 1] == '>')
    {
      if k + 1 < |a| {
        assert s[k] == a[k] && s[k + 1] == a[k + 1];
      } else if k >= |a| {
        assert s[k] == b[k - |a|] && s[k + 1] == b[k + 1 - |a|];
      } else {
        assert s[k] == a[|a| - 1] && s[k + 1] == b[0];
      }
    }
  }

  /** Joining closer-free pieces with the escaped closer creates no closer. */
  lemma {:induction false} JoinNoClose(parts: seq<string>)
    requires forall k :: 0 <= k < |parts| ==> NoClose(parts[k])
    ensures NoClose(Join(parts, "%&gt;"))
    decreases |parts|
  {
    if |parts| > 1 {
      var sep := "%&gt;";
      JoinNoClose(parts[1..]);
      assert NoClose(sep);
      NoCloseConcat(parts[0], sep);
      NoCloseConcat(parts[0] + sep, Join(parts[1..], sep));
    }
  }

  /** A rendered literal never contains a closing delimiter. */
  lemma EscapeCommentsNoClose(code: string)
    ensures !Includes(EscapeComments(code), CloseDelimiter)
  {
    EscapedDelimiters();
    var x := ReplaceAll(code, CommentDelimiter, EscapedOpenComment());
    var parts := Split(x, CloseDelimiter);
    SplitPiecesFree(x, CloseDelimiter);
    forall k | 0 <= k < |parts|
      ensures NoClose(parts[k])
    {
      NoCloseIncludes(parts[k]);
    }
    JoinNoClose(parts);
    NoCloseIncludes(EscapeComments(code));
  }

  // ---- interpret ----

  /** Where the unit that starts at segment `i` ends, exclusive: a block runs to
      the end `eachBlock` reports, any other segment is a unit on its own. */
  function NextUnit(types: seq<Kind>, codes: seq<string>, i: nat): (n: nat)
    requires |types| == |codes| && i < |codes|
    ensures i < n <= |codes| + 1
  {
    if types[i] == Js && !IsOutput(codes[i]) then EachBlockEnd(types, codes, i) + 1 else i + 1
  }

  /** What `interpret` renders for the unit at `i`. */
  function Unit(eval: string -> Completion, types: seq<Kind>, codes: seq<string>, i: nat): string
    requires |types| == |codes| && i < |codes|
  {
    if types[i] == Html then EscapeComments(codes[i])
    else if IsOutput(codes[i]) then BasicCode(eval, codes[i])
    else ControlCode(eval, BlockScript(types, codes, i))
  }

  /** The rendered units from segment `i` on. */
  function Interpreted(eval: string -> Completion, types: seq<Kind>, codes: seq<string>, i: nat): seq<string>
    requires |types| == |codes|
    decreases |codes| + 1 - i
  {
    if i >= |codes| then [] else [Unit(eval, types, codes, i)] + Interpreted(eval, types, codes, NextUnit(types, codes, i))
  }

  /** `interpret(type, code)` (etemplate.js:609-652). */
  method Interpret(eval: string -> Completion, types: seq<Kind>, codes: seq<string>) returns (htmlBlock: seq<string>)
    requires |types| == |codes|
    ensures htmlBlock == Interpreted(eval, types, codes, 0)
  {
    htmlBlock := [];
    var cnt := 0;
    while cnt < |codes|
      invariant cnt <= |codes| + 1
      invariant htmlBlock + Interpreted(eval, types, codes, cnt) == Interpreted(eval, types, codes, 0)
      decreases |codes| + 1 - cnt
    {
      ghost var cnt0, htmlBlock0 := cnt, htmlBlock;
      if types[cnt] == Html {
        htmlBlock := htmlBlock + [EscapeComments(codes[cnt])];
      } else if IsOutput(codes[cnt]) {
        htmlBlock := htmlBlock + [BasicCode(eval, codes[cnt])];
      } else {
        var partBlock, index := EachBlock(types, codes, cnt);
        cnt := index;
        htmlBlock := htmlBlock + [ControlCode(eval, partBlock)];
      }
      cnt := cnt + 1;
      InterpretStep(eval, types, codes, cnt0, htmlBlock0, cnt, htmlBlock);
    }
  }

  /** One pass of `interpret`'s loop renders the unit at `cnt` and moves past it. */
  lemma InterpretStep(eval: string -> Completion, types: seq<Kind>, codes: seq<string>, cnt: nat, htmlBlock: seq<string>,
                      cnt': nat, htmlBlock': seq<string>)
    requires |types| == |codes| && cnt < |codes|
    requires htmlBlock + Interpreted(eval, types, codes, cnt) == Interpreted(eval, types, codes, 0)
    requires cnt' == NextUnit(types, codes, cnt) && htmlBlock' == htmlBlock + [Unit(eval, types, codes, cnt)]
    ensures htmlBlock' + Interpreted(eval, types, codes, cnt') == Interpreted(eval, types, codes, 0)
  {
    ConcatAssoc(htmlBlock, [Unit(eval, types, codes, cnt)], Interpreted(eval, types, codes, cnt'));
  }

  /** Every block in the template is closed by a directive that brings its brace
      counter back to zero. */
  predicate BlocksClose(types: seq<Kind>, codes: seq<string>)
    requires |types| == |codes|
  {
    forall k :: 0 <= k < |codes| && types[k] == Js && !IsOutput(codes[k]) ==> FirstClose(types, codes, k, k).Some?
  }

  /** The number of groups `makeSyncBlock` forms from segment `i` on. */
  function GroupCount(ends: seq<nat>, i: nat): nat
    requires EndsValid(ends) && i <= |ends|
    decreases |ends| - i
  {
    if i == |ends| then 0 else 1 + GroupCount(ends, ends[i] + 1)
  }

  /** In a template whose blocks all close, a unit of `interpret` is a sync group. */
  lemma UnitIsGroup(types: seq<Kind>, codes: seq<string>, i: nat)
    requires |types| == |codes| && i < |codes| && BlocksClose(types, codes)
    ensures NextUnit(types, codes, i) == GroupLast(types, codes, i) + 1
  {
    if types[i] == Js && !IsOutput(codes[i]) {
      assert FirstClose(types, codes, i, i).Some?;
    }
  }

  /** The number of units `interpret` walks through from segment `i` on. */
  function UnitCount(types: seq<Kind>, codes: seq<string>, i: nat): nat
    requires |types| == |codes|
    decreases |codes| + 1 - i
  {
    if i >= |codes| then 0 else 1 + UnitCount(types, codes, NextUnit(types, codes, i))
  }

  /** `interpret` renders one entry per unit. */
  lemma {:induction false} InterpretedUnits(eval: string -> Completion, types: seq<Kind>, codes: seq<string>, i: nat)
    requires |types| == |codes|
    ensures |Interpreted(eval, types, codes, i)| == UnitCount(types, codes, i)
    decreases |codes| + 1 - i
  {
    if i < |codes| {
      InterpretedLength(eval, types, codes, i);
      InterpretedUnits(eval, types, codes, NextUnit(types, codes, i));
    }
  }

  lemma InterpretedLength(eval: string -> Completion, types: seq<Kind>, codes: seq<string>, i: nat)
    requires |types| == |codes| && i < |codes|
    ensures |Interpreted(eval, types, codes, i)| == 1 + |Interpreted(eval, types, codes, NextUnit(types, codes, i))|
  {
  }

  /** When the unit at every `k` ends at `ends[k]`, units and groups are the same count. */
  lemma {:induction false} UnitsPerGroup(types: seq<Kind>, codes: seq<string>, ends: seq<nat>, i: nat)
    requires |types| == |codes| == |ends| && i <= |codes| && EndsValid(ends)
    requires forall k :: 0 <= k < |codes| ==> NextUnit(types, codes, k) == ends[k] + 1
    ensures UnitCount(types, codes, i) == GroupCount(ends, i)
    decreases |codes| - i
  {
    if i < |codes| {
      var n := ends[i] + 1;
      assert NextUnit(types, codes, i) == n;
      UnitsPerGroup(types, codes, ends, n);
    }
  }

  /** The last id of the groups from `i` on, numbered from `cnt`, is `cnt` plus the number of those groups, less one. */
  lemma {:induction false} LastSyncId(ends: seq<nat>, i: nat, cnt: nat)
    requires EndsValid(ends) && i < |ends|
    ensures var s := SyncFrom(ends, i, cnt); s[|s| - 1] + 1 == cnt + GroupCount(ends, i)
    decreases |ends| - i
  {
    var s := SyncFrom(ends, i, cnt);
    var e := ends[i];
    var rest := SyncFrom(ends, e + 1, cnt + 1);
    assert s == Repeat(cnt, e - i + 1) + rest;
    if e + 1 < |ends| {
      LastSyncId(ends, e + 1, cnt + 1);
      assert s[|s| - 1] == rest[|rest| - 1];
    }
  }

  /** When every block closes, `interpret` renders exactly one entry per sync id:
      entry `n` is the rendering of the segments `makeSyncBlock` numbers `n`. */
  lemma InterpretedPerSyncId(eval: string -> Completion, types: seq<Kind>, codes: seq<string>)
    requires |types| == |codes| && |codes| > 0 && BlocksClose(types, codes)
    ensures var s := SyncFrom(GroupEnds(types, codes), 0, 0);
      |Interpreted(eval, types, codes, 0)| == s[|s| - 1] + 1
  {
    var ends := GroupEnds(types, codes);
    forall k | 0 <= k < |codes|
      ensures NextUnit(types, codes, k) == ends[k] + 1
    {
      UnitIsGroup(types, codes, k);
    }
    InterpretedUnits(eval, types, codes, 0);
    UnitsPerGroup(types, codes, ends, 0);
    LastSyncId(ends, 0, 0);
  }

  // ---- interpretPart: choosing the anchored groups ----

  /** The tag name `interpretPart` reads off a piece of a literal: the text before
      the first space, trimmed (nothing when there is no space). */
  function TagName(tag: string): (r: string)
    ensures IndexOf(tag, " ") == -1 ==> r == ""
  {
    Trim(Substring(tag, 0, IndexOf(tag, " ")))
  }

  /** A piece that mentions both `class=` and the sync class. */
  predicate Anchored(tag: string, eClass: string)
  {
    Includes(tag, "class=") && Includes(tag, eClass)
  }

  /** The index of the last anchored piece, or -1 when there is none. */
  function LastAnchored(tags: seq<string>, eClass: string): (k: int)
    ensures -1 <= k < |tags|
    ensures k >= 0 ==> Anchored(tags[k], eClass)
    ensures forall j :: k < j < |tags| ==> !Anchored(tags[j], eClass)
    decreases |tags|
  {
    if tags == [] then -1
    else if Anchored(tags[|tags| - 1], eClass) then |tags| - 1
    else LastAnchored(tags[..|tags| - 1], eClass)
  }

  /** The name `interpretPart` keeps: that of the last anchored piece, or "" when
      no piece is anchored. */
  function AnchorName(tags: seq<string>, eClass: string): string
  {
    var k := LastAnchored(tags, eClass);
    if k < 0 then "" else TagName(tags[k])
  }

  /** The `tags.forEach` of `interpretPart` (etemplate.js:674-678): each anchored
      piece overwrites the name, so the last one wins. */
  method FindAnchorName(tags: seq<string>, eClass: string) returns (tempStr: string)
    ensures tempStr == AnchorName(tags, eClass)
  {
    tempStr := "";
    var k := 0;
    while k < |tags|
      invariant k <= |tags| && tempStr == AnchorName(tags[..k], eClass)
    {
      assert tags[..k + 1][..k] == tags[..k];
      assert tags[..k + 1][k] == tags[k];
      if Anchored(tags[k], eClass) {
        tempStr := TagName(tags[k]);
      }
      k := k + 1;
    }
    assert tags[..k] == tags;
  }

  /** A literal marks the group after it for re-rendering when one of its tags carries the sync class. */
  predicate MarksGroup(code: string, eClass: string)
  {
    AnchorName(Split(RemoveControlText(code), "<"), eClass) != ""
  }

  /** The test of `interpretPart`'s first phase on one literal (etemplate.js:672-679):
      its tags are the pieces between `<`, once line breaks and tabs are gone. */
  method MarksLiteral(code: string, eClass: string) returns (marked: bool)
    ensures marked == MarksGroup(code, eClass)
  {
    var tags := Split(RemoveControlText(code), "<");
    var tempStr := FindAnchorName(tags, eClass);
    marked := |tempStr| > 0;
  }

  /** The end, exclusive, of the run of ids equal to `b` from `j` on. */
  function RunEnd(sync: seq<nat>, j: nat, b: nat): (e: nat)
    requires j <= |sync|
    ensures j <= e <= |sync|
    ensures forall k :: j <= k < e ==> sync[k] == b
    ensures e < |sync| ==> sync[e] != b
    decreases |sync| - j
  {
    if j == |sync| || sync[j] != b then j else RunEnd(sync, j + 1, b)
  }

  /** `MarksGroup` for every segment. */
  function Marks(codes: seq<string>, eClass: string): (marks: seq<bool>)
    ensures |marks| == |codes| && forall k :: 0 <= k < |codes| ==> marks[k] == MarksGroup(codes[k], eClass)
  {
    seq(|codes|, k requires 0 <= k < |codes| => MarksGroup(codes[k], eClass))
  }

  /** The segments `interpretPart` collects from segment `i` on: after each marked
      literal (`marks`), the run of segments sharing the id of the one that follows it. */
  function Selected(types: seq<Kind>, codes: seq<string>, sync: seq<nat>, marks: seq<bool>, i: nat): (s: Segments)
    requires |types| == |codes| == |sync| == |marks| && i <= |codes|
    ensures s.Parallel()
    decreases |codes| - i
  {
    if i == |codes| then Segments([], [])
    else
      var rest := Selected(types, codes, sync, marks, i + 1);
      if types[i] == Html && marks[i] && i + 1 < |codes| then
        var e := RunEnd(sync, i + 1, sync[i + 1]);
        Segments(types[i + 1..e] + rest.types, codes[i + 1..e] + rest.codes)
      else rest
  }

  /** The inner loop of `interpretPart`'s first phase (etemplate.js:680-689): the
      segments from `start` on that share its id. */
  method CollectRun(types: seq<Kind>, codes: seq<string>, sync: seq<nat>, start: nat) returns (ts: seq<Kind>, cs: seq<string>)
    requires |types| == |codes| == |sync| && start < |codes|
    ensures var e := RunEnd(sync, start, sync[start]); ts == types[start..e] && cs == codes[start..e]
  {
    var blockNo := sync[start];
    ts, cs := [], [];
    var j := start;
    while j < |codes| && sync[j] == blockNo
      invariant start <= j <= |codes|
      invariant RunEnd(sync, start, blockNo) == RunEnd(sync, j, blockNo)
      invariant ts == types[start..j] && cs == codes[start..j]
    {
      ts := ts + [types[j]];
      cs := cs + [codes[j]];
      j := j + 1;
    }
  }

  /** The first phase of `interpretPart` (etemplate.js:667-691). */
  method SelectAnchored(types: seq<Kind>, codes: seq<string>, sync: seq<nat>, eClass: string)
    returns (nType: seq<Kind>, nCode: seq<string>)
    requires |types| == |codes| == |sync|
    ensures Segments(nType, nCode) == Selected(types, codes, sync, Marks(codes, eClass), 0)
  {
    ghost var marks := Marks(codes, eClass);
    nType, nCode := [], [];
    var i := 0;
    SelectStart(types, codes, sync, marks);
    while i < |codes|
      invariant i <= |codes|
      invariant nType + Selected(types, codes, sync, marks, i).types == Selected(types, codes, sync, marks, 0).types
      invariant nCode + Selected(types, codes, sync, marks, i).codes == Selected(types, codes, sync, marks, 0).codes
    {
      ghost var i0, nType0, nCode0 := i, nType, nCode;
      var ts: seq<Kind>, cs: seq<string> := [], [];
      if types[i] == Html {
        var marked := MarksLiteral(codes[i], eClass);
        if marked && i + 1 < |codes| {
          ts, cs := CollectRun(types, codes, sync, i + 1);
        }
      }
      nType, nCode := nType + ts, nCode + cs;
      i := i + 1;
      SelectStep(types, codes, sync, marks, i0, nType0, nCode0, ts, cs, i, nType, nCode);
    }
    SelectDone(types, codes, sync, marks, nType, nCode);
  }

  lemma SelectStart(types: seq<Kind>, codes: seq<string>, sync: seq<nat>, marks: seq<bool>)
    requires |types| == |codes| == |sync| == |marks|
    ensures [] + Selected(types, codes, sync, marks, 0).types == Selected(types, codes, sync, marks, 0).types
    ensures [] + Selected(types, codes, sync, marks, 0).codes == Selected(types, codes, sync, marks, 0).codes
  {
  }

  lemma SelectDone(types: seq<Kind>, codes: seq<string>, sync: seq<nat>, marks: seq<bool>,
                   nType: seq<Kind>, nCode: seq<string>)
    requires |types| == |codes| == |sync| == |marks|
    requires nType + Selected(types, codes, sync, marks, |codes|).types == Selected(types, codes, sync, marks, 0).types
    requires nCode + Selected(types, codes, sync, marks, |codes|).codes == Selected(types, codes, sync, marks, 0).codes
    ensures Segments(nType, nCode) == Selected(types, codes, sync, marks, 0)
  {
    assert nType + [] == nType && nCode + [] == nCode;
  }

  /** One pass of the first phase: the run after a marked literal is appended. */
  lemma SelectStep(types: seq<Kind>, codes: seq<string>, sync: seq<nat>, marks: seq<bool>, i: nat,
                   nType: seq<Kind>, nCode: seq<string>, ts: seq<Kind>, cs: seq<string>,
                   i': nat, nType': seq<Kind>, nCode': seq<string>)
    requires |types| == |codes| == |sync| == |marks| && i < |codes| && i' == i + 1
    requires nType + Selected(types, codes, sync, marks, i).types == Selected(types, codes, sync, marks, 0).types
    requires nCode + Selected(types, codes, sync, marks, i).codes == Selected(types, codes, sync, marks, 0).codes
    requires types[i] == Html && marks[i] && i + 1 < |codes| ==>
      (var e := RunEnd(sync, i + 1, sync[i + 1]); ts == types[i + 1..e] && cs == codes[i + 1..e])
    requires !(types[i] == Html && marks[i] && i + 1 < |codes|) ==> ts == [] && cs == []
    requires nType' == nType + ts && nCode' == nCode + cs
    ensures nType' + Selected(types, codes, sync, marks, i').types == Selected(types, codes, sync, marks, 0).types
    ensures nCode' + Selected(types, codes, sync, marks, i').codes == Selected(types, codes, sync, marks, 0).codes
  {
    var rest := Selected(types, codes, sync, marks, i + 1);
    assert Selected(types, codes, sync, marks, i) == Segments(ts + rest.types, cs + rest.codes);
    ConcatAssoc(nType, ts, rest.types);
    ConcatAssoc(nCode, cs, rest.codes);
  }

  /** With the ids `makeSyncBlock` assigns, the run collected after a literal that
      ends a group is exactly the next group. */
  lemma RunIsGroup(types: seq<Kind>, codes: seq<string>, p: nat)
    requires |types| == |codes| && 0 < p < |codes|
    requires var s := SyncFrom(GroupEnds(types, codes), 0, 0); s[p] != s[p - 1]
    ensures var s := SyncFrom(GroupEnds(types, codes), 0, 0);
      RunEnd(s, p, s[p]) == GroupLast(types, codes, p) + 1
  {
    var ends := GroupEnds(types, codes);
    var s := SyncFrom(ends, 0, 0);
    SyncGroupSame(ends, 0, 0, p, s);
    SyncGroupNext(ends, 0, 0, p, s);
    RunEndAt(s, p, s[p], ends[p] + 1);
  }

  lemma {:induction false} RunEndAt(sync: seq<nat>, j: nat, b: nat, e: nat)
    requires j <= e <= |sync|
    requires forall k :: j <= k < e ==> sync[k] == b
    requires e < |sync| ==> sync[e] != b
    ensures RunEnd(sync, j, b) == e
    decreases e - j
  {
    if j < e {
      RunEndAt(sync, j + 1, b, e);
    }
  }

  // ---- interpretPart: rendering the collected segments ----

  /** An entry of `interpretPart`'s result: a rendered piece, or the values an
      attribute position collected. */
  datatype Entry = Text(text: string) | Values(values: seq<string>)

  function ValuesOf(e: Entry): seq<string>
  {
    match e
    case Text(t) => [t]
    case Values(vs) => vs
  }

  /** A literal that leaves an attribute value open: it ends with `="`. */
  predicate OpensAttribute(code: string)
  {
    SubstringFrom(code, |code| - 2) == "=\""
  }

  /** An output in attribute position joins the last entry: an array grows by the
      value, a string becomes the pair of it and the value. With no entry at all the
      value is lost (the source writes it to index -1 of the array). */
  function MergeValue(acc: seq<Entry>, v: string): (r: seq<Entry>)
    ensures acc == [] ==> r == []
    ensures acc != [] ==>
      |r| == |acc| && r[..|r| - 1] == acc[..|acc| - 1] && r[|r| - 1] == Values(ValuesOf(acc[|acc| - 1]) + [v])
  {
    if acc == [] then acc
    else acc[..|acc| - 1] + [Values(ValuesOf(acc[|acc| - 1]) + [v])]
  }

  /** The loop state of the second phase of `interpretPart`: the position, the
      attribute flag and the entries so far. */
  datatype PartState = PartState(cnt: nat, attr: bool, acc: seq<Entry>)

  /** One pass of the second phase's loop on the segment at `st.cnt`: a literal that
      opens an attribute only sets the flag; any other literal is an entry; an output
      is an entry, or joins the last entry when the flag is set; a block is an entry
      and the position moves past its end. Any directive clears the flag. */
  function PartNext(eval: string -> Completion, types: seq<Kind>, codes: seq<string>, st: PartState): (r: PartState)
    requires |types| == |codes| && st.cnt < |codes|
    ensures st.cnt < r.cnt <= |codes| + 1
  {
    var cnt := st.cnt;
    if types[cnt] == Html then
      if OpensAttribute(codes[cnt]) then PartState(cnt + 1, true, st.acc)
      else PartState(cnt + 1, st.attr, st.acc + [Text(EscapeComments(codes[cnt]))])
    else if IsOutput(codes[cnt]) then
      var v := BasicCode(eval, codes[cnt]);
      PartState(cnt + 1, false, if st.attr then MergeValue(st.acc, v) else st.acc + [Text(v)])
    else
      PartState(NextUnit(types, codes, cnt), false, st.acc + [Text(ControlCode(eval, BlockScript(types, codes, cnt)))])
  }

  /** The entries the second phase of `interpretPart` ends with, from state `st` on. */
  function PartFrom(eval: string -> Completion, types: seq<Kind>, codes: seq<string>, st: PartState): seq<Entry>
    requires |types| == |codes|
    decreases |codes| + 1 - st.cnt
  {
    if st.cnt >= |codes| then st.acc else PartFrom(eval, types, codes, PartNext(eval, types, codes, st))
  }

  /** `interpretPart(oType, oCode, eClass)` (etemplate.js:654-768), with `sync` the
      engine's `htmlSync`. */
  method InterpretPart(eval: string -> Completion, types: seq<Kind>, codes: seq<string>, sync: seq<nat>, eClass: string)
    returns (htmlBlock: seq<Entry>)
    requires |types| == |codes| == |sync|
    ensures var n := Selected(types, codes, sync, Marks(codes, eClass), 0);
      htmlBlock == PartFrom(eval, n.types, n.codes, PartState(0, false, []))
  {
    var nType, nCode := SelectAnchored(types, codes, sync, eClass);
    htmlBlock := [];
    var cnt := 0;
    var attrFlag := false;
    while cnt < |nCode|
      invariant cnt <= |nCode| + 1
      invariant PartFrom(eval, nType, nCode, PartState(cnt, attrFlag, htmlBlock)) ==
        PartFrom(eval, nType, nCode, PartState(0, false, []))
      decreases |nCode| + 1 - cnt
    {
      ghost var st := PartState(cnt, attrFlag, htmlBlock);
      cnt, attrFlag, htmlBlock := PartPass(eval, nType, nCode, cnt, attrFlag, htmlBlock);
      PartStep(eval, nType, nCode, st, PartState(cnt, attrFlag, htmlBlock));
    }
  }

  /** One pass of the second loop of `interpretPart` on the unit at `cnt`. */
  method PartPass(eval: string -> Completion, nType: seq<Kind>, nCode: seq<string>, cnt: nat, attrFlag: bool,
                  htmlBlock: seq<Entry>) returns (cnt': nat, attrFlag': bool, htmlBlock': seq<Entry>)
    requires |nType| == |nCode| && cnt < |nCode|
    ensures PartState(cnt', attrFlag', htmlBlock') == PartNext(eval, nType, nCode, PartState(cnt, attrFlag, htmlBlock))
  {
    cnt', attrFlag', htmlBlock' := cnt, attrFlag, htmlBlock;
    if nType[cnt] == Html {
      if !OpensAttribute(nCode[cnt]) {
        htmlBlock' := htmlBlock' + [Text(EscapeComments(nCode[cnt]))];
      } else {
        attrFlag' := true;
      }
    } else if !attrFlag {
      if IsOutput(nCode[cnt]) {
        htmlBlock' := htmlBlock' + [Text(BasicCode(eval, nCode[cnt]))];
      } else {
        var partBlock, index := EachBlock(nType, nCode, cnt);
        cnt' := index;
        htmlBlock' := htmlBlock' + [Text(ControlCode(eval, partBlock))];
      }
    } else {
      if IsOutput(nCode[cnt]) {
        htmlBlock' := MergeValue(htmlBlock', BasicCode(eval, nCode[cnt]));
      } else {
        var partBlock, index := EachBlock(nType, nCode, cnt);
        cnt' := index;
        htmlBlock' := htmlBlock' + [Text(ControlCode(eval, partBlock))];
      }
      attrFlag' := false;
    }
    cnt' := cnt' + 1;
  }

  /** One pass of the loop leaves the final entries unchanged. */
  lemma PartStep(eval: string -> Completion, types: seq<Kind>, codes: seq<string>, st: PartState, st': PartState)
    requires |types| == |codes| && st.cnt < |codes| && st' == PartNext(eval, types, codes, st)
    ensures PartFrom(eval, types, codes, st) == PartFrom(eval, types, codes, st')
  {
  }

  function Texts(xs: seq<string>): (r: seq<Entry>)
    ensures |r| == |xs| && forall k :: 0 <= k < |xs| ==> r[k] == Text(xs[k])
  {
    seq(|xs|, k requires 0 <= k < |xs| => Text(xs[k]))
  }

  /** Without literals that open an attribute value, the second phase of
      `interpretPart` renders exactly what `interpret` renders, unit by unit. */
  lemma {:induction false} PartWithoutAttributes(eval: string -> Completion, types: seq<Kind>, codes: seq<string>,
                                                 cnt: nat, acc: seq<Entry>)
    requires |types| == |codes|
    requires forall k :: 0 <= k < |codes| && types[k] == Html ==> !OpensAttribute(codes[k])
    ensures PartFrom(eval, types, codes, PartState(cnt, false, acc)) == acc + Texts(Interpreted(eval, types, codes, cnt))
    decreases |codes| + 1 - cnt
  {
    if cnt < |codes| {
      var u := Unit(eval, types, codes, cnt);
      var n := NextUnit(types, codes, cnt);
      var rest := Interpreted(eval, types, codes, n);
      PartPlainStep(eval, types, codes, cnt, acc);
      PartWithoutAttributes(eval, types, codes, n, acc + [Text(u)]);
      assert Interpreted(eval, types, codes, cnt) == [u] + rest;
      TextsCons(acc, u, rest);
    } else {
      assert acc + Texts([]) == acc;
    }
  }

  lemma TextsCons(acc: seq<Entry>, u: string, rest: seq<string>)
    ensures acc + [Text(u)] + Texts(rest) == acc + Texts([u] + rest)
  {
    assert Texts([u] + rest) == [Text(u)] + Texts(rest);
  }

  /** Outside attribute position a unit renders to one entry, as in `interpret`. */
  lemma PartPlainStep(eval: string -> Completion, types: seq<Kind>, codes: seq<string>, cnt: nat, acc: seq<Entry>)
    requires |types| == |codes| && cnt < |codes|
    requires types[cnt] == Html ==> !OpensAttribute(codes[cnt])
    ensures PartNext(eval, types, codes, PartState(cnt, false, acc)) ==
      PartState(NextUnit(types, codes, cnt), false, acc + [Text(Unit(eval, types, codes, cnt))])
  {
  }

  /** An output right after a literal that opens an attribute is not a new entry:
      it joins the last entry rendered before that literal. */
  lemma AttributeJoinsLastEntry(eval: string -> Completion, types: seq<Kind>, codes: seq<string>,
                                cnt: nat, attr: bool, acc: seq<Entry>)
    requires |types| == |codes| && cnt + 1 < |codes|
    requires types[cnt] == Html && OpensAttribute(codes[cnt])
    requires types[cnt + 1] == Js && IsOutput(codes[cnt + 1])
    ensures PartFrom(eval, types, codes, PartState(cnt, attr, acc)) ==
      PartFrom(eval, types, codes, PartState(cnt + 2, false, MergeValue(acc, BasicCode(eval, codes[cnt + 1]))))
  {
    var mid := PartState(cnt + 1, true, acc);
    assert PartNext(eval, types, codes, PartState(cnt, attr, acc)) == mid;
    assert PartNext(eval, types, codes, mid) == PartState(cnt + 2, false, MergeValue(acc, BasicCode(eval, codes[cnt + 1])));
  }
}
