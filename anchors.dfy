/** The anchors `insertSync` (etemplate.js:893-1061) writes into the literals around
    each sync group, so that `sync()` can find the rendered group again: class tokens
    merged into a neighbouring tag, or a `<span>` wrapped around the group. */
module Anchors {
  import opened JsText
  import opened Segmenter
  import opened Blocks
  import opened Interpreter

  /** What `insertSync` changes: the code list, the sync ids, the anchor counter and
      the engine's `templateInClass` entries. */
  datatype Anchoring = Anchoring(code: seq<string>, sync: seq<nat>, syncCnt: nat, templateInClass: map<nat, string>)

  /** One id per segment; the code list may have grown past the last segment. */
  predicate Fits(types: seq<Kind>, st: Anchoring)
  {
    |st.sync| == |types| <= |st.code|
  }

  // ---- the class tokens ----

  /** `${eClass}Cnt${n}`: the token that numbers an anchor. */
  function CntToken(eClass: string, n: nat): string
  {
    eClass + "Cnt" + NatToString(n)
  }

  /** `${eClass}_${attrText}`: the token that lists the attributes a group fills. */
  function AttrToken(eClass: string, attrText: string): string
  {
    eClass + "_" + attrText
  }

  /** The tokens of an anchor in attribute position. */
  function AttrTokens(eClass: string, attrText: string, n: nat): string
  {
    eClass + " " + AttrToken(eClass, attrText) + " " + CntToken(eClass, n)
  }

  /** The tokens of an anchor around an element's content. */
  function PlainTokens(eClass: string, n: nat): string
  {
    eClass + " " + CntToken(eClass, n)
  }

  function SpanOpen(eClass: string, n: nat): string
  {
    "<span class=\"" + PlainTokens(eClass, n) + "\">"
  }

  const SpanClose: string := "</span>"

  /** Tokens written at `k` into an existing class attribute, followed by a space. */
  function InjectAt(s: string, k: int, tokens: string): string
  {
    Substring(s, 0, k) + tokens + " " + SubstringFrom(s, k)
  }

  /** A class attribute holding `tokens`, inserted at `k`. */
  function AddClassAt(s: string, k: int, tokens: string): string
  {
    Substring(s, 0, k) + " class=\"" + tokens + "\" " + SubstringFrom(s, k)
  }

  // ---- reading the literal before a group ----

  /** `array.lastIndexOf(v)` on the ids. */
  function LastIndexOfId(xs: seq<nat>, v: nat): (k: int)
    ensures -1 <= k < |xs|
    ensures k >= 0 ==> xs[k] == v
    ensures forall j :: k < j < |xs| ==> xs[j] != v
    decreases |xs|
  {
    if xs == [] then -1
    else if xs[|xs| - 1] == v then |xs| - 1
    else LastIndexOfId(xs[..|xs| - 1], v)
  }

  /** `lastLetter`: what is left of the literal from its last non-blank character on,
      once line breaks and tabs are removed, trimmed. */
  function LastLetter(prevCode: string): string
  {
    var c := RemoveControlText(prevCode);
    var endBlank := |c| - |TrimEnd(c)|;
    Trim(SubstringFrom(c, |c| - endBlank - 1))
  }

  /** `lastLetter` is the last non-blank character, or "" for a blank literal: the
      test `lastLetter != ">"` asks whether the literal ends inside a tag's text. */
  lemma LastLetterIsLastChar(prevCode: string)
    ensures var t := TrimEnd(RemoveControlText(prevCode));
      LastLetter(prevCode) == if t == [] then "" else [t[|t| - 1]]
  {
    var c := RemoveControlText(prevCode);
    var t := TrimEnd(c);
    var m := |t|;
    if m == 0 {
      var s := SubstringFrom(c, -1);
      assert s == c;
      BlankTrims(c);
    } else {
      var s := c[m - 1..];
      assert SubstringFrom(c, m - 1) == s;
      assert s[0] == t[m - 1];
      OneThenBlanks(s);
    }
  }

  /** A string of blanks trims to nothing. */
  lemma BlankTrims(s: string)
    requires forall k :: 0 <= k < |s| ==> IsSpace(s[k])
    ensures Trim(s) == ""
  {
  }

  /** A non-blank character followed by blanks trims to that character. */
  lemma OneThenBlanks(s: string)
    requires |s| > 0 && !IsSpace(s[0])
    requires forall k :: 1 <= k < |s| ==> IsSpace(s[k])
    ensures Trim(s) == [s[0]]
  {
    var a := TrimStart(s);
    assert |s| - |a| == 0;
    assert a == s;
    var b := TrimEnd(a);
    assert |b| >= 1;
    assert |b| == 1;
  }

  /** The tag name of the literal's last tag (`tagStr`): up to its first space, or up
      to the last `>` when no space comes before it. */
  function PrevTagName(prevCode: string, startPos: int, endPos: int): string
  {
    var spacePos := IndexOfFrom(prevCode, " ", startPos);
    if spacePos == -1 || spacePos > endPos then Substring(prevCode, startPos + 1, endPos)
    else Split(Substring(prevCode, startPos + 1, |prevCode|), " ")[0]
  }

  /** The closing tag of `tag` comes in `next` before any new opening of it. */
  predicate ClosesFirst(next: string, tag: string)
  {
    var close := IndexOf(next, "</" + tag);
    var open := IndexOf(next, "<" + tag);
    Includes(next, "</" + tag) && close < (if open == -1 then |next| else open)
  }

  // ---- the attribute case ----

  /** The first segment in `from .. to-1` that is a literal with a `>` after its
      first character, or -1. */
  function FirstTagEnd(types: seq<Kind>, code: seq<string>, from: nat, to: nat): (j: int)
    requires to <= |types| && to <= |code|
    ensures j == -1 || (from <= j < to && types[j] == Html && IndexOf(code[j], ">") > 0)
    decreases if from < to then to - from else 0
  {
    if from >= to then -1
    else if types[from] == Html && IndexOf(code[from], ">") > 0 then from
    else FirstTagEnd(types, code, from + 1, to)
  }

  /** The ids once every segment strictly between `i` and `j` takes the id of `i`. */
  function Stretched(sync: seq<nat>, i: nat, j: int): (s: seq<nat>)
    requires i < |sync|
    ensures |s| == |sync|
    ensures forall k :: 0 <= k < |sync| ==> s[k] == if i < k < j then sync[i] else sync[k]
  {
    seq(|sync|, k requires 0 <= k < |sync| => if i < k < j then sync[i] else sync[k])
  }

  /** The ids and the group end after the search for the tag that closes an
      attribute group at `i`: when a literal with `>` follows, the group is stretched
      up to it and its end recomputed; otherwise both stay. */
  function GroupEnd(types: seq<Kind>, code: seq<string>, sync: seq<nat>, i: nat, endBlock: int): (r: (seq<nat>, int))
    requires |types| == |sync| <= |code| && i < |sync|
    ensures |r.0| == |sync| && r.0[i] == sync[i]
    ensures i <= endBlock < |sync| ==> i <= r.1 < |sync|
  {
    var j := FirstTagEnd(types, code, i + 1, |sync|);
    if j == -1 then (sync, endBlock)
    else
      var s := Stretched(sync, i, j);
      (s, LastIndexOfId(s, sync[i]))
  }

  /** A literal that opens another attribute of the same tag: it contains `="` and a
      directive follows it. */
  predicate OpensAttr(types: seq<Kind>, code: seq<string>, j: nat)
    requires j < |types| <= |code|
  {
    types[j] == Html && Includes(code[j], "=\"") && j + 1 < |types| && types[j + 1] == Js
  }

  /** The attribute name before the last `=` of a literal, after its last space. */
  function AttrName(s: string): string
  {
    Substring(s, LastIndexOf(s, " ") + 1, LastIndexOf(s, "="))
  }

  /** The attribute name before the literal's last `="`, after the space before it. */
  function FirstAttrName(s: string): string
  {
    var q := LastIndexOf(s, "=\"");
    Substring(s, LastIndexOfFrom(s, " ", q) + 1, q)
  }

  /** The name a literal at `j` contributes: one when it opens an attribute. */
  function AttrOf(types: seq<Kind>, code: seq<string>, j: nat): seq<string>
    requires j < |types| <= |code|
  {
    if OpensAttr(types, code, j) then [AttrName(code[j])] else []
  }

  /** The names of the attributes opened by the literals in `lo .. hi-1`. */
  function AttrNames(types: seq<Kind>, code: seq<string>, lo: nat, hi: nat): seq<string>
    requires hi <= |types| <= |code|
    decreases hi
  {
    if hi <= lo then [] else AttrNames(types, code, lo, hi - 1) + AttrOf(types, code, hi - 1)
  }

  /** One more literal considered by the attribute collection. */
  lemma AttrNamesStep(types: seq<Kind>, code: seq<string>, lo: nat, j: nat, j': nat, before: seq<string>, after: seq<string>)
    requires lo <= j < |types| <= |code| && j' == j + 1
    requires before == AttrNames(types, code, lo, j)
    requires after == before + AttrOf(types, code, j)
    ensures after == AttrNames(types, code, lo, j')
  {
    assert AttrNames(types, code, lo, j') == AttrNames(types, code, lo, j) + AttrOf(types, code, j);
  }


  /** `attrList.push(...)` for a literal that opens another attribute. */
  method PushAttr(types: seq<Kind>, code: seq<string>, j: nat, names: seq<string>) returns (names': seq<string>)
    requires j < |types| <= |code|
    ensures names' == names + AttrOf(types, code, j)
  {
    names' := names;
    if OpensAttr(types, code, j) {
      names' := names' + [AttrName(code[j])];
    }
  }

  /** The value `templateInClass` is meant to keep for a class template: what the
      directive renders (the corrected form of `ClassValueAsWritten`). */
  function ClassValue(eval: string -> Completion, directive: string): string
  {
    BasicCode(eval, directive)
  }

  /** An anchor in attribute position, once the group end and the attribute names
      are known: the tokens go into the class of the literal's open tag, else into
      the class of the tag the next literal closes, else into a new class attribute
      of the literal's open tag. */
  function AttrAnchor(eval: string -> Completion, eClass: string, types: seq<Kind>, st: Anchoring, i: nat, prevCode: string,
                      startPos: int, sync': seq<nat>, attrList: seq<string>): (r: Result<Anchoring>)
    requires Fits(types, st) && 0 < i < |types| && |sync'| == |types|
    ensures r.Success? ==> Fits(types, r.value) && r.value.syncCnt == st.syncCnt + 1 && |r.value.code| == |st.code|
    ensures r.Success? ==> (r.value.templateInClass == st.templateInClass || r.value.templateInClass == st.templateInClass[st.syncCnt := ClassValueAsWritten(eval, st.code[i])])
  {
    var tokens := AttrTokens(eClass, Join(attrList, "+"), st.syncCnt);
    if Includes(SubstringFrom(prevCode, startPos), "class=") then
      var classStart := IndexOfFrom(prevCode, "class=", startPos) + 7;
      Success(Anchoring(st.code[i - 1 := InjectAt(prevCode, classStart, tokens)], sync', st.syncCnt + 1,
                        st.templateInClass[st.syncCnt := ClassValueAsWritten(eval, st.code[i])]))
    else if i + 1 >= |st.code| then Failure(UndefinedRead)
    else
      var nextCode := st.code[i + 1];
      if Includes(Substring(nextCode, 0, IndexOf(nextCode, ">")), "class=") then
        var classStart := IndexOf(nextCode, "class=") + 7;
        Success(Anchoring(st.code[i + 1 := InjectAt(nextCode, classStart, tokens)], sync', st.syncCnt + 1, st.templateInClass))
      else
        var endPos := IndexOfFrom(prevCode, " ", LastIndexOf(prevCode, "<"));
        Success(Anchoring(st.code[i - 1 := AddClassAt(prevCode, endPos + 1, tokens)], sync', st.syncCnt + 1, st.templateInClass))
  }

  /** The attribute case: find where the group ends, collect the attribute names,
      then place the anchor. */
  function AttrCase(eval: string -> Completion, eClass: string, types: seq<Kind>, st: Anchoring, i: nat, prevCode: string,
                    startPos: int, endBlock: int): (r: Result<Anchoring>)
    requires Fits(types, st) && 0 < i <= endBlock < |types|
    ensures r.Success? ==> Fits(types, r.value) && r.value.syncCnt == st.syncCnt + 1 && |r.value.code| == |st.code|
    ensures r.Success? ==> (r.value.templateInClass == st.templateInClass || r.value.templateInClass == st.templateInClass[st.syncCnt := ClassValueAsWritten(eval, st.code[i])])
  {
    var g := GroupEnd(types, st.code, st.sync, i, endBlock);
    var attrList := [FirstAttrName(prevCode)] + AttrNames(types, st.code, i + 1, g.1 + 1);
    AttrAnchor(eval, eClass, types, st, i, prevCode, startPos, g.0, attrList)
  }

  // ---- the content cases ----

  /** The group `i .. endBlock` wrapped in a span: the opening tag ends the literal
      before it and the closing tag starts the entry after it (an entry the list did
      not have is written as `"</span>undefined"`). */
  function SpanWrap(eClass: string, st: Anchoring, i: nat, endBlock: nat): (r: Anchoring)
    requires 0 < i <= endBlock < |st.sync| <= |st.code|
    ensures r.sync == st.sync && r.syncCnt == st.syncCnt + 1 && r.templateInClass == st.templateInClass
    ensures |r.code| >= |st.code| && |r.code| > endBlock + 1
    ensures r.code[i - 1] == st.code[i - 1] + SpanOpen(eClass, st.syncCnt)
    ensures r.code[endBlock + 1] == SpanClose + (if endBlock + 1 < |st.code| then st.code[endBlock + 1] else "undefined")
    ensures forall k :: i <= k <= endBlock ==> r.code[k] == st.code[k]
  {
    var code1 := st.code[i - 1 := st.code[i - 1] + SpanOpen(eClass, st.syncCnt)];
    var k := endBlock + 1;
    var code2 := if k < |code1| then code1[k := SpanClose + code1[k]] else code1 + [SpanClose + "undefined"];
    Anchoring(code2, st.sync, st.syncCnt + 1, st.templateInClass)
  }

  /** An anchor after a literal that ends with a tag: an open tag whose closing tag
      starts the literal after the group gets the tokens in its class; any other
      case is wrapped in a span. */
  function TagAnchor(eClass: string, st: Anchoring, i: nat, prevCode: string, endBlock: nat): (r: Result<Anchoring>)
    requires 0 < i <= endBlock < |st.sync| <= |st.code|
    ensures r.Success? ==> r.value.sync == st.sync && r.value.syncCnt == st.syncCnt + 1 && |r.value.code| >= |st.code|
    ensures r.Success? ==> r.value.templateInClass == st.templateInClass
  {
    var startPos := LastIndexOf(prevCode, "<");
    var endPos := LastIndexOf(prevCode, ">");
    var tag := PrevTagName(prevCode, startPos, endPos);
    if Substring(prevCode, startPos, startPos + 2) == "</" then Success(SpanWrap(eClass, st, i, endBlock))
    else if endBlock + 1 >= |st.code| then Failure(UndefinedRead)
    else
      var next := st.code[endBlock + 1];
      if ClosesFirst(next, tag) && IndexOf(Trim(RemoveControlText(next)), "</" + tag) == 0 then
        Success(TagMerge(eClass, st, i, prevCode, startPos, endPos))
      else Success(SpanWrap(eClass, st, i, endBlock))
  }

  /** The tag before the group closes right after it: the tokens go into the tag's
      class attribute, or into a class attribute added before its `>`. */
  function TagMerge(eClass: string, st: Anchoring, i: nat, prevCode: string, startPos: int, endPos: int): (r: Anchoring)
    requires 0 < i <= |st.code|
    ensures r.sync == st.sync && r.syncCnt == st.syncCnt + 1 && |r.code| == |st.code|
    ensures r.templateInClass == st.templateInClass
  {
    var tokens := PlainTokens(eClass, st.syncCnt);
    if Includes(Substring(prevCode, startPos, |prevCode|), "class=") then
      var classStart := IndexOfFrom(prevCode, "class=", startPos) + 7;
      Anchoring(st.code[i - 1 := InjectAt(prevCode, classStart, tokens)], st.sync, st.syncCnt + 1, st.templateInClass)
    else
      Anchoring(st.code[i - 1 := AddClassAt(prevCode, endPos, tokens)], st.sync, st.syncCnt + 1, st.templateInClass)
  }

  /** The anchor for the group that opens at directive `i`. */
  function Anchor(eval: string -> Completion, eClass: string, types: seq<Kind>, st: Anchoring, i: nat): (r: Result<Anchoring>)
    requires Fits(types, st) && i < |types|
    ensures r.Success? ==> Fits(types, r.value) && r.value.syncCnt == st.syncCnt + 1 && |r.value.code| >= |st.code|
    ensures r.Success? ==> (r.value.templateInClass == st.templateInClass || r.value.templateInClass == st.templateInClass[st.syncCnt := ClassValueAsWritten(eval, st.code[i])])
  {
    if i == 0 then Failure(UndefinedRead)
    else
      var prevCode := st.code[i - 1];
      var endBlock := LastIndexOfId(st.sync, st.sync[i]);
      if LastLetter(prevCode) != ">" then
        var endPos := LastIndexOf(prevCode, ">");
        var startPos := LastIndexOf(prevCode, "<");
        if endPos < startPos then AttrCase(eval, eClass, types, st, i, prevCode, startPos, endBlock)
        else Success(SpanWrap(eClass, st, i, endBlock))
      else TagAnchor(eClass, st, i, prevCode, endBlock)
  }

  // ---- the walk over the segments ----

  /** One pass of `insertSync`'s loop at `i`: a directive is trimmed; a directive whose
      id differs from the one before gets an anchor. The pass yields the new state and
      the id it leaves in `lastSync`. */
  function Pass(eval: string -> Completion, eClass: string, types: seq<Kind>, st: Anchoring, lastSync: int, i: nat)
    : (r: Result<(Anchoring, int)>)
    requires Fits(types, st) && i < |types|
    ensures r.Success? ==> Fits(types, r.value.0)
  {
    var st1 := if types[i] == Js then st.(code := st.code[i := Trim(st.code[i])]) else st;
    if st1.sync[i] != lastSync && types[i] == Js then
      match Anchor(eval, eClass, types, st1, i)
      case Failure(e) => Failure(e)
      case Success(st2) => Success((st2, st1.sync[i]))
    else Success((st1, st1.sync[i]))
  }

  /** The result of `insertSync` from segment `i` on. */
  function InsertFrom(eval: string -> Completion, eClass: string, types: seq<Kind>, st: Anchoring, lastSync: int, i: nat)
    : (r: Result<Anchoring>)
    requires Fits(types, st) && i <= |types|
    ensures r.Success? ==> Fits(types, r.value)
    decreases |types| - i
  {
    if i == |types| then Success(st)
    else match Pass(eval, eClass, types, st, lastSync, i)
      case Failure(e) => Failure(e)
      case Success((st', lastSync')) => InsertFrom(eval, eClass, types, st', lastSync', i + 1)
  }

  /** `insertSync(type, code, sync)` (etemplate.js:893-1061), with the counter and
      `templateInClass` of the engine passed in and the new ones returned. */
  method InsertSync(eval: string -> Completion, eClass: string, types: seq<Kind>, code: seq<string>, sync: seq<nat>,
                    syncCnt: nat, templateInClass: map<nat, string>) returns (r: Result<Anchoring>, kept: map<nat, string>)
    requires |types| == |code| == |sync|
    ensures r == InsertFrom(eval, eClass, types, Anchoring(code, sync, syncCnt, templateInClass), -1, 0)
    ensures kept == ClassesKept(eval, eClass, types, Anchoring(code, sync, syncCnt, templateInClass), -1, 0)
  {
    var st := Anchoring(code, sync, syncCnt, templateInClass);
    ghost var start := st;
    var lastSync: int := -1;
    var i := 0;
    while i < |types|
      invariant i <= |types| && Fits(types, st)
      invariant InsertFrom(eval, eClass, types, st, lastSync, i) == InsertFrom(eval, eClass, types, start, -1, 0)
      invariant ClassesKept(eval, eClass, types, st, lastSync, i) == ClassesKept(eval, eClass, types, start, -1, 0)
    {
      ghost var st0, lastSync0, i0 := st, lastSync, i;
      if types[i] == Js {
        st := st.(code := st.code[i := Trim(st.code[i])]);
      }
      if st.sync[i] != lastSync && types[i] == Js {
        lastSync := st.sync[i];
        var a := PlaceAnchor(eval, eClass, types, st, i);
        if a.Failure? {
          InsertStops(eval, eClass, types, st0, lastSync0, i0);
          return Failure(a.error), st.templateInClass;
        }
        st := a.value;
      } else {
        lastSync := st.sync[i];
      }
      i := i + 1;
      InsertStep(eval, eClass, types, st0, lastSync0, i0, st, lastSync, i);
      ClassesStep(eval, eClass, types, st0, lastSync0, i0, st, lastSync, i);
    }
    r, kept := Success(st), st.templateInClass;
  }

  /** A pass that completes hands its state to the next position. */
  lemma InsertStep(eval: string -> Completion, eClass: string, types: seq<Kind>, st: Anchoring, lastSync: int, i: nat,
                   st': Anchoring, lastSync': int, i': nat)
    requires Fits(types, st) && i < |types| && i' == i + 1
    requires Pass(eval, eClass, types, st, lastSync, i) == Success((st', lastSync'))
    ensures Fits(types, st')
    ensures InsertFrom(eval, eClass, types, st, lastSync, i) == InsertFrom(eval, eClass, types, st', lastSync', i')
  {
  }

  /** A pass that completes leaves the kept classes to the rest of the run. */
  lemma ClassesStep(eval: string -> Completion, eClass: string, types: seq<Kind>, st: Anchoring, lastSync: int, i: nat,
                    st': Anchoring, lastSync': int, i': nat)
    requires Fits(types, st) && i < |types| && i' == i + 1
    requires Pass(eval, eClass, types, st, lastSync, i) == Success((st', lastSync'))
    ensures Fits(types, st')
    ensures ClassesKept(eval, eClass, types, st, lastSync, i) == ClassesKept(eval, eClass, types, st', lastSync', i')
  {
  }

  /** A pass that throws ends the run with that error. */
  lemma InsertStops(eval: string -> Completion, eClass: string, types: seq<Kind>, st: Anchoring, lastSync: int, i: nat)
    requires Fits(types, st) && i < |types| && Pass(eval, eClass, types, st, lastSync, i).Failure?
    ensures InsertFrom(eval, eClass, types, st, lastSync, i) == Failure(Pass(eval, eClass, types, st, lastSync, i).error)
    ensures ClassesKept(eval, eClass, types, st, lastSync, i) == st.templateInClass
  {
  }

  /** The anchor part of one pass (etemplate.js:913-1055). */
  method PlaceAnchor(eval: string -> Completion, eClass: string, types: seq<Kind>, st: Anchoring, i: nat)
    returns (r: Result<Anchoring>)
    requires Fits(types, st) && i < |types|
    ensures r == Anchor(eval, eClass, types, st, i)
  {
    if i == 0 {
      return Failure(UndefinedRead);
    }
    var prevCode := st.code[i - 1];
    var endBlock := LastIndexOfId(st.sync, st.sync[i]);
    if LastLetter(prevCode) != ">" {
      var endPos := LastIndexOf(prevCode, ">");
      var startPos := LastIndexOf(prevCode, "<");
      if endPos < startPos {
        r := PlaceAttrAnchor(eval, eClass, types, st, i, prevCode, startPos, endBlock);
      } else {
        r := Success(SpanWrap(eClass, st, i, endBlock));
      }
    } else {
      r := TagAnchor(eClass, st, i, prevCode, endBlock);
    }
  }

  /** The attribute case of one anchor (etemplate.js:931-990). */
  method PlaceAttrAnchor(eval: string -> Completion, eClass: string, types: seq<Kind>, st: Anchoring, i: nat, prevCode: string,
                         startPos: int, endBlock: int) returns (r: Result<Anchoring>)
    requires Fits(types, st) && 0 < i <= endBlock < |types|
    ensures r == AttrCase(eval, eClass, types, st, i, prevCode, startPos, endBlock)
  {
    var sync', endBlock' := FindGroupEnd(types, st.code, st.sync, i, endBlock);
    assert i <= endBlock' < |types|;
    var attrList := CollectAttrNames(types, st.code, prevCode, i, endBlock');
    r := AttrAnchor(eval, eClass, types, st, i, prevCode, startPos, sync', attrList);
  }

  /** The search for the literal that closes an attribute group (etemplate.js:935-944):
      the first literal after `i` with a `>` after its first character stretches the
      group to the segment before it. */
  method FindGroupEnd(types: seq<Kind>, code: seq<string>, sync: seq<nat>, i: nat, endBlock: int)
    returns (sync': seq<nat>, endBlock': int)
    requires |types| == |sync| <= |code| && i < |sync|
    ensures (sync', endBlock') == GroupEnd(types, code, sync, i, endBlock)
  {
    sync', endBlock' := sync, endBlock;
    var j := i + 1;
    while j < |sync|
      invariant i + 1 <= j <= |sync|
      invariant FirstTagEnd(types, code, i + 1, |sync|) == FirstTagEnd(types, code, j, |sync|)
      invariant sync' == sync && endBlock' == endBlock
    {
      if types[j] == Html && IndexOf(code[j], ">") > 0 {
        var k := i + 1;
        while k < j
          invariant i + 1 <= k <= j
          invariant |sync'| == |sync| && forall m :: 0 <= m < |sync| ==> sync'[m] == if i < m < k then sync[i] else sync[m]
        {
          sync' := sync'[k := sync'[i]];
          k := k + 1;
        }
        assert sync' == Stretched(sync, i, j);
        endBlock' := LastIndexOfId(sync', sync'[i]);
        return;
      }
      j := j + 1;
    }
  }

  /** The attribute names of an attribute group (etemplate.js:934, 945-949): the one
      before the directive, then one for every later literal of the group that opens
      another attribute. */
  method CollectAttrNames(types: seq<Kind>, code: seq<string>, prevCode: string, i: nat, endBlock: nat)
    returns (attrList: seq<string>)
    requires |types| <= |code| && i <= endBlock < |types|
    ensures attrList == [FirstAttrName(prevCode)] + AttrNames(types, code, i + 1, endBlock + 1)
  {
    var more: seq<string> := [];
    var j := i + 1;
    while j <= endBlock
      invariant i + 1 <= j <= endBlock + 1
      invariant more == AttrNames(types, code, i + 1, j)
    {
      ghost var before, j0 := more, j;
      more := PushAttr(types, code, j, more);
      j := j + 1;
      AttrNamesStep(types, code, i + 1, j0, j, before, more);
    }
    assert j == endBlock + 1;
    attrList := [FirstAttrName(prevCode)] + more;
  }


  // ---- what the anchors promise ----

  /** `t` occurs in `s` at `p` and is not glued to an `=` before it: a class token as
      the anchors write it, after a blank, a `"` or at the start of the entry. */
  predicate WordAt(s: string, t: string, p: int)
  {
    OccursAt(s, t, p) && (p == 0 || s[p - 1] != '=')
  }

  ghost predicate HasWord(s: string, t: string)
  {
    exists p :: WordAt(s, t, p)
  }

  /** Some entry of the code list holds `t` as a token. */
  ghost predicate Carries(code: seq<string>, t: string)
  {
    exists k :: 0 <= k < |code| && HasWord(code[k], t)
  }

  /** Some entry of the code list carries the token `${eClass}Cnt${n}`. */
  ghost predicate Numbered(code: seq<string>, eClass: string, n: nat)
  {
    Carries(code, CntToken(eClass, n))
  }

  /** A token no insertion point of `insertSync` can fall into: no blank, `=` or `>`. */
  predicate Solid(t: string)
  {
    |t| > 0 && forall k :: 0 <= k < |t| ==> !IsSpace(t[k]) && t[k] != '=' && t[k] != '>'
  }

  /** A sync class the anchors can number: no blank, `=` or `>` in it. */
  predicate PlainClass(eClass: string)
  {
    forall k :: 0 <= k < |eClass| ==> !IsSpace(eClass[k]) && eClass[k] != '=' && eClass[k] != '>'
  }

  /** With a plain sync class, every counter token is solid. */
  lemma CntTokenSolid(eClass: string, n: nat)
    requires PlainClass(eClass)
    ensures Solid(CntToken(eClass, n))
  {
    var s := CntToken(eClass, n);
    var d := NatToString(n);
    assert s == eClass + "Cnt" + d;
    forall k | 0 <= k < |s|
      ensures !IsSpace(s[k]) && s[k] != '=' && s[k] != '>'
    {
      if k < |eClass| {
        assert s[k] == eClass[k];
      } else if k < |eClass| + 3 {
        assert s[k] == "Cnt"[k - |eClass|];
      } else {
        assert s[k] == d[k - |eClass| - 3];
        assert IsDigit(d[k - |eClass| - 3]);
      }
    }
  }

  /** A token right after a blank is a token of the text around it. */
  lemma WordInside(a: string, t: string, b: string)
    requires |a| > 0 && a[|a| - 1] == ' '
    ensures HasWord(a + t + b, t)
  {
    var s := a + t + b;
    assert s[|a|..|a| + |t|] == t;
    assert s[|a| - 1] == ' ';
    assert WordAt(s, t, |a|);
  }

  /** Text inserted at `q` keeps a token that does not straddle `q`, as long as the
      text does not end with `=`. */
  lemma InsertKeepsWord(s: string, q: int, x: string, t: string, p: int)
    requires 0 <= q <= |s| && |x| > 0 && x[|x| - 1] != '='
    requires WordAt(s, t, p) && !(p < q < p + |t|)
    ensures HasWord(s[..q] + x + s[q..], t)
  {
    var u := s[..q] + x + s[q..];
    if p + |t| <= q {
      assert u[p..p + |t|] == s[p..p + |t|];
      assert p > 0 ==> u[p - 1] == s[p - 1];
      assert WordAt(u, t, p);
    } else {
      var p' := p + |x|;
      assert u[p'..p' + |t|] == s[p..p + |t|];
      assert u[p' - 1] == if p == q then x[|x| - 1] else s[p - 1];
      assert WordAt(u, t, p');
    }
  }

  /** `s.substring(0, k) + x + s.substring(k)` is an insertion at `k` clamped to `s`. */
  lemma SpliceAt(s: string, k: int, x: string)
    ensures var q := Clamp(k, 0, |s|);
      Substring(s, 0, k) + x + SubstringFrom(s, k) == s[..q] + x + s[q..]
  {
  }

  /** Tokens written after a `class=` keep every solid token of the literal. */
  lemma InjectKeepsWord(s: string, idx: int, tokens: string, t: string)
    requires OccursAt(s, "class=", idx) && HasWord(s, t) && Solid(t)
    ensures HasWord(InjectAt(s, idx + 7, tokens), t)
  {
    var p :| WordAt(s, t, p);
    var q := Clamp(idx + 7, 0, |s|);
    SpliceAt(s, idx + 7, tokens + " ");
    assert InjectAt(s, idx + 7, tokens) == s[..q] + (tokens + " ") + s[q..];
    assert s[idx + 5] == "class="[5];
    assert forall j :: p <= j < p + |t| ==> s[j] == t[j - p];
    assert q < |s| ==> q == idx + 7;
    InsertKeepsWord(s, q, tokens + " ", t, p);
  }

  /** A class attribute added after a blank, at a `>` or at the start keeps every
      solid token of the literal. */
  lemma AddClassKeepsWord(s: string, k: int, tokens: string, t: string)
    requires HasWord(s, t) && Solid(t)
    requires k <= 0 || (k < |s| && s[k] == '>') || (k <= |s| && s[k - 1] == ' ')
    ensures HasWord(AddClassAt(s, k, tokens), t)
  {
    var p :| WordAt(s, t, p);
    var q := Clamp(k, 0, |s|);
    SpliceAt(s, k, " class=\"" + tokens + "\" ");
    assert AddClassAt(s, k, tokens) == s[..q] + (" class=\"" + tokens + "\" ") + s[q..];
    assert forall j :: p <= j < p + |t| ==> s[j] == t[j - p];
    InsertKeepsWord(s, q, " class=\"" + tokens + "\" ", t, p);
  }

  /** Text put in front of a literal keeps its solid tokens. */
  lemma PrependKeepsWord(x: string, s: string, t: string)
    requires HasWord(s, t) && |x| > 0 && x[|x| - 1] != '='
    ensures HasWord(x + s, t)
  {
    var p :| WordAt(s, t, p);
    assert s[..0] + x + s[0..] == x + s;
    InsertKeepsWord(s, 0, x, t, p);
  }

  /** Text put after a literal keeps its tokens. */
  lemma AppendKeepsWord(s: string, x: string, t: string)
    requires HasWord(s, t)
    ensures HasWord(s + x, t)
  {
    var p :| WordAt(s, t, p);
    var u := s + x;
    assert u[p..p + |t|] == s[p..p + |t|];
    assert p > 0 ==> u[p - 1] == s[p - 1];
    assert WordAt(u, t, p);
  }

  /** Trimming a directive keeps its solid tokens. */
  lemma TrimKeepsWord(s: string, t: string)
    requires HasWord(s, t) && Solid(t)
    ensures HasWord(Trim(s), t)
  {
    var p :| WordAt(s, t, p);
    var u := TrimStart(s);
    assert !IsSpace(t[0]);
    TrimStartKeeps(s, t, p);
    TrimEndKeeps(u, t, p - (|s| - |u|));
  }

  /** Blanks removed in front of a solid token move it, and nothing more. */
  lemma TrimStartKeeps(s: string, t: string, p: int)
    requires WordAt(s, t, p) && |t| > 0 && !IsSpace(t[0])
    ensures WordAt(TrimStart(s), t, p - (|s| - |TrimStart(s)|))
  {
    var u := TrimStart(s);
    var a := |s| - |u|;
    WordStart(s, t, p);
    TrimStartBefore(s, p);
    DropKeepsWord(s, u, t, p, a);
  }

  /** A token starts with its first character. */
  lemma WordStart(s: string, t: string, p: int)
    requires WordAt(s, t, p) && |t| > 0
    ensures p < |s| && s[p] == t[0]
  {
    assert s[p..p + |t|][0] == s[p];
  }

  /** `trimStart` stops at or before the first non-blank character. */
  lemma TrimStartBefore(s: string, p: nat)
    requires p < |s| && !IsSpace(s[p])
    ensures |s| - |TrimStart(s)| <= p
  {
  }

  /** Dropping a prefix that ends at or before a token moves the token, and nothing more. */
  lemma DropKeepsWord(s: string, u: string, t: string, p: int, a: nat)
    requires WordAt(s, t, p) && a <= p && u == s[a..]
    ensures WordAt(u, t, p - a)
  {
    assert u[p - a..p - a + |t|] == s[p..p + |t|];
    assert p - a > 0 ==> u[p - a - 1] == s[p - 1];
  }

  /** Blanks removed after a solid token leave it in place. */
  lemma TrimEndKeeps(u: string, t: string, p: int)
    requires WordAt(u, t, p) && Solid(t)
    ensures WordAt(TrimEnd(u), t, p)
  {
    var v := TrimEnd(u);
    assert u[p + |t| - 1] == t[|t| - 1];
    assert p + |t| <= |v|;
    assert v[p..p + |t|] == u[p..p + |t|];
    assert p > 0 ==> v[p - 1] == u[p - 1];
  }

  /** Rewriting one entry keeps a token the list carried, if the rewrite keeps the
      tokens of that entry. */
  lemma UpdateKeeps(code: seq<string>, j: nat, s: string, t: string)
    requires j < |code| && Carries(code, t) && (HasWord(code[j], t) ==> HasWord(s, t))
    ensures Carries(code[j := s], t)
  {
    var k :| 0 <= k < |code| && HasWord(code[k], t);
    assert HasWord(code[j := s][k], t);
  }

  /** A new entry keeps the tokens the list carried. */
  lemma SnocKeeps(code: seq<string>, s: string, t: string)
    requires Carries(code, t)
    ensures Carries(code + [s], t)
  {
    var k :| 0 <= k < |code| && HasWord(code[k], t);
    assert (code + [s])[k] == code[k];
  }

  /** A token that is a word in entry `k` is carried by the list. */
  lemma CarriedAt(code: seq<string>, k: nat, t: string)
    requires k < |code| && HasWord(code[k], t)
    ensures Carries(code, t)
  {
  }

  /** The inserted class tokens end with the counter token after a blank. */
  lemma InjectWritesWord(s: string, k: int, head: string, n: nat, eClass: string)
    ensures HasWord(InjectAt(s, k, head + " " + CntToken(eClass, n)), CntToken(eClass, n))
  {
    var t := CntToken(eClass, n);
    var a := Substring(s, 0, k) + head + " ";
    assert InjectAt(s, k, head + " " + t) == a + t + (" " + SubstringFrom(s, k));
    WordInside(a, t, " " + SubstringFrom(s, k));
  }

  lemma AddClassWritesWord(s: string, k: int, head: string, n: nat, eClass: string)
    ensures HasWord(AddClassAt(s, k, head + " " + CntToken(eClass, n)), CntToken(eClass, n))
  {
    var t := CntToken(eClass, n);
    var a := Substring(s, 0, k) + " class=\"" + head + " ";
    assert AddClassAt(s, k, head + " " + t) == a + t + ("\" " + SubstringFrom(s, k));
    WordInside(a, t, "\" " + SubstringFrom(s, k));
  }

  lemma SpanWritesWord(s: string, eClass: string, n: nat)
    ensures HasWord(s + SpanOpen(eClass, n), CntToken(eClass, n))
  {
    var t := CntToken(eClass, n);
    var a := s + "<span class=\"" + eClass + " ";
    assert s + SpanOpen(eClass, n) == a + t + "\">";
    WordInside(a, t, "\">");
  }

  /** Every anchor carries the number it was given: after a successful anchor, some
      entry of the code list holds `${eClass}Cnt${n}` for the counter's old value. */
  lemma AnchorWritesToken(eval: string -> Completion, eClass: string, types: seq<Kind>, st: Anchoring, i: nat)
    requires Fits(types, st) && i < |types| && Anchor(eval, eClass, types, st, i).Success?
    ensures Numbered(Anchor(eval, eClass, types, st, i).value.code, eClass, st.syncCnt)
  {
    var prevCode := st.code[i - 1];
    var endBlock := LastIndexOfId(st.sync, st.sync[i]);
    var endPos := LastIndexOf(prevCode, ">");
    var startPos := LastIndexOf(prevCode, "<");
    if LastLetter(prevCode) != ">" && endPos < startPos {
      AttrCaseWritesToken(eval, eClass, types, st, i, prevCode, startPos, endBlock);
    } else if LastLetter(prevCode) != ">" {
      SpanWrapWritesToken(eClass, st, i, endBlock);
    } else {
      TagAnchorWritesToken(eClass, st, i, prevCode, endBlock);
    }
  }

  lemma AttrCaseWritesToken(eval: string -> Completion, eClass: string, types: seq<Kind>, st: Anchoring, i: nat, prevCode: string,
                            startPos: int, endBlock: int)
    requires Fits(types, st) && 0 < i <= endBlock < |types|
    ensures var r := AttrCase(eval, eClass, types, st, i, prevCode, startPos, endBlock);
      r.Success? ==> Numbered(r.value.code, eClass, st.syncCnt)
  {
    var g := GroupEnd(types, st.code, st.sync, i, endBlock);
    var attrList := [FirstAttrName(prevCode)] + AttrNames(types, st.code, i + 1, g.1 + 1);
    AttrAnchorWritesToken(eval, eClass, types, st, i, prevCode, startPos, g.0, attrList);
  }

  lemma SpanWrapWritesToken(eClass: string, st: Anchoring, i: nat, endBlock: nat)
    requires 0 < i <= endBlock < |st.sync| <= |st.code|
    ensures Numbered(SpanWrap(eClass, st, i, endBlock).code, eClass, st.syncCnt)
  {
    SpanWritesWord(st.code[i - 1], eClass, st.syncCnt);
    CarriedAt(SpanWrap(eClass, st, i, endBlock).code, i - 1, CntToken(eClass, st.syncCnt));
  }

  lemma AttrAnchorWritesToken(eval: string -> Completion, eClass: string, types: seq<Kind>, st: Anchoring, i: nat, prevCode: string,
                              startPos: int, sync': seq<nat>, attrList: seq<string>)
    requires Fits(types, st) && 0 < i < |types| && |sync'| == |types|
    ensures var r := AttrAnchor(eval, eClass, types, st, i, prevCode, startPos, sync', attrList);
      r.Success? ==> Numbered(r.value.code, eClass, st.syncCnt)
  {
    var t := CntToken(eClass, st.syncCnt);
    var head := eClass + " " + AttrToken(eClass, Join(attrList, "+"));
    assert AttrTokens(eClass, Join(attrList, "+"), st.syncCnt) == head + " " + t;
    if Includes(SubstringFrom(prevCode, startPos), "class=") {
      InjectWritesWord(prevCode, IndexOfFrom(prevCode, "class=", startPos) + 7, head, st.syncCnt, eClass);
      CarriedAt(AttrAnchor(eval, eClass, types, st, i, prevCode, startPos, sync', attrList).value.code, i - 1, t);
    } else if i + 1 >= |st.code| {
    } else if Includes(Substring(st.code[i + 1], 0, IndexOf(st.code[i + 1], ">")), "class=") {
      var nextCode := st.code[i + 1];
      InjectWritesWord(nextCode, IndexOf(nextCode, "class=") + 7, head, st.syncCnt, eClass);
      CarriedAt(AttrAnchor(eval, eClass, types, st, i, prevCode, startPos, sync', attrList).value.code, i + 1, t);
    } else {
      AddClassWritesWord(prevCode, IndexOfFrom(prevCode, " ", LastIndexOf(prevCode, "<")) + 1, head, st.syncCnt, eClass);
      CarriedAt(AttrAnchor(eval, eClass, types, st, i, prevCode, startPos, sync', attrList).value.code, i - 1, t);
    }
  }

  lemma TagAnchorWritesToken(eClass: string, st: Anchoring, i: nat, prevCode: string, endBlock: nat)
    requires 0 < i <= endBlock < |st.sync| <= |st.code|
    ensures var r := TagAnchor(eClass, st, i, prevCode, endBlock);
      r.Success? ==> Numbered(r.value.code, eClass, st.syncCnt)
  {
    SpanWrapWritesToken(eClass, st, i, endBlock);
    TagMergeWritesToken(eClass, st, i, prevCode, LastIndexOf(prevCode, "<"), LastIndexOf(prevCode, ">"));
  }

  /** Merging the tokens into the tag before the group writes the counter token. */
  lemma TagMergeWritesToken(eClass: string, st: Anchoring, i: nat, prevCode: string, startPos: int, endPos: int)
    requires 0 < i <= |st.code|
    ensures Numbered(TagMerge(eClass, st, i, prevCode, startPos, endPos).code, eClass, st.syncCnt)
  {
    var code := TagMerge(eClass, st, i, prevCode, startPos, endPos).code;
    InjectWritesWord(prevCode, IndexOfFrom(prevCode, "class=", startPos) + 7, eClass, st.syncCnt, eClass);
    AddClassWritesWord(prevCode, endPos, eClass, st.syncCnt, eClass);
    CarriedAt(code, i - 1, CntToken(eClass, st.syncCnt));
  }

  // ---- later anchors keep the earlier ones ----

  /** A `class=` found in a slice from `a` on is found by the search from `a`. */
  /** A `class=` in `s.substring(a)` is found by `s.indexOf("class=", a)`. */
  lemma ClassFoundFrom(s: string, a: int)
    requires Includes(SubstringFrom(s, a), "class=")
    ensures OccursAt(s, "class=", IndexOfFrom(s, "class=", a))
  {
    FoundFrom(s, "class=", a);
  }

  lemma FoundFrom(s: string, t: string, a: int)
    requires Includes(Substring(s, a, |s|), t)
    ensures IndexOfFrom(s, t, a) != -1
  {
    var c := Clamp(a, 0, |s|);
    assert Substring(s, a, |s|) == s[c..];
    var j := IndexOf(s[c..], t);
    OccursInSlice(s, t, c, |s|, j);
  }

  /** A `class=` found in a prefix is found in the whole literal. */
  lemma FoundInPrefix(s: string, t: string, b: int)
    requires Includes(Substring(s, 0, b), t)
    ensures IndexOf(s, t) != -1
  {
    var c := Clamp(b, 0, |s|);
    assert Substring(s, 0, b) == s[0..c];
    var j := IndexOf(s[0..c], t);
    OccursInSlice(s, t, 0, c, j);
  }

  /** The span around a group keeps every token the list carried. */
  lemma SpanWrapKeeps(eClass: string, st: Anchoring, i: nat, endBlock: nat, t: string)
    requires 0 < i <= endBlock < |st.sync| <= |st.code|
    requires Carries(st.code, t) && Solid(t)
    ensures Carries(SpanWrap(eClass, st, i, endBlock).code, t)
  {
    var code1 := st.code[i - 1 := st.code[i - 1] + SpanOpen(eClass, st.syncCnt)];
    if HasWord(st.code[i - 1], t) {
      AppendKeepsWord(st.code[i - 1], SpanOpen(eClass, st.syncCnt), t);
    }
    UpdateKeeps(st.code, i - 1, st.code[i - 1] + SpanOpen(eClass, st.syncCnt), t);
    var k := endBlock + 1;
    if k < |code1| {
      if HasWord(code1[k], t) {
        PrependKeepsWord(SpanClose, code1[k], t);
      }
      UpdateKeeps(code1, k, SpanClose + code1[k], t);
    } else {
      SnocKeeps(code1, SpanClose + "undefined", t);
    }
  }

  /** Tokens written after a `class=` of one entry keep the tokens the list carried. */
  lemma InjectEntryKeeps(code: seq<string>, j: nat, idx: int, tokens: string, t: string)
    requires j < |code| && OccursAt(code[j], "class=", idx) && Carries(code, t) && Solid(t)
    ensures Carries(code[j := InjectAt(code[j], idx + 7, tokens)], t)
  {
    if HasWord(code[j], t) {
      InjectKeepsWord(code[j], idx, tokens, t);
    }
    UpdateKeeps(code, j, InjectAt(code[j], idx + 7, tokens), t);
  }

  /** A class attribute added to one entry keeps the tokens the list carried. */
  lemma AddClassEntryKeeps(code: seq<string>, j: nat, k: int, tokens: string, t: string)
    requires j < |code| && Carries(code, t) && Solid(t)
    requires k <= 0 || (k < |code[j]| && code[j][k] == '>') || (k <= |code[j]| && code[j][k - 1] == ' ')
    ensures Carries(code[j := AddClassAt(code[j], k, tokens)], t)
  {
    if HasWord(code[j], t) {
      AddClassKeepsWord(code[j], k, tokens, t);
    }
    UpdateKeeps(code, j, AddClassAt(code[j], k, tokens), t);
  }

  /** The class attribute added in attribute position goes after the first blank
      after the last `<`, or at the start. */
  lemma AfterBlank(s: string)
    ensures var k := IndexOfFrom(s, " ", LastIndexOf(s, "<")) + 1;
      k <= 0 || (k <= |s| && s[k - 1] == ' ')
  {
    var sp := IndexOfFrom(s, " ", LastIndexOf(s, "<"));
    if sp != -1 {
      assert s[sp..sp + 1] == " ";
    }
  }

  /** The class attribute added by a tag merge goes before the last `>`, or at the start. */
  lemma AtLastClose(s: string)
    ensures var k := LastIndexOf(s, ">");
      k <= 0 || (k < |s| && s[k] == '>')
  {
    var k := LastIndexOf(s, ">");
    if k != -1 {
      assert s[k..k + 1] == ">";
    }
  }

  /** An anchor in attribute position keeps every solid token the list carried. */
  lemma AttrAnchorKeeps(eval: string -> Completion, eClass: string, types: seq<Kind>, st: Anchoring, i: nat, prevCode: string,
                        startPos: int, sync': seq<nat>, attrList: seq<string>, t: string)
    requires Fits(types, st) && 0 < i < |types| && |sync'| == |types| && prevCode == st.code[i - 1]
    requires Carries(st.code, t) && Solid(t)
    ensures var r := AttrAnchor(eval, eClass, types, st, i, prevCode, startPos, sync', attrList);
      r.Success? ==> Carries(r.value.code, t)
  {
    if Includes(SubstringFrom(prevCode, startPos), "class=") {
      ClassBeforeKeeps(eval, eClass, types, st, i, prevCode, startPos, sync', attrList, t);
    } else if i + 1 >= |st.code| {
    } else if Includes(Substring(st.code[i + 1], 0, IndexOf(st.code[i + 1], ">")), "class=") {
      ClassAfterKeeps(eval, eClass, types, st, i, prevCode, startPos, sync', attrList, t);
    } else {
      NewClassKeeps(eval, eClass, types, st, i, prevCode, startPos, sync', attrList, t);
    }
  }

  /** `AttrAnchorKeeps` when the tag before the group has a class attribute. */
  lemma ClassBeforeKeeps(eval: string -> Completion, eClass: string, types: seq<Kind>, st: Anchoring, i: nat, prevCode: string,
                         startPos: int, sync': seq<nat>, attrList: seq<string>, t: string)
    requires Fits(types, st) && 0 < i < |types| && |sync'| == |types| && prevCode == st.code[i - 1]
    requires Carries(st.code, t) && Solid(t)
    requires Includes(SubstringFrom(prevCode, startPos), "class=")
    ensures var r := AttrAnchor(eval, eClass, types, st, i, prevCode, startPos, sync', attrList);
      r.Success? ==> Carries(r.value.code, t)
  {
    var tokens := AttrTokens(eClass, Join(attrList, "+"), st.syncCnt);
    var r := AttrAnchor(eval, eClass, types, st, i, prevCode, startPos, sync', attrList);
    var idx := IndexOfFrom(prevCode, "class=", startPos);
    ClassFoundFrom(prevCode, startPos);
    InjectEntryKeeps(st.code, i - 1, idx, tokens, t);
    assert r.value.code == st.code[i - 1 := InjectAt(prevCode, idx + 7, tokens)];
  }

  /** `AttrAnchorKeeps` when the tag after the group has a class attribute. */
  lemma ClassAfterKeeps(eval: string -> Completion, eClass: string, types: seq<Kind>, st: Anchoring, i: nat, prevCode: string,
                        startPos: int, sync': seq<nat>, attrList: seq<string>, t: string)
    requires Fits(types, st) && 0 < i < |types| && |sync'| == |types| && prevCode == st.code[i - 1]
    requires Carries(st.code, t) && Solid(t)
    requires !Includes(SubstringFrom(prevCode, startPos), "class=") && i + 1 < |st.code|
    requires Includes(Substring(st.code[i + 1], 0, IndexOf(st.code[i + 1], ">")), "class=")
    ensures var r := AttrAnchor(eval, eClass, types, st, i, prevCode, startPos, sync', attrList);
      r.Success? ==> Carries(r.value.code, t)
  {
    var tokens := AttrTokens(eClass, Join(attrList, "+"), st.syncCnt);
    var r := AttrAnchor(eval, eClass, types, st, i, prevCode, startPos, sync', attrList);
    FoundInPrefix(st.code[i + 1], "class=", IndexOf(st.code[i + 1], ">"));
    var idx := IndexOf(st.code[i + 1], "class=");
    InjectEntryKeeps(st.code, i + 1, idx, tokens, t);
    assert r.value.code == st.code[i + 1 := InjectAt(st.code[i + 1], idx + 7, tokens)];
  }

  /** `AttrAnchorKeeps` when neither tag has a class attribute. */
  lemma NewClassKeeps(eval: string -> Completion, eClass: string, types: seq<Kind>, st: Anchoring, i: nat, prevCode: string,
                      startPos: int, sync': seq<nat>, attrList: seq<string>, t: string)
    requires Fits(types, st) && 0 < i < |types| && |sync'| == |types| && prevCode == st.code[i - 1]
    requires Carries(st.code, t) && Solid(t)
    requires !Includes(SubstringFrom(prevCode, startPos), "class=") && i + 1 < |st.code|
    requires !Includes(Substring(st.code[i + 1], 0, IndexOf(st.code[i + 1], ">")), "class=")
    ensures var r := AttrAnchor(eval, eClass, types, st, i, prevCode, startPos, sync', attrList);
      r.Success? ==> Carries(r.value.code, t)
  {
    var tokens := AttrTokens(eClass, Join(attrList, "+"), st.syncCnt);
    var r := AttrAnchor(eval, eClass, types, st, i, prevCode, startPos, sync', attrList);
    AfterBlank(prevCode);
    var k := IndexOfFrom(prevCode, " ", LastIndexOf(prevCode, "<")) + 1;
    AddClassEntryKeeps(st.code, i - 1, k, tokens, t);
    assert r.value.code == st.code[i - 1 := AddClassAt(prevCode, k, tokens)];
  }

  lemma AttrCaseKeeps(eval: string -> Completion, eClass: string, types: seq<Kind>, st: Anchoring, i: nat, prevCode: string,
                      startPos: int, endBlock: int, t: string)
    requires Fits(types, st) && 0 < i <= endBlock < |types| && prevCode == st.code[i - 1]
    requires Carries(st.code, t) && Solid(t)
    ensures var r := AttrCase(eval, eClass, types, st, i, prevCode, startPos, endBlock);
      r.Success? ==> Carries(r.value.code, t)
  {
    var g := GroupEnd(types, st.code, st.sync, i, endBlock);
    var attrList := [FirstAttrName(prevCode)] + AttrNames(types, st.code, i + 1, g.1 + 1);
    AttrAnchorKeeps(eval, eClass, types, st, i, prevCode, startPos, g.0, attrList, t);
  }

  /** Merging into the tag before the group keeps every solid token the list carried. */
  lemma TagMergeKeeps(eClass: string, st: Anchoring, i: nat, prevCode: string, startPos: int, t: string)
    requires 0 < i <= |st.code| && prevCode == st.code[i - 1]
    requires Carries(st.code, t) && Solid(t)
    ensures Carries(TagMerge(eClass, st, i, prevCode, startPos, LastIndexOf(prevCode, ">")).code, t)
  {
    var tokens := PlainTokens(eClass, st.syncCnt);
    if Includes(Substring(prevCode, startPos, |prevCode|), "class=") {
      FoundFrom(prevCode, "class=", startPos);
      InjectEntryKeeps(st.code, i - 1, IndexOfFrom(prevCode, "class=", startPos), tokens, t);
    } else {
      AtLastClose(prevCode);
      AddClassEntryKeeps(st.code, i - 1, LastIndexOf(prevCode, ">"), tokens, t);
    }
  }

  lemma TagAnchorKeeps(eClass: string, st: Anchoring, i: nat, prevCode: string, endBlock: nat, t: string)
    requires 0 < i <= endBlock < |st.sync| <= |st.code| && prevCode == st.code[i - 1]
    requires Carries(st.code, t) && Solid(t)
    ensures var r := TagAnchor(eClass, st, i, prevCode, endBlock);
      r.Success? ==> Carries(r.value.code, t)
  {
    SpanWrapKeeps(eClass, st, i, endBlock, t);
    TagMergeKeeps(eClass, st, i, prevCode, LastIndexOf(prevCode, "<"), t);
  }

  /** An anchor keeps every solid token the list carried. */
  lemma AnchorKeeps(eval: string -> Completion, eClass: string, types: seq<Kind>, st: Anchoring, i: nat, t: string)
    requires Fits(types, st) && i < |types| && Carries(st.code, t) && Solid(t)
    ensures var r := Anchor(eval, eClass, types, st, i);
      r.Success? ==> Carries(r.value.code, t)
  {
    if i == 0 {
      return;
    }
    var prevCode := st.code[i - 1];
    var endBlock := LastIndexOfId(st.sync, st.sync[i]);
    var endPos := LastIndexOf(prevCode, ">");
    var startPos := LastIndexOf(prevCode, "<");
    if LastLetter(prevCode) != ">" && endPos < startPos {
      AttrCaseKeeps(eval, eClass, types, st, i, prevCode, startPos, endBlock, t);
    } else if LastLetter(prevCode) != ">" {
      SpanWrapKeeps(eClass, st, i, endBlock, t);
    } else {
      TagAnchorKeeps(eClass, st, i, prevCode, endBlock, t);
    }
  }

  /** A pass places an anchor exactly at a directive whose id differs from the last one. */
  predicate OpensGroup(types: seq<Kind>, sync: seq<nat>, lastSync: int, i: nat)
    requires i < |types| == |sync|
  {
    types[i] == Js && sync[i] != lastSync
  }

  /** The directives that get an anchor in a run from `i` on, in order. */
  function AnchorSites(eval: string -> Completion, eClass: string, types: seq<Kind>, st: Anchoring, lastSync: int, i: nat)
    : seq<nat>
    requires Fits(types, st) && i <= |types|
    decreases |types| - i
  {
    if i == |types| then []
    else
      var p := Pass(eval, eClass, types, st, lastSync, i);
      if p.Failure? then []
      else
        var rest := AnchorSites(eval, eClass, types, p.value.0, p.value.1, i + 1);
        if OpensGroup(types, st.sync, lastSync, i) then [i] + rest else rest
  }

  /** Positions from `lo` on, each a directive and each after the one before. */
  predicate DirectivesAscending(types: seq<Kind>, sites: seq<nat>, lo: nat)
  {
    (forall k :: 0 <= k < |sites| ==> lo <= sites[k] < |types| && types[sites[k]] == Js) &&
    (forall k, m :: 0 <= k < m < |sites| ==> sites[k] < sites[m])
  }

  /** The anchored positions are directives, each after the one before. */
  lemma {:induction false} AnchorSitesAscend(eval: string -> Completion, eClass: string, types: seq<Kind>, st: Anchoring, lastSync: int, i: nat)
    requires Fits(types, st) && i <= |types|
    ensures DirectivesAscending(types, AnchorSites(eval, eClass, types, st, lastSync, i), i)
    decreases |types| - i
  {
    if i < |types| {
      var p := Pass(eval, eClass, types, st, lastSync, i);
      if p.Success? {
        var rest := AnchorSites(eval, eClass, types, p.value.0, p.value.1, i + 1);
        AnchorSitesAscend(eval, eClass, types, p.value.0, p.value.1, i + 1);
        SitesPrepend(types, i, OpensGroup(types, st.sync, lastSync, i), rest);
      }
    }
  }

  lemma SitesPrepend(types: seq<Kind>, i: nat, opens: bool, rest: seq<nat>)
    requires i < |types| && (opens ==> types[i] == Js)
    requires DirectivesAscending(types, rest, i + 1)
    ensures DirectivesAscending(types, if opens then [i] + rest else rest, i)
  {
  }

  /** The counter advances once per anchor: a completed run leaves it at its old value
      plus the number of directives that opened a group. */
  lemma {:induction false} InsertCounts(eval: string -> Completion, eClass: string, types: seq<Kind>, st: Anchoring, lastSync: int, i: nat)
    requires Fits(types, st) && i <= |types|
    ensures CountedFrom(eval, eClass, types, st, lastSync, i)
    decreases |types| - i
  {
    if i < |types| {
      var p := Pass(eval, eClass, types, st, lastSync, i);
      if p.Success? {
        InsertCounts(eval, eClass, types, p.value.0, p.value.1, i + 1);
      }
      CountsStep(eval, eClass, types, st, lastSync, i);
    } else {
      assert AnchorSites(eval, eClass, types, st, lastSync, i) == [];
    }
  }

  /** The statement of `InsertCounts` from segment `i` on. */
  ghost predicate CountedFrom(eval: string -> Completion, eClass: string, types: seq<Kind>, st: Anchoring, lastSync: int, i: nat)
    requires Fits(types, st) && i <= |types|
  {
    var r := InsertFrom(eval, eClass, types, st, lastSync, i);
    r.Success? ==> r.value.syncCnt == st.syncCnt + |AnchorSites(eval, eClass, types, st, lastSync, i)|
  }

  /** One step of `InsertCounts`: a pass adds its own anchor, if it places one, to the
      count of the rest of the run. */
  lemma CountsStep(eval: string -> Completion, eClass: string, types: seq<Kind>, st: Anchoring, lastSync: int, i: nat)
    requires Fits(types, st) && i < |types|
    requires var p := Pass(eval, eClass, types, st, lastSync, i);
      p.Success? ==> CountedFrom(eval, eClass, types, p.value.0, p.value.1, i + 1)
    ensures CountedFrom(eval, eClass, types, st, lastSync, i)
  {
    var p := Pass(eval, eClass, types, st, lastSync, i);
    if p.Success? {
      var st', lastSync' := p.value.0, p.value.1;
      InsertStep(eval, eClass, types, st, lastSync, i, st', lastSync', i + 1);
      SitesStep(eval, eClass, types, st, lastSync, i, st', lastSync', i + 1);
      PassCounts(eval, eClass, types, st, lastSync, i);
    } else {
      InsertStops(eval, eClass, types, st, lastSync, i);
    }
  }

  /** A pass that completes adds its own site, if it anchors, to the sites of the rest
      of the run. */
  lemma SitesStep(eval: string -> Completion, eClass: string, types: seq<Kind>, st: Anchoring, lastSync: int, i: nat,
                  st': Anchoring, lastSync': int, i': nat)
    requires Fits(types, st) && i < |types| && i' == i + 1
    requires Pass(eval, eClass, types, st, lastSync, i) == Success((st', lastSync'))
    ensures Fits(types, st')
    ensures |AnchorSites(eval, eClass, types, st, lastSync, i)|
      == (if OpensGroup(types, st.sync, lastSync, i) then 1 else 0) + |AnchorSites(eval, eClass, types, st', lastSync', i')|
  {
  }

  /** One pass adds one to the counter when it places an anchor, nothing otherwise. */
  lemma PassCounts(eval: string -> Completion, eClass: string, types: seq<Kind>, st: Anchoring, lastSync: int, i: nat)
    requires Fits(types, st) && i < |types| && Pass(eval, eClass, types, st, lastSync, i).Success?
    ensures Pass(eval, eClass, types, st, lastSync, i).value.0.syncCnt
      == st.syncCnt + (if OpensGroup(types, st.sync, lastSync, i) then 1 else 0)
  {
  }

  /** One pass keeps every solid token the list carried. */
  lemma PassKeeps(eval: string -> Completion, eClass: string, types: seq<Kind>, st: Anchoring, lastSync: int, i: nat, t: string)
    requires Fits(types, st) && i < |types| && Solid(t)
    ensures var p := Pass(eval, eClass, types, st, lastSync, i);
      p.Success? && Carries(st.code, t) ==> Carries(p.value.0.code, t)
  {
    if !Carries(st.code, t) {
      return;
    }
    if types[i] == Js {
      TrimEntryKeeps(st.code, i, t);
      AnchorKeeps(eval, eClass, types, st.(code := st.code[i := Trim(st.code[i])]), i, t);
    }
  }

  /** Trimming one entry keeps the solid tokens the list carried. */
  lemma TrimEntryKeeps(code: seq<string>, i: nat, t: string)
    requires i < |code| && Carries(code, t) && Solid(t)
    ensures Carries(code[i := Trim(code[i])], t)
  {
    if HasWord(code[i], t) {
      TrimKeepsWord(code[i], t);
    }
    UpdateKeeps(code, i, Trim(code[i]), t);
  }

  /** A pass either leaves the counter alone or advances it by one and leaves the
      token of its old value. */
  lemma PassNumbers(eval: string -> Completion, eClass: string, types: seq<Kind>, st: Anchoring, lastSync: int, i: nat)
    requires Fits(types, st) && i < |types|
    ensures var p := Pass(eval, eClass, types, st, lastSync, i);
      p.Success? ==> (p.value.0.syncCnt == st.syncCnt ||
                      (p.value.0.syncCnt == st.syncCnt + 1 && Numbered(p.value.0.code, eClass, st.syncCnt)))
  {
    if Pass(eval, eClass, types, st, lastSync, i).Success? {
      PassCounts(eval, eClass, types, st, lastSync, i);
      if OpensGroup(types, st.sync, lastSync, i) {
        AnchorWritesToken(eval, eClass, types, st.(code := st.code[i := Trim(st.code[i])]), i);
      }
    }
  }

  /** `PassNumbers` for a pass whose outcome is named. */
  lemma PassNumbered(eval: string -> Completion, eClass: string, types: seq<Kind>, st: Anchoring, lastSync: int, i: nat,
                     st': Anchoring, lastSync': int)
    requires Fits(types, st) && i < |types|
    requires Pass(eval, eClass, types, st, lastSync, i) == Success((st', lastSync'))
    ensures st'.syncCnt == st.syncCnt || (st'.syncCnt == st.syncCnt + 1 && Numbered(st'.code, eClass, st.syncCnt))
  {
    PassNumbers(eval, eClass, types, st, lastSync, i);
  }

  /** A pass that completes hands the run on to the next position. */
  lemma InsertThen(eval: string -> Completion, eClass: string, types: seq<Kind>, st: Anchoring, lastSync: int, i: nat)
    requires Fits(types, st) && i < |types|
    ensures var p := Pass(eval, eClass, types, st, lastSync, i);
      p.Success? ==> InsertFrom(eval, eClass, types, st, lastSync, i) == InsertFrom(eval, eClass, types, p.value.0, p.value.1, i + 1)
  {
  }

  /** A completed run keeps every solid token the code list carried before it. */
  lemma {:induction false} InsertKeeps(eval: string -> Completion, eClass: string, types: seq<Kind>, st: Anchoring, lastSync: int, i: nat,
                                       t: string)
    requires Fits(types, st) && i <= |types| && Solid(t)
    ensures var r := InsertFrom(eval, eClass, types, st, lastSync, i);
      r.Success? && Carries(st.code, t) ==> Carries(r.value.code, t)
    decreases |types| - i
  {
    if i < |types| {
      var p := Pass(eval, eClass, types, st, lastSync, i);
      if p.Success? {
        var st', lastSync' := p.value.0, p.value.1;
        InsertStep(eval, eClass, types, st, lastSync, i, st', lastSync', i + 1);
        PassKeeps(eval, eClass, types, st, lastSync, i, t);
        InsertKeeps(eval, eClass, types, st', lastSync', i + 1, t);
      }
    }
  }

  /** With a plain sync class, a completed run leaves in the code list the token of
      every number it handed out: the later anchors never cut an earlier one. */
  lemma {:induction false} InsertNumbers(eval: string -> Completion, eClass: string, types: seq<Kind>, st: Anchoring, lastSync: int, i: nat,
                                         n: nat)
    requires Fits(types, st) && i <= |types| && PlainClass(eClass)
    ensures NumberedFrom(eval, eClass, types, st, lastSync, i, n)
    decreases |types| - i
  {
    if i < |types| {
      var p := Pass(eval, eClass, types, st, lastSync, i);
      if p.Success? {
        InsertNumbers(eval, eClass, types, p.value.0, p.value.1, i + 1, n);
      }
      NumbersStep(eval, eClass, types, st, lastSync, i, n);
    }
  }

  /** The statement of `InsertNumbers` from segment `i` on. */
  ghost predicate NumberedFrom(eval: string -> Completion, eClass: string, types: seq<Kind>, st: Anchoring, lastSync: int, i: nat,
                               n: nat)
    requires Fits(types, st) && i <= |types|
  {
    var r := InsertFrom(eval, eClass, types, st, lastSync, i);
    r.Success? && st.syncCnt <= n < r.value.syncCnt ==> Numbered(r.value.code, eClass, n)
  }

  /** One step of `InsertNumbers`: the number a pass hands out is kept by the rest of
      the run, and the later numbers are those of the rest of the run. */
  lemma NumbersStep(eval: string -> Completion, eClass: string, types: seq<Kind>, st: Anchoring, lastSync: int, i: nat, n: nat)
    requires Fits(types, st) && i < |types| && PlainClass(eClass)
    requires var p := Pass(eval, eClass, types, st, lastSync, i);
      p.Success? ==> NumberedFrom(eval, eClass, types, p.value.0, p.value.1, i + 1, n)
    ensures NumberedFrom(eval, eClass, types, st, lastSync, i, n)
  {
    var p := Pass(eval, eClass, types, st, lastSync, i);
    if p.Success? {
      NumbersPassed(eval, eClass, types, st, lastSync, i, p.value.0, p.value.1, n);
    } else {
      InsertStops(eval, eClass, types, st, lastSync, i);
    }
  }

  /** `NumbersStep` for a pass that completes. */
  lemma NumbersPassed(eval: string -> Completion, eClass: string, types: seq<Kind>, st: Anchoring, lastSync: int, i: nat,
                      st': Anchoring, lastSync': int, n: nat)
    requires Fits(types, st) && i < |types| && PlainClass(eClass)
    requires Pass(eval, eClass, types, st, lastSync, i) == Success((st', lastSync'))
    requires Fits(types, st') && NumberedFrom(eval, eClass, types, st', lastSync', i + 1, n)
    ensures NumberedFrom(eval, eClass, types, st, lastSync, i, n)
  {
    InsertStep(eval, eClass, types, st, lastSync, i, st', lastSync', i + 1);
    PassNumbered(eval, eClass, types, st, lastSync, i, st', lastSync');
    InsertKeepsNumbered(eval, eClass, types, st', lastSync', i + 1, n);
    var r := InsertFrom(eval, eClass, types, st', lastSync', i + 1);
    if r.Success? {
      NumberChain(st.syncCnt, st'.syncCnt, r.value.syncCnt, st'.code, r.value.code, eClass, n);
    }
  }

  /** The counter numbers of a run: the one a pass hands out, kept by the rest of
      the run, and those the rest of the run hands out. */
  lemma NumberChain(c0: nat, c1: nat, c2: nat, code1: seq<string>, code2: seq<string>, eClass: string, n: nat)
    requires c1 == c0 || (c1 == c0 + 1 && Numbered(code1, eClass, c0))
    requires c1 <= n < c2 ==> Numbered(code2, eClass, n)
    requires Numbered(code1, eClass, n) ==> Numbered(code2, eClass, n)
    ensures c0 <= n < c2 ==> Numbered(code2, eClass, n)
  {
  }

  /** `InsertKeepsNumbered` for the rest of the run after a pass. */
  lemma PassThenKeeps(eval: string -> Completion, eClass: string, types: seq<Kind>, st: Anchoring, lastSync: int, i: nat, c: nat)
    requires Fits(types, st) && i < |types| && PlainClass(eClass)
    ensures var p := Pass(eval, eClass, types, st, lastSync, i);
      p.Success? ==> NumberKept(eval, eClass, types, p.value.0, p.value.1, i + 1, c)
  {
    var p := Pass(eval, eClass, types, st, lastSync, i);
    if p.Success? {
      InsertKeepsNumbered(eval, eClass, types, p.value.0, p.value.1, i + 1, c);
    }
  }

  /** The statement of `InsertKeepsNumbered`. */
  ghost predicate NumberKept(eval: string -> Completion, eClass: string, types: seq<Kind>, st: Anchoring, lastSync: int, i: nat,
                             n: nat)
    requires Fits(types, st) && i <= |types|
  {
    var r := InsertFrom(eval, eClass, types, st, lastSync, i);
    r.Success? && Numbered(st.code, eClass, n) ==> Numbered(r.value.code, eClass, n)
  }

  /** A completed run keeps every counter token the code list carried before it. */
  lemma InsertKeepsNumbered(eval: string -> Completion, eClass: string, types: seq<Kind>, st: Anchoring, lastSync: int, i: nat,
                            n: nat)
    requires Fits(types, st) && i <= |types| && PlainClass(eClass)
    ensures NumberKept(eval, eClass, types, st, lastSync, i, n)
  {
    CntTokenSolid(eClass, n);
    InsertKeeps(eval, eClass, types, st, lastSync, i, CntToken(eClass, n));
  }

  /** What a pass does to `templateInClass`: nothing, or the entry at the counter's
      old value; the counter does not go back. */
  lemma PassClasses(eval: string -> Completion, eClass: string, types: seq<Kind>, st: Anchoring, lastSync: int, i: nat)
    requires Fits(types, st) && i < |types| && Pass(eval, eClass, types, st, lastSync, i).Success?
    ensures var st' := Pass(eval, eClass, types, st, lastSync, i).value.0;
      && st.syncCnt <= st'.syncCnt
      && (st'.templateInClass == st.templateInClass ||
          st'.templateInClass == st.templateInClass[st.syncCnt := ClassValueAsWritten(eval, Trim(st.code[i]))])
  {
    PassCounts(eval, eClass, types, st, lastSync, i);
  }

  /** The `templateInClass` a run leaves in the engine, whether it completes or stops
      at a thrown TypeError: the entries are written into the engine as the anchors
      are placed (etemplate.js:956), so those written before a throw stay. Entries
      below the starting counter are never touched, and new entries are numbered from
      it on. */
  function ClassesKept(eval: string -> Completion, eClass: string, types: seq<Kind>, st: Anchoring, lastSync: int, i: nat)
    : (m: map<nat, string>)
    requires Fits(types, st) && i <= |types|
    ensures InsertFrom(eval, eClass, types, st, lastSync, i).Success? ==>
      m == InsertFrom(eval, eClass, types, st, lastSync, i).value.templateInClass
    ensures forall n :: n in st.templateInClass && n < st.syncCnt ==> n in m && m[n] == st.templateInClass[n]
    ensures forall n :: n in m && n !in st.templateInClass ==> st.syncCnt <= n
    decreases |types| - i
  {
    if i == |types| then st.templateInClass
    else match Pass(eval, eClass, types, st, lastSync, i)
      case Failure(_) => st.templateInClass
      case Success((st', lastSync')) =>
        PassClasses(eval, eClass, types, st, lastSync, i);
        ClassesKept(eval, eClass, types, st', lastSync', i + 1)
  }

  // ---- the value kept for a class template ----

  /** As written, `templateInClass` keeps `basicCode(code.replace('=', ''))`: the
      `=` is removed and `basicCode` then drops the next character as well. */
  function ClassValueAsWritten(eval: string -> Completion, directive: string): string
  {
    BasicCode(eval, ReplaceFirst(directive, "=", ""))
  }

  /** For `=e`, the kept value is that of `e` without its first character. */
  lemma ClassValueAsWrittenCutsExpression(eval: string -> Completion, e: string)
    ensures ClassValueAsWritten(eval, "=" + e) == ClassValue(eval, "=" + SubstringFrom(e, 1))
  {
    assert IndexOf("=" + e, "=") == 0 by {
      assert OccursAt("=" + e, "=", 0);
    }
    assert ReplaceFirst("=" + e, "=", "") == e;
    assert SubstringFrom("=" + SubstringFrom(e, 1), 1) == SubstringFrom(e, 1);
  }

  /** `class="<%=x%>"`: the template renders `x`, while the kept value evaluates an
      empty expression and holds the error message. */
  lemma ClassValueAsWrittenDiffers()
    ensures var eval := (body: string) => if body == BasicBody("=x") then Normal("v") else Thrown("SyntaxError");
      ClassValueAsWritten(eval, "=x") == "SyntaxError" && ClassValue(eval, "=x") == "v"
  {
    ClassValueAsWrittenCutsExpression((body: string) => if body == BasicBody("=x") then Normal("v") else Thrown("SyntaxError"), "x");
    assert SubstringFrom("x", 1) == "";
    assert SubstringFrom("=", 1) == "";
    assert SubstringFrom("=x", 1) == "x";
    assert |BasicBody("=")| != |BasicBody("=x")|;
  }

  /** The kept value is what the group renders: `templateInClass[n]` holds the
      output of the directive whose anchor is numbered `n`. */
  lemma ClassValueIsRendered(eval: string -> Completion, types: seq<Kind>, codes: seq<string>, i: nat)
    requires |types| == |codes| && i < |codes| && types[i] == Js && IsOutput(codes[i])
    ensures ClassValue(eval, codes[i]) == Unit(eval, types, codes, i)
  {
  }
}
