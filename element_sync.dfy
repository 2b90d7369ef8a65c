/** What `sync()` does with each element that carries an anchor (etemplate.js:150-193):
    it reads the anchor's class tokens back, then writes the newly rendered group
    into the element's attributes, its class list or its content. The element is
    the part of the page `sync()` touches: a class list, an attribute map and a
    content string. */
module ElementSync {
  import opened JsText
  import opened Segmenter
  import opened Interpreter
  import opened Anchors

  // ---- reading the class tokens (etemplate.js:154-169) ----

  /** What the class tokens of an element say: whether the group sits in attribute
      position, the attributes it fills, and its anchor number (`None` for a token
      that `parseInt` reads as NaN). */
  datatype Decoded = Decoded(inAttribute: bool, attrs: seq<string>, index: Option<int>)

  /** Before any token is read: content position, no attributes, number 0. */
  const Initial: Decoded := Decoded(false, [], Some(0))

  /** A class that carries neither marker prefix. */
  predicate Unmarked(eClass: string, c: string)
  {
    !Includes(c, eClass + "_") && !Includes(c, eClass + "Cnt")
  }

  /** What one class changes: a class with `${eClass}_` gives the `+`-separated names
      after its last `_`; a class with `${eClass}Cnt` gives the number left once that
      prefix is removed. A later class overrides an earlier one. */
  function DecodeClass(eClass: string, d: Decoded, c: string): (r: Decoded)
    ensures Unmarked(eClass, c) ==> r == d
  {
    ReadIndex(eClass, ReadAttrs(eClass, d, c), c)
  }

  /** The attribute part of a class. */
  function ReadAttrs(eClass: string, d: Decoded, c: string): (r: Decoded)
    ensures !Includes(c, eClass + "_") ==> r == d
  {
    if Includes(c, eClass + "_") then
      var pieces := Split(c, "_");
      d.(inAttribute := true, attrs := Split(pieces[|pieces| - 1], "+"))
    else d
  }

  /** The number part of a class. */
  function ReadIndex(eClass: string, d: Decoded, c: string): (r: Decoded)
    ensures !Includes(c, eClass + "Cnt") ==> r == d
  {
    if Includes(c, eClass + "Cnt") then d.(index := ParseInt(ReplaceFirst(c, eClass + "Cnt", ""))) else d
  }

  /** The decoding of the classes from `d` on, first class first. */
  function DecodeFrom(eClass: string, d: Decoded, classes: seq<string>): Decoded
    decreases |classes|
  {
    if classes == [] then d else DecodeFrom(eClass, DecodeClass(eClass, d, classes[0]), classes[1..])
  }

  function Decode(eClass: string, classes: seq<string>): Decoded
  {
    DecodeFrom(eClass, Initial, classes)
  }

  /** The token loop of `sync()` (etemplate.js:160-169). */
  method DecodeClasses(eClass: string, classes: seq<string>) returns (d: Decoded)
    ensures d == Decode(eClass, classes)
  {
    d := Initial;
    var j := 0;
    while j < |classes|
      invariant j <= |classes|
      invariant DecodeFrom(eClass, d, classes[j..]) == Decode(eClass, classes)
    {
      ghost var d0, j0 := d, j;
      d := ReadClass(eClass, d, classes[j]);
      j := j + 1;
      DecodeStep(eClass, d0, classes, j0, d, j);
    }
  }

  /** One pass of the token loop. */
  method ReadClass(eClass: string, d: Decoded, c: string) returns (d': Decoded)
    ensures d' == DecodeClass(eClass, d, c)
  {
    d' := d;
    if Includes(c, eClass + "_") {
      var pieces := Split(c, "_");
      d' := d'.(inAttribute := true, attrs := Split(pieces[|pieces| - 1], "+"));
    }
    assert d' == ReadAttrs(eClass, d, c);
    if Includes(c, eClass + "Cnt") {
      d' := d'.(index := ParseInt(ReplaceFirst(c, eClass + "Cnt", "")));
    }
  }

  lemma DecodeStep(eClass: string, d: Decoded, classes: seq<string>, j: nat, d': Decoded, j': nat)
    requires j < |classes| && j' == j + 1 && d' == DecodeClass(eClass, d, classes[j])
    ensures DecodeFrom(eClass, d, classes[j..]) == DecodeFrom(eClass, d', classes[j'..])
  {
    assert classes[j..][1..] == classes[j'..];
  }

  /** Decoding two lists one after the other is decoding their concatenation. */
  lemma {:induction false} DecodeAppend(eClass: string, d: Decoded, a: seq<string>, b: seq<string>)
    ensures DecodeFrom(eClass, d, a + b) == DecodeFrom(eClass, DecodeFrom(eClass, d, a), b)
    decreases |a|
  {
    if a != [] {
      assert (a + b)[1..] == a[1..] + b;
      DecodeAppend(eClass, DecodeClass(eClass, d, a[0]), a[1..], b);
    } else {
      assert a + b == b;
    }
  }

  /** Classes without the marker prefixes change nothing. */
  lemma {:induction false} DecodeUnmarked(eClass: string, d: Decoded, cs: seq<string>)
    requires forall k :: 0 <= k < |cs| ==> Unmarked(eClass, cs[k])
    ensures DecodeFrom(eClass, d, cs) == d
    decreases |cs|
  {
    if cs != [] {
      DecodeUnmarked(eClass, d, cs[1..]);
    }
  }

  /** The group class itself carries no marker. */
  lemma GroupClassUnmarked(eClass: string)
    ensures Unmarked(eClass, eClass)
  {
    assert !OccursAt(eClass, eClass + "_", IndexOf(eClass, eClass + "_"));
    assert !OccursAt(eClass, eClass + "Cnt", IndexOf(eClass, eClass + "Cnt"));
  }

  /** `${eClass}Cnt${n}` reads back as `n` and says nothing about attributes. */
  lemma CntTokenDecodes(eClass: string, d: Decoded, n: nat)
    ensures DecodeClass(eClass, d, CntToken(eClass, n)) == d.(index := Some(n))
  {
    var t := CntToken(eClass, n);
    var digits := NatToString(n);
    assert t == (eClass + "Cnt") + digits;
    assert OccursAt(t, eClass + "Cnt", 0);
    assert IndexOf(t, eClass + "Cnt") == 0;
    assert ReplaceFirst(t, eClass + "Cnt", "") == digits;
    ParseIntOfNat(n);
    CntTokenHasNoUnderscore(eClass, n);
  }

  /** After the group class, the counter token holds only `Cnt` and digits, so the
      attribute prefix `${eClass}_` cannot occur in it. */
  lemma CntTokenHasNoUnderscore(eClass: string, n: nat)
    ensures !Includes(CntToken(eClass, n), eClass + "_")
  {
    var t := CntToken(eClass, n);
    var digits := NatToString(n);
    var u := eClass + "_";
    assert t == eClass + "Cnt" + digits;
    forall q | |eClass| <= q < |t|
      ensures t[q] != '_'
    {
      if q < |eClass| + 3 {
        assert t[q] == "Cnt"[q - |eClass|];
      } else {
        assert t[q] == digits[q - |eClass| - 3];
      }
    }
    forall p
      ensures !OccursAt(t, u, p)
    {
      if 0 <= p && p + |u| <= |t| {
        assert t[p..p + |u|][|eClass|] == t[p + |eClass|];
      }
    }
    assert IndexOf(t, u) == -1;
  }

  /** A string free of a character stays free of it when joined with a separator free of it. */
  lemma {:induction false} JoinAvoids(parts: seq<string>, sep: string, c: char)
    requires c !in sep && forall k :: 0 <= k < |parts| ==> c !in parts[k]
    ensures c !in Join(parts, sep)
    decreases |parts|
  {
    if |parts| > 1 {
      JoinAvoids(parts[1..], sep, c);
      assert Join(parts, sep) == parts[0] + sep + Join(parts[1..], sep);
    }
  }

  /** Attribute names as `insertSync` can write them into one token. */
  predicate PlainNames(attrs: seq<string>)
  {
    |attrs| > 0 && forall k :: 0 <= k < |attrs| ==> '_' !in attrs[k] && '+' !in attrs[k]
  }

  /** `${eClass}_${attrs.join("+")}` reads back as exactly `attrs`. */
  lemma AttrTokenDecodes(eClass: string, d: Decoded, attrs: seq<string>)
    requires PlainNames(attrs)
    requires !Includes(AttrToken(eClass, Join(attrs, "+")), eClass + "Cnt")
    ensures DecodeClass(eClass, d, AttrToken(eClass, Join(attrs, "+"))) == d.(inAttribute := true, attrs := attrs)
  {
    var text := Join(attrs, "+");
    var t := AttrToken(eClass, text);
    assert t == (eClass + "_") + text;
    assert OccursAt(t, eClass + "_", 0);
    JoinAvoids(attrs, "+", '_');
    IncludesChar(text, '_');
    SplitLastPiece(eClass, "_", text);
    forall k | 0 <= k < |attrs|
      ensures !Includes(attrs[k], "+")
    {
      IncludesChar(attrs[k], '+');
    }
    SplitJoin(attrs, "+");
  }

  /** Unmarked classes around a token list do not change what it decodes to. */
  lemma DecodeSurrounded(eClass: string, tokens: seq<string>, before: seq<string>, after: seq<string>)
    requires forall k :: 0 <= k < |before| ==> Unmarked(eClass, before[k])
    requires forall k :: 0 <= k < |after| ==> Unmarked(eClass, after[k])
    ensures Decode(eClass, before + tokens + after) == Decode(eClass, tokens)
  {
    DecodeUnmarked(eClass, Initial, before);
    DecodeAppend(eClass, Initial, before, tokens + after);
    assert before + tokens + after == before + (tokens + after);
    DecodeAppend(eClass, Initial, tokens, after);
    DecodeUnmarked(eClass, Decode(eClass, tokens), after);
  }

  /** A one-class list is read by one step. */
  lemma DecodeSingle(eClass: string, d: Decoded, c: string)
    ensures DecodeFrom(eClass, d, [c]) == DecodeClass(eClass, d, c)
  {
    assert [c][1..] == [];
  }

  /** The tokens `insertSync` injects in attribute position, one class each. */
  function AttrClasses(eClass: string, attrs: seq<string>, n: nat): seq<string>
  {
    [eClass, AttrToken(eClass, Join(attrs, "+")), CntToken(eClass, n)]
  }

  /** The tokens `insertSync` writes around content, one class each. */
  function PlainClasses(eClass: string, n: nat): seq<string>
  {
    [eClass, CntToken(eClass, n)]
  }

  /** Joined by spaces, the classes are exactly the injected token strings. */
  lemma ClassesJoin(eClass: string, attrs: seq<string>, n: nat)
    ensures Join(AttrClasses(eClass, attrs, n), " ") == AttrTokens(eClass, Join(attrs, "+"), n)
    ensures Join(PlainClasses(eClass, n), " ") == PlainTokens(eClass, n)
  {
    var ts := AttrClasses(eClass, attrs, n);
    assert Join(ts[1..][1..], " ") == CntToken(eClass, n);
    var ps := PlainClasses(eClass, n);
    assert Join(ps[1..], " ") == CntToken(eClass, n);
  }

  /** The round trip of an anchor in attribute position: the classes `insertSync`
      writes (the group class, the attribute token and the counter token) decode in
      `sync()` to exactly the attribute names and the anchor number, whatever
      unmarked classes surround them. */
  lemma AttrAnchorRoundTrip(eClass: string, attrs: seq<string>, n: nat, before: seq<string>, after: seq<string>)
    requires PlainNames(attrs)
    requires !Includes(AttrToken(eClass, Join(attrs, "+")), eClass + "Cnt")
    requires forall k :: 0 <= k < |before| ==> Unmarked(eClass, before[k])
    requires forall k :: 0 <= k < |after| ==> Unmarked(eClass, after[k])
    ensures Decode(eClass, before + AttrClasses(eClass, attrs, n) + after) == Decoded(true, attrs, Some(n))
  {
    var ts := AttrClasses(eClass, attrs, n);
    DecodeSurrounded(eClass, ts, before, after);
    assert ts == [ts[0]] + [ts[1]] + [ts[2]];
    DecodeAppend(eClass, Initial, [ts[0]] + [ts[1]], [ts[2]]);
    DecodeAppend(eClass, Initial, [ts[0]], [ts[1]]);
    GroupClassUnmarked(eClass);
    DecodeSingle(eClass, Initial, ts[0]);
    AttrTokenDecodes(eClass, Initial, attrs);
    DecodeSingle(eClass, Initial, ts[1]);
    CntTokenDecodes(eClass, Initial.(inAttribute := true, attrs := attrs), n);
    DecodeSingle(eClass, Initial.(inAttribute := true, attrs := attrs), ts[2]);
  }

  /** The round trip of an anchor around content: the group class and the counter
      token decode to content position and the anchor number. */
  lemma PlainAnchorRoundTrip(eClass: string, n: nat, before: seq<string>, after: seq<string>)
    requires forall k :: 0 <= k < |before| ==> Unmarked(eClass, before[k])
    requires forall k :: 0 <= k < |after| ==> Unmarked(eClass, after[k])
    ensures Decode(eClass, before + PlainClasses(eClass, n) + after) == Decoded(false, [], Some(n))
  {
    var ts := PlainClasses(eClass, n);
    DecodeSurrounded(eClass, ts, before, after);
    assert ts == [ts[0]] + [ts[1]];
    DecodeAppend(eClass, Initial, [ts[0]], [ts[1]]);
    GroupClassUnmarked(eClass);
    DecodeSingle(eClass, Initial, ts[0]);
    CntTokenDecodes(eClass, Initial, n);
    DecodeSingle(eClass, Initial, ts[1]);
  }

  /** Different anchors carry different counter tokens. */
  lemma CntTokensDistinct(eClass: string, n: nat, m: nat)
    requires n != m
    ensures CntToken(eClass, n) != CntToken(eClass, m)
  {
    CntTokenDecodes(eClass, Initial, n);
    CntTokenDecodes(eClass, Initial, m);
  }

  /** A completed `insertSync` run (etemplate.js:893-1061) hands out the numbers
      `syncCnt .. syncCnt + k - 1`, one for each directive that opens a group; with a
      plain sync class, the code list it leaves still carries the counter token of
      every one of them, and no two of those tokens are the same, so `sync()` can
      tell the groups apart by their class. */
  lemma InsertTokens(eval: string -> Completion, eClass: string, types: seq<Kind>, code: seq<string>, sync: seq<nat>,
                     syncCnt: nat, templateInClass: map<nat, string>)
    requires |types| == |code| == |sync| && PlainClass(eClass)
    ensures var st := Anchoring(code, sync, syncCnt, templateInClass);
      var r := InsertFrom(eval, eClass, types, st, -1, 0);
      r.Success? ==>
        && r.value.syncCnt == syncCnt + |AnchorSites(eval, eClass, types, st, -1, 0)|
        && (forall n :: syncCnt <= n < r.value.syncCnt ==> Numbered(r.value.code, eClass, n))
        && (forall n, m :: syncCnt <= n < m < r.value.syncCnt ==> CntToken(eClass, n) != CntToken(eClass, m))
  {
    var st := Anchoring(code, sync, syncCnt, templateInClass);
    var r := InsertFrom(eval, eClass, types, st, -1, 0);
    if r.Success? {
      InsertCounts(eval, eClass, types, st, -1, 0);
      forall n | syncCnt <= n < r.value.syncCnt
        ensures Numbered(r.value.code, eClass, n)
      {
        InsertNumbers(eval, eClass, types, st, -1, 0, n);
      }
      forall n, m | syncCnt <= n < m < r.value.syncCnt
        ensures CntToken(eClass, n) != CntToken(eClass, m)
      {
        CntTokensDistinct(eClass, n, m);
      }
    }
  }

  // ---- writing the group into the element (etemplate.js:170-192) ----

  /** The part of an element `sync()` writes: its class list, its attributes and its
      content (the markup its children were made from). */
  datatype Element = Element(classes: seq<string>, attributes: map<string, string>, content: string)

  /** The element and the engine's `templateInClass` after a write. */
  datatype Patched = Patched(el: Element, templateInClass: map<nat, string>)

  /** How an absent value reaches the page. */
  const Undefined: string := "undefined"

  /** `classList.remove(t)`: every occurrence of `t` goes, the rest keep their order. */
  function RemoveClass(classes: seq<string>, t: string): (r: seq<string>)
    ensures forall c :: c in r <==> c in classes && c != t
    decreases |classes|
  {
    if classes == [] then []
    else (if classes[0] == t then [] else [classes[0]]) + RemoveClass(classes[1..], t)
  }

  /** `classList.add(t)`: `t` is appended unless it is already there. */
  function AddClass(classes: seq<string>, t: string): (r: seq<string>)
    ensures forall c :: c in r <==> c in classes || c == t
  {
    if t in classes then classes else classes + [t]
  }

  /** `htmlBlock[index]`: `None` stands for `undefined` (an index past the end or not
      a number). */
  function BlockEntry(block: seq<Entry>, index: Option<int>): (r: Option<Entry>)
    ensures r.Some? <==> index.Some? && 0 <= index.value < |block|
  {
    if index.Some? && 0 <= index.value < |block| then Some(block[index.value]) else None
  }

  /** The value written for the `j`-th attribute: the `j`-th value of a merged entry,
      the whole entry otherwise. */
  function AttrValue(entry: Option<Entry>, j: nat): string
  {
    match entry
    case None => Undefined
    case Some(Text(t)) => t
    case Some(Values(vs)) => if j < |vs| then vs[j] else Undefined
  }

  /** The markup `insertAdjacentHTML` receives: an array is converted to its
      comma-separated string. */
  function Markup(entry: Option<Entry>): string
  {
    match entry
    case None => Undefined
    case Some(Text(t)) => t
    case Some(Values(vs)) => Join(vs, ",")
  }

  /** The key of `templateInClass[index]`, when the index is an array index. */
  function Key(index: Option<int>): Option<nat>
  {
    if index.Some? && index.value >= 0 then Some(index.value as nat) else None
  }

  /** `templateInClass[index]`: the class value kept for the anchor, `undefined` if none. */
  function KeptClass(kept: map<nat, string>, index: Option<int>): string
  {
    var k := Key(index);
    if k.Some? && k.value in kept then kept[k.value] else Undefined
  }

  // ---- the token checks of `classList.remove` and `classList.add` ----

  /** ASCII white space as the DOM Standard counts it: tab, line feed, form feed,
      carriage return and space. */
  predicate IsAsciiSpace(c: char)
  {
    c == '\t' || c == '\n' || c == '\U{C}' || c == '\r' || c == ' '
  }

  const SyntaxError: string := "SyntaxError"
  const InvalidCharacterError: string := "InvalidCharacterError"

  /** A token `DOMTokenList` accepts: not empty and free of ASCII white space. */
  predicate ValidToken(t: string)
  {
    t != [] && forall k :: 0 <= k < |t| ==> !IsAsciiSpace(t[k])
  }

  /** What `classList.remove(t)` and `classList.add(t)` throw before they touch the
      list (the DOM Standard, `DOMTokenList`): a SyntaxError for the empty string,
      an InvalidCharacterError for a token holding ASCII white space. */
  function TokenError(t: string): (r: Option<string>)
    ensures r.None? <==> ValidToken(t)
    ensures r.Some? ==> r.value == (if t == [] then SyntaxError else InvalidCharacterError)
  {
    if t == [] then Some(SyntaxError)
    else if exists k :: 0 <= k < |t| && IsAsciiSpace(t[k]) then Some(InvalidCharacterError)
    else None
  }

  /** The element and `templateInClass` where the writes stop (after the last write,
      or at the call that threw), with what was thrown. */
  datatype Written = Written(p: Patched, thrown: Option<string>)

  /** One write: a `class` attribute removes the kept class and adds the new value,
      then keeps the new value; each of the two calls throws on a token it refuses,
      and a removal already made stays made. Any other attribute is set. Nothing is
      compared with what the element already holds. */
  function WriteAttr(p: Patched, name: string, value: string, index: Option<int>): (r: Written)
    ensures r.p.el.content == p.el.content
    ensures name != "class" ==>
      r == Written(Patched(p.el.(attributes := p.el.attributes[name := value]), p.templateInClass), None)
    ensures name == "class" ==> r.p.el.attributes == p.el.attributes
    ensures name == "class" ==>
      (r.thrown.None? <==> ValidToken(KeptClass(p.templateInClass, index)) && ValidToken(value))
    ensures name == "class" && r.thrown.None? ==>
      (forall c :: c in r.p.el.classes <==> (c in p.el.classes && c != KeptClass(p.templateInClass, index)) || c == value)
    ensures name == "class" && r.thrown.None? && Key(index).Some? ==>
      r.p.templateInClass == p.templateInClass[Key(index).value := value]
    ensures r.thrown.Some? ==> r.p.templateInClass == p.templateInClass
  {
    if name == "class" then
      var kept := KeptClass(p.templateInClass, index);
      if TokenError(kept).Some? then Written(p, TokenError(kept))
      else
        var removed := p.el.(classes := RemoveClass(p.el.classes, kept));
        if TokenError(value).Some? then Written(Patched(removed, p.templateInClass), TokenError(value))
        else
          var k := Key(index);
          Written(Patched(removed.(classes := AddClass(removed.classes, value)),
                          if k.Some? then p.templateInClass[k.value := value] else p.templateInClass), None)
    else Written(Patched(p.el.(attributes := p.el.attributes[name := value]), p.templateInClass), None)
  }

  /** The writes for the attributes from the `j`-th on, up to the first that throws. */
  function WriteAttrs(p: Patched, attrs: seq<string>, entry: Option<Entry>, index: Option<int>, j: nat): (r: Written)
    ensures r.p.el.content == p.el.content
    decreases |attrs| - j
  {
    if j >= |attrs| then Written(p, None)
    else
      var w := WriteAttr(p, attrs[j], AttrValue(entry, j), index);
      if w.thrown.Some? then w else WriteAttrs(w.p, attrs, entry, index, j + 1)
  }

  /** What `sync()` does to one anchored element once its tokens are read. */
  function Patch(el: Element, d: Decoded, block: seq<Entry>, kept: map<nat, string>): (r: Written)
    ensures !d.inAttribute ==>
      r == Written(Patched(el.(content := Markup(BlockEntry(block, d.index))), kept), None)
    ensures d.inAttribute ==> r.p.el.content == el.content
  {
    var entry := BlockEntry(block, d.index);
    if d.inAttribute then WriteAttrs(Patched(el, kept), d.attrs, entry, d.index, 0)
    else Written(Patched(el.(content := Markup(entry)), kept), None)
  }

  /** The write step of `sync()` for one element (etemplate.js:170-192): the
      attribute loop ends early when a class call throws. */
  method PatchElement(el: Element, d: Decoded, block: seq<Entry>, kept: map<nat, string>) returns (w: Written)
    ensures w == Patch(el, d, block, kept)
  {
    var entry := BlockEntry(block, d.index);
    if d.inAttribute {
      w := Written(Patched(el, kept), None);
      var j := 0;
      while j < |d.attrs| && w.thrown.None?
        invariant j <= |d.attrs|
        invariant (if w.thrown.Some? then w else WriteAttrs(w.p, d.attrs, entry, d.index, j))
          == WriteAttrs(Patched(el, kept), d.attrs, entry, d.index, 0)
      {
        w := WriteAttr(w.p, d.attrs[j], AttrValue(entry, j), d.index);
        j := j + 1;
      }
    } else {
      w := Written(Patched(el.(content := Markup(entry)), kept), None);
    }
  }

  /** The body of `sync()`'s element loop: read the tokens, then write. */
  method SyncElement(eClass: string, el: Element, block: seq<Entry>, kept: map<nat, string>) returns (w: Written)
    ensures w == Patch(el, Decode(eClass, el.classes), block, kept)
  {
    var d := DecodeClasses(eClass, el.classes);
    w := PatchElement(el, d, block, kept);
  }

  /** Writes to other attributes leave an attribute alone, whether or not a later
      write throws. */
  lemma {:induction false} WriteAttrsKeeps(p: Patched, attrs: seq<string>, entry: Option<Entry>, index: Option<int>, j: nat, name: string)
    requires j <= |attrs| && name in p.el.attributes
    requires forall m :: j <= m < |attrs| ==> attrs[m] != name
    ensures var r := WriteAttrs(p, attrs, entry, index, j);
      name in r.p.el.attributes && r.p.el.attributes[name] == p.el.attributes[name]
    decreases |attrs| - j
  {
    if j < |attrs| {
      var w := WriteAttr(p, attrs[j], AttrValue(entry, j), index);
      if w.thrown.None? {
        WriteAttrsKeeps(w.p, attrs, entry, index, j + 1, name);
      }
    }
  }

  /** Without a `class` name left, nothing throws, and the class list and the kept
      classes stay. */
  lemma {:induction false} WriteAttrsKeepsClasses(p: Patched, attrs: seq<string>, entry: Option<Entry>, index: Option<int>, j: nat)
    requires j <= |attrs| && forall m :: j <= m < |attrs| ==> attrs[m] != "class"
    ensures var r := WriteAttrs(p, attrs, entry, index, j);
      r.thrown.None? && r.p.el.classes == p.el.classes && r.p.templateInClass == p.templateInClass
    decreases |attrs| - j
  {
    if j < |attrs| {
      WriteAttrsKeepsClasses(WriteAttr(p, attrs[j], AttrValue(entry, j), index).p, attrs, entry, index, j + 1);
    }
  }

  /** When no call throws, every attribute named once gets its value, whether or not
      it already held it: `sync()` rewrites unconditionally. */
  lemma {:induction false} WriteAttrsSetsEach(p: Patched, attrs: seq<string>, entry: Option<Entry>, index: Option<int>, j: nat)
    requires j <= |attrs|
    requires forall k, m :: 0 <= k < m < |attrs| ==> attrs[k] != attrs[m]
    ensures var r := WriteAttrs(p, attrs, entry, index, j);
      r.thrown.None? ==>
        forall k :: j <= k < |attrs| && attrs[k] != "class" ==>
          attrs[k] in r.p.el.attributes && r.p.el.attributes[attrs[k]] == AttrValue(entry, k)
    decreases |attrs| - j
  {
    if j < |attrs| {
      var w := WriteAttr(p, attrs[j], AttrValue(entry, j), index);
      if w.thrown.None? {
        WriteAttrsSetsEach(w.p, attrs, entry, index, j + 1);
        if attrs[j] != "class" {
          WriteAttrsKeeps(w.p, attrs, entry, index, j + 1, attrs[j]);
        }
      }
    }
  }

  /** With one `class` name among the attributes, the writes throw exactly when the
      kept class or the new value is a token `DOMTokenList` refuses; the error is the
      kept token's when that one is refused, since `remove` runs first. */
  lemma {:induction false} WriteAttrsClassThrows(p: Patched, attrs: seq<string>, entry: Option<Entry>, index: Option<int>, j: nat, k: nat)
    requires j <= k < |attrs| && attrs[k] == "class"
    requires forall m :: j <= m < |attrs| && m != k ==> attrs[m] != "class"
    ensures var r := WriteAttrs(p, attrs, entry, index, j);
      (r.thrown.None? <==> ValidToken(KeptClass(p.templateInClass, index)) && ValidToken(AttrValue(entry, k)))
      && (!ValidToken(KeptClass(p.templateInClass, index)) ==> r.thrown == TokenError(KeptClass(p.templateInClass, index)))
    decreases |attrs| - j
  {
    var w := WriteAttr(p, attrs[j], AttrValue(entry, j), index);
    if j < k {
      WriteAttrsClassThrows(w.p, attrs, entry, index, j + 1, k);
    } else if w.thrown.None? {
      WriteAttrsKeepsClasses(w.p, attrs, entry, index, j + 1);
    }
  }

  /** When no call throws, a `class` name written once leaves its value in the class
      list and in `templateInClass` under the anchor's number. */
  lemma {:induction false} WriteAttrsSetsClass(p: Patched, attrs: seq<string>, entry: Option<Entry>, n: nat, j: nat, k: nat)
    requires j <= k < |attrs| && attrs[k] == "class"
    requires forall m :: j <= m < |attrs| && m != k ==> attrs[m] != "class"
    ensures var r := WriteAttrs(p, attrs, entry, Some(n), j);
      r.thrown.None? ==>
        AttrValue(entry, k) in r.p.el.classes && n in r.p.templateInClass && r.p.templateInClass[n] == AttrValue(entry, k)
    decreases |attrs| - j
  {
    var w := WriteAttr(p, attrs[j], AttrValue(entry, j), Some(n));
    if w.thrown.None? {
      if j < k {
        WriteAttrsSetsClass(w.p, attrs, entry, n, j + 1, k);
      } else {
        WriteAttrsKeepsClasses(w.p, attrs, entry, Some(n), j + 1);
      }
    }
  }

  /** An evaluator on which `<%=x%>` renders `on` and any other body throws the
      message a browser gives for `return (  )`. */
  function EvalX(body: string): Completion
  {
    if body == BasicBody("=x") then Normal("on") else Thrown("Unexpected token ')'")
  }

  /** `class="<%=x%>"` as written: the kept value is the message of the error the cut
      expression throws, while the corrected kept value is the rendered `on`. */
  lemma AsWrittenKeepsMessage()
    ensures ClassValueAsWritten(EvalX, "=x") == "Unexpected token ')'"
    ensures ClassValue(EvalX, "=x") == "on"
  {
    ClassValueAsWrittenCutsExpression(EvalX, "x");
    assert SubstringFrom("x", 1) == "";
    assert SubstringFrom("=x", 1) == "x";
    assert |BasicBody("=")| != |BasicBody("=x")|;
  }

  /** The kept message holds blanks, so `classList.remove` throws an
      InvalidCharacterError on the first `sync()` of the element. */
  lemma AsWrittenClassThrows()
    ensures Patch(Element(["e", "e_class", "eCnt0", "on"], map[], ""), Decoded(true, ["class"], Some(0)), [Text("on")],
                  map[0 := ClassValueAsWritten(EvalX, "=x")]).thrown == Some(InvalidCharacterError)
  {
    AsWrittenKeepsMessage();
    var message := "Unexpected token ')'";
    assert message != [] && IsAsciiSpace(message[10]);
    WriteAttrsClassThrows(Patched(Element(["e", "e_class", "eCnt0", "on"], map[], ""), map[0 := message]),
                          ["class"], Some(Text("on")), Some(0), 0, 0);
  }

  /** With the corrected kept value the same write goes through and leaves the
      element as it was. */
  lemma CorrectedClassKeeps()
    ensures var el := Element(["e", "e_class", "eCnt0", "on"], map[], "");
      Patch(el, Decoded(true, ["class"], Some(0)), [Text("on")], map[0 := ClassValue(EvalX, "=x")])
        == Written(Patched(el, map[0 := "on"]), None)
  {
    AsWrittenKeepsMessage();
    var cs := ["e", "e_class", "eCnt0"];
    assert cs + ["on"] == ["e", "e_class", "eCnt0", "on"];
    assert BlockEntry([Text("on")], Some(0)) == Some(Text("on"));
    assert "on" !in cs && ValidToken("on");
    RewriteShownClass(Element(cs + ["on"], map[], ""), cs, map[0 := "on"], 0, "on");
  }

  /** Writing again the class value the element shows last, and that is kept for its
      anchor, changes nothing. */
  lemma RewriteShownClass(el: Element, cs: seq<string>, kept: map<nat, string>, n: nat, t: string)
    requires el.classes == cs + [t] && t !in cs && ValidToken(t)
    requires n in kept && kept[n] == t
    ensures WriteAttrs(Patched(el, kept), ["class"], Some(Text(t)), Some(n), 0) == Written(Patched(el, kept), None)
  {
    RemoveClassLast(cs, t);
    assert AddClass(cs, t) == el.classes;
    assert kept[n := t] == kept;
  }

  lemma {:induction false} RemoveClassLast(cs: seq<string>, t: string)
    requires t !in cs
    ensures RemoveClass(cs + [t], t) == cs
  {
    if cs == [] {
      assert [] + [t] == [t];
    } else {
      assert (cs + [t])[1..] == cs[1..] + [t];
      RemoveClassLast(cs[1..], t);
    }
  }
}
