/** The stylesheet side of the engine: the rule objects `parseCSS` builds, the
    declaration parser `parseRules`, the text normaliser `standardReturn`, the
    serialiser `createTextStyle` and the tuple lookup `arrayFind`. */
module Css {
  import opened JsText

  /** One `key: value` declaration, as `parseRules` pushes it. */
  datatype Decl = Decl(key: string, value: string)

  /** A rule object of `parseCSS`. Its `type` string is carried by the variant and
      its flag: `Style` is `""` or `"font-face"` (with its `rules`), `Verbatim` is
      `"imports"` or `"keyframes"` (with the matched text in `styles`), `Group` is
      `"media"` or `"supports"` (with the nested rules in `subStyles`). */
  datatype Rule =
    | Style(selector: string, fontFace: bool, decls: seq<Decl>)
    | Verbatim(selector: string, keyframes: bool, styles: string)
    | Group(selector: string, supports: bool, subStyles: seq<Rule>)

  // ---------------------------------------------------------------- standardReturn

  /** Length of the run of newlines that starts at `k`. */
  function NewlineRun(s: string, k: nat): (n: nat)
    requires k <= |s|
    ensures k + n <= |s|
    ensures forall j :: k <= j < k + n ==> s[j] == '\n'
    ensures k + n == |s| || s[k + n] != '\n'
    decreases |s| - k
  {
    if k < |s| && s[k] == '\n' then 1 + NewlineRun(s, k + 1) else 0
  }

  /** `s.replace(/\n+/, "\n")`: the first run of newlines becomes one newline. */
  function CollapseFirstRun(s: string): string
  {
    var k := IndexOf(s, "\n");
    if k < 0 then s else s[..k] + "\n" + s[k + NewlineRun(s, k)..]
  }

  /** `standardReturn`: Windows line ends become `\n`, the first run of newlines
      shrinks to one, and white space is trimmed from both ends. */
  function StandardReturn(s: string): (r: string)
    ensures r == [] || (!IsSpace(r[0]) && !IsSpace(r[|r| - 1]))
  {
    Trim(CollapseFirstRun(ReplaceAll(s, "\r\n", "\n")))
  }

  /** A string without a carriage return has no Windows line end. */
  lemma NoCrLf(s: string)
    requires '\r' !in s
    ensures !Includes(s, "\r\n")
  {
    forall j
      ensures !OccursAt(s, "\r\n", j)
    {
      if 0 <= j && j + 2 <= |s| {
        assert s[j..j + 2][0] == s[j];
      }
    }
  }

  lemma {:induction false} TrimEndPadded(y: string, b: string)
    requires forall k :: 0 <= k < |b| ==> IsSpace(b[k])
    requires y == [] || !IsSpace(y[|y| - 1])
    ensures TrimEnd(y + b) == y
    decreases |b|
  {
    if b == [] {
      assert y + b == y;
    } else {
      assert (y + b)[..|y + b| - 1] == y + b[..|b| - 1];
      TrimEndPadded(y, b[..|b| - 1]);
    }
  }

  /** `trim` removes exactly the white space around a word that neither starts
      nor ends with white space. */
  lemma TrimPadded(a: string, x: string, b: string)
    requires forall k :: 0 <= k < |a| ==> IsSpace(a[k])
    requires forall k :: 0 <= k < |b| ==> IsSpace(b[k])
    requires x != [] && !IsSpace(x[0]) && !IsSpace(x[|x| - 1])
    ensures Trim(a + x + b) == x
  {
    assert a + x + b == a + (x + b);
    TrimStartPadded(a, x + b);
    TrimEndPadded(x, b);
  }

  /** `trim` leaves a string that neither starts nor ends with white space. */
  lemma TrimKeeps(s: string)
    requires s == [] || (!IsSpace(s[0]) && !IsSpace(s[|s| - 1]))
    ensures Trim(s) == s
  {
    if s != [] {
      TrimPadded("", s, "");
      assert "" + s + "" == s;
    }
  }

  /** Collapsing the first run of newlines changes nothing when no two newlines
      are adjacent. */
  lemma CollapseKeeps(s: string)
    requires forall j :: 0 <= j < |s| - 1 ==> s[j] != '\n' || s[j + 1] != '\n'
    ensures CollapseFirstRun(s) == s
  {
    var k := IndexOf(s, "\n");
    if k >= 0 {
      assert s[k..k + 1] == "\n";
      assert NewlineRun(s, k) == 1;
      assert s[..k] + "\n" + s[k + 1..] == s;
    }
  }

  /** Text without a carriage return and without two newlines in a row only loses
      the white space at its two ends: what is left is one piece of it. */
  lemma StandardReturnTrims(s: string)
    requires '\r' !in s
    requires forall j :: 0 <= j < |s| - 1 ==> s[j] != '\n' || s[j + 1] != '\n'
    ensures StandardReturn(s) == Trim(s)
    ensures exists a :: Padded(s, StandardReturn(s), a)
  {
    NoCrLf(s);
    assert ReplaceAll(s, "\r\n", "\n") == s;
    CollapseKeeps(s);
    TrimIsPadded(s);
  }

  /** Text already in the normal form `standardReturn` produces (no carriage
      return, no two newlines in a row, trimmed) is left as it is. */
  lemma StandardReturnKeepsNormal(s: string)
    requires '\r' !in s
    requires forall j :: 0 <= j < |s| - 1 ==> s[j] != '\n' || s[j + 1] != '\n'
    requires s == [] || (!IsSpace(s[0]) && !IsSpace(s[|s| - 1]))
    ensures StandardReturn(s) == s
  {
    NoCrLf(s);
    assert ReplaceAll(s, "\r\n", "\n") == s;
    CollapseKeeps(s);
    TrimKeeps(s);
  }

  // ---------------------------------------------------------------- parseRules

  /** How `split` cuts at the first occurrence of a one-character separator: the
      first piece is the text before it, and the other pieces join back into the
      text after it. */
  lemma FirstPieces(s: string, sep: string)
    requires |sep| == 1 && Includes(s, sep)
    ensures var parts := Split(s, sep);
      parts[0] == s[..IndexOf(s, sep)] && Join(parts[1..], sep) == s[IndexOf(s, sep) + 1..]
  {
    var k := IndexOf(s, sep);
    assert Split(s, sep) == [s[..k]] + Split(s[k + 1..], sep);
    assert Split(s, sep)[1..] == Split(s[k + 1..], sep);
  }

  /** What one `;`-separated fragment contributes: a colon-free `base64,`
      continuation of the previous value, a key/value pair, or nothing. */
  datatype Fragment = Continuation(text: string) | Pair(key: string, value: string) | Blank

  /** How `parseRules` reads one fragment: it is trimmed; without a colon and
      starting with `base64,` it continues the previous value; with a colon it is
      cut there, and the pair is kept when both trimmed halves are non-empty. */
  function Classify(fragment: string): Fragment
  {
    var rule := Trim(fragment);
    if !Includes(rule, ":") && Substring(Trim(rule), 0, 7) == "base64," then
      Continuation(Trim(rule))
    else if Includes(rule, ":") then
      var parts := Split(rule, ":");
      var key := Trim(parts[0]);
      var value := Trim(Join(parts[1..], ":"));
      if |key| > 0 && |value| > 0 then Pair(key, value) else Blank
    else Blank
  }

  /** The effect of one fragment on the declarations read so far: a continuation
      with nothing before it reads a property of `undefined` and throws. */
  function Apply(acc: seq<Decl>, f: Fragment): Result<seq<Decl>>
  {
    match f
    case Continuation(text) =>
      if |acc| == 0 then Failure(UndefinedRead)
      else Success(acc[..|acc| - 1] + [Decl(acc[|acc| - 1].key, acc[|acc| - 1].value + text)])
    case Pair(key, value) => Success(acc + [Decl(key, value)])
    case Blank => Success(acc)
  }

  /** A trimmed fragment tests `base64,` exactly as `startsWith` would. */
  lemma TrimmedPrefix(fragment: string)
    ensures var rule := Trim(fragment);
      Trim(rule) == rule && (Substring(rule, 0, 7) == "base64," <==> StartsWith(rule, "base64,"))
  {
    TrimKeeps(Trim(fragment));
  }

  /** A colon-free fragment is a continuation exactly when it starts with `base64,`
      once trimmed, and then carries the whole trimmed fragment. */
  lemma ClassifyColonFree(fragment: string)
    requires !Includes(Trim(fragment), ":")
    ensures Classify(fragment) == if StartsWith(Trim(fragment), "base64,") then Continuation(Trim(fragment)) else Blank
  {
    TrimmedPrefix(fragment);
  }

  /** A fragment with a colon yields the trimmed text before its first colon as the
      key and the trimmed text after it as the value, and the pair is kept only when
      both are non-empty. */
  lemma ClassifyColon(fragment: string)
    requires Includes(Trim(fragment), ":")
    ensures var rule := Trim(fragment);
      var c := IndexOf(rule, ":");
      var key := Trim(rule[..c]);
      var value := Trim(rule[c + 1..]);
      Classify(fragment) == if |key| > 0 && |value| > 0 then Pair(key, value) else Blank
  {
    FirstPieces(Trim(fragment), ":");
  }

  /** The declarations read from the first `n` fragments, or the TypeError. */
  function ReadFragments(fragments: seq<Fragment>, n: nat): Result<seq<Decl>>
    requires n <= |fragments|
  {
    if n == 0 then Success([])
    else match ReadFragments(fragments, n - 1)
      case Failure(e) => Failure(e)
      case Success(acc) => Apply(acc, fragments[n - 1])
  }

  /** `xs.map(f)`. */
  function MapSeq<A, B>(f: A -> B, xs: seq<A>): (ys: seq<B>)
    ensures |ys| == |xs|
  {
    if |xs| == 0 then [] else MapSeq(f, xs[..|xs| - 1]) + [f(xs[|xs| - 1])]
  }

  lemma {:induction false} MapSeqAt<A, B>(f: A -> B, xs: seq<A>, i: nat)
    requires i < |xs|
    ensures MapSeq(f, xs)[i] == f(xs[i])
    decreases |xs|
  {
    if i < |xs| - 1 {
      MapSeqAt(f, xs[..|xs| - 1], i);
    }
  }

  /** Each piece of text classified as a fragment. */
  function ClassifyAll(pieces: seq<string>): (fs: seq<Fragment>)
    ensures |fs| == |pieces|
  {
    MapSeq(Classify, pieces)
  }

  /** The fragments `parseRules` walks: the normalised text cut at every `;`,
      each one classified. */
  function Fragments(rules: string): seq<Fragment>
  {
    ClassifyAll(Split(StandardReturn(rules), ";"))
  }

  /** `parseRules(rules)`. */
  function ParseRulesOf(rules: string): Result<seq<Decl>>
  {
    ReadFragments(Fragments(rules), |Fragments(rules)|)
  }

  /** Once a fragment throws, the later fragments are never read. */
  lemma {:induction false} ReadFragmentsStop(fragments: seq<Fragment>, i: nat, n: nat)
    requires i <= n <= |fragments| && ReadFragments(fragments, i).Failure?
    ensures ReadFragments(fragments, n) == ReadFragments(fragments, i)
    decreases n
  {
    if n > i {
      ReadFragmentsStop(fragments, i, n - 1);
    }
  }

  /** One pass of `parseRules`'s loop: the `+=` on the previous value or the push. */
  method ReadOne(parsed: seq<Decl>, fragment: string) returns (r: Result<seq<Decl>>)
    ensures r == Apply(parsed, Classify(fragment))
  {
    var rule := Trim(fragment);
    if !Includes(rule, ":") && Substring(Trim(rule), 0, 7) == "base64," {
      if |parsed| == 0 {
        return Failure(UndefinedRead);
      }
      var last := parsed[|parsed| - 1];
      return Success(parsed[..|parsed| - 1] + [Decl(last.key, last.value + Trim(rule))]);
    }
    if Includes(rule, ":") {
      var parts := Split(rule, ":");
      var key := Trim(parts[0]);
      var value := Trim(Join(parts[1..], ":"));
      if |key| > 0 && |value| > 0 {
        return Success(parsed + [Decl(key, value)]);
      }
    }
    return Success(parsed);
  }

  /** `fs` holds the classification of each piece. */
  predicate Classified(pieces: seq<string>, fs: seq<Fragment>)
  {
    |fs| == |pieces| && forall k {:trigger Classify(pieces[k])} :: 0 <= k < |pieces| ==> fs[k] == Classify(pieces[k])
  }

  /** One pass of the loop, stated against the fragments read so far. */
  method ReadNext(ghost fragments: seq<Fragment>, pieces: seq<string>, i: nat, parsed: seq<Decl>)
    returns (next: Result<seq<Decl>>)
    requires Classified(pieces, fragments) && i < |pieces|
    requires ReadFragments(fragments, i) == Success(parsed)
    ensures next == ReadFragments(fragments, i + 1)
  {
    next := ReadOne(parsed, pieces[i]);
  }

  /** The loop of `parseRules` over the pieces of the normalised text. */
  method ReadPieces(pieces: seq<string>, ghost fragments: seq<Fragment>) returns (r: Result<seq<Decl>>)
    requires Classified(pieces, fragments)
    ensures r == ReadFragments(fragments, |pieces|)
  {
    var parsed: seq<Decl> := [];
    var i := 0;
    while i < |pieces|
      invariant 0 <= i <= |pieces|
      invariant ReadFragments(fragments, i) == Success(parsed)
    {
      var next := ReadNext(fragments, pieces, i, parsed);
      if next.Failure? {
        ReadFragmentsStop(fragments, i + 1, |fragments|);
        return next;
      }
      parsed := next.value;
      i := i + 1;
    }
    return Success(parsed);
  }

  /** `parseRules`. */
  method ParseRules(rules: string) returns (r: Result<seq<Decl>>)
    ensures r == ParseRulesOf(rules)
  {
    var pieces := Split(StandardReturn(rules), ";");
    ghost var fragments := ClassifyAll(pieces);
    forall k | 0 <= k < |pieces|
      ensures fragments[k] == Classify(pieces[k])
    {
      MapSeqAt(Classify, pieces, k);
    }
    r := ReadPieces(pieces, fragments);
  }

  /** What every declaration `parseRules` returns looks like: a non-empty key
      without a colon and without white space at its ends, and a non-empty value. */
  predicate WellRead(d: Decl)
  {
    |d.key| > 0 && |d.value| > 0 && ':' !in d.key && !IsSpace(d.key[0]) && !IsSpace(d.key[|d.key| - 1])
  }

  /** A fragment's pair is well read and a continuation is never empty. */
  predicate SoundFragment(f: Fragment)
  {
    (f.Continuation? ==> |f.text| > 0) && (f.Pair? ==> WellRead(Decl(f.key, f.value)))
  }

  /** The key read from a fragment holds no colon: each of its characters sits
      before the first colon of the fragment. */
  lemma KeyHasNoColon(rule: string)
    requires Includes(rule, ":")
    ensures ':' !in Trim(rule[..IndexOf(rule, ":")])
  {
    BeforeFirstColon(rule);
    TrimDropsNothingNew(rule[..IndexOf(rule, ":")], ':');
  }

  /** No colon stands before the first one. */
  lemma BeforeFirstColon(rule: string)
    requires Includes(rule, ":")
    ensures ':' !in rule[..IndexOf(rule, ":")]
  {
    var c := IndexOf(rule, ":");
    forall j | 0 <= j < c
      ensures rule[..c][j] != ':'
    {
      assert !OccursAt(rule, ":", j);
      assert rule[j..j + 1] == [rule[j]];
    }
  }

  /** Trimming brings in no character the text did not hold. */
  lemma TrimDropsNothingNew(p: string, ch: char)
    requires ch !in p
    ensures ch !in Trim(p)
  {
    var ts := TrimStart(p);
    assert ts == p[|p| - |ts|..];
    assert ch !in ts;
    assert TrimEnd(ts) == ts[..|TrimEnd(ts)|];
  }

  lemma ClassifySound(fragment: string)
    ensures SoundFragment(Classify(fragment))
  {
    if Includes(Trim(fragment), ":") {
      ClassifyColonSound(fragment);
    } else {
      ClassifyColonFree(fragment);
    }
  }

  /** The pair read from a fragment with a colon is well read. */
  lemma ClassifyColonSound(fragment: string)
    requires Includes(Trim(fragment), ":")
    ensures SoundFragment(Classify(fragment))
  {
    ClassifyColon(fragment);
    PairWellRead(Trim(fragment));
  }

  /** The trimmed text before the first colon, kept when it and the trimmed text
      after the colon are non-empty, makes a well-read declaration. */
  lemma PairWellRead(rule: string)
    requires Includes(rule, ":")
    ensures |Trim(rule[..IndexOf(rule, ":")])| > 0 && |Trim(rule[IndexOf(rule, ":") + 1..])| > 0 ==>
      WellRead(Decl(Trim(rule[..IndexOf(rule, ":")]), Trim(rule[IndexOf(rule, ":") + 1..])))
  {
    var key, value := Trim(rule[..IndexOf(rule, ":")]), Trim(rule[IndexOf(rule, ":") + 1..]);
    KeyHasNoColon(rule);
    if |key| > 0 && |value| > 0 {
      DeclWellRead(key, value);
    }
  }

  lemma DeclWellRead(key: string, value: string)
    requires |key| > 0 && |value| > 0 && ':' !in key
    requires key == [] || (!IsSpace(key[0]) && !IsSpace(key[|key| - 1]))
    ensures WellRead(Decl(key, value))
  {
  }

  lemma {:induction false} ReadFragmentsWellRead(fragments: seq<Fragment>, n: nat)
    requires n <= |fragments|
    requires forall k :: 0 <= k < |fragments| ==> SoundFragment(fragments[k])
    ensures ReadFragments(fragments, n).Success? ==>
      forall k :: 0 <= k < |ReadFragments(fragments, n).value| ==> WellRead(ReadFragments(fragments, n).value[k])
  {
    if n > 0 {
      ReadFragmentsWellRead(fragments, n - 1);
      assert SoundFragment(fragments[n - 1]);
    }
  }

  /** Every declaration `parseRules` returns has a non-empty, colon-free, trimmed
      key and a non-empty value. */
  lemma ParseRulesWellRead(rules: string)
    ensures ParseRulesOf(rules).Success? ==>
      forall k :: 0 <= k < |ParseRulesOf(rules).value| ==> WellRead(ParseRulesOf(rules).value[k])
  {
    var pieces := Split(StandardReturn(rules), ";");
    var fragments := ClassifyAll(pieces);
    forall k | 0 <= k < |fragments|
      ensures SoundFragment(fragments[k])
    {
      MapSeqAt(Classify, pieces, k);
      ClassifySound(pieces[k]);
    }
    ReadFragmentsWellRead(fragments, |fragments|);
  }

  // ---------------------------------------------------------------- createTextStyle

  /** The text of one declaration, `key: value`. */
  function Item(d: Decl): string
  {
    d.key + ": " + d.value
  }

  /** The declaration lines `createTextStyle` writes, each behind `indent` and
      closed by `;` and a newline. */
  function DeclLines(ds: seq<Decl>, indent: string): string
  {
    if ds == [] then "" else DeclLines(ds[..|ds| - 1], indent) + indent + Item(ds[|ds| - 1]) + ";\n"
  }

  /** `styles` with a line break after every `{`, `}` and `;`. */
  function Expanded(styles: string): string
  {
    ReplaceAll(ReplaceAll(ReplaceAll(styles, "{", "{\n"), "}", "}\n"), ";", ";\n")
  }

  /** The text of one nested rule of a `@media` or `@supports` group; a nested rule
      without declarations (a nested group or a verbatim rule) throws. */
  function SubStyleText(sub: Rule): Result<string>
  {
    match sub
    case Style(selector, _, decls) => Success("    " + selector + " {\n" + DeclLines(decls, "        ") + "    }\n")
    case _ => Failure(UndefinedRead)
  }

  /** The text of the first `n` nested rules. */
  function SubStylesText(subs: seq<Rule>, n: nat): Result<string>
    requires n <= |subs|
  {
    if n == 0 then Success("")
    else match SubStylesText(subs, n - 1)
      case Failure(e) => Failure(e)
      case Success(t) =>
        match SubStyleText(subs[n - 1])
        case Failure(e) => Failure(e)
        case Success(u) => Success(t + u)
  }

  /** The text `createTextStyle` writes for one rule. */
  function RuleText(r: Rule): Result<string>
  {
    match r
    case Style(selector, _, decls) => Success(selector + " {\n" + DeclLines(decls, "    ") + "}\n")
    case Verbatim(_, _, styles) => Success(Expanded(styles) + "\n")
    case Group(selector, _, subs) =>
      match SubStylesText(subs, |subs|)
      case Failure(e) => Failure(e)
      case Success(t) => Success(selector + " {\n" + t + "}\n")
  }

  /** The text of the first `n` rules. */
  function TextStyle(rules: seq<Rule>, n: nat): Result<string>
    requires n <= |rules|
  {
    if n == 0 then Success("")
    else match TextStyle(rules, n - 1)
      case Failure(e) => Failure(e)
      case Success(t) =>
        match RuleText(rules[n - 1])
        case Failure(e) => Failure(e)
        case Success(u) => Success(t + u)
  }

  /** The inner `forEach` over declarations. */
  method AppendDecls(text: string, decls: seq<Decl>, indent: string) returns (out: string)
    ensures out == text + DeclLines(decls, indent)
  {
    out := text;
    var j := 0;
    while j < |decls|
      invariant 0 <= j <= |decls|
      invariant out == text + DeclLines(decls[..j], indent)
    {
      assert decls[..j + 1][..j] == decls[..j];
      out := out + indent + decls[j].key + ": " + decls[j].value + ";\n";
      j := j + 1;
    }
    assert decls[..j] == decls;
  }

  /** One more nested rule written after the first `j`. */
  lemma SubStylesStep(subs: seq<Rule>, j: nat, text: string, before: string, after: string)
    requires j < |subs| && subs[j].Style?
    requires SubStylesText(subs, j).Success? && before == text + SubStylesText(subs, j).value
    requires after == before + "    " + subs[j].selector + " {\n" + DeclLines(subs[j].decls, "        ") + "    }\n"
    ensures SubStylesText(subs, j + 1).Success? && after == text + SubStylesText(subs, j + 1).value
  {
    var u := "    " + subs[j].selector + " {\n" + DeclLines(subs[j].decls, "        ") + "    }\n";
    assert SubStyleText(subs[j]) == Success(u);
    assert SubStylesText(subs, j + 1) == Success(SubStylesText(subs, j).value + u);
    Regroup(text, SubStylesText(subs, j).value, "    ", subs[j].selector, " {\n", DeclLines(subs[j].decls, "        "), "    }\n");
  }

  lemma Regroup(a: string, b: string, c: string, d: string, e: string, f: string, g: string)
    ensures a + b + c + d + e + f + g == a + (b + (c + d + e + f + g))
  {
  }

  /** The `forEach` over the nested rules of a group. */
  method AppendSubStyles(text: string, subs: seq<Rule>) returns (r: Result<string>)
    ensures SubStylesText(subs, |subs|).Success? ==> r == Success(text + SubStylesText(subs, |subs|).value)
    ensures SubStylesText(subs, |subs|).Failure? ==> r == SubStylesText(subs, |subs|)
  {
    var out := text;
    var j := 0;
    while j < |subs|
      invariant 0 <= j <= |subs|
      invariant SubStylesText(subs, j).Success? && out == text + SubStylesText(subs, j).value
    {
      var sub := subs[j];
      if !sub.Style? {
        SubStylesStop(subs, j + 1, |subs|);
        return Failure(UndefinedRead);
      }
      ghost var before := out;
      out := out + "    " + sub.selector + " {\n";
      out := AppendDecls(out, sub.decls, "        ");
      out := out + "    }\n";
      SubStylesStep(subs, j, text, before, out);
      j := j + 1;
    }
    return Success(out);
  }

  /** Once a nested rule throws, the rest is never written. */
  lemma {:induction false} SubStylesStop(subs: seq<Rule>, i: nat, n: nat)
    requires i <= n <= |subs| && SubStylesText(subs, i).Failure?
    ensures SubStylesText(subs, n) == SubStylesText(subs, i)
    decreases n
  {
    if n > i {
      SubStylesStop(subs, i, n - 1);
    }
  }

  /** Once a rule throws, the rest is never written. */
  lemma {:induction false} TextStyleStop(rules: seq<Rule>, i: nat, n: nat)
    requires i <= n <= |rules| && TextStyle(rules, i).Failure?
    ensures TextStyle(rules, n) == TextStyle(rules, i)
    decreases n
  {
    if n > i {
      TextStyleStop(rules, i, n - 1);
    }
  }

  /** One more rule written after the first `i`. */
  lemma TextStyleStep(rules: seq<Rule>, i: nat, before: string, piece: string, after: string)
    requires i < |rules| && TextStyle(rules, i) == Success(before)
    requires RuleText(rules[i]) == Success(piece) && after == before + piece
    ensures TextStyle(rules, i + 1) == Success(after)
  {
  }

  /** One pass of `createTextStyle`'s loop: the `switch` on the rule's type. */
  method WriteRule(text: string, rule: Rule) returns (r: Result<string>)
    ensures RuleText(rule).Success? ==> r == Success(text + RuleText(rule).value)
    ensures RuleText(rule).Failure? ==> r == RuleText(rule)
  {
    match rule {
      case Style(selector, _, decls) =>
        var out := text + selector + " {\n";
        out := AppendDecls(out, decls, "    ");
        out := out + "}\n";
        Regroup5(text, selector, " {\n", DeclLines(decls, "    "), "}\n");
        return Success(out);
      case Verbatim(_, _, styles) =>
        Regroup3(text, Expanded(styles), "\n");
        return Success(text + Expanded(styles) + "\n");
      case Group(selector, _, subs) =>
        var inner := AppendSubStyles(text + selector + " {\n", subs);
        if inner.Failure? {
          return inner;
        }
        var out := inner.value + "}\n";
        Regroup5(text, selector, " {\n", SubStylesText(subs, |subs|).value, "}\n");
        return Success(out);
    }
  }

  lemma Regroup3(a: string, b: string, c: string)
    ensures a + b + c == a + (b + c)
  {
  }

  lemma Regroup5(a: string, b: string, c: string, d: string, e: string)
    ensures a + b + c + d + e == a + (b + c + d + e)
  {
  }

  /** `createTextStyle`: the rules written back as style text. */
  method CreateTextStyle(cssRules: seq<Rule>) returns (r: Result<string>)
    ensures r == TextStyle(cssRules, |cssRules|)
  {
    var modified := "";
    var i := 0;
    while i < |cssRules|
      invariant 0 <= i <= |cssRules|
      invariant TextStyle(cssRules, i) == Success(modified)
    {
      var next := WriteRule(modified, cssRules[i]);
      if next.Failure? {
        assert TextStyle(cssRules, i + 1).Failure?;
        TextStyleStop(cssRules, i + 1, |cssRules|);
        return next;
      }
      TextStyleStep(cssRules, i, modified, RuleText(cssRules[i]).value, next.value);
      modified := next.value;
      i := i + 1;
    }
    return Success(modified);
  }

  /** A rule `createTextStyle` can write: every nested rule of a group carries
      declarations. */
  predicate Serialisable(r: Rule)
  {
    r.Group? ==> forall j :: 0 <= j < |r.subStyles| ==> r.subStyles[j].Style?
  }

  lemma {:induction false} SubStylesSucceed(subs: seq<Rule>, n: nat)
    requires n <= |subs|
    ensures SubStylesText(subs, n).Success? <==> forall j :: 0 <= j < n ==> subs[j].Style?
  {
    if n > 0 {
      SubStylesSucceed(subs, n - 1);
    }
  }

  /** One rule is written exactly when it is serialisable. */
  lemma RuleTextSucceeds(r: Rule)
    ensures RuleText(r).Success? <==> Serialisable(r)
  {
    if r.Group? {
      SubStylesSucceed(r.subStyles, |r.subStyles|);
    }
  }

  /** `createTextStyle` throws exactly when some `@media` or `@supports` group
      holds a nested rule without declarations. */
  lemma {:induction false} TextStyleSucceeds(rules: seq<Rule>, n: nat)
    requires n <= |rules|
    ensures TextStyle(rules, n).Success? <==> forall i :: 0 <= i < n ==> Serialisable(rules[i])
  {
    if n > 0 {
      TextStyleSucceeds(rules, n - 1);
      RuleTextSucceeds(rules[n - 1]);
      TextStyleGrows(rules, n);
      assert (forall i :: 0 <= i < n ==> Serialisable(rules[i]))
        <==> (forall i :: 0 <= i < n - 1 ==> Serialisable(rules[i])) && Serialisable(rules[n - 1]);
    }
  }

  /** One more rule is written when the rules before it were and it can be. */
  lemma TextStyleGrows(rules: seq<Rule>, n: nat)
    requires 0 < n <= |rules|
    ensures TextStyle(rules, n).Success? <==> TextStyle(rules, n - 1).Success? && RuleText(rules[n - 1]).Success?
  {
  }

  // ---------------------------------------------------------------- round trip

  /** A declaration that reads back unchanged from the line `createTextStyle` writes
      for it: key and value non-empty and free of `;` and carriage returns, the key
      free of `:`, and neither starting or ending with white space. */
  predicate Writable(d: Decl)
  {
    && |d.key| > 0 && |d.value| > 0
    && !IsSpace(d.key[0]) && !IsSpace(d.key[|d.key| - 1])
    && !IsSpace(d.value[0]) && !IsSpace(d.value[|d.value| - 1])
    && ':' !in d.key && ';' !in d.key && ';' !in d.value
    && '\r' !in d.key && '\r' !in d.value
  }

  /** The `;`-separated fragments of the written declaration lines, once trimmed:
      the first declaration, then each later one behind the line break and indent
      that precede it. */
  function Heads(ds: seq<Decl>): (hs: seq<string>)
    requires |ds| > 0
    ensures |hs| == |ds|
  {
    if |ds| == 1 then [Item(ds[0])] else Heads(ds[..|ds| - 1]) + ["\n    " + Item(ds[|ds| - 1])]
  }

  lemma JoinFirst(xs: seq<string>, sep: string)
    requires |xs| > 0 && |xs[0]| > 0
    ensures |Join(xs, sep)| > 0 && Join(xs, sep)[0] == xs[0][0]
  {
  }

  lemma {:induction false} HeadsJoin(ds: seq<Decl>)
    requires |ds| > 0
    ensures DeclLines(ds, "    ") == "    " + Join(Heads(ds), ";") + ";\n"
    decreases |ds|
  {
    var d := ds[|ds| - 1];
    var init := ds[..|ds| - 1];
    assert DeclLines(ds, "    ") == DeclLines(init, "    ") + "    " + Item(d) + ";\n";
    if |ds| == 1 {
      assert init == [];
    } else {
      HeadsJoin(init);
      assert Heads(ds) == Heads(init) + ["\n    " + Item(d)];
      JoinSnoc(Heads(init), "\n    " + Item(d), ";");
      LinesRegroup(Join(Heads(init), ";"), Item(d));
    }
  }

  lemma LinesRegroup(j: string, item: string)
    ensures "    " + j + ";\n" + "    " + item + ";\n" == "    " + (j + ";" + ("\n    " + item)) + ";\n"
  {
  }

  lemma {:induction false} HeadAt(ds: seq<Decl>, i: nat)
    requires i < |ds|
    ensures Heads(ds)[i] == (if i == 0 then "" else "\n    ") + Item(ds[i])
    decreases |ds|
  {
    if i < |ds| - 1 {
      HeadAt(ds[..|ds| - 1], i);
    }
  }

  lemma ItemChars(d: Decl)
    requires Writable(d)
    ensures ';' !in Item(d) && '\r' !in Item(d)
  {
  }

  lemma {:induction false} LinesHaveNoCr(ds: seq<Decl>)
    requires forall i :: 0 <= i < |ds| ==> Writable(ds[i])
    ensures '\r' !in DeclLines(ds, "    ")
    decreases |ds|
  {
    if ds != [] {
      LinesHaveNoCr(ds[..|ds| - 1]);
      ItemChars(ds[|ds| - 1]);
    }
  }

  /** `standardReturn` of a word between a line break plus indent and a final line
      break is the word itself. */
  lemma NormalisePadded(x: string)
    requires x != [] && !IsSpace(x[0]) && !IsSpace(x[|x| - 1])
    requires '\r' !in "\n    " + x + "\n"
    ensures StandardReturn("\n    " + x + "\n") == x
  {
    var s := "\n    " + x + "\n";
    NoCrLf(s);
    assert ReplaceAll(s, "\r\n", "\n") == s;
    assert s[0..1] == "\n";
    assert OccursAt(s, "\n", 0);
    assert IndexOf(s, "\n") == 0;
    assert s[1] == ' ';
    assert NewlineRun(s, 0) == 1;
    assert s[..0] + "\n" + s[1..] == s;
    assert CollapseFirstRun(s) == s;
    TrimPadded("\n    ", x, "\n");
  }

  lemma JoinedStart(ds: seq<Decl>)
    requires |ds| > 0 && Writable(ds[0])
    ensures var j := Join(Heads(ds), ";"); |j| > 0 && j[0] == ds[0].key[0]
  {
    HeadAt(ds, 0);
    JoinFirst(Heads(ds), ";");
  }

  /** The written body is the joined fragments and the final `;` between a line
      break plus indent and a final line break. */
  lemma BodyShape(ds: seq<Decl>)
    requires |ds| > 0
    ensures "\n" + DeclLines(ds, "    ") == "\n    " + (Join(Heads(ds), ";") + ";") + "\n"
  {
    HeadsJoin(ds);
  }

  lemma JoinedEnds(ds: seq<Decl>)
    requires |ds| > 0 && Writable(ds[0])
    ensures var x := Join(Heads(ds), ";") + ";"; x != [] && !IsSpace(x[0]) && !IsSpace(x[|x| - 1])
  {
    JoinedStart(ds);
  }

  /** The normalised body of the written declarations is the `;`-joined fragments
      followed by the final `;`. */
  lemma NormalisedBody(ds: seq<Decl>)
    requires |ds| > 0 && forall i :: 0 <= i < |ds| ==> Writable(ds[i])
    ensures StandardReturn("\n" + DeclLines(ds, "    ")) == Join(Heads(ds), ";") + ";"
  {
    BodyShape(ds);
    LinesHaveNoCr(ds);
    JoinedEnds(ds);
    NormalisePadded(Join(Heads(ds), ";") + ";");
  }

  /** No fragment of the written lines holds a `;`. */
  lemma HeadsFree(ds: seq<Decl>)
    requires |ds| > 0 && forall i :: 0 <= i < |ds| ==> Writable(ds[i])
    ensures forall k :: 0 <= k < |ds| ==> !Includes(Heads(ds)[k], ";")
  {
    forall k | 0 <= k < |ds|
      ensures !Includes(Heads(ds)[k], ";")
    {
      HeadAt(ds, k);
      ItemChars(ds[k]);
      IncludesChar(Heads(ds)[k], ';');
    }
  }

  /** Pieces free of `;`, joined and closed by a `;`, split back into the pieces
      and one empty piece. */
  lemma SplitClosed(hs: seq<string>)
    requires |hs| > 0 && forall k :: 0 <= k < |hs| ==> !Includes(hs[k], ";")
    ensures Split(Join(hs, ";") + ";", ";") == hs + [""]
  {
    var ps := hs + [""];
    JoinSnoc(hs, "", ";");
    assert Join(hs, ";") + ";" + "" == Join(hs, ";") + ";";
    forall k | 0 <= k < |ps|
      ensures !Includes(ps[k], ";")
    {
      if k == |hs| {
        IncludesChar(ps[k], ';');
      } else {
        assert ps[k] == hs[k];
      }
    }
    SplitJoin(ps, ";");
  }

  /** The fragments of the written lines split apart again. */
  lemma SplitBody(ds: seq<Decl>)
    requires |ds| > 0 && forall i :: 0 <= i < |ds| ==> Writable(ds[i])
    ensures Split(Join(Heads(ds), ";") + ";", ";") == Heads(ds) + [""]
  {
    HeadsFree(ds);
    SplitClosed(Heads(ds));
  }

  /** Where the first colon of a written declaration sits. */
  lemma ItemColon(d: Decl)
    requires Writable(d)
    ensures var rule := Item(d);
      Includes(rule, ":") && IndexOf(rule, ":") == |d.key|
      && rule[..|d.key|] == d.key && rule[|d.key| + 1..] == " " + d.value
  {
    var rule := Item(d);
    IncludesChar(d.key, ':');
    assert rule == d.key + ":" + (" " + d.value);
    FirstSeparator(d.key, ":", " " + d.value);
    IncludesAt(rule, ":", |d.key|);
  }

  /** The line break and indent before a later declaration is white space. */
  lemma IndentIsSpace()
    ensures forall k :: 0 <= k < |"\n    "| ==> IsSpace("\n    "[k])
  {
  }

  lemma ItemEnds(d: Decl)
    requires Writable(d)
    ensures var x := Item(d); x != [] && !IsSpace(x[0]) && !IsSpace(x[|x| - 1])
  {
    var x := Item(d);
    assert x[0] == d.key[0];
    assert x[|x| - 1] == d.value[|d.value| - 1];
  }

  /** A written declaration behind its indent trims to itself. */
  lemma ItemTrim(pad: string, d: Decl)
    requires pad == "" || pad == "\n    "
    requires Writable(d)
    ensures Trim(pad + Item(d)) == Item(d)
  {
    var x := Item(d);
    IndentIsSpace();
    ItemEnds(d);
    TrimPadded(pad, x, "");
    assert pad + x + "" == pad + x;
  }

  /** The key and the text after the colon trim to the key and the value. */
  lemma PartsTrim(d: Decl)
    requires Writable(d)
    ensures Trim(d.key) == d.key && Trim(" " + d.value) == d.value
  {
    TrimKeeps(d.key);
    TrimPadded(" ", d.value, "");
    assert " " + d.value + "" == " " + d.value;
  }

  /** A written declaration, once trimmed, is read back as that declaration. */
  lemma ClassifyItem(pad: string, d: Decl)
    requires pad == "" || pad == "\n    "
    requires Writable(d)
    ensures Classify(pad + Item(d)) == Pair(d.key, d.value)
  {
    ItemTrim(pad, d);
    PartsTrim(d);
    ItemColon(d);
    ClassifyColon(pad + Item(d));
  }

  /** The empty fragment after the last `;` adds nothing. */
  lemma ClassifyEmpty()
    ensures Classify("") == Blank
  {
    TrimKeeps("");
    ClassifyColonFree("");
  }

  /** Fragments that are the declarations' pairs, then one blank, read back as the
      declarations. */
  lemma {:induction false} ReadPairs(fs: seq<Fragment>, ds: seq<Decl>, n: nat)
    requires |fs| == |ds| + 1 && n <= |ds|
    requires forall i :: 0 <= i < |ds| ==> fs[i] == Pair(ds[i].key, ds[i].value)
    ensures ReadFragments(fs, n) == Success(ds[..n])
    decreases n
  {
    if n > 0 {
      ReadPairs(fs, ds, n - 1);
      assert ds[..n] == ds[..n - 1] + [Decl(ds[n - 1].key, ds[n - 1].value)];
    }
  }

  lemma FragmentOf(pieces: seq<string>, i: nat, pad: string, d: Decl)
    requires i < |pieces| && pieces[i] == pad + Item(d)
    requires pad == "" || pad == "\n    "
    requires Writable(d)
    ensures ClassifyAll(pieces)[i] == Pair(d.key, d.value)
  {
    MapSeqAt(Classify, pieces, i);
    ClassifyItem(pad, d);
  }

  lemma FragmentAt(ds: seq<Decl>, i: nat)
    ensures i < |ds| && Writable(ds[i]) ==> ClassifyAll(Heads(ds) + [""])[i] == Pair(ds[i].key, ds[i].value)
  {
    if i < |ds| && Writable(ds[i]) {
      HeadAt(ds, i);
      FragmentOf(Heads(ds) + [""], i, if i == 0 then "" else "\n    ", ds[i]);
    }
  }

  /** The fragments of the written lines, classified. */
  lemma BodyFragments(ds: seq<Decl>)
    requires |ds| > 0 && forall i :: 0 <= i < |ds| ==> Writable(ds[i])
    ensures forall i :: 0 <= i < |ds| ==> ClassifyAll(Heads(ds) + [""])[i] == Pair(ds[i].key, ds[i].value)
  {
    forall i: nat
      ensures i < |ds| && Writable(ds[i]) ==> ClassifyAll(Heads(ds) + [""])[i] == Pair(ds[i].key, ds[i].value)
    {
      FragmentAt(ds, i);
    }
  }

  /** The piece after the final `;` is blank. */
  lemma BlankLast(ds: seq<Decl>)
    requires |ds| > 0
    ensures ClassifyAll(Heads(ds) + [""])[|ds|] == Blank
  {
    MapSeqAt(Classify, Heads(ds) + [""], |ds|);
    ClassifyEmpty();
  }

  /** The declarations' pairs and the final blank read back as the declarations. */
  lemma ReadAll(fs: seq<Fragment>, ds: seq<Decl>)
    requires |fs| == |ds| + 1 && fs[|ds|] == Blank
    requires forall i :: 0 <= i < |ds| ==> fs[i] == Pair(ds[i].key, ds[i].value)
    ensures ReadFragments(fs, |fs|) == Success(ds)
  {
    ReadPairs(fs, ds, |ds|);
    assert ds[..|ds|] == ds;
    assert ReadFragments(fs, |ds| + 1) == Apply(ds, Blank);
  }

  /** `parseRules` read through its stages. */
  lemma ParseRulesVia(rules: string, pieces: seq<string>, fs: seq<Fragment>)
    requires Split(StandardReturn(rules), ";") == pieces && ClassifyAll(pieces) == fs
    ensures ParseRulesOf(rules) == ReadFragments(fs, |fs|)
  {
  }

  lemma NewlineCollapsed(s: string)
    requires |s| == 1 && s[0] == '\n'
    ensures CollapseFirstRun(s) == s
  {
    assert s[0..1] == "\n";
    assert OccursAt(s, "\n", 0);
    assert IndexOf(s, "\n") == 0;
    assert NewlineRun(s, 0) == 1;
    assert s[..0] + "\n" + s[1..] == s;
  }

  lemma NewlineTrimmed(s: string)
    requires |s| == 1 && s[0] == '\n'
    ensures Trim(s) == ""
  {
    assert TrimStart(s) == TrimStart(s[1..]);
    assert s[1..] == [];
  }

  lemma NewlineNormalised()
    ensures StandardReturn("\n") == ""
  {
    var s := "\n";
    NoCrLf(s);
    assert ReplaceAll(s, "\r\n", "\n") == s;
    NewlineCollapsed(s);
    NewlineTrimmed(s);
  }

  lemma SplitEmpty()
    ensures Split("", ";") == [""]
  {
  }

  lemma ClassifyBlank()
    ensures ClassifyAll([""]) == [Blank]
  {
    MapSeqAt(Classify, [""], 0);
    ClassifyEmpty();
  }

  /** The body of a rule without declarations reads back as no declarations. */
  lemma EmptyBodyRoundTrip()
    ensures ParseRulesOf("\n") == Success([])
  {
    NewlineNormalised();
    SplitEmpty();
    ClassifyBlank();
    ParseRulesVia("\n", [""], [Blank]);
  }

  /** Round trip: the body `createTextStyle` writes between the braces of a style
      rule is read back by `parseRules` as exactly its declarations. */
  lemma DeclLinesRoundTrip(ds: seq<Decl>)
    requires forall i :: 0 <= i < |ds| ==> Writable(ds[i])
    ensures ParseRulesOf("\n" + DeclLines(ds, "    ")) == Success(ds)
  {
    if ds == [] {
      assert "\n" + DeclLines(ds, "    ") == "\n";
      EmptyBodyRoundTrip();
    } else {
      NormalisedBody(ds);
      SplitBody(ds);
      BodyFragments(ds);
      BlankLast(ds);
      var fs := ClassifyAll(Heads(ds) + [""]);
      ParseRulesVia("\n" + DeclLines(ds, "    "), Heads(ds) + [""], fs);
      ReadAll(fs, ds);
    }
  }

  /** Where the body of a written style rule sits: after the first `{`, up to the
      closing `}` and line break. */
  lemma StyleBodyAt(selector: string, ds: seq<Decl>)
    requires '{' !in selector
    ensures var t := selector + " {\n" + DeclLines(ds, "    ") + "}\n";
      var k := IndexOf(t, "{");
      0 <= k && k + 1 <= |t| - 2 && t[k + 1..|t| - 2] == "\n" + DeclLines(ds, "    ")
  {
    var body := "\n" + DeclLines(ds, "    ");
    var t := selector + " {\n" + DeclLines(ds, "    ") + "}\n";
    IncludesChar(selector + " ", '{');
    assert t == (selector + " ") + "{" + (body + "}\n");
    FirstSeparator(selector + " ", "{", body + "}\n");
  }

  /** Round trip of a whole style rule: the text `createTextStyle` writes for it
      holds, between its first `{` and its closing `}`, a body that `parseRules`
      reads back as the rule's declarations. */
  lemma StyleTextRoundTrip(selector: string, fontFace: bool, ds: seq<Decl>)
    requires '{' !in selector
    requires forall i :: 0 <= i < |ds| ==> Writable(ds[i])
    ensures RuleText(Style(selector, fontFace, ds)).Success?
    ensures var t := RuleText(Style(selector, fontFace, ds)).value;
      var k := IndexOf(t, "{");
      0 <= k && k + 1 <= |t| - 2 && ParseRulesOf(t[k + 1..|t| - 2]) == Success(ds)
  {
    StyleBodyAt(selector, ds);
    DeclLinesRoundTrip(ds);
  }

  /** `parseRules` throws nothing but the TypeError of reading `undefined`. */
  lemma {:induction false} ReadFragmentsError(fragments: seq<Fragment>, n: nat)
    requires n <= |fragments|
    ensures ReadFragments(fragments, n).Failure? ==> ReadFragments(fragments, n).error == UndefinedRead
  {
    if n > 0 {
      ReadFragmentsError(fragments, n - 1);
    }
  }

  /** `parseRules` fails exactly when a `base64,` continuation comes before any
      declaration has been read. */
  lemma {:induction false} ReadFragmentsFails(fragments: seq<Fragment>, n: nat)
    requires n <= |fragments|
    ensures ReadFragments(fragments, n).Failure? <==>
      exists j :: 0 <= j < n && fragments[j].Continuation? && NoPairBefore(fragments, j)
    ensures ReadFragments(fragments, n).Success? ==>
      (|ReadFragments(fragments, n).value| == 0 <==> NoPairBefore(fragments, n))
  {
    if n > 0 {
      ReadFragmentsFails(fragments, n - 1);
      if ReadFragments(fragments, n - 1).Failure? {
        var j :| 0 <= j < n - 1 && fragments[j].Continuation? && NoPairBefore(fragments, j);
        assert 0 <= j < n && fragments[j].Continuation? && NoPairBefore(fragments, j);
      } else {
        var f := fragments[n - 1];
        if ReadFragments(fragments, n).Failure? {
          assert f.Continuation? && NoPairBefore(fragments, n - 1);
        } else {
          forall j | 0 <= j < n && fragments[j].Continuation?
            ensures !NoPairBefore(fragments, j)
          {
            if j < n - 1 {
              assert !NoPairBefore(fragments, j);
            } else {
              assert !NoPairBefore(fragments, n - 1);
            }
          }
        }
      }
    }
  }

  /** No declaration is read from the first `j` fragments: none of them is a pair. */
  predicate NoPairBefore(fragments: seq<Fragment>, j: nat)
    requires j <= |fragments|
  {
    forall k :: 0 <= k < j ==> !fragments[k].Pair?
  }

  // ---------------------------------------------------------------- parseCSS

  /** One match of the general rule pattern: either its `@media`/`@supports`
      alternative, with the head before the `{` and the inner text up to the
      closing `}` of the last nested rule, or its plain alternative, with the head
      and the body between the braces. */
  datatype GeneralMatch = Nested(head: string, inner: string) | Flat(head: string, body: string)

  /** The regular expressions of `parseCSS`, as functions of the text they scan:
      removing comments, the `@import` statements and their removal, the
      `@keyframes` blocks and their removal, and the general rules. */
  datatype Matchers = Matchers(
    stripComments: string -> string,
    imports: string -> seq<string>,
    dropImports: string -> string,
    keyframes: string -> seq<string>,
    dropKeyframes: string -> string,
    general: string -> seq<GeneralMatch>)

  /** The text the nested rules of a group are parsed from when the plain
      alternative matched it: `undefined + "\n}"`. */
  const UndefinedText: string := "undefined\n}"

  /** The text left for the general rules once comments, imports and keyframes are
      removed. */
  function Cleaned(m: Matchers, t: string): string
  {
    m.dropKeyframes(m.dropImports(m.stripComments(t)))
  }

  /** What the regular expressions guarantee: removing matches never lengthens the
      text, a `@media`/`@supports` match spans its inner text plus at least three
      characters (`{`, `}` and `}`), and brace-free text has no general match. */
  ghost predicate Tame(m: Matchers)
  {
    && (forall t :: |m.stripComments(t)| <= |t|)
    && (forall t :: |m.dropImports(t)| <= |t|)
    && (forall t :: |m.dropKeyframes(t)| <= |t|)
    && (forall t, g :: g in m.general(t) && g.Nested? ==> |g.inner| + 3 <= |t|)
    && m.general(Cleaned(m, UndefinedText)) == []
  }

  /** The measure under which the recursion on nested rules ends. */
  function Size(t: string): nat
  {
    if t == UndefinedText then 0 else |t| + 1
  }

  lemma CleanedShorter(m: Matchers, t: string)
    requires Tame(m)
    ensures |Cleaned(m, t)| <= |t|
  {
  }

  /** The rule objects pushed for the `@import` statements. */
  function ImportRules(texts: seq<string>): (rs: seq<Rule>)
    ensures |rs| == |texts|
  {
    if texts == [] then [] else ImportRules(texts[..|texts| - 1]) + [Verbatim("@imports", false, texts[|texts| - 1])]
  }

  /** The rule objects pushed for the `@keyframes` blocks. */
  function KeyframeRules(texts: seq<string>): (rs: seq<Rule>)
    ensures |rs| == |texts|
  {
    if texts == [] then [] else KeyframeRules(texts[..|texts| - 1]) + [Verbatim("@keyframes", true, texts[|texts| - 1])]
  }

  /** Whether a selector makes its rule a group: it mentions `@media` or `@supports`. */
  predicate IsGroupSelector(selector: string)
  {
    Includes(selector, "@media") || Includes(selector, "@supports")
  }

  /** The values of the first `n` results in order, or the first exception among
      them: the effect of a loop that pushes each value and stops at a throw. */
  function Collect<T>(results: seq<Result<T>>, n: nat): Result<seq<T>>
    requires n <= |results|
  {
    if n == 0 then Success([])
    else match Collect(results, n - 1)
      case Failure(e) => Failure(e)
      case Success(xs) =>
        match results[n - 1]
        case Failure(e) => Failure(e)
        case Success(x) => Success(xs + [x])
  }

  /** Once a result is an exception, the later results are never reached. */
  lemma {:induction false} CollectStop<T>(results: seq<Result<T>>, i: nat, n: nat)
    requires i <= n <= |results| && Collect(results, i).Failure?
    ensures Collect(results, n) == Collect(results, i)
    decreases n
  {
    if n > i {
      CollectStop(results, i, n - 1);
    }
  }

  /** A successful collection holds one value per result, each in its place. */
  lemma {:induction false} CollectValues<T>(results: seq<Result<T>>, n: nat)
    requires n <= |results|
    ensures Collect(results, n).Success? <==> forall i :: 0 <= i < n ==> results[i].Success?
    ensures Collect(results, n).Success? ==>
      |Collect(results, n).value| == n && forall i :: 0 <= i < n ==> Collect(results, n).value[i] == results[i].value
    ensures Collect(results, n).Failure? ==> exists i :: 0 <= i < n && FirstFailure(results, i, Collect(results, n).error)
    decreases n
  {
    if n > 0 {
      CollectValues(results, n - 1);
      if Collect(results, n - 1).Failure? {
        var i :| 0 <= i < n - 1 && FirstFailure(results, i, Collect(results, n - 1).error);
        assert 0 <= i < n && FirstFailure(results, i, Collect(results, n).error);
      } else if results[n - 1].Failure? {
        assert FirstFailure(results, n - 1, Collect(results, n).error);
      }
    }
  }

  /** The result at `i` is the first exception, and it is `e`. */
  predicate FirstFailure<T>(results: seq<Result<T>>, i: nat, e: string)
    requires i < |results|
  {
    results[i] == Failure(e) && forall k :: 0 <= k < i ==> results[k].Success?
  }

  /** `parseCSS(cssText)` for a defined text: the imports, then the keyframes, then
      the general rules in the order they match. */
  function ParseCssText(m: Matchers, t: string): Result<seq<Rule>>
    requires Tame(m)
    decreases Size(t), 2, 0
  {
    var c := m.stripComments(t);
    Assemble(m.imports(c), m.keyframes(m.dropImports(c)), GeneralResults(m, t))
  }

  /** The rule list of the three passes: the import rules, the keyframes rules and
      the general rules, or the first exception of the general pass. */
  function Assemble(imports: seq<string>, keyframes: seq<string>, results: seq<Result<Rule>>): Result<seq<Rule>>
  {
    match Collect(results, |results|)
    case Failure(e) => Failure(e)
    case Success(gs) => Success(ImportRules(imports) + KeyframeRules(keyframes) + gs)
  }

  /** The rule object, or the exception, of each general match. */
  function GeneralResults(m: Matchers, t: string): (results: seq<Result<Rule>>)
    requires Tame(m)
    ensures |results| == |m.general(Cleaned(m, t))|
    decreases Size(t), 1, 0
  {
    seq(|m.general(Cleaned(m, t))|, i requires 0 <= i < |m.general(Cleaned(m, t))| => GeneralRule(m, t, i))
  }

  /** The nested text a group's rules are parsed from: the inner text closed again
      by `}`, or `"undefined\n}"` when the plain alternative matched. */
  function GroupText(g: GeneralMatch): string
  {
    if g.Nested? then g.inner + "\n}" else UndefinedText
  }

  /** The nested text of a general match is smaller than the text it was found in,
      so the recursion on groups ends. */
  lemma GroupTextSmaller(m: Matchers, t: string, i: nat)
    requires Tame(m) && i < |m.general(Cleaned(m, t))|
    ensures Size(GroupText(m.general(Cleaned(m, t))[i])) < Size(t)
  {
    var g := m.general(Cleaned(m, t))[i];
    assert g in m.general(Cleaned(m, t));
    CleanedShorter(m, t);
  }

  /** The rule object of one general match: its head, normalised, is the selector;
      a `@media` or `@supports` selector makes a group of the rules parsed from
      its inner text, any other selector a style rule of the declarations parsed
      from its body. The body of a `@media`/`@supports` match is `undefined`, so
      reading it as declarations throws. */
  function GeneralRule(m: Matchers, t: string, i: nat): (r: Result<Rule>)
    requires Tame(m) && i < |m.general(Cleaned(m, t))|
    ensures r.Success? ==> !r.value.Verbatim?
    decreases Size(t), 0, 0
  {
    var g := m.general(Cleaned(m, t))[i];
    var selector := StandardReturn(g.head);
    if IsGroupSelector(selector) then
      GroupTextSmaller(m, t, i);
      match ParseCssText(m, GroupText(g))
      case Failure(e) => Failure(e)
      case Success(subs) => Success(Group(selector, !Includes(selector, "@media"), subs))
    else if g.Flat? then
      match ParseRulesOf(g.body)
      case Failure(e) => Failure(e)
      case Success(decls) => Success(Style(selector, selector == "@font-face", decls))
    else Failure(UndefinedRead)
  }

  /** `parseCSS(cssText)`: an `undefined` text has no rules. */
  function ParseCssOf(m: Matchers, cssText: Option<string>): Result<seq<Rule>>
    requires Tame(m)
  {
    if cssText.None? then Success([]) else ParseCssText(m, cssText.value)
  }

  /** `parseCSS`. */
  method ParseCss(m: Matchers, cssText: Option<string>) returns (r: Result<seq<Rule>>)
    requires Tame(m)
    ensures r == ParseCssOf(m, cssText)
  {
    if cssText.None? {
      return Success([]);
    }
    r := ParseCssFrom(m, cssText.value);
  }

  /** The import pass of `parseCSS`. */
  method PushImports(imports: seq<string>) returns (css: seq<Rule>)
    ensures css == ImportRules(imports)
  {
    css := [];
    for i := 0 to |imports|
      invariant css == ImportRules(imports[..i])
    {
      assert imports[..i + 1][..i] == imports[..i];
      css := css + [Verbatim("@imports", false, imports[i])];
    }
    assert imports[..|imports|] == imports;
  }

  /** The keyframes pass of `parseCSS`. */
  method PushKeyframes(css: seq<Rule>, keyframes: seq<string>) returns (out: seq<Rule>)
    ensures out == css + KeyframeRules(keyframes)
  {
    out := css;
    for i := 0 to |keyframes|
      invariant out == css + KeyframeRules(keyframes[..i])
    {
      assert keyframes[..i + 1][..i] == keyframes[..i];
      out := out + [Verbatim("@keyframes", true, keyframes[i])];
    }
    assert keyframes[..|keyframes|] == keyframes;
  }

  /** `results` holds the outcome of each general match. */
  ghost predicate Resolved(m: Matchers, cssText: string, results: seq<Result<Rule>>)
    requires Tame(m)
  {
    && |results| == |m.general(Cleaned(m, cssText))|
    && forall i {:trigger GeneralRule(m, cssText, i)} :: 0 <= i < |results| ==> results[i] == GeneralRule(m, cssText, i)
  }

  /** One pass of the general loop, stated against the outcomes of the matches. */
  method NextGeneral(m: Matchers, cssText: string, ghost results: seq<Result<Rule>>, i: nat) returns (r: Result<Rule>)
    requires Tame(m) && Resolved(m, cssText, results) && i < |results|
    ensures r == results[i]
    decreases Size(cssText), 0, 1
  {
    r := ParseGeneralRule(m, cssText, i);
  }

  /** The general pass of `parseCSS`: the rule of each match in turn, stopping at
      the first exception. */
  method PushGeneral(m: Matchers, cssText: string, ghost results: seq<Result<Rule>>) returns (r: Result<seq<Rule>>)
    requires Tame(m) && Resolved(m, cssText, results)
    ensures r == Collect(results, |results|)
    decreases Size(cssText), 1, 0
  {
    var generalRules := m.general(Cleaned(m, cssText));
    var general: seq<Rule> := [];
    var i := 0;
    while i < |generalRules|
      invariant i <= |generalRules| == |results|
      invariant Collect(results, i) == Success(general)
    {
      var rule := NextGeneral(m, cssText, results, i);
      if rule.Failure? {
        CollectStop(results, i + 1, |results|);
        return Failure(rule.error);
      }
      general := general + [rule.value];
      i := i + 1;
    }
    return Success(general);
  }

  /** The body of `parseCSS` for a defined text: comments removed, then the import
      pass, the keyframes pass and the general pass. */
  method ParseCssFrom(m: Matchers, cssText: string) returns (r: Result<seq<Rule>>)
    requires Tame(m)
    ensures r == ParseCssText(m, cssText)
    decreases Size(cssText), 2, 0
  {
    var text := m.stripComments(cssText);
    var css := PushImports(m.imports(text));
    text := m.dropImports(text);
    css := PushKeyframes(css, m.keyframes(text));
    ghost var results := GeneralResults(m, cssText);
    assert Resolved(m, cssText, results);
    var general := PushGeneral(m, cssText, results);
    if general.Failure? {
      return Failure(general.error);
    }
    return Success(css + general.value);
  }

  /** One pass of the general loop: the selector and type of a match, then its
      nested rules or its declarations. */
  method ParseGeneralRule(m: Matchers, cssText: string, i: nat) returns (r: Result<Rule>)
    requires Tame(m) && i < |m.general(Cleaned(m, cssText))|
    ensures r == GeneralRule(m, cssText, i)
    decreases Size(cssText), 0, 0
  {
    var g := m.general(Cleaned(m, cssText))[i];
    var selector := StandardReturn(g.head);
    if IsGroupSelector(selector) {
      GroupTextSmaller(m, cssText, i);
      var subStyles := ParseCssFrom(m, GroupText(g));
      if subStyles.Failure? {
        return Failure(subStyles.error);
      }
      return Success(Group(selector, !Includes(selector, "@media"), subStyles.value));
    }
    if g.Nested? {
      return Failure(UndefinedRead);
    }
    var rules := ParseRules(g.body);
    if rules.Failure? {
      return Failure(rules.error);
    }
    return Success(Style(selector, selector == "@font-face", rules.value));
  }

  lemma {:induction false} ImportRulesAt(texts: seq<string>, i: nat)
    requires i < |texts|
    ensures ImportRules(texts)[i] == Verbatim("@imports", false, texts[i])
    decreases |texts|
  {
    if i < |texts| - 1 {
      ImportRulesAt(texts[..|texts| - 1], i);
    }
  }

  lemma {:induction false} KeyframeRulesAt(texts: seq<string>, i: nat)
    requires i < |texts|
    ensures KeyframeRules(texts)[i] == Verbatim("@keyframes", true, texts[i])
    decreases |texts|
  {
    if i < |texts| - 1 {
      KeyframeRulesAt(texts[..|texts| - 1], i);
    }
  }

  /** The pass structure of `parseCSS`: one rule object per `@import` statement,
      in order, then one per `@keyframes` block, in order, then one per general
      match, in order; and the whole call succeeds exactly when every general match
      does, failing with the first exception otherwise. */
  lemma AssembleLayout(imports: seq<string>, keyframes: seq<string>, results: seq<Result<Rule>>)
    ensures var r := Assemble(imports, keyframes, results);
      && (r.Success? <==> forall i :: 0 <= i < |results| ==> results[i].Success?)
      && (r.Failure? ==> exists i :: 0 <= i < |results| && FirstFailure(results, i, r.error))
      && (r.Success? ==>
        && |r.value| == |imports| + |keyframes| + |results|
        && (forall i :: 0 <= i < |imports| ==> r.value[i] == Verbatim("@imports", false, imports[i]))
        && (forall i :: 0 <= i < |keyframes| ==> r.value[|imports| + i] == Verbatim("@keyframes", true, keyframes[i]))
        && (forall i :: 0 <= i < |results| ==> r.value[|imports| + |keyframes| + i] == results[i].value))
  {
    CollectValues(results, |results|);
    forall i | 0 <= i < |imports|
      ensures ImportRules(imports)[i] == Verbatim("@imports", false, imports[i])
    {
      ImportRulesAt(imports, i);
    }
    forall i | 0 <= i < |keyframes|
      ensures KeyframeRules(keyframes)[i] == Verbatim("@keyframes", true, keyframes[i])
    {
      KeyframeRulesAt(keyframes, i);
    }
  }

  /** Text without white space at either end. */
  predicate Trimmed(s: string)
  {
    s == [] || (!IsSpace(s[0]) && !IsSpace(s[|s| - 1]))
  }

  /** The shape of every rule object `parseCSS` builds: verbatim rules carry the
      fixed selector of their kind; the selector of any other rule is trimmed; a
      group is exactly a rule whose selector mentions `@media` or `@supports`, and
      it is a `@supports` group when the selector does not mention `@media`; a
      style rule is a font face exactly when its selector is `@font-face`, and its
      declarations are well read. */
  predicate WellFormed(r: Rule)
    decreases r
  {
    && (r.Verbatim? ==> r.selector == if r.keyframes then "@keyframes" else "@imports")
    && (r.Style? ==>
      && Trimmed(r.selector) && !IsGroupSelector(r.selector)
      && r.fontFace == (r.selector == "@font-face")
      && forall j :: 0 <= j < |r.decls| ==> WellRead(r.decls[j]))
    && (r.Group? ==>
      && Trimmed(r.selector) && IsGroupSelector(r.selector)
      && r.supports == !Includes(r.selector, "@media")
      && forall j :: 0 <= j < |r.subStyles| ==> WellFormed(r.subStyles[j]))
  }

  /** A well-formed rule, or the only exception `parseCSS` throws. */
  predicate RuleOk(r: Result<Rule>)
  {
    (r.Success? ==> WellFormed(r.value)) && (r.Failure? ==> r.error == UndefinedRead)
  }

  /** Well-formed rules, or the only exception `parseCSS` throws. */
  predicate RulesOk(r: Result<seq<Rule>>)
  {
    (r.Success? ==> forall k :: 0 <= k < |r.value| ==> WellFormed(r.value[k])) && (r.Failure? ==> r.error == UndefinedRead)
  }

  /** Assembling sound outcomes gives sound rules. */
  lemma AssembleOk(imports: seq<string>, keyframes: seq<string>, results: seq<Result<Rule>>)
    requires forall i :: 0 <= i < |results| ==> RuleOk(results[i])
    ensures RulesOk(Assemble(imports, keyframes, results))
  {
    AssembleLayout(imports, keyframes, results);
    var r := Assemble(imports, keyframes, results);
    if r.Success? {
      forall k | 0 <= k < |r.value|
        ensures WellFormed(r.value[k])
      {
        if k < |imports| {
          assert r.value[k] == Verbatim("@imports", false, imports[k]);
        } else if k < |imports| + |keyframes| {
          assert r.value[|imports| + (k - |imports|)] == Verbatim("@keyframes", true, keyframes[k - |imports|]);
        } else {
          var i := k - |imports| - |keyframes|;
          assert r.value[|imports| + |keyframes| + i] == results[i].value;
          assert RuleOk(results[i]);
        }
      }
    } else {
      var i :| 0 <= i < |results| && FirstFailure(results, i, r.error);
      assert RuleOk(results[i]);
    }
  }

  /** `parseRules` throws nothing but the TypeError of reading `undefined`, and its
      declarations are well read. */
  lemma ParseRulesOk(rules: string)
    ensures ParseRulesOf(rules).Failure? ==> ParseRulesOf(rules).error == UndefinedRead
    ensures ParseRulesOf(rules).Success? ==>
      forall k :: 0 <= k < |ParseRulesOf(rules).value| ==> WellRead(ParseRulesOf(rules).value[k])
  {
    ReadFragmentsError(Fragments(rules), |Fragments(rules)|);
    ParseRulesWellRead(rules);
  }

  /** Every rule object `parseCSS` builds is well formed, and the only exception it
      throws is the TypeError of reading `undefined`. */
  lemma {:induction false} ParseCssOk(m: Matchers, t: string)
    requires Tame(m)
    ensures RulesOk(ParseCssText(m, t))
    decreases Size(t), 1
  {
    var results := GeneralResults(m, t);
    assert Resolved(m, t, results);
    forall i | 0 <= i < |results|
      ensures RuleOk(results[i])
    {
      GeneralRuleOk(m, t, i);
    }
    var c := m.stripComments(t);
    AssembleOk(m.imports(c), m.keyframes(m.dropImports(c)), results);
  }

  /** The rule object of one general match is well formed. */
  lemma {:induction false} GeneralRuleOk(m: Matchers, t: string, i: nat)
    requires Tame(m) && i < |m.general(Cleaned(m, t))|
    ensures RuleOk(GeneralRule(m, t, i))
    decreases Size(t), 0
  {
    var g := m.general(Cleaned(m, t))[i];
    var selector := StandardReturn(g.head);
    if IsGroupSelector(selector) {
      GroupTextSmaller(m, t, i);
      ParseCssOk(m, GroupText(g));
    } else if g.Flat? {
      ParseRulesOk(g.body);
    }
  }

  // ---------------------------------------------------------------- arrayFind

  /** `String(n)` for an integer. */
  function IntToString(n: int): (s: string)
    ensures |s| >= 1 && ',' !in s
  {
    if n < 0 then "-" + NatToString(-n) else NatToString(n)
  }

  /** A written integer starts with `-` exactly when it is negative. */
  lemma SignShows(n: int)
    ensures IntToString(n)[0] == '-' <==> n < 0
  {
    if n >= 0 {
      assert IsDigit(NatToString(n)[0]);
    }
  }

  lemma NatToStringInjective(x: nat, y: nat)
    requires NatToString(x) == NatToString(y)
    ensures x == y
  {
    DigitsValueOfNat(x);
    DigitsValueOfNat(y);
  }

  /** Different integers are written differently. */
  lemma IntToStringInjective(x: int, y: int)
    requires IntToString(x) == IntToString(y)
    ensures x == y
  {
    SignShows(x);
    SignShows(y);
    if x < 0 && y < 0 {
      var s := IntToString(x);
      assert s[1..] == NatToString(-x);
      assert s[1..] == NatToString(-y);
      NatToStringInjective(-x, -y);
    } else if x >= 0 && y >= 0 {
      NatToStringInjective(x, y);
    }
  }

  /** The property name a tuple of integers becomes as an object key: its
      elements joined by `,`. */
  function TupleKey(t: seq<int>): string
  {
    Join(MapSeq(IntToString, t), ",")
  }

  /** Joining the written elements loses nothing: different tuples get different
      keys. */
  lemma TupleKeyInjective(a: seq<int>, b: seq<int>)
    ensures TupleKey(a) == TupleKey(b) <==> a == b
  {
    if TupleKey(a) == TupleKey(b) {
      var pa := MapSeq(IntToString, a);
      var pb := MapSeq(IntToString, b);
      if a == [] || b == [] {
        if a != [] {
          MapSeqAt(IntToString, a, 0);
          JoinFirst(pa, ",");
        }
        if b != [] {
          MapSeqAt(IntToString, b, 0);
          JoinFirst(pb, ",");
        }
      } else {
        forall k | 0 <= k < |pa|
          ensures !Includes(pa[k], ",")
        {
          MapSeqAt(IntToString, a, k);
          IncludesChar(pa[k], ',');
        }
        forall k | 0 <= k < |pb|
          ensures !Includes(pb[k], ",")
        {
          MapSeqAt(IntToString, b, k);
          IncludesChar(pb[k], ',');
        }
        SplitJoin(pa, ",");
        SplitJoin(pb, ",");
        forall k | 0 <= k < |a|
          ensures a[k] == b[k]
        {
          MapSeqAt(IntToString, a, k);
          MapSeqAt(IntToString, b, k);
          IntToStringInjective(a[k], b[k]);
        }
      }
    }
  }

  /** The index the hash holds for `key` after the first `n` elements: the last
      of them whose key it is, or -1 when none is. */
  function LastKeyIndex(arr: seq<seq<int>>, key: string, n: nat): (r: int)
    requires n <= |arr|
    ensures -1 <= r < n
  {
    if n == 0 then -1
    else if TupleKey(arr[n - 1]) == key then n - 1
    else LastKeyIndex(arr, key, n - 1)
  }

  /** The hash built from the first `n` elements. */
  ghost predicate HashOf(hash: map<string, nat>, arr: seq<seq<int>>, n: nat)
    requires n <= |arr|
  {
    forall key {:trigger LastKeyIndex(arr, key, n)} ::
      && (key in hash ==> hash[key] == LastKeyIndex(arr, key, n))
      && (key !in hash ==> LastKeyIndex(arr, key, n) == -1)
  }

  /** `arrayFind(arr1, arr2)`: each element's key is mapped to its index, later
      elements overwriting earlier ones, and the key of `arr2` is looked up. */
  method ArrayFind(arr1: seq<seq<int>>, arr2: seq<int>) returns (r: int)
    ensures r == LastKeyIndex(arr1, TupleKey(arr2), |arr1|)
  {
    var hash: map<string, nat> := map[];
    for i := 0 to |arr1|
      invariant HashOf(hash, arr1, i)
    {
      hash := hash[TupleKey(arr1[i]) := i];
      forall key
        ensures LastKeyIndex(arr1, key, i + 1) == if key == TupleKey(arr1[i]) then i else LastKeyIndex(arr1, key, i)
      {
      }
    }
    var key := TupleKey(arr2);
    if key in hash {
      return hash[key];
    }
    return -1;
  }

  /** What `arrayFind` answers: -1 exactly when the tuple is not in the list, and
      otherwise the index of its last occurrence. */
  lemma {:induction false} LastKeyIndexFinds(arr: seq<seq<int>>, t: seq<int>, n: nat)
    requires n <= |arr|
    ensures var r := LastKeyIndex(arr, TupleKey(t), n);
      && (r == -1 <==> forall j :: 0 <= j < n ==> arr[j] != t)
      && (r >= 0 ==> arr[r] == t && forall j :: r < j < n ==> arr[j] != t)
    decreases n
  {
    if n > 0 {
      LastKeyIndexFinds(arr, t, n - 1);
      TupleKeyInjective(arr[n - 1], t);
      if arr[n - 1] == t {
        assert LastKeyIndex(arr, TupleKey(t), n) == n - 1;
      } else {
        assert LastKeyIndex(arr, TupleKey(t), n) == LastKeyIndex(arr, TupleKey(t), n - 1);
      }
    }
  }
}
