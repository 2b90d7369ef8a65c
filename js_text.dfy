/** The JavaScript String operations the template engine and the worker rely on,
    written out with the semantics of the ECMAScript built-ins (clamped and swapped
    `substring` bounds, `-1` for "not found", the whitespace set of `trim`, the
    leftmost non-overlapping matching of `split` and `replaceAll`). */
module JsText {

  /** JavaScript's `undefined` / `NaN` results, where a lookup or a parse finds nothing. */
  datatype Option<T> = None | Some(value: T)

  /** A computation that finishes with a value, or stops at an exception it throws. */
  datatype Result<T> = Success(value: T) | Failure(error: string)

  /** The TypeError thrown when a property of `undefined` is read. */
  const UndefinedRead: string := "TypeError: cannot read properties of undefined"

  /** `t` occurs in `s` starting at position `k`. */
  predicate OccursAt(s: string, t: string, k: int)
  {
    0 <= k && k + |t| <= |s| && s[k..k + |t|] == t
  }

  /** An occurrence inside a prefix or a suffix of `s` is an occurrence in `s`. */
  lemma OccursInSlice(s: string, t: string, lo: nat, hi: nat, j: int)
    requires lo <= hi <= |s|
    requires OccursAt(s[lo..hi], t, j)
    ensures OccursAt(s, t, lo + j)
  {
    var w := s[lo..hi];
    assert forall k :: lo <= k < hi ==> w[k - lo] == s[k];
    assert w[j..j + |t|] == s[lo + j..lo + j + |t|];
  }

  function Clamp(x: int, lo: int, hi: int): (r: int)
    requires lo <= hi
    ensures lo <= r <= hi
    ensures lo <= x <= hi ==> r == x
  {
    if x < lo then lo else if x > hi then hi else x
  }

  /** Leftmost occurrence of `t` in `s` at or after `k`, or -1. */
  function FindFrom(s: string, t: string, k: nat): (r: int)
    requires k <= |s|
    ensures r == -1 || (k <= r <= |s| && OccursAt(s, t, r))
    ensures forall j :: k <= j < (if r == -1 then |s| + 1 else r) ==> !OccursAt(s, t, j)
    decreases |s| - k
  {
    if OccursAt(s, t, k) then k
    else if k == |s| then -1
    else FindFrom(s, t, k + 1)
  }

  /** `s.indexOf(t)`. */
  function IndexOf(s: string, t: string): (r: int)
    ensures r == -1 <==> forall j :: !OccursAt(s, t, j)
    ensures r != -1 ==> 0 <= r && OccursAt(s, t, r) && forall j :: 0 <= j < r ==> !OccursAt(s, t, j)
  {
    FindFrom(s, t, 0)
  }

  /** `s.indexOf(t, from)`: the search starts at `from` clamped to `[0, |s|]`. */
  function IndexOfFrom(s: string, t: string, from: int): (r: int)
    ensures r == -1 || (Clamp(from, 0, |s|) <= r && OccursAt(s, t, r))
    ensures forall j :: Clamp(from, 0, |s|) <= j < (if r == -1 then |s| + 1 else r) ==> !OccursAt(s, t, j)
  {
    FindFrom(s, t, Clamp(from, 0, |s|))
  }

  /** Rightmost occurrence of `t` in `s` at or before `k`, or -1. */
  function FindBackFrom(s: string, t: string, k: int): (r: int)
    ensures r == -1 || (0 <= r <= k && OccursAt(s, t, r))
    ensures forall j :: r < j <= k ==> !OccursAt(s, t, j)
    decreases if k < 0 then 0 else k + 1
  {
    if k < 0 then -1
    else if OccursAt(s, t, k) then k
    else FindBackFrom(s, t, k - 1)
  }

  /** `s.lastIndexOf(t)`. */
  function LastIndexOf(s: string, t: string): (r: int)
    ensures r == -1 <==> forall j :: !OccursAt(s, t, j)
    ensures r != -1 ==> 0 <= r && OccursAt(s, t, r) && forall j :: r < j ==> !OccursAt(s, t, j)
  {
    FindBackFrom(s, t, |s|)
  }

  /** `s.lastIndexOf(t, from)`: the search starts at `from` clamped to `[0, |s|]`. */
  function LastIndexOfFrom(s: string, t: string, from: int): (r: int)
    ensures r == -1 || (0 <= r <= Clamp(from, 0, |s|) && OccursAt(s, t, r))
    ensures forall j :: r < j <= Clamp(from, 0, |s|) ==> !OccursAt(s, t, j)
  {
    FindBackFrom(s, t, Clamp(from, 0, |s|))
  }

  /** `s.includes(t)`. */
  predicate Includes(s: string, t: string)
  {
    IndexOf(s, t) != -1
  }

  lemma IncludesAt(s: string, t: string, k: int)
    requires OccursAt(s, t, k)
    ensures Includes(s, t)
  {
  }

  /** For a one-character pattern, `includes` is membership. */
  lemma IncludesChar(s: string, c: char)
    ensures Includes(s, [c]) <==> c in s
  {
    if c in s {
      var k :| 0 <= k < |s| && s[k] == c;
      assert s[k..k + 1] == [c];
      IncludesAt(s, [c], k);
    }
    if Includes(s, [c]) {
      var r := IndexOf(s, [c]);
      assert s[r..r + 1] == [c];
      assert s[r] == c;
    }
  }

  /** `s.substring(a, b)`: both bounds are clamped to `[0, |s|]` and swapped when out of order. */
  function Substring(s: string, a: int, b: int): (r: string)
    ensures |r| <= |s|
    ensures 0 <= a <= b <= |s| ==> r == s[a..b]
    ensures 0 <= b <= a <= |s| ==> r == s[b..a]
    ensures b <= 0 && 0 <= a <= |s| ==> r == s[..a]
  {
    var x, y := Clamp(a, 0, |s|), Clamp(b, 0, |s|);
    if x <= y then s[x..y] else s[y..x]
  }

  /** `s.substring(a)`. */
  function SubstringFrom(s: string, a: int): (r: string)
    ensures 0 <= a <= |s| ==> r == s[a..]
    ensures a < 0 ==> r == s
    ensures a > |s| ==> r == ""
  {
    Substring(s, a, |s|)
  }

  /** `s.startsWith(t)`, written in the source as `s.substring(0, |t|) == t`. */
  predicate StartsWith(s: string, t: string)
  {
    |t| <= |s| && s[..|t|] == t
  }

  /** The characters `String.prototype.trim` removes: WhiteSpace and LineTerminator
      (tab to carriage return, space, no-break space, the Unicode space separators,
      the line and paragraph separators and the byte order mark). */
  predicate IsSpace(c: char)
  {
    c == ' ' || '\t' <= c <= '\r' || c == '\U{A0}' || c == '\U{1680}' || '\U{2000}' <= c <= '\U{200A}'
    || c == '\U{2028}' || c == '\U{2029}' || c == '\U{202F}' || c == '\U{205F}' || c == '\U{3000}' || c == '\U{FEFF}'
  }

  /** `s.trimStart()`. */
  function TrimStart(s: string): (r: string)
    ensures |r| <= |s| && r == s[|s| - |r|..]
    ensures r == [] || !IsSpace(r[0])
    ensures forall k :: 0 <= k < |s| - |r| ==> IsSpace(s[k])
    decreases |s|
  {
    if |s| > 0 && IsSpace(s[0]) then TrimStart(s[1..]) else s
  }

  /** `s.trimEnd()`. */
  function TrimEnd(s: string): (r: string)
    ensures |r| <= |s| && r == s[..|r|]
    ensures r == [] || !IsSpace(r[|r| - 1])
    ensures forall k :: |r| <= k < |s| ==> IsSpace(s[k])
    decreases |s|
  {
    if |s| > 0 && IsSpace(s[|s| - 1]) then TrimEnd(s[..|s| - 1]) else s
  }

  /** `s.trim()`. */
  function Trim(s: string): (r: string)
    ensures |r| <= |s|
    ensures r == [] || (!IsSpace(r[0]) && !IsSpace(r[|r| - 1]))
  {
    TrimEnd(TrimStart(s))
  }

  /** `trim` keeps one piece of the text in one go and drops only white space before
      and after it: the result neither starts nor ends with white space. */
  lemma TrimIsPadded(s: string)
    ensures Trim(s) == [] || (!IsSpace(Trim(s)[0]) && !IsSpace(Trim(s)[|Trim(s)| - 1]))
    ensures exists a :: Padded(s, Trim(s), a)
  {
    var u := TrimStart(s);
    var a := |s| - |u|;
    var r := TrimEnd(u);
    assert r == s[a..a + |r|] by { assert u == s[a..]; }
    assert forall k :: a + |r| <= k < |s| ==> IsSpace(s[k]) by {
      forall k | a + |r| <= k < |s| ensures IsSpace(s[k]) { assert s[k] == u[k - a]; }
    }
    assert Padded(s, r, a);
  }

  /** `trimStart` removes exactly the white space in front of a word. */
  lemma {:induction false} TrimStartPadded(a: string, y: string)
    requires forall k :: 0 <= k < |a| ==> IsSpace(a[k])
    requires y == [] || !IsSpace(y[0])
    ensures TrimStart(a + y) == y
    decreases |a|
  {
    if a == [] {
      assert a + y == y;
    } else {
      assert (a + y)[1..] == a[1..] + y;
      TrimStartPadded(a[1..], y);
    }
  }

  /** `r` is the piece of `s` at `a`, with only white space before and after it. */
  ghost predicate Padded(s: string, r: string, a: int)
  {
    0 <= a && a + |r| <= |s| && r == s[a..a + |r|]
    && (forall k :: 0 <= k < a ==> IsSpace(s[k]))
    && (forall k :: a + |r| <= k < |s| ==> IsSpace(s[k]))
  }

  /** `parts.join(sep)`. */
  function Join(parts: seq<string>, sep: string): string
  {
    if |parts| == 0 then ""
    else if |parts| == 1 then parts[0]
    else parts[0] + sep + Join(parts[1..], sep)
  }

  /** Joining one more part adds the separator and the part at the end. */
  lemma {:induction false} JoinSnoc(xs: seq<string>, y: string, sep: string)
    requires |xs| > 0
    ensures Join(xs + [y], sep) == Join(xs, sep) + sep + y
    decreases |xs|
  {
    if |xs| == 1 {
      assert xs + [y] == [xs[0], y];
    } else {
      assert (xs + [y])[1..] == xs[1..] + [y];
      JoinSnoc(xs[1..], y, sep);
    }
  }

  /** Joining two or more parts puts the separator before the last one. */
  lemma JoinLast(xs: seq<string>, sep: string)
    requires |xs| > 1
    ensures Join(xs, sep) == Join(xs[..|xs| - 1], sep) + sep + xs[|xs| - 1]
  {
    assert xs == xs[..|xs| - 1] + [xs[|xs| - 1]];
    JoinSnoc(xs[..|xs| - 1], xs[|xs| - 1], sep);
  }

  /** Joining a part in front of at least one more adds the part and the separator at the front. */
  lemma JoinCons(x: string, xs: seq<string>, sep: string)
    requires |xs| > 0
    ensures Join([x] + xs, sep) == x + sep + Join(xs, sep)
  {
    assert ([x] + xs)[1..] == xs;
  }

  /** `s.split(sep)` for a non-empty separator: the pieces between the leftmost
      non-overlapping occurrences of `sep`; joining them with `sep` gives `s` back. */
  function Split(s: string, sep: string): (parts: seq<string>)
    requires |sep| > 0
    ensures |parts| >= 1
    ensures Join(parts, sep) == s
    decreases |s|
  {
    var k := IndexOf(s, sep);
    if k < 0 then [s]
    else
      var rest := Split(s[k + |sep|..], sep);
      assert s == s[..k] + sep + s[k + |sep|..];
      [s[..k]] + rest
  }

  /** No piece that `split` returns contains the separator. */
  lemma {:induction false} SplitPiecesFree(s: string, sep: string)
    requires |sep| > 0
    ensures forall k :: 0 <= k < |Split(s, sep)| ==> !Includes(Split(s, sep)[k], sep)
    decreases |s|
  {
    var k := IndexOf(s, sep);
    if k < 0 {
    } else {
      SplitPiecesFree(s[k + |sep|..], sep);
      if Includes(s[..k], sep) {
        var j := IndexOf(s[..k], sep);
        OccursInSlice(s, sep, 0, k, j);
      }
    }
  }

  /** A one-character separator first occurs right after a piece free of it. */
  lemma FirstSeparator(p: string, sep: string, rest: string)
    requires |sep| == 1 && !Includes(p, sep)
    ensures IndexOf(p + sep + rest, sep) == |p|
  {
    var s := p + sep + rest;
    assert IndexOf(p, sep) == -1;
    assert s[|p|..|p| + 1] == sep;
    assert OccursAt(s, sep, |p|);
    forall j | 0 <= j < |p|
      ensures !OccursAt(s, sep, j)
    {
      assert !OccursAt(p, sep, j);
      assert p[j..j + 1] == s[j..j + 1];
    }
  }

  /** Splitting on a one-character separator undoes joining pieces free of it. */
  lemma {:induction false} SplitJoin(parts: seq<string>, sep: string)
    requires |sep| == 1 && |parts| > 0
    requires forall k :: 0 <= k < |parts| ==> !Includes(parts[k], sep)
    ensures Split(Join(parts, sep), sep) == parts
    decreases |parts|
  {
    if |parts| == 1 {
      assert Join(parts, sep) == parts[0];
    } else {
      var p := parts[0];
      var rest := Join(parts[1..], sep);
      var s := Join(parts, sep);
      assert s == p + sep + rest;
      FirstSeparator(p, sep, rest);
      SplitAt(s, sep, |p|);
      assert s[..|p|] == p;
      assert s[|p| + 1..] == rest;
      SplitJoin(parts[1..], sep);
      assert parts == [p] + parts[1..];
    }
  }

  /** A one-character separator found in a prefix is found at the same place in
      the whole string. */
  lemma SeparatorInPrefix(p: string, sep: string, rest: string)
    requires |sep| == 1 && Includes(p, sep)
    ensures IndexOf(p + rest, sep) == IndexOf(p, sep)
  {
    var s := p + rest;
    var k := IndexOf(p, sep);
    assert OccursAt(p, sep, k);
    assert s[k..k + 1] == p[k..k + 1];
    assert OccursAt(s, sep, k);
    forall j | 0 <= j < k
      ensures !OccursAt(s, sep, j)
    {
      assert !OccursAt(p, sep, j);
      assert p[j..j + 1] == s[j..j + 1];
    }
  }

  /** What follows the last occurrence of a one-character separator is the same
      in any two ways of writing a string as `front + sep + tail` with a separator-free tail. */
  lemma SameTail(x: string, l: string, y: string, a: string, sep: string)
    requires |sep| == 1 && x + sep + l == y + sep + a
    requires sep[0] !in l && sep[0] !in a
    ensures l == a
  {
    var s := x + sep + l;
    forall i | |y| < i < |s|
      ensures s[i] != sep[0]
    {
      assert s[i] == (y + sep + a)[i] == a[i - |y| - 1];
    }
    forall i | |x| < i < |s|
      ensures s[i] != sep[0]
    {
      assert s[i] == l[i - |x| - 1];
    }
    assert s[|x|] == sep[0];
    assert s[|y|] == (y + sep + a)[|y|] == sep[0];
    assert l == s[|x| + 1..];
    assert a == (y + sep + a)[|y| + 1..];
  }

  /** For a one-character pattern, `includes` is membership of that character. */
  lemma IncludesSingle(s: string, sep: string)
    requires |sep| == 1
    ensures Includes(s, sep) <==> sep[0] in s
  {
    assert sep == [sep[0]];
    IncludesChar(s, sep[0]);
  }

  /** A string without the separator splits into itself alone. */
  lemma SplitWithout(s: string, sep: string)
    requires |sep| > 0 && !Includes(s, sep)
    ensures Split(s, sep) == [s]
  {
  }

  /** A string containing a one-character separator splits into at least two pieces. */
  lemma SplitHasTwo(s: string, sep: string)
    requires |sep| == 1 && sep[0] in s
    ensures |Split(s, sep)| > 1
  {
    IncludesSingle(s, sep);
    SplitAt(s, sep, IndexOf(s, sep));
  }

  /** The string split on a one-character separator it contains is the join of all
      pieces but the last, the separator and the last piece. */
  lemma SplitLastShape(s: string, sep: string)
    requires |sep| == 1 && sep[0] in s
    ensures |Split(s, sep)| > 1
    ensures s == Join(Split(s, sep)[..|Split(s, sep)| - 1], sep) + sep + Split(s, sep)[|Split(s, sep)| - 1]
  {
    SplitHasTwo(s, sep);
    JoinLast(Split(s, sep), sep);
  }

  /** The last piece of a split on a one-character separator does not contain it. */
  lemma SplitLastFree(s: string, sep: string)
    requires |sep| == 1
    ensures sep[0] !in Split(s, sep)[|Split(s, sep)| - 1]
  {
    var parts := Split(s, sep);
    SplitPieceFree(s, sep, |parts| - 1);
    IncludesSingle(parts[|parts| - 1], sep);
  }

  /** One piece of a split is free of the separator. */
  lemma SplitPieceFree(s: string, sep: string, k: int)
    requires |sep| > 0 && 0 <= k < |Split(s, sep)|
    ensures !Includes(Split(s, sep)[k], sep)
  {
    SplitPiecesFree(s, sep);
  }

  /** The last piece of a split is what follows the last separator: for `pre + sep + a`
      with `a` free of a one-character `sep`, it is `a`. */
  lemma SplitLastPiece(pre: string, sep: string, a: string)
    requires |sep| == 1 && !Includes(a, sep)
    ensures Split(pre + sep + a, sep)[|Split(pre + sep + a, sep)| - 1] == a
  {
    var s := pre + sep + a;
    assert s[|pre|] == sep[0];
    IncludesSingle(a, sep);
    SplitLastShape(s, sep);
    SplitLastFree(s, sep);
    var parts := Split(s, sep);
    SameTail(Join(parts[..|parts| - 1], sep), parts[|parts| - 1], pre, a, sep);
  }

  /** Where the first separator sits at `k`, a split is the piece before it
      followed by the split of what comes after it. */
  lemma {:induction false} SplitAt(s: string, sep: string, k: int)
    requires |sep| > 0 && k >= 0 && IndexOf(s, sep) == k
    ensures k + |sep| <= |s|
    ensures Split(s, sep) == [s[..k]] + Split(s[k + |sep|..], sep)
  {
  }

  /** `s.replaceAll(pat, rep)` for a non-empty string pattern. */
  function ReplaceAll(s: string, pat: string, rep: string): (r: string)
    requires |pat| > 0
    ensures !Includes(s, pat) ==> r == s
  {
    Join(Split(s, pat), rep)
  }

  /** `s.replace(pat, rep)` for a string pattern: only the first occurrence is replaced. */
  function ReplaceFirst(s: string, pat: string, rep: string): (r: string)
    ensures IndexOf(s, pat) == -1 ==> r == s
    ensures IndexOf(s, pat) != -1 ==> |r| == |s| - |pat| + |rep|
  {
    var k := IndexOf(s, pat);
    if k < 0 then s else s[..k] + rep + s[k + |pat|..]
  }

  lemma ConcatAssoc<T>(a: seq<T>, b: seq<T>, c: seq<T>)
    ensures (a + b) + c == a + (b + c)
  {
  }

  /** Characters `removeControlText` deletes. */
  predicate IsControl(c: char)
  {
    c == '\r' || c == '\n' || c == '\t'
  }

  /** `removeControlText`: every carriage return, line feed and tab is deleted. */
  function RemoveControlText(s: string): (r: string)
    ensures |r| <= |s|
    ensures forall k :: 0 <= k < |r| ==> !IsControl(r[k])
    ensures (forall k :: 0 <= k < |s| ==> !IsControl(s[k])) ==> r == s
  {
    if s == [] then []
    else if IsControl(s[0]) then RemoveControlText(s[1..])
    else [s[0]] + RemoveControlText(s[1..])
  }

  lemma RemoveControlTextCons(c: char, t: string)
    ensures RemoveControlText([c] + t) == (if IsControl(c) then [] else [c]) + RemoveControlText(t)
  {
    assert ([c] + t)[1..] == t;
  }

  /** No carriage return, line feed or tab is left, and every other character
      survives as often as it occurs. */
  lemma {:induction false} RemoveControlTextCounts(s: string)
    ensures forall c :: multiset(RemoveControlText(s))[c] == if IsControl(c) then 0 else multiset(s)[c]
    decreases |s|
  {
    if s != [] {
      assert s == [s[0]] + s[1..];
      RemoveControlTextCounts(s[1..]);
    }
  }

  /** Deleting the control characters of two pieces one after the other keeps their
      order: the survivors of `a` come before those of `b`. */
  lemma {:induction false} RemoveControlTextConcat(a: string, b: string)
    ensures RemoveControlText(a + b) == RemoveControlText(a) + RemoveControlText(b)
    decreases |a|
  {
    if a != [] {
      var t := a[1..];
      assert a + b == [a[0]] + (t + b) && a == [a[0]] + t;
      RemoveControlTextCons(a[0], t + b);
      RemoveControlTextConcat(t, b);
      RemoveControlTextCons(a[0], t);
    } else {
      assert a + b == b;
    }
  }

  /** The entity `escapeHtml` writes for one character. */
  function EscapeChar(c: char): string
  {
    match c
    case '&' => "&amp;"
    case '<' => "&lt;"
    case '>' => "&gt;"
    case '"' => "&quot;"
    case '\'' => "&#039;"
    case '(' => "&#40;"
    case ')' => "&#41;"
    case _ => [c]
  }

  /** Characters that `escapeHtml` must never leave raw. */
  predicate IsMarkup(c: char)
  {
    c == '<' || c == '>' || c == '"' || c == '\'' || c == '(' || c == ')'
  }

  /** `escapeHtml`: each of `& < > " ' ( )` becomes its entity, every other character is kept. */
  function EscapeHtml(s: string): (r: string)
    ensures forall k :: 0 <= k < |r| ==> !IsMarkup(r[k])
    ensures (forall k :: 0 <= k < |s| ==> !IsMarkup(s[k]) && s[k] != '&') ==> r == s
  {
    if s == [] then [] else EscapeChar(s[0]) + EscapeHtml(s[1..])
  }

  /** The only `&` in an entity is its first character. */
  lemma AmpersandLeads(c: char, k: nat)
    requires k < |EscapeChar(c)| && EscapeChar(c)[k] == '&'
    ensures k == 0 && (IsMarkup(c) || c == '&')
  {
  }

  /** Every `&` in `r` begins one of the seven entities. */
  ghost predicate AmpersandsLead(r: string)
  {
    forall k :: 0 <= k < |r| && r[k] == '&' ==> DecodeEntity(r[k..]).Some?
  }

  /** Every `&` that `escapeHtml` writes begins one of the seven entities. */
  lemma {:induction false} EscapeHtmlAmpersands(s: string)
    ensures AmpersandsLead(EscapeHtml(s))
    decreases |s|
  {
    if s != [] {
      var e := EscapeChar(s[0]);
      var rest := EscapeHtml(s[1..]);
      EscapeHtmlAmpersands(s[1..]);
      assert AmpersandsLead(rest);
      assert EscapeHtml(s) == e + rest;
      forall k | 0 <= k < |e + rest| && (e + rest)[k] == '&'
        ensures DecodeEntity((e + rest)[k..]).Some?
      {
        if k < |e| {
          AmpersandLeads(s[0], k);
          assert (e + rest)[k..] == e + rest;
          DecodeEscaped(s[0], rest);
        } else {
          var j := k - |e|;
          assert rest[j] == '&' && (e + rest)[k..] == rest[j..];
        }
      }
    }
  }

  /** The entity at the front of `s`, if any: the character it stands for and its length. */
  function DecodeEntity(s: string): (r: Option<(char, nat)>)
    ensures r.Some? ==> 1 <= r.value.1 <= |s|
  {
    if StartsWith(s, "&amp;") then Some(('&', 5))
    else if StartsWith(s, "&lt;") then Some(('<', 4))
    else if StartsWith(s, "&gt;") then Some(('>', 4))
    else if StartsWith(s, "&quot;") then Some(('"', 6))
    else if StartsWith(s, "&#039;") then Some(('\'', 6))
    else if StartsWith(s, "&#40;") then Some(('(', 5))
    else if StartsWith(s, "&#41;") then Some((')', 5))
    else None
  }

  /** The inverse of `EscapeHtml`: entities back to their characters. */
  function UnescapeHtml(s: string): string
    decreases |s|
  {
    if s == [] then []
    else match DecodeEntity(s)
      case Some((c, n)) => [c] + UnescapeHtml(s[n..])
      case None => [s[0]] + UnescapeHtml(s[1..])
  }

  /** The entity `EscapeChar` writes decodes to its character; a kept character
      starts no entity. */
  lemma DecodeEscaped(c: char, rest: string)
    ensures (IsMarkup(c) || c == '&') ==> DecodeEntity(EscapeChar(c) + rest) == Some((c, |EscapeChar(c)|))
    ensures !(IsMarkup(c) || c == '&') ==> DecodeEntity(EscapeChar(c) + rest).None?
  {
    var e := EscapeChar(c);
    var s := e + rest;
    assert s[..|e|] == e;
    if c == '<' {
      assert s[1] == 'l';
    } else if c == '>' {
      assert s[1] == 'g';
    } else if c == '"' {
      assert s[1] == 'q';
    } else if c == '\'' {
      assert s[1] == '#' && s[2] == '0';
    } else if c == '(' {
      assert s[1] == '#' && s[2] == '4' && s[3] == '0';
    } else if c == ')' {
      assert s[1] == '#' && s[2] == '4' && s[3] == '1';
    } else if c != '&' {
      assert s[0] == c;
    }
  }

  lemma UnescapeOneChar(c: char, rest: string)
    ensures UnescapeHtml(EscapeChar(c) + rest) == [c] + UnescapeHtml(rest)
  {
    var e := EscapeChar(c);
    var s := e + rest;
    DecodeEscaped(c, rest);
    assert s[|e|..] == rest;
    if !(IsMarkup(c) || c == '&') {
      assert s[0] == c && |e| == 1;
    }
  }

  /** Escaping loses nothing: unescaping the output gives the input back. */
  lemma {:induction false} EscapeHtmlRoundTrip(s: string)
    ensures UnescapeHtml(EscapeHtml(s)) == s
  {
    if s != [] {
      EscapeHtmlRoundTrip(s[1..]);
      UnescapeOneChar(s[0], EscapeHtml(s[1..]));
      assert s == [s[0]] + s[1..];
    }
  }

  // ---- decimal numbers: template literals `${n}` and `parseInt(s, 10)` ----

  predicate IsDigit(c: char)
  {
    '0' <= c <= '9'
  }

  function DigitChar(d: nat): (c: char)
    requires d < 10
    ensures IsDigit(c) && c as int - '0' as int == d
  {
    (d + '0' as int) as char
  }

  /** The decimal text of `n`, as `${n}` writes it. */
  function NatToString(n: nat): (r: string)
    ensures |r| >= 1
    ensures forall k :: 0 <= k < |r| ==> IsDigit(r[k])
  {
    if n < 10 then [DigitChar(n)] else NatToString(n / 10) + [DigitChar(n % 10)]
  }

  /** The longest prefix of `s` made of decimal digits. */
  function LeadingDigits(s: string): (r: string)
    ensures |r| <= |s| && r == s[..|r|]
    ensures forall k :: 0 <= k < |r| ==> IsDigit(r[k])
    ensures |r| < |s| ==> !IsDigit(s[|r|])
  {
    if s == [] || !IsDigit(s[0]) then [] else [s[0]] + LeadingDigits(s[1..])
  }

  /** The value of a string of decimal digits. */
  function DigitsValue(ds: string): nat
    requires forall k :: 0 <= k < |ds| ==> IsDigit(ds[k])
  {
    if ds == [] then 0
    else
      assert IsDigit(ds[|ds| - 1]);
      DigitsValue(ds[..|ds| - 1]) * 10 + (ds[|ds| - 1] as int - '0' as int)
  }

  /** `parseInt(s, 10)`: leading whitespace, an optional sign, then as many digits as
      there are; `None` (NaN) when no digit follows. */
  function ParseInt(s: string): Option<int>
  {
    ParseSigned(TrimStart(s))
  }

  /** What `parseInt` reads once the leading whitespace is gone. */
  function ParseSigned(t: string): Option<int>
  {
    var negative := |t| > 0 && t[0] == '-';
    var body := if |t| > 0 && (t[0] == '+' || t[0] == '-') then t[1..] else t;
    var ds := LeadingDigits(body);
    if ds == [] then None
    else
      var v: int := DigitsValue(ds);
      Some(if negative then -v else v)
  }

  lemma {:induction false} DigitsValueOfNat(n: nat)
    ensures DigitsValue(NatToString(n)) == n
  {
    if n >= 10 {
      DigitsValueOfNat(n / 10);
      var s := NatToString(n);
      assert s[..|s| - 1] == NatToString(n / 10);
    }
  }

  lemma {:induction false} AllDigitsLeading(s: string)
    requires forall k :: 0 <= k < |s| ==> IsDigit(s[k])
    ensures LeadingDigits(s) == s
  {
    if s != [] {
      AllDigitsLeading(s[1..]);
    }
  }

  lemma {:induction false} LeadingDigitsOf(ds: string, rest: string)
    requires forall k :: 0 <= k < |ds| ==> IsDigit(ds[k])
    requires rest == [] || !IsDigit(rest[0])
    ensures LeadingDigits(ds + rest) == ds
    decreases |ds|
  {
    if ds == [] {
      assert ds + rest == rest;
    } else {
      assert (ds + rest)[0] == ds[0] && (ds + rest)[1..] == ds[1..] + rest;
      LeadingDigitsOf(ds[1..], rest);
      assert [ds[0]] + ds[1..] == ds;
    }
  }

  /** `parseInt(s, 10)` on blanks, an optional sign, the decimal text of `n` and
      anything that does not start with a digit is `n` with that sign. */
  lemma ParseIntReads(ws: string, sign: string, n: nat, rest: string)
    requires forall k :: 0 <= k < |ws| ==> IsSpace(ws[k])
    requires sign == "" || sign == "+" || sign == "-"
    requires rest == [] || !IsDigit(rest[0])
    ensures ParseInt(ws + sign + NatToString(n) + rest) == Some(if sign == "-" then -(n as int) else n)
  {
    var ds := NatToString(n);
    DigitsValueOfNat(n);
    ParseIntDigits(ws, sign, ds, rest);
    var v: int := DigitsValue(ds);
    assert v == n;
  }

  lemma ParseIntDigits(ws: string, sign: string, ds: string, rest: string)
    requires forall k :: 0 <= k < |ws| ==> IsSpace(ws[k])
    requires sign == "" || sign == "+" || sign == "-"
    requires ds != [] && forall k :: 0 <= k < |ds| ==> IsDigit(ds[k])
    requires rest == [] || !IsDigit(rest[0])
    ensures var v: int := DigitsValue(ds);
      ParseInt(ws + sign + ds + rest) == Some(if sign == "-" then -v else v)
  {
    var body := ds + rest;
    var t := sign + body;
    assert ws + sign + ds + rest == ws + t by {
      ConcatAssoc(sign, ds, rest);
      ConcatAssoc(ws, sign + ds, rest);
      ConcatAssoc(ws, sign, ds);
    }
    LeadingDigitsOf(ds, rest);
    SignedReads(sign, body, ds);
    ParseIntSkipsBlanks(ws, t);
  }

  /** Leading blanks do not change what `parseInt` reads. */
  lemma ParseIntSkipsBlanks(ws: string, t: string)
    requires forall k :: 0 <= k < |ws| ==> IsSpace(ws[k])
    requires t == [] || !IsSpace(t[0])
    ensures ParseInt(ws + t) == ParseSigned(t)
  {
    TrimStartPadded(ws, t);
  }

  /** After an optional sign, `parseInt` reads the digits at the front. */
  lemma SignedReads(sign: string, body: string, ds: string)
    requires sign == "" || sign == "+" || sign == "-"
    requires ds != [] && LeadingDigits(body) == ds
    ensures sign + body != [] && !IsSpace((sign + body)[0])
    ensures var v: int := DigitsValue(ds);
      ParseSigned(sign + body) == Some(if sign == "-" then -v else v)
  {
    var t := sign + body;
    assert body[0] == ds[0];
    if sign == "" {
      assert t == body;
    } else {
      assert t[0] == sign[0] && t[1..] == body;
    }
  }

  /** `parseInt(s, 10)` is NaN when, after the blanks and an optional sign, the text
      is empty or goes on with a character that is neither a digit, a blank nor a sign. */
  lemma ParseIntNaN(ws: string, sign: string, rest: string)
    requires forall k :: 0 <= k < |ws| ==> IsSpace(ws[k])
    requires sign == "" || sign == "+" || sign == "-"
    requires rest == [] || (!IsDigit(rest[0]) && !IsSpace(rest[0]) && rest[0] != '+' && rest[0] != '-')
    ensures ParseInt(ws + sign + rest) == None
  {
    var t := sign + rest;
    assert ws + sign + rest == ws + t;
    ParseIntSkipsBlanks(ws, t);
    if sign == "" {
      assert t == rest;
    } else {
      assert t[1..] == rest;
    }
  }

  /** `parseInt` reads back exactly the number a template literal wrote. */
  lemma ParseIntOfNat(n: nat)
    ensures ParseInt(NatToString(n)) == Some(n)
  {
    var s := NatToString(n);
    assert !IsSpace(s[0]) && s[0] !in "+-";
    assert TrimStart(s) == s;
    AllDigitsLeading(s);
    DigitsValueOfNat(n);
  }
}
