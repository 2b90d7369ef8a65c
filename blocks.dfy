/** Grouping of segments into the units the engine evaluates together:
    `findBlockEnd`, `makeSyncBlock` and `eachBlock` of etemplate.js. */
module Blocks {
  import opened JsText
  import opened Segmenter

  /** An output directive (`<%= … %>` or `<%- … %>` once stripped) starts with `=` or `-`. */
  predicate IsOutput(code: string)
  {
    |code| > 0 && (code[0] == '=' || code[0] == '-')
  }

  /** `IsOutput` is the engine's test `code.substring(0, 1) == "="` or `"-"`. */
  lemma IsOutputAsSubstring(code: string)
    ensures IsOutput(code) <==> Substring(code, 0, 1) == "=" || Substring(code, 0, 1) == "-"
  {
    if |code| > 0 {
      assert Substring(code, 0, 1) == [code[0]];
    }
  }

  /** The brace counter's step for one segment: +1 when it contains `{`, then -1 when
      it contains `}`; the number of braces does not matter. */
  function BraceStep(code: string): (d: int)
    ensures -1 <= d <= 1
    ensures d == 0 <==> ('{' in code <==> '}' in code)
  {
    (if '{' in code then 1 else 0) - (if '}' in code then 1 else 0)
  }

  /** `BraceStep` is the engine's pair of tests `code.includes("{")` and `code.includes("}")`. */
  lemma BraceStepAsIncludes(code: string)
    ensures BraceStep(code) == (if Includes(code, "{") then 1 else 0) - (if Includes(code, "}") then 1 else 0)
  {
    IncludesChar(code, '{');
    IncludesChar(code, '}');
  }

  /** `Array(n).fill(x)`. */
  function Repeat(x: nat, n: nat): (r: seq<nat>)
    ensures |r| == n && forall k :: 0 <= k < n ==> r[k] == x
  {
    if n == 0 then [] else [x] + Repeat(x, n - 1)
  }

  /** Whether the counter of a block opened at `i` looks at segment `j`: the opener
      when it is a directive, and after it only the non-output directives. */
  predicate Counted(types: seq<Kind>, codes: seq<string>, i: nat, j: nat)
    requires |types| == |codes| && j < |codes|
  {
    types[j] == Js && (j == i || !IsOutput(codes[j]))
  }

  /** The counter of a block opened at `i` once segments `i .. j-1` are seen. */
  function Balance(types: seq<Kind>, codes: seq<string>, i: nat, j: nat): int
    requires |types| == |codes| && i <= j <= |codes|
    decreases j
  {
    if j == i then 0
    else Balance(types, codes, i, j - 1) + Step(types, codes, i, j - 1)
  }

  /** The counter's change at segment `j` of the block opened at `i`. */
  function Step(types: seq<Kind>, codes: seq<string>, i: nat, j: nat): int
    requires |types| == |codes| && j < |codes|
  {
    if Counted(types, codes, i, j) then BraceStep(codes[j]) else 0
  }

  /** Segment `j` closes the block opened at `i`: it is counted and brings the counter to zero. */
  predicate Closes(types: seq<Kind>, codes: seq<string>, i: nat, j: nat)
    requires |types| == |codes| && i <= j < |codes|
  {
    Counted(types, codes, i, j) && Balance(types, codes, i, j + 1) == 0
  }

  /** The first segment at or after `from` that closes the block opened at `i`. */
  function FirstClose(types: seq<Kind>, codes: seq<string>, i: nat, from: nat): (r: Option<nat>)
    requires |types| == |codes| && i <= from <= |codes|
    ensures r.Some? ==> from <= r.value < |codes| && Closes(types, codes, i, r.value)
    ensures forall j :: from <= j < (if r.Some? then r.value else |codes|) ==> !Closes(types, codes, i, j)
    decreases |codes| - from
  {
    if from == |codes| then None
    else if Closes(types, codes, i, from) then Some(from)
    else FirstClose(types, codes, i, from + 1)
  }

  /** What `findBlockEnd` returns: the end index and the counter left over. */
  datatype BlockEnd = BlockEnd(index: nat, braceBalance: int)

  /** The answer of `findBlockEnd`: the first closing segment with a zero counter;
      failing that the opener itself with the non-zero counter; or, when the counter
      stayed at zero, the end of the arrays. */
  function BlockEndOf(types: seq<Kind>, codes: seq<string>, i: nat): BlockEnd
    requires |types| == |codes| && i <= |codes|
  {
    match FirstClose(types, codes, i, i)
    case Some(j) => BlockEnd(j, 0)
    case None =>
      var b := Balance(types, codes, i, |codes|);
      if b != 0 then BlockEnd(i, b) else BlockEnd(|codes|, 0)
  }

  /** `findBlockEnd(type, code, i)` (etemplate.js:808-842). */
  method FindBlockEnd(types: seq<Kind>, codes: seq<string>, i: nat) returns (r: BlockEnd)
    requires |types| == |codes| && i <= |codes|
    ensures r == BlockEndOf(types, codes, i)
  {
    var bracesCnt := 0;
    var j := i;
    while j < |codes|
      invariant i <= j <= |codes|
      invariant bracesCnt == Balance(types, codes, i, j)
      invariant FirstClose(types, codes, i, i) == FirstClose(types, codes, i, j)
    {
      if j == i && types[j] == Js {
        bracesCnt := bracesCnt + BraceStep(codes[j]);
        if bracesCnt == 0 {
          return BlockEnd(j, 0);
        }
        j := j + 1;
        continue;
      }
      if types[j] == Html {
        j := j + 1;
        continue;
      }
      if types[j] == Js && !IsOutput(codes[j]) {
        bracesCnt := bracesCnt + BraceStep(codes[j]);
        if bracesCnt == 0 {
          return BlockEnd(j, 0);
        }
      }
      j := j + 1;
    }
    if bracesCnt != 0 {
      return BlockEnd(i, bracesCnt);
    }
    return BlockEnd(j, bracesCnt);
  }

  /** Once a directive has opened a block, the counter stays non-zero until a segment closes it. */
  lemma {:induction false} OpenBalance(types: seq<Kind>, codes: seq<string>, i: nat, j: nat)
    requires |types| == |codes| && i < j <= |codes| && types[i] == Js
    requires forall k :: i <= k < j ==> !Closes(types, codes, i, k)
    ensures Balance(types, codes, i, j) != 0
  {
    assert !Closes(types, codes, i, j - 1);
    if j > i + 1 {
      OpenBalance(types, codes, i, j - 1);
    }
  }

  /** For a directive opener, `findBlockEnd` ends the block inside the arrays; the
      counter is zero exactly when a closing segment exists, and otherwise the
      opener stands alone. */
  lemma OpenerEnd(types: seq<Kind>, codes: seq<string>, i: nat)
    requires |types| == |codes| && i < |codes| && types[i] == Js
    ensures var r := BlockEndOf(types, codes, i);
      i <= r.index < |codes| &&
      (r.braceBalance == 0 <==> FirstClose(types, codes, i, i).Some?) &&
      (r.braceBalance != 0 ==> r.index == i && r.braceBalance == Balance(types, codes, i, |codes|))
  {
    if FirstClose(types, codes, i, i).None? {
      OpenBalance(types, codes, i, |codes|);
    }
  }

  // ---- sync groups ----

  /** The last segment of the group that starts at `i`: the end of the block for a
      non-output directive, the segment itself otherwise. */
  function GroupLast(types: seq<Kind>, codes: seq<string>, i: nat): (e: nat)
    requires |types| == |codes| && i < |codes|
    ensures i <= e < |codes|
  {
    if types[i] == Js && !IsOutput(codes[i]) then
      OpenerEnd(types, codes, i);
      BlockEndOf(types, codes, i).index
    else i
  }

  /** Every index `k` names a last segment at or after itself. */
  predicate EndsValid(ends: seq<nat>)
  {
    forall k :: 0 <= k < |ends| ==> k <= ends[k] < |ends|
  }

  /** `GroupLast` for every segment. */
  function GroupEnds(types: seq<Kind>, codes: seq<string>): (ends: seq<nat>)
    requires |types| == |codes|
    ensures |ends| == |codes| && EndsValid(ends)
    ensures forall k :: 0 <= k < |codes| ==> ends[k] == GroupLast(types, codes, k)
  {
    seq(|codes|, k requires 0 <= k < |codes| => GroupLast(types, codes, k))
  }

  /** The group ids `makeSyncBlock` assigns from segment `i` on, starting with id `cnt`,
      when the group opened at any `k` ends at `ends[k]`. */
  function SyncFrom(ends: seq<nat>, i: nat, cnt: nat): (s: seq<nat>)
    requires EndsValid(ends) && i <= |ends|
    ensures |s| == |ends| - i
    ensures |s| > 0 ==> s[0] == cnt
    decreases |ends| - i
  {
    if i == |ends| then []
    else Repeat(cnt, ends[i] - i + 1) + SyncFrom(ends, ends[i] + 1, cnt + 1)
  }

  /** `makeSyncBlock(type, code)` (etemplate.js:770-806). */
  method MakeSyncBlock(types: seq<Kind>, codes: seq<string>) returns (sync: seq<nat>)
    requires |types| == |codes|
    ensures sync == SyncFrom(GroupEnds(types, codes), 0, 0)
  {
    ghost var ends := GroupEnds(types, codes);
    sync := [];
    var cnt := 0;
    var i := 0;
    SyncPrefixStart(ends);
    while i < |codes|
      invariant SyncPrefix(ends, sync, i, cnt)
    {
      // the last segment of the group opened at `i`: the segment itself for a
      // literal or an output directive (`sync.push(cnt)`), the end of the block for
      // any other directive (`Array(index - i + 1).fill(cnt)`)
      var last := i;
      if types[i] == Js && !IsOutput(codes[i]) {
        var blockEnd := FindBlockEnd(types, codes, i);
        last := blockEnd.index;
      }
      assert last == ends[i];
      ghost var i0, cnt0, sync0 := i, cnt, sync;
      sync := sync + Repeat(cnt, last - i + 1);
      i := last;
      cnt := cnt + 1;
      i := i + 1;
      SyncGroupStep(ends, i0, cnt0, sync0, sync, i, cnt);
    }
    SyncPrefixDone(ends, sync, i, cnt);
  }

  /** The loop state of `makeSyncBlock`: the ids written so far, followed by the ids
      the rest of the segments receive from id `cnt` on, are all the ids. */
  predicate SyncPrefix(ends: seq<nat>, sync: seq<nat>, i: nat, cnt: nat)
    requires EndsValid(ends)
  {
    i <= |ends| && sync + SyncFrom(ends, i, cnt) == SyncFrom(ends, 0, 0)
  }

  /** Before the loop no id is written. */
  lemma SyncPrefixStart(ends: seq<nat>)
    requires EndsValid(ends)
    ensures SyncPrefix(ends, [], 0, 0)
  {
    assert [] + SyncFrom(ends, 0, 0) == SyncFrom(ends, 0, 0);
  }

  /** After the loop every id is written. */
  lemma SyncPrefixDone(ends: seq<nat>, sync: seq<nat>, i: nat, cnt: nat)
    requires EndsValid(ends) && SyncPrefix(ends, sync, i, cnt) && i >= |ends|
    ensures sync == SyncFrom(ends, 0, 0)
  {
    assert sync + [] == sync;
  }

  /** One pass of the loop: the ids of the group at `i` move from the
      specification's remainder into `sync`. */
  lemma SyncGroupStep(ends: seq<nat>, i: nat, cnt: nat, sync: seq<nat>, sync': seq<nat>, i': nat, cnt': nat)
    requires EndsValid(ends) && i < |ends| && SyncPrefix(ends, sync, i, cnt)
    requires sync' == sync + Repeat(cnt, ends[i] - i + 1) && i' == ends[i] + 1 && cnt' == cnt + 1
    ensures SyncPrefix(ends, sync', i', cnt')
  {
    ConcatAssoc(sync, Repeat(cnt, ends[i] - i + 1), SyncFrom(ends, ends[i] + 1, cnt + 1));
  }

  /** Each id equals the one before it or exceeds it by one. */
  predicate StepsByOne(s: seq<nat>)
  {
    forall k :: 0 < k < |s| ==> s[k] == s[k - 1] || s[k] == s[k - 1] + 1
  }

  /** Ids never decrease and step by at most one, so every group is a contiguous run. */
  lemma {:induction false} SyncSteps(ends: seq<nat>, i: nat, cnt: nat)
    requires EndsValid(ends) && i <= |ends|
    ensures StepsByOne(SyncFrom(ends, i, cnt))
    decreases |ends| - i
  {
    if i < |ends| {
      var e := ends[i];
      SyncSteps(ends, e + 1, cnt + 1);
      var s := SyncFrom(ends, i, cnt);
      var rest := SyncFrom(ends, e + 1, cnt + 1);
      var d := e - i + 1;
      assert s == Repeat(cnt, d) + rest;
      forall k | 0 < k < |s|
        ensures s[k] == s[k - 1] || s[k] == s[k - 1] + 1
      {
        if k > d {
          var m := k - d;
          assert s[k] == rest[m] && s[k - 1] == rest[m - 1];
          assert rest[m] == rest[m - 1] || rest[m] == rest[m - 1] + 1;
        } else if k == d {
          assert s[k] == rest[0];
        }
      }
    }
  }

  /** The group that starts at segment `p` (offset `p - i` in the ids `s` of the run
      starting at `i`) holds the same id over the segments `p .. ends[p]`. */
  lemma {:induction false} SyncGroupSame(ends: seq<nat>, i: nat, cnt: nat, p: nat, s: seq<nat>)
    requires EndsValid(ends) && i <= p < |ends| && s == SyncFrom(ends, i, cnt)
    requires p == i || s[p - i] != s[p - i - 1]
    ensures forall k :: p - i <= k <= ends[p] - i ==> s[k] == s[p - i]
    decreases |ends| - i
  {
    if p == i {
      SyncFromHead(ends, i, cnt, s);
    } else {
      var rest := SyncFrom(ends, ends[i] + 1, cnt + 1);
      GroupStartBeyond(ends, i, cnt, p, s);
      SyncFromTail(ends, i, cnt, s, rest, p - i);
      if p > ends[i] + 1 {
        SyncFromTail(ends, i, cnt, s, rest, p - i - 1);
      }
      SyncGroupSame(ends, ends[i] + 1, cnt + 1, p, rest);
      forall k | p - i <= k <= ends[p] - i
        ensures s[k] == s[p - i]
      {
        SyncFromTail(ends, i, cnt, s, rest, k);
      }
    }
  }

  /** The segment after that group carries the next id. */
  lemma {:induction false} SyncGroupNext(ends: seq<nat>, i: nat, cnt: nat, p: nat, s: seq<nat>)
    requires EndsValid(ends) && i <= p < |ends| && s == SyncFrom(ends, i, cnt)
    requires p == i || s[p - i] != s[p - i - 1]
    ensures ends[p] + 1 < |ends| ==> s[ends[p] + 1 - i] == s[p - i] + 1
    decreases |ends| - i
  {
    if p == i {
      SyncFromHead(ends, i, cnt, s);
    } else {
      var rest := SyncFrom(ends, ends[i] + 1, cnt + 1);
      GroupStartBeyond(ends, i, cnt, p, s);
      SyncFromTail(ends, i, cnt, s, rest, p - i);
      if p > ends[i] + 1 {
        SyncFromTail(ends, i, cnt, s, rest, p - i - 1);
      }
      SyncGroupNext(ends, ends[i] + 1, cnt + 1, p, rest);
      if ends[p] + 1 < |ends| {
        SyncFromTail(ends, i, cnt, s, rest, ends[p] + 1 - i);
      }
    }
  }

  /** The first group from `i` carries id `cnt` throughout, and the next one `cnt + 1`. */
  lemma SyncFromHead(ends: seq<nat>, i: nat, cnt: nat, s: seq<nat>)
    requires EndsValid(ends) && i < |ends| && s == SyncFrom(ends, i, cnt)
    ensures forall k :: 0 <= k <= ends[i] - i ==> s[k] == cnt
    ensures ends[i] + 1 < |ends| ==> s[ends[i] + 1 - i] == cnt + 1
  {
    assert s == Repeat(cnt, ends[i] - i + 1) + SyncFrom(ends, ends[i] + 1, cnt + 1);
  }

  /** After the first group, the ids `s` from `i` are the ids `rest` from the next group on. */
  lemma SyncFromTail(ends: seq<nat>, i: nat, cnt: nat, s: seq<nat>, rest: seq<nat>, k: nat)
    requires EndsValid(ends) && i < |ends| && s == SyncFrom(ends, i, cnt)
    requires rest == SyncFrom(ends, ends[i] + 1, cnt + 1)
    requires ends[i] - i < k < |ends| - i
    ensures s[k] == rest[k - (ends[i] - i + 1)]
  {
    assert s == Repeat(cnt, ends[i] - i + 1) + rest;
  }

  /** An id change after `i` lies beyond the first group. */
  lemma GroupStartBeyond(ends: seq<nat>, i: nat, cnt: nat, p: nat, s: seq<nat>)
    requires EndsValid(ends) && i < p < |ends| && s == SyncFrom(ends, i, cnt)
    requires s[p - i] != s[p - i - 1]
    ensures p > ends[i]
  {
    SyncFromHead(ends, i, cnt, s);
  }

  /** The grouping `makeSyncBlock` produces: ids start at 0 and step by 0 or 1, and a
      group opened by a non-output directive runs to the end `findBlockEnd` finds,
      while any other group is a single segment. */
  lemma SyncGroups(types: seq<Kind>, codes: seq<string>, p: nat)
    requires |types| == |codes| && p < |codes|
    requires var s := SyncFrom(GroupEnds(types, codes), 0, 0); p == 0 || s[p] != s[p - 1]
    ensures var s := SyncFrom(GroupEnds(types, codes), 0, 0); var e := GroupLast(types, codes, p);
      s[0] == 0 &&
      StepsByOne(s) &&
      (types[p] == Js && !IsOutput(codes[p]) ==> e == BlockEndOf(types, codes, p).index) &&
      (types[p] == Html || IsOutput(codes[p]) ==> e == p) &&
      (forall q :: p <= q <= e ==> s[q] == s[p]) &&
      (e + 1 < |codes| ==> s[e + 1] == s[p] + 1)
  {
    var ends := GroupEnds(types, codes);
    var s := SyncFrom(ends, 0, 0);
    SyncSteps(ends, 0, 0);
    SyncGroupSame(ends, 0, 0, p, s);
    SyncGroupNext(ends, 0, 0, p, s);
    assert ends[p] == GroupLast(types, codes, p);
  }

  // ---- block scripts ----

  /** The text `eachBlock` appends for a segment after the opener. */
  function Piece(kind: Kind, code: string): string
  {
    if kind == Html then "eTemplateInterpreted += '" + code + "';"
    else if IsOutput(code) then "eTemplateInterpreted += " + SubstringFrom(code, 1) + ";"
    else code
  }

  /** The pieces of segments `a .. b-1`, concatenated. */
  function Pieces(types: seq<Kind>, codes: seq<string>, a: nat, b: nat): string
    requires |types| == |codes| && a <= b <= |codes|
    decreases b
  {
    if b == a then "" else Pieces(types, codes, a, b - 1) + Piece(types[b - 1], codes[b - 1])
  }

  const Prologue: string := "let eTemplateInterpreted=''; "
  const Epilogue: string := "; return eTemplateInterpreted;"

  /** How the script starts: a directive opener follows an empty accumulator; a literal
      opener both initialises the accumulator and is then appended once more. */
  function Opening(kind: Kind, code: string): string
  {
    if kind == Js then Prologue + code
    else ("let eTemplateInterpreted='" + code + "';") + Piece(Html, code)
  }

  /** The end index `eachBlock` reports: the closing segment, or the end of the arrays
      when the block never closes. */
  function EachBlockEnd(types: seq<Kind>, codes: seq<string>, i: nat): nat
    requires |types| == |codes| && i <= |codes|
  {
    match FirstClose(types, codes, i, i)
    case Some(j) => j
    case None => |codes|
  }

  /** The script `eachBlock` assembles for the block opened at `i`. */
  function BlockScript(types: seq<Kind>, codes: seq<string>, i: nat): (script: string)
    requires |types| == |codes| && i <= |codes|
    ensures FirstClose(types, codes, i, i) != Some(i) && i < |codes| && types[i] == Js ==>
      |script| >= |Prologue| && script[..|Prologue|] == Prologue
    ensures FirstClose(types, codes, i, i) != Some(i) ==>
      |script| >= |Epilogue| && script[|script| - |Epilogue|..] == Epilogue
  {
    if i == |codes| then Epilogue
    else match FirstClose(types, codes, i, i)
      case Some(j) =>
        if j == i then codes[i] else ScriptUpTo(types, codes, i, j + 1) + Epilogue
      case None => ScriptUpTo(types, codes, i, |codes|) + Epilogue
  }

  /** `eachBlock(type, code, i)` (etemplate.js:844-891). */
  method EachBlock(types: seq<Kind>, codes: seq<string>, i: nat) returns (partBlock: string, index: nat)
    requires |types| == |codes| && i <= |codes|
    ensures partBlock == BlockScript(types, codes, i)
    ensures index == EachBlockEnd(types, codes, i)
  {
    partBlock := "";
    var bracesCnt := 0;
    var j := i;
    ScanStart(types, codes, i);
    if j < |codes| {
      // the first pass of the loop, on the opener: a directive whose own braces
      // balance is the whole block; otherwise the script starts
      if types[j] == Js && BraceStep(codes[j]) == 0 {
        ScanOpenerCloses(types, codes, i);
        return codes[j], j;
      }
      partBlock := Opening(types[j], codes[j]);
      bracesCnt := bracesCnt + Step(types, codes, i, j);
      j := j + 1;
      ScanOpener(types, codes, i, j, bracesCnt, partBlock);
    }
    while j < |codes|
      invariant Scanned(types, codes, i, j, bracesCnt, partBlock)
      invariant j == i ==> j == |codes|
      decreases |codes| - j
    {
      // a directive that brings the counter back to zero closes the block; any other
      // segment is appended (`Piece`) and counted (`Step`)
      if types[j] == Js && !IsOutput(codes[j]) && bracesCnt + BraceStep(codes[j]) == 0 {
        ScanCloses(types, codes, i, j, bracesCnt, partBlock);
        partBlock := partBlock + codes[j] + Epilogue;
        return partBlock, j;
      }
      ghost var j0, bracesCnt0, partBlock0 := j, bracesCnt, partBlock;
      partBlock := partBlock + Piece(types[j], codes[j]);
      bracesCnt := bracesCnt + Step(types, codes, i, j);
      j := j + 1;
      ScanPiece(types, codes, i, j0, bracesCnt0, partBlock0, j, bracesCnt, partBlock);
    }
    ScanDone(types, codes, i, j, bracesCnt, partBlock);
    partBlock := partBlock + Epilogue;
    index := j;
  }

  /** The loop state of `eachBlock` after the segments `i .. j-1` of the block opened
      at `i`: the counter, no closing segment yet, and the script so far. */
  predicate Scanned(types: seq<Kind>, codes: seq<string>, i: nat, j: nat, bracesCnt: int, partBlock: string)
    requires |types| == |codes| && i <= |codes|
  {
    i <= j <= |codes| &&
    bracesCnt == Balance(types, codes, i, j) &&
    FirstClose(types, codes, i, i) == FirstClose(types, codes, i, j) &&
    partBlock == ScriptUpTo(types, codes, i, j)
  }

  /** Before the first pass nothing is scanned. */
  lemma ScanStart(types: seq<Kind>, codes: seq<string>, i: nat)
    requires |types| == |codes| && i <= |codes|
    ensures Scanned(types, codes, i, i, 0, "")
  {
  }

  /** A directive opener whose own braces balance is the whole block. */
  lemma ScanOpenerCloses(types: seq<Kind>, codes: seq<string>, i: nat)
    requires |types| == |codes| && i < |codes| && types[i] == Js && BraceStep(codes[i]) == 0
    ensures FirstClose(types, codes, i, i) == Some(i)
    ensures BlockScript(types, codes, i) == codes[i]
    ensures EachBlockEnd(types, codes, i) == i
  {
    CloseStep(types, codes, i, i);
  }

  /** Any other opener starts the script: a directive after an empty accumulator, a
      literal by initialising the accumulator and being appended once more. */
  lemma ScanOpener(types: seq<Kind>, codes: seq<string>, i: nat, j: nat, bracesCnt: int, partBlock: string)
    requires |types| == |codes| && i < |codes| && !(types[i] == Js && BraceStep(codes[i]) == 0)
    requires j == i + 1 && bracesCnt == Step(types, codes, i, i) && partBlock == Opening(types[i], codes[i])
    ensures Scanned(types, codes, i, j, bracesCnt, partBlock)
  {
    CloseStep(types, codes, i, i);
  }

  /** A later pass of the loop that does not close the block: a literal is appended
      as a string, an output directive as its expression, any other directive
      verbatim, and the counter moves by `Step`. */
  lemma ScanPiece(types: seq<Kind>, codes: seq<string>, i: nat, j: nat, bracesCnt: int, partBlock: string,
                  j': nat, bracesCnt': int, partBlock': string)
    requires |types| == |codes| && i <= j < |codes|
    requires Scanned(types, codes, i, j, bracesCnt, partBlock) && i < j
    requires !(types[j] == Js && !IsOutput(codes[j]) && bracesCnt + BraceStep(codes[j]) == 0)
    requires j' == j + 1 && bracesCnt' == bracesCnt + Step(types, codes, i, j) && partBlock' == partBlock + Piece(types[j], codes[j])
    ensures Scanned(types, codes, i, j', bracesCnt', partBlock')
  {
    CountPiece(types, codes, i, j, bracesCnt);
    PiecesExtend(types, codes, i, j, partBlock);
    assert bracesCnt' == Balance(types, codes, i, j');
    assert partBlock' == ScriptUpTo(types, codes, i, j');
  }

  /** The counter after a segment that does not close the block, and no close yet. */
  lemma CountPiece(types: seq<Kind>, codes: seq<string>, i: nat, j: nat, bracesCnt: int)
    requires |types| == |codes| && i < j < |codes|
    requires bracesCnt == Balance(types, codes, i, j)
    requires !(types[j] == Js && !IsOutput(codes[j]) && bracesCnt + BraceStep(codes[j]) == 0)
    ensures bracesCnt + Step(types, codes, i, j) == Balance(types, codes, i, j + 1)
    ensures FirstClose(types, codes, i, j) == FirstClose(types, codes, i, j + 1)
  {
    CloseStep(types, codes, i, j);
  }



  /** A later pass on a directive that brings the counter to zero: it closes the block. */
  lemma ScanCloses(types: seq<Kind>, codes: seq<string>, i: nat, j: nat, bracesCnt: int, partBlock: string)
    requires |types| == |codes| && i <= j < |codes| && types[j] == Js && !IsOutput(codes[j])
    requires Scanned(types, codes, i, j, bracesCnt, partBlock) && i < j
    requires bracesCnt + BraceStep(codes[j]) == 0
    ensures partBlock + codes[j] + Epilogue == BlockScript(types, codes, i)
    ensures j == EachBlockEnd(types, codes, i)
  {
    CloseStep(types, codes, i, j);
    PiecesExtend(types, codes, i, j, partBlock);
  }

  /** Leaving the loop at the end of the arrays: the block never closed. */
  lemma ScanDone(types: seq<Kind>, codes: seq<string>, i: nat, j: nat, bracesCnt: int, partBlock: string)
    requires |types| == |codes| && i <= j == |codes|
    requires Scanned(types, codes, i, j, bracesCnt, partBlock)
    ensures partBlock + Epilogue == BlockScript(types, codes, i)
    ensures j == EachBlockEnd(types, codes, i)
  {
  }

  /** One step of the scan for the closing segment. */
  lemma CloseStep(types: seq<Kind>, codes: seq<string>, i: nat, j: nat)
    requires |types| == |codes| && i <= j < |codes|
    ensures Balance(types, codes, i, j + 1) == Balance(types, codes, i, j) + Step(types, codes, i, j)
    ensures FirstClose(types, codes, i, j) ==
      if Closes(types, codes, i, j) then Some(j) else FirstClose(types, codes, i, j + 1)
  {
  }

  /** The script of the block opened at `i` once segments up to `j - 1` are appended. */
  function ScriptUpTo(types: seq<Kind>, codes: seq<string>, i: nat, j: nat): string
    requires |types| == |codes| && i <= j <= |codes|
  {
    if j == i then "" else Opening(types[i], codes[i]) + Pieces(types, codes, i + 1, j)
  }

  /** Appending the piece of segment `j` extends the script by one segment. */
  lemma PiecesExtend(types: seq<Kind>, codes: seq<string>, i: nat, j: nat, partBlock: string)
    requires |types| == |codes| && i < j < |codes|
    requires partBlock == ScriptUpTo(types, codes, i, j)
    ensures partBlock + Piece(types[j], codes[j]) == ScriptUpTo(types, codes, i, j + 1)
  {
    var o, p, x := Opening(types[i], codes[i]), Pieces(types, codes, i + 1, j), Piece(types[j], codes[j]);
    assert Pieces(types, codes, i + 1, j + 1) == p + x;
    ConcatAssoc(o, p, x);
  }

  /** For a balanced block `eachBlock` stops where `findBlockEnd` does; for an
      unbalanced one `findBlockEnd` keeps the opener alone while `eachBlock` runs to
      the end of the arrays. */
  lemma EachBlockAgrees(types: seq<Kind>, codes: seq<string>, i: nat)
    requires |types| == |codes| && i < |codes| && types[i] == Js
    ensures BlockEndOf(types, codes, i).braceBalance == 0 ==>
      EachBlockEnd(types, codes, i) == BlockEndOf(types, codes, i).index
    ensures BlockEndOf(types, codes, i).braceBalance != 0 ==>
      EachBlockEnd(types, codes, i) == |codes| && BlockEndOf(types, codes, i).index == i
  {
    OpenerEnd(types, codes, i);
  }
}
