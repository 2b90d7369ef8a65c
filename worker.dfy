/** The path and text helpers of the background worker (worker.js): splitting and
    comparing page urls, rewriting relative urls in fetched files, wrapping imported
    styles in a media rule and dropping HTML comments. */
module Worker {
  import opened JsText

  // ---------------------------------------------------------------- splitting on "/"

  /** No piece of `s.split("/")` holds a "/". */
  lemma SlashFree(s: string)
    ensures forall k :: 0 <= k < |Split(s, "/")| ==> '/' !in Split(s, "/")[k]
  {
    var parts := Split(s, "/");
    forall k | 0 <= k < |parts|
      ensures '/' !in parts[k]
    {
      SplitPieceFree(s, "/", k);
      IncludesSingle(parts[k], "/");
    }
  }

  /** `s.split("/")` has one piece, `s` itself, exactly when `s` has no "/"; otherwise
      its last piece is what follows the last "/". */
  lemma SlashPieces(s: string)
    ensures var parts := Split(s, "/");
      && (|parts| == 1 <==> '/' !in s)
      && (|parts| == 1 ==> parts[0] == s)
      && (|parts| > 1 ==> s == Join(parts[..|parts| - 1], "/") + "/" + parts[|parts| - 1])
  {
    if '/' in s {
      SplitLastShape(s, "/");
    } else {
      IncludesSingle(s, "/");
      SplitWithout(s, "/");
    }
  }

  /** Joining pieces that hold no "/" with "/" and splitting again gives them back. */
  lemma SplitJoinSlash(parts: seq<string>)
    requires |parts| > 0 && forall k :: 0 <= k < |parts| ==> '/' !in parts[k]
    ensures Split(Join(parts, "/"), "/") == parts
  {
    forall k | 0 <= k < |parts|
      ensures !Includes(parts[k], "/")
    {
      IncludesChar(parts[k], '/');
    }
    SplitJoin(parts, "/");
  }

  /** `getOnlyPath(url)` (worker.js:221-225): the pieces of `url.split("/")` but the
      last, joined again. */
  function OnlyPath(url: string): string
  {
    var parts := Split(url, "/");
    Join(parts[..|parts| - 1], "/")
  }

  /** `url.split("/").pop()`: the last piece. */
  function LastPiece(url: string): string
  {
    var parts := Split(url, "/");
    parts[|parts| - 1]
  }

  /** The last piece holds no "/"; without a "/" it is the whole url and the path is
      empty, and otherwise path, "/" and last piece make up the url. */
  lemma LastSlash(url: string)
    ensures '/' !in LastPiece(url)
    ensures '/' !in url ==> OnlyPath(url) == "" && LastPiece(url) == url
    ensures '/' in url ==> OnlyPath(url) + "/" + LastPiece(url) == url
  {
    SplitLastFree(url, "/");
    SlashPieces(url);
  }

  /** `getOnlyPath(url)` is the url up to, and without, its last "/", or "" when it has none. */
  lemma OnlyPathIsPrefix(url: string)
    ensures '/' !in url ==> OnlyPath(url) == ""
    ensures '/' in url ==> var r := OnlyPath(url);
      |r| < |url| && url[..|r|] == r && url[|r|] == '/' && '/' !in url[|r| + 1..]
  {
    LastSlash(url);
    if '/' in url {
      var r := OnlyPath(url);
      assert url[|r| + 1..] == LastPiece(url);
    }
  }

  /** The pieces without an empty last piece and then without an empty first piece. */
  function TrimEmpty(parts: seq<string>): seq<string>
    requires |parts| > 0
  {
    var popped := if parts[|parts| - 1] == "" then parts[..|parts| - 1] else parts;
    if |popped| > 0 && popped[0] == "" then popped[1..] else popped
  }

  /** `splitUrl(url)` (worker.js:226-231). */
  function SplitUrl(url: string): seq<string>
  {
    TrimEmpty(Split(url, "/"))
  }

  /** Trimming removes at most one empty piece at each end and removes it whenever it
      is there, so an empty piece is left at an end only where two stood there. */
  lemma TrimEmptyShape(parts: seq<string>)
    requires |parts| > 0
    ensures var r := TrimEmpty(parts);
      && (parts == r || parts == [""] + r || parts == r + [""] || parts == [""] + r + [""])
      && (|r| > 0 && r[0] == "" ==> |parts| >= 2 && parts[0] == "" && parts[1] == "")
      && (|r| > 0 && r[|r| - 1] == "" ==> |parts| >= 2 && parts[|parts| - 1] == "" && parts[|parts| - 2] == "")
  {
    var popped := if parts[|parts| - 1] == "" then parts[..|parts| - 1] else parts;
    var r := TrimEmpty(parts);
    if parts[|parts| - 1] == "" {
      assert parts == popped + [""];
      if |popped| > 0 && popped[0] == "" {
        assert popped == [""] + r;
      }
    } else if |popped| > 0 && popped[0] == "" {
      assert parts == [""] + r;
    }
  }

  /** Trimming keeps the pieces it does not remove. */
  lemma TrimEmptyKeeps(parts: seq<string>)
    requires |parts| > 0
    ensures forall k :: 0 <= k < |TrimEmpty(parts)| ==> TrimEmpty(parts)[k] in parts
  {
    var popped := if parts[|parts| - 1] == "" then parts[..|parts| - 1] else parts;
    assert forall k :: 0 <= k < |popped| ==> popped[k] == parts[k];
  }

  /** No piece of `splitUrl(url)` holds a "/". */
  lemma SplitUrlFree(url: string)
    ensures forall k :: 0 <= k < |SplitUrl(url)| ==> '/' !in SplitUrl(url)[k]
  {
    var parts := Split(url, "/");
    TrimEmptyKeeps(parts);
    SlashFree(url);
  }

  // ---------------------------------------------------------------- getRelativeUrl

  /** The marker `getRelativeUrl` writes over pieces it removes afterwards. */
  const Erase: string := "_erase_"

  /** The url piece at `k` is the host piece at `k` (a missing piece never is). */
  predicate Matches(arr: seq<string>, std: seq<string>, k: nat)
  {
    k < |arr| && k < |std| && std[k] == arr[k]
  }

  /** The host piece at `k` adds a ".." step: it differs from the url piece, and
      either every such piece counts or this one is not empty. */
  predicate Climbs(arr: seq<string>, std: seq<string>, k: nat, all: bool)
    requires k < |std|
  {
    !Matches(arr, std, k) && (all || std[k] != "")
  }

  /** How many of the first `n` host pieces add a ".." step. */
  function CountClimbs(arr: seq<string>, std: seq<string>, n: nat, all: bool): (c: nat)
    requires n <= |std|
    ensures c <= n
  {
    if n == 0 then 0 else CountClimbs(arr, std, n - 1, all) + (if Climbs(arr, std, n - 1, all) then 1 else 0)
  }

  /** `n` ".." steps. */
  function Ups(n: nat): (r: seq<string>)
    ensures |r| == n && forall k :: 0 <= k < n ==> r[k] == ".."
  {
    seq(n, _ => "..")
  }

  /** The url pieces with each of the first `n` that matches its host piece written over by ".". */
  function DottedUpTo(arr: seq<string>, std: seq<string>, n: nat): (r: seq<string>)
    ensures |r| == |arr|
  {
    seq(|arr|, k requires 0 <= k < |arr| => if k < n && Matches(arr, std, k) then "." else arr[k])
  }

  /** A "." directly followed by another ".". */
  predicate Marks(a: seq<string>, k: nat)
    requires k < |a|
  {
    a[k] == "." && k + 1 < |a| && a[k + 1] == "."
  }

  /** The pieces with each of the first `n` that `Marks` picks out written over by the marker. */
  function MarkedUpTo(a: seq<string>, n: nat): (r: seq<string>)
    ensures |r| == |a|
  {
    seq(|a|, k requires 0 <= k < |a| => if k < n && Marks(a, k) then Erase else a[k])
  }

  /** The backward splice loop removes a marker anywhere and a "." anywhere but first. */
  predicate Drops(b: seq<string>, i: nat)
    requires i < |b|
  {
    b[i] == Erase || (b[i] == "." && i > 0)
  }

  /** The pieces from `i` on that the backward splice loop keeps. */
  function Swept(b: seq<string>, i: nat): seq<string>
    requires i <= |b|
    decreases |b| - i
  {
    if i == |b| then [] else (if Drops(b, i) then [] else [b[i]]) + Swept(b, i + 1)
  }

  /** The pieces `getRelativeUrl` joins, for url pieces `arr` and host pieces `std`. */
  function RelativePieces(arr: seq<string>, std: seq<string>): seq<string>
  {
    var a := Ups(CountClimbs(arr, std, |std|, true)) + DottedUpTo(arr, std, |std|);
    Swept(MarkedUpTo(a, |a|), 0)
  }

  /** What `getRelativeUrl(url)` returns when the page's host is `host`. */
  function RelativeUrl(path: string, host: string): (r: string)
    ensures |r| >= 2 && r[0] == '/' && r[|r| - 1] == '/'
  {
    "/" + Join(RelativePieces(SplitUrl(path), SplitUrl(host)), "/") + "/"
  }

  /** After the splice loop no marker is left, and a "." can only be the first piece. */
  lemma {:induction false} SweptClean(b: seq<string>, i: nat)
    requires i <= |b|
    ensures forall k :: 0 <= k < |Swept(b, i)| ==>
      Swept(b, i)[k] != Erase && (k > 0 || i > 0 ==> Swept(b, i)[k] != ".")
    decreases |b| - i
  {
    if i < |b| {
      SweptClean(b, i + 1);
      var head := if Drops(b, i) then [] else [b[i]];
      var s := Swept(b, i);
      var t := Swept(b, i + 1);
      assert s == head + t;
      forall k | 0 <= k < |s|
        ensures s[k] != Erase && (k > 0 || i > 0 ==> s[k] != ".")
      {
        if k < |head| {
          assert !Drops(b, i) && s[k] == b[i];
        } else {
          assert s[k] == t[k - |head|];
        }
      }
    }
  }

  /** Pieces the splice loop drops leave no trace. */
  lemma {:induction false} SweptSkips(b: seq<string>, i: nat, j: nat)
    requires i <= j <= |b|
    requires forall k :: i <= k < j ==> Drops(b, k)
    ensures Swept(b, i) == Swept(b, j)
    decreases j - i
  {
    if i < j {
      SweptSkips(b, i + 1, j);
    }
  }

  /** Pieces that are neither a marker nor "." are all kept, in order. */
  lemma {:induction false} SweptKeeps(b: seq<string>, i: nat)
    requires i <= |b|
    requires forall k :: i <= k < |b| ==> b[k] != Erase && b[k] != "."
    ensures Swept(b, i) == b[i..]
    decreases |b| - i
  {
    if i < |b| {
      SweptKeeps(b, i + 1);
      assert b[i..] == [b[i]] + b[i + 1..];
    }
  }

  /** Every host piece matches when the url pieces start with the host pieces. */
  lemma {:induction false} NoClimbs(arr: seq<string>, std: seq<string>, n: nat, all: bool)
    requires n <= |std| <= |arr| && arr[..|std|] == std
    ensures CountClimbs(arr, std, n, all) == 0
  {
    if n > 0 {
      assert arr[n - 1] == arr[..|std|][n - 1];
      NoClimbs(arr, std, n - 1, all);
    }
  }

  /** Url pieces that start with the host pieces have those written over by "." and
      keep the rest. */
  lemma DottedUnder(std: seq<string>, rest: seq<string>)
    ensures var a := DottedUpTo(std + rest, std, |std|);
      (forall k :: 0 <= k < |std| ==> a[k] == ".") && a[|std|..] == rest
  {
    var a := DottedUpTo(std + rest, std, |std|);
    forall k | 0 <= k < |std|
      ensures a[k] == "."
    {
      assert Matches(std + rest, std, k);
    }
    assert a[|std|..] == rest;
  }

  /** A run of at least two "." followed by pieces that are not "." is marked up to
      its last ".", and the splice loop then keeps just the pieces after it. */
  lemma SweptAfterDots(a: seq<string>, n: nat, rest: seq<string>)
    requires 2 <= n <= |a| && (forall k :: 0 <= k < n ==> a[k] == ".") && a[n..] == rest
    requires forall k :: 0 <= k < |rest| ==> rest[k] != "." && rest[k] != Erase
    ensures Swept(MarkedUpTo(a, |a|), 0) == rest
  {
    var b := MarkedUpTo(a, |a|);
    forall k | 0 <= k < n
      ensures Drops(b, k)
    {
      if k < n - 1 {
        assert Marks(a, k);
      } else if n < |a| {
        assert a[n] == rest[0];
      }
    }
    forall k | n <= k < |b|
      ensures b[k] == rest[k - n]
    {
      assert a[k] == rest[k - n];
    }
    SweptSkips(b, 0, n);
    SweptKeeps(b, n);
    assert b[n..] == rest;
  }

  /** Url pieces that extend at least two host pieces come out as their extension. */
  lemma RelativePiecesUnder(std: seq<string>, rest: seq<string>)
    requires |std| >= 2
    requires forall k :: 0 <= k < |rest| ==> rest[k] != "." && rest[k] != Erase
    ensures RelativePieces(std + rest, std) == rest
  {
    var arr := std + rest;
    assert arr[..|std|] == std;
    NoClimbs(arr, std, |std|, true);
    DottedUnder(std, rest);
    var a := Ups(0) + DottedUpTo(arr, std, |std|);
    assert a == DottedUpTo(arr, std, |std|);
    SweptAfterDots(a, |std|, rest);
  }

  /** A path inside the host's directory becomes the part of it below the host, with
      a "/" on each side, when the host has at least two pieces. */
  lemma RelativeUrlUnderHost(path: string, host: string, rest: seq<string>)
    requires |SplitUrl(host)| >= 2 && SplitUrl(path) == SplitUrl(host) + rest
    requires forall k :: 0 <= k < |rest| ==> rest[k] != "." && rest[k] != Erase
    ensures RelativeUrl(path, host) == "/" + Join(rest, "/") + "/"
  {
    RelativePiecesUnder(SplitUrl(host), rest);
  }

  /** Compared with itself, a host with at least two pieces gives "//". */
  lemma RelativeUrlOfHost(host: string)
    requires |SplitUrl(host)| >= 2
    ensures RelativeUrl(host, host) == "//"
  {
    assert SplitUrl(host) == SplitUrl(host) + [];
    RelativeUrlUnderHost(host, host, []);
  }

  /** One more host piece in the first loop: a ".." step is added or the url piece is dotted. */
  lemma DottedStep(arr: seq<string>, std: seq<string>, i: nat, all: bool)
    requires i < |std|
    ensures var cur := DottedUpTo(arr, std, i);
      && (i < |cur| ==> cur[i] == arr[i])
      && (Matches(arr, std, i) ==> cur[i := "."] == DottedUpTo(arr, std, i + 1))
      && (!Matches(arr, std, i) ==> cur == DottedUpTo(arr, std, i + 1))
      && Ups(CountClimbs(arr, std, i, all)) + (if Climbs(arr, std, i, all) then [".."] else [])
         == Ups(CountClimbs(arr, std, i + 1, all))
  {
  }

  /** One more piece in the marking loop. */
  lemma MarkedStep(a: seq<string>, i: nat)
    requires i < |a|
    ensures var cur := MarkedUpTo(a, i);
      && cur[i] == a[i] && (i + 1 < |a| ==> cur[i + 1] == a[i + 1])
      && (Marks(a, i) ==> cur[i := Erase] == MarkedUpTo(a, i + 1))
      && (!Marks(a, i) ==> cur == MarkedUpTo(a, i + 1))
  {
  }

  /** One more piece, from the back, in the splice loop. */
  lemma SweptStep(b: seq<string>, i: nat)
    requires i < |b|
    ensures var cur := b[..i + 1] + Swept(b, i + 1);
      && cur[i] == b[i]
      && (Drops(b, i) ==> cur[..i] + cur[i + 1..] == b[..i] + Swept(b, i))
      && (!Drops(b, i) ==> cur == b[..i] + Swept(b, i))
  {
    var cur := b[..i + 1] + Swept(b, i + 1);
    assert cur[..i] == b[..i];
    assert cur[i + 1..] == Swept(b, i + 1);
    assert b[..i + 1] == b[..i] + [b[i]];
  }

  // ---------------------------------------------------------------- getComparedPath

  /** The pieces `getComparedPath` joins, for url pieces `arr` and host pieces `std`:
      an empty host piece adds no ".." step. */
  function ComparedPieces(arr: seq<string>, std: seq<string>): seq<string>
  {
    Ups(CountClimbs(arr, std, |std|, false)) + DottedUpTo(arr, std, |std|)
  }

  /** What `getComparedPath(url, host)` returns when the page's host is `current`. */
  function ComparedPath(url: string, host: string, current: string): (r: string)
    ensures |r| > 0 && r[|r| - 1] == '/'
  {
    var arr := SplitUrl(RelativeUrl(OnlyPath(url), current));
    var std := SplitUrl(RelativeUrl(host, current));
    Join(ComparedPieces(arr, std), "/") + "/"
  }

  /** Framing the pieces with empty ones frames their join with "/". */
  lemma JoinFramed(rest: seq<string>)
    requires |rest| > 0
    ensures Join([""] + rest + [""], "/") == "/" + Join(rest, "/") + "/"
  {
    var tail := rest + [""];
    assert [""] + rest + [""] == [""] + tail;
    JoinCons("", tail, "/");
    JoinSnoc(rest, "", "/");
    EmptyEnds(Join(rest, "/"));
  }

  /** Empty pieces at both ends leave just the separators. */
  lemma EmptyEnds(j: string)
    ensures "" + "/" + (j + "/" + "") == "/" + j + "/"
  {
  }

  /** Trimming removes the framing empty pieces. */
  lemma TrimFramed(rest: seq<string>)
    ensures TrimEmpty([""] + rest + [""]) == rest
  {
    var framed := [""] + rest + [""];
    assert framed[..|framed| - 1] == [""] + rest;
  }

  /** "/" + the joined pieces + "/" splits into the pieces framed by empty ones. */
  lemma SplitFramed(rest: seq<string>)
    requires |rest| > 0 && forall k :: 0 <= k < |rest| ==> '/' !in rest[k]
    ensures Split("/" + Join(rest, "/") + "/", "/") == [""] + rest + [""]
  {
    var framed := [""] + rest + [""];
    JoinFramed(rest);
    forall k | 0 <= k < |framed|
      ensures '/' !in framed[k]
    {
      if 0 < k < |framed| - 1 {
        assert framed[k] == rest[k - 1];
      }
    }
    SplitJoinSlash(framed);
  }

  /** "/" + the joined pieces + "/" splits back into the pieces. */
  lemma SplitUrlFramed(rest: seq<string>)
    requires |rest| > 0 && forall k :: 0 <= k < |rest| ==> '/' !in rest[k]
    ensures SplitUrl("/" + Join(rest, "/") + "/") == rest
  {
    SplitFramed(rest);
    TrimFramed(rest);
  }

  /** "//" splits into one empty piece. */
  lemma SplitUrlOfDoubleSlash()
    ensures SplitUrl("//") == [""]
  {
    SplitUrlFramed([""]);
    assert "/" + Join([""], "/") + "/" == "//";
  }

  /** Against the single empty host piece of "//", url pieces with a non-empty first
      piece come out unchanged. */
  lemma ComparedPiecesOfRoot(arr: seq<string>)
    requires |arr| > 0 && arr[0] != ""
    ensures ComparedPieces(arr, [""]) == arr
  {
    assert !Matches(arr, [""], 0);
    assert CountClimbs(arr, [""], 1, false) == 0;
    assert DottedUpTo(arr, [""], 1) == arr;
    assert Ups(0) + arr == arr;
  }

  /** For a file in a directory below the page's own directory, `getComparedPath`
      against the page's host gives that directory relative to the host, ending in "/". */
  lemma ComparedUnderHost(url: string, host: string, rest: seq<string>)
    requires |SplitUrl(host)| >= 2 && SplitUrl(OnlyPath(url)) == SplitUrl(host) + rest && |rest| > 0
    requires forall k :: 0 <= k < |rest| ==> rest[k] != "" && rest[k] != "." && rest[k] != Erase
    ensures ComparedPath(url, host, host) == Join(rest, "/") + "/"
  {
    RelativeUrlUnderHost(OnlyPath(url), host, rest);
    RelativeUrlOfHost(host);
    TailSlashFree(OnlyPath(url), host, rest);
    SplitUrlFramed(rest);
    SplitUrlOfDoubleSlash();
    ComparedPiecesOfRoot(rest);
  }

  /** The pieces of a url below the host's, past the host's own, hold no "/". */
  lemma TailSlashFree(dir: string, host: string, rest: seq<string>)
    requires SplitUrl(dir) == SplitUrl(host) + rest
    ensures forall k :: 0 <= k < |rest| ==> '/' !in rest[k]
  {
    SplitUrlFree(dir);
    var whole := SplitUrl(dir);
    forall k | 0 <= k < |rest|
      ensures '/' !in rest[k]
    {
      assert rest[k] == whole[|SplitUrl(host)| + k];
    }
  }

  // ---------------------------------------------------------------- compareUrls

  /** `compareUrls(oldUrl, baseUrl)` inside `replaceRelativeUrl` and
      `htmlReplaceRelativeUrl` (worker.js:290-301, 321-332); `None` is `undefined`. */
  function CompareUrls(oldUrl: string, baseUrl: string): Option<string>
  {
    if '/' !in oldUrl then Some(baseUrl + oldUrl)
    else if StartsWith(oldUrl, "/") then Some(baseUrl + oldUrl[1..])
    else if StartsWith(oldUrl, "./") then Some(baseUrl + oldUrl[2..])
    else if StartsWith(oldUrl, "../") then Some("." + Join(Popped2(Split(baseUrl, "/")), "/") + "/" + oldUrl[3..])
    else None
  }

  /** The pieces after popping the last two; popping an empty array does nothing. */
  function Popped2(parts: seq<string>): (r: seq<string>)
    ensures |r| == if |parts| >= 2 then |parts| - 2 else 0
    ensures r == parts[..|r|]
  {
    if |parts| >= 2 then parts[..|parts| - 2] else []
  }

  /** The four shapes `compareUrls` rewrites, and `undefined` for every other url with a "/". */
  lemma CompareUrlsCases(oldUrl: string, baseUrl: string)
    ensures '/' !in oldUrl ==> CompareUrls(oldUrl, baseUrl) == Some(baseUrl + oldUrl)
    ensures '/' in oldUrl && oldUrl[0] == '/' ==> CompareUrls(oldUrl, baseUrl) == Some(baseUrl + oldUrl[1..])
    ensures StartsWith(oldUrl, "./") ==> CompareUrls(oldUrl, baseUrl) == Some(baseUrl + oldUrl[2..])
    ensures CompareUrls(oldUrl, baseUrl).None? <==>
      '/' in oldUrl && !StartsWith(oldUrl, "/") && !StartsWith(oldUrl, "./") && !StartsWith(oldUrl, "../")
  {
    if StartsWith(oldUrl, "./") {
      assert oldUrl[..2][1] == '/' && oldUrl[..2][0] == '.';
      assert oldUrl[..1][0] != "/"[0];
    }
  }

  /** A url that starts with "../" holds a "/" and starts with neither "/" nor "./". */
  lemma DotDotPrefix(u: string)
    requires |u| >= 3 && u[0] == '.' && u[1] == '.' && u[2] == '/'
    ensures '/' in u && StartsWith(u, "../") && !StartsWith(u, "/") && !StartsWith(u, "./")
  {
    assert u[..3] == "../";
    assert u[..1][0] != "/"[0];
    assert u[..2][1] != "./"[1];
  }

  /** A "../" url is resolved against the base with its last two pieces popped. */
  lemma CompareUrlsDotDot(u: string, base: string)
    requires |u| >= 3 && u[0] == '.' && u[1] == '.' && u[2] == '/'
    ensures CompareUrls(u, base) == Some("." + Join(Popped2(Split(base, "/")), "/") + "/" + u[3..])
  {
    DotDotPrefix(u);
  }

  /** "." before "/" + `j` reads as "./" + `j`. */
  lemma DotThenSlash(j: string, p: string)
    ensures "." + ("/" + j) + "/" + p == "./" + j + "/" + p
  {
  }

  /** Against a base written from the root, "/d1/.../dn/", a "../" url is resolved in
      the parent directory of the base, written relative as "./d1/.../d(n-1)/". */
  lemma CompareUrlsParentOfRooted(dirs: seq<string>, p: string)
    requires |dirs| >= 2 && forall k :: 0 <= k < |dirs| ==> '/' !in dirs[k]
    ensures CompareUrls("../" + p, "/" + Join(dirs, "/") + "/") == Some("./" + Join(dirs[..|dirs| - 1], "/") + "/" + p)
  {
    var u := "../" + p;
    assert u[3..] == p;
    CompareUrlsDotDot(u, "/" + Join(dirs, "/") + "/");
    RootedParent(dirs);
    DotThenSlash(Join(dirs[..|dirs| - 1], "/"), p);
  }

  /** Popping two pieces off the split of "/d1/.../dn/" leaves "/d1/.../d(n-1)". */
  lemma RootedParent(dirs: seq<string>)
    requires |dirs| >= 2 && forall k :: 0 <= k < |dirs| ==> '/' !in dirs[k]
    ensures Join(Popped2(Split("/" + Join(dirs, "/") + "/", "/")), "/") == "/" + Join(dirs[..|dirs| - 1], "/")
  {
    var init := dirs[..|dirs| - 1];
    SplitFramed(dirs);
    PoppedFramed(dirs);
    JoinCons("", init, "/");
    EmptyFront(Join(init, "/"));
  }

  /** Popping two pieces off framed pieces leaves the empty front piece and all but the last. */
  lemma PoppedFramed(dirs: seq<string>)
    requires |dirs| >= 1
    ensures Popped2([""] + dirs + [""]) == [""] + dirs[..|dirs| - 1]
  {
    var framed := [""] + dirs + [""];
    var r := Popped2(framed);
    assert |r| == |dirs|;
    forall k | 0 <= k < |r|
      ensures r[k] == ([""] + dirs[..|dirs| - 1])[k]
    {
      assert r[k] == framed[k];
    }
  }

  /** An empty piece in front leaves just the separator. */
  lemma EmptyFront(j: string)
    ensures "" + "/" + j == "/" + j
  {
  }

  /** Against a two-level relative base "d1/d2/", the kind `getComparedPath` returns,
      the "." is glued to the first directory: with "css/sub/", "../x.png" becomes
      ".css/x.png". */
  lemma CompareUrlsParentOfRelative(d1: string, d2: string, p: string)
    requires '/' !in d1 && '/' !in d2
    ensures CompareUrls("../" + p, d1 + "/" + d2 + "/") == Some("." + d1 + "/" + p)
  {
    var parts := [d1, d2, ""];
    var base := d1 + "/" + d2 + "/";
    assert parts[1..] == [d2, ""] && [d2, ""][1..] == [""];
    assert Join([d2, ""], "/") == d2 + "/" + "";
    assert Join(parts, "/") == d1 + "/" + (d2 + "/" + "");
    assert d1 + "/" + (d2 + "/" + "") == base;
    SplitJoinSlash(parts);
    assert Popped2(parts) == [d1];
    var u := "../" + p;
    assert u[3..] == p;
    CompareUrlsDotDot(u, base);
  }

  // ---------------------------------------------------------------- relative url rewriting

  /** A piece of a fetched file as the url pattern cuts it: text outside any match,
      or a match with the url between the text before and after it. */
  datatype UrlPiece = Text(text: string) | Link(open: string, url: string, close: string)

  /** The file the pieces were cut from. */
  function Flatten(ps: seq<UrlPiece>): string
  {
    if ps == [] then "" else
      (match ps[0] case Text(t) => t case Link(o, u, c) => o + u + c) + Flatten(ps[1..])
  }

  /** A url as the replacer writes it back; `undefined` is written out as text. */
  function UrlText(u: Option<string>): string
  {
    match u
    case Some(s) => s
    case None => "undefined"
  }

  /** The pieces with each url replaced by `compareUrls(url, base)`. */
  function Relinked(ps: seq<UrlPiece>, base: string): string
  {
    if ps == [] then "" else
      (match ps[0]
       case Text(t) => t
       case Link(o, u, c) => o + UrlText(CompareUrls(u, base)) + c) + Relinked(ps[1..], base)
  }

  /** `cut` finds the url matches of a text and keeps everything else. */
  ghost predicate Cuts(cut: string -> seq<UrlPiece>)
  {
    forall s :: Flatten(cut(s)) == s
  }

  /** `replaceRelativeUrl(style, relativeUrl)` (worker.js:279-305), with the matches of
      its url pattern found by `cut`: a style holding "base64," or "http" anywhere is
      returned as it is. */
  function ReplaceRelativeUrl(style: string, relativeUrl: string, cut: string -> seq<UrlPiece>): (r: string)
    ensures Includes(style, "base64,") || Includes(style, "http") ==> r == style
  {
    if Includes(style, "base64,") || Includes(style, "http") then style
    else Relinked(cut(style), relativeUrl)
  }

  /** `htmlReplaceRelativeUrl(html, relativeUrl)` (worker.js:307-335), with the matches of
      its pattern found by `cut`. */
  function HtmlReplaceRelativeUrl(html: string, relativeUrl: string, cut: string -> seq<UrlPiece>): string
  {
    Relinked(cut(html), relativeUrl)
  }

  /** Without a match nothing is rewritten. */
  lemma {:induction false} RelinkedText(ps: seq<UrlPiece>, base: string)
    requires forall k :: 0 <= k < |ps| ==> ps[k].Text?
    ensures Relinked(ps, base) == Flatten(ps)
  {
    if ps != [] {
      RelinkedText(ps[1..], base);
    }
  }

  /** Each match whose url has no "/" gets the base put in front of its url, and the
      rest of the text is kept. */
  lemma {:induction false} RelinkedNames(ps: seq<UrlPiece>, base: string)
    requires forall k :: 0 <= k < |ps| ==> ps[k].Link? ==> '/' !in ps[k].url
    ensures Relinked(ps, base) == Flatten(Prefixed(ps, base))
  {
    if ps != [] {
      RelinkedNames(ps[1..], base);
      assert Prefixed(ps, base)[1..] == Prefixed(ps[1..], base);
    }
  }

  /** The pieces with `base` put in front of every url. */
  function Prefixed(ps: seq<UrlPiece>, base: string): (r: seq<UrlPiece>)
    ensures |r| == |ps|
  {
    seq(|ps|, k requires 0 <= k < |ps| =>
      match ps[k] case Text(t) => Text(t) case Link(o, u, c) => Link(o, base + u, c))
  }

  /** A file with no url match comes back unchanged from both rewriters. */
  lemma UnlinkedUnchanged(s: string, base: string, cut: string -> seq<UrlPiece>)
    requires Cuts(cut)
    requires forall k :: 0 <= k < |cut(s)| ==> cut(s)[k].Text?
    ensures ReplaceRelativeUrl(s, base, cut) == s && HtmlReplaceRelativeUrl(s, base, cut) == s
  {
    RelinkedText(cut(s), base);
  }

  // ---------------------------------------------------------------- text helpers

  /** `insertMedia(code, media)` (worker.js:364-366). */
  function InsertMedia(code: string, media: string): string
  {
    "@media " + media + " { " + code + " }"
  }

  /** The code inside a media rule written by `InsertMedia` for `media`, if `text` is one. */
  function MediaBody(text: string, media: string): Option<string>
  {
    var head := "@media " + media + " { ";
    if |text| >= |head| + 2 && text[..|head|] == head && text[|text| - 2..] == " }" then
      Some(text[|head|..|text| - 2])
    else None
  }

  /** The wrapped code can be read back out of the media rule. */
  lemma MediaRoundTrip(code: string, media: string)
    ensures MediaBody(InsertMedia(code, media), media) == Some(code)
  {
    var head := "@media " + media + " { ";
    var text := InsertMedia(code, media);
    assert text == head + code + " }";
    assert text[..|head|] == head;
    assert text[|text| - 2..] == " }";
    assert text[|head|..|text| - 2] == code;
  }

  /** `removeComment(html)` (worker.js:430-433): each `<!--` up to the first `-->` after
      it is deleted, scanning left to right; an opener with no closer after it stays. */
  function RemoveComment(html: string): (r: string)
    ensures |r| <= |html|
    ensures IndexOf(html, "<!--") == -1 ==> r == html
    decreases |html|
  {
    var open := IndexOf(html, "<!--");
    if open < 0 then html
    else
      var close := IndexOfFrom(html, "-->", open + 4);
      if close < 0 then html
      else html[..open] + RemoveComment(html[close + 3..])
  }

  /** The first occurrence at or after `from` is what `indexOf(t, from)` finds. */
  lemma FirstOccurrence(s: string, t: string, from: nat, k: nat)
    requires from <= k && OccursAt(s, t, k)
    requires forall j :: from <= j < k ==> !OccursAt(s, t, j)
    ensures IndexOfFrom(s, t, from) == k
  {
  }

  /** A comment is cut out together with its delimiters, and what follows is treated the same way. */
  lemma CommentCut(a: string, b: string, c: string)
    requires '<' !in a && '-' !in b
    ensures RemoveComment(a + "<!--" + b + "-->" + c) == a + RemoveComment(c)
  {
    var s := a + "<!--" + b + "-->" + c;
    var open := |a|;
    assert s[open..open + 4] == "<!--";
    forall j | 0 <= j < open
      ensures !OccursAt(s, "<!--", j)
    {
      if j + 4 <= |s| {
        assert s[j..j + 4][0] == a[j] != "<!--"[0];
      }
    }
    FirstOccurrence(s, "<!--", 0, open);
    assert IndexOf(s, "<!--") == IndexOfFrom(s, "<!--", 0);
    var close := open + 4 + |b|;
    assert s[close..close + 3] == "-->";
    forall j | open + 4 <= j < close
      ensures !OccursAt(s, "-->", j)
    {
      if j + 3 <= |s| {
        assert s[j..j + 3][0] == b[j - open - 4] != "-->"[0];
      }
    }
    FirstOccurrence(s, "-->", open + 4, close);
    assert s[..open] == a && s[close + 3..] == c;
  }

  /** The first loop of `getRelativeUrl` and the loop of `getComparedPath` on the url
      pieces `arrUrl` and the host pieces `stdUrl`: each host piece that matches the url
      piece at its place turns that piece into "."; each other one adds a ".." step,
      where `getComparedPath` (`all` false) skips empty host pieces. */
  method DotPieces(arrUrl: seq<string>, stdUrl: seq<string>, all: bool) returns (added: seq<string>, arr: seq<string>)
    ensures added == Ups(CountClimbs(arrUrl, stdUrl, |stdUrl|, all))
    ensures arr == DottedUpTo(arrUrl, stdUrl, |stdUrl|)
  {
    arr := arrUrl;
    added := [];
    var i := 0;
    while i < |stdUrl|
      invariant i <= |stdUrl|
      invariant added == Ups(CountClimbs(arrUrl, stdUrl, i, all))
      invariant arr == DottedUpTo(arrUrl, stdUrl, i)
    {
      DottedStep(arrUrl, stdUrl, i, all);
      if i >= |arr| || stdUrl[i] != arr[i] {
        if all || stdUrl[i] != "" {
          added := added + [".."];
        }
      } else {
        arr := arr[i := "."];
      }
      i := i + 1;
    }
  }

  /** The second loop of `getRelativeUrl`: mark each "." followed by "." for removal. */
  method MarkDots(a0: seq<string>) returns (arr: seq<string>)
    ensures arr == MarkedUpTo(a0, |a0|)
  {
    arr := a0;
    var i := 0;
    while i < |arr|
      invariant i <= |arr| == |a0|
      invariant arr == MarkedUpTo(a0, i)
    {
      MarkedStep(a0, i);
      if arr[i] == "." && i + 1 < |arr| && arr[i + 1] == "." {
        arr := arr[i := Erase];
      }
      i := i + 1;
    }
  }

  /** The third loop of `getRelativeUrl`: splice out, from the back, the marked pieces
      and every "." but the first. */
  method SweepMarks(b0: seq<string>) returns (arr: seq<string>)
    ensures arr == Swept(b0, 0)
  {
    arr := b0;
    var i := |arr|;
    assert arr == b0[..i] + Swept(b0, i);
    while i > 0
      invariant 0 <= i <= |b0|
      invariant arr == b0[..i] + Swept(b0, i)
    {
      i := i - 1;
      SweptStep(b0, i);
      if arr[i] == Erase {
        arr := arr[..i] + arr[i + 1..];
      } else if arr[i] == "." && i > 0 {
        arr := arr[..i] + arr[i + 1..];
      }
    }
    assert b0[..0] == [];
  }

  /** The three loops of `getRelativeUrl` on the url pieces and the host pieces. */
  method RelativeOfPieces(arrUrl: seq<string>, stdUrl: seq<string>) returns (pieces: seq<string>)
    ensures pieces == RelativePieces(arrUrl, stdUrl)
  {
    var added, arr := DotPieces(arrUrl, stdUrl, true);
    var marked := MarkDots(added + arr);
    pieces := SweepMarks(marked);
  }

  /** The loop of `getComparedPath` on the url pieces and the host pieces: dot the
      matching pieces and put a ".." step in front for each other non-empty host piece. */
  method ComparedOfPieces(arrUrl: seq<string>, stdUrl: seq<string>) returns (pieces: seq<string>)
    ensures pieces == ComparedPieces(arrUrl, stdUrl)
  {
    var added, arr := DotPieces(arrUrl, stdUrl, false);
    pieces := added + arr;
  }

  // ---------------------------------------------------------------- the worker object

  /** The worker's page url and the helpers that read it (worker.js:1-12, 232-278, 405-410). */
  class PathWorker {
    var url: string

    /** A fresh worker has no page url. */
    constructor ()
      ensures url == ""
    {
      url := "";
    }

    /** `readFurther` records the page it reads (worker.js:20). */
    method Visit(pageUrl: string)
      modifies this
      ensures url == pageUrl
    {
      url := pageUrl;
    }

    /** `currentUrl()` (worker.js:405-410): the page url cut after its last "/" into
        host and file name. */
    function CurrentUrl(): (r: (string, string))
      reads this
      ensures r.0 + r.1 == url && '/' !in r.1
      ensures r.0 == "" <==> '/' !in url
      ensures r.0 != "" ==> r.0[|r.0| - 1] == '/'
    {
      var name := LastPiece(url);
      LastSlash(url);
      assert '/' in url ==> url[..|url| - |name|] == OnlyPath(url) + "/";
      (url[..|url| - |name|], name)
    }

    /** `getRelativeUrl(url)` (worker.js:232-257). */
    method GetRelativeUrl(path: string) returns (r: string)
      ensures r == RelativeUrl(path, CurrentUrl().0)
    {
      var host := CurrentUrl().0;
      var pieces := RelativeOfPieces(SplitUrl(path), SplitUrl(host));
      r := "/" + Join(pieces, "/") + "/";
    }

    /** `getComparedPath(url, host)` (worker.js:258-278). */
    method GetComparedPath(fileUrl: string, host: string) returns (r: string)
      ensures r == ComparedPath(fileUrl, host, CurrentUrl().0)
    {
      var u := OnlyPath(fileUrl);
      u := GetRelativeUrl(u);
      var h := GetRelativeUrl(host);
      var pieces := ComparedOfPieces(SplitUrl(u), SplitUrl(h));
      r := Join(pieces, "/") + "/";
    }
  }
}
