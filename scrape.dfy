/** The page downloader's driver: a page specification such as `"1,2,10-20"` is
    expanded into page indices, each index into the article's URL, and each URL
    into one download action. The download itself (a headless browser and a
    file write) is an action recorded in a trace. */
module Scrape {
  import opened Wrappers
  import opened Strings

  /** `URL_BASE` with its `{}` placeholder at the end. */
  const UrlBase: string := "https://ordbokene.no/bm/"

  /** `URL_BASE.format(i)`. */
  function Url(i: int): (r: string)
    ensures |r| > |UrlBase| && r[..|UrlBase|] == UrlBase
  {
    UrlBase + IntToString(i)
  }

  /** The index can be read back from the URL: what follows `URL_BASE` converts to it. */
  lemma UrlIndex(i: int)
    ensures ParseInt(Url(i)[|UrlBase|..]) == Some(i)
  {
    assert Url(i)[|UrlBase|..] == IntToString(i);
    ParseIntToString(i);
  }

  /** The file `download_page` writes: `page_<last '/'-segment of the URL>.html`. */
  function PageFileName(url: string): (r: string)
    ensures '/' !in r
  {
    var segments := Split(url, '/');
    var name := "page_" + segments[|segments| - 1] + ".html";
    assert forall k :: 0 <= k < |"page_"| ==> "page_"[k] != '/';
    assert forall k :: 0 <= k < |".html"| ==> ".html"[k] != '/';
    name
  }

  /** The article with index `i` is saved as `page_<i>.html`. */
  lemma PageFileNameOfUrl(i: int)
    ensures PageFileName(Url(i)) == "page_" + IntToString(i) + ".html"
  {
    IntToStringChars(i);
    assert '/' !in IntToString(i);
    assert UrlBase == "https://ordbokene.no/bm" + ['/'];
    assert Url(i) == "https://ordbokene.no/bm" + ['/'] + IntToString(i);
    LastPiece("https://ordbokene.no/bm", IntToString(i), '/');
  }

  /** One call of `download_page(url, dest_dir)`. */
  datatype Download = Download(url: string, destDir: string)

  /** Why a page specification is refused: an `int()` that raised on the given piece,
      or a range with more than two ends. */
  datatype PageSpecError = InvalidLiteral(piece: string) | TooManyValues

  /** `range(start, end + 1)`: the indices from `start` to `end`, empty when `start > end`. */
  function Range(start: int, end: int): (r: seq<int>)
    ensures |r| == if start <= end then end - start + 1 else 0
    ensures forall k :: 0 <= k < |r| ==> r[k] == start + k
    decreases end - start + 1
  {
    if start > end then [] else Range(start, end - 1) + [end]
  }

  /** The pages one stripped part of the specification stands for. A part with a `-` is a
      range whose pieces are converted lazily while they are unpacked into two ends, so the
      first failing one among the first three is reported, and a third piece that converts
      still makes the unpacking fail. */
  function PartPages(part: string): Result<seq<int>, PageSpecError> {
    if '-' in part then
      var ends := Split(part, '-');
      SplitPresent(part, '-');
      if ParseInt(ends[0]).None? then Err(InvalidLiteral(ends[0]))
      else if ParseInt(ends[1]).None? then Err(InvalidLiteral(ends[1]))
      else if |ends| > 2 && ParseInt(ends[2]).None? then Err(InvalidLiteral(ends[2]))
      else if |ends| > 2 then Err(TooManyValues)
      else Ok(Range(ParseInt(ends[0]).value, ParseInt(ends[1]).value))
    else
      match ParseInt(part)
      case None => Err(InvalidLiteral(part))
      case Some(i) => Ok([i])
  }

  /** What a page specification expands to: the indices of the parts before the first bad
      one, in order, and the error of that part if there is one. */
  datatype Expansion = Expansion(pages: seq<int>, error: Option<PageSpecError>)

  /** The expansion of the comma-separated parts `parts`, each stripped first. */
  function Expand(parts: seq<string>): (r: Expansion)
    ensures r.error.Some? ==> |parts| > 0
    decreases |parts|
  {
    if parts == [] then Expansion([], None)
    else
      ExpandNext(Expand(parts[..|parts| - 1]), PartPages(Strip(parts[|parts| - 1])))
  }

  /** One step of the loop over the parts: a stopped expansion stays stopped; otherwise
      the part's refusal stops it, or the part's pages are appended. */
  function ExpandNext(init: Expansion, last: Result<seq<int>, PageSpecError>): (r: Expansion)
    ensures init.error.Some? ==> r == init
    ensures init.error.None? && last.Err? ==> r == Expansion(init.pages, Some(last.error))
    ensures init.error.None? && last.Ok? ==> r == Expansion(init.pages + last.value, None)
  {
    if init.error.Some? then init
    else
      match last
      case Err(e) => Expansion(init.pages, Some(e))
      case Ok(ps) => Expansion(init.pages + ps, None)
  }

  /** The download actions for `pages`, in order. */
  function Downloads(pages: seq<int>, destDir: string): seq<Download> {
    seq(|pages|, k requires 0 <= k < |pages| => Download(Url(pages[k]), destDir))
  }

  /** The inner loop of `download_pages` for a range: one download of each index's URL, from `start` to `end`. */
  method DownloadRange(start: int, end: int, destDir: string) returns (actions: seq<Download>)
    ensures actions == Downloads(Range(start, end), destDir)
  {
    actions := [];
    var i := start;
    while i <= end
      invariant start <= i <= if start <= end then end + 1 else start
      invariant actions == Downloads(Range(start, i - 1), destDir)
    {
      DownloadsSnoc(Range(start, i - 1), i, destDir);
      actions := actions + [Download(Url(i), destDir)];
      i := i + 1;
    }
  }

  /** The downloads of one stripped part, issued index by index; `error` is the part's
      refusal, raised before any of its downloads. */
  method DownloadPart(part: string, destDir: string) returns (actions: seq<Download>, error: Option<PageSpecError>)
    ensures PartPages(part).Err? ==> actions == [] && error == Some(PartPages(part).error)
    ensures PartPages(part).Ok? ==> actions == Downloads(PartPages(part).value, destDir) && error == None
  {
    actions := [];
    error := None;
    var range, refusal := PartEnds(part);
    if refusal.Some? {
      error := refusal;
    } else if '-' in part {
      actions := DownloadRange(range.0, range.1, destDir);
    } else {
      DownloadsSnoc([], range.0, destDir);
      actions := [Download(Url(range.0), destDir)];
    }
  }

  /** The conversions of `download_pages` for one stripped part: both ends of a range, or
      the single page (given as both ends), or the refusal of the first piece that fails. */
  method PartEnds(part: string) returns (range: (int, int), error: Option<PageSpecError>)
    ensures PartPages(part).Err? <==> error.Some?
    ensures PartPages(part).Err? ==> error == Some(PartPages(part).error)
    ensures PartPages(part).Ok? && '-' in part ==> PartPages(part).value == Range(range.0, range.1)
    ensures PartPages(part).Ok? && '-' !in part ==> PartPages(part).value == [range.0]
  {
    range := (0, 0);
    error := None;
    if '-' in part {
      var ends := Split(part, '-');
      SplitPresent(part, '-');
      var start := ParseInt(ends[0]);
      if start.None? {
        assert PartPages(part) == Err(InvalidLiteral(ends[0]));
        error := Some(InvalidLiteral(ends[0]));
        return;
      }
      var end := ParseInt(ends[1]);
      if end.None? {
        assert PartPages(part) == Err(InvalidLiteral(ends[1]));
        error := Some(InvalidLiteral(ends[1]));
        return;
      }
      if |ends| > 2 {
        if ParseInt(ends[2]).None? {
          assert PartPages(part) == Err(InvalidLiteral(ends[2]));
          error := Some(InvalidLiteral(ends[2]));
        } else {
          assert PartPages(part) == Err(TooManyValues);
          error := Some(TooManyValues);
        }
        return;
      }
      assert PartPages(part) == Ok(Range(start.value, end.value));
      range := (start.value, end.value);
    } else {
      var page := ParseInt(part);
      if page.None? {
        assert PartPages(part) == Err(InvalidLiteral(part));
        error := Some(InvalidLiteral(part));
        return;
      }
      assert PartPages(part) == Ok([page.value]);
      range := (page.value, page.value);
    }
  }

  /** `download_pages(indexes, dest_dir)`: the actions issued, in order, and the error
      that ended the run early, if any. Actions issued before the error stay issued. */
  method DownloadPages(indexes: string, destDir: string) returns (trace: seq<Download>, error: Option<PageSpecError>)
    ensures trace == Downloads(Expand(Split(indexes, ',')).pages, destDir)
    ensures error == Expand(Split(indexes, ',')).error
  {
    var parts := Split(indexes, ',');
    trace := [];
    error := None;
    var n := 0;
    while n < |parts|
      invariant 0 <= n <= |parts|
      invariant Expand(parts[..n]).error == None
      invariant trace == Downloads(Expand(parts[..n]).pages, destDir)
    {
      var actions, e := DownloadPart(Strip(parts[n]), destDir);
      ExpandStep(parts, n);
      if e.Some? {
        error := e;
        return;
      }
      DownloadsAppend(Expand(parts[..n]).pages, PartPages(Strip(parts[n])).value, destDir);
      trace := trace + actions;
      n := n + 1;
    }
    assert parts[..n] == parts;
  }

  /** One more part: either it is refused and the whole expansion stops with its error,
      or its pages follow the pages so far. */
  lemma ExpandStep(parts: seq<string>, n: nat)
    requires n < |parts| && Expand(parts[..n]).error.None?
    ensures PartPages(Strip(parts[n])).Err? ==>
      Expand(parts) == Expansion(Expand(parts[..n]).pages, Some(PartPages(Strip(parts[n])).error))
    ensures PartPages(Strip(parts[n])).Ok? ==>
      Expand(parts[..n + 1]) == Expansion(Expand(parts[..n]).pages + PartPages(Strip(parts[n])).value, None)
  {
    ExpandPrefix(parts, n);
    if PartPages(Strip(parts[n])).Err? {
      ExpandStops(parts, n + 1);
    }
  }

  /** The expansion of the first `n + 1` parts, from that of the first `n`. */
  lemma ExpandPrefix(parts: seq<string>, n: nat)
    requires n < |parts|
    ensures Expand(parts[..n + 1]) == ExpandNext(Expand(parts[..n]), PartPages(Strip(parts[n])))
  {
    var prefix := parts[..n + 1];
    assert prefix[..n] == parts[..n];
    assert prefix[n] == parts[n];
  }

  lemma RangeSnoc(start: int, i: int)
    requires start <= i
    ensures Range(start, i) == Range(start, i - 1) + [i]
  {
  }

  lemma DownloadsSnoc(pages: seq<int>, i: int, destDir: string)
    ensures Downloads(pages + [i], destDir) == Downloads(pages, destDir) + [Download(Url(i), destDir)]
  {
    assert (pages + [i])[..|pages|] == pages;
  }

  /** A part, once stripped, is accepted by `part_pages`. */
  predicate Accepted(part: string) {
    PartPages(Strip(part)).Ok?
  }

  /** Every element of `xs` satisfies `f`, checked from the last element back. */
  ghost predicate AllOf(f: string -> bool, xs: seq<string>)
    decreases |xs|
  {
    xs == [] || (AllOf(f, xs[..|xs| - 1]) && f(xs[|xs| - 1]))
  }

  lemma {:induction false} AllOfIff(f: string -> bool, xs: seq<string>)
    ensures AllOf(f, xs) <==> forall k :: 0 <= k < |xs| ==> f(xs[k])
    decreases |xs|
  {
    if xs != [] {
      var init := xs[..|xs| - 1];
      AllOfIff(f, init);
      assert forall k :: 0 <= k < |init| ==> init[k] == xs[k];
    }
  }

  lemma {:induction false} ExpandErrorFree(parts: seq<string>)
    ensures Expand(parts).error.None? <==> AllOf(Accepted, parts)
    decreases |parts|
  {
    if parts != [] {
      ExpandErrorFree(parts[..|parts| - 1]);
    }
  }

  /** The expansion is free of errors exactly when every stripped part is accepted. */
  lemma ExpandErrorIff(parts: seq<string>)
    ensures Expand(parts).error.None? <==> forall k :: 0 <= k < |parts| ==> Accepted(parts[k])
  {
    ExpandErrorFree(parts);
    AllOfIff(Accepted, parts);
  }

  /** Once a part is refused, the parts after it are never looked at. */
  lemma {:induction false} ExpandStops(parts: seq<string>, n: nat)
    requires n <= |parts| && Expand(parts[..n]).error.Some?
    ensures Expand(parts) == Expand(parts[..n])
    decreases |parts| - n
  {
    if n < |parts| {
      ExpandPrefix(parts, n);
      ExpandStops(parts, n + 1);
    } else {
      assert parts[..n] == parts;
    }
  }

  lemma DownloadsAppend(a: seq<int>, b: seq<int>, destDir: string)
    ensures Downloads(a + b, destDir) == Downloads(a, destDir) + Downloads(b, destDir)
  {
  }

  /** Each refusal names its cause: the piece reported does not convert, and the
      unpacking error comes only from a range with more than two pieces. */
  lemma PartPagesErrors(part: string)
    ensures PartPages(part).Err? && PartPages(part).error.InvalidLiteral? ==>
              ParseInt(PartPages(part).error.piece).None?
    ensures PartPages(part).Err? && PartPages(part).error.TooManyValues? ==>
              '-' in part && |Split(part, '-')| > 2
  {
    if '-' in part {
      var ends := Split(part, '-');
      SplitPresent(part, '-');
      if ParseInt(ends[0]).None? {
        assert PartPages(part) == Err(InvalidLiteral(ends[0]));
      } else if ParseInt(ends[1]).None? {
        assert PartPages(part) == Err(InvalidLiteral(ends[1]));
      } else if |ends| > 2 && ParseInt(ends[2]).None? {
        assert PartPages(part) == Err(InvalidLiteral(ends[2]));
      } else if |ends| > 2 {
        assert PartPages(part) == Err(TooManyValues);
      } else {
        assert PartPages(part).Ok?;
      }
    } else if ParseInt(part).None? {
      assert PartPages(part) == Err(InvalidLiteral(part));
    } else {
      assert PartPages(part).Ok?;
    }
  }

  /** A part with more than two `-`-separated pieces is refused. */
  lemma PartPagesTooMany(part: string)
    requires '-' in part && |Split(part, '-')| > 2
    ensures PartPages(part).Err?
  {
    var ends := Split(part, '-');
    var a, b, c := ParseInt(ends[0]), ParseInt(ends[1]), ParseInt(ends[2]);
    if a.None? {
      assert PartPages(part) == Err(InvalidLiteral(ends[0]));
    } else if b.None? {
      assert PartPages(part) == Err(InvalidLiteral(ends[1]));
    } else if c.None? {
      assert PartPages(part) == Err(InvalidLiteral(ends[2]));
    } else {
      assert PartPages(part) == Err(TooManyValues);
    }
  }

  /** An accepted part with a `-` has exactly two ends, both converting, and stands for
      the inclusive range between them. */
  lemma PartPagesRangeAccepted(part: string)
    requires '-' in part && PartPages(part).Ok?
    ensures |Split(part, '-')| == 2
    ensures ParseInt(Split(part, '-')[0]).Some? && ParseInt(Split(part, '-')[1]).Some?
    ensures PartPages(part).value == Range(ParseInt(Split(part, '-')[0]).value, ParseInt(Split(part, '-')[1]).value)
  {
    SplitPresent(part, '-');
    if |Split(part, '-')| > 2 {
      PartPagesTooMany(part);
    }
  }

  /** Conversely, a part with a `-` between two converting ends is accepted. */
  lemma PartPagesRangeOfEnds(part: string)
    requires '-' in part && |Split(part, '-')| == 2
    requires ParseInt(Split(part, '-')[0]).Some? && ParseInt(Split(part, '-')[1]).Some?
    ensures PartPages(part).Ok?
  {
  }

  /** A part without a `-` is accepted exactly when it converts, and stands for that one page. */
  lemma PartPagesSingleIff(part: string)
    requires '-' !in part
    ensures PartPages(part).Ok? <==> ParseInt(part).Some?
    ensures PartPages(part).Ok? ==> PartPages(part).value == [ParseInt(part).value]
  {
  }

  /** A page written in decimal stands for itself. */
  lemma PartPagesOfIndex(i: nat)
    ensures PartPages(IntToString(i)) == Ok([i])
  {
    IntToStringChars(i);
    assert '-' !in IntToString(i);
    ParseIntToString(i);
  }

  /** `start-end` written in decimal stands for the range from `start` to `end`. */
  lemma PartPagesOfRange(start: nat, end: nat)
    ensures PartPages(IntToString(start) + "-" + IntToString(end)) == Ok(Range(start, end))
  {
    var a := IntToString(start);
    var b := IntToString(end);
    IntToStringChars(start);
    IntToStringChars(end);
    assert '-' !in a && '-' !in b;
    var part := a + "-" + b;
    assert part[|a|] == '-';
    SplitAtFirst(a, b, '-');
    SplitAbsent(b, '-');
    assert Split(part, '-') == [a, b];
    ParseIntToString(start);
    ParseIntToString(end);
  }

  /** A negative single page cannot be asked for: its sign is taken for a range with an
      empty start. */
  lemma NegativePageRefused(i: nat)
    requires i > 0
    ensures PartPages("-" + IntToString(i)) == Err(InvalidLiteral(""))
  {
    var part := "-" + IntToString(i);
    assert part[0] == '-';
    assert part == "" + ['-'] + IntToString(i);
    SplitAtFirst("", IntToString(i), '-');
    var t := Strip("");
    assert t == "";
  }
}
