/** xfce/.wallpapers/wallBing.py: the annotating variant. Each feed item is
    cached once under "<date>.jpg", captioned when its page gives text; the
    scan stops at today's file and isolates per-item failures; the wallpaper
    is set on every connected monitor when the desktop is XFCE. */
module WallBingXfce {
  import opened Common
  import opened Text
  import opened IsoDate
  import opened Caption
  import opened Monitors
  import opened Xfconf
  import opened Shell
  import opened FileSystem

  /** The network as the script sees it: the response body of an image
      request (None when requests raised or the status was not 2xx), and
      what came of fetching and parsing a page. */
  datatype Web = Web(getImage: string -> Option<Bytes>, getPage: string -> Page)

  /** add_text_to_image's effect on a file: the re-saved image, or None when
      opening, drawing or saving raised (the error is caught and logged). */
  type Annotator = (Bytes, string) -> Option<Bytes>

  /** The process environment the script reads. */
  datatype Environment = Environment(display: Option<string>, desktop: Option<string>)

  // ---------------------------------------------------------------------
  // Cache naming

  /** The stem of an item's file name: its date when it has one, otherwise
      today's date in ISO form. */
  function DateStem(item: FeedItem, today: Date): (stem: string)
    requires Valid(today)
    ensures item.date.Some? ==> stem == item.date.value
    ensures item.date.None? ==> stem == IsoFormat(today)
  {
    item.date.GetOr(IsoFormat(today))
  }

  /** The stem an undated item falls back on is text that means today: it
      parses back to today's date, and no other valid date has it. */
  lemma UndatedStemIsToday(item: FeedItem, today: Date, other: Date)
    requires Valid(today) && Valid(other) && item.date.None?
    ensures ParseIso(DateStem(item, today)) == Some(today)
    ensures DateStem(item, today) == IsoFormat(other) <==> other == today
  {
    IsoRoundTrip(today);
    IsoRoundTrip(other);
  }

  /** The file an item is cached in: its date stem followed by ".jpg". It
      is today's file exactly when the item is undated or dated today. */
  function CacheName(item: FeedItem, today: Date): (name: string)
    requires Valid(today)
    ensures name == IsoFormat(today) + ".jpg" <==> item.date.None? || item.date == Some(IsoFormat(today))
  {
    var stem := DateStem(item, today);
    if stem + ".jpg" == IsoFormat(today) + ".jpg" then
      SuffixCancel(stem, IsoFormat(today), ".jpg");
      stem + ".jpg"
    else
      stem + ".jpg"
  }

  /** The file main looks for afterwards: today's ISO date followed by
      ".jpg", which is where an undated item is cached. */
  function TodayName(today: Date): (name: string)
    requires Valid(today)
    ensures name == CacheName(FeedItem(None, None, None), today)
  {
    IsoFormat(today) + ".jpg"
  }

  /** The image URL is unusable: the key is absent or the URL is empty. */
  predicate ImageUrlMissing(item: FeedItem) {
    item.imageUrl.None? || item.imageUrl.value == ""
  }

  /** The item has a page URL, present and non-empty. */
  predicate HasPageUrl(item: FeedItem) {
    item.pageUrl.Some? && item.pageUrl.value != ""
  }

  /** The cache names of a list of items. */
  function CacheNames(items: seq<FeedItem>, today: Date): set<string>
    requires Valid(today)
  {
    if items == [] then {} else {CacheName(items[0], today)} + CacheNames(items[1..], today)
  }

  lemma SuffixCancel(a: string, b: string, s: string)
    requires a + s == b + s
    ensures a == b
  {
    assert |a| == |b|;
    assert a == (a + s)[..|a|];
    assert b == (b + s)[..|b|];
  }

  /** The cache name depends on the item's date and on nothing else:
      two items share a file exactly when they have the same date. */
  lemma CacheNameByDate(a: FeedItem, b: FeedItem, today: Date)
    requires Valid(today)
    ensures CacheName(a, today) == CacheName(b, today) <==> DateStem(a, today) == DateStem(b, today)
  {
    if CacheName(a, today) == CacheName(b, today) {
      SuffixCancel(DateStem(a, today), DateStem(b, today), ".jpg");
    }
  }

  /** An item lands in today's file exactly when it has no date or is dated
      today in ISO form. */
  lemma CacheNameIsToday(item: FeedItem, today: Date)
    requires Valid(today)
    ensures CacheName(item, today) == TodayName(today)
            <==> item.date.None? || item.date == Some(IsoFormat(today))
  {
    if CacheName(item, today) == TodayName(today) {
      SuffixCancel(DateStem(item, today), IsoFormat(today), ".jpg");
    }
  }

  // ---------------------------------------------------------------------
  // download_wallpaper

  /** download_wallpaper: what it does to the directory, what it returns or
      raises, and the requests and annotation it performs. */
  function Download(files: map<string, Bytes>, item: FeedItem, today: Date, web: Web, annotate: Annotator)
    : (o: Outcome<string>)
    requires Valid(today)
    ensures ImageUrlMissing(item) ==> o == Outcome(files, Err(MissingImageUrl), [])
    ensures !ImageUrlMissing(item) && CacheName(item, today) in files ==>
              o == Outcome(files, Ok(CacheName(item, today)), [])
    ensures o.result.Ok? ==> o.result.value == CacheName(item, today) && o.result.value in o.files
    ensures o.result.Err? ==> o.files == files
    ensures o.trace != [] ==> !ImageUrlMissing(item) && o.trace[0] == FetchImage(item.imageUrl.value)
  {
    if ImageUrlMissing(item) then Outcome(files, Err(MissingImageUrl), [])
    else
      var name := CacheName(item, today);
      if name in files then Outcome(files, Ok(name), [])
      else
        var url := item.imageUrl.value;
        match web.getImage(url)
        case None => Outcome(files, Err(HttpError(url)), [FetchImage(url)])
        case Some(bytes) =>
          if !HasPageUrl(item) then Outcome(files[name := bytes], Ok(name), [FetchImage(url)])
          else
            var page := item.pageUrl.value;
            var text := GetTextFromUrl(web.getPage(page));
            if text == "" then
              Outcome(files[name := bytes], Ok(name), [FetchImage(url), FetchPage(page)])
            else
              Outcome(files[name := annotate(bytes, text).GetOr(bytes)], Ok(name),
                      [FetchImage(url), FetchPage(page), AnnotateImage(name, text)])
  }

  /** download_wallpaper keeps every existing file byte for byte (it only
      writes the item's file when that file is absent) and creates no file
      but the item's own. */
  lemma DownloadFrame(files: map<string, Bytes>, item: FeedItem, today: Date, web: Web, annotate: Annotator)
    requires Valid(today)
    ensures var o := Download(files, item, today, web, annotate);
            && Extends(o.files, files)
            && o.files.Keys <= files.Keys + {CacheName(item, today)}
  {
  }

  /** download_wallpaper on the directory. */
  method DownloadWallpaper(dir: Directory, item: FeedItem, today: Date, web: Web, annotate: Annotator)
    returns (result: Result<string>, trace: seq<Event>)
    requires Valid(today)
    modifies dir
    ensures Outcome(dir.files, result, trace) == Download(old(dir.files), item, today, web, annotate)
  {
    var dateStr := DateStem(item, today);
    if ImageUrlMissing(item) {
      return Err(MissingImageUrl), [];
    }
    var name := dateStr + ".jpg";
    trace := [];
    if !dir.Exists(name) {
      var url := item.imageUrl.value;
      trace := [FetchImage(url)];
      var response := web.getImage(url);
      if response.None? {
        return Err(HttpError(url)), trace;
      }
      dir.Write(name, response.value);
      if HasPageUrl(item) {
        var page := item.pageUrl.value;
        trace := trace + [FetchPage(page)];
        var text := GetTextFromUrl(web.getPage(page));
        if text != "" {
          AddTextToImage(dir, name, text, annotate);
          trace := trace + [AnnotateImage(name, text)];
        }
      }
    }
    result := Ok(name);
  }

  /** add_text_to_image: re-saves the file with its caption drawn in, or
      leaves it as it was when anything raised. */
  method AddTextToImage(dir: Directory, name: string, text: string, annotate: Annotator)
    requires name in dir.files
    modifies dir
    ensures dir.files == old(dir.files)[name := annotate(old(dir.files)[name], text).GetOr(old(dir.files)[name])]
  {
    var image := dir.Read(name);
    var drawn := annotate(image, text);
    if drawn.Some? {
      dir.Write(name, drawn.value);
    }
  }

  /** Calling download_wallpaper again with the same item, whatever the
      network and the annotator do the second time: after a success or a
      missing image URL it changes nothing, returns the same result and
      makes no request; after a failed request it retries exactly as if the
      first call had not happened. */
  lemma DownloadIdempotent(files: map<string, Bytes>, item: FeedItem, today: Date,
                           web: Web, annotate: Annotator, web': Web, annotate': Annotator)
    requires Valid(today)
    ensures var first := Download(files, item, today, web, annotate);
            var second := Download(first.files, item, today, web', annotate');
            && (first.result.Ok? || first.result == Err(MissingImageUrl) ==>
                  second == Outcome(first.files, first.result, []))
            && (first.result.Err? ==> second == Download(files, item, today, web', annotate'))
  {
  }

  /** A fresh download stores the response bytes, replaced by the annotated
      image only when the item has a page, the page gives caption text and
      the annotator succeeds; annotation happens in no other case. */
  lemma FreshDownload(files: map<string, Bytes>, item: FeedItem, today: Date, web: Web, annotate: Annotator)
    requires Valid(today)
    requires !ImageUrlMissing(item) && CacheName(item, today) !in files
    ensures var url := item.imageUrl.value;
            var o := Download(files, item, today, web, annotate);
            var name := CacheName(item, today);
            && (web.getImage(url).None? ==> o == Outcome(files, Err(HttpError(url)), [FetchImage(url)]))
            && (web.getImage(url).Some? ==>
                  var bytes := web.getImage(url).value;
                  var text := if HasPageUrl(item) then GetTextFromUrl(web.getPage(item.pageUrl.value)) else "";
                  && o.result == Ok(name)
                  && o.files == files[name := if text != "" && annotate(bytes, text).Some?
                                              then annotate(bytes, text).value else bytes]
                  && (AnnotateImage(name, text) in o.trace <==> text != ""))
  {
    var url := item.imageUrl.value;
    var o := Download(files, item, today, web, annotate);
    if web.getImage(url).Some? && HasPageUrl(item) {
      var text := GetTextFromUrl(web.getPage(item.pageUrl.value));
      var name := CacheName(item, today);
      var page := item.pageUrl.value;
      if text == "" {
        assert o.trace == [FetchImage(url), FetchPage(page)];
        assert AnnotateImage(name, text) !in o.trace;
      } else {
        assert o.trace[2] == AnnotateImage(name, text);
      }
    }
  }

  // ---------------------------------------------------------------------
  // The scan in main

  /** The outcome of main's loop over the feed: the directory afterwards,
      whether the loop broke at today's file, and the effects performed. */
  datatype Scanned = Scanned(files: map<string, Bytes>, found: bool, trace: seq<Event>)

  /** The loop of main: download each item in feed order; a failing item is
      skipped; the loop stops once an item resolves to today's file. */
  function Scan(files: map<string, Bytes>, items: seq<FeedItem>, today: Date, web: Web, annotate: Annotator)
    : (s: Scanned)
    requires Valid(today)
    ensures s.found ==> TodayName(today) in s.files
    decreases |items|
  {
    if items == [] then Scanned(files, false, [])
    else
      var o := Download(files, items[0], today, web, annotate);
      if o.result == Ok(TodayName(today)) then Scanned(o.files, true, o.trace)
      else
        var s := Scan(o.files, items[1..], today, web, annotate);
        Scanned(s.files, s.found, o.trace + s.trace)
  }

  /** The scan keeps every file it found, byte for byte, creates only files
      named after feed items, and reports today's file found only when it
      is there. */
  lemma {:induction false} ScanGrows(files: map<string, Bytes>, items: seq<FeedItem>,
                                     today: Date, web: Web, annotate: Annotator)
    requires Valid(today)
    ensures var s := Scan(files, items, today, web, annotate);
            && Extends(s.files, files)
            && s.files.Keys <= files.Keys + CacheNames(items, today)
            && (s.found ==> TodayName(today) in s.files)
    decreases |items|
  {
    if items != [] {
      var o := Download(files, items[0], today, web, annotate);
      DownloadFrame(files, items[0], today, web, annotate);
      if o.result != Ok(TodayName(today)) {
        ScanGrows(o.files, items[1..], today, web, annotate);
      }
    }
  }

  /** The loop of main on the directory. */
  method ScanFeed(dir: Directory, items: seq<FeedItem>, today: Date, web: Web, annotate: Annotator)
    returns (found: bool, trace: seq<Event>)
    requires Valid(today)
    modifies dir
    ensures Scanned(dir.files, found, trace) == Scan(old(dir.files), items, today, web, annotate)
  {
    var todayName := TodayName(today);
    found, trace := false, [];
    ghost var goal := Scan(dir.files, items, today, web, annotate);
    var i := 0;
    while i < |items| && !found
      invariant 0 <= i <= |items|
      invariant found ==> goal == Scanned(dir.files, true, trace)
      invariant !found ==> var s := Scan(dir.files, items[i..], today, web, annotate);
                           goal == Scanned(s.files, s.found, trace + s.trace)
    {
      ghost var before := dir.files;
      var result, steps := DownloadWallpaper(dir, items[i], today, web, annotate);
      ghost var o := Download(before, items[i], today, web, annotate);
      assert dir.files == o.files && result == o.result && steps == o.trace;
      ScanStep(before, items, i, today, web, annotate);
      ghost var rest := Scan(dir.files, items[i + 1..], today, web, annotate);
      AppendAssoc(trace, steps, rest.trace);
      trace := trace + steps;
      found := result == Ok(todayName);
      i := i + 1;
    }
    if !found {
      assert items[i..] == [];
      assert trace + [] == trace;
    }
  }

  /** One iteration of the scan, from item i on. */
  lemma ScanStep(files: map<string, Bytes>, items: seq<FeedItem>, i: int, today: Date, web: Web, annotate: Annotator)
    requires Valid(today) && 0 <= i < |items|
    ensures var o := Download(files, items[i], today, web, annotate);
            var s := Scan(o.files, items[i + 1..], today, web, annotate);
            Scan(files, items[i..], today, web, annotate)
            == if o.result == Ok(TodayName(today)) then Scanned(o.files, true, o.trace)
               else Scanned(s.files, s.found, o.trace + s.trace)
  {
    assert items[i..][0] == items[i] && items[i..][1..] == items[i + 1..];
  }

  /** The scan of a feed starting with `item`. */
  lemma ScanCons(files: map<string, Bytes>, item: FeedItem, rest: seq<FeedItem>,
                 today: Date, web: Web, annotate: Annotator)
    requires Valid(today)
    ensures var o := Download(files, item, today, web, annotate);
            var s := Scan(o.files, rest, today, web, annotate);
            Scan(files, [item] + rest, today, web, annotate)
            == if o.result == Ok(TodayName(today)) then Scanned(o.files, true, o.trace)
               else Scanned(s.files, s.found, o.trace + s.trace)
  {
    assert ([item] + rest)[0] == item && ([item] + rest)[1..] == rest;
  }

  /** Once the scan has stopped at today's file, items after it are never
      looked at: appending more items changes neither the directory, nor the
      result, nor the effects. */
  lemma {:induction false} ScanStopsAtToday(files: map<string, Bytes>, prefix: seq<FeedItem>, rest: seq<FeedItem>,
                                            today: Date, web: Web, annotate: Annotator)
    requires Valid(today)
    requires Scan(files, prefix, today, web, annotate).found
    ensures Scan(files, prefix + rest, today, web, annotate) == Scan(files, prefix, today, web, annotate)
    decreases |prefix|
  {
    assert (prefix + rest)[0] == prefix[0];
    var o := Download(files, prefix[0], today, web, annotate);
    if o.result != Ok(TodayName(today)) {
      assert (prefix + rest)[1..] == prefix[1..] + rest;
      ScanStopsAtToday(o.files, prefix[1..], rest, today, web, annotate);
    }
  }

  /** A failing item leaves the directory as it was and the scan goes on
      with the next item. */
  lemma ScanSkipsFailure(files: map<string, Bytes>, item: FeedItem, rest: seq<FeedItem>,
                         today: Date, web: Web, annotate: Annotator)
    requires Valid(today)
    requires Download(files, item, today, web, annotate).result.Err?
    ensures var s := Scan(files, rest, today, web, annotate);
            Scan(files, [item] + rest, today, web, annotate)
            == Scanned(s.files, s.found, Download(files, item, today, web, annotate).trace + s.trace)
  {
    ScanCons(files, item, rest, today, web, annotate);
  }

  /** A run of failing items, however long, leaves no trace in the
      directory: the scan ends as if they were not in the feed. */
  lemma {:induction false} ScanPastFailures(files: map<string, Bytes>, failing: seq<FeedItem>, rest: seq<FeedItem>,
                                            today: Date, web: Web, annotate: Annotator)
    requires Valid(today)
    requires forall i | 0 <= i < |failing| :: Download(files, failing[i], today, web, annotate).result.Err?
    ensures Scan(files, failing + rest, today, web, annotate).files == Scan(files, rest, today, web, annotate).files
    ensures Scan(files, failing + rest, today, web, annotate).found == Scan(files, rest, today, web, annotate).found
    decreases |failing|
  {
    if failing == [] {
      assert failing + rest == rest;
    } else {
      assert failing + rest == [failing[0]] + (failing[1..] + rest);
      ScanSkipsFailure(files, failing[0], failing[1..] + rest, today, web, annotate);
      ScanPastFailures(files, failing[1..], rest, today, web, annotate);
    }
  }

  /** Running the scan a second time on what the first left behind changes
      nothing in the directory, provided the network and the annotator
      answer every request as they did the first time (a request that
      failed and now succeeds is retried and cached: see `ScanAllCached`
      for what holds under any network). */
  lemma ScanIdempotent(files: map<string, Bytes>, items: seq<FeedItem>, today: Date, web: Web, annotate: Annotator)
    requires Valid(today)
    ensures var first := Scan(files, items, today, web, annotate).files;
            Scan(first, items, today, web, annotate).files == first
  {
    var first := Scan(files, items, today, web, annotate).files;
    ScanGrows(files, items, today, web, annotate);
    ScanAgain(files, first, items, today, web, annotate);
  }

  /** The general form: a directory that holds everything the scan from
      `files` would hold is left unchanged by the scan. */
  lemma {:induction false} ScanAgain(files: map<string, Bytes>, later: map<string, Bytes>, items: seq<FeedItem>,
                                     today: Date, web: Web, annotate: Annotator)
    requires Valid(today)
    requires Extends(later, files)
    requires Extends(later, Scan(files, items, today, web, annotate).files)
    ensures Scan(later, items, today, web, annotate).files == later
    decreases |items|
  {
    if items != [] {
      var item := items[0];
      var o := Download(files, item, today, web, annotate);
      var o' := Download(later, item, today, web, annotate);
      var name := CacheName(item, today);
      if o.result.Ok? {
        if o.result != Ok(TodayName(today)) {
          ScanGrows(o.files, items[1..], today, web, annotate);
        }
        assert name in later;
        assert o' == Outcome(later, Ok(name), []);
        if o.result != Ok(TodayName(today)) {
          ScanAgain(o.files, later, items[1..], today, web, annotate);
        }
      } else {
        assert o.files == files;
        if name in later && !ImageUrlMissing(item) {
          assert o'.files == later;
          if o'.result != Ok(TodayName(today)) {
            ScanAgain(files, later, items[1..], today, web, annotate);
          }
        } else {
          assert o'.result.Err? && o'.files == later;
          ScanAgain(files, later, items[1..], today, web, annotate);
        }
      }
    }
  }

  /** Under any network and annotator, a scan over a directory that already
      holds the file of every item with an image URL makes no request,
      annotates nothing and changes nothing. */
  lemma {:induction false} ScanAllCached(files: map<string, Bytes>, items: seq<FeedItem>,
                                         today: Date, web: Web, annotate: Annotator)
    requires Valid(today)
    requires forall i | 0 <= i < |items| :: ImageUrlMissing(items[i]) || CacheName(items[i], today) in files
    ensures Scan(files, items, today, web, annotate).files == files
    ensures Scan(files, items, today, web, annotate).trace == []
    decreases |items|
  {
    if items != [] {
      var o := Download(files, items[0], today, web, annotate);
      assert ImageUrlMissing(items[0]) || CacheName(items[0], today) in files;
      assert o.files == files && o.trace == [];
      if o.result != Ok(TodayName(today)) {
        forall i | 0 <= i < |items[1..]|
          ensures ImageUrlMissing(items[1..][i]) || CacheName(items[1..][i], today) in files
        {
          assert items[1..][i] == items[i + 1];
        }
        ScanAllCached(files, items[1..], today, web, annotate);
      }
    }
  }

  /** A feed [tomorrow, today, yesterday] whose today item downloads: the
      scan never creates yesterday's file. */
  lemma OlderItemsUntouched(files: map<string, Bytes>, tomorrow: FeedItem, current: FeedItem, yesterday: FeedItem,
                            today: Date, web: Web, annotate: Annotator)
    requires Valid(today)
    requires tomorrow.date.Some? && tomorrow.date != Some(IsoFormat(today))
    requires current.date == Some(IsoFormat(today)) && !ImageUrlMissing(current)
    requires web.getImage(current.imageUrl.value).Some?
    requires yesterday.date.Some? && yesterday.date != Some(IsoFormat(today)) && yesterday.date != tomorrow.date
    requires CacheName(yesterday, today) !in files
    ensures CacheName(yesterday, today) !in Scan(files, [tomorrow, current, yesterday], today, web, annotate).files
  {
    var prefix := [tomorrow, current];
    CacheNameIsToday(tomorrow, today);
    CacheNameIsToday(current, today);
    CacheNameIsToday(yesterday, today);
    CacheNameByDate(yesterday, tomorrow, today);
    var o := Download(files, tomorrow, today, web, annotate);
    assert o.result != Ok(TodayName(today));
    assert prefix[1..] == [current];
    assert Scan(o.files, [current], today, web, annotate).found;
    assert Scan(files, prefix, today, web, annotate).found;
    ScanStopsAtToday(files, prefix, [yesterday], today, web, annotate);
    ScanGrows(files, prefix, today, web, annotate);
    assert prefix + [yesterday] == [tomorrow, current, yesterday];
    assert [current][1..] == [];
    assert CacheNames([current], today) == {CacheName(current, today)};
    assert CacheNames(prefix, today) == {CacheName(tomorrow, today), CacheName(current, today)};
  }

  /** With no item for today and no file for today beforehand, the scan
      leaves no file for today (so main exits with status 1). */
  lemma NoTodayItem(files: map<string, Bytes>, items: seq<FeedItem>, today: Date, web: Web, annotate: Annotator)
    requires Valid(today)
    requires forall i | 0 <= i < |items| :: items[i].date.Some? && items[i].date != Some(IsoFormat(today))
    requires TodayName(today) !in files
    ensures TodayName(today) !in Scan(files, items, today, web, annotate).files
  {
    forall i | 0 <= i < |items| ensures CacheName(items[i], today) != TodayName(today) {
      CacheNameIsToday(items[i], today);
    }
    CacheNamesBound(items, today);
    ScanGrows(files, items, today, web, annotate);
  }

  lemma CacheNamesBound(items: seq<FeedItem>, today: Date)
    requires Valid(today)
    ensures forall n | n in CacheNames(items, today) :: exists i :: 0 <= i < |items| && n == CacheName(items[i], today)
  {
    if items != [] {
      CacheNamesBound(items[1..], today);
      forall n | n in CacheNames(items, today)
        ensures exists i :: 0 <= i < |items| && n == CacheName(items[i], today)
      {
        if n != CacheName(items[0], today) {
          assert n in CacheNames(items[1..], today);
          var j :| 0 <= j < |items[1..]| && n == CacheName(items[1..][j], today);
          assert items[1..][j] == items[j + 1];
        }
      }
    }
  }

  // ---------------------------------------------------------------------
  // Applying the wallpaper

  /** get_desktop_environment: XDG_CURRENT_DESKTOP lower-cased, "unknown"
      when unset. */
  function DesktopEnvironment(xdg: Option<string>): (desktop: string)
    ensures xdg.None? ==> desktop == "unknown"
    ensures xdg.Some? ==>
              && |desktop| == |xdg.value|
              && forall i | 0 <= i < |desktop| ::
                   && !('A' <= desktop[i] <= 'Z')
                   && (desktop[i] == xdg.value[i] || ('A' <= xdg.value[i] <= 'Z' && desktop[i] as int == xdg.value[i] as int + 32))
  {
    Lower(xdg.GetOr("unknown"))
  }

  /** set_wallpaper acts exactly when XDG_CURRENT_DESKTOP spells "xfce" in
      any mix of ASCII upper and lower case ("XFCE", "Xfce", ...). */
  lemma XfceGate(xdg: string)
    ensures DesktopEnvironment(Some(xdg)) == "xfce"
            <==> |xdg| == 4 && forall i | 0 <= i < 4 :: xdg[i] == "xfce"[i] || xdg[i] == "XFCE"[i]
  {
    var d := DesktopEnvironment(Some(xdg));
    if |xdg| == 4 && forall i | 0 <= i < 4 :: xdg[i] == "xfce"[i] || xdg[i] == "XFCE"[i] {
      forall i | 0 <= i < 4 ensures d[i] == "xfce"[i] {
        assert xdg[i] == "xfce"[i] || xdg[i] == "XFCE"[i];
      }
    }
  }

  /** The two xfconf-query invocations per monitor, in monitor order: the
      last-image property first, then image-path, each created as a string
      if missing. */
  function XfceCommands(monitors: seq<string>, imagePath: string): (cmds: seq<Argv>)
    ensures |cmds| == 2 * |monitors|
    ensures forall k | 0 <= k < |cmds| :: |cmds[k]| == 10 && cmds[k][7..] == CreateAsString
  {
    if monitors == [] then []
    else [SetProperty(LastImageProperty(monitors[0]), imagePath) + CreateAsString,
          SetProperty(ImagePathProperty(monitors[0]), imagePath) + CreateAsString]
         + XfceCommands(monitors[1..], imagePath)
  }

  /** Exactly two commands per monitor; the pair at 2i and 2i+1 belongs to
      monitor i. */
  lemma {:induction false} XfceCommandsAt(monitors: seq<string>, imagePath: string, i: int)
    requires 0 <= i < |monitors|
    ensures |XfceCommands(monitors, imagePath)| == 2 * |monitors|
    ensures XfceCommands(monitors, imagePath)[2 * i]
            == SetProperty(LastImageProperty(monitors[i]), imagePath) + CreateAsString
    ensures XfceCommands(monitors, imagePath)[2 * i + 1]
            == SetProperty(ImagePathProperty(monitors[i]), imagePath) + CreateAsString
  {
    if i > 0 {
      XfceCommandsAt(monitors[1..], imagePath, i - 1);
    } else if |monitors| > 1 {
      XfceCommandsAt(monitors[1..], imagePath, 0);
    }
  }

  lemma {:induction false} XfceCommandsAppend(a: seq<string>, b: seq<string>, imagePath: string)
    ensures XfceCommands(a + b, imagePath) == XfceCommands(a, imagePath) + XfceCommands(b, imagePath)
  {
    if a == [] {
      assert a + b == b;
    } else {
      assert (a + b)[0] == a[0] && (a + b)[1..] == a[1..] + b;
      XfceCommandsAppend(a[1..], b, imagePath);
    }
  }

  /** set_wallpaper: nothing but a warning unless the desktop is "xfce";
      otherwise xrandr is run and, for each connected monitor in order, the
      two properties are set. A program that cannot be started raises out
      of set_wallpaper (None for xrandr; `starts` for xfconf-query). */
  method SetWallpaper(imagePath: string, desktop: string, xrandr: Option<string>, starts: Argv -> bool)
    returns (issued: seq<Argv>, ok: bool)
    ensures desktop != "xfce" ==> issued == [] && ok
    ensures desktop == "xfce" && xrandr.None? ==> issued == [] && !ok
    ensures desktop == "xfce" && xrandr.Some? ==>
              var cmds := XfceCommands(ConnectedMonitors(xrandr.value), imagePath);
              issued == Attempted(cmds, starts) && ok == AllStart(cmds, starts)
  {
    if desktop != "xfce" {
      return [], true;
    }
    if xrandr.None? {
      return [], false;
    }
    var monitors := ConnectedMonitors(xrandr.value);
    ghost var cmds := XfceCommands(monitors, imagePath);
    issued := [];
    var i := 0;
    while i < |monitors|
      invariant 0 <= i <= |monitors|
      invariant issued == XfceCommands(monitors[..i], imagePath)
      invariant AllStart(issued, starts)
    {
      var lastImage := SetProperty(LastImageProperty(monitors[i]), imagePath) + CreateAsString;
      var currentImage := SetProperty(ImagePathProperty(monitors[i]), imagePath) + CreateAsString;
      FanOutStep(monitors, i, imagePath);
      PairStep(issued, lastImage, currentImage, XfceCommands(monitors[i + 1..], imagePath), starts);
      issued := issued + [lastImage];
      if !starts(lastImage) {
        return issued, false;
      }
      issued := issued + [currentImage];
      if !starts(currentImage) {
        return issued, false;
      }
      i := i + 1;
    }
    assert monitors[..i] == monitors;
    AttemptedStopsAtFailure(cmds, starts);
    ok := true;
  }

  /** Running the commands issued so far (all of which started), then one
      monitor's pair, then the rest. */
  lemma PairStep(done: seq<Argv>, first: Argv, second: Argv, later: seq<Argv>, starts: Argv -> bool)
    requires AllStart(done, starts)
    ensures var all := done + ([first, second] + later);
            && (!starts(first) ==> Attempted(all, starts) == done + [first] && !AllStart(all, starts))
            && (starts(first) && !starts(second) ==>
                  Attempted(all, starts) == done + [first] + [second] && !AllStart(all, starts))
            && (starts(first) && starts(second) ==>
                  Attempted(all, starts) == (done + [first] + [second]) + Attempted(later, starts)
                  && AllStart(done + [first] + [second], starts))
  {
    var all := done + ([first, second] + later);
    AttemptedAppend(done, [first, second] + later, starts);
    AttemptedStep([first, second] + later, starts);
    assert ([first, second] + later)[1..] == [second] + later;
    AttemptedStep([second] + later, starts);
    assert ([second] + later)[1..] == later;
    if !starts(first) {
      assert all[|done|] == first;
    } else if !starts(second) {
      assert all[|done| + 1] == second;
    } else {
      assert done + [first] + [second] == done + [first, second];
      AppendAssoc(done, [first, second], Attempted(later, starts));
    }
  }

  /** The commands for monitors[..i+1] extend those for monitors[..i] by
      monitor i's pair, and the rest follow. */
  lemma FanOutStep(monitors: seq<string>, i: int, imagePath: string)
    requires 0 <= i < |monitors|
    ensures var pair := [SetProperty(LastImageProperty(monitors[i]), imagePath) + CreateAsString,
                         SetProperty(ImagePathProperty(monitors[i]), imagePath) + CreateAsString];
            && XfceCommands(monitors[..i + 1], imagePath) == XfceCommands(monitors[..i], imagePath) + pair
            && XfceCommands(monitors, imagePath)
               == XfceCommands(monitors[..i], imagePath) + (pair + XfceCommands(monitors[i + 1..], imagePath))
  {
    var m := monitors[i];
    assert monitors[..i + 1] == monitors[..i] + [m];
    XfceCommandsAppend(monitors[..i], [m], imagePath);
    assert [m][1..] == [];
    assert monitors == monitors[..i] + ([m] + monitors[i + 1..]);
    XfceCommandsAppend(monitors[..i], [m] + monitors[i + 1..], imagePath);
    assert ([m] + monitors[i + 1..])[1..] == monitors[i + 1..];
  }

  // ---------------------------------------------------------------------
  // main

  /** DISPLAY is unset or empty. */
  predicate DisplayMissing(env: Environment) {
    env.display.None? || env.display.value == ""
  }

  /** main: the exit status, the effects performed and the commands
      started. `feed` is get_feed's result (None when it raised). */
  method Run(dir: Directory, env: Environment, today: Date, feed: Option<seq<FeedItem>>, web: Web,
              annotate: Annotator, xrandr: Option<string>, starts: Argv -> bool)
    returns (status: int, trace: seq<Event>, issued: seq<Argv>)
    requires Valid(today)
    modifies dir
    ensures status == 0 || status == 1
    ensures status == 0 ==> TodayName(today) in dir.files
    ensures Extends(dir.files, old(dir.files))
    ensures DisplayMissing(env) ==> status == 1 && trace == [] && issued == [] && dir.files == old(dir.files)
    ensures !DisplayMissing(env) && feed.None? ==>
              status == 1 && trace == [FetchFeed] && issued == [] && dir.files == old(dir.files)
    ensures !DisplayMissing(env) && feed.Some? ==>
              var s := Scan(old(dir.files), feed.value, today, web, annotate);
              var desktop := DesktopEnvironment(env.desktop);
              && dir.files == s.files
              && trace == [FetchFeed] + s.trace
              && (TodayName(today) !in s.files ==> status == 1 && issued == [])
              && (TodayName(today) in s.files && desktop != "xfce" ==> status == 0 && issued == [])
              && (TodayName(today) in s.files && desktop == "xfce" && xrandr.None? ==> status == 1 && issued == [])
              && (TodayName(today) in s.files && desktop == "xfce" && xrandr.Some? ==>
                    var cmds := XfceCommands(ConnectedMonitors(xrandr.value), dir.PathOf(TodayName(today)));
                    issued == Attempted(cmds, starts) && (status == 0 <==> AllStart(cmds, starts)))
  {
    if DisplayMissing(env) {
      return 1, [], [];
    }
    trace := [FetchFeed];
    if feed.None? {
      return 1, trace, [];
    }
    var todayName := TodayName(today);
    ScanGrows(dir.files, feed.value, today, web, annotate);
    var found, steps := ScanFeed(dir, feed.value, today, web, annotate);
    trace := trace + steps;
    if !dir.Exists(todayName) {
      return 1, trace, [];
    }
    var desktop := DesktopEnvironment(env.desktop);
    var ok;
    issued, ok := SetWallpaper(dir.PathOf(todayName), desktop, xrandr, starts);
    status := if ok then 0 else 1;
  }
}
