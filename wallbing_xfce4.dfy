/** xfce4/wallpapers/wallBing.py: the minimal variant. Every feed item is
    downloaded to "<date>.jpg" unless that file exists; nothing is caught,
    so the first failure ends the run; afterwards the last-image property of
    every connected monitor is pointed at today's file if there is one. */
module WallBingXfce4 {
  import opened Common
  import opened IsoDate
  import opened Monitors
  import opened Xfconf
  import opened Shell
  import opened FileSystem
  import WallBingXfce

  /** How main ends: it returned, or an exception escaped it. */
  datatype RunEnd = Returned | Raised(error: Error)

  // ---------------------------------------------------------------------
  // download_image

  /** download_image(url, path): nothing when the file exists, otherwise
      one request whose body becomes the file; a failed request raises. */
  function FetchInto(files: map<string, Bytes>, url: string, name: string, getImage: string -> Option<Bytes>)
    : (o: Outcome<()>)
    ensures name in files ==> o == Outcome(files, Ok(()), [])
    ensures name !in files ==> o.trace == [FetchImage(url)]
    ensures name !in files && getImage(url).Some? ==>
              o == Outcome(files[name := getImage(url).value], Ok(()), [FetchImage(url)])
    ensures o.result.Ok? ==> name in o.files
    ensures o.result.Err? ==> o.files == files && o.result == Err(HttpError(url))
    ensures Extends(o.files, files) && o.files.Keys <= files.Keys + {name}
  {
    if name in files then Outcome(files, Ok(()), [])
    else
      match getImage(url)
      case None => Outcome(files, Err(HttpError(url)), [FetchImage(url)])
      case Some(bytes) => Outcome(files[name := bytes], Ok(()), [FetchImage(url)])
  }

  /** download_image on the directory. */
  method DownloadImage(dir: Directory, url: string, name: string, getImage: string -> Option<Bytes>)
    returns (result: Result<()>, trace: seq<Event>)
    modifies dir
    ensures Outcome(dir.files, result, trace) == FetchInto(old(dir.files), url, name, getImage)
  {
    if dir.Exists(name) {
      return Ok(()), [];
    }
    trace := [FetchImage(url)];
    var response := getImage(url);
    if response.None? {
      return Err(HttpError(url)), trace;
    }
    dir.Write(name, response.value);
    result := Ok(());
  }

  // ---------------------------------------------------------------------
  // The download loop of main

  /** An item is complete when both keys the loop reads are present. */
  predicate HasKeys(item: FeedItem) {
    item.date.Some? && item.imageUrl.Some?
  }

  /** The file a dated item is saved in: its date followed by ".jpg", the
      same name the other variant caches that item under. */
  function ItemName(item: FeedItem): (name: string)
    requires item.date.Some?
    ensures forall today | Valid(today) :: name == WallBingXfce.CacheName(item, today)
  {
    item.date.value + ".jpg"
  }

  /** The download loop of main: items in order, each saved under its date
      unless the file exists; the date is read first, then the URL (even
      when the file is already there); the first missing key or failed
      request ends it. */
  function DownloadAll(files: map<string, Bytes>, items: seq<FeedItem>, getImage: string -> Option<Bytes>)
    : (o: Outcome<()>)
    ensures Extends(o.files, files)
    ensures o.result.Err? ==> o.result.error.MissingKey? || o.result.error.HttpError?
    decreases |items|
  {
    if items == [] then Outcome(files, Ok(()), [])
    else
      var item := items[0];
      if item.date.None? then Outcome(files, Err(MissingKey("date")), [])
      else if item.imageUrl.None? then Outcome(files, Err(MissingKey("imageUrl")), [])
      else
        var o := FetchInto(files, item.imageUrl.value, ItemName(item), getImage);
        if o.result.Err? then o
        else
          var r := DownloadAll(o.files, items[1..], getImage);
          Outcome(r.files, r.result, o.trace + r.trace)
  }

  /** The loop on the directory. */
  method DownloadFeed(dir: Directory, items: seq<FeedItem>, getImage: string -> Option<Bytes>)
    returns (result: Result<()>, trace: seq<Event>)
    modifies dir
    ensures Outcome(dir.files, result, trace) == DownloadAll(old(dir.files), items, getImage)
  {
    ghost var goal := DownloadAll(dir.files, items, getImage);
    trace := [];
    var i := 0;
    while i < |items|
      invariant 0 <= i <= |items|
      invariant var r := DownloadAll(dir.files, items[i..], getImage);
                goal == Outcome(r.files, r.result, trace + r.trace)
    {
      var item := items[i];
      assert items[i..][0] == item && items[i..][1..] == items[i + 1..];
      if item.date.None? {
        return Err(MissingKey("date")), trace;
      }
      var name := item.date.value + ".jpg";
      if item.imageUrl.None? {
        return Err(MissingKey("imageUrl")), trace;
      }
      ghost var before := dir.files;
      var r, steps := DownloadImage(dir, item.imageUrl.value, name, getImage);
      ghost var o := FetchInto(before, item.imageUrl.value, name, getImage);
      assert dir.files == o.files && r == o.result && steps == o.trace;
      ghost var rest := DownloadAll(dir.files, items[i + 1..], getImage);
      AppendAssoc(trace, steps, rest.trace);
      trace := trace + steps;
      if r.Err? {
        return r, trace;
      }
      i := i + 1;
    }
    assert items[i..] == [];
    assert trace + [] == trace;
    result := Ok(());
  }

  /** A completed loop leaves a file for every item of the feed. */
  lemma {:induction false} DownloadAllComplete(files: map<string, Bytes>, items: seq<FeedItem>,
                                               getImage: string -> Option<Bytes>)
    requires DownloadAll(files, items, getImage).result.Ok?
    ensures forall i | 0 <= i < |items| ::
              HasKeys(items[i]) && ItemName(items[i]) in DownloadAll(files, items, getImage).files
    decreases |items|
  {
    if items != [] {
      var o := FetchInto(files, items[0].imageUrl.value, ItemName(items[0]), getImage);
      DownloadAllComplete(o.files, items[1..], getImage);
      forall i | 0 < i < |items| ensures items[i] == items[1..][i - 1] {
      }
    }
  }

  /** The loop over a + b is the loop over a followed, if it completed, by
      the loop over b on the directory a left behind. */
  lemma {:induction false} DownloadAllAppend(files: map<string, Bytes>, a: seq<FeedItem>, b: seq<FeedItem>,
                                             getImage: string -> Option<Bytes>)
    ensures var x := DownloadAll(files, a, getImage);
            var y := DownloadAll(x.files, b, getImage);
            DownloadAll(files, a + b, getImage)
            == if x.result.Err? then x else Outcome(y.files, y.result, x.trace + y.trace)
    decreases |a|
  {
    if a == [] {
      assert a + b == b;
    } else {
      assert (a + b)[0] == a[0] && (a + b)[1..] == a[1..] + b;
      var item := a[0];
      if HasKeys(item) {
        var o := FetchInto(files, item.imageUrl.value, ItemName(item), getImage);
        if o.result.Ok? {
          DownloadAllAppend(o.files, a[1..], b, getImage);
          var x' := DownloadAll(o.files, a[1..], getImage);
          var y := DownloadAll(x'.files, b, getImage);
          AppendAssoc(o.trace, x'.trace, y.trace);
        }
      }
    }
  }

  /** An item without a URL ends the run even when its file is already
      there: the key is read before download_image looks at the file. */
  lemma MissingUrlAborts(files: map<string, Bytes>, item: FeedItem, rest: seq<FeedItem>,
                         getImage: string -> Option<Bytes>)
    requires item.date.Some? && item.imageUrl.None?
    ensures DownloadAll(files, [item] + rest, getImage) == Outcome(files, Err(MissingKey("imageUrl")), [])
  {
    assert ([item] + rest)[0] == item;
  }

  /** When every item's file is already there, the loop makes no request
      and changes nothing; so a second run after a completed one does
      nothing. */
  lemma {:induction false} AllCachedNoRequests(files: map<string, Bytes>, items: seq<FeedItem>,
                                               getImage: string -> Option<Bytes>)
    requires forall i | 0 <= i < |items| :: HasKeys(items[i]) && ItemName(items[i]) in files
    ensures DownloadAll(files, items, getImage) == Outcome(files, Ok(()), [])
    decreases |items|
  {
    if items != [] {
      forall i | 0 <= i < |items[1..]| ensures HasKeys(items[1..][i]) && ItemName(items[1..][i]) in files {
        assert items[1..][i] == items[i + 1];
      }
      AllCachedNoRequests(files, items[1..], getImage);
    }
  }

  lemma DownloadAllIdempotent(files: map<string, Bytes>, items: seq<FeedItem>, getImage: string -> Option<Bytes>)
    requires DownloadAll(files, items, getImage).result.Ok?
    ensures var first := DownloadAll(files, items, getImage).files;
            DownloadAll(first, items, getImage) == Outcome(first, Ok(()), [])
  {
    DownloadAllComplete(files, items, getImage);
    AllCachedNoRequests(DownloadAll(files, items, getImage).files, items, getImage);
  }

  // ---------------------------------------------------------------------
  // set_wallpaper

  /** The comprehension of set_wallpaper: one xfconf-query per monitor,
      setting only its last-image property, without --create. */
  function LastImageCommands(monitors: seq<string>, imagePath: string): (cmds: seq<Argv>)
    ensures |cmds| == |monitors|
    ensures forall i | 0 <= i < |cmds| ::
              && |cmds[i]| == 7 && cmds[i][..4] == ["xfconf-query", "-c", Channel, "-p"] && cmds[i][5] == "-s"
              && cmds[i][4] == LastImageProperty(monitors[i]) && cmds[i][6] == imagePath
              && "--create" !in cmds[i][..6]
  {
    seq(|monitors|, i requires 0 <= i < |monitors| => SetProperty(LastImageProperty(monitors[i]), imagePath))
  }

  /** The commands follow monitor order: those for a + b are a's, then b's. */
  lemma LastImageCommandsAppend(a: seq<string>, b: seq<string>, imagePath: string)
    ensures LastImageCommands(a + b, imagePath) == LastImageCommands(a, imagePath) + LastImageCommands(b, imagePath)
  {
    var l, r := LastImageCommands(a, imagePath), LastImageCommands(b, imagePath);
    forall i | 0 <= i < |a + b|
      ensures LastImageCommands(a + b, imagePath)[i] == (l + r)[i]
    {
      if i >= |a| { assert (a + b)[i] == b[i - |a|]; }
    }
  }

  /** The two variants agree on the last-image command for each monitor;
      this one only lacks the creation options, which the other variant
      passes, and the image-path command. */
  lemma SameLastImageCommand(monitors: seq<string>, imagePath: string, i: int)
    requires 0 <= i < |monitors|
    ensures |WallBingXfce.XfceCommands(monitors, imagePath)| == 2 * |LastImageCommands(monitors, imagePath)|
    ensures LastImageCommands(monitors, imagePath)[i] + CreateAsString
            == WallBingXfce.XfceCommands(monitors, imagePath)[2 * i]
    ensures WallBingXfce.XfceCommands(monitors, imagePath)[2 * i][7] == "--create"
  {
    WallBingXfce.XfceCommandsAt(monitors, imagePath, i);
  }

  /** set_wallpaper: xrandr, then the commands in monitor order; a program
      that cannot be started raises. */
  method SetWallpaper(imagePath: string, xrandr: Option<string>, starts: Argv -> bool)
    returns (issued: seq<Argv>, ok: bool)
    ensures xrandr.None? ==> issued == [] && !ok
    ensures xrandr.Some? ==>
              var cmds := LastImageCommands(ConnectedMonitors(xrandr.value), imagePath);
              issued == Attempted(cmds, starts) && ok == AllStart(cmds, starts)
  {
    if xrandr.None? {
      return [], false;
    }
    var monitors := ConnectedMonitors(xrandr.value);
    var commands := LastImageCommands(monitors, imagePath);
    issued, ok := RunCommands(commands, starts);
  }

  // ---------------------------------------------------------------------
  // main

  /** main: how it ends, the requests it made and the commands it started.
      `feed` is get_wallpapers_feed's result (None when it raised). */
  method Run(dir: Directory, display: Option<string>, today: Date, feed: Option<seq<FeedItem>>,
              getImage: string -> Option<Bytes>, xrandr: Option<string>, starts: Argv -> bool)
    returns (end: RunEnd, trace: seq<Event>, issued: seq<Argv>)
    requires Valid(today)
    modifies dir
    ensures Extends(dir.files, old(dir.files))
    ensures display.None? || display == Some("") ==>
              end == Returned && trace == [] && issued == [] && dir.files == old(dir.files)
    ensures !(display.None? || display == Some("")) && feed.None? ==>
              end == Raised(FeedUnavailable) && trace == [FetchFeed] && issued == [] && dir.files == old(dir.files)
    ensures !(display.None? || display == Some("")) && feed.Some? ==>
              var d := DownloadAll(old(dir.files), feed.value, getImage);
              var todayName := WallBingXfce.TodayName(today);
              && dir.files == d.files
              && trace == [FetchFeed] + d.trace
              && (d.result.Err? ==> end == Raised(d.result.error) && issued == [])
              && (d.result.Ok? && todayName !in d.files ==> end == Returned && issued == [])
              && (d.result.Ok? && todayName in d.files && xrandr.None? ==>
                    end == Raised(CommandFailed("xrandr")) && issued == [])
              && (d.result.Ok? && todayName in d.files && xrandr.Some? ==>
                    var cmds := LastImageCommands(ConnectedMonitors(xrandr.value), dir.PathOf(todayName));
                    && issued == Attempted(cmds, starts)
                    && (AllStart(cmds, starts) ==> end == Returned)
                    && (!AllStart(cmds, starts) ==> end == Raised(CommandFailed("xfconf-query"))))
  {
    if display.None? || display == Some("") {
      return Returned, [], [];
    }
    trace := [FetchFeed];
    if feed.None? {
      return Raised(FeedUnavailable), trace, [];
    }
    var result, steps := DownloadFeed(dir, feed.value, getImage);
    trace := trace + steps;
    if result.Err? {
      return Raised(result.error), trace, [];
    }
    var todayName := WallBingXfce.TodayName(today);
    issued := [];
    end := Returned;
    if dir.Exists(todayName) {
      var ok;
      issued, ok := SetWallpaper(dir.PathOf(todayName), xrandr, starts);
      if !ok {
        end := Raised(CommandFailed(if xrandr.None? then "xrandr" else "xfconf-query"));
      }
    }
  }
}
